/** An optional value, for the places where the C code can yield nothing usable. */
module Options {
  datatype Option<T> = None | Some(value: T)
}
