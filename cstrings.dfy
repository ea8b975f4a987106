/**
 * The C library string routines the server and the client rely on, modelled
 * on strings without a terminating NUL:
 *  - `strtok` with a one-character delimiter set (Tokens),
 *  - `atoi` (Atoi) and `sprintf("%d")` (IntToString),
 *  - the `fscanf` conversion `%[^c]` followed by a whitespace directive (ScanAt).
 */
module CStrings {

  /** The characters C's isspace accepts. */
  predicate IsSpace(c: char) {
    c == ' ' || c == '\t' || c == '\n' || c == '\r' || c == '\U{B}' || c == '\U{C}'
  }

  predicate IsDigit(c: char) {
    '0' <= c <= '9'
  }

  /** Number of leading whitespace characters of s. */
  function SkipSpaces(s: string): (n: nat)
    ensures n <= |s|
  {
    if s == [] || !IsSpace(s[0]) then 0 else 1 + SkipSpaces(s[1..])
  }

  /** Length of the longest prefix of s that does not contain stop. */
  function FieldEnd(s: string, stop: char): (n: nat)
    ensures n <= |s|
  {
    if s == [] || s[0] == stop then 0 else 1 + FieldEnd(s[1..], stop)
  }

  /** The field ends at the first stop character, or at the end of s. */
  lemma {:induction false} FieldEndStops(s: string, stop: char)
    ensures stop !in s[..FieldEnd(s, stop)]
    ensures FieldEnd(s, stop) < |s| ==> s[FieldEnd(s, stop)] == stop
  {
    if s != [] && s[0] != stop {
      FieldEndStops(s[1..], stop);
      assert s[..FieldEnd(s, stop)] == [s[0]] + s[1..][..FieldEnd(s[1..], stop)];
    }
  }

  lemma {:induction false} FieldEndOf(x: string, stop: char, y: string)
    requires stop !in x
    requires y == [] || y[0] == stop
    ensures FieldEnd(x + y, stop) == |x|
  {
    if x != [] {
      assert (x + y)[1..] == x[1..] + y;
      FieldEndOf(x[1..], stop, y);
    }
  }

  // ---------------------------------------------------------------------
  // strtok

  /**
   * The tokens successive strtok calls return for delimiter d: the maximal
   * non-empty runs of characters other than d, in order. Runs of delimiters,
   * and delimiters at either end, produce no token.
   */
  function Tokens(s: string, d: char): (ts: seq<string>)
    ensures forall i :: 0 <= i < |ts| ==> ts[i] != [] && d !in ts[i]
    decreases |s|
  {
    if s == [] then []
    else if s[0] == d then Tokens(s[1..], d)
    else
      var n := FieldEnd(s, d);
      FieldEndStops(s, d);
      [s[..n]] + Tokens(s[n..], d)
  }

  /** The fields ts written one after the other with d between them. */
  function JoinWith(ts: seq<string>, d: char): string
  {
    if ts == [] then []
    else if |ts| == 1 then ts[0]
    else ts[0] + [d] + JoinWith(ts[1..], d)
  }

  /** Joining fields that lack c, with a delimiter other than c, gives a string without c. */
  lemma {:induction false} JoinWithExcludes(ts: seq<string>, d: char, c: char)
    requires c != d && forall i :: 0 <= i < |ts| ==> c !in ts[i]
    ensures c !in JoinWith(ts, d)
  {
    if |ts| > 1 {
      JoinWithExcludes(ts[1..], d, c);
      assert JoinWith(ts, d) == ts[0] + ([d] + JoinWith(ts[1..], d));
    }
  }

  /** strtok recovers exactly the fields that were joined, when none is empty or holds d. */
  lemma {:induction false} TokensOfJoin(ts: seq<string>, d: char)
    requires forall i :: 0 <= i < |ts| ==> ts[i] != [] && d !in ts[i]
    ensures Tokens(JoinWith(ts, d), d) == ts
  {
    if ts == [] {
    } else if |ts| == 1 {
      var t := ts[0];
      FieldEndOf(t, d, []);
      assert t + [] == t;
      assert t[0] != d by { assert t[0] in t; }
      assert t[|t|..] == [];
      assert t[..|t|] == t;
      assert Tokens(t, d) == [t] + Tokens([], d);
    } else {
      var s := JoinWith(ts, d);
      var rest := JoinWith(ts[1..], d);
      assert s == ts[0] + ([d] + rest);
      FieldEndOf(ts[0], d, [d] + rest);
      assert s[..|ts[0]|] == ts[0];
      assert s[|ts[0]|..] == [d] + rest;
      assert ([d] + rest)[1..] == rest;
      TokensOfJoin(ts[1..], d);
    }
  }

  // ---------------------------------------------------------------------
  // atoi and sprintf("%d")

  function DigitValue(c: char): int {
    c as int - '0' as int
  }

  function DigitChar(d: nat): char
    requires d < 10
  {
    ('0' as int + d) as char
  }

  /** Length of the longest all-digit prefix of s. */
  function DigitRun(s: string): (n: nat)
    ensures n <= |s|
    ensures forall k :: 0 <= k < n ==> IsDigit(s[k])
    ensures n < |s| ==> !IsDigit(s[n])
  {
    if s == [] || !IsDigit(s[0]) then 0 else 1 + DigitRun(s[1..])
  }

  /** The decimal value of a string of digits. */
  function DigitsValue(ds: string): int
  {
    if ds == [] then 0 else DigitsValue(ds[..|ds| - 1]) * 10 + DigitValue(ds[|ds| - 1])
  }

  /**
   * atoi: leading whitespace is skipped, one optional sign is read, then the
   * longest run of digits; anything after it is ignored, and no digits at all
   * give 0.
   */
  function Atoi(s: string): (n: int)
    ensures (forall k :: 0 <= k < |s| ==> !IsDigit(s[k])) ==> n == 0
  {
    var t := s[SkipSpaces(s)..];
    if t != [] && t[0] == '-' then -DigitsValue(t[1..][..DigitRun(t[1..])])
    else if t != [] && t[0] == '+' then DigitsValue(t[1..][..DigitRun(t[1..])])
    else DigitsValue(t[..DigitRun(t)])
  }

  /** sprintf("%d") of a natural number. */
  function NatToString(n: nat): (s: string)
    ensures s != [] && forall k :: 0 <= k < |s| ==> IsDigit(s[k])
  {
    if n < 10 then [DigitChar(n)] else NatToString(n / 10) + [DigitChar(n % 10)]
  }

  /** sprintf("%d"). */
  function IntToString(n: int): (s: string)
    ensures s != [] && !IsSpace(s[0])
    ensures forall k :: 0 <= k < |s| ==> IsDigit(s[k]) || s[k] == '-'
  {
    if n < 0 then "-" + NatToString(-n) else NatToString(n)
  }

  lemma {:induction false} DigitsValueOfNatToString(n: nat)
    ensures DigitsValue(NatToString(n)) == n
  {
    if n >= 10 {
      var s := NatToString(n);
      assert s[..|s| - 1] == NatToString(n / 10);
      DigitsValueOfNatToString(n / 10);
    }
  }

  lemma {:induction false} DigitRunAll(s: string)
    requires forall k :: 0 <= k < |s| ==> IsDigit(s[k])
    ensures DigitRun(s) == |s|
  {
    if s != [] {
      DigitRunAll(s[1..]);
    }
  }

  /** atoi reads back what sprintf("%d") wrote. */
  lemma AtoiOfIntToString(n: int)
    ensures Atoi(IntToString(n)) == n
  {
    var s := IntToString(n);
    assert SkipSpaces(s) == 0;
    assert s[0..] == s;
    if n < 0 {
      var m := NatToString(-n);
      assert s[1..] == m;
      DigitRunAll(m);
      assert m[..|m|] == m;
      DigitsValueOfNatToString(-n);
    } else {
      DigitRunAll(s);
      assert s[..|s|] == s;
      DigitsValueOfNatToString(n);
    }
  }

  // ---------------------------------------------------------------------
  // fscanf "%[^c]" followed by a whitespace directive, on a stream position

  /** The first position at or after i that holds stop, or the end of s. */
  function FieldEndAt(s: string, i: nat, stop: char): (e: nat)
    requires i <= |s|
    ensures i <= e <= |s|
    decreases |s| - i
  {
    if i == |s| || s[i] == stop then i else FieldEndAt(s, i + 1, stop)
  }

  /** The first position at or after i that does not hold whitespace, or the end of s. */
  function SpacesEndAt(s: string, i: nat): (e: nat)
    requires i <= |s|
    ensures i <= e <= |s|
    decreases |s| - i
  {
    if i == |s| || !IsSpace(s[i]) then i else SpacesEndAt(s, i + 1)
  }

  /** FieldEndAt is FieldEnd on the rest of the stream. */
  lemma {:induction false} FieldEndAtRest(s: string, i: nat, stop: char)
    requires i <= |s|
    ensures FieldEndAt(s, i, stop) == i + FieldEnd(s[i..], stop)
    decreases |s| - i
  {
    if i < |s| && s[i] != stop {
      FieldEndAtRest(s, i + 1, stop);
      assert s[i..][1..] == s[i + 1..];
    }
  }

  /** SpacesEndAt is SkipSpaces on the rest of the stream. */
  lemma {:induction false} SpacesEndAtRest(s: string, i: nat)
    requires i <= |s|
    ensures SpacesEndAt(s, i) == i + SkipSpaces(s[i..])
    decreases |s| - i
  {
    if i < |s| && IsSpace(s[i]) {
      SpacesEndAtRest(s, i + 1);
      assert s[i..][1..] == s[i + 1..];
    }
  }

  lemma {:induction false} FieldEndAtOf(s: string, i: nat, j: nat, stop: char)
    requires i <= j < |s| && stop !in s[i..j] && s[j] == stop
    ensures FieldEndAt(s, i, stop) == j
    decreases j - i
  {
    if i < j {
      assert s[i] == s[i..j][0];
      assert s[i + 1..j] == s[i..j][1..];
      FieldEndAtOf(s, i + 1, j, stop);
    }
  }

  /** What one conversion yields: the field read, and the stream position after it. */
  datatype Scan = Scan(field: string, next: nat)

  /**
   * `fscanf(fp, "%[^stop]<ws>", buf)` on a stream at position i of s: the
   * conversion reads the longest run of characters other than stop and fails
   * when that run is empty (at end of input too); a failed conversion consumes
   * nothing and leaves buf as it was. After a successful one the whitespace
   * directive consumes every following whitespace character (zero or more).
   */
  function ScanAt(s: string, i: nat, stop: char): (sc: Scan)
    requires i <= |s|
    ensures i <= sc.next <= |s|
    ensures sc.field == [] <==> sc.next == i
  {
    var e := FieldEndAt(s, i, stop);
    if e == i then Scan([], i) else Scan(s[i..e], SpacesEndAt(s, e))
  }

  /** A field followed by a whitespace stop character is read back whole, and the stream moves past the stop. */
  lemma ScanAtField(s: string, i: nat, j: nat, f: string, stop: char)
    requires i <= j < |s| && s[i..j] == f && s[j] == stop
    requires f != [] && stop !in f && IsSpace(stop)
    requires j + 1 == |s| || !IsSpace(s[j + 1])
    ensures ScanAt(s, i, stop) == Scan(f, j + 1)
  {
    FieldEndAtOf(s, i, j, stop);
    assert SpacesEndAt(s, j + 1) == j + 1;
  }
}
