/**
 * The device-identity registry: the MIB table, a text file of lines
 * "id<TAB>ip<TAB>place<NEWLINE>". The server scans it with fscanf for the
 * first line whose id matches a report, and on a miss composes a place name
 * from the id's four dotted segments and appends a new line.
 */
module Registry {
  import opened Options
  import opened CStrings

  // ---------------------------------------------------------------------
  // The line format

  datatype Record = Record(id: string, ip: string, place: string)

  /** sprintf("%s\t%s\t%s\n", id, ip, place). */
  function FormatRecord(r: Record): string
  {
    r.id + "\t" + r.ip + "\t" + r.place + "\n"
  }

  /** The table text holding the records in order. */
  function Serialise(rs: seq<Record>): string
  {
    if rs == [] then [] else FormatRecord(rs[0]) + Serialise(rs[1..])
  }

  /** A line holds two tabs and one newline, at its end. */
  lemma FormatRecordLine(r: Record)
    requires ValidRecord(r)
    ensures var line := FormatRecord(r);
            multiset(line)['\n'] == 1 && line[|line| - 1] == '\n' && multiset(line)['\t'] == 2
  {
  }

  /** The table written from valid records has exactly one line per record. */
  lemma {:induction false} SerialiseLines(rs: seq<Record>)
    requires ValidRecords(rs)
    ensures multiset(Serialise(rs))['\n'] == |rs|
  {
    if rs != [] {
      FormatRecordLine(rs[0]);
      SerialiseLines(rs[1..]);
    }
  }

  /**
   * A field the scanner reads back intact: non-empty, free of the two
   * separators, and not starting with whitespace (the whitespace directive
   * before it would swallow that).
   */
  predicate ValidField(f: string)
  {
    f != [] && !IsSpace(f[0]) && '\t' !in f && '\n' !in f
  }

  predicate ValidRecord(r: Record)
  {
    ValidField(r.id) && ValidField(r.ip) && ValidField(r.place)
  }

  predicate ValidRecords(rs: seq<Record>)
  {
    forall i :: 0 <= i < |rs| ==> ValidRecord(rs[i])
  }

  // ---------------------------------------------------------------------
  // The lookup scan

  /** What reading one line with the three conversions yields, and the stream position after it. */
  datatype Line = Line(id: string, ip: string, place: string, next: nat)

  /**
   * One line read from position i with "%[^\t]\t", "%[^\t]\t" and "%[^\n]\n",
   * each starting where the previous one stopped; a conversion that fails
   * yields an empty field and consumes nothing.
   */
  function ReadLineAt(s: string, i: nat): (l: Line)
    requires i <= |s|
    ensures i <= l.next <= |s|
    ensures l.id != [] ==> i < l.next
  {
    var id := ScanAt(s, i, '\t');
    var ip := ScanAt(s, id.next, '\t');
    var place := ScanAt(s, ip.next, '\n');
    Line(id.field, ip.field, place.field, place.next)
  }

  /**
   * The lookup loop from position i of the table text s: read an id; stop,
   * not found, when that read fails; on a match the ip and then the place are
   * read into the same buffer, so the result is the last of mib, ip, place
   * that was read successfully; otherwise go on after the ip and the place.
   */
  function ScanLookupAt(s: string, i: nat, mib: string): (r: Option<string>)
    requires i <= |s|
    ensures r.Some? ==> mib != [] && r.value != []
    decreases |s| - i
  {
    var l := ReadLineAt(s, i);
    if l.id == [] then None
    else if l.id == mib then Some(if l.place != [] then l.place else if l.ip != [] then l.ip else mib)
    else ScanLookupAt(s, l.next, mib)
  }

  /** The lookup loop on a table file freshly opened for reading. */
  function ScanLookup(s: string, mib: string): (r: Option<string>)
    ensures r.Some? ==> mib != [] && r.value != []
  {
    ScanLookupAt(s, 0, mib)
  }

  /** Reading the table from position i as records, stopping at the first incomplete line. */
  function ParseTableAt(s: string, i: nat): seq<Record>
    requires i <= |s|
    decreases |s| - i
  {
    var l := ReadLineAt(s, i);
    if l.id == [] || l.ip == [] || l.place == [] then []
    else [Record(l.id, l.ip, l.place)] + ParseTableAt(s, l.next)
  }

  function ParseTable(s: string): seq<Record>
  {
    ParseTableAt(s, 0)
  }

  /** The place of the first record whose id is mib. */
  function FirstMatch(rs: seq<Record>, mib: string): (r: Option<string>)
    ensures r.None? <==> forall i :: 0 <= i < |rs| ==> rs[i].id != mib
    ensures r.Some? ==> exists i :: 0 <= i < |rs| && rs[i].id == mib && rs[i].place == r.value &&
                                    forall j :: 0 <= j < i ==> rs[j].id != mib
  {
    if rs == [] then None
    else if rs[0].id == mib then Some(rs[0].place)
    else
      var r := FirstMatch(rs[1..], mib);
      assert forall i :: 1 <= i < |rs| ==> rs[i] == rs[1..][i - 1];
      if r.Some? then
        var i :| 0 <= i < |rs| - 1 && rs[1..][i].id == mib && rs[1..][i].place == r.value &&
                 forall j :: 0 <= j < i ==> rs[1..][j].id != mib;
        assert rs[i + 1].id == mib && forall j :: 0 <= j < i + 1 ==> rs[j].id != mib;
        r
      else r
  }

  /** A serialised table starts with its first id. */
  lemma SerialiseStart(rs: seq<Record>)
    requires rs != [] && ValidRecord(rs[0])
    ensures Serialise(rs) != [] && Serialise(rs)[0] == rs[0].id[0]
  {
  }

  /** Where the three fields and their separators sit in a formatted line. */
  lemma FormatLayout(r: Record)
    ensures var fr := FormatRecord(r);
            var a := |r.id|;
            var b := a + 1 + |r.ip|;
            |fr| == b + 1 + |r.place| + 1 &&
            fr[..a] == r.id && fr[a] == '\t' &&
            fr[a + 1..b] == r.ip && fr[b] == '\t' &&
            fr[b + 1..|fr| - 1] == r.place && fr[|fr| - 1] == '\n'
  {
  }

  /** A slice of a slice, seen in the whole string. */
  lemma SliceIn(s: string, i: nat, fr: string, x: nat, y: nat)
    requires i + |fr| <= |s| && s[i..i + |fr|] == fr && x <= y <= |fr|
    ensures s[i + x..i + y] == fr[x..y]
    ensures y < |fr| ==> s[i + y] == fr[y]
  {
    forall k | 0 <= k < y - x
      ensures s[i + x..i + y][k] == fr[x..y][k]
    {
      assert s[i + x + k] == s[i..i + |fr|][x + k];
    }
    if y < |fr| {
      assert s[i + y] == s[i..i + |fr|][y];
    }
  }

  /**
   * Three fields at known positions, each followed by its separator, and a
   * next line that does not start with whitespace, read back as a line.
   */
  lemma ReadLineFields(s: string, i: nat, a: nat, b: nat, c: nat, r: Record)
    requires ValidRecord(r)
    requires i <= a < b < c < |s|
    requires s[i..a] == r.id && s[a] == '\t'
    requires s[a + 1..b] == r.ip && s[b] == '\t'
    requires s[b + 1..c] == r.place && s[c] == '\n'
    requires c + 1 == |s| || !IsSpace(s[c + 1])
    ensures ReadLineAt(s, i) == Line(r.id, r.ip, r.place, c + 1)
  {
    assert s[a + 1] == r.ip[0];
    assert s[b + 1] == r.place[0];
    ScanAtField(s, i, a, r.id, '\t');
    ScanAtField(s, a + 1, b, r.ip, '\t');
    ScanAtField(s, b + 1, c, r.place, '\n');
  }

  /** The line of r placed after p and before a tail that does not start with whitespace reads back as r. */
  lemma ReadFormattedAfter(p: string, r: Record, tail: string)
    requires ValidRecord(r)
    requires tail == [] || !IsSpace(tail[0])
    ensures ReadLineAt(p + FormatRecord(r) + tail, |p|) == Line(r.id, r.ip, r.place, |p + FormatRecord(r)|)
  {
    var s := p + FormatRecord(r) + tail;
    var fr := FormatRecord(r);
    var i := |p|;
    var a := |r.id|;
    var b := a + 1 + |r.ip|;
    assert s[i..i + |fr|] == fr;
    assert i + |fr| < |s| ==> s[i + |fr|] == tail[0];
    FormatLayout(r);
    SliceIn(s, i, fr, 0, a);
    SliceIn(s, i, fr, a + 1, b);
    SliceIn(s, i, fr, b + 1, |fr| - 1);
    ReadLineFields(s, i, i + a, i + b, i + |fr| - 1, r);
  }

  /** What follows the first line of a serialised table does not start with whitespace. */
  lemma SerialiseTail(rs: seq<Record>)
    requires rs != [] && ValidRecords(rs)
    ensures Serialise(rs) == FormatRecord(rs[0]) + Serialise(rs[1..])
    ensures ValidRecords(rs[1..]) && ValidRecord(rs[0])
    ensures Serialise(rs[1..]) == [] || !IsSpace(Serialise(rs[1..])[0])
  {
    assert ValidRecords(rs[1..]);
    if rs[1..] != [] { SerialiseStart(rs[1..]); }
  }

  /** Reading past one formatted line. */
  lemma ParseFormattedAfter(p: string, r: Record, tail: string)
    requires ValidRecord(r)
    requires tail == [] || !IsSpace(tail[0])
    ensures ParseTableAt(p + FormatRecord(r) + tail, |p|) == [r] + ParseTableAt(p + FormatRecord(r) + tail, |p + FormatRecord(r)|)
  {
    ReadFormattedAfter(p, r, tail);
  }

  /** Scanning past one formatted line whose id does not match, or stopping at one whose id does. */
  lemma ScanFormattedAfter(p: string, r: Record, tail: string, mib: string)
    requires ValidRecord(r)
    requires tail == [] || !IsSpace(tail[0])
    ensures ScanLookupAt(p + FormatRecord(r) + tail, |p|, mib) ==
            if r.id == mib then Some(r.place) else ScanLookupAt(p + FormatRecord(r) + tail, |p + FormatRecord(r)|, mib)
  {
    ReadFormattedAfter(p, r, tail);
  }

  /** Reading a serialised table that starts after p gives back its records. */
  lemma {:induction false} ParseSerialisedAfter(p: string, rs: seq<Record>)
    requires ValidRecords(rs)
    ensures ParseTableAt(p + Serialise(rs), |p|) == rs
    decreases |rs|
  {
    if rs == [] {
      assert p + [] == p;
    } else {
      SerialiseTail(rs);
      var q := p + FormatRecord(rs[0]);
      assert p + Serialise(rs) == q + Serialise(rs[1..]);
      ParseFormattedAfter(p, rs[0], Serialise(rs[1..]));
      ParseSerialisedAfter(q, rs[1..]);
      assert rs == [rs[0]] + rs[1..];
    }
  }

  /** Reading a serialised table gives back its records. */
  lemma ParseSerialise(rs: seq<Record>)
    requires ValidRecords(rs)
    ensures ParseTable(Serialise(rs)) == rs
  {
    ParseSerialisedAfter([], rs);
    assert [] + Serialise(rs) == Serialise(rs);
  }

  /** The lookup scan over a serialised table that starts after p finds the place of the first record with that id. */
  lemma {:induction false} ScanSerialisedAfter(p: string, rs: seq<Record>, mib: string)
    requires ValidRecords(rs)
    ensures ScanLookupAt(p + Serialise(rs), |p|, mib) == FirstMatch(rs, mib)
    decreases |rs|
  {
    if rs != [] {
      SerialiseTail(rs);
      var q := p + FormatRecord(rs[0]);
      assert p + Serialise(rs) == q + Serialise(rs[1..]);
      ScanFormattedAfter(p, rs[0], Serialise(rs[1..]), mib);
      ScanSerialisedAfter(q, rs[1..], mib);
    }
  }

  /** On a serialised table, the lookup scan finds the place of the first record with that id. */
  lemma ScanSerialised(rs: seq<Record>, mib: string)
    requires ValidRecords(rs)
    ensures ScanLookup(Serialise(rs), mib) == FirstMatch(rs, mib)
  {
    ScanSerialisedAfter([], rs, mib);
    assert [] + Serialise(rs) == Serialise(rs);
  }

  lemma {:induction false} SerialiseAppend(rs: seq<Record>, r: Record)
    ensures Serialise(rs + [r]) == Serialise(rs) + FormatRecord(r)
  {
    if rs == [] {
      assert [r][1..] == [];
    } else {
      assert (rs + [r])[1..] == rs[1..] + [r];
      SerialiseAppend(rs[1..], r);
    }
  }

  /** A record added at the end is found only by an id no earlier record has. */
  lemma {:induction false} FirstMatchAppend(rs: seq<Record>, r: Record, mib: string)
    ensures FirstMatch(rs + [r], mib) ==
            if FirstMatch(rs, mib).Some? then FirstMatch(rs, mib)
            else if r.id == mib then Some(r.place) else None
  {
    if rs == [] {
      assert [r][1..] == [];
    } else {
      assert (rs + [r])[1..] == rs[1..] + [r];
      FirstMatchAppend(rs[1..], r, mib);
    }
  }

  /** Appending the line of a new id makes a lookup of that id find its place. */
  lemma LookupAfterAppend(rs: seq<Record>, r: Record)
    requires ValidRecords(rs) && ValidRecord(r)
    requires forall i :: 0 <= i < |rs| ==> rs[i].id != r.id
    ensures ScanLookup(Serialise(rs) + FormatRecord(r), r.id) == Some(r.place)
  {
    assert ValidRecords(rs + [r]);
    SerialiseAppend(rs, r);
    ScanSerialised(rs + [r], r.id);
    FirstMatchAppend(rs, r, r.id);
  }

  /** Appending a line leaves the lookup of every other id as it was. */
  lemma LookupOtherAfterAppend(rs: seq<Record>, r: Record, mib: string)
    requires ValidRecords(rs) && ValidRecord(r)
    requires mib != r.id
    ensures ScanLookup(Serialise(rs) + FormatRecord(r), mib) == ScanLookup(Serialise(rs), mib)
  {
    assert ValidRecords(rs + [r]);
    SerialiseAppend(rs, r);
    ScanSerialised(rs + [r], mib);
    ScanSerialised(rs, mib);
    FirstMatchAppend(rs, r, mib);
  }

  // ---------------------------------------------------------------------
  // Place composition

  const SITE_1 := "60주년 기념관"
  const SITE_2 := "집"
  const FLOOR_1 := "1층"
  const FLOOR_2 := "2층"
  const FLOOR_3 := "3층"
  const ROOM_1 := "1호"
  const ROOM_2 := "2호"
  const ROOM_3 := "3호"
  const SENSOR_1 := "온&습도센서"
  const SENSOR_2 := "LED센서"
  const SENSOR_3 := "부저센서"

  /** How composing a place for an id ends. */
  datatype Placement =
    | Placed(place: string)
    | MissingSegment  // fewer than four dotted segments: strtok yields NULL and strcpy faults
    | UnknownSite     // site segment neither "1" nor "2": the place buffer is never initialised

  /** Text that stays inside one field of a table line. */
  predicate NoSeparator(t: string)
  {
    '\t' !in t && '\n' !in t
  }

  /** The text a floor segment contributes: "0" and unknown values contribute nothing. */
  function FloorText(seg: string): (t: string)
    ensures NoSeparator(t)
  {
    if seg == "0" then ""
    else if seg == "1" then FLOOR_1 + " "
    else if seg == "2" then FLOOR_2 + " "
    else if seg == "3" then FLOOR_3 + " "
    else ""
  }

  /** The text a room segment contributes: "0" and unknown values contribute nothing. */
  function RoomText(seg: string): (t: string)
    ensures NoSeparator(t)
  {
    if seg == "0" then ""
    else if seg == "1" then ROOM_1 + " "
    else if seg == "2" then ROOM_2 + " "
    else if seg == "3" then ROOM_3 + " "
    else ""
  }

  /** The text a sensor segment contributes: unknown values contribute nothing. */
  function SensorText(seg: string): (t: string)
    ensures NoSeparator(t)
  {
    if seg == "1" then SENSOR_1
    else if seg == "2" then SENSOR_2
    else if seg == "3" then SENSOR_3
    else ""
  }

  /**
   * The place name for an id "site.floor.room.sensor": the site name and a
   * space, then the floor and the room names each followed by a space, then
   * the sensor name. Segments after the fourth are ignored.
   */
  function ComposePlace(mib: string): (p: Placement)
    ensures p.MissingSegment? <==> |Tokens(mib, '.')| < 4
    ensures p.UnknownSite? <==> |Tokens(mib, '.')| >= 4 && Tokens(mib, '.')[0] != "1" && Tokens(mib, '.')[0] != "2"
  {
    var segs := Tokens(mib, '.');
    if |segs| < 4 then MissingSegment
    else if segs[0] == "1" then Placed(SITE_1 + " " + FloorText(segs[1]) + RoomText(segs[2]) + SensorText(segs[3]))
    else if segs[0] == "2" then Placed(SITE_2 + " " + FloorText(segs[1]) + RoomText(segs[2]) + SensorText(segs[3]))
    else UnknownSite
  }

  lemma NoSeparatorConcat(x: string, y: string)
    requires NoSeparator(x) && NoSeparator(y)
    ensures NoSeparator(x + y)
  {
  }

  /** A site name, a space, then segment texts free of separators, make a valid field. */
  lemma PlaceTextValid(site: string, floor: string, room: string, sensor: string)
    requires site == SITE_1 || site == SITE_2
    requires NoSeparator(floor) && NoSeparator(room) && NoSeparator(sensor)
    ensures ValidField(site + " " + floor + room + sensor)
  {
    NoSeparatorConcat(floor, room);
    NoSeparatorConcat(floor + room, sensor);
    assert NoSeparator(site + " ");
    NoSeparatorConcat(site + " ", floor + room + sensor);
    assert site + " " + floor + room + sensor == (site + " ") + (floor + room + sensor);
    assert (site + " " + floor + room + sensor)[0] == site[0];
  }

  /** A composed place is a field the lookup scan reads back whole. */
  lemma ComposedPlaceValid(mib: string)
    requires ComposePlace(mib).Placed?
    ensures ValidField(ComposePlace(mib).place)
  {
    var segs := Tokens(mib, '.');
    var site := if segs[0] == "1" then SITE_1 else SITE_2;
    PlaceTextValid(site, FloorText(segs[1]), RoomText(segs[2]), SensorText(segs[3]));
  }

  // The name tables indexed by segment value; index 0 of floors and rooms is "no name".
  const SITES := [SITE_1, SITE_2]
  const FLOORS := ["", FLOOR_1, FLOOR_2, FLOOR_3]
  const ROOMS := ["", ROOM_1, ROOM_2, ROOM_3]
  const SENSORS := [SENSOR_1, SENSOR_2, SENSOR_3]

  /** The dotted id written from four segment values. */
  function DeviceId(site: nat, floor: nat, room: nat, sensor: nat): string
  {
    JoinWith([IntToString(site), IntToString(floor), IntToString(room), IntToString(sensor)], '.')
  }

  lemma SingleDigit(n: nat)
    requires n < 10
    ensures IntToString(n) == [DigitChar(n)]
  {
  }

  lemma FloorTextOf(floor: nat)
    requires floor <= 3
    ensures FloorText(IntToString(floor)) == if floor == 0 then "" else FLOORS[floor] + " "
  {
    SingleDigit(floor);
  }

  lemma RoomTextOf(room: nat)
    requires room <= 3
    ensures RoomText(IntToString(room)) == if room == 0 then "" else ROOMS[room] + " "
  {
    SingleDigit(room);
  }

  lemma SensorTextOf(sensor: nat)
    requires 1 <= sensor <= 3
    ensures SensorText(IntToString(sensor)) == SENSORS[sensor - 1]
  {
    SingleDigit(sensor);
  }

  /** The segments of a device id are the four numbers it was written from. */
  lemma DeviceIdTokens(site: nat, floor: nat, room: nat, sensor: nat)
    ensures Tokens(DeviceId(site, floor, room, sensor), '.') ==
            [IntToString(site), IntToString(floor), IntToString(room), IntToString(sensor)]
  {
    var segs := [IntToString(site), IntToString(floor), IntToString(room), IntToString(sensor)];
    forall i | 0 <= i < 4
      ensures segs[i] != [] && '.' !in segs[i]
    {
      if '.' in segs[i] {
        var k :| 0 <= k < |segs[i]| && segs[i][k] == '.';
      }
    }
    TokensOfJoin(segs, '.');
  }

  /**
   * For every id whose segments lie in their enumerations, the place is the
   * site name, then the floor name unless the floor is 0, then the room name
   * unless the room is 0, then the sensor name, separated by single spaces.
   */
  lemma PlaceOfValidId(site: nat, floor: nat, room: nat, sensor: nat)
    requires 1 <= site <= 2 && floor <= 3 && room <= 3 && 1 <= sensor <= 3
    ensures ComposePlace(DeviceId(site, floor, room, sensor)) ==
            Placed(SITES[site - 1] + " "
                   + (if floor == 0 then "" else FLOORS[floor] + " ")
                   + (if room == 0 then "" else ROOMS[room] + " ")
                   + SENSORS[sensor - 1])
  {
    DeviceIdTokens(site, floor, room, sensor);
    SingleDigit(site);
    FloorTextOf(floor);
    RoomTextOf(room);
    SensorTextOf(sensor);
  }

  // ---------------------------------------------------------------------
  // The table as the server holds it

  class MibTable {
    /** The contents of the table file. */
    var text: string

    constructor (stored: string)
      ensures text == stored
    {
      text := stored;
    }

    /**
     * The lookup loop: MIB_flag says whether a line with id mib was found
     * and mib_place holds what was read as its place.
     */
    method Lookup(mib: string) returns (found: bool, place: string)
      ensures found <==> ScanLookup(text, mib).Some?
      ensures found ==> place == ScanLookup(text, mib).value
    {
      found, place := false, "";
      var pos := 0;
      while true
        invariant 0 <= pos <= |text|
        invariant ScanLookupAt(text, pos, mib) == ScanLookup(text, mib)
        invariant !found
        decreases |text| - pos
      {
        ghost var start := pos;
        // fscanf converts into buf, which a failed conversion leaves as it was
        var buf := "";
        var sc := ScanAt(text, pos, '\t');
        if sc.field != [] { buf := sc.field; }
        pos := sc.next;
        if buf == [] {
          break;
        }
        if buf == mib {
          found := true;
          sc := ScanAt(text, pos, '\t');
          if sc.field != [] { buf := sc.field; }
          pos := sc.next;
          sc := ScanAt(text, pos, '\n');
          if sc.field != [] { buf := sc.field; }
          pos := sc.next;
          place := buf;
          break;
        } else {
          sc := ScanAt(text, pos, '\t');
          if sc.field != [] { buf := sc.field; }
          pos := sc.next;
          sc := ScanAt(text, pos, '\n');
          if sc.field != [] { buf := sc.field; }
          pos := sc.next;
          assert pos == ReadLineAt(text, start).next;
        }
      }
    }

    /**
     * Registration of an id the lookup did not find: split it on '.', build
     * the place from the name tables and append one line for it.
     */
    method Register(mib: string, ip: string) returns (placement: Placement)
      modifies this
      ensures placement == ComposePlace(mib)
      ensures text == if placement.Placed? then old(text) + FormatRecord(Record(mib, ip, placement.place)) else old(text)
    {
      placement := ComposePlace(mib);
      if placement.Placed? {
        text := text + FormatRecord(Record(mib, ip, placement.place));
      }
    }
  }
}
