/**
 * One client connection on the server: every report "id temperature humidity"
 * is split on spaces, the id is looked up in the MIB table (and registered
 * when absent), and the actuation code is sent back. When the client goes
 * away its socket leaves the connection list.
 */
module Session {
  import opened Options
  import opened CStrings
  import opened Decision
  import opened Registry
  import opened Connections

  /** A sensor report as the server reads it. */
  datatype Report = Report(mib: string, temper: int, humid: int)

  /**
   * The split of a report: the first space-separated token is the id, the
   * next two are read with atoi, and further tokens are ignored. With fewer
   * than three tokens strtok returns NULL, which strcpy or atoi dereferences:
   * the server process faults, modelled as None.
   */
  function ParseReport(msg: string): (r: Option<Report>)
    ensures r.Some? <==> |Tokens(msg, ' ')| >= 3
    ensures r.Some? ==> r.value.mib != [] && ' ' !in r.value.mib
  {
    var ts := Tokens(msg, ' ');
    if |ts| < 3 then None
    else Some(Report(ts[0], Atoi(ts[1]), Atoi(ts[2])))
  }

  /**
   * The client's report "id temper humid". The client sends a fixed id
   * ("1.1.1.1 %d %d"); this generalises it to any id.
   */
  function FormatReport(mib: string, temper: int, humid: int): string
  {
    JoinWith([mib, IntToString(temper), IntToString(humid)], ' ')
  }

  /** Nothing sprintf("%d") writes contains c unless c is a digit or the minus sign. */
  lemma IntToStringExcludes(n: int, c: char)
    requires !IsDigit(c) && c != '-'
    ensures IntToString(n) != [] && c !in IntToString(n)
  {
    var s := IntToString(n);
    assert forall k :: 0 <= k < |s| ==> s[k] != c;
  }

  /** The server reads back the report the client wrote, for any id without spaces. */
  lemma ParseFormatReport(mib: string, temper: int, humid: int)
    requires mib != [] && ' ' !in mib
    ensures ParseReport(FormatReport(mib, temper, humid)) == Some(Report(mib, temper, humid))
  {
    var ts := [mib, IntToString(temper), IntToString(humid)];
    IntToStringExcludes(temper, ' ');
    IntToStringExcludes(humid, ' ');
    TokensOfJoin(ts, ' ');
    AtoiOfIntToString(temper);
    AtoiOfIntToString(humid);
  }

  /** How serving one report ends: the process faults, or a reply is sent and the table text is as given. */
  datatype Outcome = Fault | Replied(reply: string, text: string)

  /**
   * One pass of the report loop on the table text: a known id gets its
   * reply; an unknown one is registered first. An id with fewer than four
   * segments faults in strcpy; one with an unknown site is still answered
   * but no line is recorded for it.
   */
  function Serve(text: string, msg: string, ip: string): (o: Outcome)
    ensures o.Replied? ==> ParseReport(msg).Some? &&
                           o.reply == WriteAct(ParseReport(msg).value.temper, ParseReport(msg).value.humid) &&
                           IsCode(o.reply) && text <= o.text
    ensures o.Replied? && o.text != text ==> ScanLookup(text, ParseReport(msg).value.mib).None?
    ensures o.Fault? <==> ParseReport(msg).None? ||
                          (ScanLookup(text, ParseReport(msg).value.mib).None? &&
                           ComposePlace(ParseReport(msg).value.mib).MissingSegment?)
  {
    match ParseReport(msg)
    case None => Fault
    case Some(r) =>
      var reply := WriteAct(r.temper, r.humid);
      if ScanLookup(text, r.mib).Some? then Replied(reply, text)
      else
        match ComposePlace(r.mib)
        case MissingSegment => Fault
        case UnknownSite => Replied(reply, text)
        case Placed(place) => Replied(reply, text + FormatRecord(Record(r.mib, ip, place)))
  }

  /**
   * The first report of a new device registers it; a second identical report
   * finds it and leaves the table as it is, with the same reply.
   */
  lemma ServeRegistersOnce(rs: seq<Record>, msg: string, ip: string)
    requires ValidRecords(rs) && ValidField(ip)
    requires ParseReport(msg).Some? && ValidField(ParseReport(msg).value.mib)
    requires ComposePlace(ParseReport(msg).value.mib).Placed?
    requires forall i :: 0 <= i < |rs| ==> rs[i].id != ParseReport(msg).value.mib
    ensures var r := ParseReport(msg).value;
            var added := Serialise(rs + [Record(r.mib, ip, ComposePlace(r.mib).place)]);
            Serve(Serialise(rs), msg, ip) == Replied(WriteAct(r.temper, r.humid), added) &&
            Serve(added, msg, ip) == Replied(WriteAct(r.temper, r.humid), added)
  {
    var r := ParseReport(msg).value;
    var rec := Record(r.mib, ip, ComposePlace(r.mib).place);
    ScanSerialised(rs, r.mib);
    ComposedPlaceValid(r.mib);
    SerialiseAppend(rs, rec);
    LookupAfterAppend(rs, rec);
  }

  /** A device id contains no space, so it survives the report split whole. */
  lemma DeviceIdNoSpace(site: nat, floor: nat, room: nat, sensor: nat)
    ensures DeviceId(site, floor, room, sensor) != [] && ' ' !in DeviceId(site, floor, room, sensor)
  {
    var segs := [IntToString(site), IntToString(floor), IntToString(room), IntToString(sensor)];
    IntToStringExcludes(site, ' ');
    IntToStringExcludes(floor, ' ');
    IntToStringExcludes(room, ' ');
    IntToStringExcludes(sensor, ' ');
    JoinWithExcludes(segs, '.', ' ');
    assert DeviceId(site, floor, room, sensor) == segs[0] + ['.'] + JoinWith(segs[1..], '.');
  }

  /**
   * The first report of a device whose id segments lie in their enumerations,
   * on an empty table: the reply is write_act's code for the reported values,
   * and the table becomes the one line recording the id, the client's address
   * and the composed place.
   */
  lemma FirstReport(site: nat, floor: nat, room: nat, sensor: nat, temper: int, humid: int, ip: string)
    requires 1 <= site <= 2 && floor <= 3 && room <= 3 && 1 <= sensor <= 3
    ensures var mib := DeviceId(site, floor, room, sensor);
            var place := SITES[site - 1] + " "
                         + (if floor == 0 then "" else FLOORS[floor] + " ")
                         + (if room == 0 then "" else ROOMS[room] + " ")
                         + SENSORS[sensor - 1];
            Serve("", FormatReport(mib, temper, humid), ip) ==
            Replied(WriteAct(temper, humid), FormatRecord(Record(mib, ip, place)))
  {
    var mib := DeviceId(site, floor, room, sensor);
    DeviceIdNoSpace(site, floor, room, sensor);
    ParseFormatReport(mib, temper, humid);
    PlaceOfValidId(site, floor, room, sensor);
    assert ScanLookup("", mib) == None;
  }

  /** A report from an id already in the table is answered without touching the table. */
  lemma ServeKnown(rs: seq<Record>, msg: string, ip: string)
    requires ValidRecords(rs)
    requires ParseReport(msg).Some? && FirstMatch(rs, ParseReport(msg).value.mib).Some?
    ensures var r := ParseReport(msg).value;
            Serve(Serialise(rs), msg, ip) == Replied(Render(Intended(r.temper, r.humid)), Serialise(rs))
  {
    var r := ParseReport(msg).value;
    ScanSerialised(rs, r.mib);
    WriteActRendersIntended(r.temper, r.humid);
  }

  /**
   * The handling of one report by the connection thread, on the shared
   * table: lookup, then registration on a miss, then the reply.
   */
  method HandleReport(table: MibTable, msg: string, ip: string) returns (o: Outcome)
    modifies table
    ensures o == Serve(old(table.text), msg, ip)
    ensures table.text == if o.Replied? then o.text else old(table.text)
  {
    var parsed := ParseReport(msg);
    if parsed.None? {
      return Fault;
    }
    var r := parsed.value;
    var found, place := table.Lookup(r.mib);
    if !found {
      var placement := table.Register(r.mib, ip);
      if placement.MissingSegment? {
        return Fault;
      }
    }
    o := Replied(WriteAct(r.temper, r.humid), table.text);
  }

  /** What a connection does with a sequence of reports: the replies sent, the final table text, and whether it faulted. */
  datatype Trace = Trace(replies: seq<string>, text: string, faulted: bool)

  /** The reports served in order; a fault ends the session (and the process) with no further replies. */
  function Replay(text: string, msgs: seq<string>, ip: string): (l: Trace)
    ensures |l.replies| <= |msgs| && (!l.faulted ==> |l.replies| == |msgs|)
    ensures text <= l.text
    decreases |msgs|
  {
    if msgs == [] then Trace([], text, false)
    else
      match Serve(text, msgs[0], ip)
      case Fault => Trace([], text, true)
      case Replied(reply, t) =>
        var rest := Replay(t, msgs[1..], ip);
        Trace([reply] + rest.replies, rest.text, rest.faulted)
  }

  /** Every reply of a session is one of the three codes. */
  lemma {:induction false} ReplayReplies(text: string, msgs: seq<string>, ip: string)
    ensures forall k :: 0 <= k < |Replay(text, msgs, ip).replies| ==> IsCode(Replay(text, msgs, ip).replies[k])
    decreases |msgs|
  {
    if msgs != [] {
      var o := Serve(text, msgs[0], ip);
      if o.Replied? {
        var rest := Replay(o.text, msgs[1..], ip);
        ReplayReplies(o.text, msgs[1..], ip);
        var rs := Replay(text, msgs, ip).replies;
        assert rs == [o.reply] + rest.replies;
        forall k | 0 <= k < |rs|
          ensures IsCode(rs[k])
        {
          if k > 0 {
            assert rs[k] == rest.replies[k - 1];
          }
        }
      }
    }
  }

  /** The reply is write_act's code for the report's temperature and humidity. */
  predicate Answers(msg: string, reply: string)
  {
    ParseReport(msg).Some? && reply == WriteAct(ParseReport(msg).value.temper, ParseReport(msg).value.humid)
  }

  /** Reply k answers report k with write_act's code for its temperature and humidity. */
  lemma {:induction false} ReplayAnswers(text: string, msgs: seq<string>, ip: string)
    ensures var l := Replay(text, msgs, ip);
            forall k :: 0 <= k < |l.replies| ==> Answers(msgs[k], l.replies[k])
    decreases |msgs|
  {
    if msgs != [] {
      var o := Serve(text, msgs[0], ip);
      if o.Replied? {
        var rest := Replay(o.text, msgs[1..], ip);
        ReplayAnswers(o.text, msgs[1..], ip);
        assert Replay(text, msgs, ip).replies == [o.reply] + rest.replies;
        AnswersCons(msgs, o.reply, rest.replies);
      }
    }
  }

  /** Answering the first report, then the rest in order. */
  lemma AnswersCons(msgs: seq<string>, reply: string, replies: seq<string>)
    requires msgs != [] && |replies| < |msgs| && Answers(msgs[0], reply)
    requires forall k :: 0 <= k < |replies| ==> Answers(msgs[1..][k], replies[k])
    ensures forall k :: 0 <= k < |replies| + 1 ==> Answers(msgs[k], ([reply] + replies)[k])
  {
    var all := [reply] + replies;
    forall k | 0 <= k < |all|
      ensures Answers(msgs[k], all[k])
    {
      if k > 0 {
        assert msgs[k] == msgs[1..][k - 1] && all[k] == replies[k - 1];
        assert Answers(msgs[1..][k - 1], replies[k - 1]);
      }
    }
  }

  /**
   * A fault comes at a report of its own: the replies are exactly those of
   * the reports before it, and that report faults on the table they left.
   */
  lemma {:induction false} ReplayFault(text: string, msgs: seq<string>, ip: string)
    ensures var l := Replay(text, msgs, ip);
            l.faulted ==> |l.replies| < |msgs| && Serve(l.text, msgs[|l.replies|], ip).Fault?
    decreases |msgs|
  {
    if msgs != [] {
      var o := Serve(text, msgs[0], ip);
      if o.Replied? {
        var rest := Replay(o.text, msgs[1..], ip);
        ReplayFault(o.text, msgs[1..], ip);
        if rest.faulted {
          assert msgs[|rest.replies| + 1] == msgs[1..][|rest.replies|];
        }
      }
    }
  }

  /** The replies sent before a trace, then the trace. */
  function After(replies: seq<string>, l: Trace): Trace
  {
    Trace(replies + l.replies, l.text, l.faulted)
  }

  /** Replaying from a report whose outcome is known. */
  lemma ReplayFrom(text: string, msgs: seq<string>, i: nat, ip: string, o: Outcome)
    requires i < |msgs| && o == Serve(text, msgs[i], ip)
    ensures Replay(text, msgs[i..], ip) ==
            if o.Fault? then Trace([], text, true) else After([o.reply], Replay(o.text, msgs[i + 1..], ip))
  {
    assert msgs[i..][1..] == msgs[i + 1..];
  }

  /** One turn of the report loop, seen from the whole session. */
  lemma ReplayStep(start: string, text: string, msgs: seq<string>, i: nat, ip: string, o: Outcome, replies: seq<string>)
    requires i < |msgs| && o == Serve(text, msgs[i], ip)
    requires Replay(start, msgs, ip) == After(replies, Replay(text, msgs[i..], ip))
    ensures o.Fault? ==> Replay(start, msgs, ip) == Trace(replies, text, true)
    ensures o.Replied? ==> Replay(start, msgs, ip) == After(replies + [o.reply], Replay(o.text, msgs[i + 1..], ip))
  {
    ReplayFrom(text, msgs, i, ip, o);
    if o.Fault? {
      assert replies + [] == replies;
    } else {
      var rest := Replay(o.text, msgs[i + 1..], ip);
      assert replies + ([o.reply] + rest.replies) == (replies + [o.reply]) + rest.replies;
    }
  }

  /**
   * The report loop of a connection thread: serve each report in turn until
   * the client closes the connection or a report faults.
   */
  method ServeReports(table: MibTable, msgs: seq<string>, ip: string) returns (trace: Trace)
    modifies table
    ensures trace == Replay(old(table.text), msgs, ip)
    ensures table.text == trace.text
  {
    var replies: seq<string> := [];
    var i := 0;
    while i < |msgs|
      invariant 0 <= i <= |msgs|
      invariant Replay(old(table.text), msgs, ip) == After(replies, Replay(table.text, msgs[i..], ip))
    {
      ghost var text := table.text;
      var o := HandleReport(table, msgs[i], ip);
      ReplayStep(old(table.text), text, msgs, i, ip, o, replies);
      if o.Fault? {
        return Trace(replies, table.text, true);
      }
      replies := replies + [o.reply];
      i := i + 1;
    }
    assert msgs[i..] == [];
    assert replies + [] == replies;
    trace := Trace(replies, table.text, false);
  }

  /**
   * The connection thread: serve the reports, then take the socket out of
   * the connection list. A fault ends the whole process, so nothing is
   * removed then.
   */
  method Connection(table: MibTable, conns: ConnectionList, sock: int, ip: string, msgs: seq<string>)
    returns (trace: Trace)
    requires conns.Valid() && conns.count > 0
    modifies table, conns, conns.socks
    ensures trace == Replay(old(table.text), msgs, ip) && table.text == trace.text
    ensures conns.Valid()
    ensures conns.Contents() ==
              if trace.faulted then old(conns.Contents())
              else if sock in old(conns.Contents()) then RemoveFirst(old(conns.Contents()), sock)
              else old(conns.Contents())[..old(conns.count) - 1]
  {
    trace := ServeReports(table, msgs, ip);
    if !trace.faulted {
      conns.Remove(sock);
    }
  }
}
