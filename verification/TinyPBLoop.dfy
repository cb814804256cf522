/** The `while(1)` of `decode`, one iteration at a time, and when it comes to an end. */
module TinyPBLoop {
  import opened Bytes
  import opened TinyPBCodec
  import opened TinyPBFrames
  import opened TinyPBNoise

  /** The variables that survive an iteration: `start_index` and `out_messages`. */
  datatype LoopState = LoopState(start: nat, out: seq<Message>)

  datatype Step = Halt(out: seq<Message>) | Crash | Next(state: LoopState)

  /** One iteration. An early `continue` keeps the `start_index` that the scan has just set. */
  function Iterate(mem: seq<byte>, st: LoopState): (step: Step)
    requires st.start < |mem|
    ensures step.Next? ==> step.state.start < |mem|
  {
    match Scan(mem, st.start)
    case NoFrame => Halt(st.out)
    case BadScan => Crash
    case Candidate(at, end, length) =>
      match ParseFrame(mem, at, end, length)
      case ParseSpins => Next(LoopState(at, st.out))
      case ParseFaults => Crash
      case Parsed(m) => Next(LoopState(end + 1, st.out + [m]))
  }

  /** The state of the loop after `n` iterations, if it is still running then. */
  function After(mem: seq<byte>, st: LoopState, n: nat): Step
    requires st.start < |mem|
    decreases n
  {
    if n == 0 then Next(st)
    else match Iterate(mem, st)
      case Next(st') => After(mem, st', n - 1)
      case stop => stop
  }

  /** What running the loop shows, if it shows it within some number of iterations. */
  ghost predicate Reaches(mem: seq<byte>, st: LoopState, stop: Step)
    requires st.start < |mem|
  {
    exists n: nat :: After(mem, st, n) == stop
  }

  ghost predicate RunsForever(mem: seq<byte>, st: LoopState)
    requires st.start < |mem|
  {
    forall n: nat :: After(mem, st, n).Next?
  }

  lemma ReachesStep(mem: seq<byte>, st: LoopState, stop: Step)
    requires st.start < |mem|
    requires Iterate(mem, st).Next? && Reaches(mem, Iterate(mem, st).state, stop)
    ensures Reaches(mem, st, stop)
  {
    hide Iterate;
    var n: nat :| After(mem, Iterate(mem, st).state, n) == stop;
    assert After(mem, st, n + 1) == stop;
  }

  lemma StopsNow(mem: seq<byte>, st: LoopState)
    requires st.start < |mem| && !Iterate(mem, st).Next?
    ensures Reaches(mem, st, Iterate(mem, st))
  {
    hide Iterate;
    assert After(mem, st, 1) == Iterate(mem, st);
  }

  /** Once an iteration leaves the state as it found it, none will ever leave the loop. */
  lemma {:induction false} FixedPoint(mem: seq<byte>, st: LoopState, n: nat)
    requires st.start < |mem| && Iterate(mem, st) == Next(st)
    ensures After(mem, st, n) == Next(st)
  {
    hide Iterate;
    if n > 0 {
      FixedPoint(mem, st, n - 1);
    }
  }

  lemma ForeverStep(mem: seq<byte>, st: LoopState)
    requires st.start < |mem|
    requires Iterate(mem, st).Next? && RunsForever(mem, Iterate(mem, st).state)
    ensures RunsForever(mem, st)
  {
    hide Iterate;
    forall n: nat ensures After(mem, st, n).Next? {
      if n > 0 {
        assert After(mem, Iterate(mem, st).state, n - 1).Next?;
      }
    }
  }

  lemma SpinIsFixed(mem: seq<byte>, st: LoopState)
    requires st.start < |mem| && Scan(mem, st.start).Candidate?
    requires var c := Scan(mem, st.start); ParseFrame(mem, c.at, c.end, c.length).ParseSpins?
    ensures RunsForever(mem, st)
  {
    hide ParseFrame;
    ScanStays(mem, st.start);
    var st' := Iterate(mem, st).state;
    assert Iterate(mem, st') == Next(st');
    forall n: nat ensures After(mem, st', n).Next? {
      FixedPoint(mem, st', n);
    }
    ForeverStep(mem, st);
  }

  /** What the loop shows of an outcome, given what it had pushed already. */
  ghost predicate Shows(mem: seq<byte>, st: LoopState, outcome: Outcome)
    requires st.start < |mem|
  {
    match outcome
    case Returned(ms) => Reaches(mem, st, Halt(st.out + ms))
    case Faults => Reaches(mem, st, Crash)
    case Spins => RunsForever(mem, st)
  }

  /** `DecodeFrom` is the meaning of the loop: it says what the iterations reach, or that they go on for ever. */
  lemma {:induction false} LoopMeaning(mem: seq<byte>, st: LoopState)
    requires st.start < |mem|
    ensures Shows(mem, st, DecodeFrom(mem, st.start))
    decreases |mem| - st.start
  {
    hide ParseFrame, Scan;
    var c := Scan(mem, st.start);
    if !c.Candidate? {
      StopsNow(mem, st);
      assert st.out + [] == st.out;
    } else {
      match ParseFrame(mem, c.at, c.end, c.length)
      case ParseSpins => SpinIsFixed(mem, st);
      case ParseFaults => StopsNow(mem, st);
      case Parsed(m) =>
        var st' := LoopState(c.end + 1, st.out + [m]);
        ParsedIsLong(mem, c.at, c.end, c.length);
        LoopMeaning(mem, st');
        var rest := DecodeFrom(mem, st'.start);
        assert DecodeFrom(mem, st.start) == Prepend(m, rest);
        match rest
        case Returned(ms) =>
          assert st'.out + ms == st.out + ([m] + ms);
          ReachesStep(mem, st, Halt(st'.out + ms));
        case Faults => ReachesStep(mem, st, Crash);
        case Spins => ForeverStep(mem, st);
    }
  }

  /** A stopped loop stays stopped, so it stops in one way only. */
  lemma {:induction false} StopsOnce(mem: seq<byte>, st: LoopState, m: nat, n: nat)
    requires st.start < |mem| && m <= n && !After(mem, st, m).Next?
    ensures After(mem, st, n) == After(mem, st, m)
    decreases n
  {
    hide Iterate;
    if Iterate(mem, st).Next? {
      StopsOnce(mem, Iterate(mem, st).state, m - 1, n - 1);
    }
  }

  // ------------------------------------------------------------------ the guards

  /** A length that can be read, and that many bytes behind it that can be copied into an array of `capacity`. */
  predicate FieldOk(mem: seq<byte>, at: int, capacity: nat) {
    && Readable(mem, at, 4)
    && var n := ReadInt32(mem, at);
       0 <= n <= capacity && Readable(mem, at + 4, n) && (n == capacity ==> 0 in mem[at + 4..at + 4 + n])
  }

  function Behind(mem: seq<byte>, at: int): int
    requires Readable(mem, at, 4)
  {
    at + 4 + ReadInt32(mem, at)
  }

  /** One of the four guards finds its position at or past the end byte: that of the id's length, of the name's
      length, of the error code, or of the error text's length; all before it is sound. */
  predicate GuardTrips(mem: seq<byte>, c: Candidate)
    requires c.Candidate?
  {
    || c.at + 5 >= c.end
    || (FieldOk(mem, c.at + 5, ID_CAPACITY) && var nameAt := Behind(mem, c.at + 5);
        || nameAt >= c.end
        || (FieldOk(mem, nameAt, NAME_CAPACITY) && var codeAt := Behind(mem, nameAt);
            codeAt >= c.end || (Readable(mem, codeAt, 4) && codeAt + 4 >= c.end)))
  }

  /** A field in front of the end byte is not sound, or the fields leave less than no room for the data. */
  predicate FieldBreaks(mem: seq<byte>, c: Candidate)
    requires c.Candidate?
  {
    && c.at + 5 < c.end
    && (FieldOk(mem, c.at + 5, ID_CAPACITY) ==>
          var nameAt := Behind(mem, c.at + 5);
          && nameAt < c.end
          && (FieldOk(mem, nameAt, NAME_CAPACITY) ==>
                var codeAt := Behind(mem, nameAt);
                && codeAt < c.end
                && (Readable(mem, codeAt, 4) ==>
                      && codeAt + 4 < c.end
                      && (FieldOk(mem, codeAt + 4, INFO_CAPACITY) ==> Behind(mem, codeAt + 4) + 4 > c.end))))
  }

  lemma ParsesExactly(mem: seq<byte>, c: Candidate)
    requires c.Candidate? && Delimited(mem, c)
    ensures ParseFrame(mem, c.at, c.end, c.length) == ParseSpins <==> GuardTrips(mem, c)
    ensures ParseFrame(mem, c.at, c.end, c.length) == ParseFaults <==> FieldBreaks(mem, c)
  {
    hide ReadText, ReadInt32, UntilNul;
    ReadsExactly(mem, c.at + 5, c.end, ID_CAPACITY);
    if c.at + 5 < c.end && FieldOk(mem, c.at + 5, ID_CAPACITY) {
      var nameAt := Behind(mem, c.at + 5);
      ReadsExactly(mem, nameAt, c.end, NAME_CAPACITY);
      if nameAt < c.end && FieldOk(mem, nameAt, NAME_CAPACITY) {
        ReadsExactly(mem, Behind(mem, nameAt) + 4, c.end, INFO_CAPACITY);
      }
    }
  }

  lemma ReadsExactly(mem: seq<byte>, at: int, end: int, capacity: nat)
    ensures var t := ReadText(mem, at, end, capacity);
      && (t == TextSpins <==> at >= end)
      && (t.Text? <==> at < end && FieldOk(mem, at, capacity))
      && (t.Text? ==> |t.bytes| == ReadInt32(mem, at))
  {
    hide ReadInt32;
  }

  /** The first position that stops the scan has a length that cannot be read or leads out of the buffer. */
  predicate ScanBreaks(mem: seq<byte>, i: nat) {
    exists k: nat :: i <= k < |mem| && Opens(mem, k) && OpensNothing(mem, i, k) && LeadsOut(mem, k)
  }

  predicate LeadsOut(mem: seq<byte>, k: nat) {
    !Readable(mem, k + 1, 4) || var end := k + ReadInt32(mem, k + 1) - 1; end < 0 || end >= INT32_MAX
  }

  lemma OpensHere(mem: seq<byte>, i: nat)
    requires i < |mem| <= INT32_MAX + 1 && Opens(mem, i)
    ensures Scan(mem, i) == BadScan <==> LeadsOut(mem, i)
  {
    hide ReadInt32;
  }

  lemma NothingFrom(mem: seq<byte>, i: nat, k: nat)
    requires i < k
    ensures OpensNothing(mem, i, k) <==> !Opens(mem, i) && OpensNothing(mem, i + 1, k)
    ensures OpensNothing(mem, i, i)
  {
    hide Opens;
  }

  lemma BreaksHere(mem: seq<byte>, i: nat)
    requires i < |mem| && Opens(mem, i)
    ensures ScanBreaks(mem, i) <==> LeadsOut(mem, i)
  {
    hide Opens, LeadsOut, OpensNothing;
    NothingFrom(mem, i, i + 1);
    if ScanBreaks(mem, i) {
      var k: nat :| i <= k < |mem| && Opens(mem, k) && OpensNothing(mem, i, k) && LeadsOut(mem, k);
      if i < k {
        NothingFrom(mem, i, k);
      }
    }
  }

  lemma BreaksLater(mem: seq<byte>, i: nat)
    requires i < |mem| && !Opens(mem, i)
    ensures ScanBreaks(mem, i) <==> ScanBreaks(mem, i + 1)
  {
    hide Opens, LeadsOut, OpensNothing;
    if ScanBreaks(mem, i) {
      var k: nat :| i <= k < |mem| && Opens(mem, k) && OpensNothing(mem, i, k) && LeadsOut(mem, k);
      assert i < k;
      NothingFrom(mem, i, k);
    }
    if ScanBreaks(mem, i + 1) {
      var k: nat :| i + 1 <= k < |mem| && Opens(mem, k) && OpensNothing(mem, i + 1, k) && LeadsOut(mem, k);
      NothingFrom(mem, i, k);
    }
  }

  lemma NothingBreaks(mem: seq<byte>)
    requires mem != []
    ensures !ScanBreaks(mem, |mem| - 1) && !Opens(mem, |mem| - 1)
  {
    hide LeadsOut, OpensNothing;
  }

  lemma {:induction false} ScanBreaksExactly(mem: seq<byte>, i: nat)
    requires i < |mem| <= INT32_MAX + 1
    ensures Scan(mem, i) == BadScan <==> ScanBreaks(mem, i)
    decreases |mem| - i
  {
    hide Scan, Opens, LeadsOut, ScanBreaks;
    if i == |mem| - 1 {
      NothingBreaks(mem);
      ScanEnd(mem);
    } else if Opens(mem, i) {
      OpensHere(mem, i);
      BreaksHere(mem, i);
    } else {
      ScanIsLocal(mem, i);
      BreaksLater(mem, i);
      ScanBreaksExactly(mem, i + 1);
    }
  }

  /** The loop comes, still running, to a state that satisfies `stuck` or `broken`. */
  ghost predicate Meets(mem: seq<byte>, st: LoopState, p: LoopState -> bool)
    requires st.start < |mem|
  {
    exists n: nat, st': LoopState :: After(mem, st, n) == Next(st') && p(st')
  }

  function Stuck(mem: seq<byte>): LoopState -> bool {
    (st: LoopState) => st.start < |mem| && Scan(mem, st.start).Candidate? && GuardTrips(mem, Scan(mem, st.start))
  }

  ghost function Broken(mem: seq<byte>): LoopState -> bool {
    (st: LoopState) => st.start < |mem| && (ScanBreaks(mem, st.start)
        || (Scan(mem, st.start).Candidate? && FieldBreaks(mem, Scan(mem, st.start))))
  }

  lemma {:induction false} AfterAdds(mem: seq<byte>, st: LoopState, m: nat, n: nat, st': LoopState)
    requires st.start < |mem| && st'.start < |mem| && After(mem, st, m) == Next(st')
    ensures After(mem, st, m + n) == After(mem, st', n)
    decreases m
  {
    hide Iterate;
    if m > 0 {
      AfterAdds(mem, Iterate(mem, st).state, m - 1, n, st');
    }
  }

  lemma MeetsNow(mem: seq<byte>, st: LoopState, p: LoopState -> bool)
    requires st.start < |mem| && p(st)
    ensures Meets(mem, st, p)
  {
    assert After(mem, st, 0) == Next(st);
  }

  lemma MeetsLater(mem: seq<byte>, st: LoopState, p: LoopState -> bool)
    requires st.start < |mem| && Iterate(mem, st).Next? && Meets(mem, Iterate(mem, st).state, p)
    ensures Meets(mem, st, p)
  {
    hide Iterate;
    var n: nat, st' :| After(mem, Iterate(mem, st).state, n) == Next(st') && p(st');
    assert After(mem, st, n + 1) == Next(st');
  }

  lemma {:induction false} OutcomeMeets(mem: seq<byte>, st: LoopState)
    requires st.start < |mem| <= INT32_MAX + 1
    ensures DecodeFrom(mem, st.start) == Spins ==> Meets(mem, st, Stuck(mem))
    ensures DecodeFrom(mem, st.start) == Faults ==> Meets(mem, st, Broken(mem))
    decreases |mem| - st.start
  {
    hide ParseFrame, Scan, GuardTrips, FieldBreaks, ScanBreaks;
    var c := Scan(mem, st.start);
    assert DecodeFrom(mem, st.start) == Take(mem, c);
    ScanBreaksExactly(mem, st.start);
    if c.BadScan? {
      MeetsNow(mem, st, Broken(mem));
    } else if c.Candidate? {
      ParsesExactly(mem, c);
      var p := ParseFrame(mem, c.at, c.end, c.length);
      if p.ParseSpins? {
        MeetsNow(mem, st, Stuck(mem));
      } else if p.ParseFaults? {
        MeetsNow(mem, st, Broken(mem));
      } else {
        ParsedIsLong(mem, c.at, c.end, c.length);
        OutcomeMeets(mem, Iterate(mem, st).state);
        assert DecodeFrom(mem, st.start) == Prepend(p.message, DecodeFrom(mem, c.end + 1));
        if DecodeFrom(mem, st.start) == Spins {
          MeetsLater(mem, st, Stuck(mem));
        } else if DecodeFrom(mem, st.start) == Faults {
          MeetsLater(mem, st, Broken(mem));
        }
      }
    }
  }

  /** `decode` fails to return exactly if, after some number of messages, it scans to a candidate whose next length or
      code has no room in front of the end byte. */
  lemma SpinsExactly(buf: seq<byte>)
    requires |buf| <= INT32_MAX
    ensures RunsForever(CString(buf), LoopState(0, [])) <==> Meets(CString(buf), LoopState(0, []), Stuck(CString(buf)))
  {
    hide DecodeFrom, Iterate, Scan, GuardTrips;
    var mem, st := CString(buf), LoopState(0, []);
    LoopMeaning(mem, st);
    OutcomeMeets(mem, st);
    if Meets(mem, st, Stuck(mem)) {
      StuckForEver(mem, st);
    }
    if RunsForever(mem, st) {
      OneOutcome(mem, st);
    }
  }

  lemma StuckForEver(mem: seq<byte>, st: LoopState)
    requires st.start < |mem| && Meets(mem, st, Stuck(mem))
    ensures RunsForever(mem, st)
  {
    hide Iterate, Scan, ParseFrame, GuardTrips;
    var m: nat, st' :| After(mem, st, m) == Next(st') && Stuck(mem)(st');
    ParsesExactly(mem, Scan(mem, st'.start));
    SpinIsFixed(mem, st');
    forall n: nat ensures After(mem, st, n).Next? {
      if n < m && !After(mem, st, n).Next? {
        StopsOnce(mem, st, n, m);
      } else if n >= m {
        AfterAdds(mem, st, m, n - m, st');
      }
    }
  }

  /** A loop that never stops has only one outcome left. */
  lemma OneOutcome(mem: seq<byte>, st: LoopState)
    requires st.start < |mem| && Shows(mem, st, DecodeFrom(mem, st.start)) && RunsForever(mem, st)
    ensures DecodeFrom(mem, st.start) == Spins
  {
    hide DecodeFrom;
  }

  /** And it leaves the memory it may touch exactly if it scans to a length that cannot be read or leads out of the
      buffer, or to a candidate with a field that cannot be copied. */
  lemma FaultsExactly(buf: seq<byte>)
    requires |buf| <= INT32_MAX
    ensures Reaches(CString(buf), LoopState(0, []), Crash)
            <==> Meets(CString(buf), LoopState(0, []), Broken(CString(buf)))
  {
    hide DecodeFrom, Iterate, Scan, FieldBreaks, ScanBreaks;
    var mem, st := CString(buf), LoopState(0, []);
    LoopMeaning(mem, st);
    OutcomeMeets(mem, st);
    if Meets(mem, st, Broken(mem)) {
      BrokenCrashes(mem, st);
    }
    if Reaches(mem, st, Crash) {
      CrashIsFault(mem, st);
    }
  }

  lemma BrokenCrashes(mem: seq<byte>, st: LoopState)
    requires st.start < |mem| <= INT32_MAX + 1 && Meets(mem, st, Broken(mem))
    ensures Reaches(mem, st, Crash)
  {
    hide Scan, ParseFrame, FieldBreaks, ScanBreaks;
    var m: nat, st' :| After(mem, st, m) == Next(st') && Broken(mem)(st');
    ScanBreaksExactly(mem, st'.start);
    if Scan(mem, st'.start).Candidate? {
      ParsesExactly(mem, Scan(mem, st'.start));
    }
    StopsNow(mem, st');
    AfterAdds(mem, st, m, 1, st');
    assert After(mem, st', 1) == Crash;
  }

  lemma CrashIsFault(mem: seq<byte>, st: LoopState)
    requires st.start < |mem| && Shows(mem, st, DecodeFrom(mem, st.start)) && Reaches(mem, st, Crash)
    ensures DecodeFrom(mem, st.start) == Faults
  {
    hide DecodeFrom;
    var n: nat :| After(mem, st, n) == Crash;
    match DecodeFrom(mem, st.start)
    case Returned(ms) =>
      var k: nat :| After(mem, st, k) == Halt(st.out + ms);
      StopsOnce(mem, st, if k < n then k else n, if k < n then n else k);
    case _ =>
  }

  /** `decode` comes back to its caller exactly on the buffers where `Decode` says so, and hands over exactly those
      messages. What keeps it from returning is in `SpinsExactly` and `FaultsExactly`. */
  lemma ReturnsExactly(buf: seq<byte>, ms: seq<Message>)
    ensures Reaches(CString(buf), LoopState(0, []), Halt(ms)) <==> Decode(buf) == Returned(ms)
  {
    hide DecodeFrom;
    var mem, st := CString(buf), LoopState(0, []);
    LoopMeaning(mem, st);
    if Reaches(mem, st, Halt(ms)) {
      var n: nat :| After(mem, st, n) == Halt(ms);
      match Decode(buf)
      case Spins => assert false;
      case Faults =>
        var k: nat :| After(mem, st, k) == Crash;
        StopsOnce(mem, st, if k < n then k else n, if k < n then n else k);
      case Returned(ms') =>
        var k: nat :| After(mem, st, k) == Halt([] + ms');
        StopsOnce(mem, st, if k < n then k else n, if k < n then n else k);
        assert [] + ms' == ms';
    } else {
      assert [] + ms == ms;
    }
  }

  /** Six bytes on which it does not come back: a frame whose own length leaves no room for an id length. */
  lemma SixBytesSpin()
    ensures RunsForever(CString([PB_START, 0, 0, 0, 6, PB_END]), LoopState(0, []))
  {
    var mem := CString([PB_START, 0, 0, 0, 6, PB_END]);
    NetBytesRoundTrip(6);
    assert mem[1..5] == ToNetBytes(6);
    assert Scan(mem, 0) == Candidate(0, 5, 6);
    assert ParseFrame(mem, 0, 5, 6) == ParseSpins;
    SpinIsFixed(mem, LoopState(0, []));
  }
}
