/** The double-buffered logger as a transition system: appending threads against the one that writes the file. */
module AsyncLog {
  import opened Wrappers
  import opened Bytes

  const MAX_BUFF_SIZE := 50_000
  const MAX_BATCH := 25

  /** What became of a batch that was taken: its bytes went to the file, or were thrown away under overload. */
  datatype Entry = Written(bytes: seq<byte>) | Dropped(bytes: seq<byte>, batchSize: nat)

  /** The writing thread: at its loop test, past it and on the way to the swap, by way of the timed wait if there is no
      full buffer, past the swap with a batch in hand, or out of the loop. */
  datatype Backend = AtTop | Waiting | InHand | Done

  /** The contents of the buffers. `spare1` and `spare2` are newBuffer1 and newBuffer2; `accepted` and `ledger` are
      history; `broken` is set when one of the asserts of the loop fails. */
  datatype Log = Log(
    current: seq<byte>, next: Option<seq<byte>>, full: seq<seq<byte>>,
    spare1: Option<seq<byte>>, spare2: Option<seq<byte>>, batch: seq<seq<byte>>, backend: Backend,
    running: bool, file: seq<byte>, accepted: seq<byte>, ledger: seq<Entry>, broken: bool)

  const START := Log([], Some([]), [], Some([]), Some([]), [], AtTop, true, [], [], [], false)

  datatype Action = Append(line: seq<byte>) | Enter | Swap | WriteOut | Leave | Stop

  predicate Enabled(s: Log, a: Action) {
    match a
    case Append(_) => true
    case Enter => s.backend.AtTop? && s.running
    case Swap => s.backend.Waiting?
    case WriteOut => s.backend.InHand?
    case Leave => s.backend.AtTop? && !s.running
    case Stop => s.running
  }

  /** Bytes a line adds to what the log must account for: all of it, unless no empty buffer could hold it. */
  function Kept(line: seq<byte>): seq<byte> {
    if |line| <= MAX_BUFF_SIZE then line else []
  }

  /** `Buffer::append` with the logger's limit. */
  function Put(buf: seq<byte>, line: seq<byte>): seq<byte> {
    if MAX_BUFF_SIZE - |buf| >= |line| then buf + line else buf
  }

  function AfterAppend(s: Log, line: seq<byte>): Log {
    var s := s.(accepted := s.accepted + Kept(line));
    if MAX_BUFF_SIZE - |s.current| > |line| then s.(current := Put(s.current, line))
    else
      var empty := if s.next.Some? then s.next.value else [];
      s.(full := s.full + [s.current], current := Put(empty, line), next := None)
  }

  /** The asserts at the head of the loop. */
  function AfterEnter(s: Log): Log {
    if s.spare1 != Some([]) || s.spare2 != Some([]) || s.batch != [] then s.(broken := true) else s.(backend := Waiting)
  }

  /** The critical section from where the wait, if any, is over: notified, timed out or unasked. */
  function AfterSwap(s: Log): Log {
    if s.spare1 == None then s.(broken := true)
    else
      var s := s.(batch := s.full + [s.current], full := [], current := s.spare1.value, spare1 := None,
                  backend := InHand);
      if s.next == None then s.(next := s.spare2, spare2 := None) else s
  }

  /** Overload: a batch of more than `MAX_BATCH` buffers is cut to its first two. */
  function Trimmed(batch: seq<seq<byte>>): seq<seq<byte>> {
    if |batch| > MAX_BATCH then batch[..2] else batch
  }

  function EntriesFor(batch: seq<seq<byte>>): seq<Entry> {
    [Written(Concat(Trimmed(batch)))] + if |batch| > MAX_BATCH then [Dropped(Concat(batch[2..]), |batch|)] else []
  }

  /** From the swap to the next loop test: all of it on the writing thread's own data. A missing spare is taken off
      the end of the batch and emptied. */
  function AfterWriteOut(s: Log): Log {
    var missing := (if s.spare1 == None then 1 else 0) + (if s.spare2 == None then 1 else 0);
    if s.batch == [] || missing > |Trimmed(s.batch)| then s.(broken := true)
    else
      s.(spare1 := if s.spare1 == None then Some([]) else s.spare1,
         spare2 := if s.spare2 == None then Some([]) else s.spare2,
         batch := [], backend := AtTop,
         file := s.file + Concat(Trimmed(s.batch)), ledger := s.ledger + EntriesFor(s.batch))
  }

  function Apply(s: Log, a: Action): Log
    requires Enabled(s, a)
  {
    match a
    case Append(line) => AfterAppend(s, line)
    case Enter => AfterEnter(s)
    case Swap => AfterSwap(s)
    case WriteOut => AfterWriteOut(s)
    case Leave => s.(backend := Done)
    case Stop => s.(running := false)
  }

  predicate CanRun(s: Log, actions: seq<Action>)
    decreases |actions|
  {
    actions == [] || (Enabled(s, actions[0]) && CanRun(Apply(s, actions[0]), actions[1..]))
  }

  function Run(s: Log, actions: seq<Action>): Log
    requires CanRun(s, actions)
    decreases |actions|
  {
    if actions == [] then s else Run(Apply(s, actions[0]), actions[1..])
  }

  /** All bytes of the ledger, in order. */
  function Taken(ledger: seq<Entry>): seq<byte> {
    if ledger == [] then [] else Taken(ledger[..|ledger| - 1]) + ledger[|ledger| - 1].bytes
  }

  function WrittenBytes(ledger: seq<Entry>): seq<byte> {
    if ledger == [] then []
    else
      var last := ledger[|ledger| - 1];
      WrittenBytes(ledger[..|ledger| - 1]) + if last.Written? then last.bytes else []
  }

  /** Everything that was ever accepted, where it is now. */
  function Everywhere(s: Log): seq<byte> {
    Taken(s.ledger) + Concat(s.batch) + Concat(s.full) + s.current
  }

  // ------------------------------------------------------------------ invariant

  predicate Limits(s: Log) {
    |s.current| <= MAX_BUFF_SIZE && (s.backend.Done? ==> !s.running)
  }

  /** What the asserts need. The second line is the one that crosses the threads: the appending side gives away the
      reserve buffer only together with a full one. */
  predicate Reserves(s: Log) {
    && (s.next.Some? ==> s.next.value == [])
    && (s.next == None ==> s.full != [])
    && (!s.backend.InHand? ==> s.spare1 == Some([]) && s.spare2 == Some([]) && s.batch == [])
    && (s.backend.InHand? ==>
          && s.spare1 == None && s.batch != []
          && (s.spare2 == None || s.spare2 == Some([]))
          && (s.spare2 == None ==> |s.batch| >= 2))
  }

  predicate OnlyOverloadDrops(ledger: seq<Entry>) {
    forall k :: 0 <= k < |ledger| && ledger[k].Dropped? ==> ledger[k].batchSize > MAX_BATCH
  }

  predicate Conserved(s: Log) {
    Everywhere(s) == s.accepted && s.file == WrittenBytes(s.ledger) && OnlyOverloadDrops(s.ledger)
  }

  predicate Inv(s: Log) {
    Limits(s) && Reserves(s) && Conserved(s) && !s.broken
  }

  lemma TakenLast(ledger: seq<Entry>, e: Entry)
    ensures Taken(ledger + [e]) == Taken(ledger) + e.bytes
    ensures WrittenBytes(ledger + [e]) == WrittenBytes(ledger) + if e.Written? then e.bytes else []
  {
    assert (ledger + [e])[..|ledger|] == ledger;
  }

  lemma AppendKeepsInv(s: Log, line: seq<byte>)
    requires Inv(s)
    ensures Inv(AfterAppend(s, line))
  {
    hide Concat, Taken, WrittenBytes;
    var t := AfterAppend(s, line);
    if t.full == s.full {
      assert t.current == s.current + Kept(line);
    } else {
      assert t.current == Kept(line);
      ConcatLast(s.full, s.current);
    }
    AppendConserves(s, t, Kept(line));
  }

  lemma AppendConserves(s: Log, t: Log, kept: seq<byte>)
    requires Conserved(s) && t.accepted == s.accepted + kept
    requires t.ledger == s.ledger && t.batch == s.batch && t.file == s.file
    requires (Concat(t.full) == Concat(s.full) && t.current == s.current + kept)
             || (Concat(t.full) == Concat(s.full) + s.current && t.current == kept)
    ensures Conserved(t)
  {
    hide Concat, Taken, WrittenBytes;
    var before := Taken(s.ledger) + Concat(s.batch);
    assert before + Concat(s.full) + (s.current + kept) == before + Concat(s.full) + s.current + kept;
    assert before + (Concat(s.full) + s.current) + kept == before + Concat(s.full) + s.current + kept;
  }

  lemma SwapKeepsInv(s: Log)
    requires Inv(s) && s.backend.Waiting?
    ensures Inv(AfterSwap(s))
  {
    var t := AfterSwap(s);
    ConcatLast(s.full, s.current);
    assert Concat([]) == [];
    assert Everywhere(t) == Everywhere(s);
  }

  lemma WriteOutKeepsInv(s: Log)
    requires Inv(s) && s.backend.InHand?
    ensures Inv(AfterWriteOut(s))
  {
    hide Concat, Taken, WrittenBytes;
    var t := AfterWriteOut(s);
    assert Concat([]) == [] by {
      ConcatNothing();
    }
    if |s.batch| > MAX_BATCH {
      var w, d := Written(Concat(s.batch[..2])), Dropped(Concat(s.batch[2..]), |s.batch|);
      assert s.batch == s.batch[..2] + s.batch[2..];
      ConcatAppend(s.batch[..2], s.batch[2..]);
      assert t.ledger == (s.ledger + [w]) + [d];
      TakenLast(s.ledger, w);
      TakenLast(s.ledger + [w], d);
    } else {
      assert t.ledger == s.ledger + [Written(Concat(s.batch))];
      TakenLast(s.ledger, Written(Concat(s.batch)));
    }
    assert Everywhere(t) == Everywhere(s);
  }

  lemma ConcatNothing()
    ensures Concat([]) == []
  {
  }

  lemma InvFits(s: Log)
    requires Inv(s)
    ensures Limits(s) && Reserves(s)
  {
  }

  lemma WriteOutIs(s: Log)
    requires Inv(s) && s.backend.InHand?
    ensures AfterWriteOut(s) ==
      s.(spare1 := Some([]), spare2 := Some([]), batch := [], backend := AtTop,
         file := s.file + Concat(Trimmed(s.batch)), ledger := s.ledger + EntriesFor(s.batch))
  {
    hide Concat, EntriesFor;
  }

  lemma StepKeepsInv(s: Log, a: Action)
    requires Inv(s) && Enabled(s, a)
    ensures Inv(Apply(s, a))
  {
    hide AfterAppend, AfterSwap, AfterWriteOut, Taken, Concat, WrittenBytes;
    match a
    case Append(line) => AppendKeepsInv(s, line);
    case Swap => SwapKeepsInv(s);
    case WriteOut => WriteOutKeepsInv(s);
    case _ =>
  }

  lemma {:induction false} RunKeepsInv(s: Log, actions: seq<Action>)
    requires Inv(s) && CanRun(s, actions)
    ensures Inv(Run(s, actions))
    decreases |actions|
  {
    hide Inv, Enabled, Apply;
    if actions != [] {
      StepKeepsInv(s, actions[0]);
      RunKeepsInv(Apply(s, actions[0]), actions[1..]);
    }
  }

  // ------------------------------------------------------------------ runs

  /** The lines appended in a run, in the order in which they got the lock, without those too long for a buffer. */
  function Lines(actions: seq<Action>): seq<byte> {
    if actions == [] then []
    else (if actions[0].Append? then Kept(actions[0].line) else []) + Lines(actions[1..])
  }

  lemma {:induction false} AcceptedIsLines(s: Log, actions: seq<Action>)
    requires CanRun(s, actions)
    ensures Run(s, actions).accepted == s.accepted + Lines(actions)
    decreases |actions|
  {
    if actions != [] {
      AcceptedIsLines(Apply(s, actions[0]), actions[1..]);
    }
  }

  /** Conservation, for every interleaving: file, batch in hand, full buffers and the current buffer make up exactly
      the appended lines, but for what the ledger says was dropped from a batch of more than `MAX_BATCH` buffers; and
      no assert of the loop fails. */
  lemma LogConserves(actions: seq<Action>)
    requires CanRun(START, actions)
    ensures var s := Run(START, actions);
      && Taken(s.ledger) + Concat(s.batch) + Concat(s.full) + s.current == Lines(actions)
      && s.file == WrittenBytes(s.ledger) && OnlyOverloadDrops(s.ledger) && !s.broken
  {
    hide Run, CanRun, Limits, Reserves;
    StartInv();
    RunKeepsInv(START, actions);
    AcceptedIsLines(START, actions);
    assert [] + Lines(actions) == Lines(actions);
  }

  lemma StartInv()
    ensures Inv(START)
  {
  }

  predicate NothingDropped(ledger: seq<Entry>) {
    forall k :: 0 <= k < |ledger| ==> ledger[k].Written?
  }

  lemma {:induction false} AllWritten(ledger: seq<Entry>)
    requires NothingDropped(ledger)
    ensures Taken(ledger) == WrittenBytes(ledger)
  {
    if ledger != [] {
      AllWritten(ledger[..|ledger| - 1]);
    }
  }

  /** Without overload the file is what was appended, up to what the buffers still hold. */
  lemma FileIsPrefix(actions: seq<Action>)
    requires CanRun(START, actions) && NothingDropped(Run(START, actions).ledger)
    ensures var s := Run(START, actions);
      s.file + Concat(s.batch) + Concat(s.full) + s.current == Lines(actions)
  {
    hide Run, CanRun;
    LogConserves(actions);
    AllWritten(Run(START, actions).ledger);
  }

  /** Lines may come at any time, and `stop` at any time while the logger runs. */
  lemma SurroundingsAreFree(s: Log, line: seq<byte>)
    ensures Enabled(s, Append(line)) && (s.running ==> Enabled(s, Stop)) && (s.backend.Waiting? ==> Enabled(s, Swap))
  {
  }

  // ------------------------------------------------------------------ how full the buffers are

  /** The bytes that have been handed to `append` since the last swap, a step after it was `n`. */
  function Counted(n: nat, a: Action): nat {
    match a
    case Append(line) => n + |line|
    case Swap => 0
    case _ => n
  }

  function SinceSwap(n: nat, actions: seq<Action>): nat
    decreases |actions|
  {
    if actions == [] then n else SinceSwap(Counted(n, actions[0]), actions[1..])
  }

  /** A buffer is given up only for want of room. */
  predicate Spent(s: Log, n: nat) {
    if s.full == [] then |s.current| <= n else n >= MAX_BUFF_SIZE
  }

  lemma StepSpends(s: Log, n: nat, a: Action)
    requires Inv(s) && Enabled(s, a) && Spent(s, n)
    ensures Spent(Apply(s, a), Counted(n, a))
  {
    hide Conserved;
  }

  lemma {:induction false} SpentInRun(s: Log, n: nat, actions: seq<Action>)
    requires Inv(s) && CanRun(s, actions) && Spent(s, n)
    ensures Spent(Run(s, actions), SinceSwap(n, actions))
    decreases |actions|
  {
    hide Inv, Enabled, Apply, Spent;
    if actions != [] {
      var a := actions[0];
      StepKeepsInv(s, a);
      StepSpends(s, n, a);
      SpentInRun(Apply(s, a), Counted(n, a), actions[1..]);
    }
  }

  /** As long as less than a buffer's size has been appended since the last swap, everything is in one buffer. */
  lemma OneBufferTakesAll(actions: seq<Action>)
    requires CanRun(START, actions) && SinceSwap(0, actions) < MAX_BUFF_SIZE
    ensures Run(START, actions).full == []
  {
    StartInv();
    SpentInRun(START, 0, actions);
  }

  predicate NoLongerThan(actions: seq<Action>, limit: nat) {
    forall a :: a in actions && a.Append? ==> |a.line| <= limit
  }

  predicate AllFilled(bs: seq<seq<byte>>, limit: nat) {
    forall b :: b in bs ==> |b| + limit >= MAX_BUFF_SIZE
  }

  /** Full buffers are full but for the room of a longest line, on either side of the swap; the last of a batch is the
      one that was current. */
  predicate Filled(s: Log, limit: nat) {
    AllFilled(s.full, limit) && (s.batch != [] ==> AllFilled(s.batch[..|s.batch| - 1], limit))
  }

  lemma StepKeepsFilled(s: Log, a: Action, limit: nat)
    requires Inv(s) && Filled(s, limit) && Enabled(s, a) && (a.Append? ==> |a.line| <= limit)
    ensures Filled(Apply(s, a), limit)
  {
    hide Conserved;
    if a.Swap? {
      assert (s.full + [s.current])[..|s.full|] == s.full;
    }
  }

  lemma {:induction false} FilledBytes(bs: seq<seq<byte>>, room: nat)
    requires forall b :: b in bs ==> |b| >= room
    ensures |Concat(bs)| >= |bs| * room
  {
    if bs != [] {
      assert bs[0] in bs && forall b :: b in bs[1..] ==> b in bs;
      FilledBytes(bs[1..], room);
      assert |bs| * room == room + |bs[1..]| * room;
    }
  }

  lemma ManyTimes(m: nat, n: nat, room: nat)
    requires m <= n
    ensures m * room <= n * room
  {
  }

  /** A batch that will be cut holds many bytes. */
  lemma OverloadIsBig(s: Log, limit: nat)
    requires Filled(s, limit) && limit <= MAX_BUFF_SIZE && |s.batch| > MAX_BATCH
    ensures |Concat(s.batch)| >= MAX_BATCH * (MAX_BUFF_SIZE - limit)
  {
    hide Concat;
    var n := |s.batch| - 1;
    var room := MAX_BUFF_SIZE - limit;
    assert s.batch == s.batch[..n] + [s.batch[n]];
    FilledBytes(s.batch[..n], room);
    ConcatLast(s.batch[..n], s.batch[n]);
    ManyTimes(MAX_BATCH, n, room);
  }

  lemma {:induction false} FilledInRun(s: Log, actions: seq<Action>, limit: nat)
    requires Inv(s) && Filled(s, limit) && CanRun(s, actions) && NoLongerThan(actions, limit)
    ensures Filled(Run(s, actions), limit)
    decreases |actions|
  {
    hide Inv, Filled, Enabled, Apply;
    if actions != [] {
      assert actions[0] in actions;
      StepKeepsFilled(s, actions[0], limit);
      StepKeepsInv(s, actions[0]);
      FilledInRun(Apply(s, actions[0]), actions[1..], limit);
    }
  }

  /** In every run with lines of at most `limit` bytes, a batch is cut only if that many bytes were waiting. */
  lemma CutNeedsOverload(actions: seq<Action>, limit: nat)
    requires CanRun(START, actions) && NoLongerThan(actions, limit) && limit <= MAX_BUFF_SIZE
    requires |Run(START, actions).batch| > MAX_BATCH
    ensures |Concat(Run(START, actions).batch)| >= MAX_BATCH * (MAX_BUFF_SIZE - limit)
  {
    hide CanRun, Run;
    StartInv();
    FilledInRun(START, actions, limit);
    OverloadIsBig(Run(START, actions), limit);
  }

  lemma AcceptedGrows(s: Log, a: Action)
    requires Enabled(s, a)
    ensures |Apply(s, a).accepted| >= |s.accepted|
  {
  }

  lemma WriteOutDrops(s: Log, a: Action, limit: nat)
    requires Inv(s) && Filled(s, limit) && Enabled(s, a) && limit <= MAX_BUFF_SIZE
    requires NothingDropped(s.ledger) && |s.accepted| < MAX_BATCH * (MAX_BUFF_SIZE - limit)
    ensures NothingDropped(Apply(s, a).ledger)
  {
    hide Concat, Taken, WrittenBytes, Filled;
    assert |s.accepted| >= |Concat(s.batch)|;
    if |s.batch| > MAX_BATCH {
      OverloadIsBig(s, limit);
    }
  }

  lemma {:induction false} NothingDroppedInRun(s: Log, actions: seq<Action>, limit: nat)
    requires Inv(s) && Filled(s, limit) && CanRun(s, actions) && NoLongerThan(actions, limit) && limit <= MAX_BUFF_SIZE
    requires NothingDropped(s.ledger) && |Run(s, actions).accepted| < MAX_BATCH * (MAX_BUFF_SIZE - limit)
    ensures NothingDropped(Run(s, actions).ledger)
    decreases |actions|
  {
    hide Inv, Filled, Enabled, Apply, NothingDropped;
    if actions != [] {
      var a := actions[0];
      assert a in actions;
      var t := Apply(s, a);
      StepKeepsFilled(s, a, limit);
      StepKeepsInv(s, a);
      AcceptedGrows(s, a);
      AcceptedGrowsInRun(t, actions[1..]);
      WriteOutDrops(s, a, limit);
      NothingDroppedInRun(t, actions[1..], limit);
    }
  }

  lemma {:induction false} AcceptedGrowsInRun(s: Log, actions: seq<Action>)
    requires CanRun(s, actions)
    ensures |Run(s, actions).accepted| >= |s.accepted|
    decreases |actions|
  {
    hide Enabled, Apply;
    if actions != [] {
      AcceptedGrows(s, actions[0]);
      AcceptedGrowsInRun(Apply(s, actions[0]), actions[1..]);
    }
  }

  /** So a run that appends less than that in all drops nothing, however its steps interleave. */
  lemma SmallLoadDropsNothing(actions: seq<Action>, limit: nat)
    requires CanRun(START, actions) && NoLongerThan(actions, limit) && limit <= MAX_BUFF_SIZE
    requires |Lines(actions)| < MAX_BATCH * (MAX_BUFF_SIZE - limit)
    ensures NothingDropped(Run(START, actions).ledger)
  {
    hide CanRun, Run;
    StartInv();
    AcceptedIsLines(START, actions);
    assert START.accepted + Lines(actions) == Lines(actions);
    NothingDroppedInRun(START, actions, limit);
  }

  // ------------------------------------------------------------------ stop

  predicate NoAppends(actions: seq<Action>) {
    forall a :: a in actions ==> !a.Append?
  }

  /** The buffers that the writing thread will still take after `stop`: all of them if it is between its test and its
      swap, those in its hand if it is past that, and else none. */
  function LastBatch(s: Log): seq<seq<byte>> {
    match s.backend
    case Waiting => s.full + [s.current]
    case InHand => s.batch
    case _ => []
  }

  /** And those that it will not. */
  function LeftBehind(s: Log): seq<byte> {
    if s.backend.Waiting? then [] else Concat(s.full) + s.current
  }

  /** A step after `stop` does not change what the file will be. */
  lemma StoppedStep(s: Log, a: Action)
    requires Inv(s) && !s.running && Enabled(s, a) && !a.Append?
    ensures var t := Apply(s, a);
      && !t.running && t.accepted == s.accepted
      && t.file + Concat(Trimmed(LastBatch(t))) == s.file + Concat(Trimmed(LastBatch(s)))
      && LeftBehind(t) == LeftBehind(s)
  {
    ConcatNothing();
    hide Concat;
    if a.WriteOut? {
      assert s.file + Concat(Trimmed(s.batch)) + [] == s.file + Concat(Trimmed(s.batch));
    }
  }

  lemma {:induction false} StoppedRun(s: Log, actions: seq<Action>)
    requires Inv(s) && !s.running && CanRun(s, actions) && NoAppends(actions)
    ensures var t := Run(s, actions);
      && t.accepted == s.accepted
      && t.file + Concat(Trimmed(LastBatch(t))) == s.file + Concat(Trimmed(LastBatch(s)))
      && LeftBehind(t) == LeftBehind(s)
    decreases |actions|
  {
    hide Inv, Enabled, Apply, Concat, Trimmed, LastBatch, LeftBehind;
    if actions != [] {
      StoppedStep(s, actions[0]);
      StepKeepsInv(s, actions[0]);
      StoppedRun(Apply(s, actions[0]), actions[1..]);
    }
  }

  /** What `stop` does, from the state at its call: when the writing thread has left, the file has grown by the last
      batch and by nothing else. */
  lemma StopWritesExactly(s: Log, actions: seq<Action>)
    requires Inv(s) && Enabled(s, Stop) && NoAppends(actions)
    requires CanRun(Apply(s, Stop), actions) && Run(Apply(s, Stop), actions).backend.Done?
    ensures var t := Run(Apply(s, Stop), actions);
      t.file == s.file + Concat(Trimmed(LastBatch(s))) && Concat(t.full) + t.current == LeftBehind(s)
  {
    hide CanRun, Run, Inv;
    var u := Apply(s, Stop);
    StepKeepsInv(s, Stop);
    StoppedRun(u, actions);
    var t := Run(u, actions);
    assert t.file + [] == t.file;
  }

  /** The last batch loses nothing: it is not overloaded, or what is cut from it is empty. */
  predicate SparesAll(batch: seq<seq<byte>>) {
    |batch| <= MAX_BATCH || Concat(batch[2..]) == []
  }

  /** So `stop` leaves a complete file exactly if, at its call, the writing thread is on the way to its swap or the
      buffers of the appending side are empty, and the batch it will take is not cut. */
  lemma CompleteAtExitExactly(s: Log, actions: seq<Action>)
    requires Inv(s) && NothingDropped(s.ledger) && Enabled(s, Stop) && NoAppends(actions)
    requires CanRun(Apply(s, Stop), actions) && Run(Apply(s, Stop), actions).backend.Done?
    ensures var t := Run(Apply(s, Stop), actions);
      t.file == t.accepted <==> LeftBehind(s) == [] && SparesAll(LastBatch(s))
  {
    hide CanRun, Run, LastBatch, LeftBehind;
    StopWritesExactly(s, actions);
    StepKeepsInv(s, Stop);
    StoppedRun(Apply(s, Stop), actions);
    AllWritten(s.ledger);
    AcceptedAtStop(s);
    TrimmedLoses(LastBatch(s));
    var t := Run(Apply(s, Stop), actions);
    var kept, all := Concat(Trimmed(LastBatch(s))), Concat(LastBatch(s));
    assert t.accepted == s.file + (all + LeftBehind(s));
    assert |t.accepted| == |s.file| + |all| + |LeftBehind(s)|;
    if all == kept && LeftBehind(s) == [] {
      assert s.file + (all + []) == s.file + all;
    }
  }

  /** What was accepted is in the file, in the last batch or left behind. */
  lemma AcceptedAtStop(s: Log)
    requires Inv(s) && !s.backend.Done? && s.file == Taken(s.ledger)
    ensures s.accepted == s.file + (Concat(LastBatch(s)) + LeftBehind(s))
  {
    ConcatNothing();
    ConcatLast(s.full, s.current);
    hide Concat, Taken, WrittenBytes;
    var x, y, z := Concat(s.batch), Concat(s.full), s.current;
    assert s.file + x + y + z == s.file + (x + (y + z));
    assert [] + (y + z) == y + z == (y + z) + [];
  }

  lemma TrimmedLoses(batch: seq<seq<byte>>)
    ensures |Concat(Trimmed(batch))| <= |Concat(batch)|
    ensures SparesAll(batch) ==> Concat(Trimmed(batch)) == Concat(batch)
    ensures !SparesAll(batch) ==> |Concat(Trimmed(batch))| < |Concat(batch)|
  {
    if |batch| > MAX_BATCH {
      ConcatAppend(batch[..2], batch[2..]);
      assert batch == batch[..2] + batch[2..];
    }
  }

  /** So a line may be lost by `stop` and may not, though nothing but the place of the writing thread differs. */
  lemma StopLosesALine(line: seq<byte>)
    requires 0 < |line| < MAX_BUFF_SIZE
    ensures var actions := [Append(line), Stop, Leave];
      CanRun(START, actions) && Run(START, actions).backend.Done? && Run(START, actions).file == []
    ensures var actions := [Enter, Append(line), Stop, Swap, WriteOut, Leave];
      CanRun(START, actions) && Run(START, actions).backend.Done? && Run(START, actions).file == line
  {
    hide CanRun, Run;
    var s1 := Apply(START, Append(line));
    var s2 := Apply(s1, Stop);
    RunLeave(s2);
    RunCons(s1, Stop, [Leave]);
    RunCons(START, Append(line), [Stop] + [Leave]);
    assert [Append(line)] + ([Stop] + [Leave]) == [Append(line), Stop, Leave];
    StopSavesALine(line);
  }

  lemma StopSavesALine(line: seq<byte>)
    requires 0 < |line| < MAX_BUFF_SIZE
    ensures var actions := [Enter, Append(line), Stop, Swap, WriteOut, Leave];
      CanRun(START, actions) && Run(START, actions).backend.Done? && Run(START, actions).file == line
  {
    hide CanRun, Run;
    var s1 := Apply(START, Enter);
    var s2 := Apply(s1, Append(line));
    assert s2.current == [] + line == line;
    var s3 := Apply(s2, Stop);
    var s4 := Apply(s3, Swap);
    assert s4.batch == [line];
    assert Concat([line]) == line + Concat([]) == line;
    var s5 := Apply(s4, WriteOut);
    assert s5.file == [] + line == line;
    RunLeave(s5);
    RunCons(s4, WriteOut, [Leave]);
    RunCons(s3, Swap, [WriteOut] + [Leave]);
    RunCons(s2, Stop, [Swap] + ([WriteOut] + [Leave]));
    RunCons(s1, Append(line), [Stop] + ([Swap] + ([WriteOut] + [Leave])));
    RunCons(START, Enter, [Append(line)] + ([Stop] + ([Swap] + ([WriteOut] + [Leave]))));
    assert [Enter] + ([Append(line)] + ([Stop] + ([Swap] + ([WriteOut] + [Leave]))))
        == [Enter, Append(line), Stop, Swap, WriteOut, Leave];
  }

  lemma RunLeave(s: Log)
    requires Enabled(s, Leave)
    ensures CanRun(s, [Leave]) && Run(s, [Leave]) == s.(backend := Done)
  {
    assert [Leave][1..] == [];
  }

  lemma RunCons(s: Log, a: Action, rest: seq<Action>)
    requires Enabled(s, a) && CanRun(Apply(s, a), rest)
    ensures CanRun(s, [a] + rest) && Run(s, [a] + rest) == Run(Apply(s, a), rest)
  {
    hide Enabled, Apply;
    assert ([a] + rest)[1..] == rest;
  }
}
