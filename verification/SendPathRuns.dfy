/** The send path over whole runs: what reaches the socket, when the IO thread wakes, and when the process exits. */
module SendPathRuns {
  import opened Wrappers
  import opened Bytes
  import opened SendPath

  predicate WorkersOnly(actions: seq<Action>) {
    forall a :: a in actions ==> !a.SendHere?
  }

  /** For every run and every connection: what the kernel took, then the output buffer, is the data of the sends in the
      order in which the IO thread executed them; the workers' among those, then the queue, are the workers' sends in
      the order in which they were pushed, each with the data of its call. */
  lemma StreamsAreKept(n: nat, actions: seq<Action>)
    requires CanRun(Init(n), actions)
    ensures var s := Run(Init(n), actions);
      && FromWorkers(s.executed) + s.queue == s.submitted
      && forall c: nat :: c < |s.conns| ==> s.conns[c].accepted + s.conns[c].out == BytesFor(c, s.executed)
  {
    hide Run, CanRun, BytesFor, FromWorkers;
    InitInv(n);
    RunKeepsInv(Init(n), actions);
  }

  /** While the process lives any thread may send at any time; and in any reachable state, when the IO thread is at
      rest, a connection that is not closed may be closed or sent on there, and the kernel may take any part of what
      is to be written. */
  lemma SurroundingsAreFree(n: nat, actions: seq<Action>, c: nat, data: seq<byte>, k: nat)
    requires CanRun(Init(n), actions) && !Run(Init(n), actions).exited && c < |Run(Init(n), actions).conns|
    ensures Enabled(Run(Init(n), actions), Check(c, data))
    ensures var s := Run(Init(n), actions); var conn := s.conns[c];
      s.handler.Resting? ==>
        && Enabled(s, SendHere(c, data))
        && (!conn.disconnected ==> Enabled(s, Close(c)))
        && (!conn.disconnected && conn.out != [] && k <= |conn.out| ==> Enabled(s, Writable(c, k)))
  {
    hide Run, CanRun, Streams, Queued, Noticed;
    InitInv(n);
    RunKeepsInv(Init(n), actions);
  }

  // ------------------------------------------------------------------ the order of the calls

  function SendsFor(c: nat, sends: seq<Send>): seq<Send> {
    if sends == [] then []
    else
      var last := sends[|sends| - 1];
      SendsFor(c, sends[..|sends| - 1]) + if last.conn == c then [last] else []
  }

  lemma SendsForLast(c: nat, sends: seq<Send>, x: Send)
    ensures SendsFor(c, sends + [x]) == SendsFor(c, sends) + if x.conn == c then [x] else []
  {
    assert (sends + [x])[..|sends|] == sends;
  }

  lemma {:induction false} SendsForAppend(c: nat, a: seq<Send>, b: seq<Send>)
    ensures SendsFor(c, a + b) == SendsFor(c, a) + SendsFor(c, b)
  {
    if b == [] {
      assert a + b == a;
    } else {
      var n := |b| - 1;
      assert a + b == (a + b[..n]) + [b[n]] && b == b[..n] + [b[n]];
      SendsForLast(c, a + b[..n], b[n]);
      SendsForLast(c, b[..n], b[n]);
      SendsForAppend(c, a, b[..n]);
    }
  }

  /** There are some exactly if the connection has some. */
  lemma {:induction false} SendsForSome(c: nat, sends: seq<Send>)
    ensures SendsFor(c, sends) != [] <==> exists x :: x in sends && x.conn == c
    ensures forall x :: x in SendsFor(c, sends) ==> x in sends && x.conn == c
  {
    if sends != [] {
      var n := |sends| - 1;
      assert sends == sends[..n] + [sends[n]];
      SendsForSome(c, sends[..n]);
    }
  }

  lemma {:induction false} BytesOfSends(c: nat, sends: seq<Send>)
    ensures BytesFor(c, SendsFor(c, sends)) == BytesFor(c, sends)
  {
    if sends != [] {
      var n := |sends| - 1;
      BytesOfSends(c, sends[..n]);
      if sends[n].conn == c {
        BytesForLast(c, SendsFor(c, sends[..n]), sends[n]);
      } else {
        assert SendsFor(c, sends[..n]) + [] == SendsFor(c, sends[..n]);
      }
    }
  }

  /** A send on the IO thread while the queue holds one for the same connection. */
  predicate Overtakes(s: Io, a: Action, c: nat)
    requires Enabled(s, a)
  {
    a.SendHere? && a.conn == c && !s.conns[c].disconnected && exists x :: x in s.queue && x.conn == c
  }

  predicate NoneOvertakes(s: Io, actions: seq<Action>, c: nat)
    requires CanRun(s, actions)
    decreases |actions|
  {
    actions == [] || (!Overtakes(s, actions[0], c) && NoneOvertakes(Apply(s, actions[0]), actions[1..], c))
  }

  /** The sends on connection `c`, executed or queued, are in the order of the calls. */
  predicate InOrder(s: Io, c: nat) {
    SendsFor(c, s.executed + s.queue) == SendsFor(c, s.called)
  }

  lemma {:induction false} DrainKeepsOrder(s: Io)
    ensures DrainAll(s).executed + DrainAll(s).queue == s.executed + s.queue && DrainAll(s).called == s.called
    decreases |s.queue|
  {
    if !(s.queue == [] || s.exited || s.queue[0].conn >= |s.conns|) {
      var t := SendInLoop(s.(queue := s.queue[1..]), s.queue[0]);
      DrainKeepsOrder(t);
      assert s.queue == [s.queue[0]] + s.queue[1..];
      assert t.executed + t.queue == s.executed + s.queue;
    }
  }

  /** A send goes to the end of both, or to the end of one and not of the other. */
  lemma SendHereOrder(s: Io, c: nat, x: Send)
    requires (forall y :: y in s.queue ==> y.fromWorker) && !x.fromWorker
    ensures SendsFor(c, (s.executed + [x]) + s.queue) == SendsFor(c, s.called + [x])
            <==> InOrder(s, c) && (x.conn == c ==> SendsFor(c, s.queue) == [])
  {
    var e, q, l := SendsFor(c, s.executed), SendsFor(c, s.queue), SendsFor(c, s.called);
    SendsForAppend(c, s.executed, s.queue);
    SendsForAppend(c, s.executed + [x], s.queue);
    SendsForLast(c, s.executed, x);
    SendsForLast(c, s.called, x);
    SendsForSome(c, s.queue);
    hide SendsFor;
    if x.conn == c {
      var m, n := (e + [x]) + q, l + [x];
      if q != [] {
        assert m[|m| - 1] == q[|q| - 1] && q[|q| - 1] in q && n[|n| - 1] == x;
      } else {
        assert m == e + [x] && e + q == e;
        assert m == n ==> m[..|e|] == e && n[..|l|] == l;
      }
    } else {
      assert e + [] == e && l + [] == l;
    }
  }

  lemma StepKeepsOrder(s: Io, a: Action, c: nat)
    requires Inv(s) && Enabled(s, a)
    ensures InOrder(Apply(s, a), c) <==> InOrder(s, c) && !Overtakes(s, a, c)
  {
    hide Streams, Noticed, Watched, FromWorkers, DrainAll;
    var t := Apply(s, a);
    match a
    case Drain => DrainKeepsOrder(s);
    case Push(x) =>
      assert s.executed + (s.queue + [x]) == (s.executed + s.queue) + [x];
      SendsForLast(c, s.executed + s.queue, x);
      SendsForLast(c, s.called, x);
      SameEnd(SendsFor(c, s.executed + s.queue), SendsFor(c, s.called), if x.conn == c then [x] else []);
    case SendHere(d, data) =>
      if !s.conns[d].disconnected {
        SendHereOrder(s, c, Send(d, data, false));
        SendsForSome(c, s.queue);
      }
    case _ =>
  }

  lemma SameEnd(a: seq<Send>, b: seq<Send>, x: seq<Send>)
    ensures a + x == b + x <==> a == b
  {
    if a + x == b + x {
      assert (a + x)[..|a|] == a && (b + x)[..|b|] == b;
    }
  }

  lemma {:induction false} OrderInRun(s: Io, actions: seq<Action>, c: nat)
    requires Inv(s) && CanRun(s, actions)
    ensures InOrder(Run(s, actions), c) <==> InOrder(s, c) && NoneOvertakes(s, actions, c)
    decreases |actions|
  {
    hide Inv, Enabled, Apply, InOrder, Overtakes;
    if actions != [] {
      StepKeepsOrder(s, actions[0], c);
      StepKeepsInv(s, actions[0]);
      OrderInRun(Apply(s, actions[0]), actions[1..], c);
    }
  }

  /** For all runs: the sends on a connection are executed and queued in the order of the calls exactly if no send on
      the IO thread was made while the queue held one for that connection. */
  lemma CallOrderExactly(n: nat, actions: seq<Action>, c: nat)
    requires CanRun(Init(n), actions)
    ensures InOrder(Run(Init(n), actions), c) <==> NoneOvertakes(Init(n), actions, c)
  {
    hide CanRun, Run, NoneOvertakes;
    InitInv(n);
    OrderInRun(Init(n), actions, c);
  }

  /** Then the stream of the connection, with what is still queued for it, is exactly the data of the calls in order:
      nothing lost, duplicated, reordered or mixed with another connection's. */
  lemma StreamInCallOrder(n: nat, actions: seq<Action>, c: nat)
    requires CanRun(Init(n), actions) && NoneOvertakes(Init(n), actions, c) && c < |Run(Init(n), actions).conns|
    ensures var s := Run(Init(n), actions);
      s.conns[c].accepted + s.conns[c].out + BytesFor(c, s.queue) == BytesFor(c, s.called)
  {
    hide Run, CanRun, BytesFor, FromWorkers, SendsFor, NoneOvertakes;
    var s := Run(Init(n), actions);
    CallOrderExactly(n, actions, c);
    StreamsAreKept(n, actions);
    BytesForAppend(c, s.executed, s.queue);
    BytesOfSends(c, s.executed + s.queue);
    BytesOfSends(c, s.called);
  }

  lemma {:induction false} WorkersKeepOrder(s: Io, actions: seq<Action>, c: nat)
    requires CanRun(s, actions) && WorkersOnly(actions) && s.called == s.submitted
    ensures NoneOvertakes(s, actions, c) && Run(s, actions).called == Run(s, actions).submitted
    decreases |actions|
  {
    hide DrainAll;
    if actions != [] {
      DrainSubmitsNothing(s);
      WorkersKeepOrder(Apply(s, actions[0]), actions[1..], c);
    }
  }

  lemma {:induction false} DrainSubmitsNothing(s: Io)
    ensures DrainAll(s).submitted == s.submitted && DrainAll(s).called == s.called
    decreases |s.queue|
  {
    if !(s.queue == [] || s.exited || s.queue[0].conn >= |s.conns|) {
      DrainSubmitsNothing(SendInLoop(s.(queue := s.queue[1..]), s.queue[0]));
    }
  }

  /** In particular when all sends come from workers. */
  lemma WorkerStream(n: nat, actions: seq<Action>, c: nat)
    requires CanRun(Init(n), actions) && WorkersOnly(actions) && c < |Run(Init(n), actions).conns|
    ensures var s := Run(Init(n), actions);
      s.conns[c].accepted + s.conns[c].out + BytesFor(c, s.queue) == BytesFor(c, s.submitted)
  {
    hide Run, CanRun, BytesFor, NoneOvertakes;
    WorkersKeepOrder(Init(n), actions, c);
    StreamInCallOrder(n, actions, c);
  }

  // ------------------------------------------------------------------ wake-up and exit

  /** No lost wake-up: as long as a task is queued, a step that leads to the drain is possible. */
  lemma NoLostWakeup(n: nat, actions: seq<Action>)
    requires CanRun(Init(n), actions)
    ensures var s := Run(Init(n), actions);
      s.queue != [] && !s.exited ==> Enabled(s, Wake) || Enabled(s, ReadCounter) || Enabled(s, Drain)
  {
    hide Run, CanRun, Streams, Queued, Watched;
    InitInv(n);
    RunKeepsInv(Init(n), actions);
  }

  /** In any reachable state a drain ends the process exactly when a connection with a queued send has been closed. */
  lemma DrainExitsExactly(n: nat, actions: seq<Action>)
    requires CanRun(Init(n), actions) && Enabled(Run(Init(n), actions), Drain)
    ensures var s := Run(Init(n), actions);
      && (forall x :: x in s.queue ==> x.conn < |s.conns|)
      && (Apply(s, Drain).exited <==> exists x :: x in s.queue && s.conns[x.conn].disconnected)
  {
    hide Run, CanRun, DrainAll, BytesFor, FromWorkers;
    InitInv(n);
    RunKeepsInv(Init(n), actions);
    var s := Run(Init(n), actions);
    DrainKeepsInv(s);
  }

  predicate NothingClosed(s: Io) {
    !s.exited && forall c: nat :: c < |s.conns| ==> !s.conns[c].disconnected
  }

  lemma {:induction false} DrainClosesNothing(s: Io)
    ensures |DrainAll(s).conns| == |s.conns|
    ensures forall c: nat :: c < |s.conns| ==> DrainAll(s).conns[c].disconnected == s.conns[c].disconnected
    decreases |s.queue|
  {
    if !(s.queue == [] || s.exited || s.queue[0].conn >= |s.conns|) {
      DrainClosesNothing(SendInLoop(s.(queue := s.queue[1..]), s.queue[0]));
    }
  }

  lemma OthersCloseNothing(s: Io, a: Action)
    requires Enabled(s, a) && !a.Close? && !a.Drain?
    ensures |Apply(s, a).conns| == |s.conns|
    ensures forall c: nat :: c < |s.conns| ==> Apply(s, a).conns[c].disconnected == s.conns[c].disconnected
  {
    hide EnableWriting, DisableWriting, DrainAll;
  }

  lemma StepClosesNothing(s: Io, a: Action)
    requires Inv(s) && NothingClosed(s) && Enabled(s, a) && !a.Close?
    ensures NothingClosed(Apply(s, a))
  {
    StepKeepsInv(s, a);
    hide Inv, DrainAll;
    if a.Drain? {
      InvQueued(s);
      QueuedIsAimed(s);
      DrainClosesNothing(s);
    } else {
      OthersCloseNothing(s, a);
      hide Apply, Enabled;
    }
  }

  lemma InvQueued(s: Io)
    requires Inv(s)
    ensures Queued(s)
  {
  }

  /** As long as no connection is closed the process lives. */
  lemma {:induction false} LivesWithoutClose(s: Io, actions: seq<Action>)
    requires Inv(s) && NothingClosed(s) && CanRun(s, actions) && forall a :: a in actions ==> !a.Close?
    ensures !Run(s, actions).exited
    decreases |actions|
  {
    if actions != [] {
      StepKeepsInv(s, actions[0]);
      StepClosesNothing(s, actions[0]);
      LivesWithoutClose(Apply(s, actions[0]), actions[1..]);
    }
  }

  // ------------------------------------------------------------------ events

  datatype Branch = CloseBranch | ReadBranch | WriteBranch | ErrorBranch

  /** Which callback `handleevent` calls for a reported mask; the first branch removes the channel before that. */
  function BranchOf(revents: Mask): Branch {
    if EPOLLRDHUP in revents then CloseBranch
    else if EPOLLIN in revents || EPOLLPRI in revents then ReadBranch
    else if EPOLLOUT in revents then WriteBranch
    else ErrorBranch
  }

  /** What epoll may report: bits asked for, and the two that need no asking. */
  predicate MayReport(ch: Channel, revents: Mask) {
    ch.kernel.Some? && revents <= (ch.kernel.value - {EPOLLET}) + {EPOLLERR, EPOLLHUP}
  }

  /** In every reachable state a connection that is not closed is watched for input, edge-triggered, so that the
      client's next request is reported; and for room to write, if there is anything left to write. */
  lemma OpenIsWatched(n: nat, actions: seq<Action>, c: nat)
    requires CanRun(Init(n), actions) && !Run(Init(n), actions).exited
    requires c < |Run(Init(n), actions).conns| && !Run(Init(n), actions).conns[c].disconnected
    ensures var conn := Run(Init(n), actions).conns[c];
      && conn.channel.kernel.Some? && {EPOLLIN, EPOLLET} <= conn.channel.kernel.value
      && MayReport(conn.channel, {EPOLLIN}) && BranchOf({EPOLLIN}) == ReadBranch
      && (conn.out != [] ==> MayReport(conn.channel, {EPOLLOUT}) && BranchOf({EPOLLOUT}) == WriteBranch)
  {
    hide Run, CanRun, Streams, Queued, Noticed;
    InitInv(n);
    RunKeepsInv(Init(n), actions);
  }

  /** In every reachable state: an event comes only on a connection that has not been closed, so that none is removed
      twice; it never takes the branch for EPOLLRDHUP, for which no mask asks; and it takes the write branch exactly if
      the kernel reports room and no input with it. */
  lemma EventsTakeBranches(n: nat, actions: seq<Action>, c: nat, revents: Mask)
    requires CanRun(Init(n), actions) && !Run(Init(n), actions).exited
    requires c < |Run(Init(n), actions).conns| && MayReport(Run(Init(n), actions).conns[c].channel, revents)
    ensures !Run(Init(n), actions).conns[c].disconnected
    ensures BranchOf(revents) != CloseBranch
    ensures BranchOf(revents) == WriteBranch <==> EPOLLOUT in revents && EPOLLIN !in revents
  {
    hide Run, CanRun, Streams, Queued, Noticed;
    InitInv(n);
    RunKeepsInv(Init(n), actions);
  }

  /** A run of one step, and one with a step in front. */
  lemma RunOne(s: Io, a: Action)
    requires Enabled(s, a)
    ensures CanRun(s, [a]) && Run(s, [a]) == Apply(s, a)
  {
    hide Enabled, Apply;
    assert [a][1..] == [];
  }

  lemma RunCons(s: Io, a: Action, rest: seq<Action>)
    requires Enabled(s, a) && CanRun(Apply(s, a), rest)
    ensures CanRun(s, [a] + rest) && Run(s, [a] + rest) == Run(Apply(s, a), rest)
  {
    hide Enabled, Apply;
    assert ([a] + rest)[1..] == rest;
  }

  /** A run may be extended at its end. */
  lemma {:induction false} Extend(s: Io, actions: seq<Action>, a: Action)
    requires CanRun(s, actions) && Enabled(Run(s, actions), a)
    ensures CanRun(s, actions + [a]) && Run(s, actions + [a]) == Apply(Run(s, actions), a)
    decreases |actions|
  {
    hide Enabled, Apply;
    if actions == [] {
      assert [a][1..] == [];
    } else {
      assert (actions + [a])[1..] == actions[1..] + [a];
      Extend(Apply(s, actions[0]), actions[1..], a);
    }
  }

  /** A worker's send, up to the push. */
  lemma PushOne(data: seq<byte>) returns (actions: seq<Action>)
    ensures var x := Send(0, data, true);
      && CanRun(Init(1), actions)
      && Run(Init(1), actions) == Init(1).(queue := [x], submitted := [x], called := [x], unsignalled := 1)
  {
    hide CanRun, Run;
    var x := Send(0, data, true);
    var s1 := Apply(Init(1), Check(0, data));
    assert s1.checked - multiset{x} == multiset{};
    RunOne(s1, Push(x));
    RunCons(Init(1), Check(0, data), [Push(x)]);
    actions := [Check(0, data)] + [Push(x)];
  }

  /** The peer's close before the drain of a worker's send, and the process is gone. */
  lemma SendAndCloseExits(data: seq<byte>)
    ensures exists actions :: CanRun(Init(1), actions) && Enabled(Run(Init(1), actions), Drain)
              && Apply(Run(Init(1), actions), Drain).exited
  {
    hide CanRun, Run, DrainAll;
    var r2 := PushOne(data);
    Extend(Init(1), r2, Wake);
    var r3 := r2 + [Wake];
    Extend(Init(1), r3, Close(0));
    var r4 := r3 + [Close(0)];
    Extend(Init(1), r4, ReadCounter);
    var r5 := r4 + [ReadCounter];
    assert Send(0, data, true) in Run(Init(1), r5).queue;
    DrainExitsExactly(1, r5);
  }

  /** And a send on the IO thread does overtake: the worker's comes first and its bytes second. */
  lemma SendHereOvertakes(a: seq<byte>, b: seq<byte>)
    ensures exists actions :: CanRun(Init(1), actions) && Overtaken(Run(Init(1), actions), a, b)
  {
    hide CanRun, Run, DrainAll;
    var r2 := PushOne(a);
    Extend(Init(1), r2, SendHere(0, b));
    var r3 := r2 + [SendHere(0, b)];
    Extend(Init(1), r3, Wake);
    var r4 := r3 + [Wake];
    Extend(Init(1), r4, ReadCounter);
    var r5 := r4 + [ReadCounter];
    var s := Run(Init(1), r5);
    assert s.conns[0].out == [] + b == b;
    DrainOvertakes(s, a, b);
    Extend(Init(1), r5, Drain);
    assert Overtaken(Run(Init(1), r5 + [Drain]), a, b);
  }

  lemma DrainOvertakes(s: Io, a: seq<byte>, b: seq<byte>)
    requires s.submitted == [Send(0, a, true)] && s.queue == s.submitted && |s.conns| == 1 && !s.exited
    requires Enabled(s, Drain) && s.conns[0].out == b && EnableWriting(s.conns[0].channel).Some?
    ensures Overtaken(Apply(s, Drain), a, b)
  {
    hide DrainAll;
    DrainOne(s, Send(0, a, true));
  }

  /** The worker's send came first and its bytes come second. */
  predicate Overtaken(s: Io, first: seq<byte>, second: seq<byte>) {
    s.submitted == [Send(0, first, true)] && s.queue == [] && |s.conns| == 1 && s.conns[0].out == second + first
  }

  lemma DrainOne(s: Io, x: Send)
    requires s.queue == [x] && x.conn < |s.conns| && !s.exited
    ensures DrainAll(s) == SendInLoop(s.(queue := []), x)
  {
    assert s.queue[1..] == [];
  }
}
