/** What every reachable state of the pool satisfies, whatever the interleaving of callers, workers, reaper and
    `Stop`. */
module ThreadPoolSafety {
  import opened Wrappers
  import opened ThreadPool

  function Total(f: Worker -> nat, ws: seq<Worker>): nat {
    if ws == [] then 0 else Total(f, ws[..|ws| - 1]) + f(ws[|ws| - 1])
  }

  lemma TotalAppend(f: Worker -> nat, ws: seq<Worker>, pc: Worker)
    ensures Total(f, ws + [pc]) == Total(f, ws) + f(pc)
  {
    assert (ws + [pc])[..|ws|] == ws;
  }

  lemma {:induction false} TotalUpdate(f: Worker -> nat, ws: seq<Worker>, w: nat, pc: Worker)
    requires w < |ws|
    ensures Total(f, ws[w := pc]) + f(ws[w]) == Total(f, ws) + f(pc)
    ensures Total(f, ws) >= f(ws[w])
  {
    var n := |ws| - 1;
    if w == n {
      assert ws[w := pc][..n] == ws[..n];
    } else {
      assert ws[w := pc][..n] == ws[..n][w := pc];
      TotalUpdate(f, ws[..n], w, pc);
    }
  }

  lemma {:induction false} TotalSame(f: Worker -> nat, pc: Worker, n: nat)
    ensures Total(f, seq(n, _ => pc)) == n * f(pc)
  {
    if n > 0 {
      assert seq(n, _ => pc)[..n - 1] == seq(n - 1, _ => pc);
      TotalSame(f, pc, n - 1);
    }
  }

  /** Counts towards `currentThreadnum_`: threads that leave on stop are never taken off it. */
  function Alive(pc: Worker): nat {
    if pc.Retired? then 0 else 1
  }

  /** Counts towards `idleThreadnum_`. */
  function Idle(pc: Worker): nat {
    if pc.Running? || pc.Bumping? || pc.Retired? then 0 else 1
  }

  function TaskOf(pc: Worker): multiset<Task> {
    if pc.Running? && pc.task.Some? then multiset{pc.task.value} else multiset{}
  }

  function RunningTasks(ws: seq<Worker>): multiset<Task> {
    if ws == [] then multiset{} else RunningTasks(ws[..|ws| - 1]) + TaskOf(ws[|ws| - 1])
  }

  lemma SumsAgree(a: multiset<Task>, b: multiset<Task>, x: multiset<Task>, y: multiset<Task>, z: multiset<Task>)
    requires a + x == b + y
    ensures (a + z) + x == (b + z) + y
  {
    assert (a + z) + x == (a + x) + z;
    assert (b + z) + y == (b + y) + z;
  }

  lemma {:induction false} RunningUpdate(ws: seq<Worker>, w: nat, pc: Worker)
    requires w < |ws|
    ensures RunningTasks(ws[w := pc]) + TaskOf(ws[w]) == RunningTasks(ws) + TaskOf(pc)
  {
    hide TaskOf;
    var n := |ws| - 1;
    var front := ws[..n];
    if w == n {
      assert ws[w := pc][..n] == front;
      SumsAgree(multiset{}, multiset{}, TaskOf(ws[w]) + TaskOf(pc), TaskOf(pc) + TaskOf(ws[w]), RunningTasks(front));
    } else {
      assert ws[w := pc][..n] == front[w := pc];
      RunningUpdate(front, w, pc);
      SumsAgree(RunningTasks(front[w := pc]), RunningTasks(front), TaskOf(ws[w]), TaskOf(pc), TaskOf(ws[n]));
    }
  }

  lemma RunningAppend(ws: seq<Worker>)
    ensures RunningTasks(ws + [Top]) == RunningTasks(ws)
  {
    assert (ws + [Top])[..|ws|] == ws;
  }

  // ------------------------------------------------------------------ invariants

  predicate InSection(pc: Worker) {
    pc.Evaluated? || pc.Retiring?
  }

  /** Only the owner of `mutex_` is in the critical section, and what it has found out there still holds. */
  predicate Locking(s: Pool) {
    && (s.owner.Some? ==> s.owner.value < |s.workers| && InSection(s.workers[s.owner.value]))
    && (forall w: nat :: w < |s.workers| && InSection(s.workers[w]) ==> s.owner == Some(w))
    && (forall w: nat :: w < |s.workers| ==>
          match s.workers[w]
          case Evaluated(timedOut) => if timedOut then s.queue == [] else s.stop || s.queue != []
          case Retiring => s.queue == [] && s.current > s.minT
          case _ => true)
  }

  /** The two counters, and the bounds of the first. */
  predicate Accounting(s: Pool) {
    && s.current == Total(Alive, s.workers)
    && s.idle == Total(Idle, s.workers)
    && s.minT <= s.current <= s.maxT
  }

  /** No task waits for a thread while the pool could still grow. */
  predicate Scheduled(s: Pool) {
    |s.queue| <= s.idle || s.current == s.maxT
  }

  predicate NoDuplicates(ids: seq<nat>) {
    forall i, j :: 0 <= i < j < |ids| ==> ids[i] != ids[j]
  }

  /** Every thread is joinable or has been joined, once; a queued dead id is a joinable thread that has returned. */
  predicate Threads(s: Pool) {
    && NoDuplicates(s.joined)
    && (forall id :: id in s.joined ==> Terminated(s, id) && id !in s.threads)
    && (forall id :: id in s.threads ==> id < |s.workers|)
    && (forall id: nat :: id < |s.workers| ==> id in s.threads || id in s.joined)
  }

  predicate Graveyard(s: Pool) {
    && (forall id :: id in s.dead ==> At(s, id, Retired))
    && (!s.reaper.Gone? ==> NoDuplicates(s.dead) && forall id :: id in s.dead ==> id in s.threads)
    && (s.reaper.Joining? ==> At(s, s.reaper.id, Retired) && s.reaper.id in s.threads && s.reaper.id !in s.dead)
    && (s.reaper.Committing? || s.reaper.Blocked? ==> s.dead == [])
    && (s.reaper.FinalJoining? ==> At(s, s.reaper.fid, Retired) && s.reaper.fid in s.threads && s.reaper.fid !in s.dead)
  }

  predicate Stopping(s: Pool) {
    && (s.stop <==> !s.stopper.NotCalled?)
    && (s.stopper.JoinAll? || s.stopper.StopDone? ==> s.reaper.Gone?)
    && (s.stopper.StopDone? ==> s.threads == {})
    && (s.reaper.FinalLock? || s.reaper.FinalDraining? || s.reaper.FinalJoining? || s.reaper.Gone? ==> s.stop)
    && (!s.stop ==> forall w: nat :: w < |s.workers| ==> !s.workers[w].Left?)
  }

  /** Tasks leave the queue in the order of submission; each that has left it is running or finished. */
  predicate Tasks(s: Pool) {
    && s.submitted == s.started + s.queue
    && multiset(s.started) == s.finished + RunningTasks(s.workers)
  }

  predicate Inv(s: Pool) {
    && Locking(s) && Accounting(s) && Scheduled(s) && Threads(s) && Graveyard(s) && Stopping(s) && Tasks(s)
    && !s.broken
  }

  // ------------------------------------------------------------------ steps

  lemma InitInv(minThreads: nat, maxThreads: nat)
    ensures Inv(Init(minThreads, maxThreads))
  {
    TotalSame(Alive, Top, minThreads);
    TotalSame(Idle, Top, minThreads);
    NothingRuns(minThreads);
  }

  lemma {:induction false} NothingRuns(n: nat)
    ensures RunningTasks(seq(n, _ => Top)) == multiset{}
  {
    if n > 0 {
      assert seq(n, _ => Top)[..n - 1] == seq(n - 1, _ => Top);
      NothingRuns(n - 1);
    }
  }

  /** The worker an action belongs to. */
  function Actor(a: Action): Option<nat> {
    match a
    case LoopTop(w) => Some(w)
    case Evaluate(w) => Some(w)
    case Decide(w) => Some(w)
    case Retire(w) => Some(w)
    case Finish(w) => Some(w)
    case Bump(w) => Some(w)
    case _ => None
  }

  /** Reaper and `Stop` leave the workers, their queue and their counters alone. */
  predicate SameWork(s: Pool, t: Pool) {
    && t.queue == s.queue && t.owner == s.owner && t.workers == s.workers && (s.stop ==> t.stop)
    && t.minT == s.minT && t.maxT == s.maxT && t.current == s.current && t.idle == s.idle
    && t.submitted == s.submitted && t.started == s.started && t.finished == s.finished
  }

  lemma JoinKeepsWork(s: Pool, id: nat)
    ensures SameWork(s, AfterJoin(s, id))
  {
  }

  lemma ReapKeepsWork(s: Pool)
    ensures SameWork(s, AfterReap(s))
  {
    hide AfterJoin;
    match s.reaper
    case Joining(id) => JoinKeepsWork(s, id);
    case FinalJoining(id) => JoinKeepsWork(s, id);
    case _ =>
  }

  lemma OthersKeepWork(s: Pool, a: Action)
    requires Enabled(s, a) && !a.AddTask? && Actor(a) == None
    ensures SameWork(s, Apply(s, a))
  {
    hide AfterReap, Enabled;
    ReapKeepsWork(s);
  }

  /** A worker changes its own place only, and touches `Stop` not at all and the reaper only to notify it. */
  predicate Moves(s: Pool, t: Pool, w: nat) {
    && w < |s.workers| == |t.workers| && t.workers == s.workers[w := t.workers[w]]
    && t.reaper == (if t.workers[w].Retired? then Notified(s.reaper) else s.reaper)
    && t.stopper == s.stopper && t.stop == s.stop
    && (t.workers[w].Retired? ==> DeadMutexFree(s))
    && t.threads == s.threads && t.joined == s.joined && t.minT == s.minT && t.maxT == s.maxT
    && t.submitted == s.submitted && !Terminated(s, w)
    && t.dead == if t.workers[w].Retired? then s.dead + [w] else s.dead
  }

  lemma DecideMoves(s: Pool, w: nat)
    requires w < |s.workers| && s.workers[w].Evaluated?
    ensures Moves(s, AfterDecide(s, w), w)
  {
  }

  lemma WorkerMoves(s: Pool, a: Action)
    requires Enabled(s, a) && Actor(a).Some?
    ensures Moves(s, Apply(s, a), Actor(a).value)
  {
    hide AfterDecide;
    if a.Decide? {
      DecideMoves(s, a.w);
    }
  }

  lemma KeepsLocking(s: Pool, a: Action)
    requires Locking(s) && Enabled(s, a) && !Apply(s, a).broken
    ensures Locking(Apply(s, a))
  {
    if !a.AddTask? && Actor(a) == None {
      OthersKeepWork(s, a);
    }
  }

  lemma KeepsAccounting(s: Pool, a: Action)
    requires Accounting(s) && Locking(s) && Enabled(s, a) && !Apply(s, a).broken
    ensures Accounting(Apply(s, a))
  {
    hide Total;
    var s' := Apply(s, a);
    if a.AddTask? {
      TotalAppend(Alive, s.workers, Top);
      TotalAppend(Idle, s.workers, Top);
    } else if Actor(a).Some? {
      var w := Actor(a).value;
      WorkerMoves(s, a);
      TotalUpdate(Alive, s.workers, w, s'.workers[w]);
      TotalUpdate(Idle, s.workers, w, s'.workers[w]);
    } else {
      OthersKeepWork(s, a);
    }
  }

  lemma KeepsScheduled(s: Pool, a: Action)
    requires Accounting(s) && Locking(s) && Scheduled(s) && Enabled(s, a) && !Apply(s, a).broken
    ensures Scheduled(Apply(s, a))
  {
    hide Total;
    if Actor(a).Some? {
      TotalUpdate(Idle, s.workers, Actor(a).value, Top);
    } else if !a.AddTask? {
      OthersKeepWork(s, a);
    }
  }

  /** `front()` never meets an empty queue, even if `stop_` flips after the wait; the reaper's asserts hold. */
  lemma NeverBreaks(s: Pool, a: Action)
    requires Locking(s) && Graveyard(s) && !s.broken && Enabled(s, a)
    ensures !Apply(s, a).broken
  {
  }

  lemma MovesKeepThreads(s: Pool, t: Pool, w: nat)
    requires Threads(s) && Graveyard(s) && Moves(s, t, w)
    ensures Threads(t) && Graveyard(t)
  {
    assert w in s.threads;
    assert forall id: nat :: Terminated(s, id) ==> id != w && At(t, id, s.workers[id]);
    assert w !in s.dead;
    forall id | id in t.dead ensures At(t, id, Retired) {
      if id != w {
        assert id in s.dead;
      }
    }
  }

  lemma PopKeepsThreads(s: Pool)
    requires Graveyard(s) && (s.reaper.Draining? || s.reaper.FinalDraining?)
    ensures Graveyard(AfterReap(s))
  {
    if s.dead != [] {
      assert s.dead[0] in s.dead;
      assert forall id :: id in s.dead[1..] ==> id in s.dead;
      forall k | 0 <= k < |s.dead[1..]| ensures s.dead[1..][k] != s.dead[0] {
        assert s.dead[1..][k] == s.dead[k + 1];
      }
    }
  }

  lemma ReapKeepsThreads(s: Pool)
    requires Threads(s) && Graveyard(s) && CanReap(s) && !AfterReap(s).broken
    ensures Threads(AfterReap(s)) && Graveyard(AfterReap(s))
  {
    if s.reaper.Draining? || s.reaper.FinalDraining? {
      PopKeepsThreads(s);
    }
  }

  lemma KeepsThreads(s: Pool, a: Action)
    requires Threads(s) && Graveyard(s) && Stopping(s) && Enabled(s, a) && !Apply(s, a).broken
    ensures Threads(Apply(s, a)) && Graveyard(Apply(s, a))
  {
    if Actor(a).Some? {
      WorkerMoves(s, a);
      MovesKeepThreads(s, Apply(s, a), Actor(a).value);
    } else if a.Reap? {
      ReapKeepsThreads(s);
    }
  }

  lemma LeavesOnStop(s: Pool, a: Action)
    requires Enabled(s, a) && Actor(a).Some?
    ensures var w, t := Actor(a).value, Apply(s, a); Moves(s, t, w) && (t.workers[w].Left? ==> s.stop)
  {
    hide Moves;
    WorkerMoves(s, a);
    assert s.workers[Actor(a).value] != Left;
  }

  lemma ReapKeepsStopping(s: Pool)
    requires Stopping(s) && CanReap(s)
    ensures Stopping(AfterReap(s))
  {
  }

  lemma StopKeepsStopping(s: Pool, id: nat)
    requires Stopping(s) && Enabled(s, StopStep(id))
    ensures Stopping(AfterStop(s, id))
  {
  }

  lemma OthersKeepStopping(s: Pool, a: Action)
    requires Stopping(s) && Enabled(s, a) && Actor(a) == None
    ensures Stopping(Apply(s, a))
  {
    hide AfterReap, AfterStop;
    if a.Reap? {
      ReapKeepsStopping(s);
    } else if a.StopStep? {
      StopKeepsStopping(s, a.joining);
    }
  }

  lemma KeepsStopping(s: Pool, a: Action)
    requires Stopping(s) && Enabled(s, a) && !Apply(s, a).broken
    ensures Stopping(Apply(s, a))
  {
    hide Apply, Enabled;
    if Actor(a).Some? {
      LeavesOnStop(s, a);
    } else {
      OthersKeepStopping(s, a);
    }
  }

  /** A worker takes a task from the front of the queue, or finishes the one it has, or moves no task. */
  predicate Hands(s: Pool, t: Pool, w: nat)
    requires w < |s.workers| == |t.workers|
  {
    || (t.queue == s.queue && t.started == s.started
        && t.finished + TaskOf(t.workers[w]) == s.finished + TaskOf(s.workers[w]))
    || (s.queue != [] && t.queue == s.queue[1..] && t.started == s.started + [s.queue[0]] && t.finished == s.finished
        && TaskOf(s.workers[w]) == multiset{} && TaskOf(t.workers[w]) == multiset{s.queue[0]})
  }

  lemma PlainHands(s: Pool, a: Action)
    requires Enabled(s, a) && (a.LoopTop? || a.Evaluate? || a.Retire? || a.Bump?)
    ensures Moves(s, Apply(s, a), a.w) && Hands(s, Apply(s, a), a.w)
  {
    hide Moves;
    WorkerMoves(s, a);
    assert TaskOf(Apply(s, a).workers[a.w]) == TaskOf(s.workers[a.w]) == multiset{};
  }

  lemma FinishHands(s: Pool, w: nat)
    requires Enabled(s, Finish(w))
    ensures Moves(s, Apply(s, Finish(w)), w) && Hands(s, Apply(s, Finish(w)), w)
  {
    hide Moves;
    WorkerMoves(s, Finish(w));
  }

  lemma WorkerHands(s: Pool, a: Action)
    requires Enabled(s, a) && Actor(a).Some? && !Apply(s, a).broken
    ensures Moves(s, Apply(s, a), Actor(a).value) && Hands(s, Apply(s, a), Actor(a).value)
  {
    hide AfterDecide, Moves, Hands;
    match a
    case Decide(w) =>
      WorkerMoves(s, a);
      DecideHands(s, w);
    case Finish(w) => FinishHands(s, w);
    case _ => PlainHands(s, a);
  }

  lemma DecideHands(s: Pool, w: nat)
    requires w < |s.workers| && s.workers[w].Evaluated? && !AfterDecide(s, w).broken
    ensures |AfterDecide(s, w).workers| == |s.workers| && Hands(s, AfterDecide(s, w), w)
  {
  }

  lemma TasksBalance(s: Pool, t: Pool, w: nat)
    requires Tasks(s) && Moves(s, t, w) && Hands(s, t, w)
    requires RunningTasks(t.workers) + TaskOf(s.workers[w]) == RunningTasks(s.workers) + TaskOf(t.workers[w])
    ensures Tasks(t)
  {
    hide RunningTasks, TaskOf;
    if t.started == s.started {
      var f, f', r, r', x, x' := s.finished, t.finished, RunningTasks(s.workers), RunningTasks(t.workers),
                                 TaskOf(s.workers[w]), TaskOf(t.workers[w]);
      assert f' + r' + (x + x') == (f' + x') + (r' + x) == (f + x) + (r + x') == f + r + (x + x');
      assert f' + r' == f + r by {
        Cancel(f' + r', f + r, x + x');
      }
    } else {
      assert s.started + s.queue == (s.started + [s.queue[0]]) + s.queue[1..];
      assert multiset(t.started) == multiset(s.started) + multiset{s.queue[0]};
      assert RunningTasks(t.workers) == RunningTasks(s.workers) + multiset{s.queue[0]};
    }
  }

  lemma Cancel(a: multiset<Task>, b: multiset<Task>, x: multiset<Task>)
    requires a + x == b + x
    ensures a == b
  {
    assert a == (a + x) - x;
    assert b == (b + x) - x;
  }

  lemma KeepsTasks(s: Pool, a: Action)
    requires Tasks(s) && Enabled(s, a) && !Apply(s, a).broken
    ensures Tasks(Apply(s, a))
  {
    hide RunningTasks;
    var s' := Apply(s, a);
    if a.AddTask? {
      RunningAppend(s.workers);
    } else if Actor(a).Some? {
      var w := Actor(a).value;
      WorkerHands(s, a);
      RunningUpdate(s.workers, w, s'.workers[w]);
      TasksBalance(s, s', w);
    } else {
      OthersKeepWork(s, a);
    }
  }

  lemma StepKeepsInv(s: Pool, a: Action)
    requires Inv(s) && Enabled(s, a)
    ensures Inv(Apply(s, a))
  {
    hide Locking, Accounting, Scheduled, Threads, Graveyard, Stopping, Tasks, Enabled, Apply;
    NeverBreaks(s, a);
    KeepsLocking(s, a);
    KeepsAccounting(s, a);
    KeepsScheduled(s, a);
    KeepsThreads(s, a);
    KeepsStopping(s, a);
    KeepsTasks(s, a);
  }

  lemma SoundStep(s: Pool, a: Action)
    requires Inv(s) && Enabled(s, a)
    ensures !Apply(s, a).broken && Inv(Apply(s, a))
  {
    hide Enabled, Apply;
    NeverBreaks(s, a);
    StepKeepsInv(s, a);
  }

  lemma {:induction false} RunKeepsInv(s: Pool, actions: seq<Action>)
    requires Inv(s) && CanRun(s, actions)
    ensures Inv(Run(s, actions))
    decreases |actions|
  {
    hide Inv, Enabled, Apply;
    if actions != [] {
      StepKeepsInv(s, actions[0]);
      RunKeepsInv(Apply(s, actions[0]), actions[1..]);
    }
  }
}
