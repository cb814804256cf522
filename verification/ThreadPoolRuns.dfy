/** The pool over whole runs: what a caller may rely on before `Stop`, and how `Stop` comes to an end. */
module ThreadPoolRuns {
  import opened Wrappers
  import opened ThreadPool
  import opened ThreadPoolSafety

  function Live(pc: Worker): nat {
    if pc.Left? || pc.Retired? then 0 else 1
  }

  function LiveIdle(pc: Worker): nat {
    if Live(pc) == 1 then Idle(pc) else 0
  }

  lemma {:induction false} TotalsAgree(f: Worker -> nat, g: Worker -> nat, ws: seq<Worker>)
    requires forall w :: 0 <= w < |ws| ==> f(ws[w]) == g(ws[w])
    ensures Total(f, ws) == Total(g, ws)
  {
    if ws != [] {
      TotalsAgree(f, g, ws[..|ws| - 1]);
    }
  }

  /** Before `Stop`, for every pool and every interleaving: the counters are the number of live workers and of those
      not busy, within the bounds and without underflow; no task waits while the pool could grow; tasks are taken
      in order of submission, once; and nothing is broken. */
  lemma PoolBeforeStop(minThreads: nat, maxThreads: nat, actions: seq<Action>)
    requires CanRun(Init(minThreads, maxThreads), actions)
    requires !Run(Init(minThreads, maxThreads), actions).stop
    ensures var s := Run(Init(minThreads, maxThreads), actions);
      && s.current == Total(Live, s.workers) && s.idle == Total(LiveIdle, s.workers)
      && s.minT <= s.current <= s.maxT
      && (|s.queue| <= s.idle || s.current == s.maxT)
      && s.submitted == s.started + s.queue
      && multiset(s.started) == s.finished + RunningTasks(s.workers)
      && !s.broken
  {
    hide CanRun, Run, Init, Locking, Threads, Graveyard;
    InitInv(minThreads, maxThreads);
    RunKeepsInv(Init(minThreads, maxThreads), actions);
    var s := Run(Init(minThreads, maxThreads), actions);
    TotalsAgree(Alive, Live, s.workers);
    TotalsAgree(Idle, LiveIdle, s.workers);
  }

  // ------------------------------------------------------------------ growth

  /** A new pool: as many workers as the minimum says, all idle, and a maximum of no less. */
  lemma NewPool(minThreads: nat, maxThreads: nat)
    ensures var s := Init(minThreads, maxThreads);
      && |s.workers| == s.minT == minThreads && s.maxT == (if minThreads < maxThreads then maxThreads else minThreads)
      && (forall w: nat :: w < |s.workers| ==> s.workers[w].Top?) && s.queue == [] && !s.stop
      && Total(Alive, s.workers) == minThreads && Total(Busy, s.workers) == 0
  {
    hide Total;
    TotalSame(Alive, Top, minThreads);
    TotalSame(Busy, Top, minThreads);
  }

  /** What the surroundings may do is not restricted: any task at any time the mutex is free, until `Stop` walks the
      threads; `Stop` at any time; a running task may end and a wait may come back whenever the mutex is free. */
  lemma SurroundingsAreFree(s: Pool, task: Task, w: nat)
    ensures s.owner == None && !s.stopper.JoinAll? && !s.stopper.StopDone? ==> Enabled(s, AddTask(task))
    ensures s.stopper.NotCalled? ==> Enabled(s, CallStop)
    ensures w < |s.workers| && s.workers[w].Running? ==> Enabled(s, Finish(w))
    ensures w < |s.workers| && s.workers[w].Waiting? && s.owner == None ==> Enabled(s, Evaluate(w))
  {
  }

  /** Between the decrement and the increment of `idleThreadnum_`. */
  function Busy(pc: Worker): nat {
    if pc.Running? || pc.Bumping? then 1 else 0
  }

  lemma {:induction false} IdleOrBusy(ws: seq<Worker>)
    ensures Total(Alive, ws) == Total(Idle, ws) + Total(Busy, ws)
  {
    if ws != [] {
      IdleOrBusy(ws[..|ws| - 1]);
    }
  }

  /** The workers that have not retired are fewer than allowed, and the busy ones and the queued tasks leave none
      over. */
  predicate NeedsThread(s: Pool) {
    Total(Alive, s.workers) < s.maxT && Total(Busy, s.workers) + |s.queue| >= Total(Alive, s.workers)
  }

  /** `addtask` creates a thread exactly if one is needed, by count of the workers; the task goes to the end of the
      queue in any case. */
  lemma GrowsExactly(s: Pool, task: Task)
    requires Inv(s) && Enabled(s, AddTask(task))
    ensures var t := Apply(s, AddTask(task));
      && t.workers == (if NeedsThread(s) then s.workers + [Top] else s.workers)
      && t.threads == (if NeedsThread(s) then s.threads + {|s.workers|} else s.threads)
      && t.queue == s.queue + [task]
  {
    hide Total, Locking, Threads, Graveyard, Tasks;
    IdleOrBusy(s.workers);
  }

  /** What a worker does whose wait is over: with `stop_` set and no task it leaves; with a task it takes the first;
      after its time limit it starts to retire exactly if more workers than the minimum have not retired, and else
      goes round without a task. */
  lemma DecidesExactly(s: Pool, w: nat)
    requires Inv(s) && Enabled(s, Decide(w))
    ensures Apply(s, Decide(w)).workers[w] ==
      if s.queue != [] then Running(Some(s.queue[0]))
      else if s.stop then Left
      else if Total(Alive, s.workers) > s.minT then Retiring
      else Running(None)
    ensures Apply(s, Decide(w)).queue == if s.queue != [] then s.queue[1..] else []
  {
    hide Total, Threads, Graveyard, Tasks;
  }

  /** Nothing else creates one. */
  lemma OnlyTasksGrow(s: Pool, a: Action)
    requires Inv(s) && Enabled(s, a) && !a.AddTask?
    ensures |Apply(s, a).workers| == |s.workers|
  {
    if Actor(a).Some? {
      WorkerMoves(s, a);
    } else {
      OthersKeepWork(s, a);
    }
  }

  /** No `addtask` of the run finds that a thread is needed. */
  predicate NeverNeeds(s: Pool, actions: seq<Action>)
    requires CanRun(s, actions)
    decreases |actions|
  {
    actions == [] || (!(actions[0].AddTask? && NeedsThread(s)) && NeverNeeds(Apply(s, actions[0]), actions[1..]))
  }

  /** Over a run threads are created exactly if some `addtask` finds that one is needed: with enough idle workers for
      the queued tasks and the new one each time, the pool stays as it is. */
  lemma {:induction false} GrowsOnlyOnNeed(s: Pool, actions: seq<Action>)
    requires Inv(s) && CanRun(s, actions)
    ensures |Run(s, actions).workers| >= |s.workers|
    ensures |Run(s, actions).workers| == |s.workers| <==> NeverNeeds(s, actions)
    decreases |actions|
  {
    hide Inv, Enabled, Apply, NeedsThread;
    if actions != [] {
      var a := actions[0];
      StepKeepsInv(s, a);
      if a.AddTask? {
        GrowsExactly(s, a.task);
      } else {
        OnlyTasksGrow(s, a);
      }
      GrowsOnlyOnNeed(Apply(s, a), actions[1..]);
    }
  }

  // ------------------------------------------------------------------ tasks do start

  /** Steps of one worker only. */
  predicate StepsOf(actions: seq<Action>, w: nat) {
    forall a :: a in actions ==> Actor(a) == Some(w)
  }

  /** How far a worker is from taking a task. */
  function Distance(pc: Worker): nat {
    match pc
    case Evaluated(_) => 1
    case Waiting => 2
    case Top => 3
    case Bumping => 4
    case Running(_) => 5
    case _ => 6
  }

  lemma {:induction false} SomeoneIsAlive(ws: seq<Worker>) returns (w: nat)
    requires Total(Alive, ws) > 0
    ensures w < |ws| && !ws[w].Retired?
  {
    if ws[|ws| - 1].Retired? {
      w := SomeoneIsAlive(ws[..|ws| - 1]);
    } else {
      w := |ws| - 1;
    }
  }

  /** The one step that worker `w` takes next, and where it leaves it and the queue. */
  lemma OneStepNearer(s: Pool, w: nat) returns (a: Action)
    requires Inv(s) && !s.stop && s.queue != [] && w < |s.workers| && !s.workers[w].Retired?
    requires s.owner == None || s.owner == Some(w)
    ensures Enabled(s, a) && Actor(a) == Some(w)
    ensures var t := Apply(s, a);
      && !t.stop && (t.owner == None || t.owner == Some(w))
      && if s.workers[w].Evaluated? then t.started == s.started + [s.queue[0]]
         else t.queue == s.queue && t.started == s.started && w < |t.workers| && !t.workers[w].Retired?
              && Distance(t.workers[w]) < Distance(s.workers[w])
  {
    hide Total, RunningTasks, Tasks, Accounting, Scheduled, Threads, Graveyard;
    a := match s.workers[w]
      case Top => LoopTop(w)
      case Waiting => Evaluate(w)
      case Running(_) => Finish(w)
      case Bumping => Bump(w)
      case _ => Decide(w);
  }

  lemma {:induction false} WorkerTakesHead(s: Pool, w: nat) returns (actions: seq<Action>)
    requires Inv(s) && !s.stop && s.queue != [] && w < |s.workers| && !s.workers[w].Retired?
    requires s.owner == None || s.owner == Some(w)
    ensures CanRun(s, actions) && StepsOf(actions, w)
    ensures Run(s, actions).started == s.started + [s.queue[0]]
    decreases Distance(s.workers[w])
  {
    hide Inv, Enabled, Apply, CanRun, Run;
    var a := OneStepNearer(s, w);
    StepKeepsInv(s, a);
    if s.workers[w].Evaluated? {
      RunNothing(Apply(s, a));
      RunCons(s, a, []);
      actions := [a] + [];
    } else {
      var rest := WorkerTakesHead(Apply(s, a), w);
      RunCons(s, a, rest);
      actions := [a] + rest;
    }
  }

  /** In a reachable state some worker can start the task at the head of the queue by its own steps alone. */
  ghost predicate HeadCanStart(s: Pool) {
    s.queue != [] && exists w: nat, actions: seq<Action> ::
      StepsOf(actions, w) && CanRun(s, actions) && Run(s, actions).started == s.started + [s.queue[0]]
  }

  /** Before `Stop` a queued task can always be started, as long as tasks come to an end, exactly if the pool was given
      any thread to grow to; a pool of none never starts any. */
  lemma TasksCanStartExactly(s: Pool)
    requires Inv(s) && !s.stop && s.queue != []
    ensures HeadCanStart(s) <==> s.maxT > 0
  {
    hide CanRun, Run;
    if s.maxT > 0 {
      var w := Starter(s);
      var actions := WorkerTakesHead(s, w);
    } else if HeadCanStart(s) {
      var w: nat, actions: seq<Action> :|
        StepsOf(actions, w) && CanRun(s, actions) && Run(s, actions).started == s.started + [s.queue[0]];
      NobodyStarts(s, actions, w);
    }
  }

  lemma Starter(s: Pool) returns (w: nat)
    requires Inv(s) && !s.stop && s.queue != [] && s.maxT > 0
    ensures w < |s.workers| && !s.workers[w].Retired? && (s.owner == None || s.owner == Some(w))
  {
    hide RunningTasks, Tasks, Threads, Graveyard;
    if s.owner.Some? {
      w := s.owner.value;
    } else {
      IdleAreAlive(s.workers);
      w := SomeoneIsAlive(s.workers);
    }
  }

  lemma {:induction false} IdleAreAlive(ws: seq<Worker>)
    ensures Total(Idle, ws) <= Total(Alive, ws)
  {
    if ws != [] {
      IdleAreAlive(ws[..|ws| - 1]);
    }
  }

  /** With nobody alive no worker takes a step. */
  lemma NobodyStarts(s: Pool, actions: seq<Action>, w: nat)
    requires Inv(s) && s.maxT == 0 && CanRun(s, actions) && StepsOf(actions, w)
    ensures Run(s, actions).started == s.started
  {
    hide Total, RunningTasks, Tasks, Scheduled, Threads, Graveyard;
    if actions != [] {
      assert actions[0] in actions && Enabled(s, actions[0]);
      assert w < |s.workers|;
      TotalUpdate(Alive, s.workers, w, s.workers[w]);
    }
  }

  // ------------------------------------------------------------------ Stop

  /** How many more steps a worker can take once `stop_` is set; a retirement brings the reaper two more. */
  function Rank(pc: Worker): nat {
    match pc
    case Waiting => 6
    case Evaluated(_) => 5
    case Retiring => 4
    case Running(_) => 3
    case Bumping => 2
    case Top => 1
    case _ => 0
  }

  function ReaperRank(r: Reaper): nat {
    match r
    case Committing => 8
    case Blocked => 7
    case AtWait => 6
    case Joining(_) => 6
    case Draining => 5
    case Head => 4
    case FinalLock => 3
    case FinalJoining(_) => 2
    case FinalDraining => 1
    case Gone => 0
  }

  function StopperRank(p: Stopper): nat {
    match p
    case NotCalled => 4
    case Notifying => 3
    case WaitReaper => 2
    case JoinAll => 1
    case StopDone => 0
  }

  function Measure(s: Pool): nat {
    Total(Rank, s.workers) + YardMeasure(s)
  }

  /** What the reaper and `Stop` have left to do. */
  function YardMeasure(s: Pool): nat {
    2 * |s.dead| + ReaperRank(s.reaper) + StopperRank(s.stopper) + |s.threads|
  }

  lemma JoinFalls(s: Pool, id: nat)
    ensures !AfterJoin(s, id).broken ==> YardMeasure(AfterJoin(s, id)) < YardMeasure(s)
    ensures AfterJoin(s, id).reaper == s.reaper && AfterJoin(s, id).stopper == s.stopper
  {
    if id in s.threads {
      assert s.threads == (s.threads - {id}) + {id};
    }
  }

  lemma ReapFalls(s: Pool)
    requires s.stop && CanReap(s) && !AfterReap(s).broken
    ensures YardMeasure(AfterReap(s)) < YardMeasure(s)
  {
    hide AfterJoin;
    match s.reaper
    case Joining(id) => JoinFalls(s, id);
    case FinalJoining(id) => JoinFalls(s, id);
    case _ =>
  }

  lemma StopFalls(s: Pool, id: nat)
    requires Enabled(s, StopStep(id)) && !AfterStop(s, id).broken
    ensures YardMeasure(AfterStop(s, id)) < YardMeasure(s)
  {
    hide AfterJoin;
    JoinFalls(s, id);
  }

  /** After `Stop` has been called, every step but a further `addtask` brings its return closer. */
  lemma StepsRunOut(s: Pool, a: Action)
    requires Inv(s) && s.stop && Enabled(s, a) && !a.AddTask?
    ensures Measure(Apply(s, a)) < Measure(s)
  {
    hide Total, Locking, Threads, Graveyard, Tasks, Accounting, Scheduled, AfterReap, AfterStop, AfterDecide;
    var t := Apply(s, a);
    NeverBreaks(s, a);
    if Actor(a).Some? {
      var w := Actor(a).value;
      WorkerMoves(s, a);
      TotalUpdate(Rank, s.workers, w, t.workers[w]);
      RankFalls(s, a);
    } else {
      OthersKeepWork(s, a);
      if a.Reap? {
        ReapFalls(s);
      } else if a.StopStep? {
        StopFalls(s, a.joining);
      }
    }
  }

  lemma RankFalls(s: Pool, a: Action)
    requires Enabled(s, a) && Actor(a).Some? && s.stop && !Apply(s, a).broken
    ensures var w, t := Actor(a).value, Apply(s, a);
      && w < |s.workers| && w < |t.workers|
      && Rank(t.workers[w]) + 2 * |t.dead| + ReaperRank(t.reaper)
         < Rank(s.workers[w]) + 2 * |s.dead| + ReaperRank(s.reaper)
  {
  }

  predicate NoNewTasks(actions: seq<Action>) {
    forall a :: a in actions ==> !a.AddTask?
  }

  /** So `Stop` cannot be kept busy for ever. */
  lemma {:induction false} StopIsBounded(s: Pool, actions: seq<Action>)
    requires Inv(s) && s.stop && CanRun(s, actions) && NoNewTasks(actions)
    ensures |actions| <= Measure(s)
    decreases |actions|
  {
    hide Inv, Measure, Enabled, Apply;
    if actions != [] {
      StepsRunOut(s, actions[0]);
      StepKeepsInv(s, actions[0]);
      assert Apply(s, actions[0]).stop by {
        StopStays(s, actions[0]);
      }
      StopIsBounded(Apply(s, actions[0]), actions[1..]);
    }
  }

  lemma StopStays(s: Pool, a: Action)
    requires s.stop && Enabled(s, a)
    ensures Apply(s, a).stop
  {
    if Actor(a).Some? {
      WorkerMoves(s, a);
    } else if !a.AddTask? {
      OthersKeepWork(s, a);
    }
  }

  // ------------------------------------------------------------------ whether Stop returns

  /** What the pool does of itself: no new task, and no wake-up that nobody asked for. */
  predicate Own(a: Action) {
    !a.AddTask? && !a.WakeUnasked?
  }

  predicate AllOwn(actions: seq<Action>) {
    forall a :: a in actions ==> Own(a)
  }

  /** No wake-up that nobody asked for; new tasks may come. */
  predicate AllAsked(actions: seq<Action>) {
    forall a :: a in actions ==> !a.WakeUnasked?
  }

  ghost predicate Exhausted(s: Pool) {
    forall a: Action :: Own(a) ==> !Enabled(s, a)
  }

  /** `Stop` joins a reaper that waits for a notification which nobody is left to give. */
  predicate Hung(s: Pool) {
    s.stopper.WaitReaper? && s.reaper.Blocked? && forall w: nat :: w < |s.workers| ==> Terminated(s, w)
  }

  predicate SomeoneRetires(s: Pool) {
    exists w: nat :: w < |s.workers| && s.workers[w].Retiring?
  }

  /** The notification of `Stop` comes, or has come, between the reaper's test of its predicate and its blocking, and no
      worker is about to notify it by retiring. */
  predicate Doomed(s: Pool) {
    && (s.reaper.Committing? || (s.reaper.Blocked? && !s.stopper.Notifying?))
    && !SomeoneRetires(s)
  }

  /** A worker that has not returned can take a step, or the owner of the mutex it waits for can, or the reaper that
      the owner waits for. */
  lemma WorkerProgress(s: Pool, w: nat)
    requires Inv(s) && w < |s.workers| && !Terminated(s, w)
    ensures exists a: Action :: Own(a) && !a.CallStop? && Enabled(s, a)
  {
    hide Total, RunningTasks, Tasks, Accounting, Scheduled, Threads;
    match s.workers[w]
    case Top => assert Enabled(s, LoopTop(w));
    case Running(_) => assert Enabled(s, Finish(w));
    case Bumping => assert Enabled(s, Bump(w));
    case Waiting =>
      if s.owner == None {
        assert Enabled(s, Evaluate(w));
      } else {
        OwnerProgress(s);
      }
    case _ => OwnerProgress(s);
  }

  lemma OwnerProgress(s: Pool)
    requires Inv(s) && s.owner.Some?
    ensures exists a: Action :: Own(a) && !a.CallStop? && Enabled(s, a)
  {
    hide Total, RunningTasks, Tasks, Accounting, Scheduled, Threads;
    var o := s.owner.value;
    if s.workers[o].Evaluated? {
      assert Enabled(s, Decide(o));
    } else if DeadMutexFree(s) {
      assert Enabled(s, Retire(o));
    } else {
      assert Enabled(s, Reap);
    }
  }

  /** On the way out the pool comes to rest in two ways only: `Stop` has returned, or it hangs. */
  lemma StopProgress(s: Pool)
    requires Inv(s) && s.stop
    ensures Exhausted(s) <==> s.stopper.StopDone? || Hung(s)
  {
    hide Total, RunningTasks, Tasks, Accounting, Scheduled;
    if s.stopper.StopDone? || Hung(s) {
      RestIsRest(s);
    } else if w: nat :| w < |s.workers| && !Terminated(s, w) {
      WorkerProgress(s, w);
    } else if s.stopper.Notifying? {
      assert Enabled(s, StopStep(0));
    } else if !s.reaper.Gone? {
      assert Enabled(s, Reap);
    } else {
      var id: nat :| s.threads == {} || id in s.threads;
      assert Enabled(s, StopStep(id));
    }
  }

  lemma RestIsRest(s: Pool)
    requires Inv(s) && s.stop && (s.stopper.StopDone? || Hung(s))
    ensures Exhausted(s)
  {
    hide Total, RunningTasks, Tasks, Accounting, Scheduled;
    forall w: nat | w < |s.workers| ensures Terminated(s, w) {
      assert s.stopper.StopDone? ==> w in s.joined;
    }
    forall a: Action | Own(a) ensures !Enabled(s, a) {
      if Actor(a).Some? {
        var w := Actor(a).value;
        assert w < |s.workers| ==> Terminated(s, w);
      }
    }
  }

  /** Nobody starts to retire once `stop_` is set. */
  lemma NoNewRetirement(s: Pool, a: Action)
    requires Inv(s) && s.stop && Enabled(s, a) && !a.WakeUnasked?
    ensures SomeoneRetires(Apply(s, a)) ==> SomeoneRetires(s) && !a.Retire?
  {
    hide Total, RunningTasks, Tasks, Accounting, Scheduled, Threads, Graveyard;
    var t := Apply(s, a);
    if w: nat :| w < |t.workers| && t.workers[w].Retiring? {
      if Actor(a) == None {
        OthersKeepWork(s, a);
      }
      assert s.workers[w].Retiring?;
    }
  }

  /** A retirement under way stays until it notifies. */
  lemma RetirementStays(s: Pool, a: Action)
    requires Inv(s) && s.stop && Enabled(s, a) && !a.WakeUnasked? && !a.Retire? && SomeoneRetires(s)
    ensures SomeoneRetires(Apply(s, a))
  {
    hide Total, RunningTasks, Tasks, Accounting, Scheduled, Threads, Graveyard;
    var w: nat :| w < |s.workers| && s.workers[w].Retiring?;
    if Actor(a) == None {
      OthersKeepWork(s, a);
    }
    assert Apply(s, a).workers[w].Retiring?;
  }

  /** What a step after `stop_` is set does to the reaper. */
  lemma ReaperMoves(s: Pool, a: Action)
    requires s.stop && Stopping(s) && Enabled(s, a) && !a.WakeUnasked?
    ensures var t := Apply(s, a);
      && (t.reaper.Committing? <==> s.reaper.Committing? && !a.Reap?)
      && (t.reaper.Blocked? <==> (s.reaper.Blocked? && !a.Retire? && !(a.StopStep? && s.stopper.Notifying?))
                                 || (s.reaper.Committing? && a.Reap?))
      && (t.stopper.Notifying? <==> s.stopper.Notifying? && !a.StopStep?)
      && (a.Retire? ==> !s.reaper.Committing? && SomeoneRetires(s))
  {
    if a.Retire? {
      assert s.workers[a.w].Retiring?;
    }
  }

  /** Doom cannot be met on the way, and once `Stop` has notified it cannot be escaped. */
  lemma DoomIsDecided(s: Pool, a: Action)
    requires Inv(s) && s.stop && Enabled(s, a) && !a.WakeUnasked?
    ensures Doomed(Apply(s, a)) ==> Doomed(s)
    ensures Doomed(s) && !s.stopper.Notifying? ==> Doomed(Apply(s, a))
    ensures Doomed(s) && a.StopStep? ==> Doomed(Apply(s, a))
  {
    hide Enabled, Apply, Locking, Accounting, Scheduled, Threads, Graveyard, Tasks, SomeoneRetires;
    ReaperMoves(s, a);
    NoNewRetirement(s, a);
    if SomeoneRetires(s) && !a.Retire? {
      RetirementStays(s, a);
    }
  }

  lemma NotifiedStays(s: Pool, a: Action)
    requires Inv(s) && s.stop && Enabled(s, a) && !a.WakeUnasked? && !s.stopper.Notifying?
    ensures !Apply(s, a).stopper.Notifying?
  {
    hide Locking, Accounting, Scheduled, Threads, Graveyard, Tasks;
    ReaperMoves(s, a);
  }

  lemma {:induction false} DoomIsDecidedInRun(s: Pool, actions: seq<Action>)
    requires Inv(s) && s.stop && CanRun(s, actions) && AllAsked(actions)
    ensures Run(s, actions).stop
    ensures Doomed(Run(s, actions)) ==> Doomed(s)
    ensures Doomed(s) && !s.stopper.Notifying? ==> Doomed(Run(s, actions))
    decreases |actions|
  {
    hide Inv, Enabled, Apply, Doomed;
    if actions != [] {
      var a := actions[0];
      DoomIsDecided(s, a);
      StepKeepsInv(s, a);
      StopStays(s, a);
      if !s.stopper.Notifying? {
        NotifiedStays(s, a);
      }
      DoomIsDecidedInRun(Apply(s, a), actions[1..]);
    }
  }

  /** Once `Stop` has notified, it is settled whether it returns: in every run to rest exactly if not doomed, in none
      if doomed. */
  lemma StopReturnsExactly(s: Pool, actions: seq<Action>)
    requires Inv(s) && s.stop && !s.stopper.Notifying?
    requires CanRun(s, actions) && AllAsked(actions) && Exhausted(Run(s, actions))
    ensures Run(s, actions).stopper.StopDone? <==> !Doomed(s)
  {
    hide CanRun, Run, Inv, Exhausted;
    RunKeepsInv(s, actions);
    DoomIsDecidedInRun(s, actions);
    StopProgress(Run(s, actions));
    HungIsDoomed(Run(s, actions));
  }

  lemma HungIsDoomed(s: Pool)
    requires Inv(s)
    ensures Hung(s) ==> Doomed(s)
    ensures s.stopper.StopDone? ==> !Doomed(s)
  {
    hide Locking, Accounting, Scheduled, Threads, Tasks;
    forall w: nat | w < |s.workers| ensures Hung(s) ==> !s.workers[w].Retiring? {
      assert Hung(s) ==> Terminated(s, w);
    }
  }

  /** Every run can be carried on to rest. */
  lemma {:induction false} RunToRest(s: Pool) returns (actions: seq<Action>)
    requires Inv(s) && s.stop
    ensures CanRun(s, actions) && AllOwn(actions) && Exhausted(Run(s, actions))
    decreases Measure(s)
  {
    hide Inv, Measure, Enabled, Apply, Exhausted;
    if Exhausted(s) {
      actions := [];
      RunNothing(s);
    } else {
      var a := NextStep(s);
      StepsRunOut(s, a);
      StepKeepsInv(s, a);
      StopStays(s, a);
      var rest := RunToRest(Apply(s, a));
      RunCons(s, a, rest);
      actions := [a] + rest;
    }
  }

  lemma NextStep(s: Pool) returns (a: Action)
    requires !Exhausted(s)
    ensures Own(a) && Enabled(s, a)
  {
    hide Enabled;
    a :| Own(a) && Enabled(s, a);
  }

  ghost predicate StopMayHang(s: Pool) {
    exists actions: seq<Action> :: CanRun(s, actions) && AllAsked(actions) && Hung(Run(s, actions))
  }

  /** At the call, from the state of the pool then: `Stop` may wait for ever exactly if the reaper has just found
      nothing to do and has not blocked yet, and no worker is about to retire. */
  lemma StopMayHangExactly(s: Pool)
    requires Inv(s) && Enabled(s, CallStop)
    ensures StopMayHang(Apply(s, CallStop)) <==> s.reaper.Committing? && !SomeoneRetires(s)
  {
    hide CanRun, Run, Inv;
    var t := Apply(s, CallStop);
    StepKeepsInv(s, CallStop);
    if StopMayHang(t) {
      var actions :| CanRun(t, actions) && AllAsked(actions) && Hung(Run(t, actions));
      DoomIsDecidedInRun(t, actions);
      RunKeepsInv(t, actions);
      HungIsDoomed(Run(t, actions));
      assert !(s.reaper.Blocked? && !t.stopper.Notifying?);
    } else if s.reaper.Committing? && !SomeoneRetires(s) {
      var u := Apply(t, StopStep(0));
      StepKeepsInv(t, StopStep(0));
      var rest := RunToRest(u);
      StopReturnsExactly(u, rest);
      RunKeepsInv(u, rest);
      DoomIsDecidedInRun(u, rest);
      StopProgress(Run(u, rest));
      RunCons(t, StopStep(0), rest);
    }
  }

  /** No pool is safe from it: two steps of its reaper after the start, and a `Stop` there may hang. */
  lemma EveryPoolMayHang(minThreads: nat, maxThreads: nat)
    ensures CanRun(Init(minThreads, maxThreads), [Reap, Reap, CallStop])
    ensures StopMayHang(Run(Init(minThreads, maxThreads), [Reap, Reap, CallStop]))
  {
    hide StopMayHang, Inv;
    var s0 := Init(minThreads, maxThreads);
    InitInv(minThreads, maxThreads);
    var s1 := Apply(s0, Reap);
    StepKeepsInv(s0, Reap);
    var s2 := Apply(s1, Reap);
    StepKeepsInv(s1, Reap);
    StopMayHangExactly(s2);
    var a2: seq<Action>, a1: seq<Action> := [Reap, CallStop], [CallStop];
    assert [Reap, Reap, CallStop][1..] == a2 && a2[1..] == a1 && a1[1..] == [];
  }

  // ------------------------------------------------------------------ what Stop leaves undone

  /** A worker that will look at the queue once more: it is past its test of `stop_`. */
  function Committed(pc: Worker): nat {
    if pc.Waiting? || (pc.Evaluated? && !pc.timedOut) then 1 else 0
  }

  /** The tasks for which there is no such worker. */
  function Orphans(s: Pool): seq<Task> {
    var n := Total(Committed, s.workers);
    if n >= |s.queue| then [] else s.queue[n..]
  }

  /** Committed workers that have no task to look forward to. */
  function Slack(s: Pool): nat {
    var n := Total(Committed, s.workers);
    if n >= |s.queue| then n - |s.queue| else 0
  }

  lemma WorkerKeepsOrphans(s: Pool, a: Action)
    requires Inv(s) && s.stop && Enabled(s, a) && Actor(a).Some?
    ensures Orphans(Apply(s, a)) == Orphans(s) && Slack(Apply(s, a)) <= Slack(s)
  {
    hide Total, RunningTasks, Tasks, Accounting, Scheduled, Threads, Graveyard;
    var w := Actor(a).value;
    WorkerMoves(s, a);
    TotalUpdate(Committed, s.workers, w, Apply(s, a).workers[w]);
  }

  lemma NewTaskJoinsOrphans(s: Pool, task: Task)
    requires Enabled(s, AddTask(task))
    ensures var t := Apply(s, AddTask(task));
      && Orphans(t) == (if Slack(s) == 0 then Orphans(s) + [task] else [])
      && Slack(t) == (if Slack(s) == 0 then 0 else Slack(s) - 1)
  {
    hide Total;
    TotalAppend(Committed, s.workers, Top);
  }

  /** A step after `stop_` is set changes the orphans only by a new task, which a committed worker without a task may
      still take. */
  lemma OrphansStay(s: Pool, a: Action)
    requires Inv(s) && s.stop && Enabled(s, a)
    ensures !a.AddTask? ==> Orphans(Apply(s, a)) == Orphans(s) && Slack(Apply(s, a)) <= Slack(s)
    ensures a.AddTask? ==>
      Orphans(Apply(s, a)) == (if Slack(s) == 0 then Orphans(s) + [a.task] else [])
      && Slack(Apply(s, a)) == (if Slack(s) == 0 then 0 else Slack(s) - 1)
    ensures Slack(s) > 0 ==> Orphans(s) == []
  {
    hide Inv, Total, Enabled, Apply;
    if Actor(a).Some? {
      WorkerKeepsOrphans(s, a);
    } else if a.AddTask? {
      NewTaskJoinsOrphans(s, a.task);
    } else {
      OthersKeepWork(s, a);
    }
  }

  /** The tasks that are added in a run. */
  function Added(actions: seq<Action>): seq<Task> {
    if actions == [] then []
    else (if actions[0].AddTask? then [actions[0].task] else []) + Added(actions[1..])
  }

  /** What the orphans of a run's end are: those of its start and the tasks added, but for the first few of these. */
  lemma {:induction false} OrphansInRun(s: Pool, actions: seq<Action>) returns (saved: nat)
    requires Inv(s) && s.stop && CanRun(s, actions)
    ensures saved <= Slack(s) && saved <= |Added(actions)|
    ensures Orphans(Run(s, actions)) == (Orphans(s) + Added(actions))[saved..]
    decreases |actions|
  {
    hide Inv, Enabled, Apply, Orphans, Slack;
    if actions == [] {
      saved := 0;
    } else {
      var a := actions[0];
      var t := Apply(s, a);
      OrphansStay(s, a);
      StepKeepsInv(s, a);
      StopStays(s, a);
      var later := OrphansInRun(t, actions[1..]);
      saved := if a.AddTask? && Slack(s) > 0 then later + 1 else later;
      AddedStep(Orphans(s), actions, later);
    }
  }

  lemma AddedStep(orphans: seq<Task>, actions: seq<Action>, k: nat)
    requires actions != [] && k <= |Added(actions[1..])|
    ensures var a, rest := actions[0], Added(actions[1..]);
      && (!a.AddTask? ==> Added(actions) == rest)
      && (a.AddTask? ==> |Added(actions)| == |rest| + 1 && (orphans + [a.task]) + rest == orphans + Added(actions)
                         && ([] + rest)[k..] == ([] + Added(actions))[k + 1..])
  {
    var rest, all := Added(actions[1..]), Added(actions);
    if actions[0].AddTask? {
      var task := actions[0].task;
      assert all == [task] + rest;
      hide Added;
      Shift(orphans, task, rest, k);
    } else {
      assert all == [] + rest;
      hide Added;
      assert [] + rest == rest;
    }
  }

  lemma Shift(a: seq<Task>, task: Task, b: seq<Task>, k: nat)
    requires k <= |b|
    ensures (a + [task]) + b == a + ([task] + b)
    ensures ([] + b)[k..] == ([] + ([task] + b))[k + 1..]
  {
    assert [] + b == b && [] + ([task] + b) == [task] + b;
  }

  lemma {:induction false} NobodyCommitted(ws: seq<Worker>)
    requires forall w :: 0 <= w < |ws| ==> ws[w].Left? || ws[w].Retired?
    ensures Total(Committed, ws) == 0
  {
    if ws != [] {
      NobodyCommitted(ws[..|ws| - 1]);
    }
  }

  lemma {:induction false} NoneAdded(actions: seq<Action>)
    requires NoNewTasks(actions)
    ensures Added(actions) == []
  {
    if actions != [] {
      NoneAdded(actions[1..]);
    }
  }

  /** From the state at the call of `Stop`, whatever the interleaving, once `Stop` has returned: the tasks that never
      run are those at the end of the queue for which no worker is committed, and behind them all that are added after
      the call, but for the first few of these if at the call there are more committed workers than tasks. So without
      new tasks none is lost exactly if there are at least as many such workers as tasks; and if there are at most as
      many, every new task is lost. */
  lemma StopLosesExactly(s: Pool, actions: seq<Action>) returns (saved: nat)
    requires Inv(s) && Enabled(s, CallStop) && CanRun(Apply(s, CallStop), actions)
    requires Run(Apply(s, CallStop), actions).stopper.StopDone?
    ensures saved <= Slack(s) && saved <= |Added(actions)|
    ensures Run(Apply(s, CallStop), actions).queue == (Orphans(s) + Added(actions))[saved..]
    ensures NoNewTasks(actions) ==> Run(Apply(s, CallStop), actions).queue == Orphans(s)
    ensures Total(Committed, s.workers) <= |s.queue| ==>
              Run(Apply(s, CallStop), actions).queue == Orphans(s) + Added(actions)
    ensures Orphans(s) == [] <==> |s.queue| <= Total(Committed, s.workers)
  {
    hide CanRun, Run, Total, RunningTasks, Tasks, Accounting, Scheduled, Locking;
    var t := Apply(s, CallStop);
    StepKeepsInv(s, CallStop);
    saved := OrphansInRun(t, actions);
    RunKeepsInv(t, actions);
    var u := Run(t, actions);
    forall w: nat | w < |u.workers| ensures u.workers[w].Left? || u.workers[w].Retired? {
      assert w in u.joined;
    }
    NobodyCommitted(u.workers);
    if NoNewTasks(actions) {
      NoneAdded(actions);
      assert (Orphans(s) + [])[0..] == Orphans(s);
    }
  }

  /** It does happen: the only worker looks at `stop_` before it looks at the queue, and `Stop` returns. */
  lemma StopCanLoseTasks(task: Task) returns (before: seq<Action>, after: seq<Action>)
    ensures CanRun(Init(1, 1), before) && Enabled(Run(Init(1, 1), before), CallStop)
    ensures CanRun(Apply(Run(Init(1, 1), before), CallStop), after) && NoNewTasks(after)
    ensures var s := Run(Apply(Run(Init(1, 1), before), CallStop), after); s.stopper.StopDone? && s.queue == [task]
  {
    hide CanRun, Run;
    var s0 := Init(1, 1);
    assert Ids(1) == {0};
    var s1 := Apply(s0, AddTask(task));
    RunNothing(s1);
    RunCons(s0, AddTask(task), []);
    before := [AddTask(task)] + [];
    var s2 := Apply(s1, CallStop);
    var s3 := Apply(s2, StopStep(0));
    var s4 := Apply(s3, LoopTop(0));
    var tail := StopEnds(s4);
    RunCons(s3, LoopTop(0), tail);
    RunCons(s2, StopStep(0), [LoopTop(0)] + tail);
    after := [StopStep(0)] + ([LoopTop(0)] + tail);
  }

  /** From here the reaper finishes and `Stop` joins, whatever is queued. */
  lemma StopEnds(s: Pool) returns (actions: seq<Action>)
    requires s.stop && s.reaper.Head? && s.dead == [] && s.stopper.WaitReaper?
    requires s.threads == {0} && s.workers == [Left]
    ensures CanRun(s, actions) && NoNewTasks(actions)
    ensures Run(s, actions).stopper.StopDone? && Run(s, actions).queue == s.queue
  {
    hide CanRun, Run, Apply;
    var joins := JoinsEnd(s.(reaper := Gone));
    ReaperEnds(s, joins);
    actions := [Reap] + ([Reap] + ([Reap] + joins));
  }

  lemma ReaperEnds(s: Pool, rest: seq<Action>)
    requires s.stop && s.reaper.Head? && s.dead == [] && CanRun(s.(reaper := Gone), rest)
    ensures CanRun(s, [Reap] + ([Reap] + ([Reap] + rest)))
    ensures Run(s, [Reap] + ([Reap] + ([Reap] + rest))) == Run(s.(reaper := Gone), rest)
  {
    hide CanRun, Run;
    var s1 := Apply(s, Reap);
    var s2 := Apply(s1, Reap);
    RunCons(s2, Reap, rest);
    RunCons(s1, Reap, [Reap] + rest);
    RunCons(s, Reap, [Reap] + ([Reap] + rest));
  }

  lemma JoinsEnd(s: Pool) returns (actions: seq<Action>)
    requires s.stop && s.reaper.Gone? && s.stopper.WaitReaper? && s.threads == {0} && s.workers == [Left]
    ensures CanRun(s, actions) && NoNewTasks(actions)
    ensures Run(s, actions).stopper.StopDone? && Run(s, actions).queue == s.queue
  {
    hide CanRun, Run;
    var s1 := Apply(s, StopStep(0));
    var s2 := Apply(s1, StopStep(0));
    assert s2.threads == {};
    var s3 := Apply(s2, StopStep(0));
    RunNothing(s3);
    RunCons(s2, StopStep(0), []);
    RunCons(s1, StopStep(0), [StopStep(0)] + []);
    RunCons(s, StopStep(0), [StopStep(0)] + ([StopStep(0)] + []));
    actions := [StopStep(0)] + ([StopStep(0)] + ([StopStep(0)] + []));
  }

  lemma {:induction false} NothingRunning(ws: seq<Worker>)
    requires forall w :: 0 <= w < |ws| ==> !ws[w].Running?
    ensures RunningTasks(ws) == multiset{}
  {
    if ws != [] {
      NothingRunning(ws[..|ws| - 1]);
    }
  }

  /** When `Stop` has returned, every thread ever created has been joined exactly once and no task is running; the
      tasks that were submitted and never run are exactly those left in the queue. */
  lemma AfterStopReturns(minThreads: nat, maxThreads: nat, actions: seq<Action>)
    requires CanRun(Init(minThreads, maxThreads), actions)
    requires Run(Init(minThreads, maxThreads), actions).stopper.StopDone?
    ensures var s := Run(Init(minThreads, maxThreads), actions);
      && NoDuplicates(s.joined) && (forall id: nat :: id in s.joined <==> id < |s.workers|)
      && (forall w: nat :: w < |s.workers| ==> Terminated(s, w))
      && s.submitted == s.started + s.queue && multiset(s.started) == s.finished
  {
    hide CanRun, Run, Init, Locking, Accounting, Scheduled;
    InitInv(minThreads, maxThreads);
    RunKeepsInv(Init(minThreads, maxThreads), actions);
    var s := Run(Init(minThreads, maxThreads), actions);
    forall w: nat | w < |s.workers| ensures Terminated(s, w) && !s.workers[w].Running? {
      assert w in s.joined;
    }
    NothingRunning(s.workers);
  }

  lemma RunCons(s: Pool, a: Action, rest: seq<Action>)
    requires Enabled(s, a) && CanRun(Apply(s, a), rest)
    ensures CanRun(s, [a] + rest) && Run(s, [a] + rest) == Run(Apply(s, a), rest)
  {
    assert ([a] + rest)[1..] == rest;
  }

  lemma RunNothing(s: Pool)
    ensures CanRun(s, []) && Run(s, []) == s
  {
  }
}
