/** The worker pool as a transition system: one action for each critical section, atomic update or blocking call. */
module ThreadPool {
  import opened Wrappers

  /** A task is a number here; equal numbers stand for equal closures. */
  type Task = nat

  /** Where a worker is in `Threadwork`. `Evaluated` and `Retiring` are inside the critical section of `mutex_`. */
  datatype Worker =
    | Top                          // at `while(stop_ == false)`
    | Waiting                      // in `wait_for`, without the mutex
    | Evaluated(timedOut: bool)    // `wait_for` has returned
    | Retiring                     // found the pool above its minimum, about to lock deadThreadQueueMutex
    | Running(task: Option<Task>)  // outside the mutex, with a task or after a time-out that kept it
    | Bumping                      // before `++idleThreadnum_`
    | Left                         // returned because of `stop_`
    | Retired                      // returned after queueing its own id

  /** Where the reaper is in `clearDeadThread`. It owns deadThreadQueueMutex in the states marked *. */
  datatype Reaper =
    | Head                         // at `while(!stop_)`
    | AtWait                       // about to take the mutex and test the predicate of `wait`, first or again
    | Committing                   // * has found it false and is about to block
    | Blocked                      // in `wait`, which has no time limit: until somebody notifies
    | Draining                     // * at the inner loop's test
    | Joining(id: nat)             // * has popped an id
    | FinalLock                    // behind the loop, about to take the mutex
    | FinalDraining                // *
    | FinalJoining(fid: nat)       // *
    | Gone                         // returned

  /** Where `Stop` is: the flag is set and nobody notified yet, then joining the reaper, then the threads. */
  datatype Stopper = NotCalled | Notifying | WaitReaper | JoinAll | StopDone

  /** Worker `w` runs the thread with id `w`; `threads` holds the ids of the joinable entries of `threads_`.
      The last four fields are history. `broken` is set when `front()` meets an empty queue or a reaper assert fails. */
  datatype Pool = Pool(
    stop: bool, queue: seq<Task>, minT: nat, maxT: nat, current: int, idle: int,
    owner: Option<nat>, workers: seq<Worker>, threads: set<nat>, dead: seq<nat>, reaper: Reaper, stopper: Stopper,
    submitted: seq<Task>, started: seq<Task>, finished: multiset<Task>, joined: seq<nat>, broken: bool)

  datatype Action =
    | AddTask(task: Task)
    | LoopTop(w: nat)
    | Evaluate(w: nat)
    | Decide(w: nat)
    | Retire(w: nat)
    | Finish(w: nat)
    | Bump(w: nat)
    | Reap
    | WakeUnasked                  // a spurious wake-up, which the standard allows and nobody may rely on
    | CallStop
    | StopStep(joining: nat)

  function Ids(n: nat): (ids: set<nat>)
    ensures forall w: nat :: w in ids <==> w < n
  {
    if n == 0 then {} else Ids(n - 1) + {n - 1}
  }

  function Init(minThreads: nat, maxThreads: nat): Pool {
    Pool(false, [], minThreads, if maxThreads <= minThreads then minThreads else maxThreads, minThreads, minThreads,
         None, seq(minThreads, _ => Top), Ids(minThreads), [], Head, NotCalled,
         [], [], multiset{}, [], false)
  }

  predicate At(s: Pool, w: nat, pc: Worker) {
    w < |s.workers| && s.workers[w] == pc
  }

  predicate DeadMutexFree(s: Pool) {
    s.reaper.Head? || s.reaper.AtWait? || s.reaper.Blocked? || s.reaper.FinalLock? || s.reaper.Gone?
  }

  predicate Terminated(s: Pool, w: nat) {
    w < |s.workers| && (s.workers[w].Left? || s.workers[w].Retired?)
  }

  predicate CanReap(s: Pool) {
    match s.reaper
    case Blocked => false
    case Joining(id) => Terminated(s, id) || id !in s.threads
    case FinalJoining(id) => Terminated(s, id) || id !in s.threads
    case Gone => false
    case _ => true
  }

  /** What can happen next. `AddTask` is not called once `Stop` is joining: that loop walks `threads_` unlocked. */
  predicate Enabled(s: Pool, a: Action) {
    match a
    case AddTask(t) => s.owner == None && !s.stopper.JoinAll? && !s.stopper.StopDone?
    case LoopTop(w) => At(s, w, Top)
    case Evaluate(w) => At(s, w, Waiting) && s.owner == None
    case Decide(w) => w < |s.workers| && s.workers[w].Evaluated?
    case Retire(w) => At(s, w, Retiring) && DeadMutexFree(s)
    case Finish(w) => w < |s.workers| && s.workers[w].Running?
    case Bump(w) => At(s, w, Bumping)
    case Reap => CanReap(s)
    case WakeUnasked => s.reaper.Blocked?
    case CallStop => s.stopper.NotCalled?
    case StopStep(id) =>
      match s.stopper
      case Notifying => true
      case WaitReaper => s.reaper.Gone?
      case JoinAll => s.threads == {} || (id in s.threads && Terminated(s, id))
      case _ => false
  }

  function Move(s: Pool, w: nat, pc: Worker): Pool
    requires w < |s.workers|
  {
    s.(workers := s.workers[w := pc])
  }

  /** `addtask`: a new thread when no idle one is left over for this task and the pool may grow. */
  function AfterAddTask(s: Pool, t: Task): Pool {
    var s := s.(submitted := s.submitted + [t]);
    if |s.queue| >= s.idle && s.current < s.maxT then
      s.(workers := s.workers + [Top], threads := s.threads + {|s.workers|},
         current := s.current + 1, idle := s.idle + 1, queue := s.queue + [t])
    else
      s.(queue := s.queue + [t])
  }

  /** From the check of `stop_` to the end of the critical section, or to the lock of deadThreadQueueMutex. */
  function AfterDecide(s: Pool, w: nat): Pool
    requires w < |s.workers| && s.workers[w].Evaluated?
  {
    if s.stop && s.queue == [] then Move(s, w, Left).(owner := None)
    else if s.workers[w].timedOut then
      if s.current > s.minT then Move(s, w, Retiring)
      else Move(s, w, Running(None)).(idle := s.idle - 1, owner := None)
    else if s.queue == [] then s.(broken := true)
    else
      Move(s, w, Running(Some(s.queue[0]))).(
        queue := s.queue[1..], started := s.started + [s.queue[0]], idle := s.idle - 1, owner := None)
  }

  /** `deadThreadQueueCondition_.notify_all()`: of no effect on a reaper that does not wait yet. */
  function Notified(r: Reaper): Reaper {
    if r.Blocked? then AtWait else r
  }

  /** `find`, both asserts, `join`, `erase`. */
  function AfterJoin(s: Pool, id: nat): Pool {
    if id !in s.threads then s.(broken := true)
    else s.(threads := s.threads - {id}, joined := s.joined + [id])
  }

  function AfterReap(s: Pool): Pool {
    match s.reaper
    case Head => s.(reaper := if s.stop then FinalLock else AtWait)
    case AtWait => s.(reaper := if s.stop || s.dead != [] then Draining else Committing)
    case Committing => s.(reaper := Blocked)
    case Blocked => s
    case Draining => if s.dead == [] then s.(reaper := Head) else s.(reaper := Joining(s.dead[0]), dead := s.dead[1..])
    case Joining(id) => AfterJoin(s, id).(reaper := Draining)
    case FinalLock => s.(reaper := FinalDraining)
    case FinalDraining =>
      if s.dead == [] then s.(reaper := Gone) else s.(reaper := FinalJoining(s.dead[0]), dead := s.dead[1..])
    case FinalJoining(id) => AfterJoin(s, id).(reaper := FinalDraining)
    case Gone => s
  }

  function AfterStop(s: Pool, id: nat): Pool {
    match s.stopper
    case Notifying => s.(stopper := WaitReaper, reaper := Notified(s.reaper))
    case WaitReaper => s.(stopper := JoinAll)
    case JoinAll => if s.threads == {} then s.(stopper := StopDone) else AfterJoin(s, id)
    case _ => s
  }

  function Apply(s: Pool, a: Action): Pool
    requires Enabled(s, a)
  {
    match a
    case AddTask(t) => AfterAddTask(s, t)
    case LoopTop(w) => Move(s, w, if s.stop then Left else Waiting)
    case Evaluate(w) => Move(s, w, Evaluated(!(s.stop || s.queue != []))).(owner := Some(w))
    case Decide(w) => AfterDecide(s, w)
    case Retire(w) =>
      Move(s, w, Retired).(dead := s.dead + [w], idle := s.idle - 1, current := s.current - 1, owner := None,
                              reaper := Notified(s.reaper))
    case Finish(w) =>
      var done := match s.workers[w].task case None => multiset{} case Some(t) => multiset{t};
      Move(s, w, Bumping).(finished := s.finished + done)
    case Bump(w) => Move(s, w, Top).(idle := s.idle + 1)
    case Reap => AfterReap(s)
    case WakeUnasked => s.(reaper := AtWait)
    case CallStop => s.(stop := true, stopper := Notifying)
    case StopStep(id) => AfterStop(s, id)
  }

  predicate CanRun(s: Pool, actions: seq<Action>)
    decreases |actions|
  {
    actions == [] || (Enabled(s, actions[0]) && CanRun(Apply(s, actions[0]), actions[1..]))
  }

  function Run(s: Pool, actions: seq<Action>): Pool
    requires CanRun(s, actions)
    decreases |actions|
  {
    if actions == [] then s else Run(Apply(s, actions[0]), actions[1..])
  }
}
