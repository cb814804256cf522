/** The pool as the object it is: critical sections, and the loops of a worker, the reaper and `Stop`. The arguments say
    which thread runs a method. */
module ThreadPollClass {
  import opened Wrappers
  import opened ThreadPool
  import opened ThreadPoolSafety
  import opened ThreadPoolRuns

  class ThreadPoll {
    var stop: bool
    var taskqueue: seq<Task>
    var currentThreadnum: int
    var idleThreadnum: int
    const minThreadnum: nat
    const maxThreadnum: nat
    var threads: set<nat>
    var deadThreadQueue: seq<nat>
    // Who holds `mutex_`, and where each thread is.
    var owner: Option<nat>
    var workers: seq<Worker>
    var reaper: Reaper
    var stopper: Stopper
    // History.
    ghost var submitted: seq<Task>
    ghost var started: seq<Task>
    ghost var finished: multiset<Task>
    ghost var joined: seq<nat>

    ghost function State(): Pool
      reads this
    {
      Pool(stop, taskqueue, minThreadnum, maxThreadnum, currentThreadnum, idleThreadnum, owner, workers, threads,
           deadThreadQueue, reaper, stopper, submitted, started, finished, joined, false)
    }

    constructor (minthreadnum: nat, maxthreadnum: nat)
      ensures State() == Init(minthreadnum, maxthreadnum) && Inv(State())
    {
      stop, taskqueue := false, [];
      currentThreadnum, idleThreadnum, minThreadnum := minthreadnum, minthreadnum, minthreadnum;
      maxThreadnum := if maxthreadnum <= minthreadnum then minthreadnum else maxthreadnum;
      threads, deadThreadQueue, workers := {}, [], [];
      owner, reaper, stopper := None, Head, NotCalled;
      submitted, started, finished, joined := [], [], multiset{}, [];
      new;
      hide Inv;
      for i := 0 to minthreadnum
        invariant workers == seq(i, _ => Top) && threads == Ids(i)
        invariant State() == Init(minthreadnum, maxthreadnum).(workers := workers, threads := threads)
      {
        threads := threads + {|workers|};
        workers := workers + [Top];
      }
      InitInv(minthreadnum, maxthreadnum);
    }

    method addtask(task: Task)
      requires Inv(State()) && Enabled(State(), AddTask(task))
      modifies this
      ensures State() == Apply(old(State()), AddTask(task)) && Inv(State())
      ensures workers == (if NeedsThread(old(State())) then old(workers) + [Top] else old(workers))
      ensures taskqueue == old(taskqueue) + [task]
    {
      hide Inv, Apply, Enabled, NeedsThread;
      GrowsExactly(State(), task);
      AddTaskIs(State(), task);
      StepKeepsInv(State(), AddTask(task));
      submitted := submitted + [task];
      if |taskqueue| >= idleThreadnum && currentThreadnum < maxThreadnum {
        threads := threads + {|workers|};
        workers := workers + [Top];
        currentThreadnum := currentThreadnum + 1;
        idleThreadnum := idleThreadnum + 1;
      }
      taskqueue := taskqueue + [task];
    }

    /** `task = move(taskqueue_.front()); taskqueue_.pop();` and the end of the section. */
    method TakeTask(w: nat)
      requires w < |workers| && taskqueue != []
      modifies this`taskqueue, this`started, this`workers, this`idleThreadnum, this`owner
      ensures taskqueue == old(taskqueue)[1..] && started == old(started) + [old(taskqueue)[0]]
      ensures workers == old(workers)[w := Running(Some(old(taskqueue)[0]))]
      ensures idleThreadnum == old(idleThreadnum) - 1 && owner == None
    {
      var task := taskqueue[0];
      taskqueue := taskqueue[1..];
      started := started + [task];
      workers := workers[w := Running(Some(task))];
      idleThreadnum := idleThreadnum - 1;
      owner := None;
    }

    /** The rest of the critical section. That `front()` finds a task is part of the proof. */
    method Decide(w: nat)
      requires Inv(State()) && Enabled(State(), Action.Decide(w))
      modifies this
      ensures State() == Apply(old(State()), Action.Decide(w)) && Inv(State())
    {
      hide Inv;
      SoundStep(State(), Action.Decide(w));
      if stop && taskqueue == [] {
        workers, owner := workers[w := Left], None;
      } else if !workers[w].timedOut {
        TakeTask(w);
      } else if currentThreadnum > minThreadnum {
        workers := workers[w := Retiring];
      } else {
        workers := workers[w := Running(None)];
        idleThreadnum := idleThreadnum - 1;
        owner := None;
      }
    }

    /** Under deadThreadQueueMutex. */
    method Retire(w: nat)
      requires w < |workers|
      modifies this`deadThreadQueue, this`reaper, this`idleThreadnum, this`currentThreadnum, this`workers
      ensures deadThreadQueue == old(deadThreadQueue) + [w] && reaper == Notified(old(reaper))
      ensures idleThreadnum == old(idleThreadnum) - 1 && currentThreadnum == old(currentThreadnum) - 1
      ensures workers == old(workers)[w := Retired]
    {
      deadThreadQueue := deadThreadQueue + [w];
      reaper := Notified(reaper);
      idleThreadnum := idleThreadnum - 1;
      currentThreadnum := currentThreadnum - 1;
      workers := workers[w := Retired];
    }

    /** One turn of the loop of `Threadwork`, with no other thread in between: the wait ends at once if there is a task,
        and else at its time limit. `TurnIsRun` says that it is a run. */
    method Turn(w: nat) returns (retired: bool)
      requires Inv(State()) && Undisturbed(State(), w)
      modifies this
      ensures Inv(State()) && State() == AfterTurn(old(State()), w) && retired == Retires(old(State()))
    {
      hide Inv;
      TurnKeepsInv(State(), w);
      var task: Option<Task> := None;
      var isTimeout := taskqueue == [];
      if isTimeout {
        if currentThreadnum > minThreadnum {
          Retire(w);
          return true;
        }
      } else {
        task := Some(taskqueue[0]);
        started := started + [taskqueue[0]];
        taskqueue := taskqueue[1..];
      }
      idleThreadnum := idleThreadnum - 1;
      if task.Some? {
        finished := finished + multiset{task.value};
      }
      idleThreadnum := idleThreadnum + 1;
      return false;
    }

    /** `Threadwork` for as many turns, left alone: the worker takes the queued tasks in order, one a turn, and then
        retires at the first time limit if the pool is above its minimum, and otherwise stays. */
    method Threadwork(w: nat, turns: nat) returns (retired: bool)
      requires Inv(State()) && Undisturbed(State(), w)
      modifies this
      ensures Inv(State())
      ensures var k := if turns < |old(taskqueue)| then turns else |old(taskqueue)|;
        && taskqueue == old(taskqueue)[k..] && started == old(started) + old(taskqueue)[..k]
        && finished == old(finished) + multiset(old(taskqueue)[..k])
      ensures retired <==> turns > |old(taskqueue)| && old(currentThreadnum) > minThreadnum
      ensures deadThreadQueue == old(deadThreadQueue) + if retired then [w] else []
      ensures currentThreadnum == old(currentThreadnum) - if retired then 1 else 0
    {
      hide Inv, CanRun, Run, Apply, Enabled, TurnOf;
      ghost var queue := taskqueue;
      var i := 0;
      retired := false;
      while stop == false && i < turns
        invariant 0 <= i <= turns && !retired && Inv(State()) && Undisturbed(State(), w)
        invariant var k := if i < |queue| then i else |queue|;
          && taskqueue == queue[k..] && started == old(started) + queue[..k]
          && finished == old(finished) + multiset(queue[..k])
        invariant i > |queue| ==> currentThreadnum <= minThreadnum
        invariant deadThreadQueue == old(deadThreadQueue) && currentThreadnum == old(currentThreadnum)
      {
        if i < |queue| {
          assert queue[..i + 1] == queue[..i] + [queue[i]];
        }
        retired := Turn(w);
        if retired {
          return;
        }
        i := i + 1;
      }
    }

    /** `iter->second.join(); threads_.erase(iter);` for an id that the asserts have looked up. */
    method Join(id: nat)
      requires id in threads
      modifies this`threads, this`joined
      ensures threads == old(threads) - {id} && joined == old(joined) + [id]
    {
      threads := threads - {id};
      joined := joined + [id];
    }

    /** `find`, the asserts, `join`, `erase`. That the asserts hold is part of the proof. */
    method JoinDead()
      requires Inv(State()) && Enabled(State(), Action.Reap)
      requires reaper.Joining? || reaper.FinalJoining?
      modifies this
      ensures State() == Apply(old(State()), Action.Reap) && Inv(State())
    {
      hide Inv;
      SoundStep(State(), Action.Reap);
      var id := if reaper.Joining? then reaper.id else reaper.fid;
      Join(id);
      reaper := if reaper.Joining? then Draining else FinalDraining;
    }

    /** One turn of an inner loop of `clearDeadThread`. */
    method JoinFirst()
      requires Inv(State()) && (reaper.Draining? || reaper.FinalDraining?) && deadThreadQueue != []
      modifies this
      ensures Inv(State())
      ensures State() == old(State()).(
        dead := old(deadThreadQueue)[1..], joined := old(joined) + [old(deadThreadQueue)[0]],
        threads := old(threads) - {old(deadThreadQueue)[0]})
    {
      hide Inv;
      StepKeepsInv(State(), Action.Reap);
      DeadAreJoinable(State());
      var id := deadThreadQueue[0];
      deadThreadQueue := deadThreadQueue[1..];
      reaper := if reaper.Draining? then Joining(id) else FinalJoining(id);
      JoinDead();
    }

    /** Either inner loop of `clearDeadThread`, under deadThreadQueueMutex: every queued id is joined, in order, once,
        and none of the joins has to wait. */
    method DrainDead()
      requires Inv(State()) && (reaper.Draining? || reaper.FinalDraining?)
      modifies this
      ensures Inv(State())
      ensures State() == old(State()).(
        dead := [], joined := old(joined + deadThreadQueue), threads := old(threads - Members(deadThreadQueue)),
        reaper := if old(reaper).Draining? then Head else Gone)
    {
      hide Inv;
      ghost var s := State();
      while |deadThreadQueue| > 0
        invariant Inv(State()) && reaper == old(reaper)
        invariant joined + deadThreadQueue == s.joined + s.dead
        invariant threads - Members(deadThreadQueue) == s.threads - Members(s.dead)
        invariant State() == s.(dead := deadThreadQueue, joined := joined, threads := threads)
        decreases |deadThreadQueue|
      {
        MembersPop(deadThreadQueue);
        JoinFirst();
      }
      StepKeepsInv(State(), Action.Reap);
      reaper := if reaper.Draining? then Head else Gone;
    }

    /** The loop at the end of `Stop`, when all threads have returned and so no join has to wait. */
    method JoinAll()
      requires Inv(State()) && stopper.JoinAll? && forall v: nat :: v < |workers| ==> Terminated(State(), v)
      modifies this
      ensures Inv(State()) && stopper.StopDone? && threads == {} && old(joined) <= joined
      ensures NoDuplicates(joined) && forall id: nat :: id in joined <==> id < |workers|
      ensures taskqueue == old(taskqueue) && workers == old(workers)
    {
      hide Inv, Apply, Enabled, AfterJoin;
      ghost var s := State();
      while threads != {}
        invariant Inv(State()) && State() == s.(threads := threads, joined := joined) && s.joined <= joined
        decreases |threads|
      {
        var id :| id in threads;
        ThreadsAreWorkers(State());
        assert Terminated(s, id) && Terminated(State(), id);
        JoinIs(State(), id);
        StepKeepsInv(State(), StopStep(id));
        Join(id);
      }
      JoinEnds(State());
      StepKeepsInv(State(), StopStep(0));
      stopper := StopDone;
      AllJoined(State());
    }
  }

  lemma AddTaskIs(s: Pool, task: Task)
    requires Enabled(s, AddTask(task))
    ensures Apply(s, AddTask(task)) == AfterAddTask(s, task)
  {
  }

  lemma JoinIs(s: Pool, id: nat)
    requires s.stopper.JoinAll? && id in s.threads && Terminated(s, id)
    ensures Enabled(s, StopStep(id))
    ensures Apply(s, StopStep(id)) == s.(threads := s.threads - {id}, joined := s.joined + [id])
  {
  }

  lemma JoinEnds(s: Pool)
    requires s.stopper.JoinAll? && s.threads == {}
    ensures Enabled(s, StopStep(0)) && Apply(s, StopStep(0)) == s.(stopper := StopDone)
  {
  }

  function Members(ids: seq<nat>): set<nat> {
    set id | id in ids
  }

  lemma MembersPop(ids: seq<nat>)
    requires ids != []
    ensures Members(ids) == {ids[0]} + Members(ids[1..])
  {
    assert ids == [ids[0]] + ids[1..];
  }

  lemma DeadAreJoinable(s: Pool)
    requires Inv(s) && (s.reaper.Draining? || s.reaper.FinalDraining?) && s.dead != []
    ensures s.dead[0] in s.threads && At(s, s.dead[0], Retired) && s.dead[0] !in Members(s.dead[1..])
  {
    assert s.dead[0] in s.dead;
  }

  lemma ThreadsAreWorkers(s: Pool)
    requires Inv(s)
    ensures forall id :: id in s.threads ==> id < |s.workers|
  {
  }

  lemma AllJoined(s: Pool)
    requires Inv(s) && s.stopper.StopDone?
    ensures s.threads == {} && NoDuplicates(s.joined) && forall id: nat :: id in s.joined <==> id < |s.workers|
  {
  }

  /** Worker `w` is at the top of its loop and nobody is in its way. */
  predicate Undisturbed(s: Pool, w: nat) {
    !s.stop && s.owner == None && At(s, w, Top) && DeadMutexFree(s)
  }

  predicate Retires(s: Pool) {
    s.queue == [] && s.current > s.minT
  }

  function TurnOf(s: Pool, w: nat): seq<Action> {
    if Retires(s) then [LoopTop(w), Evaluate(w), Decide(w), Retire(w)]
    else [LoopTop(w), Evaluate(w), Decide(w), Finish(w), Bump(w)]
  }

  function AfterTurn(s: Pool, w: nat): Pool
    requires At(s, w, Top)
  {
    if Retires(s) then
      s.(workers := s.workers[w := Retired], dead := s.dead + [w], reaper := Notified(s.reaper),
         idle := s.idle - 1, current := s.current - 1)
    else if s.queue == [] then s
    else s.(queue := s.queue[1..], started := s.started + [s.queue[0]], finished := s.finished + multiset{s.queue[0]})
  }

  /** A run of two steps and then some. */
  lemma Twice(s: Pool, a: Action, b: Action, rest: seq<Action>)
    requires Enabled(s, a) && Enabled(Apply(s, a), b) && CanRun(Apply(Apply(s, a), b), rest)
    ensures CanRun(s, [a, b] + rest) && Run(s, [a, b] + rest) == Run(Apply(Apply(s, a), b), rest)
  {
    hide Enabled, Apply, CanRun, Run;
    RunCons(Apply(s, a), b, rest);
    RunCons(s, a, [b] + rest);
    assert [a] + ([b] + rest) == [a, b] + rest;
  }

  /** The wait and the end of the section take the worker to here. */
  lemma ThroughSection(s: Pool, w: nat, rest: seq<Action>)
    requires Undisturbed(s, w)
    ensures var t := s.(workers := s.workers[w := Evaluated(s.queue == [])], owner := Some(w));
      CanRun(t, rest) ==>
        CanRun(s, [LoopTop(w), Evaluate(w)] + rest) && Run(s, [LoopTop(w), Evaluate(w)] + rest) == Run(t, rest)
  {
    hide CanRun, Run;
    var t := Apply(Apply(s, LoopTop(w)), Evaluate(w));
    assert t == s.(workers := s.workers[w := Evaluated(s.queue == [])], owner := Some(w));
    if CanRun(t, rest) {
      Twice(s, LoopTop(w), Evaluate(w), rest);
    }
  }

  lemma RetiringTurn(s: Pool, w: nat)
    requires Undisturbed(s, w) && Retires(s)
    ensures var t := s.(workers := s.workers[w := Evaluated(true)], owner := Some(w));
      CanRun(t, [Decide(w), Retire(w)] + []) && Run(t, [Decide(w), Retire(w)] + []) == AfterTurn(s, w)
  {
    hide CanRun, Run;
    var t := s.(workers := s.workers[w := Evaluated(true)], owner := Some(w));
    var u := Apply(Apply(t, Decide(w)), Retire(w));
    assert u == AfterTurn(s, w);
    RunNothing(u);
    Twice(t, Decide(w), Retire(w), []);
  }

  lemma WorkingTurn(s: Pool, w: nat)
    requires Undisturbed(s, w) && !Retires(s)
    ensures var t := s.(workers := s.workers[w := Evaluated(s.queue == [])], owner := Some(w));
      && CanRun(t, [Decide(w), Finish(w)] + ([Bump(w)] + []))
      && Run(t, [Decide(w), Finish(w)] + ([Bump(w)] + [])) == AfterTurn(s, w)
  {
    hide CanRun, Run;
    var t := s.(workers := s.workers[w := Evaluated(s.queue == [])], owner := Some(w));
    var u := Apply(Apply(t, Decide(w)), Finish(w));
    var v := Apply(u, Bump(w));
    assert v.workers == s.workers;
    assert v == AfterTurn(s, w);
    RunNothing(v);
    RunCons(u, Bump(w), []);
    Twice(t, Decide(w), Finish(w), [Bump(w)] + []);
  }

  lemma TurnIsRun(s: Pool, w: nat)
    requires Undisturbed(s, w)
    ensures CanRun(s, TurnOf(s, w)) && Run(s, TurnOf(s, w)) == AfterTurn(s, w)
  {
    hide CanRun, Run, AfterTurn;
    var rest := if Retires(s) then [Decide(w), Retire(w)] + [] else [Decide(w), Finish(w)] + ([Bump(w)] + []);
    ThroughSection(s, w, rest);
    if Retires(s) {
      RetiringTurn(s, w);
    } else {
      WorkingTurn(s, w);
    }
    assert [LoopTop(w), Evaluate(w)] + rest == TurnOf(s, w);
  }

  lemma TurnKeepsInv(s: Pool, w: nat)
    requires Inv(s) && Undisturbed(s, w)
    ensures Inv(AfterTurn(s, w))
  {
    hide Inv, CanRun, Run, AfterTurn, TurnOf;
    TurnIsRun(s, w);
    RunKeepsInv(s, TurnOf(s, w));
  }
}
