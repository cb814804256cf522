/** The server and its loops as the objects they are. Each method is one handler, run without another thread in
    between. */
module TcpServerClass {
  import opened ConnectionTables

  class SubLoop {
    var conns_: map<nat, Conn>

    constructor ()
      ensures conns_ == map[]
    {
      conns_ := map[];
    }

    method closeconnection(fd: nat)
      modifies this
      ensures conns_ == old(conns_) - {fd}
    {
      conns_ := conns_ - {fd};
    }

    method newconnection(conn: Conn)
      modifies this
      ensures conns_ == old(conns_)[conn.fd := conn]
    {
      conns_ := conns_[conn.fd := conn];
    }
  }

  class TcpServer {
    const timeout: int
    const subloops: seq<SubLoop>
    var conns_: map<nat, Conn>
    var lastatime: map<Conn, int>
    // History.
    ghost var live: set<Conn>
    ghost var accepted: set<Conn>
    ghost var errored: set<Conn>
    ghost var closed: set<Conn>
    ghost var expired: set<Conn>
    ghost var missed: set<Conn>
    ghost var stranded: set<Conn>

    ghost predicate Separate()
      reads this
    {
      |subloops| > 0 && forall i, j :: 0 <= i < j < |subloops| ==> subloops[i] != subloops[j]
    }

    ghost function Shards(): (ts: seq<map<nat, Conn>>)
      reads this, subloops
      ensures |ts| == |subloops| && forall k :: 0 <= k < |subloops| ==> ts[k] == subloops[k].conns_
    {
      seq(|subloops|, k requires 0 <= k < |subloops| reads this, subloops => subloops[k].conns_)
    }

    ghost function View(): Tables
      reads this, subloops
    {
      Tables(timeout, conns_, Shards(), Free, seq(|subloops|, _ => Rest), lastatime, live, accepted, errored, closed,
             expired, missed, stranded)
    }

    ghost predicate Valid()
      reads this, subloops
    {
      Separate() && Inv(View())
    }

    method newconnction(conn: Conn, now: int)
      requires Valid() && Enabled(View(), Register(conn, now))
      modifies this`conns_, this`lastatime, this`live, this`accepted, subloops
      ensures Valid()
      ensures var s := old(View());
        CanRun(s, Steps(|s.shards|, New(conn, now))) && View() == Run(s, Steps(|s.shards|, New(conn, now)))
    {
      ghost var s := View();
      ghost var steps := Steps(|s.shards|, New(conn, now));
      NewRuns(s, conn, now);
      hide Inv, CanRun, Run, Enabled;
      RunKeepsInv(s, steps);
      conns_ := conns_[conn.fd := conn];
      lastatime := lastatime[conn := now];
      live := live + {conn};
      accepted := accepted + {conn};
      subloops[conn.fd % |subloops|].newconnection(conn);
      ghost var table: map<nat, Conn> := old(Shards())[conn.fd % |subloops|][conn.fd := conn];
      assert Shards() == old(Shards())[conn.fd % |subloops| := table];
    }

    /** A message has been handed over, by `Connection::onmessagecallback`. */
    method received(conn: Conn, now: int)
      requires Valid() && conn in live
      modifies this`lastatime
      ensures Valid() && lastatime == old(lastatime)[conn := now]
      ensures Enabled(old(View()), Touch(conn, now)) && View() == Apply(old(View()), Touch(conn, now))
    {
      hide Inv;
      StepKeepsInv(View(), Touch(conn, now));
      lastatime := lastatime[conn := now];
      assert View() == Apply(old(View()), Touch(conn, now));
    }

    method closeconnection(conn: Conn)
      requires Valid() && conn in live
      modifies this`conns_, this`live, this`closed, subloops
      ensures Valid()
      ensures var s := old(View());
        CanRun(s, Steps(|s.shards|, Close(conn))) && View() == Run(s, Steps(|s.shards|, Close(conn)))
    {
      hide Inv, CanRun, Run, Steps;
      ghost var s := View();
      CloseRuns(s, conn);
      live := live - {conn};
      closed := closed + {conn};
      subloops[conn.fd % |subloops|].closeconnection(conn.fd);
      assert Shards() == old(Shards())[conn.fd % |subloops| := old(Shards())[conn.fd % |subloops|] - {conn.fd}];
      conns_ := conns_ - {conn.fd};
      assert View() == Run(s, Steps(|s.shards|, Close(conn)));
    }

    method errorconnection(conn: Conn)
      requires Valid() && conn in live
      modifies this`conns_, this`live, this`errored
      ensures Valid() && Enabled(old(View()), Error(conn)) && View() == Apply(old(View()), Error(conn))
    {
      hide Inv, Apply, Enabled;
      ErrorRuns(View(), conn);
      live := live - {conn};
      errored := errored + {conn};
      conns_ := conns_ - {conn.fd};
      assert View() == Apply(old(View()), Error(conn));
    }

    method removeconnection(fd: nat)
      modifies this`conns_
      ensures conns_ == old(conns_) - {fd}
    {
      conns_ := conns_ - {fd};
    }

    /** `Connection::timeout`. */
    predicate timedout(conn: Conn, now: int)
      reads this
    {
      conn in lastatime && now - lastatime[conn] > timeout
    }

    /** `EventLoop::handletimer` of loop `k`, which walks its own table while it erases from it. */
    method handletimer(k: nat, now: int)
      requires Valid() && k < |subloops|
      modifies this`conns_, this`live, this`expired, subloops[k]
      ensures Valid() && View() == AfterTimer(old(View()), k, now)
    {
      hide Inv, AfterTimer, Removed;
      var loop := subloops[k];
      var rest := loop.conns_.Keys;
      while rest != {}
        invariant Valid() && AfterTimer(View(), k, now) == AfterTimer(old(View()), k, now)
        invariant rest <= loop.conns_.Keys
        invariant forall fd :: fd in loop.conns_ && fd !in rest ==> !timedout(loop.conns_[fd], now)
        decreases |rest|
      {
        var fd :| fd in rest;
        rest := rest - {fd};
        if timedout(loop.conns_[fd], now) {
          Remove(k, fd, now);
        }
      }
      assert Gone(View(), k, now) == {};
      TimerEnd(View(), k, now);
    }

    method Remove(k: nat, fd: nat, now: int)
      requires Valid() && k < |subloops| && fd in subloops[k].conns_ && timedout(subloops[k].conns_[fd], now)
      modifies this`conns_, this`live, this`expired, subloops[k]
      ensures Valid() && subloops[k].conns_ == old(subloops[k].conns_) - {fd}
      ensures AfterTimer(View(), k, now) == AfterTimer(old(View()), k, now)
    {
      ghost var s := View();
      RemovedKeepsInv(s, k, fd, now);
      TimerStep(s, k, fd, now);
      hide Inv, AfterTimer;
      ghost var conn := subloops[k].conns_[fd];
      removeconnection(fd);
      subloops[k].closeconnection(fd);
      live := live - {conn};
      expired := expired + {conn};
      assert Shards() == old(Shards())[k := old(Shards())[k] - {fd}];
      assert View() == Removed(s, k, fd);
    }
  }

  lemma RemovedKeepsInv(s: Tables, k: nat, fd: nat, now: int)
    requires Shaped(s) && AtRest(s) && Inv(s)
    requires k < |s.shards| && fd in s.shards[k] && TimedOut(s, s.shards[k][fd], now)
    ensures Placed(s) && Inv(Removed(s, k, fd))
  {
    assert Enabled(s, ExpireGlobal(k, fd, now));
    RemovedByTwoSteps(s, k, fd, now);
    hide Inv, Enabled, Apply, Removed;
    StepKeepsInv(s, ExpireGlobal(k, fd, now));
    StepKeepsInv(Apply(s, ExpireGlobal(k, fd, now)), ExpireShard(k));
  }

  lemma TwoStepRun(s: Tables, a: Action, b: Action)
    requires Shaped(s) && Enabled(s, a) && Enabled(Apply(s, a), b)
    ensures CanRun(s, [a, b]) && Run(s, [a, b]) == Apply(Apply(s, a), b)
  {
    hide Enabled, Apply, CanRun, Run;
    var t := Apply(Apply(s, a), b);
    NoSteps(t);
    RunCons(Apply(s, a), b, []);
    RunCons(s, a, [b] + []);
    assert [a] + ([b] + []) == [a, b];
  }

  lemma NewRuns(s: Tables, c: Conn, now: int)
    requires Shaped(s) && Inv(s) && Enabled(s, Register(c, now))
    ensures CanRun(s, Steps(|s.shards|, New(c, now)))
    ensures var table: map<nat, Conn> := s.shards[Home(s, c)][c.fd := c];
      Run(s, Steps(|s.shards|, New(c, now))) == s.(conns := s.conns[c.fd := c], shards := s.shards[Home(s, c) := table],
        lastatime := s.lastatime[c := now], live := s.live + {c}, accepted := s.accepted + {c})
  {
    hide Unused, Distinct, CanRun, Run;
    assert Sound(s, c);
    TwoStepRun(Apply(s, Register(c, now)), Open, Enter);
    RunCons(s, Register(c, now), [Open, Enter]);
    assert [Register(c, now)] + [Open, Enter] == Steps(|s.shards|, New(c, now));
  }

  lemma CloseRuns(s: Tables, c: Conn)
    requires Shaped(s) && Inv(s) && AtRest(s) && c in s.live
    ensures CanRun(s, Steps(|s.shards|, Close(c)))
    ensures Run(s, Steps(|s.shards|, Close(c))) == s.(conns := s.conns - {c.fd},
        shards := s.shards[Home(s, c) := s.shards[Home(s, c)] - {c.fd}], live := s.live - {c}, closed := s.closed + {c})
    ensures Inv(Run(s, Steps(|s.shards|, Close(c))))
  {
    hide Distinct, Inv;
    var k := Home(s, c);
    TwoStepRun(s, CloseShard(c), CloseGlobal(k));
    assert s.loops[k := Closing(c)][k := Rest] == s.loops;
    RunKeepsInv(s, Steps(|s.shards|, Close(c)));
  }

  lemma ErrorRuns(s: Tables, c: Conn)
    requires Shaped(s) && Inv(s) && AtRest(s) && c in s.live
    ensures Enabled(s, Error(c))
    ensures var t := Apply(s, Error(c));
      t == s.(conns := s.conns - {c.fd}, live := s.live - {c}, errored := s.errored + {c}) && Inv(t)
  {
    hide Inv;
    StepKeepsInv(s, Error(c));
  }
}
