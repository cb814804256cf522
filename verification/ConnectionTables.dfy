/** The server's table of all connections and the table of each event loop. The acceptor's thread and the loops' threads
    change them in separate critical sections, so a handler is up to two steps. */
module ConnectionTables {
  import opened Wrappers

  /** A connection object; `serial` tells apart the connections that had the same descriptor. */
  datatype Conn = Conn(fd: nat, serial: nat)

  /** In `newconnction`, with the channel in epoll and the connection in no table yet or in the global one only, or
      not. */
  datatype Acceptor = Free | Registered(conn: Conn) | Half(conn: Conn)

  /** Between the two erasures of a close or of a timeout, or not. */
  datatype Loop = Rest | Closing(conn: Conn) | Timing(conn: Conn)

  /** `live` are the connections whose channel is still in epoll; the sets after it are history. `missed` are those
      that were erased from the global table before they were in it, and `stranded` those that entered their loop's
      table when they were closed already. */
  datatype Tables = Tables(
    timeout: int,
    conns: map<nat, Conn>,
    shards: seq<map<nat, Conn>>,
    acceptor: Acceptor,
    loops: seq<Loop>,
    lastatime: map<Conn, int>,
    live: set<Conn>,
    accepted: set<Conn>,
    errored: set<Conn>,
    closed: set<Conn>,
    expired: set<Conn>,
    missed: set<Conn>,
    stranded: set<Conn>)

  function Init(threadnum: nat, timeout: int): Tables {
    Tables(timeout, map[], seq(threadnum, _ => map[]), Free, seq(threadnum, _ => Rest), map[],
           {}, {}, {}, {}, {}, {}, {})
  }

  predicate Shaped(s: Tables) {
    |s.loops| == |s.shards| > 0
  }

  function Home(s: Tables, c: Conn): (k: nat)
    requires Shaped(s)
    ensures k < |s.shards|
  {
    c.fd % |s.shards|
  }

  predicate InGlobal(s: Tables, c: Conn) {
    c.fd in s.conns && s.conns[c.fd] == c
  }

  predicate InShard(s: Tables, c: Conn)
    requires Shaped(s)
  {
    var t := s.shards[Home(s, c)];
    c.fd in t && t[c.fd] == c
  }

  /** Somebody still refers to the connection, so that its socket is open. */
  predicate Known(s: Tables, c: Conn)
    requires Shaped(s)
  {
    || InGlobal(s, c) || InShard(s, c) || s.acceptor == Registered(c) || s.acceptor == Half(c)
    || s.loops[Home(s, c)] == Closing(c) || s.loops[Home(s, c)] == Timing(c)
  }

  /** The kernel gives out a descriptor again only when its socket has been closed. */
  ghost predicate Unused(s: Tables, fd: nat)
    requires Shaped(s)
  {
    forall c :: Known(s, c) ==> c.fd != fd
  }

  predicate TimedOut(s: Tables, c: Conn, now: int) {
    c in s.lastatime && now - s.lastatime[c] > s.timeout
  }

  datatype Action =
    | Register(conn: Conn, now: int)
    | Open
    | Enter
    | Touch(conn: Conn, now: int)
    | CloseShard(conn: Conn)
    | CloseGlobal(k: nat)
    | Error(conn: Conn)
    | ExpireGlobal(k: nat, fd: nat, now: int)
    | ExpireShard(k: nat)

  ghost predicate Enabled(s: Tables, a: Action)
    requires Shaped(s)
  {
    match a
    case Register(c, _) => s.acceptor.Free? && c !in s.accepted && Unused(s, c.fd)
    case Open => s.acceptor.Registered?
    case Enter => s.acceptor.Half?
    case Touch(c, _) => c in s.live
    case CloseShard(c) => c in s.live && s.loops[Home(s, c)].Rest?
    case CloseGlobal(k) => k < |s.loops| && s.loops[k].Closing?
    case Error(c) => c in s.live && s.loops[Home(s, c)].Rest?
    case ExpireGlobal(k, fd, now) =>
      && k < |s.loops| && s.loops[k].Rest?
      && fd in s.shards[k] && TimedOut(s, s.shards[k][fd], now)
    case ExpireShard(k) => k < |s.loops| && s.loops[k].Timing?
  }

  ghost function Apply(s: Tables, a: Action): (t: Tables)
    requires Shaped(s) && Enabled(s, a)
    ensures Shaped(t) && |t.shards| == |s.shards|
  {
    match a
    case Register(c, now) =>
      s.(acceptor := Registered(c), lastatime := s.lastatime[c := now], live := s.live + {c},
         accepted := s.accepted + {c})
    case Open =>
      var c := s.acceptor.conn;
      s.(conns := s.conns[c.fd := c], acceptor := Half(c))
    case Enter =>
      var c := s.acceptor.conn;
      var k := Home(s, c);
      var table: map<nat, Conn> := s.shards[k][c.fd := c];
      s.(shards := s.shards[k := table], acceptor := Free,
         stranded := if c in s.closed then s.stranded + {c} else s.stranded)
    case Touch(c, now) => s.(lastatime := s.lastatime[c := now])
    case CloseShard(c) =>
      var k := Home(s, c);
      s.(shards := s.shards[k := s.shards[k] - {c.fd}], loops := s.loops[k := Closing(c)], live := s.live - {c},
         closed := s.closed + {c})
    case CloseGlobal(k) =>
      var c := s.loops[k].conn;
      s.(conns := s.conns - {c.fd}, loops := s.loops[k := Rest],
         missed := if s.acceptor == Registered(c) then s.missed + {c} else s.missed)
    case Error(c) =>
      s.(conns := s.conns - {c.fd}, live := s.live - {c}, errored := s.errored + {c},
         missed := if s.acceptor == Registered(c) then s.missed + {c} else s.missed)
    case ExpireGlobal(k, fd, _) => s.(conns := s.conns - {fd}, loops := s.loops[k := Timing(s.shards[k][fd])])
    case ExpireShard(k) =>
      var c := s.loops[k].conn;
      s.(shards := s.shards[k := s.shards[k] - {c.fd}], loops := s.loops[k := Rest], live := s.live - {c},
         expired := s.expired + {c})
  }

  ghost predicate CanRun(s: Tables, actions: seq<Action>)
    requires Shaped(s)
    decreases |actions|
  {
    actions == [] || (Enabled(s, actions[0]) && CanRun(Apply(s, actions[0]), actions[1..]))
  }

  ghost function Run(s: Tables, actions: seq<Action>): (t: Tables)
    requires Shaped(s) && CanRun(s, actions)
    ensures Shaped(t) && |t.shards| == |s.shards|
    decreases |actions|
  {
    if actions == [] then s else Run(Apply(s, actions[0]), actions[1..])
  }

  // ------------------------------------------------------------------ invariant

  /** An entry stands under its descriptor, a loop's entry in the loop that the descriptor selects. */
  predicate Placed(s: Tables)
    requires Shaped(s)
  {
    && (forall fd :: fd in s.conns ==> s.conns[fd].fd == fd)
    && (forall k, fd :: 0 <= k < |s.shards| && fd in s.shards[k] ==> s.shards[k][fd].fd == fd && fd % |s.shards| == k)
    && (forall k :: 0 <= k < |s.loops| && !s.loops[k].Rest? ==> Home(s, s.loops[k].conn) == k)
  }

  /** No two connections have the same descriptor. */
  ghost predicate Distinct(s: Tables)
    requires Shaped(s)
  {
    forall c, d :: Known(s, c) && Known(s, d) && c.fd == d.fd ==> c == d
  }

  /** Where a connection is, by what has happened to it. */
  predicate Sound(s: Tables, c: Conn)
    requires Shaped(s)
  {
    var loop := s.loops[Home(s, c)];
    var ended := c in s.errored || c in s.closed;
    && (InGlobal(s, c) <==> Known(s, c) && s.acceptor != Registered(c) && loop != Timing(c)
                            && (loop == Closing(c) || !ended || c in s.missed))
    && (InGlobal(s, c) ==> InShard(s, c) || s.acceptor == Half(c) || loop == Closing(c))
    && (c in s.live <==> Known(s, c) && !ended)
    && (s.acceptor == Half(c) || s.acceptor == Registered(c) ==> !InShard(s, c))
    && (s.acceptor == Registered(c) && ended ==> loop == Closing(c) || c in s.missed)
    && (loop == Closing(c) ==> c in s.closed && c !in s.missed)
    && (loop == Timing(c) ==> InShard(s, c))
    && (InShard(s, c) && c in s.closed ==> c in s.stranded)
    && (c in s.stranded ==> c in s.closed)
    && (c in s.missed ==> ended)
    && (c in s.accepted <==> Known(s, c) || c in s.closed || c in s.expired)
    && (c in s.errored ==> c in s.accepted && c !in s.closed)
    && (c in s.accepted ==> c in s.lastatime)
    && (c in s.expired ==> !Known(s, c))
  }

  ghost predicate Inv(s: Tables)
    requires Shaped(s)
  {
    Placed(s) && Distinct(s) && forall c :: Sound(s, c)
  }

  lemma StepKeepsPlaced(s: Tables, a: Action)
    requires Shaped(s) && Inv(s) && Enabled(s, a)
    ensures Placed(Apply(s, a))
  {
    hide Distinct;
    var t := Apply(s, a);
    if a.CloseShard? || a.Error? {
      assert Sound(s, a.conn);
    } else if a.Open? || a.Enter? {
      assert Sound(s, s.acceptor.conn);
    }
  }

  lemma KnownBefore(s: Tables, a: Action, c: Conn)
    requires Shaped(s) && Placed(s) && Enabled(s, a) && Known(Apply(s, a), c)
    requires a.CloseShard? || a.Error? ==> Known(s, a.conn)
    ensures Known(s, c) || (a.Register? && c == a.conn)
  {
    hide Unused;
  }

  lemma StepKeepsDistinct(s: Tables, a: Action)
    requires Shaped(s) && Inv(s) && Enabled(s, a)
    ensures Distinct(Apply(s, a))
  {
    var t := Apply(s, a);
    if a.CloseShard? || a.Error? {
      assert Sound(s, a.conn);
    }
    forall c, d | Known(t, c) && Known(t, d) && c.fd == d.fd ensures c == d {
      KnownBefore(s, a, c);
      KnownBefore(s, a, d);
    }
  }

  /** The connection that a step is about. */
  ghost function Mover(s: Tables, a: Action): Conn
    requires Shaped(s) && Enabled(s, a)
  {
    match a
    case Open => s.acceptor.conn
    case Enter => s.acceptor.conn
    case CloseGlobal(k) => s.loops[k].conn
    case ExpireGlobal(k, fd, _) => s.shards[k][fd]
    case ExpireShard(k) => s.loops[k].conn
    case _ => a.conn
  }

  ghost predicate Apart(s: Tables, c: Conn, m: Conn)
    requires Shaped(s)
  {
    Known(s, c) && Known(s, m) && c.fd == m.fd ==> c == m
  }

  /** A step that is about `m`, seen from `m`. */
  lemma MoverStaysSound(s: Tables, a: Action)
    requires Shaped(s) && Placed(s) && Enabled(s, a) && Sound(s, Mover(s, a))
    ensures Sound(Apply(s, a), Mover(s, a))
  {
  }

  /** And seen from another connection: a step of the acceptor, or a message. */
  lemma OtherStaysSoundOnEntry(s: Tables, a: Action, c: Conn)
    requires Shaped(s) && Placed(s) && Enabled(s, a) && c != Mover(s, a)
    requires Sound(s, Mover(s, a)) && Sound(s, c) && Apart(s, c, Mover(s, a))
    requires a.Register? || a.Open? || a.Enter? || a.Touch?
    ensures Sound(Apply(s, a), c)
  {
  }

  /** A step of a close, an error or a time-out. */
  lemma OtherStaysSoundOnExit(s: Tables, a: Action, c: Conn)
    requires Shaped(s) && Placed(s) && Enabled(s, a) && c != Mover(s, a)
    requires Sound(s, Mover(s, a)) && Sound(s, c) && Apart(s, c, Mover(s, a))
    requires !a.Register? && !a.Open? && !a.Enter? && !a.Touch?
    ensures Sound(Apply(s, a), c)
  {
  }

  lemma StepKeepsSound(s: Tables, a: Action, c: Conn)
    requires Shaped(s) && Inv(s) && Enabled(s, a)
    ensures Sound(Apply(s, a), c)
  {
    hide Sound, Apply, Enabled, Placed;
    var m := Mover(s, a);
    assert Sound(s, c) && Sound(s, m);
    if c == m {
      MoverStaysSound(s, a);
    } else {
      if a.Register? || a.Open? || a.Enter? || a.Touch? {
        OtherStaysSoundOnEntry(s, a, c);
      } else {
        OtherStaysSoundOnExit(s, a, c);
      }
    }
  }

  lemma StepKeepsInv(s: Tables, a: Action)
    requires Shaped(s) && Inv(s) && Enabled(s, a)
    ensures Inv(Apply(s, a))
  {
    hide Enabled, Apply, Sound;
    StepKeepsPlaced(s, a);
    StepKeepsDistinct(s, a);
    forall c ensures Sound(Apply(s, a), c) {
      StepKeepsSound(s, a, c);
    }
  }

  lemma InitInv(threadnum: nat, timeout: int)
    requires threadnum > 0
    ensures Inv(Init(threadnum, timeout))
  {
  }

  lemma {:induction false} RunKeepsInv(s: Tables, actions: seq<Action>)
    requires Shaped(s) && Inv(s) && CanRun(s, actions)
    ensures Inv(Run(s, actions))
    decreases |actions|
  {
    hide Inv, Enabled, Apply;
    if actions != [] {
      StepKeepsInv(s, actions[0]);
      RunKeepsInv(Apply(s, actions[0]), actions[1..]);
    }
  }

  // ------------------------------------------------------------------ between handlers

  predicate AtRest(s: Tables)
    requires Shaped(s)
  {
    s.acceptor.Free? && forall k :: 0 <= k < |s.loops| ==> s.loops[k].Rest?
  }

  /** In a loop's table only. */
  predicate OnlyInShard(s: Tables, c: Conn)
    requires Shaped(s)
  {
    InShard(s, c) && !InGlobal(s, c)
  }

  /** The tables whenever no handler is running. The global table has exactly the live connections and those that a
      close or an error was too early for; each is in its loop's table too. A connection is in its loop's table only
      exactly if it is there and has had an error, or was closed while it was being accepted, but not too early. One
      that was accepted is still in its loop's table, or has been closed, or has timed out. */
  lemma TablesAgree(threadnum: nat, timeout: int, actions: seq<Action>, c: Conn)
    requires threadnum > 0 && CanRun(Init(threadnum, timeout), actions)
    requires AtRest(Run(Init(threadnum, timeout), actions))
    ensures var s := Run(Init(threadnum, timeout), actions);
      && Placed(s)
      && (InGlobal(s, c) <==> c in s.live || (InShard(s, c) && c in s.missed))
      && (InGlobal(s, c) ==> InShard(s, c))
      && (OnlyInShard(s, c) <==> InShard(s, c) && (c in s.errored || c in s.stranded) && c !in s.missed)
      && (c in s.accepted <==> InShard(s, c) || c in s.closed || c in s.expired)
  {
    hide CanRun, Run;
    InitInv(threadnum, timeout);
    RunKeepsInv(Init(threadnum, timeout), actions);
    assert Sound(Run(Init(threadnum, timeout), actions), c);
  }

  /** Connections come, send, close, fail and fall silent at any time: a new one whenever the acceptor is free, with any
      unused descriptor; the rest for any live one, when its loop is at rest. */
  lemma SurroundingsAreFree(s: Tables, c: Conn, now: int)
    requires Shaped(s) && Inv(s)
    ensures s.acceptor.Free? && c !in s.accepted && Unused(s, c.fd) ==> Enabled(s, Register(c, now))
    ensures c in s.live ==> Enabled(s, Touch(c, now))
    ensures c in s.live && s.loops[Home(s, c)].Rest? ==> Enabled(s, CloseShard(c)) && Enabled(s, Error(c))
    ensures InShard(s, c) && s.loops[Home(s, c)].Rest? && TimedOut(s, c, now) ==>
              Enabled(s, ExpireGlobal(Home(s, c), c.fd, now))
  {
    hide Unused, Distinct;
  }

  /** The global table is what it is for. */
  ghost predicate GlobalIsLive(s: Tables) {
    forall c :: InGlobal(s, c) <==> c in s.live
  }

  /** The tables differ by the connections with errors, which wait for the timer. */
  ghost predicate DifferenceIsErrored(s: Tables)
    requires Shaped(s)
  {
    forall c :: InShard(s, c) ==> (OnlyInShard(s, c) <==> c in s.errored)
  }

  /** The first holds exactly if no connection of a loop ended before it was in the global table. */
  lemma GlobalIsLiveExactly(s: Tables)
    requires Shaped(s) && Inv(s) && AtRest(s)
    ensures GlobalIsLive(s) <==> forall c :: c in s.missed ==> !InShard(s, c)
  {
    forall c ensures !(InGlobal(s, c) <==> c in s.live) <==> c in s.missed && InShard(s, c) {
      assert Sound(s, c);
    }
  }

  /** The second exactly if no connection of a loop was closed between the insertions, or had its error before them. */
  lemma DifferenceExactly(s: Tables)
    requires Shaped(s) && Inv(s) && AtRest(s)
    ensures DifferenceIsErrored(s)
            <==> forall c :: InShard(s, c) ==> if c in s.missed then c !in s.errored else c !in s.stranded
  {
    forall c ensures InShard(s, c) ==>
        ((OnlyInShard(s, c) <==> c in s.errored) <==> if c in s.missed then c !in s.errored else c !in s.stranded)
    {
      assert Sound(s, c);
    }
  }

  lemma NoSteps(s: Tables)
    requires Shaped(s)
    ensures CanRun(s, []) && Run(s, []) == s
  {
  }

  lemma RunCons(s: Tables, a: Action, rest: seq<Action>)
    requires Shaped(s) && Enabled(s, a) && CanRun(Apply(s, a), rest)
    ensures CanRun(s, [a] + rest) && Run(s, [a] + rest) == Run(Apply(s, a), rest)
  {
    hide Enabled, Apply;
    assert ([a] + rest)[1..] == rest;
  }

  /** A connection that closes between the two insertions stays in its loop's table, with no error. */
  lemma CloseSlipsIn() returns (actions: seq<Action>)
    ensures CanRun(Init(1, 60), actions)
    ensures var s := Run(Init(1, 60), actions); AtRest(s) && !DifferenceIsErrored(s) && GlobalIsLive(s)
  {
    hide CanRun, Run, Inv;
    var c := Conn(7, 0);
    var s0 := Init(1, 60);
    var s1 := Apply(s0, Register(c, 0));
    var s2 := Apply(s1, Open);
    var s3 := Apply(s2, CloseShard(c));
    var s4 := Apply(s3, CloseGlobal(0));
    var s5 := Apply(s4, Enter);
    NoSteps(s5);
    RunCons(s4, Enter, []);
    RunCons(s3, CloseGlobal(0), [Enter] + []);
    RunCons(s2, CloseShard(c), [CloseGlobal(0)] + ([Enter] + []));
    RunCons(s1, Open, [CloseShard(c)] + ([CloseGlobal(0)] + ([Enter] + [])));
    RunCons(s0, Register(c, 0), [Open] + ([CloseShard(c)] + ([CloseGlobal(0)] + ([Enter] + []))));
    actions := [Register(c, 0)] + ([Open] + ([CloseShard(c)] + ([CloseGlobal(0)] + ([Enter] + []))));
    assert OnlyInShard(s5, c) && s5.errored == {};
  }

  /** One that closes before both stays in both, dead. */
  lemma CloseComesTooEarly() returns (actions: seq<Action>)
    ensures CanRun(Init(1, 60), actions)
    ensures var s := Run(Init(1, 60), actions); AtRest(s) && !GlobalIsLive(s)
  {
    hide CanRun, Run, Inv;
    var c := Conn(7, 0);
    var s0 := Init(1, 60);
    var s1 := Apply(s0, Register(c, 0));
    var s2 := Apply(s1, CloseShard(c));
    var s3 := Apply(s2, CloseGlobal(0));
    var s4 := Apply(s3, Open);
    var s5 := Apply(s4, Enter);
    NoSteps(s5);
    RunCons(s4, Enter, []);
    RunCons(s3, Open, [Enter] + []);
    RunCons(s2, CloseGlobal(0), [Open] + ([Enter] + []));
    RunCons(s1, CloseShard(c), [CloseGlobal(0)] + ([Open] + ([Enter] + [])));
    RunCons(s0, Register(c, 0), [CloseShard(c)] + ([CloseGlobal(0)] + ([Open] + ([Enter] + []))));
    actions := [Register(c, 0)] + ([CloseShard(c)] + ([CloseGlobal(0)] + ([Open] + ([Enter] + []))));
    assert InGlobal(s5, c) && c !in s5.live;
  }

  /** A handler run without another thread in between. */
  datatype Handler =
    | New(conn: Conn, now: int)
    | Message(conn: Conn, now: int)
    | Close(conn: Conn)
    | Fail(conn: Conn)
    | TimeOut(k: nat, fd: nat, now: int)

  function Steps(threadnum: nat, h: Handler): seq<Action>
    requires threadnum > 0
  {
    match h
    case New(c, now) => [Register(c, now), Open, Enter]
    case Message(c, now) => [Touch(c, now)]
    case Close(c) => [CloseShard(c), CloseGlobal(c.fd % threadnum)]
    case Fail(c) => [Error(c)]
    case TimeOut(k, fd, now) => [ExpireGlobal(k, fd, now), ExpireShard(k)]
  }

  ghost predicate CanHandle(s: Tables, handlers: seq<Handler>)
    requires Shaped(s)
    decreases |handlers|
  {
    handlers == []
    || var steps := Steps(|s.shards|, handlers[0]);
       CanRun(s, steps) && CanHandle(Run(s, steps), handlers[1..])
  }

  ghost function Handle(s: Tables, handlers: seq<Handler>): (t: Tables)
    requires Shaped(s) && CanHandle(s, handlers)
    ensures Shaped(t)
    decreases |handlers|
  {
    if handlers == [] then s else Handle(Run(s, Steps(|s.shards|, handlers[0])), handlers[1..])
  }

  lemma OneStep(s: Tables, a: Action)
    requires Shaped(s) && CanRun(s, [a])
    ensures Enabled(s, a) && Run(s, [a]) == Apply(s, a)
  {
    hide Enabled, Apply;
    assert [a][1..] == [];
  }

  lemma TwoSteps(s: Tables, a: Action, b: Action)
    requires Shaped(s) && CanRun(s, [a, b])
    ensures Enabled(s, a) && Enabled(Apply(s, a), b) && Run(s, [a, b]) == Apply(Apply(s, a), b)
  {
    hide Enabled, Apply;
    assert [a, b][1..] == [b];
    OneStep(Apply(s, a), b);
  }

  lemma ThreeSteps(s: Tables, a: Action, b: Action, c: Action)
    requires Shaped(s) && CanRun(s, [a, b, c])
    ensures Enabled(s, a) && Enabled(Apply(s, a), b) && Enabled(Apply(Apply(s, a), b), c)
    ensures Run(s, [a, b, c]) == Apply(Apply(Apply(s, a), b), c)
  {
    hide Enabled, Apply;
    assert [a, b, c][1..] == [b, c];
    TwoSteps(Apply(s, a), b, c);
  }

  lemma HandlerStrandsNothing(s: Tables, h: Handler)
    requires Shaped(s) && Inv(s) && AtRest(s) && s.stranded == s.missed == {} && CanRun(s, Steps(|s.shards|, h))
    ensures var t := Run(s, Steps(|s.shards|, h)); AtRest(t) && t.stranded == t.missed == {}
  {
    hide CanRun, Run, Placed, Distinct;
    var steps := Steps(|s.shards|, h);
    if |steps| == 1 {
      OneStep(s, steps[0]);
    } else if |steps| == 2 {
      TwoSteps(s, steps[0], steps[1]);
    } else {
      ThreeSteps(s, steps[0], steps[1], steps[2]);
      assert Sound(s, h.conn);
    }
  }

  /** With every handler atomic, the global table is exactly the live connections and the tables differ by exactly the
      ones with errors. */
  lemma {:induction false} AtomicHandlersAgree(s: Tables, handlers: seq<Handler>)
    requires Shaped(s) && Inv(s) && AtRest(s) && s.stranded == s.missed == {} && CanHandle(s, handlers)
    ensures var t := Handle(s, handlers); Inv(t) && AtRest(t) && GlobalIsLive(t) && DifferenceIsErrored(t)
    decreases |handlers|
  {
    hide Inv, CanRun, Run, AtRest, DifferenceIsErrored, GlobalIsLive;
    if handlers == [] {
      DifferenceExactly(s);
      GlobalIsLiveExactly(s);
    } else {
      RunKeepsInv(s, Steps(|s.shards|, handlers[0]));
      HandlerStrandsNothing(s, handlers[0]);
      AtomicHandlersAgree(Run(s, Steps(|s.shards|, handlers[0])), handlers[1..]);
    }
  }

  // ------------------------------------------------------------------ the timer

  /** The connections that a pass over table `k` removes. */
  function Gone(s: Tables, k: nat, now: int): set<Conn>
    requires k < |s.shards|
  {
    set c | c in s.shards[k].Values && TimedOut(s, c, now)
  }

  function Fds(cs: set<Conn>): set<nat> {
    set c | c in cs :: c.fd
  }

  /** The tables after the timer of loop `k`. */
  function AfterTimer(s: Tables, k: nat, now: int): Tables
    requires k < |s.shards|
  {
    var gone := Gone(s, k, now);
    s.(conns := s.conns - Fds(gone), shards := s.shards[k := s.shards[k] - Fds(gone)], live := s.live - gone,
       expired := s.expired + gone)
  }

  /** A pass of the timer takes from both tables the connections of its loop that have timed out, and no others. */
  lemma TimerExactly(s: Tables, k: nat, now: int, c: Conn)
    requires Shaped(s) && Inv(s) && k < |s.shards|
    ensures var t := AfterTimer(s, k, now);
      var out := InShard(s, c) && Home(s, c) == k && TimedOut(s, c, now);
      && (InShard(t, c) <==> InShard(s, c) && !out)
      && (InGlobal(t, c) <==> InGlobal(s, c) && !out)
  {
    hide Sound;
    var gone := Gone(s, k, now);
    forall d | d in gone ensures InShard(s, d) && Home(s, d) == k {
      var fd :| fd in s.shards[k] && s.shards[k][fd] == d;
    }
    if c.fd in Fds(gone) {
      var d :| d in gone && d.fd == c.fd;
      assert Known(s, c) ==> c == d;
    }
  }

  /** When a connection was last heard of, if at all: at its registration or at its latest message, from `seen` on. */
  function LastSeen(seen: Option<int>, actions: seq<Action>, c: Conn): Option<int>
    decreases |actions|
  {
    if actions == [] then seen
    else
      var seen' := match actions[0]
                   case Register(d, now) => if d == c then Some(now) else seen
                   case Touch(d, now) => if d == c then Some(now) else seen
                   case _ => seen;
      LastSeen(seen', actions[1..], c)
  }

  function LastTime(s: Tables, c: Conn): Option<int> {
    if c in s.lastatime then Some(s.lastatime[c]) else None
  }

  lemma {:induction false} TimesAreKept(s: Tables, actions: seq<Action>, c: Conn)
    requires Shaped(s) && CanRun(s, actions)
    ensures LastTime(Run(s, actions), c) == LastSeen(LastTime(s, c), actions, c)
    ensures Run(s, actions).timeout == s.timeout
    decreases |actions|
  {
    hide Enabled;
    if actions != [] {
      TimesAreKept(Apply(s, actions[0]), actions[1..], c);
    }
  }

  /** In every run: a pass of the timer of loop `k` takes a connection from the tables exactly if it is in that loop's
      and was last heard of longer ago than the limit. */
  lemma TimerTakesTheSilent(threadnum: nat, timeout: int, actions: seq<Action>, k: nat, now: int, c: Conn)
    requires k < threadnum && CanRun(Init(threadnum, timeout), actions)
    ensures var s := Run(Init(threadnum, timeout), actions);
      var seen := LastSeen(None, actions, c);
      var silent := Home(s, c) == k && InShard(s, c) && seen.Some? && now - seen.value > timeout;
      && (InShard(AfterTimer(s, k, now), c) <==> InShard(s, c) && !silent)
      && (InGlobal(AfterTimer(s, k, now), c) <==> InGlobal(s, c) && !silent)
  {
    hide CanRun, Run, Inv, AfterTimer, InShard, InGlobal;
    InitInv(threadnum, timeout);
    RunKeepsInv(Init(threadnum, timeout), actions);
    TimesAreKept(Init(threadnum, timeout), actions, c);
    TimerExactly(Run(Init(threadnum, timeout), actions), k, now, c);
  }

  /** The two erasures for one timed out connection. */
  function Removed(s: Tables, k: nat, fd: nat): Tables
    requires k < |s.shards| && fd in s.shards[k]
  {
    var c := s.shards[k][fd];
    s.(conns := s.conns - {fd}, shards := s.shards[k := s.shards[k] - {fd}], live := s.live - {c},
       expired := s.expired + {c})
  }

  lemma RemovedByTwoSteps(s: Tables, k: nat, fd: nat, now: int)
    requires Shaped(s) && Placed(s) && Enabled(s, ExpireGlobal(k, fd, now))
    ensures Enabled(Apply(s, ExpireGlobal(k, fd, now)), ExpireShard(k))
    ensures Apply(Apply(s, ExpireGlobal(k, fd, now)), ExpireShard(k)) == Removed(s, k, fd)
  {
    assert s.shards[k][fd].fd == fd;
    assert s.loops[k := Timing(s.shards[k][fd])][k := Rest] == s.loops;
  }

  lemma GoneOneLess(s: Tables, k: nat, fd: nat, now: int)
    requires Shaped(s) && Placed(s) && k < |s.shards| && fd in s.shards[k] && TimedOut(s, s.shards[k][fd], now)
    ensures Gone(s, k, now) == Gone(Removed(s, k, fd), k, now) + {s.shards[k][fd]}
    ensures Fds(Gone(s, k, now)) == Fds(Gone(Removed(s, k, fd), k, now)) + {fd}
  {
    var c := s.shards[k][fd];
    var t := Removed(s, k, fd);
    forall d | d in Gone(s, k, now) && d != c ensures d in Gone(t, k, now) {
      var g :| g in s.shards[k] && s.shards[k][g] == d;
      assert t.shards[k][g] == d;
    }
    forall d | d in Gone(t, k, now) ensures d in Gone(s, k, now) {
      var g :| g in t.shards[k] && t.shards[k][g] == d;
      assert s.shards[k][g] == d;
    }
    assert c in Gone(s, k, now);
    assert Gone(s, k, now) == Gone(t, k, now) + {c};
    hide Gone;
    assert c.fd == fd;
  }

  lemma SameAfter(s: Tables, k: nat, fd: nat, now: int)
    requires k < |s.shards| && fd in s.shards[k]
    requires Gone(s, k, now) == Gone(Removed(s, k, fd), k, now) + {s.shards[k][fd]}
    requires Fds(Gone(s, k, now)) == Fds(Gone(Removed(s, k, fd), k, now)) + {fd}
    ensures AfterTimer(Removed(s, k, fd), k, now) == AfterTimer(s, k, now)
  {
    hide Gone, Fds;
    var t := Removed(s, k, fd);
    var g, h := Fds(Gone(s, k, now)), Fds(Gone(t, k, now));
    assert s.conns - g == s.conns - {fd} - h;
    assert s.shards[k] - g == s.shards[k] - {fd} - h;
    assert s.live - Gone(s, k, now) == s.live - {s.shards[k][fd]} - Gone(t, k, now);
    assert s.shards[k := s.shards[k] - g] == t.shards[k := t.shards[k] - h];
  }

  /** One removal leaves the outcome of the pass as it was. */
  lemma TimerStep(s: Tables, k: nat, fd: nat, now: int)
    requires Shaped(s) && Placed(s) && k < |s.shards| && fd in s.shards[k] && TimedOut(s, s.shards[k][fd], now)
    ensures AfterTimer(Removed(s, k, fd), k, now) == AfterTimer(s, k, now)
  {
    GoneOneLess(s, k, fd, now);
    SameAfter(s, k, fd, now);
  }

  lemma TimerEnd(s: Tables, k: nat, now: int)
    requires k < |s.shards| && Gone(s, k, now) == {}
    ensures AfterTimer(s, k, now) == s
  {
    assert Fds({}) == {};
    assert s.conns - {} == s.conns && s.shards[k] - {} == s.shards[k];
    assert s.shards[k := s.shards[k]] == s.shards;
  }
}
