/** The lock over whole runs: who can hold it together, in which order writers get it, and that somebody always can. */
module ReadWriteLockRuns {
  import opened Wrappers
  import opened ReadWriteLock

  predicate HoldTogether(s: Lock, c: nat, d: nat) {
    && c < |s.clients| && d < |s.clients| && c != d
    && s.clients[c].Holding? && s.clients[d].Holding?
  }

  /** No writer holds the lock together with anybody else. */
  ghost predicate Exclusive(s: Lock) {
    forall c: nat, d: nat :: HoldTogether(s, c, d) ==> s.clients[c].me.kind.Read? && s.clients[d].me.kind.Read?
  }

  /** No two writers hold it together. */
  ghost predicate WritersExclusive(s: Lock) {
    forall c: nat, d: nat :: HoldTogether(s, c, d) ==> s.clients[c].me.kind.Read? || s.clients[d].me.kind.Read?
  }

  lemma HoldersAgree(s: Lock, c: nat, d: nat)
    requires Inv(s) && HoldTogether(s, c, d)
    ensures !Conflicts(s.ord, s.clients[c].me, s.clients[d].me) && !Conflicts(s.ord, s.clients[d].me, s.clients[c].me)
    ensures s.clients[c].me.id != s.clients[d].me.id
  {
    hide InTurn;
  }

  lemma InvExcludes(s: Lock)
    requires Inv(s)
    ensures WritersExclusive(s) && (s.ord.BySequence? ==> Exclusive(s))
  {
    forall c: nat, d: nat | HoldTogether(s, c, d)
      ensures s.clients[c].me.kind.Read? || s.clients[d].me.kind.Read?
      ensures s.ord.BySequence? ==> s.clients[c].me.kind.Read? && s.clients[d].me.kind.Read?
    {
      HoldersAgree(s, c, d);
    }
  }

  /** Whatever the order of the listings, stale listings and sessions lost at any point included: two writers never hold
      the lock together, and writers get it in order of creation. */
  lemma WritersInTurn(ord: Order, n: nat, actions: seq<Action>)
    requires CanRun(Init(ord, n), actions)
    ensures var s := Run(Init(ord, n), actions);
      WritersExclusive(s) && forall i, j :: 0 <= i < j < |s.acquired| ==> s.acquired[i] < s.acquired[j]
  {
    hide CanRun, Run;
    InitInv(ord, n);
    RunKeepsInv(Init(ord, n), actions);
    InvExcludes(Run(Init(ord, n), actions));
  }

  ghost predicate AlwaysExclusive(ord: Order) {
    forall n, actions :: CanRun(Init(ord, n), actions) ==> Exclusive(Run(Init(ord, n), actions))
  }

  /** A writer excludes readers in every run exactly when listings are sorted by creation; the sort by full name that
      the code does lets a later reader in. */
  lemma ExclusionExactly(ord: Order)
    ensures AlwaysExclusive(ord) <==> ord.BySequence?
  {
    hide CanRun, Run, Exclusive;
    if ord.BySequence? {
      forall n, actions | CanRun(Init(ord, n), actions) ensures Exclusive(Run(Init(ord, n), actions)) {
        InitInv(ord, n);
        RunKeepsInv(Init(ord, n), actions);
        InvExcludes(Run(Init(ord, n), actions));
      }
    } else {
      var actions := ReaderSlipsIn();
    }
  }

  /** A run may be extended at its end. */
  lemma {:induction false} Extend(s: Lock, actions: seq<Action>, a: Action)
    requires CanRun(s, actions) && Enabled(Run(s, actions), a)
    ensures CanRun(s, actions + [a]) && Run(s, actions + [a]) == Apply(Run(s, actions), a)
    decreases |actions|
  {
    hide Enabled, Apply;
    if actions == [] {
      assert [a][1..] == [];
    } else {
      assert (actions + [a])[1..] == actions[1..] + [a];
      Extend(Apply(s, actions[0]), actions[1..], a);
    }
  }

  lemma Start(s: Lock)
    ensures CanRun(s, []) && Run(s, []) == s
  {
  }

  lemma ReaderSlipsIn() returns (actions: seq<Action>)
    ensures CanRun(Init(ByName, 2), actions) && !Exclusive(Run(Init(ByName, 2), actions))
  {
    hide CanRun, Run;
    var s := Init(ByName, 2);
    var w, r := Node(Write, 0), Node(Read, 1);
    Start(s);
    Extend(s, [], Create(0, Write));
    var r1 := [] + [Create(0, Write)];
    Extend(s, r1, GetChildren(0, [w]));
    var r2 := r1 + [GetChildren(0, [w])];
    Extend(s, r2, Decide(0));
    var r3 := r2 + [Decide(0)];
    Extend(s, r3, Create(1, Read));
    var r4 := r3 + [Create(1, Read)];
    Extend(s, r4, GetChildren(1, [r, w]));
    var r5 := r4 + [GetChildren(1, [r, w])];
    Extend(s, r5, Decide(1));
    actions := r5 + [Decide(1)];
    var t := Run(s, actions);
    assert t.clients[0] == Holding(w) && t.clients[1] == Holding(r);
    assert HoldTogether(t, 0, 1);
  }

  /** A session without a node may ask for the lock at any time, as reader or writer, and one with a node may be lost at
      any time; a listing is any that has exactly the live nodes in the right order. */
  lemma SurroundingsAreFree(s: Lock, c: nat, kind: Kind, l: seq<Node>)
    requires c < |s.clients|
    ensures s.clients[c].Idle? ==> Enabled(s, Create(c, kind))
    ensures HasNode(s.clients[c]) ==> Enabled(s, Expire(c))
    ensures s.clients[c].Listing? && Sorted(s.ord, l) && (forall n :: n in l <==> n in s.nodes) ==>
              Enabled(s, GetChildren(c, l))
    ensures s.clients[c].Holding? ==> Enabled(s, Unlock(c))
  {
  }

  // ------------------------------------------------------------------ progress

  lemma BeforeIsAsymmetric(ord: Order, a: Node, b: Node)
    ensures !(Before(ord, a, b) && Before(ord, b, a))
  {
  }

  lemma BeforeIsTotal(ord: Order, a: Node, b: Node)
    requires a.id != b.id
    ensures Before(ord, a, b) <==> !Before(ord, b, a)
  {
  }

  lemma BeforeIsTransitive(ord: Order, a: Node, b: Node, c: Node)
    requires Before(ord, a, b) && Before(ord, b, c)
    ensures Before(ord, a, c)
  {
  }

  predicate Numbered(nodes: set<Node>) {
    forall a, b :: a in nodes && b in nodes && a.id == b.id ==> a == b
  }

  predicate Smallest(ord: Order, nodes: set<Node>, m: Node) {
    m in nodes && forall n :: n in nodes && n != m ==> Before(ord, m, n)
  }

  lemma {:induction false} SmallestExists(ord: Order, nodes: set<Node>) returns (m: Node)
    requires nodes != {} && Numbered(nodes)
    ensures Smallest(ord, nodes, m)
    decreases |nodes|
  {
    var x :| x in nodes;
    var rest := nodes - {x};
    if rest == {} {
      m := x;
      assert forall n :: n in nodes && n != x ==> n in rest;
    } else {
      var y := SmallestExists(ord, rest);
      m := if Before(ord, x, y) then x else y;
      forall n | n in nodes && n != m ensures Before(ord, m, n) {
        BeforeIsTotal(ord, x, y);
        if n != x && m == x && n != y {
          BeforeIsTransitive(ord, x, y, n);
        }
      }
    }
  }

  /** What a fresh listing looks like. */
  lemma {:induction false} SortedListing(ord: Order, nodes: set<Node>) returns (l: seq<Node>)
    requires Numbered(nodes)
    ensures Sorted(ord, l) && Lists(l, nodes)
    decreases |nodes|
  {
    if nodes == {} {
      l := [];
    } else {
      var m := SmallestExists(ord, nodes);
      var tail := SortedListing(ord, nodes - {m});
      l := [m] + tail;
      forall i, j | 0 <= i < j < |l| ensures Before(ord, l[i], l[j]) {
        assert l[j] == tail[j - 1] && tail[j - 1] in tail;
      }
    }
  }

  /** Session `c` can get the lock by its own steps alone. */
  ghost predicate CanAcquire(s: Lock, c: nat) {
    exists actions :: (forall a: Action :: a in actions ==> a.c == c) && CanRun(s, actions)
      && c < |Run(s, actions).clients| && Run(s, actions).clients[c].Holding?
  }

  lemma AcquireStep(s: Lock, a: Action)
    requires Enabled(s, a) && CanAcquire(Apply(s, a), a.c)
    ensures CanAcquire(s, a.c)
  {
    hide Enabled, Apply;
    var rest :| (forall b: Action :: b in rest ==> b.c == a.c) && CanRun(Apply(s, a), rest)
      && a.c < |Run(Apply(s, a), rest).clients| && Run(Apply(s, a), rest).clients[a.c].Holding?;
    var actions := [a] + rest;
    assert actions[1..] == rest;
    assert CanRun(s, actions) && Run(s, actions) == Run(Apply(s, a), rest);
  }

  lemma AlreadyThere(s: Lock, c: nat)
    requires c < |s.clients| && s.clients[c].Holding?
    ensures CanAcquire(s, c)
  {
    Start(s);
    assert forall a: Action :: a in [] ==> a.c == c;
  }

  /** The smallest outstanding request is never blocked: its session gets the lock by its own steps, whatever stale
      listing or watch it starts from. */
  lemma SmallestAcquires(s: Lock, c: nat)
    requires Inv(s) && c < |s.clients| && HasNode(s.clients[c]) && Smallest(s.ord, s.nodes, s.clients[c].me)
    ensures CanAcquire(s, c)
    decreases match s.clients[c] case Deciding(_, _) => 3 case Watching(_, _) => 2 case Waiting(_, _) => 1 case _ => 0
  {
    hide CanAcquire, Target;
    match s.clients[c]
    case Holding(me) => AlreadyThere(s, c);
    case Waiting(me, t) =>
      StepKeepsInv(s, Wake(c));
      SmallestAcquires(Apply(s, Wake(c)), c);
      AcquireStep(s, Wake(c));
    case Watching(me, t) =>
      StepKeepsInv(s, SetWatch(c));
      SmallestAcquires(Apply(s, SetWatch(c)), c);
      AcquireStep(s, SetWatch(c));
    case Deciding(me, l) =>
      StepKeepsInv(s, Decide(c));
      SmallestAcquires(Apply(s, Decide(c)), c);
      AcquireStep(s, Decide(c));
    case Listing(me) =>
      var l := SortedListing(s.ord, s.nodes);
      SmallestComesFirst(s.ord, s.nodes, l, me);
      var s1 := Apply(s, GetChildren(c, l));
      assert s1.clients[c] == Deciding(me, l);
      var s2 := Apply(s1, Decide(c));
      AlreadyThere(s2, c);
      AcquireStep(s1, Decide(c));
      AcquireStep(s, GetChildren(c, l));
  }

  /** In any sorted listing with its node, a session takes the lock exactly if it is first or, as a reader, if no writer
      is in front of it; otherwise a writer waits for the node just in front, and a reader for the first writer. */
  lemma {:induction false} TargetExactly(l: seq<Node>, me: Node)
    requires me in l
    ensures var i := IndexOf(l, me); var t := Target(l, me);
      && (me.kind.Write? ==> t == if i == 0 then None else Some(l[i - 1]))
      && (me.kind.Read? && t == None ==> forall j :: 0 <= j < i ==> l[j].kind.Read?)
      && (me.kind.Read? && t.Some? ==>
            exists j :: 0 <= j < i && l[j] == t.value && l[j].kind.Write? && forall h :: 0 <= h < j ==> l[h].kind.Read?)
  {
    if me.kind.Read? {
      if FirstWriter(l, me) == None {
        forall j: nat | j < IndexOf(l, me) ensures l[j].kind.Read? {
          FirstWriterNone(l, me, j);
        }
      } else {
        var j := FirstWriterAt(l, me);
      }
    }
  }

  lemma {:induction false} FirstWriterAt(l: seq<Node>, me: Node) returns (j: nat)
    requires me in l && FirstWriter(l, me).Some?
    ensures j < IndexOf(l, me) && l[j] == FirstWriter(l, me).value && l[j].kind.Write?
    ensures forall h :: 0 <= h < j ==> l[h].kind.Read?
  {
    if l[0].kind.Write? {
      j := 0;
    } else {
      var j' := FirstWriterAt(l[1..], me);
      j := j' + 1;
      assert forall h :: 0 < h < j ==> l[h] == l[1..][h - 1];
    }
  }

  predicate WriterInFront(s: Lock, me: Node) {
    exists n :: n in s.nodes && n.kind.Write? && Before(s.ord, n, me)
  }

  /** A reader that lists the children next takes the lock by its next two steps, whoever else holds or waits, exactly
      if no writer's node is in front of its own: readers share it. */
  lemma ReadersShare(s: Lock, c: nat, l: seq<Node>)
    requires Inv(s) && Enabled(s, GetChildren(c, l)) && s.clients[c].me.kind.Read?
    ensures var t := Apply(s, GetChildren(c, l));
      && Enabled(t, Decide(c))
      && (Apply(t, Decide(c)).clients[c].Holding? <==> !WriterInFront(s, s.clients[c].me))
  {
    hide InTurn, Positions, Target;
    var me := s.clients[c].me;
    assert me in s.nodes && me in l;
    TargetExactly(l, me);
    var i := IndexOf(l, me);
    if Target(l, me).Some? {
      TargetIsBefore(s.ord, l, me);
      var j :| 0 <= j < i && l[j] == Target(l, me).value && l[j].kind.Write?;
      assert l[j] in s.nodes;
    } else {
      forall n | n in s.nodes && n.kind.Write? ensures !Before(s.ord, n, me) {
        var j :| 0 <= j < |l| && l[j] == n;
        if i < j {
          BeforeIsAsymmetric(s.ord, me, n);
        }
      }
    }
  }

  /** And so two readers may hold it together. */
  lemma TwoReadersHold(ord: Order) returns (actions: seq<Action>)
    ensures CanRun(Init(ord, 2), actions) && HoldTogether(Run(Init(ord, 2), actions), 0, 1)
  {
    hide CanRun, Run;
    var s := Init(ord, 2);
    var a, b := Node(Read, 0), Node(Read, 1);
    Start(s);
    Extend(s, [], Create(0, Read));
    var r1 := [] + [Create(0, Read)];
    Extend(s, r1, GetChildren(0, [a]));
    var r2 := r1 + [GetChildren(0, [a])];
    Extend(s, r2, Decide(0));
    var r3 := r2 + [Decide(0)];
    Extend(s, r3, Create(1, Read));
    var r4 := r3 + [Create(1, Read)];
    Extend(s, r4, GetChildren(1, [a, b]));
    var r5 := r4 + [GetChildren(1, [a, b])];
    Extend(s, r5, Decide(1));
    actions := r5 + [Decide(1)];
    var t := Run(s, actions);
    assert t.clients[0] == Holding(a) && t.clients[1] == Holding(b);
  }

  lemma SmallestComesFirst(ord: Order, nodes: set<Node>, l: seq<Node>, m: Node)
    requires Smallest(ord, nodes, m) && Sorted(ord, l) && Lists(l, nodes)
    ensures m in l && Target(l, m) == None
  {
    assert m in l && l[0] in l;
    if l[0] != m {
      BeforeIsAsymmetric(ord, m, l[0]);
    }
  }

  /** So no reachable state is stuck: if anybody has a node, somebody can get the lock, or has it. */
  lemma SomebodyCanAcquire(ord: Order, n: nat, actions: seq<Action>)
    requires CanRun(Init(ord, n), actions) && Run(Init(ord, n), actions).nodes != {}
    ensures exists c: nat :: c < |Run(Init(ord, n), actions).clients| && HasNode(Run(Init(ord, n), actions).clients[c])
              && CanAcquire(Run(Init(ord, n), actions), c)
  {
    hide CanRun, Run, CanAcquire;
    InitInv(ord, n);
    RunKeepsInv(Init(ord, n), actions);
    var s := Run(Init(ord, n), actions);
    var m := SmallestExists(s.ord, s.nodes);
    assert Owned(s, m);
    var c :| 0 <= c < |s.clients| && HasNode(s.clients[c]) && s.clients[c].me == m;
    SmallestAcquires(s, c);
  }

  /** Session `c` waits for the node of session `d`. */
  predicate WaitsFor(s: Lock, c: nat, d: nat) {
    c < |s.clients| && d < |s.clients| && s.clients[c].Waiting? && HasNode(s.clients[d])
    && s.clients[d].me == s.clients[c].target
  }

  /** The wait-for relation has no cycle. */
  lemma {:induction false} WaitingIsAcyclic(s: Lock, chain: seq<nat>)
    requires Inv(s) && |chain| >= 2 && forall i :: 0 <= i < |chain| - 1 ==> WaitsFor(s, chain[i], chain[i + 1])
    ensures var first, last := chain[0], chain[|chain| - 1];
      && first < |s.clients| && last < |s.clients| && HasNode(s.clients[first]) && HasNode(s.clients[last])
      && Before(s.ord, s.clients[last].me, s.clients[first].me) && first != last
  {
    hide Ownership, InTurn;
    assert WaitsFor(s, chain[0], chain[1]);
    if |chain| > 2 {
      var rest := chain[1..];
      forall i | 0 <= i < |rest| - 1 ensures WaitsFor(s, rest[i], rest[i + 1]) {
        assert WaitsFor(s, chain[i + 1], chain[i + 2]);
      }
      WaitingIsAcyclic(s, rest);
      BeforeIsTransitive(s.ord, s.clients[chain[|chain| - 1]].me, s.clients[chain[1]].me, s.clients[chain[0]].me);
    }
  }
}
