/** The sequential-node lock protocol: sessions that create ephemeral nodes, list them, and wait for a smaller one to
    go. The order in which a listing is sorted is a parameter. */
module ReadWriteLock {
  import opened Wrappers
  import opened Decimal

  datatype Kind = Read | Write

  /** A child of the lock node; `id` is the sequence number that the server appended. */
  datatype Node = Node(kind: Kind, id: nat)

  /** By creation, as the protocol is described, or by full name, as `std::sort` on the children's names has it. */
  datatype Order = BySequence | ByName

  predicate Before(ord: Order, a: Node, b: Node) {
    match ord
    case BySequence => a.id < b.id
    case ByName => if a.kind == b.kind then a.id < b.id else a.kind.Read?
  }

  predicate Sorted(ord: Order, l: seq<Node>) {
    forall i, j :: 0 <= i < j < |l| ==> Before(ord, l[i], l[j])
  }

  /** A session: outside, or with its node at one of the points of the acquire loop, holding the lock, or lost. */
  datatype Client =
    | Idle
    | Listing(me: Node)
    | Deciding(me: Node, listing: seq<Node>)
    | Watching(me: Node, target: Node)
    | Waiting(me: Node, target: Node)
    | Holding(me: Node)
    | Expired

  /** `nodes` are the live children; `acquired` is the history of writers that got the lock. */
  datatype Lock = Lock(ord: Order, counter: nat, nodes: set<Node>, clients: seq<Client>, acquired: seq<nat>)

  function Init(ord: Order, n: nat): Lock {
    Lock(ord, 0, {}, seq(n, _ => Idle), [])
  }

  datatype Action =
    | Create(c: nat, kind: Kind)
    | GetChildren(c: nat, listing: seq<Node>)
    | Decide(c: nat)
    | SetWatch(c: nat)
    | Wake(c: nat)
    | Unlock(c: nat)
    | Expire(c: nat)

  predicate HasNode(p: Client) {
    !p.Idle? && !p.Expired?
  }

  function IndexOf(l: seq<Node>, me: Node): (i: nat)
    requires me in l
    ensures i < |l| && l[i] == me && me !in l[..i]
  {
    if l[0] == me then 0 else 1 + IndexOf(l[1..], me)
  }

  /** The first writer in front of `me`. */
  function FirstWriter(l: seq<Node>, me: Node): (t: Option<Node>)
    ensures t.Some? ==> t.value in l && t.value.kind.Write? && t.value != me
  {
    if l == [] || l[0] == me then None
    else if l[0].kind.Write? then Some(l[0])
    else FirstWriter(l[1..], me)
  }

  /** Whom to wait for on seeing `l`: a writer for its predecessor, a reader for a writer in front of it. */
  function Target(l: seq<Node>, me: Node): (t: Option<Node>)
    requires me in l
  {
    if l[0] == me then None
    else if me.kind.Write? then Some(l[IndexOf(l, me) - 1])
    else FirstWriter(l, me)
  }

  predicate Lists(l: seq<Node>, nodes: set<Node>) {
    (forall n :: n in l ==> n in nodes) && (forall n :: n in nodes ==> n in l)
  }

  predicate Enabled(s: Lock, a: Action) {
    && a.c < |s.clients|
    && var p := s.clients[a.c];
       match a
       case Create(_, _) => p.Idle?
       case GetChildren(_, l) => p.Listing? && Sorted(s.ord, l) && Lists(l, s.nodes)
       case Decide(_) => p.Deciding? && p.me in p.listing
       case SetWatch(_) => p.Watching?
       case Wake(_) => p.Waiting? && p.target !in s.nodes
       case Unlock(_) => p.Holding?
       case Expire(_) => HasNode(p)
  }

  function Move(s: Lock, c: nat, p: Client): Lock
    requires c < |s.clients|
  {
    s.(clients := s.clients[c := p])
  }

  function Apply(s: Lock, a: Action): Lock
    requires Enabled(s, a)
  {
    var p := s.clients[a.c];
    match a
    case Create(c, kind) =>
      var me := Node(kind, s.counter);
      Move(s, c, Listing(me)).(counter := s.counter + 1, nodes := s.nodes + {me})
    case GetChildren(c, l) => Move(s, c, Deciding(p.me, l))
    case Decide(c) =>
      (match Target(p.listing, p.me)
       case None =>
         Move(s, c, Holding(p.me)).(acquired := if p.me.kind.Write? then s.acquired + [p.me.id] else s.acquired)
       case Some(t) => Move(s, c, Watching(p.me, t)))
    case SetWatch(c) => Move(s, c, if p.target in s.nodes then Waiting(p.me, p.target) else Listing(p.me))
    case Wake(c) => Move(s, c, Listing(p.me))
    case Unlock(c) => Move(s, c, Idle).(nodes := s.nodes - {p.me})
    case Expire(c) => Move(s, c, Expired).(nodes := s.nodes - {p.me})
  }

  predicate CanRun(s: Lock, actions: seq<Action>)
    decreases |actions|
  {
    actions == [] || (Enabled(s, actions[0]) && CanRun(Apply(s, actions[0]), actions[1..]))
  }

  function Run(s: Lock, actions: seq<Action>): Lock
    requires CanRun(s, actions)
    decreases |actions|
  {
    if actions == [] then s else Run(Apply(s, actions[0]), actions[1..])
  }

  // ------------------------------------------------------------------ names

  const SEQUENCE_WIDTH := 10

  /** "read_" or "write_" and ten digits. */
  function Name(n: Node): string {
    (if n.kind.Read? then "read_" else "write_") + Pad(n.id, SEQUENCE_WIDTH)
  }

  /** The string sort of the children is the order by name: all readers first, each kind in order of creation. */
  lemma NamesSortByName(a: Node, b: Node)
    requires a.id < Pow10(SEQUENCE_WIDTH) && b.id < Pow10(SEQUENCE_WIDTH)
    ensures LexLess(Name(a), Name(b)) <==> Before(ByName, a, b)
  {
    hide Pad, Pow10, Value;
    var x, y := Pad(a.id, SEQUENCE_WIDTH), Pad(b.id, SEQUENCE_WIDTH);
    if a.kind == b.kind {
      LexLessPrefix(if a.kind.Read? then "read_" else "write_", x, y);
      LexLessIsLess(x, y);
      ValuePad(a.id, SEQUENCE_WIDTH);
      ValuePad(b.id, SEQUENCE_WIDTH);
    } else {
      assert Name(Node(Read, a.id))[0] == 'r' && Name(Node(Write, a.id))[0] == 'w';
    }
  }

  // ------------------------------------------------------------------ nodes and watches

  /** A new node is numbered above every node there has been. */
  lemma CreateIsLast(s: Lock, c: nat, kind: Kind)
    requires Ownership(s) && Enabled(s, Create(c, kind))
    ensures var t := Apply(s, Create(c, kind)); var p := t.clients[c];
      && p.Listing? && p.me.kind == kind && p.me.id == s.counter && t.nodes == s.nodes + {p.me}
      && forall n :: n in s.nodes ==> n.id < p.me.id
  {
  }

  /** A session sleeps from the watch on, exactly if the awaited node is still there, and until it is deleted; nothing
      else wakes it. */
  lemma SleepsExactly(s: Lock, c: nat)
    requires c < |s.clients|
    ensures s.clients[c].Watching? ==> var p := s.clients[c];
      Enabled(s, SetWatch(c))
      && Apply(s, SetWatch(c)).clients[c] == if p.target in s.nodes then Waiting(p.me, p.target) else Listing(p.me)
    ensures s.clients[c].Waiting? ==>
      (Enabled(s, Wake(c)) <==> s.clients[c].target !in s.nodes) && !Enabled(s, SetWatch(c)) && !Enabled(s, Decide(c))
  {
  }

  // ------------------------------------------------------------------ invariant

  /** Each session's node is live, its own and numbered once; every live node has its session. */
  predicate Ownership(s: Lock) {
    && (forall n :: n in s.nodes ==> n.id < s.counter)
    && (forall a, b :: a in s.nodes && b in s.nodes && a.id == b.id ==> a == b)
    && (forall c :: 0 <= c < |s.clients| && HasNode(s.clients[c]) ==> s.clients[c].me in s.nodes)
    && (forall c, d :: 0 <= c < d < |s.clients| && HasNode(s.clients[c]) && HasNode(s.clients[d]) ==>
          s.clients[c].me != s.clients[d].me)
    && (forall n :: n in s.nodes ==> Owned(s, n))
  }

  predicate Owned(s: Lock, n: Node) {
    exists c :: 0 <= c < |s.clients| && HasNode(s.clients[c]) && s.clients[c].me == n
  }

  /** A live node that must not exist while `me` holds the lock: by sequence any earlier one if either writes, by name
      an earlier writer if both do. */
  predicate Conflicts(ord: Order, me: Node, n: Node) {
    n.id < me.id && match ord
      case BySequence => me.kind.Write? || n.kind.Write?
      case ByName => me.kind.Write? && n.kind.Write?
  }

  /** A listing may be stale, but it has every live node created before its owner. A holder has nothing in front. */
  predicate Positions(s: Lock) {
    forall c :: 0 <= c < |s.clients| ==>
      match s.clients[c]
      case Deciding(me, l) => Sorted(s.ord, l) && me in l && (forall n :: n in s.nodes && n.id < me.id ==> n in l)
      case Watching(me, t) => Before(s.ord, t, me)
      case Waiting(me, t) => Before(s.ord, t, me)
      case Holding(me) => forall n :: n in s.nodes ==> !Conflicts(s.ord, me, n)
      case _ => true
  }

  predicate YetToWrite(p: Client) {
    HasNode(p) && !p.Holding? && p.me.kind.Write?
  }

  /** Writers have acquired in order of creation, and those still to acquire come after them. */
  predicate InTurn(s: Lock) {
    && (forall i, j :: 0 <= i < j < |s.acquired| ==> s.acquired[i] < s.acquired[j])
    && (forall id :: id in s.acquired ==> id < s.counter)
    && (forall c, id :: 0 <= c < |s.clients| && YetToWrite(s.clients[c]) && id in s.acquired ==>
          id < s.clients[c].me.id)
  }

  predicate Inv(s: Lock) {
    Ownership(s) && Positions(s) && InTurn(s)
  }

  lemma {:induction false} FirstWriterNone(l: seq<Node>, me: Node, j: nat)
    requires me in l && FirstWriter(l, me) == None && j < IndexOf(l, me)
    ensures l[j].kind.Read?
  {
    if j > 0 {
      FirstWriterNone(l[1..], me, j - 1);
    }
  }

  lemma {:induction false} FirstWriterBefore(l: seq<Node>, me: Node)
    requires me in l && FirstWriter(l, me).Some?
    ensures FirstWriter(l, me).value in l[..IndexOf(l, me)]
  {
    if l[0].kind.Read? {
      FirstWriterBefore(l[1..], me);
      assert l[..IndexOf(l, me)] == [l[0]] + l[1..][..IndexOf(l[1..], me)];
    }
  }

  /** The node to wait for is in front of one's own. */
  lemma TargetIsBefore(ord: Order, l: seq<Node>, me: Node)
    requires Sorted(ord, l) && me in l && Target(l, me).Some?
    ensures Target(l, me).value in l && Before(ord, Target(l, me).value, me)
  {
    if me.kind.Read? {
      FirstWriterBefore(l, me);
    }
  }

  /** A session that waits for nobody has, in any listing with all earlier nodes, nothing in front that conflicts. */
  lemma NoTargetNoConflict(ord: Order, l: seq<Node>, me: Node, n: Node)
    requires Sorted(ord, l) && me in l && Target(l, me) == None
    requires n.id < me.id ==> n in l
    ensures !Conflicts(ord, me, n)
  {
    if Conflicts(ord, me, n) {
      var j :| 0 <= j < |l| && l[j] == n;
      var i := IndexOf(l, me);
      if j < i && me.kind.Read? {
        FirstWriterNone(l, me, j);
      }
    }
  }

  /** A step that leaves a session with the node it has. */
  lemma SameNode(s: Lock, t: Lock, c: nat)
    requires Ownership(s) && c < |s.clients| == |t.clients| && t.clients == s.clients[c := t.clients[c]]
    requires t.nodes == s.nodes && t.counter == s.counter
    requires HasNode(s.clients[c]) && HasNode(t.clients[c]) && t.clients[c].me == s.clients[c].me
    ensures Ownership(t)
  {
    forall n | n in t.nodes ensures Owned(t, n) {
      var d :| 0 <= d < |s.clients| && HasNode(s.clients[d]) && s.clients[d].me == n;
      assert HasNode(t.clients[d]) && t.clients[d].me == n;
    }
  }

  lemma KeepsOwnership(s: Lock, a: Action)
    requires Ownership(s) && Enabled(s, a)
    ensures Ownership(Apply(s, a))
  {
    hide Target, Sorted, Lists;
    var t := Apply(s, a);
    if a.Create? || a.Unlock? || a.Expire? {
      forall n | n in t.nodes ensures Owned(t, n) {
        if n in s.nodes {
          var c :| 0 <= c < |s.clients| && HasNode(s.clients[c]) && s.clients[c].me == n;
          assert HasNode(t.clients[c]) && t.clients[c].me == n;
        } else {
          assert HasNode(t.clients[a.c]) && t.clients[a.c].me == n;
        }
      }
    } else {
      SameNode(s, t, a.c);
    }
  }

  lemma KeepsPositions(s: Lock, a: Action)
    requires Ownership(s) && Positions(s) && Enabled(s, a)
    ensures Positions(Apply(s, a))
  {
    hide Target;
    var t := Apply(s, a);
    if a.Decide? {
      var me, l := s.clients[a.c].me, s.clients[a.c].listing;
      if Target(l, me).Some? {
        TargetIsBefore(s.ord, l, me);
      } else {
        forall n | n in s.nodes ensures !Conflicts(s.ord, me, n) {
          NoTargetNoConflict(s.ord, l, me, n);
        }
      }
    }
  }

  /** The step gives a writer the lock. */
  predicate Acquires(s: Lock, a: Action)
    requires Enabled(s, a)
  {
    a.Decide? && s.clients[a.c].me.kind.Write? && Target(s.clients[a.c].listing, s.clients[a.c].me) == None
  }

  /** What a step does to the history of acquisition and to the writers still to acquire. */
  lemma WriterMoves(s: Lock, a: Action)
    requires Enabled(s, a)
    ensures a.c < |s.clients| && (Acquires(s, a) ==> !a.Create?)
    ensures var t, p := Apply(s, a), s.clients[a.c];
      && t.acquired == (if Acquires(s, a) then s.acquired + [p.me.id] else s.acquired)
      && |t.clients| == |s.clients| && t.counter >= s.counter
      && (Acquires(s, a) ==> YetToWrite(p) && t.clients[a.c] == Holding(p.me) && t.nodes == s.nodes)
      && (forall c :: 0 <= c < |t.clients| && YetToWrite(t.clients[c]) ==>
            (a.Create? && t.clients[c].me.id == s.counter)
            || (YetToWrite(s.clients[c]) && s.clients[c].me == t.clients[c].me && !(Acquires(s, a) && c == a.c)))
  {
    hide Target, Sorted, Lists;
  }

  /** Who acquires comes after all who have. */
  lemma AcquiredInOrder(s: Lock, a: Action)
    requires Ownership(s) && InTurn(s) && Enabled(s, a)
    ensures var t := Apply(s, a);
      && (forall i, j :: 0 <= i < j < |t.acquired| ==> t.acquired[i] < t.acquired[j])
      && (forall id :: id in t.acquired ==> id < t.counter)
  {
    hide Enabled, Apply, Acquires;
    WriterMoves(s, a);
    if Acquires(s, a) {
      var p := s.clients[a.c];
      assert p.me in s.nodes;
      forall i | 0 <= i < |s.acquired| ensures s.acquired[i] < p.me.id {
        assert s.acquired[i] in s.acquired;
      }
    }
  }

  /** Who is still to acquire comes after who acquires now, since no earlier writer's node is left. */
  lemma WaitersComeAfter(s: Lock, a: Action, c: nat, id: nat)
    requires Inv(s) && Enabled(s, a) && Positions(Apply(s, a)) && c < |Apply(s, a).clients|
    requires YetToWrite(Apply(s, a).clients[c]) && id in Apply(s, a).acquired
    ensures id < Apply(s, a).clients[c].me.id
  {
    hide Enabled, Apply, Acquires;
    var t := Apply(s, a);
    WriterMoves(s, a);
    var n := t.clients[c].me;
    if !(a.Create? && n.id == s.counter) {
      assert s.clients[c].me == n && n in s.nodes;
      if Acquires(s, a) && id == s.clients[a.c].me.id {
        assert !Conflicts(s.ord, s.clients[a.c].me, n);
      }
    }
  }

  lemma KeepsInTurn(s: Lock, a: Action)
    requires Inv(s) && Enabled(s, a) && Positions(Apply(s, a))
    ensures InTurn(Apply(s, a))
  {
    hide Positions, Apply, Enabled;
    var t := Apply(s, a);
    AcquiredInOrder(s, a);
    forall c, id | 0 <= c < |t.clients| && YetToWrite(t.clients[c]) && id in t.acquired
      ensures id < t.clients[c].me.id
    {
      WaitersComeAfter(s, a, c, id);
    }
  }

  lemma StepKeepsInv(s: Lock, a: Action)
    requires Inv(s) && Enabled(s, a)
    ensures Inv(Apply(s, a))
  {
    hide Apply, Enabled;
    KeepsOwnership(s, a);
    KeepsPositions(s, a);
    KeepsInTurn(s, a);
  }

  lemma InitInv(ord: Order, n: nat)
    ensures Inv(Init(ord, n))
  {
  }

  lemma {:induction false} RunKeepsInv(s: Lock, actions: seq<Action>)
    requires Inv(s) && CanRun(s, actions)
    ensures Inv(Run(s, actions)) && Run(s, actions).ord == s.ord
    decreases |actions|
  {
    hide Inv, Enabled;
    if actions != [] {
      StepKeepsInv(s, actions[0]);
      RunKeepsInv(Apply(s, actions[0]), actions[1..]);
    }
  }
}
