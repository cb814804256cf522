/** From `Connection::send` on any thread to the socket: task queue, eventfd, output buffer, partial writes. One IO
    thread with its connections, and any number of sending threads. */
module SendPath {
  import opened Wrappers
  import opened Bytes

  /** The bits of an epoll mask that the source names, and the two that epoll reports unasked; a mask is the set of
      those that are on. */
  datatype Event = EPOLLIN | EPOLLPRI | EPOLLOUT | EPOLLET | EPOLLRDHUP | EPOLLERR | EPOLLHUP

  type Mask = set<Event>

  const EVENTFD_MAX := 0xffff_ffff_ffff_fffe

  /** `Channel`: its interest mask, its belief to be in the epoll set, and the mask the kernel has for it, if any. */
  datatype Channel = Channel(events: Mask, inEpoll: bool, kernel: Option<Mask>)

  /** `Epoll::updatechannel`; `None` is its `exit(-1)`: a modification of a descriptor that is not in the set, or an
      addition of one that is. */
  function Updated(ch: Channel): Option<Channel> {
    if ch.inEpoll != ch.kernel.Some? then None
    else Some(ch.(inEpoll := true, kernel := Some(ch.events)))
  }

  function EnableWriting(ch: Channel): Option<Channel> {
    Updated(ch.(events := ch.events + {EPOLLOUT}))
  }

  function DisableWriting(ch: Channel): Option<Channel> {
    Updated(ch.(events := ch.events - {EPOLLOUT}))
  }

  /** `remove`: clear the mask, then take the descriptor out. The channel goes on believing it is in. */
  function Removed(ch: Channel): Option<Channel> {
    match Updated(ch.(events := {}))
    case None => None
    case Some(ch') => Some(ch'.(kernel := None))
  }

  predicate WatchesOut(ch: Channel) {
    ch.kernel.Some? && EPOLLOUT in ch.kernel.value
  }

  /** A connection as the IO thread knows it: unsent bytes, bytes the kernel has accepted, channel, `disconnect_`. */
  datatype Conn = Conn(out: seq<byte>, accepted: seq<byte>, channel: Channel, disconnected: bool)

  const NEW_CONN := Conn([], [], Channel({EPOLLET, EPOLLIN}, true, Some({EPOLLET, EPOLLIN})), false)

  /** A `sendinloop` with its own copy of the data, from a worker or from the IO thread itself. */
  datatype Send = Send(conn: nat, data: seq<byte>, fromWorker: bool)

  datatype Handler = Resting | HasRead

  /** `checked` holds sends past the test of `disconnect_`, `unsignalled` counts producers between push and eventfd
      write; `exited` says that the process is gone. The last three are history: `submitted` has the workers' sends as
      they are pushed, `called` those and the IO thread's own, `executed` all as they reach the output buffer. */
  datatype Io = Io(
    conns: seq<Conn>, queue: seq<Send>, counter: nat, checked: multiset<Send>, unsignalled: nat, handler: Handler,
    exited: bool, submitted: seq<Send>, called: seq<Send>, executed: seq<Send>)

  function Init(n: nat): Io {
    Io(seq(n, _ => NEW_CONN), [], 0, multiset{}, 0, Resting, false, [], [], [])
  }

  datatype Action =
    | Check(conn: nat, data: seq<byte>)
    | Push(send: Send)
    | Wake
    | ReadCounter
    | Drain
    | SendHere(conn: nat, data: seq<byte>)
    | Writable(conn: nat, n: nat)
    | Close(conn: nat)

  predicate Enabled(s: Io, a: Action) {
    && !s.exited
    && match a
       case Check(c, data) => c < |s.conns|
       case Push(x) => x in s.checked
       case Wake => s.unsignalled > 0
       case ReadCounter => s.counter > 0 && s.handler.Resting?
       case Drain => s.handler.HasRead?
       case SendHere(c, data) => c < |s.conns| && s.handler.Resting?
       case Writable(c, n) =>
         c < |s.conns| && s.handler.Resting? && WatchesOut(s.conns[c].channel) && n <= |s.conns[c].out|
       case Close(c) => c < |s.conns| && s.handler.Resting? && s.conns[c].channel.kernel.Some?
  }

  function SetChannel(s: Io, c: nat, ch: Option<Channel>): Io
    requires c < |s.conns|
  {
    if ch.Some? then s.(conns := s.conns[c := s.conns[c].(channel := ch.value)]) else s.(exited := true)
  }

  /** `sendinloop`. */
  function SendInLoop(s: Io, x: Send): Io
    requires x.conn < |s.conns|
  {
    var c := s.conns[x.conn];
    var s := s.(conns := s.conns[x.conn := c.(out := c.out + x.data)], executed := s.executed + [x]);
    SetChannel(s, x.conn, EnableWriting(c.channel))
  }

  /** The drain loop, which holds the queue's mutex to the end. */
  function DrainAll(s: Io): Io
    decreases |s.queue|
  {
    if s.queue == [] || s.exited || s.queue[0].conn >= |s.conns| then s
    else DrainAll(SendInLoop(s.(queue := s.queue[1..]), s.queue[0]))
  }

  /** `writecallback`, when the kernel takes `n` bytes: none after an error. */
  function AfterWritable(s: Io, c: nat, n: nat): Io
    requires c < |s.conns| && n <= |s.conns[c].out|
  {
    var conn := s.conns[c];
    var s := s.(conns := s.conns[c := conn.(out := conn.out[n..], accepted := conn.accepted + conn.out[..n])]);
    if conn.out[n..] == [] then SetChannel(s, c, DisableWriting(conn.channel)) else s
  }

  function Apply(s: Io, a: Action): Io
    requires Enabled(s, a)
  {
    match a
    case Check(c, data) =>
      if s.conns[c].disconnected then s else s.(checked := s.checked + multiset{Send(c, data, true)})
    case Push(x) =>
      s.(checked := s.checked - multiset{x}, queue := s.queue + [x], submitted := s.submitted + [x],
         called := s.called + [x], unsignalled := s.unsignalled + 1)
    case Wake =>
      s.(unsignalled := s.unsignalled - 1, counter := if s.counter < EVENTFD_MAX then s.counter + 1 else s.counter)
    case ReadCounter => s.(counter := 0, handler := HasRead)
    case Drain => DrainAll(s).(handler := Resting)
    case SendHere(c, data) =>
      if s.conns[c].disconnected then s
      else SendInLoop(s.(called := s.called + [Send(c, data, false)]), Send(c, data, false))
    case Writable(c, n) => AfterWritable(s, c, n)
    case Close(c) =>
      SetChannel(s.(conns := s.conns[c := s.conns[c].(disconnected := true)]), c, Removed(s.conns[c].channel))
  }

  predicate CanRun(s: Io, actions: seq<Action>)
    decreases |actions|
  {
    actions == [] || (Enabled(s, actions[0]) && CanRun(Apply(s, actions[0]), actions[1..]))
  }

  function Run(s: Io, actions: seq<Action>): Io
    requires CanRun(s, actions)
    decreases |actions|
  {
    if actions == [] then s else Run(Apply(s, actions[0]), actions[1..])
  }

  // ------------------------------------------------------------------ invariants

  function BytesFor(c: nat, sends: seq<Send>): seq<byte> {
    if sends == [] then []
    else
      var last := sends[|sends| - 1];
      BytesFor(c, sends[..|sends| - 1]) + if last.conn == c then last.data else []
  }

  function FromWorkers(sends: seq<Send>): seq<Send> {
    if sends == [] then []
    else
      var last := sends[|sends| - 1];
      FromWorkers(sends[..|sends| - 1]) + if last.fromWorker then [last] else []
  }

  lemma BytesForLast(c: nat, sends: seq<Send>, x: Send)
    ensures BytesFor(c, sends + [x]) == BytesFor(c, sends) + if x.conn == c then x.data else []
  {
    assert (sends + [x])[..|sends|] == sends;
  }

  lemma FromWorkersLast(sends: seq<Send>, x: Send)
    ensures FromWorkers(sends + [x]) == FromWorkers(sends) + if x.fromWorker then [x] else []
  {
    assert (sends + [x])[..|sends|] == sends;
  }

  lemma {:induction false} BytesForAppend(c: nat, a: seq<Send>, b: seq<Send>)
    ensures BytesFor(c, a + b) == BytesFor(c, a) + BytesFor(c, b)
  {
    if b == [] {
      assert a + b == a;
    } else {
      var n := |b| - 1;
      assert a + b == (a + b[..n]) + [b[n]] && b == b[..n] + [b[n]];
      BytesForLast(c, a + b[..n], b[n]);
      BytesForLast(c, b[..n], b[n]);
      BytesForAppend(c, a, b[..n]);
    }
  }

  /** Every byte handed to `sendinloop` is with the kernel or in the output buffer, in order. */
  predicate Streams(s: Io) {
    forall c: nat :: c < |s.conns| ==> s.conns[c].accepted + s.conns[c].out == BytesFor(c, s.executed)
  }

  /** What workers pushed has been executed or is queued, in order. */
  predicate Queued(s: Io) {
    && FromWorkers(s.executed) + s.queue == s.submitted
    && (forall x :: x in s.queue ==> x.conn < |s.conns| && x.fromWorker)
    && (forall x :: x in s.checked ==> x.conn < |s.conns| && x.fromWorker)
  }

  /** A queued task has, or is about to get, the IO thread's attention. */
  predicate Noticed(s: Io) {
    s.queue != [] && !s.exited ==> s.counter > 0 || s.unsignalled > 0 || s.handler.HasRead?
  }

  /** The kernel's mask is the channel's, unsent bytes are watched for, and only a closed connection is not watched. */
  predicate Watched(s: Io) {
    forall c: nat :: c < |s.conns| && !s.exited ==>
      var conn := s.conns[c];
      && conn.channel.inEpoll && conn.channel.events <= {EPOLLIN, EPOLLOUT, EPOLLET}
      && (conn.disconnected <==> conn.channel.kernel == None)
      && (conn.channel.kernel.Some? ==>
            && conn.channel.kernel.value == conn.channel.events && {EPOLLIN, EPOLLET} <= conn.channel.events
            && (conn.out != [] ==> EPOLLOUT in conn.channel.events))
  }

  predicate Inv(s: Io) {
    Streams(s) && Queued(s) && Noticed(s) && Watched(s)
  }

  lemma SendKeepsInv(s: Io, x: Send)
    requires Streams(s) && Watched(s) && x.conn < |s.conns| && !s.exited
    ensures var t := SendInLoop(s, x);
      && Streams(t) && Watched(t) && |t.conns| == |s.conns| && t.executed == s.executed + [x]
      && (t.exited <==> s.conns[x.conn].channel.kernel == None)
      && (forall c: nat :: c < |s.conns| ==> (t.conns[c].channel.kernel == None <==> s.conns[c].channel.kernel == None))
  {
    var t := SendInLoop(s, x);
    forall c: nat | c < |t.conns| ensures t.conns[c].accepted + t.conns[c].out == BytesFor(c, t.executed) {
      BytesForLast(c, s.executed, x);
    }
  }

  /** One turn of the drain loop. */
  lemma TurnKeepsInv(s: Io)
    requires Streams(s) && Queued(s) && Watched(s) && !s.exited && s.queue != []
    ensures var x, t := s.queue[0], SendInLoop(s.(queue := s.queue[1..]), s.queue[0]);
      && Streams(t) && Queued(t) && Watched(t) && |t.conns| == |s.conns| && t.queue == s.queue[1..]
      && (t.exited <==> s.conns[x.conn].channel.kernel == None)
      && (forall c: nat :: c < |s.conns| ==> (t.conns[c].channel.kernel == None <==> s.conns[c].channel.kernel == None))
      && t.counter == s.counter && t.unsignalled == s.unsignalled && t.submitted == s.submitted
      && t.checked == s.checked
  {
    hide BytesFor, FromWorkers;
    var x := s.queue[0];
    assert x in s.queue && s.queue == [x] + s.queue[1..];
    var popped := s.(queue := s.queue[1..]);
    SendKeepsInv(popped, x);
    FromWorkersLast(s.executed, x);
    assert FromWorkers(s.executed + [x]) + s.queue[1..] == FromWorkers(s.executed) + s.queue;
  }

  predicate Aimed(s: Io) {
    forall x :: x in s.queue ==> x.conn < |s.conns|
  }

  lemma QueuedIsAimed(s: Io)
    requires Queued(s)
    ensures Aimed(s)
  {
  }

  /** The drain loop ends in exit exactly when some queued send is for a connection that has been closed; otherwise it
      empties the queue. */
  lemma {:induction false} DrainKeepsInv(s: Io)
    requires Streams(s) && Queued(s) && Watched(s) && !s.exited
    ensures Aimed(s)
    ensures var t := DrainAll(s);
      && Streams(t) && Queued(t) && Watched(t) && |t.conns| == |s.conns|
      && (t.exited <==> exists x :: x in s.queue && s.conns[x.conn].channel.kernel == None)
      && (!t.exited ==> t.queue == [])
      && t.counter == s.counter && t.unsignalled == s.unsignalled && t.submitted == s.submitted
      && t.checked == s.checked
    decreases |s.queue|
  {
    hide Streams, Queued, Watched, SendInLoop;
    QueuedIsAimed(s);
    if s.queue != [] {
      var x := s.queue[0];
      assert x in s.queue && s.queue == [x] + s.queue[1..];
      TurnKeepsInv(s);
      var t := SendInLoop(s.(queue := s.queue[1..]), x);
      if !t.exited {
        DrainKeepsInv(t);
      } else {
        assert DrainAll(s) == t;
      }
    }
  }

  lemma WritableKeepsInv(s: Io, c: nat, n: nat)
    requires Inv(s) && Enabled(s, Writable(c, n))
    ensures Inv(AfterWritable(s, c, n)) && !AfterWritable(s, c, n).exited
    ensures var conn, conn' := s.conns[c], AfterWritable(s, c, n).conns[c];
      && conn'.accepted == conn.accepted + conn.out[..n] && conn'.out == conn.out[n..] && conn'.channel.kernel.Some?
      && conn'.channel.kernel.value == if conn.out[n..] == [] then {EPOLLIN, EPOLLET} else {EPOLLIN, EPOLLET, EPOLLOUT}
    ensures forall d: nat :: d < |s.conns| && d != c ==> AfterWritable(s, c, n).conns[d] == s.conns[d]
  {
    hide BytesFor, FromWorkers;
    var out := s.conns[c].out;
    assert s.conns[c].accepted + out == (s.conns[c].accepted + out[..n]) + out[n..];
  }

  lemma CloseKeepsInv(s: Io, c: nat)
    requires Inv(s) && Enabled(s, Close(c))
    ensures Inv(Apply(s, Close(c))) && !Apply(s, Close(c)).exited
  {
    hide BytesFor, FromWorkers;
  }

  lemma ProducerKeepsInv(s: Io, a: Action)
    requires Inv(s) && Enabled(s, a) && (a.Check? || a.Push? || a.Wake? || a.ReadCounter?)
    ensures Inv(Apply(s, a)) && !Apply(s, a).exited
  {
    hide BytesFor, FromWorkers, Streams, Watched;
    var t := Apply(s, a);
    assert Streams(t) by {
      SameConnections(s, t);
    }
    assert Watched(t) by {
      SameConnections(s, t);
    }
  }

  lemma SameConnections(s: Io, t: Io)
    requires Streams(s) && Watched(s) && t.conns == s.conns && t.executed == s.executed && t.exited == s.exited
    ensures Streams(t) && Watched(t)
  {
  }

  lemma SendHereKeepsInv(s: Io, c: nat, data: seq<byte>)
    requires Inv(s) && Enabled(s, SendHere(c, data))
    ensures Inv(Apply(s, SendHere(c, data))) && !Apply(s, SendHere(c, data)).exited
  {
    hide BytesFor, FromWorkers, Streams;
    var x := Send(c, data, false);
    if !s.conns[c].disconnected {
      SameConnections(s, s.(called := s.called + [x]));
      SendKeepsInv(s.(called := s.called + [x]), x);
      FromWorkersLast(s.executed, x);
    }
  }

  lemma StepKeepsInv(s: Io, a: Action)
    requires Inv(s) && Enabled(s, a)
    ensures Inv(Apply(s, a))
    ensures Apply(s, a).exited ==> a.Drain? && exists x :: x in s.queue && s.conns[x.conn].disconnected
  {
    match a
    case Drain => DrainKeepsInv(s);
    case SendHere(c, data) => SendHereKeepsInv(s, c, data);
    case Writable(c, n) => WritableKeepsInv(s, c, n);
    case Close(c) => CloseKeepsInv(s, c);
    case _ => ProducerKeepsInv(s, a);
  }

  lemma InitInv(n: nat)
    ensures Inv(Init(n))
  {
  }

  lemma {:induction false} RunKeepsInv(s: Io, actions: seq<Action>)
    requires Inv(s) && CanRun(s, actions)
    ensures Inv(Run(s, actions))
    decreases |actions|
  {
    hide Inv, Enabled, Apply;
    if actions != [] {
      StepKeepsInv(s, actions[0]);
      RunKeepsInv(Apply(s, actions[0]), actions[1..]);
    }
  }
}
