/** Connection and event loop as the objects they are, on the path between `send` and the socket. */
module ConnectionClass {
  import opened Wrappers
  import opened Bytes
  import opened SendPath
  import opened SendPathRuns
  import StreamBuffer

  /** What one `recv` on the non-blocking socket comes to. */
  datatype Recv = Data(bytes: seq<byte>) | Interrupted | WouldBlock | PeerClosed | OtherError

  /** The receive loop on a buffer without separator: what is left in it, the message handed over if any, and whether
      the peer was found to have closed. Errors other than "would block" only make it try again. */
  datatype Received = Received(buffer: seq<byte>, message: Option<seq<byte>>, closed: bool)

  function Reading(buffer: seq<byte>, events: seq<Recv>): Received
    decreases |events|
  {
    if events == [] then Received(buffer, None, false)
    else match events[0]
      case Data(bytes) => Reading(StreamBuffer.Appended(StreamBuffer.MAX_BUF_SIZE, buffer, bytes), events[1..])
      case WouldBlock => if buffer == [] then Received(buffer, None, false) else Received([], Some(buffer), false)
      case PeerClosed => Received(buffer, None, true)
      case _ => Reading(buffer, events[1..])
  }

  /** The bytes a burst delivers before it ends. */
  function Delivered(events: seq<Recv>): seq<byte> {
    if events == [] || events[0].WouldBlock? || events[0].PeerClosed? then []
    else (if events[0].Data? then events[0].bytes else []) + Delivered(events[1..])
  }

  function Ending(events: seq<Recv>): Option<Recv> {
    if events == [] then None
    else if events[0].WouldBlock? || events[0].PeerClosed? then Some(events[0])
    else Ending(events[1..])
  }

  /** A burst as it was meant: one message of all that was left and all that came, if it ends in "would block"; a burst
      that ends with the peer's close hands over nothing. */
  function Whole(buffer: seq<byte>, events: seq<Recv>): Received {
    var all := buffer + Delivered(events);
    match Ending(events)
    case Some(WouldBlock) => Received([], if all == [] then None else Some(all), false)
    case Some(_) => Received(all, None, true)
    case None => Received(all, None, false)
  }

  lemma {:induction false} BurstIsOneMessage(buffer: seq<byte>, events: seq<Recv>)
    requires |buffer| + |Delivered(events)| <= StreamBuffer.MAX_BUF_SIZE
    ensures Reading(buffer, events) == Whole(buffer, events)
    decreases |events|
  {
    if events == [] || events[0].WouldBlock? || events[0].PeerClosed? {
      assert buffer + [] == buffer;
    } else {
      var bytes := if events[0].Data? then events[0].bytes else [];
      assert Delivered(events) == bytes + Delivered(events[1..]);
      assert (buffer + bytes) + Delivered(events[1..]) == buffer + Delivered(events);
      StreamBuffer.AppendKeepsExactly(StreamBuffer.MAX_BUF_SIZE, buffer, bytes);
      assert Reading(buffer, events) == Reading(buffer + bytes, events[1..]) by {
        assert events[0].Data? || buffer + bytes == buffer;
      }
      BurstIsOneMessage(buffer + bytes, events[1..]);
    }
  }

  lemma {:induction false} ReadingFits(buffer: seq<byte>, events: seq<Recv>)
    requires |buffer| <= StreamBuffer.MAX_BUF_SIZE
    ensures var r := Reading(buffer, events);
      |r.buffer| <= StreamBuffer.MAX_BUF_SIZE && (r.message.Some? ==> |r.message.value| <= StreamBuffer.MAX_BUF_SIZE)
    decreases |events|
  {
    if events != [] && !events[0].WouldBlock? && !events[0].PeerClosed? {
      var next := if events[0].Data?
                  then StreamBuffer.Appended(StreamBuffer.MAX_BUF_SIZE, buffer, events[0].bytes) else buffer;
      ReadingFits(next, events[1..]);
    }
  }

  /** However the kernel cuts a burst up and whatever interrupts it, it arrives whole exactly if the buffer has room for
      all of it; otherwise pieces of it are missing. */
  lemma BurstArrivesExactly(buffer: seq<byte>, events: seq<Recv>)
    requires |buffer| <= StreamBuffer.MAX_BUF_SIZE
    ensures Reading(buffer, events) == Whole(buffer, events)
            <==> |buffer| + |Delivered(events)| <= StreamBuffer.MAX_BUF_SIZE
  {
    if |buffer| + |Delivered(events)| <= StreamBuffer.MAX_BUF_SIZE {
      BurstIsOneMessage(buffer, events);
    } else {
      ReadingFits(buffer, events);
      assert |buffer + Delivered(events)| == |buffer| + |Delivered(events)|;
    }
  }

  class Connection {
    // The contents of outputbuffer_ and inputbuffer_, which have no separator, and what the socket has taken.
    var outputbuffer: seq<byte>
    var inputbuffer: seq<byte>
    var accepted: seq<byte>
    var channel: Channel
    var disconnect: bool

    constructor ()
      ensures View() == NEW_CONN && inputbuffer == []
    {
      outputbuffer, inputbuffer, accepted, disconnect := [], [], [], false;
      channel := NEW_CONN.channel;
    }

    function View(): Conn
      reads this
    {
      Conn(outputbuffer, accepted, channel, disconnect)
    }

    /** Every channel operation goes through `Epoll`; not ok is its `exit(-1)`. */
    method UpdateChannel(ch: Option<Channel>) returns (ok: bool)
      modifies this`channel
      ensures ok == ch.Some? && channel == if ok then ch.value else old(channel)
    {
      if ch == None {
        return false;
      }
      channel := ch.value;
      return true;
    }

    method sendinloop(data: seq<byte>) returns (ok: bool)
      modifies this`outputbuffer, this`channel
      ensures outputbuffer == old(outputbuffer) + data
      ensures ok == EnableWriting(old(channel)).Some?
      ensures ok ==> channel.events == old(channel.events) + {EPOLLOUT} && channel.kernel == Some(channel.events)
      ensures channel == if ok then EnableWriting(old(channel)).value else old(channel)
    {
      outputbuffer := outputbuffer + data;
      ok := UpdateChannel(EnableWriting(channel));
    }

    /** `writen` is what `::send` returns: how many bytes the kernel took, or -1. */
    method writecallback(writen: int) returns (ok: bool)
      requires writen <= |outputbuffer|
      modifies this`outputbuffer, this`accepted, this`channel
      ensures var n := if writen > 0 then writen else 0;
        && outputbuffer == old(outputbuffer)[n..] && accepted == old(accepted) + old(outputbuffer)[..n]
        && ok == (outputbuffer != [] || DisableWriting(old(channel)).Some?)
        && channel == if outputbuffer == [] && ok then DisableWriting(old(channel)).value else old(channel)
      ensures outputbuffer == [] && ok ==>
        channel.events == old(channel.events) - {EPOLLOUT} && channel.kernel == Some(channel.events)
    {
      ok := true;
      if writen > 0 {
        accepted := accepted + outputbuffer[..writen];
        outputbuffer := outputbuffer[writen..];
      }
      if outputbuffer == [] {
        ok := UpdateChannel(DisableWriting(channel));
      }
    }

    method closecallback() returns (ok: bool)
      modifies this`disconnect, this`channel
      ensures disconnect && ok == Removed(old(channel)).Some?
      ensures channel == if ok then Removed(old(channel)).value else old(channel)
    {
      disconnect := true;
      ok := UpdateChannel(Removed(channel));
    }

    /** `events` are the results of the successive `recv` calls; not ok is an `exit(-1)` in the close callback. */
    method onmessagecallback(events: seq<Recv>) returns (messages: seq<seq<byte>>, closed: bool, ok: bool)
      modifies this`inputbuffer, this`disconnect, this`channel
      ensures if closed then disconnect && ok == Removed(old(channel)).Some?
                             && channel == if ok then Removed(old(channel)).value else old(channel)
              else disconnect == old(disconnect) && channel == old(channel) && ok
      ensures var r := Reading(old(inputbuffer), events);
        && inputbuffer == r.buffer && closed == r.closed
        && messages == match r.message case None => [] case Some(m) => [m]
    {
      messages, closed, ok := [], false, true;
      var i := 0;
      while i < |events|
        invariant i <= |events| && messages == [] && !closed && ok
        invariant disconnect == old(disconnect) && channel == old(channel)
        invariant Reading(old(inputbuffer), events) == Reading(inputbuffer, events[i..])
        decreases |events| - i
      {
        assert events[i..][0] == events[i] && events[i..][1..] == events[i + 1..];
        match events[i] {
        case Data(bytes) =>
          inputbuffer := StreamBuffer.Appended(StreamBuffer.MAX_BUF_SIZE, inputbuffer, bytes);
        case WouldBlock =>
          while true
            invariant (messages == [] || inputbuffer == []) && ok && !closed
            invariant disconnect == old(disconnect) && channel == old(channel)
            invariant Reading(old(inputbuffer), events).closed == false
            invariant Reading(old(inputbuffer), events).buffer == []
            invariant Reading(old(inputbuffer), events).message
              == if inputbuffer != [] then Some(inputbuffer) else if messages == [] then None else Some(messages[0])
            invariant |messages| <= 1
            decreases |inputbuffer|
          {
            match StreamBuffer.Picked(0, inputbuffer)
            case Nothing => return;
            case Message(text, rest) =>
              inputbuffer := rest;
              messages := messages + [text];
          }
        case PeerClosed =>
          closed := true;
          ok := closecallback();
          return;
        case _ =>
        }
        i := i + 1;
      }
      assert events[i..] == [];
    }
  }

  class EventLoop {
    var conns: seq<Connection>
    var taskqueue: seq<Send>
    var wakecounter: nat
    var handler: Handler
    var exited: bool
    // Producers on their way, and history.
    ghost var checked: multiset<Send>
    ghost var unsignalled: nat
    ghost var submitted: seq<Send>
    ghost var called: seq<Send>
    ghost var executed: seq<Send>

    ghost predicate Separate()
      reads this
    {
      forall i, j :: 0 <= i < j < |conns| ==> conns[i] != conns[j]
    }

    ghost function Views(): (vs: seq<Conn>)
      reads this, conns
      ensures |vs| == |conns| && forall k :: 0 <= k < |conns| ==> vs[k] == conns[k].View()
    {
      seq(|conns|, k requires 0 <= k < |conns| reads this, conns => conns[k].View())
    }

    ghost function View(): Io
      reads this, conns
    {
      Io(Views(), taskqueue, wakecounter, checked, unsignalled, handler, exited, submitted, called, executed)
    }

    /** `Connection::send`, with no other thread in between: on the IO thread it appends to the output buffer at once,
        on any other it queues the task and wakes the IO thread up. Either way the data is copied now. */
    method send(c: nat, data: array<byte>, size: nat, isinloopthread: bool)
      requires Separate() && !exited && size <= data.Length && c < |conns| && (isinloopthread ==> handler.Resting?)
      modifies this`called, this`submitted, this`taskqueue, this`wakecounter, this`executed, this`exited, conns
      ensures CanRun(old(View()), SendSteps(old(View()), c, old(data[..size]), isinloopthread))
      ensures View() == Run(old(View()), SendSteps(old(View()), c, old(data[..size]), isinloopthread))
    {
      ghost var s := View();
      SendRuns(s, c, data[..size], isinloopthread);
      hide CanRun, Run, SendSteps, SendInLoop;
      if conns[c].disconnect {
        return;
      }
      var temp := data[..size];
      if isinloopthread {
        SendHereNow(Send(c, temp, false));
      } else {
        queueinloop(Send(c, temp, true));
      }
    }

    method SendHereNow(x: Send)
      requires Separate() && x.conn < |conns| && !exited
      modifies conns, this`executed, this`exited, this`called
      ensures View() == SendInLoop(old(View()).(called := old(called) + [x]), x)
    {
      hide SendInLoop;
      called := called + [x];
      assert Views() == old(Views());
      assert View() == old(View()).(called := called);
      RunTask(x);
    }

    /** `queueinloop` and `wakeup`. */
    method queueinloop(fn: Send)
      modifies this`taskqueue, this`submitted, this`called, this`wakecounter
      ensures taskqueue == old(taskqueue) + [fn] && submitted == old(submitted) + [fn] && called == old(called) + [fn]
      ensures wakecounter == if old(wakecounter) < EVENTFD_MAX then old(wakecounter) + 1 else old(wakecounter)
    {
      submitted := submitted + [fn];
      called := called + [fn];
      taskqueue := taskqueue + [fn];
      if wakecounter < EVENTFD_MAX {
        wakecounter := wakecounter + 1;
      }
    }

    method RunTask(x: Send)
      requires Separate() && x.conn < |conns| && !exited
      modifies conns, this`executed, this`exited
      ensures View() == SendInLoop(old(View()), x)
    {
      hide EnableWriting;
      executed := executed + [x];
      var ok := conns[x.conn].sendinloop(x.data);
      exited := !ok;
      ghost var c := old(conns[x.conn].View());
      assert Views() == old(Views())[x.conn := conns[x.conn].View()];
    }

    /** `handlewakeup`, with no other thread in between: afterwards the counter is zero, and the queue is empty unless
        the process has ended. */
    method handlewakeup()
      requires Separate() && Enabled(View(), ReadCounter) && forall x :: x in taskqueue ==> x.conn < |conns|
      modifies this`taskqueue, this`executed, this`exited, this`handler, this`wakecounter, conns
      ensures CanRun(old(View()), [ReadCounter, Drain]) && View() == Run(old(View()), [ReadCounter, Drain])
      ensures wakecounter == 0 && (taskqueue == [] || exited)
    {
      hide CanRun, Run, DrainAll;
      ghost var s := View();
      wakecounter := 0;
      handler := HasRead;
      ghost var t := View();
      assert t == Apply(s, ReadCounter);
      draintasks();
      RunOne(t, Drain);
      RunCons(s, ReadCounter, [Drain]);
      assert [ReadCounter] + [Drain] == [ReadCounter, Drain];
      DrainEmpties(t);
    }

    /** The drain loop, which holds the queue's mutex to the end. */
    method draintasks()
      requires Separate() && Enabled(View(), Drain) && forall x :: x in taskqueue ==> x.conn < |conns|
      modifies this`taskqueue, this`executed, this`exited, this`handler, conns
      ensures View() == Apply(old(View()), Drain)
    {
      hide SendInLoop, DrainAll;
      ghost var all := DrainAll(View());
      while |taskqueue| > 0 && !exited
        invariant DrainAll(View()) == all
        invariant forall x :: x in taskqueue ==> x.conn < |conns|
        invariant handler.HasRead?
        decreases |taskqueue|
      {
        var fn := taskqueue[0];
        assert fn in taskqueue;
        assert forall x :: x in taskqueue[1..] ==> x in taskqueue;
        ghost var s := View();
        DrainStep(s);
        taskqueue := taskqueue[1..];
        assert View() == s.(queue := s.queue[1..]);
        RunTask(fn);
      }
      DrainEnd(View());
      handler := Resting;
    }
  }

  lemma DrainStep(s: Io)
    requires s.queue != [] && !s.exited && s.queue[0].conn < |s.conns|
    ensures DrainAll(s) == DrainAll(SendInLoop(s.(queue := s.queue[1..]), s.queue[0]))
  {
    hide SendInLoop;
  }

  lemma DrainEnd(s: Io)
    requires s.queue == [] || s.exited
    ensures DrainAll(s) == s
  {
  }

  lemma {:induction false} DrainEmpties(s: Io)
    requires forall x :: x in s.queue ==> x.conn < |s.conns|
    ensures (DrainAll(s).queue == [] || DrainAll(s).exited) && DrainAll(s).counter == s.counter
    decreases |s.queue|
  {
    if s.queue != [] && !s.exited {
      assert s.queue[0] in s.queue && forall x :: x in s.queue[1..] ==> x in s.queue;
      DrainEmpties(SendInLoop(s.(queue := s.queue[1..]), s.queue[0]));
    }
  }

  function SendSteps(s: Io, c: nat, data: seq<byte>, isinloopthread: bool): seq<Action>
    requires c < |s.conns|
  {
    if isinloopthread then [SendHere(c, data)]
    else if s.conns[c].disconnected then [Check(c, data)]
    else [Check(c, data), Push(Send(c, data, true)), Wake]
  }

  /** What these steps come to. */
  lemma SendRuns(s: Io, c: nat, data: seq<byte>, isinloopthread: bool)
    requires !s.exited && c < |s.conns| && (isinloopthread ==> s.handler.Resting?)
    ensures CanRun(s, SendSteps(s, c, data, isinloopthread))
    ensures var x := Send(c, data, !isinloopthread);
      Run(s, SendSteps(s, c, data, isinloopthread)) ==
        if s.conns[c].disconnected then s
        else if isinloopthread then SendInLoop(s.(called := s.called + [x]), x)
        else s.(queue := s.queue + [x], submitted := s.submitted + [x], called := s.called + [x],
                counter := if s.counter < EVENTFD_MAX then s.counter + 1 else s.counter)
  {
    hide CanRun, Run, SendInLoop;
    var steps := SendSteps(s, c, data, isinloopthread);
    if |steps| == 1 {
      RunOne(s, steps[0]);
    } else {
      var x := Send(c, data, true);
      var s1 := Apply(s, Check(c, data));
      assert s1.checked - multiset{x} == s.checked;
      var s2 := Apply(s1, Push(x));
      RunOne(s2, Wake);
      RunCons(s1, Push(x), [Wake]);
      RunCons(s, Check(c, data), [Push(x)] + [Wake]);
      assert [Check(c, data)] + ([Push(x)] + [Wake]) == steps;
    }
  }
}
