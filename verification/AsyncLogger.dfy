/** The logger as the object it is, with buffers that are moved from hand to hand. Each method is the code between two
    points where the other side may run. */
module AsyncLoggerClass {
  import opened Wrappers
  import opened Bytes
  import opened AsyncLog
  import opened StreamBuffer

  ghost function One(b: Buffer?): set<Buffer> {
    if b == null then {} else {b}
  }

  ghost predicate Apart(a: Buffer?, b: Buffer?) {
    a == null || a != b
  }

  ghost predicate Outside(b: Buffer?, bs: seq<Buffer>) {
    b == null || b !in bs
  }

  ghost predicate Distinct(bs: seq<Buffer>) {
    forall i, j :: 0 <= i < j < |bs| ==> bs[i] != bs[j]
  }

  /** The six places of the logger hold different buffers, all with the logger's limit. */
  ghost predicate Placed(current: Buffer, next: Buffer?, full: seq<Buffer>, spare1: Buffer?, spare2: Buffer?,
                         batch: seq<Buffer>)
  {
    && Distinct(full) && Distinct(batch) && (forall b :: b in full ==> b !in batch)
    && Outside(current, full) && Outside(current, batch) && Outside(next, full) && Outside(next, batch)
    && Outside(spare1, full) && Outside(spare1, batch) && Outside(spare2, full) && Outside(spare2, batch)
    && Apart(current, next) && Apart(current, spare1) && Apart(current, spare2)
    && Apart(next, spare1) && Apart(next, spare2) && Apart(spare1, spare2)
    && current.maxLen == MAX_BUFF_SIZE && (next != null ==> next.maxLen == MAX_BUFF_SIZE)
    && (spare1 != null ==> spare1.maxLen == MAX_BUFF_SIZE) && (spare2 != null ==> spare2.maxLen == MAX_BUFF_SIZE)
    && (forall b :: b in full ==> b.maxLen == MAX_BUFF_SIZE) && (forall b :: b in batch ==> b.maxLen == MAX_BUFF_SIZE)
  }

  ghost function Contents(bs: seq<Buffer>): (cs: seq<seq<byte>>)
    reads bs
    ensures |cs| == |bs| && forall k :: 0 <= k < |bs| ==> cs[k] == bs[k].buf
  {
    seq(|bs|, k requires 0 <= k < |bs| reads bs => bs[k].buf)
  }

  ghost function Content(b: Buffer?): Option<seq<byte>>
    reads b
  {
    if b == null then None else Some(b.buf)
  }

  method FourBuffers() returns (a: Buffer, b: Buffer, c: Buffer, d: Buffer)
    ensures fresh({a, b, c, d}) && Placed(a, b, [], c, d, [])
    ensures a.buf == b.buf == c.buf == d.buf == []
  {
    a := new Buffer.Limited(MAX_BUFF_SIZE);
    b := new Buffer.Limited(MAX_BUFF_SIZE);
    c := new Buffer.Limited(MAX_BUFF_SIZE);
    d := new Buffer.Limited(MAX_BUFF_SIZE);
  }

  class AsyncLogger {
    var currentBuf: Buffer
    var nextBuf: Buffer?
    var buffers: seq<Buffer>
    var isRuning: bool
    // The locals of the writing thread, and what it has written.
    var newBuffer1: Buffer?
    var newBuffer2: Buffer?
    var buffersToWrite: seq<Buffer>
    var backend: Backend
    var file: seq<byte>
    // History.
    ghost var accepted: seq<byte>
    ghost var ledger: seq<Entry>

    /** The buffers in use. */
    ghost function Owned(): set<Buffer>
      reads this`currentBuf, this`nextBuf, this`newBuffer1, this`newBuffer2, this`buffers, this`buffersToWrite
    {
      {currentBuf} + One(nextBuf) + One(newBuffer1) + One(newBuffer2)
      + (set b | b in buffers) + (set b | b in buffersToWrite)
    }

    /** No buffer is in two places. */
    ghost predicate Owns()
      reads this`currentBuf, this`nextBuf, this`newBuffer1, this`newBuffer2, this`buffers, this`buffersToWrite
    {
      Placed(currentBuf, nextBuf, buffers, newBuffer1, newBuffer2, buffersToWrite)
    }

    ghost function View(): Log
      reads this, Owned()
    {
      Log(currentBuf.buf, Content(nextBuf), Contents(buffers), Content(newBuffer1), Content(newBuffer2),
          Contents(buffersToWrite), backend, isRuning, file, accepted, ledger, false)
    }

    ghost predicate Valid()
      reads this, Owned()
    {
      Owns() && Inv(View())
    }

    /** The object after `start` has returned. */
    constructor ()
      ensures Valid() && View() == START && fresh(Owned())
    {
      var c, n, b1, b2 := FourBuffers();
      currentBuf, nextBuf, buffers, isRuning := c, n, [], true;
      newBuffer1, newBuffer2, buffersToWrite, backend, file := b1, b2, [], AtTop, [];
      accepted, ledger := [], [];
      new;
      hide Inv, Owned, Placed;
      StartInv();
      Started();
    }

    lemma Started()
      requires buffers == [] && buffersToWrite == [] && nextBuf != null && newBuffer1 != null && newBuffer2 != null
      ensures Owned() == {currentBuf, nextBuf, newBuffer1, newBuffer2}
      ensures Contents(buffers) == [] && Contents(buffersToWrite) == []
    {
    }

    method PutLine(line: seq<byte>)
      requires Owns() && |currentBuf.buf| <= MAX_BUFF_SIZE
      modifies currentBuf
      ensures Owns() && View() == old(View()).(current := Put(old(currentBuf.buf), line))
    {
      hide Room;
      RoomIs(currentBuf.maxLen, |currentBuf.buf|);
      currentBuf.append(line);
      assert Contents(buffers) == old(Contents(buffers));
      assert Contents(buffersToWrite) == old(Contents(buffersToWrite));
    }

    /** The current buffer joins the full ones; the reserve buffer, or a new one, takes its place. */
    method Rotate()
      requires Owns()
      modifies this`currentBuf, this`nextBuf, this`buffers
      ensures Owns() && buffers == old(buffers) + [old(currentBuf)] && nextBuf == null
      ensures if old(nextBuf) != null then currentBuf == old(nextBuf) else fresh(currentBuf) && currentBuf.buf == []
    {
      buffers := buffers + [currentBuf];
      if nextBuf != null {
        currentBuf := nextBuf;
        nextBuf := null;
      } else {
        currentBuf := new Buffer.Limited(MAX_BUFF_SIZE);
      }
    }

    method RotateAndPut(line: seq<byte>)
      requires Owns() && (nextBuf != null ==> nextBuf.buf == [])
      modifies this`currentBuf, this`nextBuf, this`buffers, nextBuf
      ensures Owns() && forall b :: b in Owned() ==> b in old(Owned()) || fresh(b)
      ensures var s := old(View());
        View() == s.(full := s.full + [s.current], next := None, current := Put([], line))
    {
      Rotate();
      assert Contents(buffers) == old(Contents(buffers)) + [old(currentBuf.buf)];
      PutLine(line);
    }

    lemma CurrentLimit()
      requires Owns()
      ensures currentBuf.maxLen == MAX_BUFF_SIZE
    {
    }

    method append(logline: seq<byte>)
      requires Valid()
      modifies this, Owned()
      ensures Valid() && View() == AfterAppend(old(View()), logline)
      ensures forall b :: b in Owned() ==> b in old(Owned()) || fresh(b)
    {
      hide Inv, Placed, Room, Kept, Put;
      CurrentLimit();
      AppendKeepsInv(View(), logline);
      InvFits(View());
      RoomIs(currentBuf.maxLen, |currentBuf.buf|);
      accepted := accepted + Kept(logline);
      if currentBuf.avail() > |logline| {
        PutLine(logline);
      } else {
        RotateAndPut(logline);
      }
    }

    /** The loop test has found `isRuning_`, and the asserts behind it hold: that is part of the proof. */
    method EnterLoop()
      requires Valid() && backend.AtTop? && isRuning
      modifies this`backend
      ensures Valid() && View() == AfterEnter(old(View())) && backend.Waiting?
    {
      hide Inv;
      StepKeepsInv(View(), Enter);
      InvFits(View());
      assert newBuffer1 != null && newBuffer1.buf == [];
      assert newBuffer2 != null && newBuffer2.buf == [];
      assert buffersToWrite == [];
      backend := Waiting;
    }

    /** The critical section from the end of the wait on, whether or not `stop` has been called meanwhile. */
    method SwapBuffers()
      requires Valid() && backend.Waiting?
      modifies this
      ensures Valid() && View() == AfterSwap(old(View())) && Owned() == old(Owned())
      ensures backend.InHand? && accepted == old(accepted)
    {
      hide Inv, Placed, Owned;
      SwapKeepsInv(View());
      InvFits(View());
      MoveContents();
      backend := InHand;
    }

    /** The same, in terms of contents. */
    method MoveContents()
      requires Owns() && newBuffer1 != null && newBuffer2 != null && buffersToWrite == []
      modifies this`currentBuf, this`nextBuf, this`buffers, this`newBuffer1, this`newBuffer2, this`buffersToWrite
      ensures Owns() && Owned() == old(Owned())
      ensures var s := old(View());
        View() == s.(batch := s.full + [s.current], full := [], current := s.spare1.value, spare1 := None,
                     next := if s.next == None then s.spare2 else s.next,
                     spare2 := if s.next == None then None else s.spare2)
    {
      hide Placed, Owned;
      ghost var s := View();
      MoveBuffers();
      assert Contents(buffersToWrite) == s.full + [s.current] && Contents(buffers) == [];
    }

    method MoveBuffers()
      requires Owns() && newBuffer1 != null && newBuffer2 != null && buffersToWrite == []
      modifies this`currentBuf, this`nextBuf, this`buffers, this`newBuffer1, this`newBuffer2, this`buffersToWrite
      ensures Owns() && Owned() == old(Owned())
      ensures buffersToWrite == old(buffers) + [old(currentBuf)] && buffers == []
      ensures currentBuf == old(newBuffer1) && newBuffer1 == null
      ensures if old(nextBuf) == null then nextBuf == old(newBuffer2) && newBuffer2 == null
              else nextBuf == old(nextBuf) && newBuffer2 == old(newBuffer2)
    {
      buffers := buffers + [currentBuf];
      currentBuf := newBuffer1;
      newBuffer1 := null;
      buffersToWrite, buffers := buffers, buffersToWrite;
      if nextBuf == null {
        nextBuf := newBuffer2;
        newBuffer2 := null;
      }
    }

    /** `for (buffer : buffersToWrite) output.append(buffer->data(), buffer->size());` */
    method Collect() returns (output: seq<byte>)
      ensures output == Concat(Contents(buffersToWrite))
    {
      output := [];
      ghost var cs := Contents(buffersToWrite);
      for i := 0 to |buffersToWrite|
        invariant output == Concat(cs[..i])
      {
        output := output + buffersToWrite[i].buf;
        ConcatLast(cs[..i], cs[i]);
        assert cs[..i + 1] == cs[..i] + [cs[i]];
      }
      assert cs[..|buffersToWrite|] == cs;
    }

    /** At most two of the written buffers are kept, emptied, in the places of missing spares. */
    method Recycle()
      requires Owns() && newBuffer1 == null && buffersToWrite != []
      requires newBuffer2 == null ==> |buffersToWrite| >= 2
      modifies this`newBuffer1, this`newBuffer2, this`buffersToWrite, buffersToWrite
      ensures Owns() && buffersToWrite == []
      ensures newBuffer1 in old(buffersToWrite) && newBuffer1.buf == []
      ensures if old(newBuffer2) == null then newBuffer2 in old(buffersToWrite) && newBuffer2.buf == []
              else newBuffer2 == old(newBuffer2)
    {
      if |buffersToWrite| > 2 {
        buffersToWrite := buffersToWrite[..2];
      }
      newBuffer1 := buffersToWrite[|buffersToWrite| - 1];
      buffersToWrite := buffersToWrite[..|buffersToWrite| - 1];
      newBuffer1.reset();
      if newBuffer2 == null {
        newBuffer2 := buffersToWrite[|buffersToWrite| - 1];
        newBuffer2.reset();
      }
      buffersToWrite := [];
    }

    /** Overload: all but the first two buffers of the batch are freed unwritten. */
    method Trim()
      requires Owns()
      modifies this`buffersToWrite
      ensures Owns()
      ensures buffersToWrite
        == if |old(buffersToWrite)| > MAX_BATCH then old(buffersToWrite)[..2] else old(buffersToWrite)
    {
      if |buffersToWrite| > MAX_BATCH {
        buffersToWrite := buffersToWrite[..2];
      }
    }

    /** The same, in terms of contents. */
    method RecycleAll()
      requires Owns() && newBuffer1 == null && buffersToWrite != []
      requires if newBuffer2 == null then |buffersToWrite| >= 2 else newBuffer2.buf == []
      modifies this`newBuffer1, this`newBuffer2, this`buffersToWrite, buffersToWrite
      ensures Owns() && buffersToWrite == []
      ensures View() == old(View()).(spare1 := Some([]), spare2 := Some([]), batch := [])
      ensures newBuffer1 in old(buffersToWrite) && (newBuffer2 == old(newBuffer2) || newBuffer2 in old(buffersToWrite))
    {
      hide Placed;
      Spared();
      ghost var cs := Contents(buffers);
      Recycle();
      assert forall k :: 0 <= k < |buffers| ==> buffers[k].buf == cs[k];
      assert Contents(buffers) == cs && Contents(buffersToWrite) == [];
    }

    /** Trims the batch and collects what is to be written. */
    method TakeOutput() returns (output: seq<byte>)
      requires Owns()
      modifies this`buffersToWrite
      ensures Owns() && output == Concat(Trimmed(old(Contents(buffersToWrite))))
      ensures buffersToWrite
        == if |old(buffersToWrite)| > MAX_BATCH then old(buffersToWrite)[..2] else old(buffersToWrite)
      ensures View() == old(View()).(batch := Trimmed(old(Contents(buffersToWrite))))
    {
      hide Placed;
      ghost var batch := Contents(buffersToWrite);
      Trim();
      assert Contents(buffersToWrite) == Trimmed(batch);
      output := Collect();
    }

    /** What the loop body does to its own buffers: trim, collect the output, recycle. */
    method Flush() returns (output: seq<byte>)
      requires Owns() && newBuffer1 == null && buffersToWrite != []
      requires if newBuffer2 == null then |buffersToWrite| >= 2 else newBuffer2.buf == []
      modifies this`newBuffer1, this`newBuffer2, this`buffersToWrite, buffersToWrite
      ensures Owns() && output == Concat(Trimmed(old(Contents(buffersToWrite))))
      ensures newBuffer1 in old(buffersToWrite) && (newBuffer2 == old(newBuffer2) || newBuffer2 in old(buffersToWrite))
      ensures View() == old(View()).(spare1 := Some([]), spare2 := Some([]), batch := []) && buffersToWrite == []
    {
      hide Placed;
      output := TakeOutput();
      RecycleAll();
    }

    /** The rest of the loop body. */
    method WriteBatch()
      requires Valid() && backend.InHand?
      modifies this`newBuffer1, this`newBuffer2, this`buffersToWrite, this`file, this`backend, this`ledger
      modifies buffersToWrite
      ensures Valid() && View() == AfterWriteOut(old(View())) && backend.AtTop?
      ensures newBuffer1 in old(buffersToWrite) && (newBuffer2 == old(newBuffer2) || newBuffer2 in old(buffersToWrite))
      ensures buffersToWrite == []
    {
      hide Inv, Placed, Concat, AfterWriteOut, EntriesFor, Trimmed, Owned;
      WriteOutKeepsInv(View());
      WriteOutIs(View());
      InvFits(View());
      ghost var batch := Contents(buffersToWrite);
      assert newBuffer2 != null ==> newBuffer2.buf == [];
      var output := Flush();
      file := file + output;
      backend := AtTop;
      ledger := ledger + EntriesFor(batch);
    }

    lemma Spared()
      requires Owns()
      ensures currentBuf !in buffersToWrite && Outside(nextBuf, buffersToWrite)
      ensures Outside(newBuffer2, buffersToWrite)
      ensures forall k :: 0 <= k < |buffers| ==> buffers[k] !in buffersToWrite
    {
      assert forall k :: 0 <= k < |buffers| ==> buffers[k] in buffers;
    }

    /** The test of the loop finds `isRuning_` cleared; nothing is left to write. */
    method LeaveLoop()
      requires Valid() && backend.AtTop? && !isRuning
      modifies this`backend
      ensures Valid() && Enabled(old(View()), Leave) && View() == Apply(old(View()), Leave) && backend.Done?
    {
      StepKeepsInv(View(), Leave);
      backend := Done;
    }

    method stop()
      requires Valid() && Enabled(View(), Action.Stop)
      modifies this`isRuning
      ensures Valid() && View() == Apply(old(View()), Action.Stop)
    {
      StepKeepsInv(View(), Action.Stop);
      isRuning := false;
    }

    /** What other threads do meanwhile. */
    method Others(events: seq<Event>)
      requires Valid()
      modifies this, Owned()
      ensures Valid() && accepted == old(accepted) + LinesOf(events) && backend == old(backend)
      ensures isRuning <==> old(isRuning) && StopCalled !in events
      ensures forall b :: b in Owned() ==> b in old(Owned()) || fresh(b)
    {
      hide Inv, Placed, Owned;
      for i := 0 to |events|
        invariant Valid() && accepted == old(accepted) + LinesOf(events[..i]) && backend == old(backend)
        invariant isRuning <==> old(isRuning) && StopCalled !in events[..i]
        invariant forall b :: b in Owned() ==> b in old(Owned()) || fresh(b)
      {
        assert events[..i + 1] == events[..i] + [events[i]];
        Other(events[i]);
      }
      assert events[..|events|] == events;
    }

    method Other(e: Event)
      requires Valid()
      modifies this, Owned()
      ensures Valid() && accepted == old(accepted) + LinesOf([e]) && backend == old(backend)
      ensures isRuning <==> old(isRuning) && !e.StopCalled?
      ensures forall b :: b in Owned() ==> b in old(Owned()) || fresh(b)
    {
      hide Inv, Placed, Owned;
      ghost var s := View();
      match e
      case Line(bytes) => append(bytes);
      case StopCalled =>
        if isRuning {
          stop();
        }
    }

    /** `AsyncLoggerLoop`, with whatever other threads do at the three places of each turn where they may: between the
        loop test and the swap, between the swap and the writing, and before the next test. */
    method AsyncLoggerLoop(script: seq<Turn>) returns (turns: nat)
      requires Valid() && backend.AtTop?
      modifies this, Owned()
      ensures Valid() && turns <= |script|
      ensures accepted == old(accepted) + TurnLines(script[..turns])
      ensures if isRuning then turns == |script| && backend.AtTop? else backend.Done?
    {
      hide Inv, Placed, Owned, View, Apply, Owns;
      turns := 0;
      assert accepted + TurnLines(script[..0]) == accepted;
      hide LinesIn;
      while isRuning && turns < |script|
        invariant Valid() && backend.AtTop? && turns <= |script|
        invariant accepted == old(accepted) + TurnLines(script[..turns])
        invariant forall b :: b in Owned() ==> b in old(Owned()) || fresh(b)
      {
        assert script[..turns + 1] == script[..turns] + [script[turns]];
        OneTurn(script[turns]);
        turns := turns + 1;
      }
      if !isRuning {
        LeaveLoop();
      }
    }

    method WriteAndKeep()
      requires Valid() && backend.InHand?
      modifies this, Owned()
      ensures Valid() && backend.AtTop? && Owned() <= old(Owned()) && accepted == old(accepted)
    {
      hide Inv, Placed, AfterWriteOut, View;
      WriteBatch();
    }

    method OneTurn(turn: Turn)
      requires Valid() && backend.AtTop? && isRuning
      modifies this, Owned()
      ensures Valid() && backend.AtTop? && accepted == old(accepted) + LinesIn(turn)
      ensures forall b :: b in Owned() ==> b in old(Owned()) || fresh(b)
    {
      hide Inv, Placed, Owned, View, AfterEnter, AfterSwap, AfterWriteOut, Owns;
      EnterLoop();
      Others(turn.beforeSwap);
      SwapBuffers();
      Others(turn.beforeWrite);
      WriteAndKeep();
      Others(turn.beforeTest);
    }
  }

  /** What the rest of the program may do to a logger. */
  datatype Event = Line(bytes: seq<byte>) | StopCalled

  function LinesOf(events: seq<Event>): seq<byte> {
    if events == [] then []
    else
      var last := events[|events| - 1];
      LinesOf(events[..|events| - 1]) + if last.Line? then Kept(last.bytes) else []
  }

  datatype Turn = Turn(beforeSwap: seq<Event>, beforeWrite: seq<Event>, beforeTest: seq<Event>)

  function LinesIn(turn: Turn): seq<byte> {
    LinesOf(turn.beforeSwap) + LinesOf(turn.beforeWrite) + LinesOf(turn.beforeTest)
  }

  function TurnLines(turns: seq<Turn>): seq<byte> {
    if turns == [] then [] else TurnLines(turns[..|turns| - 1]) + LinesIn(turns[|turns| - 1])
  }
}
