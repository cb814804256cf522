/** The coder itself: messages as mutable objects, the writer's cursor over a byte buffer, the reader's two loops. */
module TinyPBCoder {
  import opened Bytes
  import opened TinyPBCodec

  class TinyPBProtocol {
    var pkLen: int
    var msgId: seq<byte>
    var msgIdLen: int
    var methodName: seq<byte>
    var methodNameLen: int
    var errCode: int32
    var errInfo: seq<byte>
    var errInfoLen: int
    var pbData: seq<byte>
    var checkSum: int
    var parseSuccess: bool

    constructor ()
      ensures Value() == Message([], [], 0, [], [])
    {
      msgId, methodName, errInfo, pbData := [], [], [], [];
      pkLen, msgIdLen, methodNameLen, errInfoLen, errCode, checkSum := 0, 0, 0, 0, 0, 0;
      parseSuccess := false;
    }

    function Value(): Message
      reads this
    {
      Message(msgId, methodName, errCode, errInfo, pbData)
    }
  }

  function Values(ms: seq<TinyPBProtocol>): (vs: seq<Message>)
    reads ms
    ensures |vs| == |ms| && forall k :: 0 <= k < |ms| ==> vs[k] == ms[k].Value()
  {
    seq(|ms|, k requires 0 <= k < |ms| reads ms => ms[k].Value())
  }

  /** `memcpy(tmp, src, n); tmp += n;` */
  method CopyOut(buf: array<byte>, tmp: nat, src: seq<byte>) returns (next: nat)
    requires tmp + |src| <= buf.Length
    modifies buf
    ensures next == tmp + |src|
    ensures buf[..next] == old(buf[..tmp]) + src
  {
    forall k | 0 <= k < |src| {
      buf[tmp + k] := src[k];
    }
    next := tmp + |src|;
    assert buf[..tmp] == old(buf[..tmp]);
    assert buf[tmp..next] == src;
    assert buf[..next] == buf[..tmp] + buf[tmp..next];
  }

  /** A length and then the text, which is copied only when there is one. */
  method CopyText(buf: array<byte>, tmp: nat, text: seq<byte>) returns (next: nat)
    requires tmp + 4 + |text| <= buf.Length && |text| <= INT32_MAX
    modifies buf
    ensures next == tmp + 4 + |text|
    ensures buf[..next] == old(buf[..tmp]) + ToNetBytes(|text|) + text
  {
    next := CopyOut(buf, tmp, ToNetBytes(|text|));
    if text != [] {
      next := CopyOut(buf, next, text);
    }
  }

  lemma FrameAssociates(c: Message, pkLen: nat)
    requires Encodable(c) && Canon(c) == c && pkLen == FrameLength(c)
    ensures Frame(c) ==
      [PB_START] + ToNetBytes(pkLen) + ToNetBytes(|c.msgId|) + c.msgId + ToNetBytes(|c.methodName|) + c.methodName
      + ToNetBytes(c.errCode) + ToNetBytes(|c.errInfo|) + c.errInfo + c.pbData
      + ToNetBytes(1) + [PB_END]
  {
    hide ToNetBytes;
  }

  /** The cursor's walk over the allocated bytes. */
  method FillFrame(message: TinyPBProtocol, buf: array<byte>)
    requires Encodable(message.Value()) && message.msgId != [] && buf.Length == FrameLength(message.Value()) + 1
    modifies buf
    ensures buf[..buf.Length - 1] == Frame(message.Value())
  {
    hide ToNetBytes, Frame;
    var pkLen := buf.Length - 1;
    buf[0] := PB_START;
    var tmp := 1;
    assert buf[..tmp] == [PB_START];
    tmp := CopyOut(buf, tmp, ToNetBytes(pkLen));
    tmp := CopyText(buf, tmp, message.msgId);
    tmp := CopyText(buf, tmp, message.methodName);
    tmp := CopyOut(buf, tmp, ToNetBytes(message.errCode));
    tmp := CopyText(buf, tmp, message.errInfo);
    tmp := CopyOut(buf, tmp, message.pbData);
    tmp := CopyOut(buf, tmp, ToNetBytes(1));
    tmp := CopyOut(buf, tmp, [PB_END]);
    FrameAssociates(message.Value(), pkLen);
  }

  /** Writes one frame and fills in the lengths, and the id, of the message it was given. */
  method EncodeTinyPB(message: TinyPBProtocol) returns (buf: array<byte>, len: nat)
    requires Encodable(message.Value())
    modifies message
    ensures fresh(buf) && buf.Length == len + 1 && buf[..len] == Frame(old(message.Value()))
    ensures message.Value() == Canon(old(message.Value())) && ReadBack(message.Value(), old(message.Value()))
    ensures message.pkLen == len && message.parseSuccess && message.checkSum == old(message.checkSum)
    ensures message.msgIdLen == |message.msgId| && message.methodNameLen == |message.methodName|
            && message.errInfoLen == |message.errInfo|
  {
    hide ToNetBytes, Frame;
    ghost var m := message.Value();
    CanonReadsBack([Canon(m)], [m]);
    if message.msgId == [] {
      message.msgId := DEFAULT_ID;
    }
    var pkLen := OVERHEAD + |message.msgId| + |message.methodName| + |message.errInfo| + |message.pbData|;
    buf := new byte[pkLen + 1];
    FillFrame(message, buf);
    message.pkLen := pkLen;
    message.msgIdLen := |message.msgId|;
    message.methodNameLen := |message.methodName|;
    message.errInfoLen := |message.errInfo|;
    message.parseSuccess := true;
    len := pkLen;
    SameFrame(m, Canon(m));
  }

  /** `encode`: one message after the other; each comes back with its id and lengths filled in. */
  method Encode(messages: seq<TinyPBProtocol>) returns (out: seq<byte>)
    requires AllEncodable(Values(messages))
    modifies messages
    ensures out == EncodeAll(old(Values(messages)))
    ensures Values(messages) == CanonAll(old(Values(messages)))
    ensures AllReadBack(Values(messages), old(Values(messages)))
  {
    hide Frame, FrameLength, Canon, ReadBack, AllReadBack;
    out := [];
    ghost var ms := Values(messages);
    forall k | 0 <= k < |messages| ensures Encodable(ms[k]) && Canon(Canon(ms[k])) == Canon(ms[k]) {
      assert ms[k] in ms;
      CanonTwice(ms[k]);
    }
    for i := 0 to |messages|
      invariant forall k :: 0 <= k < |messages| ==> Canon(messages[k].Value()) == Canon(ms[k])
      invariant forall k :: 0 <= k < i ==> messages[k].Value() == Canon(ms[k])
      invariant out == EncodeAll(ms[..i])
    {
      SameFrame(ms[i], messages[i].Value());
      var buf, len := EncodeTinyPB(messages[i]);
      out := out + buf[..len];
      assert ms[..i + 1] == ms[..i] + [ms[i]];
      EncodeAllLast(ms[..i], ms[i]);
    }
    assert ms[..|messages|] == ms;
    CanonReadsBack(CanonAll(ms), ms);
  }

  lemma CanonTwice(m: Message)
    ensures Canon(Canon(m)) == Canon(m)
  {
  }

  lemma SameFrame(a: Message, b: Message)
    requires Encodable(a) && Canon(a) == Canon(b)
    ensures Encodable(b) && Frame(a) == Frame(b)
  {
  }

  lemma {:induction false} EncodeAllLast(ms: seq<Message>, m: Message)
    requires AllEncodable(ms + [m])
    ensures AllEncodable(ms) && EncodeAll(ms + [m]) == EncodeAll(ms) + Frame(m)
  {
    hide Frame;
    assert forall x :: x in ms ==> x in ms + [m];
    assert m in ms + [m];
    if ms == [] {
      assert [m][1..] == [];
    } else {
      assert (ms + [m])[1..] == ms[1..] + [m];
      EncodeAllLast(ms[1..], m);
    }
  }

  datatype Ending = Return | Spin | Fault

  /** What the reader's locals amount to: the outcome, given the messages pushed before. */
  ghost predicate Agrees(ending: Ending, out: seq<Message>, pushed: seq<Message>, outcome: Outcome) {
    match outcome
    case Returned(ms) => ending == Return && out == pushed + ms
    case Spins => ending == Spin
    case Faults => ending == Fault
  }

  /** The inner loop of `decode`; `i` is left on the find or at the end of the buffer. */
  method FindFrame(mem: seq<byte>, startIndex: nat)
    returns (i: nat, endIndex: int, pkLen: int, success: bool, fault: bool)
    requires startIndex < |mem|
    ensures fault <==> Scan(mem, startIndex) == BadScan
    ensures !fault ==> (success <==> i < |mem| - 1)
    ensures !fault && success ==> Scan(mem, startIndex) == Candidate(i, endIndex, pkLen)
    ensures !fault && !success ==> Scan(mem, startIndex) == NoFrame
  {
    hide ReadInt32;
    i, endIndex, pkLen, success, fault := startIndex, -1, 0, false, false;
    while i < |mem| - 1
      invariant startIndex <= i < |mem|
      invariant Scan(mem, i) == Scan(mem, startIndex)
    {
      if mem[i] == PB_START {
        if i + 1 < |mem| - 1 {
          if !Readable(mem, i + 1, 4) {
            fault := true;
            return;
          }
          pkLen := ReadInt32(mem, i + 1);
          if i + pkLen > INT32_MAX {
            fault := true;
            return;
          }
          var j := i + pkLen - 1;
          if j >= |mem| - 1 {
            i := i + 1;
            continue;
          }
          if j < 0 {
            fault := true;
            return;
          }
          if mem[j] == PB_END {
            endIndex, success := j, true;
            return;
          }
        }
      }
      i := i + 1;
    }
  }

  /** A length and the bytes behind it, moved through a zero-filled array into a string. */
  method TakeText(mem: seq<byte>, at: int, end: int, capacity: nat) returns (ending: Ending, len: nat, text: seq<byte>)
    ensures match ReadText(mem, at, end, capacity)
      case TextSpins => ending == Spin
      case TextFaults => ending == Fault
      case Text(bytes) => ending == Return && len == |bytes| && text == UntilNul(bytes)
  {
    hide ReadInt32, UntilNul;
    ending, len, text := Return, 0, [];
    if at >= end {
      ending := Spin;
      return;
    }
    if !Readable(mem, at, 4) {
      ending := Fault;
      return;
    }
    var n: int := ReadInt32(mem, at);
    if n < 0 || n > capacity || !Readable(mem, at + 4, n) {
      ending := Fault;
      return;
    }
    var copied := mem[at + 4..at + 4 + n];
    if n == capacity && 0 !in copied {
      ending := Fault;
      return;
    }
    len := n;
    text := UntilNul(copied);
  }

  /** The second half of the cursor walk, from the error code on, for a message whose id and name are in place. */
  method TakeRest(mem: seq<byte>, startIndex: nat, endIndex: int, message: TinyPBProtocol,
                  ghost id: seq<byte>, ghost name: seq<byte>)
    returns (ending: Ending)
    requires endIndex == startIndex + message.pkLen - 1 < |mem| - 1
    requires message.msgIdLen == |id| && message.msgId == UntilNul(id)
    requires message.methodNameLen == |name| && message.methodName == UntilNul(name)
    modifies message
    ensures message.pkLen == old(message.pkLen)
    ensures match ParseRest(mem, startIndex, endIndex, message.pkLen, id, name)
      case ParseSpins => ending == Spin
      case ParseFaults => ending == Fault
      case Parsed(m) => ending == Return && message.Value() == m && message.parseSuccess
  {
    hide ReadText, ReadInt32, UntilNul;
    var at := startIndex + 13 + message.msgIdLen + message.methodNameLen;
    if at >= endIndex {
      return Spin;
    }
    if !Readable(mem, at, 4) {
      return Fault;
    }
    message.errCode := ReadInt32(mem, at);
    ending, message.errInfoLen, message.errInfo := TakeText(mem, at + 4, endIndex, INFO_CAPACITY);
    if ending != Return {
      return;
    }
    var pbLen := message.pkLen - message.methodNameLen - message.msgIdLen - message.errInfoLen - OVERHEAD;
    at := at + 8 + message.errInfoLen;
    if pbLen < 0 {
      return Fault;
    }
    message.pbData := mem[at..at + pbLen];
    message.parseSuccess := true;
  }

  /** The cursor walk: one message from one candidate frame. */
  method TakeFrame(mem: seq<byte>, startIndex: nat, endIndex: int, pkLen: int)
    returns (ending: Ending, message: TinyPBProtocol)
    requires endIndex == startIndex + pkLen - 1 < |mem| - 1
    ensures fresh(message)
    ensures match ParseFrame(mem, startIndex, endIndex, pkLen)
      case ParseSpins => ending == Spin
      case ParseFaults => ending == Fault
      case Parsed(m) => ending == Return && message.Value() == m && message.pkLen == pkLen && message.parseSuccess
  {
    hide ReadText, ParseRest, UntilNul;
    message := new TinyPBProtocol();
    message.pkLen := pkLen;
    var at := startIndex + 5;
    ghost var id := ReadText(mem, at, endIndex, ID_CAPACITY);
    ending, message.msgIdLen, message.msgId := TakeText(mem, at, endIndex, ID_CAPACITY);
    if ending != Return {
      return;
    }
    at := at + 4 + message.msgIdLen;
    ghost var name := ReadText(mem, at, endIndex, NAME_CAPACITY);
    ending, message.methodNameLen, message.methodName := TakeText(mem, at, endIndex, NAME_CAPACITY);
    if ending != Return {
      return;
    }
    ending := TakeRest(mem, startIndex, endIndex, message, id.bytes, name.bytes);
  }

  /** `decode`. An early `continue` would bring the same iteration again, so the method stops there and says so. */
  method Decode(buffer: seq<byte>) returns (ending: Ending, out: seq<TinyPBProtocol>)
    requires |buffer| <= INT32_MAX
    ensures forall m :: m in out ==> fresh(m)
    ensures Agrees(ending, Values(out), [], TinyPBCodec.Decode(buffer))
  {
    hide ParseFrame, Scan;
    var mem := CString(buffer);
    var startIndex := 0;
    out, ending := [], Return;
    while true
      invariant startIndex < |mem| && ending == Return
      invariant forall m :: m in out ==> fresh(m)
      invariant forall e, all {:trigger Agrees(e, all, Values(out), DecodeFrom(mem, startIndex))} ::
        Agrees(e, all, Values(out), DecodeFrom(mem, startIndex)) ==> Agrees(e, all, [], TinyPBCodec.Decode(buffer))
      decreases |mem| - startIndex
    {
      var i, endIndex, pkLen, success, fault := FindFrame(mem, startIndex);
      if fault {
        ending := Fault;
        assert Agrees(ending, Values(out), Values(out), DecodeFrom(mem, startIndex));
        return;
      }
      if i >= |mem| - 1 {
        assert Values(out) + [] == Values(out);
        assert Agrees(ending, Values(out), Values(out), DecodeFrom(mem, startIndex));
        return;
      }
      var message;
      ending, message := TakeFrame(mem, i, endIndex, pkLen);
      if ending != Return {
        assert ParseFrame(mem, i, endIndex, pkLen) == if ending == Spin then ParseSpins else ParseFaults;
        assert DecodeFrom(mem, startIndex) == if ending == Spin then Spins else Faults;
        assert Agrees(ending, Values(out), Values(out), DecodeFrom(mem, startIndex));
        return;
      }
      ParsedIsLong(mem, i, endIndex, pkLen);
      ghost var rest := DecodeFrom(mem, endIndex + 1);
      ghost var before := Values(out);
      out := out + [message];
      assert Values(out) == before + [message.Value()];
      forall e, all | Agrees(e, all, Values(out), rest)
        ensures Agrees(e, all, [], TinyPBCodec.Decode(buffer))
      {
        if rest.Returned? {
          assert Values(out) + rest.messages == before + ([message.Value()] + rest.messages);
        }
        assert Agrees(e, all, before, DecodeFrom(mem, startIndex));
      }
      startIndex := endIndex + 1;
    }
  }
}
