/** Requests that arrive in bursts: the connection hands over each burst on its own, and each is decoded on its own. */
module RpcBursts {
  import opened Wrappers
  import opened Bytes
  import opened TinyPBCodec
  import opened TinyPBNoise
  import opened TinyPBRoundTrip
  import ConnectionClass
  import StreamBuffer

  /** What `decode` makes of one burst after the other. */
  function DecodeBursts(bursts: seq<seq<byte>>): Outcome {
    if bursts == [] then Returned([])
    else
      match Decode(bursts[0])
      case Returned(ms) => Append(ms, DecodeBursts(bursts[1..]))
      case other => other
  }

  function Append(ms: seq<Message>, rest: Outcome): Outcome {
    if rest.Returned? then Returned(ms + rest.messages) else rest
  }

  /** Each burst is as long as some number of whole frames, from where the last one ended. */
  predicate CutAtFrames(ms: seq<Message>, bursts: seq<seq<byte>>)
    requires AllEncodable(ms)
    decreases |bursts|
  {
    if bursts == [] then ms == []
    else
      exists k :: 0 <= k <= |ms| && |bursts[0]| == |EncodeAll(Front(ms, k))| && CutAtFrames(Rear(ms, k), bursts[1..])
  }

  function Front(ms: seq<Message>, k: nat): (front: seq<Message>)
    requires k <= |ms|
    ensures AllEncodable(ms) ==> AllEncodable(front)
  {
    ms[..k]
  }

  function Rear(ms: seq<Message>, k: nat): (rear: seq<Message>)
    requires k <= |ms|
    ensures AllEncodable(ms) ==> AllEncodable(rear)
  {
    ms[k..]
  }

  // ------------------------------------------------------------------ how much a message costs

  function Size(m: Message): nat {
    OVERHEAD + |m.msgId| + |m.methodName| + |m.errInfo| + |m.pbData|
  }

  function Sizes(ms: seq<Message>): nat {
    if ms == [] then 0 else Size(ms[0]) + Sizes(ms[1..])
  }

  lemma {:induction false} SizesAppend(a: seq<Message>, b: seq<Message>)
    ensures Sizes(a + b) == Sizes(a) + Sizes(b)
  {
    if a == [] {
      assert a + b == b;
    } else {
      assert (a + b)[1..] == a[1..] + b;
      SizesAppend(a[1..], b);
    }
  }

  lemma ParsedSize(mem: seq<byte>, at: nat, end: int, length: int)
    requires end == at + length - 1 < |mem| - 1 && ParseFrame(mem, at, end, length).Parsed?
    ensures Size(ParseFrame(mem, at, end, length).message) <= length
  {
    hide ReadInt32;
  }

  /** No message is had for less than its own bytes. */
  lemma {:induction false} DecodedFromSize(mem: seq<byte>, start: nat)
    requires start < |mem| && DecodeFrom(mem, start).Returned?
    ensures start + Sizes(DecodeFrom(mem, start).messages) < |mem|
    decreases |mem| - start
  {
    hide ParseFrame, Scan, Size;
    var c := Scan(mem, start);
    if c.Candidate? {
      ParsedSize(mem, c.at, c.end, c.length);
      ParsedIsLong(mem, c.at, c.end, c.length);
      DecodedFromSize(mem, c.end + 1);
      var m, rest := ParseFrame(mem, c.at, c.end, c.length).message, DecodeFrom(mem, c.end + 1).messages;
      assert DecodeFrom(mem, start).messages == [m] + rest;
      assert Sizes([m] + rest) == Size(m) + Sizes(rest);
    }
  }

  lemma DecodedSize(buf: seq<byte>)
    requires Decode(buf).Returned?
    ensures Sizes(Decode(buf).messages) <= |buf|
  {
    DecodedFromSize(CString(buf), 0);
  }

  lemma {:induction false} BurstsSize(bursts: seq<seq<byte>>)
    requires DecodeBursts(bursts).Returned?
    ensures Sizes(DecodeBursts(bursts).messages) <= |Concat(bursts)|
  {
    hide Decode;
    if bursts != [] {
      DecodedSize(bursts[0]);
      BurstsSize(bursts[1..]);
      SizesAppend(Decode(bursts[0]).messages, DecodeBursts(bursts[1..]).messages);
    }
  }

  lemma {:induction false} EncodedSize(ms: seq<Message>)
    requires AllEncodable(ms)
    ensures Sizes(CanonAll(ms)) == |EncodeAll(ms)|
  {
    hide Frame;
    if ms != [] {
      assert CanonAll(ms)[1..] == CanonAll(ms[1..]);
      EncodedSize(ms[1..]);
    }
  }

  // ------------------------------------------------------------------ the cuts

  lemma SplitEncoding(ms: seq<Message>, k: nat)
    requires AllEncodable(ms) && k <= |ms|
    ensures EncodeAll(ms) == EncodeAll(Front(ms, k)) + EncodeAll(Rear(ms, k))
    ensures CanonAll(ms) == CanonAll(Front(ms, k)) + CanonAll(Rear(ms, k))
  {
    hide EncodeAll, Canon, FrameLength;
    assert ms == ms[..k] + ms[k..];
    EncodeAllAppend(ms[..k], ms[k..]);
    CanonSplit(ms, k);
  }

  lemma CanonSplit(ms: seq<Message>, k: nat)
    requires k <= |ms|
    ensures CanonAll(ms) == CanonAll(ms[..k]) + CanonAll(ms[k..])
  {
    hide Canon;
  }

  /** Two ways to cut one string after the same number of bytes. */
  lemma SameCut(a: seq<byte>, b: seq<byte>, c: seq<byte>, d: seq<byte>)
    requires a + b == c + d && |a| == |c|
    ensures a == c && b == d
  {
    assert a == (a + b)[..|a|] && b == (a + b)[|a|..];
  }

  lemma {:induction false} CutsKeepAll(ms: seq<Message>, bursts: seq<seq<byte>>)
    requires AllEncodable(ms) && AllInDomain(ms) && |EncodeAll(ms)| <= INT32_MAX
    requires Concat(bursts) == EncodeAll(ms) && CutAtFrames(ms, bursts)
    ensures DecodeBursts(bursts) == Returned(CanonAll(ms))
    decreases |bursts|
  {
    hide Decode, EncodeAll;
    if bursts == [] {
      assert CanonAll(ms) == [];
    } else {
      var k :| 0 <= k <= |ms| && |bursts[0]| == |EncodeAll(Front(ms, k))| && CutAtFrames(Rear(ms, k), bursts[1..]);
      SplitEncoding(ms, k);
      SameCut(bursts[0], Concat(bursts[1..]), EncodeAll(Front(ms, k)), EncodeAll(Rear(ms, k)));
      DecodeEncode(Front(ms, k));
      CutsKeepAll(Rear(ms, k), bursts[1..]);
    }
  }

  lemma {:induction false} KeptAllIsCut(ms: seq<Message>, bursts: seq<seq<byte>>)
    requires AllEncodable(ms) && Concat(bursts) == EncodeAll(ms) && DecodeBursts(bursts) == Returned(CanonAll(ms))
    ensures CutAtFrames(ms, bursts)
    decreases |bursts|
  {
    hide Decode, EncodeAll;
    if bursts == [] {
      assert |CanonAll(ms)| == |ms|;
    } else {
      var head, tail := Decode(bursts[0]).messages, DecodeBursts(bursts[1..]).messages;
      var k := |head|;
      SplitEncoding(ms, k);
      HeadAndTail(head, tail, CanonAll(Front(ms, k)), CanonAll(Rear(ms, k)));
      DecodedSize(bursts[0]);
      BurstsSize(bursts[1..]);
      EncodedSize(Front(ms, k));
      EncodedSize(Rear(ms, k));
      SameCut(bursts[0], Concat(bursts[1..]), EncodeAll(Front(ms, k)), EncodeAll(Rear(ms, k)));
      KeptAllIsCut(Rear(ms, k), bursts[1..]);
    }
  }

  lemma HeadAndTail(a: seq<Message>, b: seq<Message>, c: seq<Message>, d: seq<Message>)
    requires a + b == c + d && |a| == |c|
    ensures a == c && b == d
  {
    assert a == (a + b)[..|a|] && b == (a + b)[|a|..];
  }

  /** Of a stream of encoded requests that arrives in bursts, all requests are decoded, and as they were sent, exactly
      if every burst ends with a frame. */
  lemma BurstsKeepAllExactly(ms: seq<Message>, bursts: seq<seq<byte>>)
    requires AllEncodable(ms) && AllInDomain(ms) && |EncodeAll(ms)| <= INT32_MAX && Concat(bursts) == EncodeAll(ms)
    ensures DecodeBursts(bursts) == Returned(CanonAll(ms)) <==> CutAtFrames(ms, bursts)
    ensures ReturnedAs(DecodeBursts(bursts), ms) <==> CutAtFrames(ms, bursts)
  {
    CanonReadsBack(if DecodeBursts(bursts).Returned? then DecodeBursts(bursts).messages else [], ms);
    hide DecodeBursts, EncodeAll;
    if CutAtFrames(ms, bursts) {
      CutsKeepAll(ms, bursts);
    }
    if DecodeBursts(bursts) == Returned(CanonAll(ms)) {
      KeptAllIsCut(ms, bursts);
    }
  }

  lemma TwoParts(a: seq<byte>, b: seq<byte>)
    ensures Concat([a, b]) == a + b
  {
    assert [a] + [b] == [a, b];
    ConcatLast([a], b);
    ConcatLast([], a);
    assert [] + [a] == [a] && [] + a == a;
  }

  /** So a request that the kernel delivers in two bursts is lost, wherever it is cut. */
  lemma CutRequestIsLost(m: Message, n: nat)
    requires InDomain(m) && Encodable(m) && 0 < n < FrameLength(m)
    ensures DecodeBursts([Frame(m)[..n], Frame(m)[n..]]) != Returned([Canon(m)])
    ensures !ReturnedAs(DecodeBursts([Frame(m)[..n], Frame(m)[n..]]), [m])
  {
    hide Decode, Frame, FrameLength;
    var bursts: seq<seq<byte>> := [Frame(m)[..n], Frame(m)[n..]];
    assert EncodeAll([m]) == Frame(m) + EncodeAll([]) == Frame(m);
    TwoParts(Frame(m)[..n], Frame(m)[n..]);
    assert Frame(m)[..n] + Frame(m)[n..] == Frame(m);
    assert CanonAll([m]) == [Canon(m)];
    forall k | 0 <= k <= 1 ensures |bursts[0]| != |EncodeAll(Front([m], k))| {
      assert Front([m], k) == if k == 0 then [] else [m];
    }
    BurstsKeepAllExactly([m], bursts);
  }

  // ------------------------------------------------------------------ from the socket

  /** The messages a connection hands over when `events` are its bursts of `recv` results, from an empty buffer. */
  function HandedOver(events: seq<seq<ConnectionClass.Recv>>): seq<seq<byte>> {
    if events == [] then []
    else
      (match ConnectionClass.Reading([], events[0]).message case None => [] case Some(m) => [m])
      + HandedOver(events[1..])
  }

  function DeliveredAll(events: seq<seq<ConnectionClass.Recv>>): seq<seq<byte>> {
    if events == [] then [] else [ConnectionClass.Delivered(events[0])] + DeliveredAll(events[1..])
  }

  predicate WholeBurst(events: seq<ConnectionClass.Recv>) {
    && ConnectionClass.Ending(events) == Some(ConnectionClass.WouldBlock)
    && |ConnectionClass.Delivered(events)| <= StreamBuffer.MAX_BUF_SIZE
  }

  /** Bursts that fit and end in "would block" reach `decode` as they came. */
  lemma {:induction false} BurstsReachDecode(events: seq<seq<ConnectionClass.Recv>>)
    requires forall e :: e in events ==> WholeBurst(e)
    ensures DecodeBursts(HandedOver(events)) == DecodeBursts(DeliveredAll(events))
  {
    hide Decode, ConnectionClass.Reading, ConnectionClass.Delivered, ConnectionClass.Ending;
    if events != [] {
      assert WholeBurst(events[0]);
      var all := ConnectionClass.Delivered(events[0]);
      ConnectionClass.BurstIsOneMessage([], events[0]);
      assert [] + all == all;
      BurstsReachDecode(events[1..]);
      var rest := HandedOver(events[1..]);
      if all == [] {
        DecodeNothing();
        assert HandedOver(events) == [] + rest == rest;
        assert ([all] + DeliveredAll(events[1..]))[1..] == DeliveredAll(events[1..]);
      } else {
        assert HandedOver(events) == [all] + rest;
        assert ([all] + rest)[1..] == rest && ([all] + DeliveredAll(events[1..]))[1..] == DeliveredAll(events[1..]);
      }
    }
  }

  lemma DecodeNothing()
    ensures Decode([]) == Returned([])
    ensures forall o: Outcome :: Append([], o) == o
  {
    assert CString([]) == [0];
    forall o: Outcome ensures Append([], o) == o {
      if o.Returned? {
        assert [] + o.messages == o.messages;
      }
    }
  }
}
