/** Reader against writer: batches, quiet noise between frames, and re-encoding of whatever was read. */
module TinyPBRoundTrip {
  import opened Bytes
  import opened TinyPBCodec
  import opened TinyPBFrames
  import opened TinyPBNoise

  /** Bytes that cannot be taken for the start of a frame, whatever stands around them. */
  predicate Quiet(noise: seq<byte>) {
    PB_START !in noise
  }

  lemma {:induction false} QuietOpensNothing(pre: seq<byte>, ms: seq<Message>, gaps: seq<seq<byte>>)
    requires |gaps| == |ms| + 1 && AllEncodable(ms) && forall g :: g in gaps ==> Quiet(g)
    ensures GapsOpenNothing(CString(pre + Stream(ms, gaps)), ms, gaps, |pre|)
    decreases |ms|
  {
    hide Frame, ReadInt32;
    var mem := CString(pre + Stream(ms, gaps));
    assert Quiet(gaps[0]);
    forall k | |pre| <= k < |pre| + |gaps[0]| ensures !Opens(mem, k) {
      assert mem[k] == gaps[0][k - |pre|];
      assert gaps[0][k - |pre|] in gaps[0];
    }
    if ms != [] {
      var through, rest := pre + gaps[0] + Frame(ms[0]), Stream(ms[1..], gaps[1..]);
      assert mem == CString(through + rest);
      QuietOpensNothing(through, ms[1..], gaps[1..]);
    }
  }

  /** Resynchronisation: every message of a batch comes back, in order, through any noise free of the start byte. */
  lemma DecodeStream(ms: seq<Message>, gaps: seq<seq<byte>>)
    requires |gaps| == |ms| + 1 && AllEncodable(ms) && AllInDomain(ms)
    requires forall g :: g in gaps ==> Quiet(g)
    requires |Stream(ms, gaps)| <= INT32_MAX
    ensures Decode(Stream(ms, gaps)) == Returned(CanonAll(ms))
    ensures ReturnedAs(Decode(Stream(ms, gaps)), ms)
  {
    hide Decode, Stream, GapsOpenNothing;
    QuietOpensNothing([], ms, gaps);
    assert [] + Stream(ms, gaps) == Stream(ms, gaps);
    DecodeNoisy(ms, gaps);
  }

  lemma {:induction false} EncodeAllIsStream(ms: seq<Message>)
    requires AllEncodable(ms)
    ensures EncodeAll(ms) == Stream(ms, seq(|ms| + 1, _ => []))
  {
    if ms != [] {
      EncodeAllIsStream(ms[1..]);
      assert seq<seq<byte>>(|ms| + 1, _ => [])[1..] == seq<seq<byte>>(|ms[1..]| + 1, _ => []);
    }
  }

  lemma {:induction false} EncodeAllAppend(a: seq<Message>, b: seq<Message>)
    requires AllEncodable(a + b)
    ensures AllEncodable(a) && AllEncodable(b) && EncodeAll(a + b) == EncodeAll(a) + EncodeAll(b)
  {
    hide Frame;
    assert forall m :: m in a || m in b ==> m in a + b;
    if a == [] {
      assert a + b == b;
    } else {
      assert (a + b)[1..] == a[1..] + b;
      EncodeAllAppend(a[1..], b);
    }
  }

  lemma DecodeEncode(ms: seq<Message>)
    requires AllEncodable(ms) && AllInDomain(ms) && |EncodeAll(ms)| <= INT32_MAX
    ensures Decode(EncodeAll(ms)) == Returned(CanonAll(ms))
    ensures ReturnedAs(Decode(EncodeAll(ms)), ms)
  {
    CanonReadsBack(CanonAll(ms), ms);
    EncodeAllIsStream(ms);
    DecodeStream(ms, seq(|ms| + 1, _ => []));
  }

  /** Two batches share an encoding only when they differ in nothing but empty ids. */
  lemma EncodeAllInjective(a: seq<Message>, b: seq<Message>)
    requires AllEncodable(a) && AllInDomain(a) && AllEncodable(b) && AllInDomain(b)
    requires EncodeAll(a) == EncodeAll(b) && |EncodeAll(a)| <= INT32_MAX
    ensures |a| == |b| && forall k :: 0 <= k < |a| ==> SameButDefaultId(a[k], b[k])
  {
    hide Decode, EncodeAll, SameButDefaultId;
    DecodeEncode(a);
    DecodeEncode(b);
    var got := Decode(EncodeAll(a)).messages;
    forall k | 0 <= k < |a| ensures SameButDefaultId(a[k], b[k]) {
      ReadBackTwice(got[k], a[k], b[k]);
    }
  }

  /** Equal, or one has an empty id where the other has "123456789". */
  predicate SameButDefaultId(a: Message, b: Message) {
    && a.methodName == b.methodName && a.errCode == b.errCode && a.errInfo == b.errInfo && a.pbData == b.pbData
    && (a.msgId == b.msgId
        || (a.msgId == [] && b.msgId == [49, 50, 51, 52, 53, 54, 55, 56, 57])
        || (b.msgId == [] && a.msgId == [49, 50, 51, 52, 53, 54, 55, 56, 57]))
  }

  lemma ReadBackTwice(got: Message, a: Message, b: Message)
    requires ReadBack(got, a) && ReadBack(got, b)
    ensures SameButDefaultId(a, b)
  {
  }

  /** Without empty ids the batch comes back as it is, through any noise that does not stop the scan. */
  lemma DecodeKeepsIds(ms: seq<Message>, gaps: seq<seq<byte>>)
    requires |gaps| == |ms| + 1 && AllEncodable(ms) && AllInDomain(ms) && forall m :: m in ms ==> m.msgId != []
    requires |Stream(ms, gaps)| <= INT32_MAX && GapsOpenNothing(CString(Stream(ms, gaps)), ms, gaps, 0)
    ensures Decode(Stream(ms, gaps)) == Returned(ms)
  {
    hide Decode, Stream, GapsOpenNothing;
    DecodeNoisy(ms, gaps);
    CanonReadsBack(ms, ms);
  }

  lemma ParsedInDomain(mem: seq<byte>, at: nat, end: int, length: int)
    requires end == at + length - 1 < |mem| - 1 && ParseFrame(mem, at, end, length).Parsed?
    ensures InDomain(ParseFrame(mem, at, end, length).message)
  {
    hide ReadText, UntilNul, ReadInt32;
    TextFits(mem, at + 5, end, ID_CAPACITY);
    var id := ReadText(mem, at + 5, end, ID_CAPACITY).bytes;
    TextFits(mem, at + 9 + |id|, end, NAME_CAPACITY);
    var name := ReadText(mem, at + 9 + |id|, end, NAME_CAPACITY).bytes;
    TextFits(mem, at + 17 + |id| + |name|, end, INFO_CAPACITY);
  }

  lemma {:induction false} DecodedFromInDomain(mem: seq<byte>, start: nat)
    requires start < |mem| <= INT32_MAX + 1 && DecodeFrom(mem, start).Returned?
    ensures var ms := DecodeFrom(mem, start).messages;
      AllInDomain(ms) && start + OVERHEAD * |ms| < |mem|
    decreases |mem| - start
  {
    hide ParseFrame, Scan, InDomain;
    var c := Scan(mem, start);
    if c.Candidate? {
      ParsedInDomain(mem, c.at, c.end, c.length);
      ParsedIsLong(mem, c.at, c.end, c.length);
      DecodedFromInDomain(mem, c.end + 1);
    }
  }

  /** Whatever buffer `decode` returns on, what it returns is back in the domain of the writer, and takes at
      least `OVERHEAD` bytes a message. */
  lemma DecodedInDomain(buf: seq<byte>)
    requires |buf| <= INT32_MAX && Decode(buf).Returned?
    ensures AllInDomain(Decode(buf).messages) && OVERHEAD * |Decode(buf).messages| <= |buf|
  {
    DecodedFromInDomain(CString(buf), 0);
  }

  /** Re-encoding a decoded buffer and decoding again changes nothing but empty ids. */
  lemma DecodeEncodeDecode(buf: seq<byte>)
    requires |buf| <= INT32_MAX && Decode(buf).Returned?
    requires AllEncodable(Decode(buf).messages) && |EncodeAll(Decode(buf).messages)| <= INT32_MAX
    ensures Decode(EncodeAll(Decode(buf).messages)) == Returned(CanonAll(Decode(buf).messages))
    ensures ReturnedAs(Decode(EncodeAll(Decode(buf).messages)), Decode(buf).messages)
  {
    DecodedInDomain(buf);
    DecodeEncode(Decode(buf).messages);
  }

  /** Noise with a start byte can swallow a frame: five stray bytes whose length leads to the end byte of the
      sound frame behind them. */
  lemma NoiseCanSwallow()
    ensures exists m: Message, noise: seq<byte> :: InDomain(m) && Encodable(m) && |noise| == 5
              && Decode(noise + Frame(m)) == Faults
  {
    hide ToNetBytes, FromNetBytes, Frame, Decode;
    var m := Message([49], [], 0, [], []);
    var noise: seq<byte> := [PB_START, 0, 0, 0, 32];
    FrameEnds(m);
    NoiseSwallows(noise, Frame(m));
  }

  lemma NoiseSwallows(noise: seq<byte>, frame: seq<byte>)
    requires noise == [PB_START, 0, 0, 0, 32] && |frame| == 27
    requires frame[0] == PB_START && frame[26] == PB_END && frame[1..5] == ToNetBytes(27)
    ensures Decode(noise + frame) == Faults
  {
    var mem := CString(noise + frame);
    assert mem[1..5] == [0, 0, 0, 32];
    assert frame[1..4] == frame[1..5][..3] == [0, 0, 0];
    assert mem[5..9] == [frame[0]] + frame[1..4];
    SwallowedFaults(mem);
  }

  lemma SwallowedFaults(mem: seq<byte>)
    requires |mem| == 33 && mem[0] == PB_START && mem[31] == PB_END
    requires ReadInt32(mem, 1) == 32 && mem[5..9] == [PB_START, 0, 0, 0]
    ensures DecodeFrom(mem, 0) == Faults
  {
    assert Scan(mem, 0) == Candidate(0, 31, 32);
    assert ReadInt32(mem, 5) == 0x0200_0000;
    assert ReadText(mem, 5, 31, ID_CAPACITY) == TextFaults;
  }
}
