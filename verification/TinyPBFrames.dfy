/** Reader against writer, one frame: wherever it stands, it is found and read back. */
module TinyPBFrames {
  import opened Bytes
  import opened TinyPBCodec

  /** `x` stands in `mem` at position `k`. */
  predicate At(mem: seq<byte>, k: int, x: seq<byte>) {
    0 <= k && k + |x| <= |mem| && mem[k..k + |x|] == x
  }

  lemma AtSplit(mem: seq<byte>, k: int, x: seq<byte>, y: seq<byte>)
    requires At(mem, k, x + y)
    ensures At(mem, k, x) && At(mem, k + |x|, y)
  {
    assert (x + y)[..|x|] == x && (x + y)[|x|..] == y;
    assert mem[k..k + |x|] == mem[k..k + |x + y|][..|x|];
    assert mem[k + |x|..k + |x| + |y|] == mem[k..k + |x + y|][|x|..];
  }

  lemma AtMiddle(pre: seq<byte>, x: seq<byte>, post: seq<byte>)
    ensures At(pre + (x + post), |pre|, x)
  {
  }

  lemma IntAt(mem: seq<byte>, k: int, v: int32)
    requires At(mem, k, ToNetBytes(v))
    ensures Readable(mem, k, 4) && ReadInt32(mem, k) == v
  {
    NetBytesRoundTrip(v);
  }

  lemma TextAt(mem: seq<byte>, k: int, x: seq<byte>, y: seq<byte>, end: int, capacity: nat)
    requires capacity <= 512 && |x| < capacity && k < end
    requires At(mem, k, ToNetBytes(|x|) + (x + y))
    ensures ReadText(mem, k, end, capacity) == Text(x)
    ensures At(mem, k + 4 + |x|, y)
  {
    AtSplit(mem, k, ToNetBytes(|x|), x + y);
    AtSplit(mem, k + 4, x, y);
    IntAt(mem, k, |x|);
  }

  function InfoPart(c: Message): seq<byte>
    requires |c.errInfo| <= INT32_MAX
  {
    ToNetBytes(|c.errInfo|) + (c.errInfo + Tail(c))
  }

  function ErrPart(c: Message): seq<byte>
    requires |c.errInfo| <= INT32_MAX
  {
    ToNetBytes(c.errCode) + InfoPart(c)
  }

  function NamePart(c: Message): seq<byte>
    requires |c.errInfo| <= INT32_MAX && |c.methodName| <= INT32_MAX
  {
    ToNetBytes(|c.methodName|) + (c.methodName + ErrPart(c))
  }

  lemma FrameEnds(m: Message)
    requires Encodable(m)
    ensures Frame(m)[0] == PB_START && Frame(m)[FrameLength(m) - 1] == PB_END
    ensures Frame(m)[1..5] == ToNetBytes(FrameLength(m))
  {
    hide ToNetBytes;
  }

  /** The layout: start byte, length, four texts and a code with their lengths, a constant for the checksum, end byte.
      */
  lemma FrameLayout(m: Message)
    requires InDomain(m) && Encodable(m)
    ensures var f, n := Frame(m), |m.pbData|;
      var id: seq<byte> := if m.msgId == [] then [49, 50, 51, 52, 53, 54, 55, 56, 57] else m.msgId;
      var nameAt := 9 + |id|;
      var codeAt := nameAt + 4 + |m.methodName|;
      var dataAt := codeAt + 8 + |m.errInfo|;
      && |f| == dataAt + n + 5 && f[0] == 0x02 && f[1..5] == ToNetBytes(|f|)
      && f[5..9] == ToNetBytes(|id|) && f[9..nameAt] == id
      && f[nameAt..nameAt + 4] == ToNetBytes(|m.methodName|) && f[nameAt + 4..codeAt] == m.methodName
      && f[codeAt..codeAt + 4] == ToNetBytes(m.errCode)
      && f[codeAt + 4..codeAt + 8] == ToNetBytes(|m.errInfo|) && f[codeAt + 8..dataAt] == m.errInfo
      && f[dataAt..dataAt + n] == m.pbData && f[dataAt + n..] == [0, 0, 0, 1, 0x03]
  {
    hide ToNetBytes, At, Frame, NamePart;
    var f, c := Frame(m), Canon(m);
    FrameHead(m);
    var nameAt := 9 + |c.msgId|;
    FrameRest(f, nameAt, c);
    OneInNetBytes();
    AtIs(f, nameAt, ToNetBytes(|c.methodName|));
    AtIs(f, nameAt + 4, c.methodName);
    var codeAt := nameAt + 4 + |c.methodName|;
    AtIs(f, codeAt, ToNetBytes(c.errCode));
    AtIs(f, codeAt + 4, ToNetBytes(|c.errInfo|));
    AtIs(f, codeAt + 8, c.errInfo);
    AtIs(f, codeAt + 8 + |c.errInfo|, c.pbData);
    AtIs(f, codeAt + 8 + |c.errInfo| + |c.pbData|, ToNetBytes(1) + [PB_END]);
  }

  lemma AtIs(mem: seq<byte>, k: int, x: seq<byte>)
    requires At(mem, k, x)
    ensures k >= 0 && k + |x| <= |mem| && mem[k..k + |x|] == x
    ensures k + |x| == |mem| ==> mem[k..] == x
  {
  }

  lemma FrameHead(m: Message)
    requires InDomain(m) && Encodable(m)
    ensures var f, c := Frame(m), Canon(m);
      && f[0] == 0x02 && f[1..5] == ToNetBytes(|f|) && f[5..9] == ToNetBytes(|c.msgId|)
      && 9 + |c.msgId| <= |f| && f[9..9 + |c.msgId|] == c.msgId && At(f, 9 + |c.msgId|, NamePart(c))
      && c == m.(msgId := if m.msgId == [] then [49, 50, 51, 52, 53, 54, 55, 56, 57] else m.msgId)
  {
    hide ToNetBytes, NamePart;
    var f, c := Frame(m), Canon(m);
    var idPart := ToNetBytes(|c.msgId|) + (c.msgId + NamePart(c));
    assert f == [PB_START] + (ToNetBytes(|f|) + idPart) by {
      FrameParts(m);
    }
    hide Frame;
    assert At(f, 0, f);
    AtSplit(f, 0, [PB_START], ToNetBytes(|f|) + idPart);
    AtSplit(f, 1, ToNetBytes(|f|), idPart);
    AtSplit(f, 5, ToNetBytes(|c.msgId|), c.msgId + NamePart(c));
    AtSplit(f, 9, c.msgId, NamePart(c));
  }

  lemma FrameParts(m: Message)
    requires InDomain(m) && Encodable(m)
    ensures var c := Canon(m);
      Frame(m) == [PB_START] + (ToNetBytes(FrameLength(m)) + (ToNetBytes(|c.msgId|) + (c.msgId + NamePart(c))))
  {
    hide ToNetBytes;
  }

  lemma FrameRest(f: seq<byte>, k: int, c: Message)
    requires InDomain(c) && At(f, k, NamePart(c))
    ensures var codeAt := k + 4 + |c.methodName|; var dataAt := codeAt + 8 + |c.errInfo|;
      && At(f, k, ToNetBytes(|c.methodName|)) && At(f, k + 4, c.methodName)
      && At(f, codeAt, ToNetBytes(c.errCode)) && At(f, codeAt + 4, ToNetBytes(|c.errInfo|))
      && At(f, codeAt + 8, c.errInfo) && At(f, dataAt, c.pbData)
      && At(f, dataAt + |c.pbData|, ToNetBytes(1) + [PB_END])
  {
    hide ToNetBytes, At;
    AtSplit(f, k, ToNetBytes(|c.methodName|), c.methodName + ErrPart(c));
    AtSplit(f, k + 4, c.methodName, ErrPart(c));
    var codeAt := k + 4 + |c.methodName|;
    AtSplit(f, codeAt, ToNetBytes(c.errCode), InfoPart(c));
    AtSplit(f, codeAt + 4, ToNetBytes(|c.errInfo|), c.errInfo + Tail(c));
    AtSplit(f, codeAt + 8, c.errInfo, Tail(c));
    AtSplit(f, codeAt + 8 + |c.errInfo|, c.pbData, ToNetBytes(1) + [PB_END]);
  }

  lemma OneInNetBytes()
    ensures ToNetBytes(1) == [0, 0, 0, 1]
  {
  }

  lemma HeadIsRead(mem: seq<byte>, k: nat, m: Message)
    requires InDomain(m) && Encodable(m) && k + FrameLength(m) < |mem| <= INT32_MAX + 1
    requires At(mem, k, Frame(m))
    ensures var c, n := Canon(m), FrameLength(m);
      && Scan(mem, k) == Candidate(k, k + n - 1, n)
      && At(mem, k + 5, ToNetBytes(|c.msgId|) + (c.msgId + NamePart(c)))
  {
    hide ToNetBytes, FromNetBytes;
    var c, n := Canon(m), FrameLength(m);
    var idPart := ToNetBytes(|c.msgId|) + (c.msgId + NamePart(c));
    assert Frame(m) == [PB_START] + (ToNetBytes(n) + idPart);
    AtSplit(mem, k, [PB_START], ToNetBytes(n) + idPart);
    AtSplit(mem, k + 1, ToNetBytes(n), idPart);
    IntAt(mem, k + 1, n);
    assert mem[k] == mem[k..k + 1][0];
    FrameEnds(m);
    assert mem[k + n - 1] == mem[k..k + n][n - 1];
  }

  lemma DataAt(mem: seq<byte>, k: int, c: Message)
    requires At(mem, k, Tail(c))
    ensures k >= 0 && k + |c.pbData| <= |mem| && mem[k..k + |c.pbData|] == c.pbData
  {
    hide ToNetBytes;
    AtSplit(mem, k, c.pbData, ToNetBytes(1) + [PB_END]);
  }

  lemma RestIsRead(mem: seq<byte>, k: nat, c: Message, errAt: int)
    requires InDomain(c) && Canon(c) == c && Encodable(c)
    requires k + FrameLength(c) < |mem| && errAt == k + 13 + |c.msgId| + |c.methodName|
    requires At(mem, errAt, ErrPart(c))
    ensures ParseRest(mem, k, k + FrameLength(c) - 1, FrameLength(c), c.msgId, c.methodName) == Parsed(c)
  {
    hide ToNetBytes, FromNetBytes, ReadText, UntilNul, At, Tail, ReadInt32;
    var end := k + FrameLength(c) - 1;
    AtSplit(mem, errAt, ToNetBytes(c.errCode), InfoPart(c));
    IntAt(mem, errAt, c.errCode);
    TextAt(mem, errAt + 4, c.errInfo, Tail(c), end, INFO_CAPACITY);
    var pbAt := errAt + 8 + |c.errInfo|;
    DataAt(mem, pbAt, c);
    var pbLen := FrameLength(c) - |c.methodName| - |c.msgId| - |c.errInfo| - OVERHEAD;
    assert pbLen == |c.pbData|;
    assert errAt < end;
    assert UntilNul(c.msgId) == c.msgId && UntilNul(c.methodName) == c.methodName && UntilNul(c.errInfo) == c.errInfo;
    assert c == Message(c.msgId, c.methodName, ReadInt32(mem, errAt), c.errInfo, mem[pbAt..pbAt + pbLen]);
  }

  /** Wherever a frame stands, the scan that arrives there takes it and the cursor walk recovers the message,
      whatever bytes the four variable parts contain. */
  lemma FrameIsRead(mem: seq<byte>, k: nat, m: Message)
    requires InDomain(m) && Encodable(m) && k + FrameLength(m) < |mem| <= INT32_MAX + 1
    requires At(mem, k, Frame(m))
    ensures var n := FrameLength(m);
      && Scan(mem, k) == Candidate(k, k + n - 1, n)
      && ParseFrame(mem, k, k + n - 1, n) == Parsed(Canon(m))
    ensures var p := ParseFrame(mem, k, k + FrameLength(m) - 1, FrameLength(m)); p.Parsed? && ReadBack(p.message, m)
  {
    hide ToNetBytes, FromNetBytes, ReadText, Scan, ParseRest, Frame, Tail, At, UntilNul, ErrPart;
    var c, end := Canon(m), k + FrameLength(m) - 1;
    HeadIsRead(mem, k, m);
    TextAt(mem, k + 5, c.msgId, NamePart(c), end, ID_CAPACITY);
    TextAt(mem, k + 9 + |c.msgId|, c.methodName, ErrPart(c), end, NAME_CAPACITY);
    RestIsRead(mem, k, c, k + 13 + |c.msgId| + |c.methodName|);
  }
}
