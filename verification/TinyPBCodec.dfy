/** The TinyPB wire format: what one frame is, and what the resynchronising reader does on any buffer at all. */
module TinyPBCodec {
  import opened Bytes

  const PB_START: byte := 0x02
  const PB_END: byte := 0x03

  /** "123456789", the id the writer puts in place of an empty one. */
  const DEFAULT_ID: seq<byte> := [49, 50, 51, 52, 53, 54, 55, 56, 57]

  /** Sizes of the zero-filled stack arrays that `decode` copies each text into. */
  const ID_CAPACITY := 100
  const NAME_CAPACITY := 512
  const INFO_CAPACITY := 512

  /** Start, end, six four-byte integers: everything in a frame but its four variable parts. */
  const OVERHEAD := 26

  datatype Message = Message(
    msgId: seq<byte>, methodName: seq<byte>, errCode: int32, errInfo: seq<byte>, pbData: seq<byte>)

  function Canon(m: Message): Message {
    if m.msgId == [] then m.(msgId := DEFAULT_ID) else m
  }

  function CanonAll(ms: seq<Message>): (r: seq<Message>)
    ensures |r| == |ms| && forall k :: 0 <= k < |ms| ==> r[k] == Canon(ms[k])
  {
    seq(|ms|, k requires 0 <= k < |ms| => Canon(ms[k]))
  }

  /** What the far side may see of a message: every field as it was sent, only that an empty id is "123456789". */
  predicate ReadBack(got: Message, sent: Message) {
    && got.methodName == sent.methodName && got.errCode == sent.errCode
    && got.errInfo == sent.errInfo && got.pbData == sent.pbData
    && got.msgId == if sent.msgId == [] then [49, 50, 51, 52, 53, 54, 55, 56, 57] else sent.msgId
  }

  predicate AllReadBack(got: seq<Message>, sent: seq<Message>) {
    |got| == |sent| && forall k :: 0 <= k < |sent| ==> ReadBack(got[k], sent[k])
  }

  /** `CanonAll` is that, and nothing else is. */
  lemma CanonReadsBack(got: seq<Message>, ms: seq<Message>)
    ensures got == CanonAll(ms) <==> AllReadBack(got, ms)
    ensures (forall m :: m in ms ==> m.msgId != []) ==> CanonAll(ms) == ms
  {
    if AllReadBack(got, ms) {
      forall k | 0 <= k < |ms| ensures got[k] == Canon(ms[k]) {
        assert ReadBack(got[k], ms[k]);
      }
    }
    if forall m :: m in ms ==> m.msgId != [] {
      forall k | 0 <= k < |ms| ensures Canon(ms[k]) == ms[k] {
        assert ms[k] in ms;
      }
    }
  }

  /** `decode` returned the messages `ms`, as sent but for empty ids. */
  predicate ReturnedAs(outcome: Outcome, ms: seq<Message>) {
    outcome.Returned? && AllReadBack(outcome.messages, ms)
  }

  /** A text that survives the trip through a C string in an array of `capacity` bytes. */
  predicate IsText(s: seq<byte>, capacity: nat) {
    |s| < capacity && 0 !in s
  }

  predicate InDomain(m: Message) {
    IsText(m.msgId, ID_CAPACITY) && IsText(m.methodName, NAME_CAPACITY) && IsText(m.errInfo, INFO_CAPACITY)
  }

  lemma DomainExactly(m: Message)
    ensures InDomain(m) <==> |m.msgId| < 100 && |m.methodName| < 512 && |m.errInfo| < 512
                             && 0 !in m.msgId && 0 !in m.methodName && 0 !in m.errInfo
  {
  }

  // ---------------------------------------------------------------- writer

  function FrameLength(m: Message): (n: nat)
    ensures n >= OVERHEAD
  {
    OVERHEAD + |Canon(m).msgId| + |m.methodName| + |m.errInfo| + |m.pbData|
  }

  /** The length the writer computes fits its `int`. */
  predicate Encodable(m: Message) {
    FrameLength(m) <= INT32_MAX
  }

  predicate AllEncodable(ms: seq<Message>) {
    forall m :: m in ms ==> Encodable(m)
  }

  function Tail(m: Message): seq<byte> {
    m.pbData + (ToNetBytes(1) + [PB_END])
  }

  function Frame(m: Message): (f: seq<byte>)
    requires Encodable(m)
    ensures |f| == FrameLength(m)
  {
    var c := Canon(m);
    [PB_START] + (ToNetBytes(FrameLength(m)) +
    (ToNetBytes(|c.msgId|) + (c.msgId +
    (ToNetBytes(|c.methodName|) + (c.methodName +
    (ToNetBytes(c.errCode) +
    (ToNetBytes(|c.errInfo|) + (c.errInfo + Tail(c)))))))))
  }

  function EncodeAll(ms: seq<Message>): (s: seq<byte>)
    requires AllEncodable(ms)
  {
    if ms == [] then [] else Frame(ms[0]) + EncodeAll(ms[1..])
  }

  // ---------------------------------------------------------------- reader

  /** What one call of `decode` comes to: it returns, it repeats one iteration for ever at an early
      `continue`, or it reads or writes outside the memory it may touch. */
  datatype Outcome = Returned(messages: seq<Message>) | Spins | Faults

  /** `buffer.c_str()`: the bytes and the terminating zero, which may be read too. The reader works on this
      memory; `|mem| - 1` is `buffer_size`. */
  function CString(buf: seq<byte>): seq<byte> {
    buf + [0]
  }

  predicate Readable(mem: seq<byte>, at: int, n: int) {
    0 <= at && 0 <= n && at + n <= |mem|
  }

  function ReadInt32(mem: seq<byte>, at: int): int32
    requires Readable(mem, at, 4)
  {
    FromNetBytes(mem[at..at + 4])
  }

  /** `std::string(char *)`. */
  function UntilNul(s: seq<byte>): (r: seq<byte>)
    ensures r <= s && 0 !in r
    ensures r == s || s[|r|] == 0
  {
    if s == [] || s[0] == 0 then [] else [s[0]] + UntilNul(s[1..])
  }

  datatype Candidate = NoFrame | BadScan | Candidate(at: nat, end: int, length: int)

  /** The inner loop: the first start byte whose embedded length leads to an end byte. */
  function Scan(mem: seq<byte>, i: nat): (c: Candidate)
    ensures c.Candidate? ==> i <= c.at && Delimited(mem, c)
    decreases |mem| - i
  {
    if i >= |mem| - 1 then NoFrame
    else if mem[i] != PB_START || i + 1 >= |mem| - 1 then Scan(mem, i + 1)
    else if !Readable(mem, i + 1, 4) then BadScan
    else
      var length := ReadInt32(mem, i + 1);
      var end := i + length - 1;
      if i + length > INT32_MAX then BadScan
      else if end >= |mem| - 1 then Scan(mem, i + 1)
      else if end < 0 then BadScan
      else if mem[end] == PB_END then Candidate(i, end, length)
      else Scan(mem, i + 1)
  }

  predicate Delimited(mem: seq<byte>, c: Candidate)
    requires c.Candidate?
  {
    && c.at < |mem| - 1 && 0 <= c.end < |mem| - 1 && c.end == c.at + c.length - 1
    && mem[c.at] == PB_START && mem[c.end] == PB_END
  }

  /** A scan that starts at an earlier find stops there again. */
  lemma {:induction false} ScanStays(mem: seq<byte>, i: nat)
    requires Scan(mem, i).Candidate?
    ensures Scan(mem, Scan(mem, i).at) == Scan(mem, i)
    decreases |mem| - i
  {
    if Scan(mem, i).at > i {
      ScanStays(mem, i + 1);
    }
  }

  datatype Text = TextSpins | TextFaults | Text(bytes: seq<byte>)

  /** A length, then that many bytes into a zero-filled array of `capacity`; if they fill it, one of them has to be the
      zero that ends the string. */
  function ReadText(mem: seq<byte>, at: int, end: int, capacity: nat): (t: Text)
    ensures t.Text? ==> at + 4 + |t.bytes| <= |mem|
  {
    if at >= end then TextSpins
    else if !Readable(mem, at, 4) then TextFaults
    else
      var n := ReadInt32(mem, at);
      if n < 0 || n > capacity || !Readable(mem, at + 4, n) then TextFaults
      else
        var bytes := mem[at + 4..at + 4 + n];
        if n == capacity && 0 !in bytes then TextFaults else Text(bytes)
  }

  /** What becomes of the text fits the array together with its zero. */
  lemma TextFits(mem: seq<byte>, at: int, end: int, capacity: nat)
    requires ReadText(mem, at, end, capacity).Text?
    ensures |UntilNul(ReadText(mem, at, end, capacity).bytes)| < capacity
  {
    hide ReadInt32;
  }

  datatype Parse = ParseSpins | ParseFaults | Parsed(message: Message)

  /** The cursor walk over one candidate frame. */
  function ParseFrame(mem: seq<byte>, at: nat, end: int, length: int): (p: Parse)
    requires end == at + length - 1 < |mem| - 1
  {
    match ReadText(mem, at + 5, end, ID_CAPACITY)
    case TextSpins => ParseSpins
    case TextFaults => ParseFaults
    case Text(id) =>
      match ReadText(mem, at + 9 + |id|, end, NAME_CAPACITY)
      case TextSpins => ParseSpins
      case TextFaults => ParseFaults
      case Text(name) => ParseRest(mem, at, end, length, id, name)
  }

  function ParseRest(mem: seq<byte>, at: nat, end: int, length: int, id: seq<byte>, name: seq<byte>): (p: Parse)
    requires end == at + length - 1 < |mem| - 1
  {
    var errAt := at + 13 + |id| + |name|;
    if errAt >= end then ParseSpins
    else if !Readable(mem, errAt, 4) then ParseFaults
    else
      match ReadText(mem, errAt + 4, end, INFO_CAPACITY)
      case TextSpins => ParseSpins
      case TextFaults => ParseFaults
      case Text(info) =>
        var pbAt := errAt + 8 + |info|;
        var pbLen := length - |name| - |id| - |info| - OVERHEAD;
        if pbLen < 0 then ParseFaults
        else
          Parsed(Message(UntilNul(id), UntilNul(name), ReadInt32(mem, errAt), UntilNul(info), mem[pbAt..pbAt + pbLen]))
  }

  /** A length at `at`, that many bytes up to `next`, and in them the text up to the first zero. */
  predicate FieldAt(mem: seq<byte>, at: int, text: seq<byte>, next: int) {
    && Readable(mem, at, 4)
    && var n := ReadInt32(mem, at);
       n >= 0 && Readable(mem, at + 4, n) && next == at + 4 + n && text == UntilNul(mem[at + 4..next])
  }

  /** What a frame that parses says, by position: id, name, code and error text one behind the other, and the data from
      there to the checksum, whatever that is. */
  lemma ParsedFields(mem: seq<byte>, at: nat, end: int, length: int) returns (nameAt: int, codeAt: int, dataAt: int)
    requires end == at + length - 1 < |mem| - 1 && ParseFrame(mem, at, end, length).Parsed?
    ensures var m := ParseFrame(mem, at, end, length).message;
      && FieldAt(mem, at + 5, m.msgId, nameAt) && FieldAt(mem, nameAt, m.methodName, codeAt)
      && Readable(mem, codeAt, 4) && m.errCode == ReadInt32(mem, codeAt) && FieldAt(mem, codeAt + 4, m.errInfo, dataAt)
      && 0 <= dataAt <= end - 4 && m.pbData == mem[dataAt..end - 4]
  {
    hide ReadInt32, UntilNul, ReadText;
    TextIs(mem, at + 5, end, ID_CAPACITY);
    nameAt := at + 9 + ReadInt32(mem, at + 5);
    TextIs(mem, nameAt, end, NAME_CAPACITY);
    codeAt := nameAt + 4 + ReadInt32(mem, nameAt);
    TextIs(mem, codeAt + 4, end, INFO_CAPACITY);
    dataAt := codeAt + 8 + ReadInt32(mem, codeAt + 4);
  }

  lemma TextIs(mem: seq<byte>, at: int, end: int, capacity: nat)
    requires ReadText(mem, at, end, capacity).Text?
    ensures Readable(mem, at, 4) && var n := ReadInt32(mem, at);
      n >= 0 && Readable(mem, at + 4, n) && ReadText(mem, at, end, capacity).bytes == mem[at + 4..at + 4 + n]
  {
    hide ReadInt32;
  }

  /** A frame that parses is at least `OVERHEAD` bytes long: `decode` moves on by that much at every message. */
  lemma ParsedIsLong(mem: seq<byte>, at: nat, end: int, length: int)
    requires end == at + length - 1 < |mem| - 1 && ParseFrame(mem, at, end, length).Parsed?
    ensures length >= OVERHEAD && end + 1 >= at + OVERHEAD
  {
  }

  function Prepend(m: Message, rest: Outcome): Outcome {
    if rest.Returned? then Returned([m] + rest.messages) else rest
  }

  /** The outer loop from `start_index == start`. */
  function DecodeFrom(mem: seq<byte>, start: nat): Outcome
    requires start < |mem|
    decreases |mem| - start, 1
  {
    Take(mem, Scan(mem, start))
  }

  function Take(mem: seq<byte>, c: Candidate): Outcome
    requires c.Candidate? ==> Delimited(mem, c)
    decreases if c.Candidate? then |mem| - c.at else 0, 0
  {
    match c
    case NoFrame => Returned([])
    case BadScan => Faults
    case Candidate(at, end, length) =>
      match ParseFrame(mem, at, end, length)
      case ParseSpins => Spins
      case ParseFaults => Faults
      case Parsed(m) => Prepend(m, DecodeFrom(mem, end + 1))
  }

  function Decode(buf: seq<byte>): Outcome {
    DecodeFrom(CString(buf), 0)
  }
}
