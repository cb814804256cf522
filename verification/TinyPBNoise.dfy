/** Which noise between frames the reader gets over, exactly. */
module TinyPBNoise {
  import opened Bytes
  import opened TinyPBCodec
  import opened TinyPBFrames

  /** Position `k` stops the scan: a start byte whose embedded length cannot be read or used, or leads to an end byte.
      */
  predicate Opens(mem: seq<byte>, k: nat) {
    && k + 1 < |mem| - 1 && mem[k] == PB_START
    && (!Readable(mem, k + 1, 4) || EndsFrame(mem, k + ReadInt32(mem, k + 1) - 1))
  }

  predicate EndsFrame(mem: seq<byte>, end: int) {
    end >= INT32_MAX || end < 0 || (end < |mem| - 1 && mem[end] == PB_END)
  }

  predicate OpensNothing(mem: seq<byte>, i: nat, j: nat) {
    forall k :: i <= k < j ==> !Opens(mem, k)
  }

  lemma ScanIsLocal(mem: seq<byte>, i: nat)
    requires i < |mem| <= INT32_MAX + 1
    ensures Opens(mem, i) ==> Scan(mem, i) == BadScan || (Scan(mem, i).Candidate? && Scan(mem, i).at == i)
    ensures !Opens(mem, i) && i < |mem| - 1 ==> Scan(mem, i) == Scan(mem, i + 1)
  {
    hide ReadInt32;
  }

  /** The scan comes to a candidate at `j` exactly over bytes that open nothing. */
  lemma {:induction false} ScanReachesExactly(mem: seq<byte>, i: nat, j: nat)
    requires i <= j < |mem| <= INT32_MAX + 1 && Scan(mem, j).Candidate? && Scan(mem, j).at == j
    ensures Scan(mem, i) == Scan(mem, j) <==> OpensNothing(mem, i, j)
    decreases j - i
  {
    hide Scan, Opens;
    if i < j {
      ScanIsLocal(mem, i);
      if !Opens(mem, i) {
        ScanReachesExactly(mem, i + 1, j);
      }
    }
  }

  lemma ScanEnd(mem: seq<byte>)
    requires mem != []
    ensures Scan(mem, |mem| - 1) == NoFrame
  {
  }

  /** And it finds nothing more exactly if the rest opens nothing. */
  lemma {:induction false} ScanEndsExactly(mem: seq<byte>, i: nat)
    requires i < |mem| <= INT32_MAX + 1
    ensures Scan(mem, i) == NoFrame <==> OpensNothing(mem, i, |mem| - 1)
    decreases |mem| - i
  {
    if i == |mem| - 1 {
      ScanEnd(mem);
    } else {
      ScanIsLocal(mem, i);
      hide Scan, Opens;
      if !Opens(mem, i) {
        ScanEndsExactly(mem, i + 1);
      }
    }
  }

  /** All that `decode` stops at from `start` on, up to the first thing it does not get over. */
  function Stops(mem: seq<byte>, start: nat): seq<Candidate>
    requires start < |mem|
    decreases |mem| - start
  {
    var c := Scan(mem, start);
    match c
    case NoFrame => []
    case BadScan => [c]
    case Candidate(at, end, length) =>
      match ParseFrame(mem, at, end, length)
      case Parsed(_) => [c] + (ParsedIsLong(mem, at, end, length); Stops(mem, end + 1))
      case _ => [c]
  }

  /** `gaps[0] frame gaps[1] frame ... gaps[n]`. */
  function Stream(ms: seq<Message>, gaps: seq<seq<byte>>): seq<byte>
    requires |gaps| == |ms| + 1 && AllEncodable(ms)
  {
    if ms == [] then gaps[0] else gaps[0] + (Frame(ms[0]) + Stream(ms[1..], gaps[1..]))
  }

  predicate AllInDomain(ms: seq<Message>) {
    forall m :: m in ms ==> InDomain(m)
  }

  lemma StopsHead(mem: seq<byte>, i: nat)
    requires i < |mem|
    ensures Stops(mem, i) == [] <==> Scan(mem, i) == NoFrame
    ensures Stops(mem, i) != [] ==> Stops(mem, i)[0] == Scan(mem, i)
  {
  }

  lemma StopsNext(mem: seq<byte>, i: nat, c: Candidate)
    requires i < |mem| && Scan(mem, i) == c && c.Candidate? && ParseFrame(mem, c.at, c.end, c.length).Parsed?
    ensures c.end + 1 < |mem| && Stops(mem, i) == [c] + Stops(mem, c.end + 1)
  {
    hide ParseFrame, Scan;
    ParsedIsLong(mem, c.at, c.end, c.length);
  }

  /** Where the frames of a stream are. */
  function FramesIn(ms: seq<Message>, gaps: seq<seq<byte>>, k: nat): seq<Candidate>
    requires |gaps| == |ms| + 1 && AllEncodable(ms)
  {
    if ms == [] then []
    else
      var at, n := k + |gaps[0]|, FrameLength(ms[0]);
      [Candidate(at, at + n - 1, n)] + FramesIn(ms[1..], gaps[1..], at + n)
  }

  /** No position of a gap stops the scan in `mem`. */
  predicate GapsOpenNothing(mem: seq<byte>, ms: seq<Message>, gaps: seq<seq<byte>>, k: nat)
    requires |gaps| == |ms| + 1 && AllEncodable(ms)
  {
    OpensNothing(mem, k, k + |gaps[0]|)
    && (ms != [] ==> GapsOpenNothing(mem, ms[1..], gaps[1..], k + |gaps[0]| + FrameLength(ms[0])))
  }

  /** The first frame of a stream is found exactly over a gap that opens nothing, and it is read back. */
  lemma FirstFrame(pre: seq<byte>, ms: seq<Message>, gaps: seq<seq<byte>>)
    requires |gaps| == |ms| + 1 && AllEncodable(ms) && AllInDomain(ms) && ms != []
    requires |pre + Stream(ms, gaps)| <= INT32_MAX
    ensures var mem, k, n := CString(pre + Stream(ms, gaps)), |pre| + |gaps[0]|, FrameLength(ms[0]);
      && k + n < |mem| && Scan(mem, k) == Candidate(k, k + n - 1, n)
      && ParseFrame(mem, k, k + n - 1, n) == Parsed(Canon(ms[0]))
      && (Scan(mem, |pre|) == Scan(mem, k) <==> OpensNothing(mem, |pre|, k))
      && mem == CString(pre + gaps[0] + Frame(ms[0]) + Stream(ms[1..], gaps[1..]))
      && |pre + gaps[0] + Frame(ms[0])| == k + n
  {
    hide Frame, Scan, ParseFrame, Opens, OpensNothing;
    var mem := CString(pre + Stream(ms, gaps));
    var before, rest := pre + gaps[0], Stream(ms[1..], gaps[1..]);
    assert mem == before + (Frame(ms[0]) + (rest + [0]));
    AtMiddle(before, Frame(ms[0]), rest + [0]);
    FrameIsRead(mem, |before|, ms[0]);
    ScanReachesExactly(mem, |pre|, |before|);
    assert mem == CString(before + Frame(ms[0]) + rest);
  }

  lemma {:induction false} StopsExactly(pre: seq<byte>, ms: seq<Message>, gaps: seq<seq<byte>>)
    requires |gaps| == |ms| + 1 && AllEncodable(ms) && AllInDomain(ms)
    requires |pre + Stream(ms, gaps)| <= INT32_MAX
    ensures var mem := CString(pre + Stream(ms, gaps));
      Stops(mem, |pre|) == FramesIn(ms, gaps, |pre|) <==> GapsOpenNothing(mem, ms, gaps, |pre|)
    decreases |ms|
  {
    hide Frame, FrameLength, Scan, ParseFrame, Opens, OpensNothing, Stops, CString;
    var mem := CString(pre + Stream(ms, gaps));
    if ms == [] {
      EndIsEnd(pre, ms, gaps);
    } else {
      FirstFrame(pre, ms, gaps);
      hide Stream;
      StopsHead(mem, |pre|);
      var through := pre + gaps[0] + Frame(ms[0]);
      var c := Scan(mem, |pre| + |gaps[0]|);
      if Scan(mem, |pre|) == c {
        StopsNext(mem, |pre|, c);
        StopsExactly(through, ms[1..], gaps[1..]);
        SameTail(c, Stops(mem, |through|), FramesIn(ms[1..], gaps[1..], |through|));
      }
    }
  }

  lemma SameTail(c: Candidate, x: seq<Candidate>, y: seq<Candidate>)
    ensures [c] + x == [c] + y <==> x == y
  {
    assert ([c] + x)[1..] == x && ([c] + y)[1..] == y;
  }

  lemma EndIsEnd(pre: seq<byte>, ms: seq<Message>, gaps: seq<seq<byte>>)
    requires |gaps| == 1 && ms == [] && |pre + Stream(ms, gaps)| <= INT32_MAX
    ensures var mem := CString(pre + Stream(ms, gaps));
      && |pre| < |mem| && (Scan(mem, |pre|) == NoFrame <==> GapsOpenNothing(mem, ms, gaps, |pre|))
      && (Stops(mem, |pre|) == [] <==> Scan(mem, |pre|) == NoFrame)
  {
    hide Scan, Opens;
    var mem := CString(pre + Stream(ms, gaps));
    StopsHead(mem, |pre|);
    ScanEndsExactly(mem, |pre|);
  }

  /** The batch is read frame by frame, each where it stands and nothing else, exactly if no gap opens anything in its
      buffer. */
  lemma NoiseIsHarmlessExactly(ms: seq<Message>, gaps: seq<seq<byte>>)
    requires |gaps| == |ms| + 1 && AllEncodable(ms) && AllInDomain(ms)
    requires |Stream(ms, gaps)| <= INT32_MAX
    ensures var mem := CString(Stream(ms, gaps));
      Stops(mem, 0) == FramesIn(ms, gaps, 0) <==> GapsOpenNothing(mem, ms, gaps, 0)
  {
    StopsExactly([], ms, gaps);
    assert [] + Stream(ms, gaps) == Stream(ms, gaps);
  }

  /** Then all messages come back. */
  lemma {:induction false} DecodeNoisyFrom(pre: seq<byte>, ms: seq<Message>, gaps: seq<seq<byte>>)
    requires |gaps| == |ms| + 1 && AllEncodable(ms) && AllInDomain(ms)
    requires |pre + Stream(ms, gaps)| <= INT32_MAX
    requires GapsOpenNothing(CString(pre + Stream(ms, gaps)), ms, gaps, |pre|)
    ensures DecodeFrom(CString(pre + Stream(ms, gaps)), |pre|) == Returned(CanonAll(ms))
    decreases |ms|
  {
    hide Frame, FrameLength, Scan, ParseFrame, Opens, OpensNothing, CString;
    if ms == [] {
      EndIsEnd(pre, ms, gaps);
    } else {
      FirstFrame(pre, ms, gaps);
      hide Stream;
      DecodeNoisyFrom(pre + gaps[0] + Frame(ms[0]), ms[1..], gaps[1..]);
      assert CanonAll(ms) == [Canon(ms[0])] + CanonAll(ms[1..]);
    }
  }

  lemma DecodeNoisy(ms: seq<Message>, gaps: seq<seq<byte>>)
    requires |gaps| == |ms| + 1 && AllEncodable(ms) && AllInDomain(ms)
    requires |Stream(ms, gaps)| <= INT32_MAX && GapsOpenNothing(CString(Stream(ms, gaps)), ms, gaps, 0)
    ensures Decode(Stream(ms, gaps)) == Returned(CanonAll(ms))
    ensures ReturnedAs(Decode(Stream(ms, gaps)), ms)
  {
    CanonReadsBack(CanonAll(ms), ms);
    assert [] + Stream(ms, gaps) == Stream(ms, gaps);
    DecodeNoisyFrom([], ms, gaps);
  }
}
