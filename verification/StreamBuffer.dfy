/** `Buffer`: a byte string with a soft limit, and the length framing that it can put on a stream. */
module StreamBuffer {
  import opened Bytes

  const MAX_BUF_SIZE := 1_000_000
  const SIZE_T := 0x1_0000_0000_0000_0000

  /** Unsigned 64-bit `maxLen_ - buf_.size()`, which wraps once the string has outgrown the limit. */
  function Room(maxLen: nat, size: nat): nat {
    (maxLen - size) % SIZE_T
  }

  lemma RoomIs(maxLen: nat, size: nat)
    requires size <= maxLen < SIZE_T
    ensures Room(maxLen, size) == maxLen - size
  {
  }

  function Appended(maxLen: nat, buf: seq<byte>, data: seq<byte>): seq<byte> {
    if Room(maxLen, |buf|) >= |data| then buf + data else buf
  }

  /** For a string within its limit, `append` takes the data exactly when it stays within it, and otherwise drops it
      without a word. */
  lemma AppendKeepsExactly(maxLen: nat, buf: seq<byte>, data: seq<byte>)
    requires |buf| <= maxLen < SIZE_T
    ensures Appended(maxLen, buf, data) == buf + data <==> data == [] || |buf| + |data| <= maxLen
  {
    if data != [] {
      assert |buf + data| != |buf|;
    } else {
      assert buf + data == buf;
    }
  }

  /** For one that has outgrown its limit, as only `appendwithsep` can make it, the room wraps round and everything is
      taken. */
  lemma OvergrownTakesAll(maxLen: nat, buf: seq<byte>, data: seq<byte>)
    requires maxLen < |buf| && |buf| + |data| < SIZE_T
    ensures Appended(maxLen, buf, data) == buf + data
  {
    assert (maxLen - |buf|) % SIZE_T == maxLen - |buf| + SIZE_T;
  }

  /** `pickmessage`: nothing yet, or a message and what remains. */
  datatype Pick = Nothing | Message(text: seq<byte>, rest: seq<byte>)

  function Picked(sep: nat, buf: seq<byte>): Pick {
    if buf == [] then Nothing
    else if sep == 0 then Message(buf, [])
    else if sep == 1 then
      if |buf| < 4 then Nothing
      else
        var len := FromHostBytes(buf[..4]);
        // `len + 4` is compared as a size_t: below zero it is larger than any buffer.
        if len + 4 < 0 || |buf| < len + 4 then Nothing
        else if len < 0 then Message(buf[4..], buf[len + 4..])
        else Message(buf[4..4 + len], buf[4 + len..])
    else Message([], buf)
  }

  function WithSep(sep: nat, data: seq<byte>): seq<byte> {
    if sep == 0 then data else if sep == 1 then ToHostBytes(|data|) + data else []
  }

  class Buffer {
    var buf: seq<byte>
    const sep: nat
    const maxLen: nat

    constructor (sep: nat)
      ensures this.sep == sep && maxLen == MAX_BUF_SIZE && buf == []
    {
      this.sep, maxLen, buf := sep, MAX_BUF_SIZE, [];
    }

    constructor Limited(limit: nat)
      ensures sep == 0 && buf == [] && maxLen == if limit > MAX_BUF_SIZE then MAX_BUF_SIZE else limit
    {
      sep, buf := 0, [];
      maxLen := if limit > MAX_BUF_SIZE then MAX_BUF_SIZE else limit;
    }

    function avail(): nat
      reads this
    {
      Room(maxLen, |buf|)
    }

    method append(data: seq<byte>)
      modifies this
      ensures buf == Appended(maxLen, old(buf), data)
    {
      if avail() >= |data| {
        buf := buf + data;
      }
    }

    method reset()
      modifies this
      ensures buf == []
    {
      buf := [];
    }

    /** `buf_.erase(pos, nn)` for a range inside the string. */
    method erase(pos: nat, nn: nat)
      requires pos + nn <= |buf|
      modifies this
      ensures buf == old(buf)[..pos] + old(buf)[pos + nn..]
    {
      buf := buf[..pos] + buf[pos + nn..];
    }

    method appendwithsep(data: seq<byte>)
      modifies this
      ensures buf == old(buf) + WithSep(sep, data)
    {
      if sep == 0 {
        buf := buf + data;
      } else if sep == 1 {
        buf := buf + ToHostBytes(|data|);
        buf := buf + data;
      }
    }

    method pickmessage() returns (ok: bool, ss: seq<byte>)
      modifies this
      ensures match Picked(sep, old(buf))
        case Nothing => !ok && buf == old(buf)
        case Message(text, rest) => ok && ss == text && buf == rest
    {
      ss := [];
      if buf == [] {
        return false, ss;
      }
      if sep == 0 {
        ss := buf;
        buf := [];
      } else if sep == 1 {
        if |buf| < 4 {
          return false, ss;
        }
        var len: int := FromHostBytes(buf[..4]);
        if len + 4 < 0 || |buf| < len + 4 {
          return false, ss;
        }
        ss := if len < 0 then buf[4..] else buf[4..4 + len];
        erase(0, len + 4);
      }
      return true, ss;
    }
  }

  // ------------------------------------------------------------------ framing

  predicate Framable(ms: seq<seq<byte>>) {
    forall m :: m in ms ==> |m| + 4 <= INT32_MAX
  }

  /** The bytes a list of messages becomes with separator 1. */
  function Framed(ms: seq<seq<byte>>): seq<byte> {
    if ms == [] then [] else WithSep(1, ms[0]) + Framed(ms[1..])
  }

  /** What `appendwithsep` puts into an empty buffer `pickmessage` takes out again, with either separator. */
  lemma SepRoundTrip(sep: nat, data: seq<byte>)
    requires (sep == 0 && data != []) || (sep == 1 && |data| + 4 <= INT32_MAX)
    ensures Picked(sep, WithSep(sep, data)) == Message(data, [])
  {
    if sep == 1 {
      hide ToHostBytes, FromHostBytes;
      HostBytesRoundTrip(|data|);
      var buf := WithSep(1, data);
      assert buf[..4] == ToHostBytes(|data|) && buf[4..4 + |data|] == data && buf[4 + |data|..] == [];
    }
  }

  lemma {:induction false} FramedAppend(a: seq<seq<byte>>, b: seq<seq<byte>>)
    ensures Framed(a + b) == Framed(a) + Framed(b)
  {
    if a == [] {
      assert a + b == b;
    } else {
      assert (a + b)[1..] == a[1..] + b;
      FramedAppend(a[1..], b);
    }
  }

  /** What is left of the stream of `ms` after `k` messages: `rest` has arrived, `ahead` has not. */
  predicate Pending(ms: seq<seq<byte>>, k: nat, rest: seq<byte>, ahead: seq<byte>) {
    k <= |ms| && rest + ahead == Framed(ms[k..])
  }

  /** `pickmessage` on the head of such a stream gives the next message exactly when all of it has arrived. */
  lemma PickNext(ms: seq<seq<byte>>, k: nat, rest: seq<byte>, ahead: seq<byte>)
    requires Framable(ms) && Pending(ms, k, rest, ahead)
    ensures if k < |ms| && |rest| >= 4 + |ms[k]|
      then var rest' := rest[4 + |ms[k]|..];
        && Picked(1, rest) == Message(ms[k], rest') && rest == WithSep(1, ms[k]) + rest'
        && Pending(ms, k + 1, rest', ahead)
      else Picked(1, rest) == Nothing
  {
    if k < |ms| {
      var m, tail := ms[k], Framed(ms[k + 1..]);
      assert ms[k..][1..] == ms[k + 1..];
      assert m in ms;
      PickOne(m, tail, rest, ahead);
    } else {
      assert |rest + ahead| == |rest| + |ahead|;
    }
  }

  lemma PickOne(m: seq<byte>, tail: seq<byte>, rest: seq<byte>, ahead: seq<byte>)
    requires |m| + 4 <= INT32_MAX && rest + ahead == WithSep(1, m) + tail
    ensures if |rest| >= 4 + |m|
      then var rest' := rest[4 + |m|..];
        Picked(1, rest) == Message(m, rest') && rest == WithSep(1, m) + rest' && rest' + ahead == tail
      else Picked(1, rest) == Nothing
  {
    hide ToHostBytes, FromHostBytes;
    var all := ToHostBytes(|m|) + (m + tail);
    assert all == rest + ahead;
    HostBytesRoundTrip(|m|);
    if |rest| >= 4 {
      assert rest[..4] == all[..4] == ToHostBytes(|m|);
    }
    if |rest| >= 4 + |m| {
      assert rest[4..4 + |m|] == all[4..4 + |m|] == m;
      assert rest[4 + |m|..] + ahead == all[4 + |m|..] == tail;
    }
  }

  /** What is left in the buffer when the first `n` bytes of the stream of `ms` have arrived and all that is complete
      has been picked: the part of the message under way. */
  function Left(ms: seq<seq<byte>>, n: nat): (r: nat)
    ensures r <= n
  {
    if ms == [] || n < 4 + |ms[0]| then n else Left(ms[1..], n - 4 - |ms[0]|)
  }

  /** Chunk `i` fits beside what is left when it arrives. */
  predicate ChunkFits(limit: nat, ms: seq<seq<byte>>, chunks: seq<seq<byte>>, i: nat)
    requires i < |chunks|
  {
    Left(ms, |Concat(chunks[..i])|) + |chunks[i]| <= limit
  }

  /** All do. */
  predicate Fits(limit: nat, ms: seq<seq<byte>>, chunks: seq<seq<byte>>) {
    forall i: nat :: i < |chunks| ==> ChunkFits(limit, ms, chunks, i)
  }

  /** The receiving loop: append each chunk as it arrives, then pick until nothing comes. However the stream is cut into
      chunks that fit as they arrive, exactly the messages that have arrived completely come out, in order, and the
      buffer holds what has arrived of the next one. */
  method Receive(b: Buffer, ghost ms: seq<seq<byte>>, chunks: seq<seq<byte>>, ghost ahead: seq<byte>)
    returns (out: seq<seq<byte>>)
    requires b.sep == 1 && b.buf == [] && b.maxLen < SIZE_T
    requires Framable(ms) && Concat(chunks) + ahead == Framed(ms)
    requires Fits(b.maxLen, ms, chunks)
    modifies b
    ensures |out| <= |ms| && out == ms[..|out|] && Framed(out) + b.buf == Concat(chunks)
    ensures |out| < |ms| ==> |b.buf| < 4 + |ms[|out|]|
    ensures ahead == [] ==> out == ms && b.buf == []
  {
    hide Framed, Left;
    out := [];
    NothingArrived(ms, Concat(chunks) + ahead);
    assert chunks[..0] == [] && chunks[0..] == chunks;
    for i := 0 to |chunks|
      invariant Arrived(ms, out, b.buf, Concat(chunks[i..]) + ahead)
      invariant Framed(out) + b.buf == Concat(chunks[..i]) && |b.buf| <= b.maxLen
    {
      ghost var c, later := chunks[i], Concat(chunks[i + 1..]) + ahead;
      ConcatAround(chunks, i, ahead);
      ghost var sofar := Framed(out) + b.buf;
      ChunkFitsExactly(b.maxLen, ms, chunks, i, out, b.buf, later);
      assert ChunkFits(b.maxLen, ms, chunks, i);
      out := ReceiveOne(b, ms, out, chunks[i], later);
      assert Framed(out) + b.buf == sofar + c;
    }
    assert chunks[..|chunks|] == chunks && Concat(chunks[|chunks|..]) + ahead == ahead;
    AllArrived(ms, out, b.buf, ahead);
  }

  lemma AllArrived(ms: seq<seq<byte>>, out: seq<seq<byte>>, buf: seq<byte>, ahead: seq<byte>)
    requires Arrived(ms, out, buf, ahead)
    ensures ahead == [] ==> out == ms && buf == []
  {
    if ahead == [] {
      assert buf + ahead == buf;
      FrameIsLong(ms[|out|..]);
    }
  }

  lemma FrameIsLong(ms: seq<seq<byte>>)
    ensures if ms == [] then Framed(ms) == [] else |Framed(ms)| >= 4 + |ms[0]|
  {
  }

  lemma ConcatAround(chunks: seq<seq<byte>>, i: nat, ahead: seq<byte>)
    requires i < |chunks|
    ensures Concat(chunks[i..]) + ahead == chunks[i] + (Concat(chunks[i + 1..]) + ahead)
    ensures Concat(chunks[..i + 1]) == Concat(chunks[..i]) + chunks[i]
  {
    assert chunks[i..] == [chunks[i]] + chunks[i + 1..];
    assert chunks[..i + 1] == chunks[..i] + [chunks[i]];
    ConcatLast(chunks[..i], chunks[i]);
  }

  /** One chunk: append it, then pick until nothing comes. */
  method ReceiveOne(b: Buffer, ghost ms: seq<seq<byte>>, before: seq<seq<byte>>, c: seq<byte>, ghost later: seq<byte>)
    returns (out: seq<seq<byte>>)
    requires b.sep == 1 && b.maxLen < SIZE_T && Framable(ms) && |b.buf| + |c| <= b.maxLen
    requires Arrived(ms, before, b.buf, c + later)
    modifies b
    ensures Arrived(ms, out, b.buf, later) && |b.buf| <= b.maxLen
    ensures Framed(out) + b.buf == Framed(before) + old(b.buf) + c
  {
    hide Framed, Appended;
    ghost var was := b.buf;
    AppendKeepsExactly(b.maxLen, was, c);
    if c == [] {
      assert was + c == was;
    }
    b.append(c);
    assert was + (c + later) == (was + c) + later;
    out := Drain(b, ms, before, later);
    assert Framed(before) + (was + c) == Framed(before) + was + c;
  }

  lemma NothingArrived(ms: seq<seq<byte>>, all: seq<byte>)
    requires all == Framed(ms)
    ensures Arrived(ms, [], [], all) && Framed([]) + [] == []
  {
    assert ms[..0] == [] && ms[0..] == ms && [] + all == all;
  }

  /** What the loop has before each chunk: a prefix of the messages out, less than one frame in the buffer. */
  predicate Arrived(ms: seq<seq<byte>>, out: seq<seq<byte>>, buf: seq<byte>, later: seq<byte>) {
    && |out| <= |ms| && out == ms[..|out|] && Pending(ms, |out|, buf, later)
    && (|out| < |ms| ==> |buf| < 4 + |ms[|out|]|)
  }

  lemma {:induction false} LeftAfter(ms: seq<seq<byte>>, k: nat, r: nat)
    requires k <= |ms| && (k < |ms| ==> r < 4 + |ms[k]|)
    ensures Left(ms, |Framed(ms[..k])| + r) == r
    decreases k
  {
    if k > 0 {
      assert ms[..k][1..] == ms[1..][..k - 1];
      LeftAfter(ms[1..], k - 1, r);
    }
  }

  /** When chunk `i` arrives the buffer holds what is left, so the chunk is taken exactly if it fits; one that does not
      fit is dropped whole. */
  lemma ChunkFitsExactly(limit: nat, ms: seq<seq<byte>>, chunks: seq<seq<byte>>, i: nat, out: seq<seq<byte>>,
                         buf: seq<byte>, later: seq<byte>)
    requires i < |chunks| && limit < SIZE_T && |buf| <= limit
    requires Arrived(ms, out, buf, chunks[i] + later) && Framed(out) + buf == Concat(chunks[..i])
    ensures ChunkFits(limit, ms, chunks, i) <==> |buf| + |chunks[i]| <= limit
    ensures Appended(limit, buf, chunks[i]) == if ChunkFits(limit, ms, chunks, i) then buf + chunks[i] else buf
  {
    assert |Concat(chunks[..i])| == |Framed(out)| + |buf|;
    LeftAfter(ms, |out|, |buf|);
    AppendKeepsExactly(limit, buf, chunks[i]);
  }

  /** `while (pickmessage(m)) ...` */
  method Drain(b: Buffer, ghost ms: seq<seq<byte>>, before: seq<seq<byte>>, ghost later: seq<byte>)
    returns (out: seq<seq<byte>>)
    requires b.sep == 1 && Framable(ms)
    requires |before| <= |ms| && before == ms[..|before|] && Pending(ms, |before|, b.buf, later)
    modifies b
    ensures Arrived(ms, out, b.buf, later) && |b.buf| <= |old(b.buf)|
    ensures Framed(out) + b.buf == Framed(before) + old(b.buf)
  {
    hide Picked, Framed, WithSep;
    out := before;
    while true
      invariant |out| <= |ms| && out == ms[..|out|] && Pending(ms, |out|, b.buf, later)
      invariant Framed(out) + b.buf == Framed(before) + old(b.buf) && |b.buf| <= |old(b.buf)|
      decreases |ms| - |out|
    {
      PickNext(ms, |out|, b.buf, later);
      ghost var was := b.buf;
      var ok, m := b.pickmessage();
      if !ok {
        return;
      }
      FramedLast(out, m);
      assert Framed(out) + was == (Framed(out) + WithSep(1, m)) + b.buf;
      assert ms[..|out| + 1] == ms[..|out|] + [m];
      out := out + [m];
    }
  }

  lemma FramedLast(out: seq<seq<byte>>, m: seq<byte>)
    ensures Framed(out + [m]) == Framed(out) + WithSep(1, m)
  {
    hide WithSep;
    FramedAppend(out, [m]);
    assert [m][1..] == [];
  }
}
