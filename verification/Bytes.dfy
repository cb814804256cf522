/** Bytes, fixed-width integers and the two 32-bit layouts the server puts on the wire. */
module Bytes {
  type byte = x: int | 0 <= x < 256

  const INT32_MAX := 0x7fff_ffff

  type int32 = x: int | -0x8000_0000 <= x < 0x8000_0000

  /** Two's complement reading of a 32-bit pattern. */
  function Signed(u: int): (v: int32)
    requires 0 <= u < 0x1_0000_0000
    ensures v == u || v == u - 0x1_0000_0000
  {
    if u < 0x8000_0000 then u else u - 0x1_0000_0000
  }

  function Unsigned(v: int32): (u: int)
    ensures 0 <= u < 0x1_0000_0000
    ensures Signed(u) == v
  {
    if v < 0 then v + 0x1_0000_0000 else v
  }

  /** The 32-bit pattern made of four bytes, most significant first. */
  function Pattern(a: int, b: int, c: int, d: int): int {
    ((a * 256 + b) * 256 + c) * 256 + d
  }

  /** `htonl` followed by a four-byte `memcpy`: most significant byte first. */
  function ToNetBytes(v: int32): (s: seq<byte>)
    ensures |s| == 4
  {
    var u := Unsigned(v);
    var u' := u / 256;
    var u'' := u' / 256;
    [u'' / 256, u'' % 256, u' % 256, u % 256]
  }

  /** `getInt32FromNetByte`. */
  function FromNetBytes(s: seq<byte>): (v: int32)
    requires |s| == 4
  {
    Signed(Pattern(s[0], s[1], s[2], s[3]))
  }

  lemma NetBytesRoundTrip(v: int32)
    ensures FromNetBytes(ToNetBytes(v)) == v
  {
  }

  /** The reader loses nothing either: every four bytes are the encoding of what it returns. */
  lemma NetBytesOnto(s: seq<byte>)
    requires |s| == 4
    ensures ToNetBytes(FromNetBytes(s)) == s
  {
    var u := Pattern(s[0], s[1], s[2], s[3]);
    assert Unsigned(Signed(u)) == u;
  }

  /** What each byte weighs, of the two's complement pattern. */
  lemma NetBytesWeigh(v: int32)
    ensures var s := ToNetBytes(v); var a: int, b: int, c: int, d: int := s[0], s[1], s[2], s[3];
      a * 16_777_216 + b * 65_536 + c * 256 + d == if v < 0 then v + 4_294_967_296 else v
  {
  }

  /** The low 32 bits of a `size_t`, least significant byte first, as a little-endian host lays them out. */
  function ToHostBytes(n: nat): (s: seq<byte>)
    ensures |s| == 4
  {
    var n' := n / 256;
    var n'' := n' / 256;
    [n % 256, n' % 256, n'' % 256, n'' / 256 % 256]
  }

  function FromHostBytes(s: seq<byte>): (v: int32)
    requires |s| == 4
  {
    Signed(Pattern(s[3], s[2], s[1], s[0]))
  }

  lemma HostBytesRoundTrip(n: nat)
    requires n <= INT32_MAX
    ensures FromHostBytes(ToHostBytes(n)) == n
  {
  }

  lemma HostBytesWeigh(n: nat)
    requires n <= INT32_MAX
    ensures var s := ToHostBytes(n); var a: int, b: int, c: int, d: int := s[0], s[1], s[2], s[3];
      d * 16_777_216 + c * 65_536 + b * 256 + a == n
  {
    var n' := n / 256;
    assert n == n' * 256 + n % 256 && n' == n' / 256 * 256 + n' % 256;
  }

  function Concat(parts: seq<seq<byte>>): (s: seq<byte>)
  {
    if parts == [] then [] else parts[0] + Concat(parts[1..])
  }

  lemma {:induction false} ConcatAppend(a: seq<seq<byte>>, b: seq<seq<byte>>)
    ensures Concat(a + b) == Concat(a) + Concat(b)
  {
    if a == [] {
      assert a + b == b;
    } else {
      assert (a + b)[1..] == a[1..] + b;
      ConcatAppend(a[1..], b);
    }
  }

  lemma ConcatLast(a: seq<seq<byte>>, x: seq<byte>)
    ensures Concat(a + [x]) == Concat(a) + x
  {
    ConcatAppend(a, [x]);
    assert Concat([x]) == x + Concat([]);
  }
}
