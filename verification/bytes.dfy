/** Byte-level vocabulary shared by both ends of the transfer: octets, the
    unsigned 32-bit sequence number laid out little-endian (the host order the
    frame structs are copied in), and the C-string view of a `char` array. */
module Bytes {

  /** One octet of a frame (`char` / `bool` storage). */
  type byte = x: int | 0 <= x < 0x100

  /** `uint32_t`. */
  type u32 = x: int | 0 <= x < 0x1_0000_0000

  /** The four bytes of `x`, least significant first. */
  function EncodeU32(x: u32): (b: seq<byte>)
    ensures |b| == 4
  {
    [x % 0x100, x / 0x100 % 0x100, x / 0x1_0000 % 0x100, x / 0x100_0000]
  }

  /** The number whose little-endian bytes are `b`. */
  function DecodeU32(b: seq<byte>): (x: u32)
    requires |b| == 4
  {
    b[0] as int + 0x100 * (b[1] as int) + 0x1_0000 * (b[2] as int) + 0x100_0000 * (b[3] as int)
  }

  /** Splitting `lo + 256 * hi` back into its low byte and the rest. */
  lemma SplitLowByte(lo: int, hi: int)
    requires 0 <= lo < 0x100
    ensures (lo + 0x100 * hi) % 0x100 == lo
    ensures (lo + 0x100 * hi) / 0x100 == hi
  {
  }

  /** Every `uint32_t` is the number its four bytes decode to. */
  lemma U32RoundTrip(x: u32)
    ensures DecodeU32(EncodeU32(x)) == x
  {
    var x1 := x / 0x100;
    var x2 := x / 0x1_0000;
    var b3 := x / 0x100_0000;
    assert x == x % 0x100 + 0x100 * x1;
    assert x1 == x1 % 0x100 + 0x100 * x2 by {
      assert x1 / 0x100 == x2;
    }
    assert x2 == x2 % 0x100 + 0x100 * b3 by {
      assert x2 / 0x100 == b3;
    }
    assert x1 % 0x100 == x / 0x100 % 0x100;
  }

  /** Every four-byte string is the encoding of the number it decodes to. */
  lemma U32BytesRoundTrip(b: seq<byte>)
    requires |b| == 4
    ensures EncodeU32(DecodeU32(b)) == b
  {
    var x := DecodeU32(b);
    var x1 := b[1] as int + 0x100 * (b[2] as int) + 0x1_0000 * (b[3] as int);
    var x2 := b[2] as int + 0x100 * (b[3] as int);
    SplitLowByte(b[0], x1);
    SplitLowByte(b[1], x2);
    SplitLowByte(b[2], b[3]);
    assert x == b[0] as int + 0x100 * x1;
    assert x / 0x100 == x1;
    assert x / 0x1_0000 == x1 / 0x100 == x2;
    assert x / 0x100_0000 == x2 / 0x100 == b[3];
  }

  /** No byte of `s` is the terminator. */
  predicate NulFree(s: seq<byte>)
  {
    forall i :: 0 <= i < |s| ==> s[i] != 0
  }

  /** The bytes `operator<<` writes for a `char` array: everything before the
      first NUL, or the whole array when it holds none. */
  function CString(s: seq<byte>): (p: seq<byte>)
    ensures p <= s
    ensures NulFree(p)
    ensures |p| == |s| || s[|p|] == 0
  {
    if |s| == 0 || s[0] == 0 then [] else [s[0]] + CString(s[1..])
  }

  /** A NUL-free string followed by a terminator reads back as itself,
      whatever bytes follow the terminator. */
  lemma CStringOfTerminated(p: seq<byte>, rest: seq<byte>)
    requires NulFree(p)
    ensures CString(p + [0] + rest) == p
  {
    var s := p + [0] + rest;
    var q := CString(s);
    assert s[|p|] == 0;
    assert q == s[..|q|] && p == s[..|p|];
  }

  /** `n` copies of `s`, one after another. */
  function Repeat(s: seq<byte>, n: nat): (r: seq<byte>)
    ensures |r| == n * |s|
  {
    if n == 0 then [] else s + Repeat(s, n - 1)
  }
}
