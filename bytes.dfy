/**
 * Bytes, the fixed-width integers of the codec, and the 4-byte header word.
 * The source writes header words in native byte order; this model fixes
 * little-endian order.
 */
module Bytes {
  type Byte = b: int | 0 <= b < 256
  type Int64 = v: int | -0x8000_0000_0000_0000 <= v < 0x8000_0000_0000_0000
  type UInt32 = n: int | 0 <= n < 0x1_0000_0000

  function Pow256(n: nat): (r: nat)
    ensures r >= 1
  {
    if n == 0 then 1 else 256 * Pow256(n - 1)
  }

  /** The n low bytes of w, least significant first. */
  function LeBytes(w: nat, n: nat): (r: seq<Byte>)
    ensures |r| == n
  {
    if n == 0 then [] else [w % 256] + LeBytes(w / 256, n - 1)
  }

  /** The number held in bytes b, least significant first. */
  function LeValue(b: seq<Byte>): (w: nat)
    ensures w < Pow256(|b|)
  {
    if b == [] then 0 else b[0] + 256 * LeValue(b[1..])
  }

  lemma {:induction false} LeRoundTrip(w: nat, n: nat)
    requires w < Pow256(n)
    ensures LeValue(LeBytes(w, n)) == w
  {
    if n > 0 {
      LeRoundTrip(w / 256, n - 1);
      assert LeBytes(w, n)[1..] == LeBytes(w / 256, n - 1);
    }
  }

  lemma {:induction false} LeBytesOf(b: seq<Byte>)
    ensures LeBytes(LeValue(b), |b|) == b
  {
    if b != [] {
      var w := LeValue(b);
      assert w == LeValue(b[1..]) * 256 + b[0];
      Split256(LeValue(b[1..]), b[0]);
      LeBytesOf(b[1..]);
    }
  }

  /** The four bytes of a header word, least significant first. */
  function U32Bytes(w: UInt32): (r: seq<Byte>)
    ensures |r| == 4
  {
    LeBytes(w, 4)
  }

  /** The header word held in four bytes, least significant first. */
  function U32Of(b: seq<Byte>): (w: UInt32)
    requires |b| == 4
  {
    assert Pow256(4) == 0x1_0000_0000;
    LeValue(b)
  }

  /** Reading back the bytes of a word gives the word. */
  lemma U32RoundTrip(w: UInt32)
    ensures U32Of(U32Bytes(w)) == w
  {
    assert Pow256(4) == 0x1_0000_0000;
    LeRoundTrip(w, 4);
  }

  /** Every 4-byte sequence is the encoding of exactly one word. */
  lemma U32BytesOf(b: seq<Byte>)
    requires |b| == 4
    ensures U32Bytes(U32Of(b)) == b
  {
    LeBytesOf(b);
  }

  /** Concatenation regroups; stated on names so that no operand is unfolded. */
  lemma AppendAssoc(a: seq<Byte>, b: seq<Byte>, c: seq<Byte>)
    ensures a + b + c == a + (b + c)
  {
  }

  /** Adding whole multiples of 2^32 does not change a 32-bit word. */
  lemma WordWrap(q: nat, y: nat)
    requires y < 0x1_0000_0000
    ensures (q * 0x1_0000_0000 + y) % 0x1_0000_0000 == y
  {
  }

  /** A word w * 8 + f with f below 8 splits back into w and f. */
  lemma Split8(w: nat, f: nat)
    requires f < 8
    ensures (w * 8 + f) % 8 == f && (w * 8 + f) / 8 == w
  {
  }

  /** A word w * 256 + f with f below 256 splits back into w and f. */
  lemma Split256(w: nat, f: nat)
    requires f < 256
    ensures (w * 256 + f) % 256 == f && (w * 256 + f) / 256 == w
  {
  }

  /** Dropping a bytes and then b more drops a + b. */
  lemma DropDrop(s: seq<Byte>, a: nat, b: nat)
    requires a + b <= |s|
    ensures s[a..][b..] == s[a + b..]
  {
  }
}
