/**
 * The variable-length integer primitive (WriteVarInt64 / ReadVarInt64).
 * Its byte layout belongs to a helper that is not part of this model; the
 * model fixes one self-terminating layout: zigzag mapping of the signed value
 * to an unsigned one, then 7 bits per byte, least significant group first,
 * with the top bit of a byte set when more bytes follow.
 */
module VarInt {
  import opened Wrappers
  import opened Bytes

  const TwoTo64: nat := 0x1_0000_0000_0000_0000

  /** Interleaves signed values so that small magnitudes get small codes. */
  function ZigZag(v: Int64): (n: nat)
    ensures n < TwoTo64
  {
    if v >= 0 then 2 * v else -2 * v - 1
  }

  function UnZigZag(n: nat): (v: Int64)
    requires n < TwoTo64
  {
    if n % 2 == 0 then n / 2 else -(n + 1) / 2
  }

  function EncodeVarUint(n: nat): (r: seq<Byte>)
    ensures r != []
  {
    if n < 128 then [n] else [n % 128 + 128] + EncodeVarUint(n / 128)
  }

  /**
   * Reads one varint from the front of s: its value and the number of bytes
   * it took, or None when s ends before a byte without the top bit.
   */
  function DecodeVarUint(s: seq<Byte>): (r: Option<(nat, nat)>)
    ensures r.Some? ==> 1 <= r.value.1 <= |s|
  {
    if s == [] then None
    else if s[0] < 128 then Some((s[0] as nat, 1))
    else match DecodeVarUint(s[1..])
      case None => None
      case Some((n, k)) => Some((s[0] - 128 + 128 * n, k + 1))
  }

  function EncodeVarInt64(v: Int64): (r: seq<Byte>) {
    EncodeVarUint(ZigZag(v))
  }

  /** Reads one varint and maps it back to a signed value; rejects codes of 2^64 and above. */
  function DecodeVarInt64(s: seq<Byte>): (r: Option<(Int64, nat)>)
    ensures r.Some? ==> 1 <= r.value.1 <= |s|
  {
    match DecodeVarUint(s)
    case None => None
    case Some((n, k)) => if n < TwoTo64 then Some((UnZigZag(n), k)) else None
  }

  lemma ZigZagRoundTrip(v: Int64)
    ensures UnZigZag(ZigZag(v)) == v
  {
  }

  /** A varint is read back whole, and reading stops at its last byte. */
  lemma {:induction false} VarUintRoundTrip(n: nat, rest: seq<Byte>)
    ensures DecodeVarUint(EncodeVarUint(n) + rest) == Some((n, |EncodeVarUint(n)|))
  {
    if n >= 128 {
      var e := EncodeVarUint(n);
      assert (e + rest)[1..] == EncodeVarUint(n / 128) + rest;
      VarUintRoundTrip(n / 128, rest);
    }
  }

  /** Every proper prefix of a varint is rejected as incomplete. */
  lemma {:induction false} VarUintTruncated(n: nat, k: nat)
    requires k < |EncodeVarUint(n)|
    ensures DecodeVarUint(EncodeVarUint(n)[..k]) == None
  {
    if k > 0 {
      var e := EncodeVarUint(n);
      assert n >= 128;
      assert e[..k][1..] == EncodeVarUint(n / 128)[..k - 1];
      VarUintTruncated(n / 128, k - 1);
    }
  }

  lemma VarInt64RoundTrip(v: Int64, rest: seq<Byte>)
    ensures DecodeVarInt64(EncodeVarInt64(v) + rest) == Some((v, |EncodeVarInt64(v)|))
  {
    VarUintRoundTrip(ZigZag(v), rest);
    ZigZagRoundTrip(v);
  }

  lemma VarInt64Truncated(v: Int64, k: nat)
    requires k < |EncodeVarInt64(v)|
    ensures DecodeVarInt64(EncodeVarInt64(v)[..k]) == None
  {
    VarUintTruncated(ZigZag(v), k);
  }

  lemma {:induction false} VarUintLength(n: nat, k: nat)
    requires 1 <= k && n < Pow128(k)
    ensures |EncodeVarUint(n)| <= k
  {
    if n >= 128 {
      assert k >= 2 && n / 128 < Pow128(k - 1);
      VarUintLength(n / 128, k - 1);
    }
  }

  function Pow128(k: nat): nat {
    if k == 0 then 1 else 128 * Pow128(k - 1)
  }

  /** An int64 takes between 1 and 10 bytes. */
  lemma VarInt64Length(v: Int64)
    ensures 1 <= |EncodeVarInt64(v)| <= 10
  {
    assert Pow128(2) == 0x4000;
    assert Pow128(4) == 0x1000_0000;
    assert Pow128(6) == 0x400_0000_0000;
    assert Pow128(8) == 0x1_0000_0000_0000_0000 / 0x100;
    assert Pow128(10) == 0x40_0000_0000_0000_0000;
    VarUintLength(ZigZag(v), 10);
  }
}
