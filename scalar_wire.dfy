/**
 * The wire form of a Data value (Data::Encode / Data::Decode in
 * src/codec.cpp): a 4-byte header word (len << 3) + encoding, then a varint
 * for an integer, `len` raw bytes for text, nothing for an unset value.
 */
module ScalarWire {
  import opened Wrappers
  import opened Bytes
  import opened VarInt
  import opened Scalars

  /** Lengths below 2^29 survive the 3-bit shift of the 32-bit header. */
  const MaxLength: nat := 0x2000_0000

  /** A value Encode writes in a form Decode reads back: set, with a length below 2^29. */
  predicate Encodable(x: Scalar) {
    x != Unset && StringLength(x) < MaxLength
  }

  /** Why a decode fails. */
  datatype DecodeError = TruncatedInput | UnknownEncoding(tag: nat) | UnknownRecordKind(kind: nat)

  /**
   * The outcome of reading from the front of a byte sequence: the value and
   * the bytes consumed, or the error and the bytes consumed before it.
   */
  datatype Parse<T> = Done(value: T, used: nat) | Fail(error: DecodeError, used: nat)

  /**
   * The header word; the shift is done in 32 bits, as in the source, so only
   * the low 29 bits of the length survive, above the 3 tag bits.
   */
  function PackDataHeader(len: nat, encoding: nat): (h: UInt32)
    requires encoding < 8
    ensures h == (len % MaxLength) * 8 + encoding
  {
    var r := len % MaxLength;
    assert len * 8 + encoding == (len / MaxLength) * 0x1_0000_0000 + (r * 8 + encoding);
    WordWrap(len / MaxLength, r * 8 + encoding);
    (len * 8 + encoding) % 0x1_0000_0000
  }

  /**
   * Unpacking the header gives back the tag, and the length modulo 2^29:
   * every length below 2^29 comes back unchanged.
   */
  lemma DataHeaderFields(len: nat, encoding: nat)
    requires encoding < 8
    ensures PackDataHeader(len, encoding) % 8 == encoding
    ensures PackDataHeader(len, encoding) / 8 == len % MaxLength
    ensures len < MaxLength ==> PackDataHeader(len, encoding) / 8 == len
  {
    Split8(len % MaxLength, encoding);
  }

  function Payload(x: Scalar): seq<Byte> {
    match x
    case Unset => []
    case Integer(v) => EncodeVarInt64(v)
    case Text(_, b) => b
  }

  /** The bytes Data::Encode appends. */
  function Wire(x: Scalar): (r: seq<Byte>)
    ensures |r| >= 4
    ensures x.Unset? ==> |r| == 4
    ensures x.Integer? ==> r[4..] == EncodeVarInt64(x.v)
    ensures x.Text? ==> r[4..] == x.bytes
  {
    U32Bytes(PackDataHeader(StringLength(x), Encoding(x))) + Payload(x)
  }

  /** What Data::Decode reads back: text always comes back with the borrowed tag. */
  function Decoded(x: Scalar): (y: Scalar)
    ensures Encoding(y) == E_CSTR <==> Encoding(x) in {E_CSTR, E_SDS}
    ensures StringLength(y) == StringLength(x)
    ensures x.Text? ==> y.bytes == x.bytes
    ensures !x.Text? ==> y == x
  {
    if x.Text? then Text(false, x.bytes) else x
  }

  /**
   * Data::Decode on the readable bytes s: fails when fewer than 4 header bytes
   * remain, when the varint is incomplete, when fewer than `len` text bytes
   * remain, and on any tag but E_INT64, E_CSTR and E_SDS. It never reads
   * past the end of s.
   */
  function ParseScalar(s: seq<Byte>): (r: Parse<Scalar>)
    ensures r.used <= |s|
    ensures r.Fail? && r.error == TruncatedInput && r.used == 0 <==> |s| < 4
    ensures r.Done? ==> r.value != Unset && Encoding(r.value) != E_SDS
    ensures r.Done? && r.value.Text? ==> r.used == 4 + |r.value.bytes|
    ensures |s| >= 4 && U32Of(s[..4]) % 8 !in {E_INT64, E_CSTR, E_SDS} ==>
              r == Fail(UnknownEncoding(U32Of(s[..4]) % 8), 4)
  {
    if |s| < 4 then Fail(TruncatedInput, 0)
    else
      var header := U32Of(s[..4]);
      var tag := header % 8;
      var len := header / 8;
      var rest := s[4..];
      if tag == E_INT64 then
        match DecodeVarInt64(rest)
        case None => Fail(TruncatedInput, 4)
        case Some((v, k)) =>
          // The header's length field is not consulted for an integer.
          Done(Integer(v), 4 + k)
      else if tag == E_CSTR || tag == E_SDS then
        // The source refers to the text in place without moving the read
        // cursor (src/codec.cpp:123-128); here exactly `len` bytes are taken.
        if |rest| < len then Fail(TruncatedInput, 4)
        else
          Done(Text(false, rest[..len]), 4 + len)
      else Fail(UnknownEncoding(tag), 4)
  }

  /** The first four bytes of a wire form hold the header word of that value. */
  lemma WireHeader(x: Scalar, s: seq<Byte>)
    requires StringLength(x) < MaxLength
    requires 4 <= |s| && s[..4] == Wire(x)[..4]
    ensures U32Of(s[..4]) % 8 == Encoding(x)
    ensures U32Of(s[..4]) / 8 == StringLength(x)
  {
    var h := PackDataHeader(StringLength(x), Encoding(x));
    assert U32Of(s[..4]) == h by {
      assert Wire(x)[..4] == U32Bytes(h);
      U32RoundTrip(h);
    }
    DataHeaderFields(StringLength(x), Encoding(x));
  }

  /**
   * Encode then Decode: an integer comes back as the same integer, text with
   * the same bytes and length, and exactly the encoded bytes are consumed,
   * whatever follows them.
   */
  lemma ScalarRoundTrip(x: Scalar, rest: seq<Byte>)
    requires Encodable(x)
    ensures ParseScalar(Wire(x) + rest) == Done(Decoded(x), |Wire(x)|)
  {
    var s := Wire(x) + rest;
    var header := U32Of(s[..4]);
    assert header % 8 == Encoding(x) && header / 8 == StringLength(x) by {
      WireHeader(x, s);
    }
    assert s[4..] == Payload(x) + rest;
    if x.Integer? {
      assert DecodeVarInt64(s[4..]) == Some((x.v, |Payload(x)|)) by {
        VarInt64RoundTrip(x.v, rest);
      }
    } else {
      assert s[4..][..|x.bytes|] == x.bytes;
    }
  }

  /** An unset value writes a header that Decode rejects. */
  lemma UnsetNotDecodable(rest: seq<Byte>)
    ensures ParseScalar(Wire(Unset) + rest) == Fail(UnknownEncoding(E_UNSET), 4)
  {
    var s := Wire(Unset) + rest;
    assert s[..4] == U32Bytes(PackDataHeader(0, E_UNSET));
    U32RoundTrip(PackDataHeader(0, E_UNSET));
  }

  /**
   * Decoding an encoding cut short at any byte fails as truncated input,
   * after consuming nothing when the header is cut and only the header
   * otherwise.
   */
  lemma ScalarTruncated(x: Scalar, k: nat)
    requires Encodable(x) && k < |Wire(x)|
    ensures ParseScalar(Wire(x)[..k]) == Fail(TruncatedInput, if k < 4 then 0 else 4)
  {
    if k >= 4 {
      var s := Wire(x)[..k];
      var header := U32Of(s[..4]);
      assert header % 8 == Encoding(x) && header / 8 == StringLength(x) by {
        WireHeader(x, s);
      }
      assert s[4..] == Payload(x)[..k - 4];
      if x.Integer? {
        VarInt64Truncated(x.v, k - 4);
        assert DecodeVarInt64(s[4..]) == None;
      } else {
        assert |s[4..]| < header / 8;
      }
    }
  }
}
