/**
 * Members that follow src/codec.cpp as written where it departs from what
 * it evidently intends, each with the inputs that show the departure. The
 * rest of the model uses the intended behaviour (Scalars.StringValue,
 * ScalarOrder.Compare, ScalarWire.ParseScalar, KeyCodec.ParseKey).
 */
module AsWritten {
  import opened Wrappers
  import opened Bytes
  import opened Decimal
  import opened VarInt
  import opened Scalars
  import opened ScalarWire
  import opened ScalarOrder
  import opened KeyCodec

  /**
   * SetString as written (src/codec.cpp:137-149): the integer parse is
   * tried whatever try_int_encoding says.
   */
  function StringValueAsWritten(s: seq<Byte>, tryIntEncoding: bool): (x: Scalar)
    ensures x.Integer? <==> |s| <= 21 && String2ll(s).Some?
    ensures x.Integer? ==> x.v == String2ll(s).value
    ensures x.Text? ==> x == Text(false, s)
  {
    if |s| <= 21 && String2ll(s).Some? then Integer(String2ll(s).value) else Text(false, s)
  }

  /**
   * The decimal form of any int64, stored with try_int_encoding off: as
   * written it becomes that integer; as intended it stays text.
   */
  lemma IgnoredFlagCounterexample(v: Int64)
    ensures StringValueAsWritten(Ll2String(v), false) == Integer(v)
    ensures StringValue(Ll2String(v), false) == Text(false, Ll2String(v))
  {
    String2llRendered(v);
    String2llShort(Ll2String(v));
  }

  /** Two's complement wrap-around to 64 bits. */
  function ToInt64(x: int): (r: int)
    ensures -0x8000_0000_0000_0000 <= r < 0x8000_0000_0000_0000
    ensures -0x8000_0000_0000_0000 <= x < 0x8000_0000_0000_0000 ==> r == x
  {
    (x + 0x8000_0000_0000_0000) % 0x1_0000_0000_0000_0000 - 0x8000_0000_0000_0000
  }

  /** The conversion of a 64-bit value to the 32-bit `int` that Compare returns. */
  function ToInt32(x: int): (r: int)
    ensures -0x8000_0000 <= r < 0x8000_0000
    ensures -0x8000_0000 <= x < 0x8000_0000 ==> r == x
  {
    (x + 0x8000_0000) % 0x1_0000_0000 - 0x8000_0000
  }

  /**
   * Compare of two integers as written (src/codec.cpp:189): the int64
   * difference, returned as an `int`.
   */
  function CompareIntegersAsWritten(a: Int64, b: Int64): (r: int)
    ensures -0x8000_0000 <= r < 0x8000_0000
    ensures -0x8000_0000 <= a - b < 0x8000_0000 ==> r == a - b
  {
    ToInt32(ToInt64(a - b))
  }

  /**
   * 2^32 and 0 come back as equal, and 2^31 as smaller than 0, where the
   * intended order (ScalarOrder.NumericMode) has each greater than 0.
   */
  lemma IntegerDifferenceCounterexample()
    ensures CompareIntegersAsWritten(0x1_0000_0000, 0) == 0
    ensures CompareIntegersAsWritten(0x8000_0000, 0) < 0
  {
    assert ToInt64(0x1_0000_0000 - 0) == 0x1_0000_0000;
    assert ToInt64(0x8000_0000 - 0) == 0x8000_0000;
  }

  /**
   * Data::Decode as written for text (src/codec.cpp:123-128): the value is
   * the `len` bytes after the header, but only the header is consumed.
   */
  function ParseScalarAsWritten(s: seq<Byte>): (r: Parse<Scalar>)
    ensures r.used <= |s|
    ensures r.Done? && r.value.Text? ==> r.used == 4
    ensures r.Done? ==> ParseScalar(s).Done? && r.value == ParseScalar(s).value
  {
    match ParseScalar(s)
    case Done(Text(owned, b), _) => Done(Text(owned, b), 4)
    case other => other
  }

  /**
   * Any non-empty text: as written the decode stops after the header, so
   * the next read starts inside the text; as intended it takes all of it.
   */
  lemma CursorCounterexample(x: Scalar, rest: seq<Byte>)
    requires Encodable(x) && x.Text? && x.bytes != []
    ensures ParseScalarAsWritten(Wire(x) + rest) == Done(Decoded(x), 4)
    ensures ParseScalar(Wire(x) + rest) == Done(Decoded(x), |Wire(x)|)
    ensures 4 < |Wire(x)|
  {
    ScalarRoundTrip(x, rest);
  }

  /**
   * The readable bytes once Data::Decode as written has read the header
   * word (src/codec.cpp:96-103): the header is consumed, and a word built
   * from it and the object's current tag is appended.
   */
  function HeaderReadAsWritten(s: seq<Byte>, encoding: nat): (t: seq<Byte>)
    requires 4 <= |s| && encoding < 8
    ensures |t| == |s|
    ensures t[..|s| - 4] == s[4..]
  {
    var header := U32Of(s[..4]);
    s[4..] + U32Bytes((header * 0x2000_0000 + encoding) % 0x1_0000_0000)
  }

  /**
   * Any integer payload after the header word, followed by any bytes (the
   * wire form of an integer and what follows it among them): as written
   * the payload still decodes and the rest is left, followed by four bytes
   * that were never encoded at the end of the buffer; as intended
   * (ScalarWire.ScalarRoundTrip) exactly the rest is left.
   */
  lemma JunkWriteCounterexample(s: seq<Byte>, v: Int64, rest: seq<Byte>, encoding: nat)
    requires 4 <= |s| && s[4..] == EncodeVarInt64(v) + rest && encoding < 8
    ensures var t := HeaderReadAsWritten(s, encoding);
            var k := |EncodeVarInt64(v)|;
            && DecodeVarInt64(t) == Some((v, k))
            && t[k..][..|rest|] == rest && |t[k..]| == |rest| + 4
  {
    var p := EncodeVarInt64(v);
    var t := HeaderReadAsWritten(s, encoding);
    var junk := t[|s| - 4..];
    assert t == p + (rest + junk) by {
      assert t == t[..|s| - 4] + junk;
    }
    VarInt64RoundTrip(v, rest + junk);
    assert t[|p|..] == rest + junk;
  }

  /**
   * KeyObject::Decode as written (src/codec.cpp:326-374, the switch at
   * 335): the number of elements follows `staleKind`, the object's kind
   * before the call, while the kind just read is what the object takes on.
   */
  function ParseKeyAsWritten(staleKind: nat, s: seq<Byte>): (r: Parse<Key>)
    ensures r.used <= |s|
    ensures SlotCount(staleKind) == 0 ==> r.Fail?
    ensures r.Done? ==> |r.value.elements| == SlotCount(staleKind)
  {
    if |s| < 4 then Fail(TruncatedInput, 0)
    else
      var header := U32Of(s[..4]);
      match ParseKeyBody(staleKind, header / 256, s[4..])
      case Fail(e, u) => Fail(e, 4 + u)
      case Done(k, u) => Done(k.(kind := header % 256), 4 + u)
  }

  /** A read of one value from a value's wire form and what follows it. */
  lemma FirstOfMany(x: Scalar, rest: seq<Byte>)
    requires Encodable(x)
    ensures ParseSlots(Wire(x) + rest, 1) == Done([Decoded(x)], |Wire(x)|)
  {
    var t := Wire(x) + rest;
    ScalarRoundTrip(x, rest);
    SlotsFirstDone(t, 1);
    assert ParseSlots(t[|Wire(x)|..], 0) == Done([], 0);
    assert [Decoded(x)] + [] == [Decoded(x)];
  }

  /**
   * Any hash key, decoded into an object that holds a string key: as
   * written the object takes on the hash kind with only the first element,
   * and the second is left unread; as intended (KeyCodec.KeyRoundTrip)
   * both are read.
   */
  lemma StaleKindCounterexample(db: nat, es: seq<Scalar>)
    requires db < MaxDb && |es| == 3 && Encodable(es[0]) && Encodable(es[1])
    ensures var w := KeyWire(KEY_HASH, db, es);
            && ParseKeyAsWritten(KEY_STRING, w) == Done(Key(KEY_HASH, db, [Decoded(es[0])]), 4 + |Wire(es[0])|)
            && 4 + |Wire(es[0])| < |w|
  {
    var w := KeyWire(KEY_HASH, db, es);
    var t := w[4..];
    assert 4 <= |w| && U32Of(w[..4]) % 256 == KEY_HASH && U32Of(w[..4]) / 256 == db
      && t == Wire(es[0]) + Wire(es[1]) by {
      KeyWireSplit(KEY_HASH, db, es, []);
      assert w + [] == w;
      var xs := es[..SlotCount(KEY_HASH)];
      assert xs[1..] == [es[1]];
      assert WireAll([es[1]]) == Wire(es[1]) + WireAll([]);
    }
    FirstOfMany(es[0], Wire(es[1]));
    KeyBodySlots(KEY_STRING, db, t);
  }
}
