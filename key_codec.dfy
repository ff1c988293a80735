/**
 * The wire form of a KeyObject (KeyObject::Encode / KeyObject::Decode in
 * src/codec.cpp): a 4-byte header word (db << 8) + type, then the one, two
 * or three Data elements the record kind calls for.
 */
module KeyCodec {
  import opened Bytes
  import opened Scalars
  import opened ScalarWire

  // Record kinds. Their numbers are defined outside this file and are not part
  // of this model; encoder and decoder only need to agree on them.
  const KEY_STRING: nat := 1
  const KEY_HASH: nat := 2
  const KEY_LIST: nat := 3
  const KEY_SET: nat := 4
  const KEY_ZSET_DATA: nat := 5
  const KEY_ZSET_SCORE: nat := 6
  const KEY_TTL_DATA: nat := 7
  const KEY_TTL_SORT: nat := 8

  /** Database ids below 2^24 survive the 8-bit shift of the 32-bit header. */
  const MaxDb: nat := 0x100_0000

  /** The number of elements a key of this kind carries; 0 for an unknown kind. */
  function SlotCount(kind: nat): (n: nat)
    ensures n <= 3
    ensures n == 1 <==> kind == KEY_STRING
    ensures n == 2 <==> kind in {KEY_HASH, KEY_LIST, KEY_SET, KEY_ZSET_DATA, KEY_ZSET_SCORE, KEY_TTL_DATA}
    ensures n == 3 <==> kind == KEY_TTL_SORT
  {
    if kind == KEY_STRING then 1
    else if kind in {KEY_HASH, KEY_LIST, KEY_SET, KEY_ZSET_DATA, KEY_ZSET_SCORE, KEY_TTL_DATA} then 2
    else if kind == KEY_TTL_SORT then 3
    else 0
  }

  /**
   * The header word; the shift is done in 32 bits, as in the source, so only
   * the low 24 bits of the id survive, above the 8 kind bits.
   */
  function PackKeyHeader(db: nat, kind: nat): (h: UInt32)
    requires kind < 256
    ensures h == (db % MaxDb) * 256 + kind
  {
    var r := db % MaxDb;
    assert db * 256 + kind == (db / MaxDb) * 0x1_0000_0000 + (r * 256 + kind);
    WordWrap(db / MaxDb, r * 256 + kind);
    (db * 256 + kind) % 0x1_0000_0000
  }

  /**
   * Unpacking the header gives back the kind, and the database id modulo
   * 2^24: every id below 2^24 comes back unchanged.
   */
  lemma KeyHeaderFields(db: nat, kind: nat)
    requires kind < 256
    ensures PackKeyHeader(db, kind) % 256 == kind
    ensures PackKeyHeader(db, kind) / 256 == db % MaxDb
    ensures db < MaxDb ==> PackKeyHeader(db, kind) / 256 == db
  {
    Split256(db % MaxDb, kind);
  }

  /** A decoded key: its kind, its database id and the elements its kind calls for. */
  datatype Key = Key(kind: nat, db: nat, elements: seq<Scalar>)

  function WireAll(xs: seq<Scalar>): (b: seq<Byte>)
    ensures |b| >= 4 * |xs|
  {
    if xs == [] then [] else Wire(xs[0]) + WireAll(xs[1..])
  }

  function DecodedAll(xs: seq<Scalar>): (ys: seq<Scalar>)
    ensures |ys| == |xs|
  {
    if xs == [] then [] else [Decoded(xs[0])] + DecodedAll(xs[1..])
  }

  /** The bytes KeyObject::Encode appends; an unknown kind writes the header alone. */
  function KeyWire(kind: nat, db: nat, elements: seq<Scalar>): (r: seq<Byte>)
    requires kind < 256 && |elements| == 3
    ensures |r| >= 4 + 4 * SlotCount(kind)
    ensures SlotCount(kind) == 0 ==> |r| == 4
  {
    U32Bytes(PackKeyHeader(db, kind)) + WireAll(elements[..SlotCount(kind)])
  }

  /** Decodes n Data values in a row, stopping at the first that fails. */
  function ParseSlots(s: seq<Byte>, n: nat): (r: Parse<seq<Scalar>>)
    ensures r.used <= |s|
    ensures r.Done? ==> |r.value| == n
    decreases n, 1
  {
    if n == 0 then Done([], 0) else ParseSlotsFrom(s, n)
  }

  /** ParseSlots for n > 0: the first value, then the n - 1 after it. */
  function ParseSlotsFrom(s: seq<Byte>, n: nat): (r: Parse<seq<Scalar>>)
    requires n > 0
    ensures r.used <= |s|
    ensures r.Done? ==> |r.value| == n
    decreases n, 0
  {
    match ParseScalar(s)
    case Fail(e, u) => Fail(e, u)
    case Done(x, u) =>
      match ParseSlots(s[u..], n - 1)
      case Fail(e, u') => Fail(e, u + u')
      case Done(xs, u') => Done([x] + xs, u + u')
  }

  /**
   * The switch of KeyObject::Decode, on the bytes t after the header: the
   * elements the kind calls for, in order. An unknown kind fails before any
   * element is read.
   */
  function ParseKeyBody(kind: nat, db: nat, t: seq<Byte>): (r: Parse<Key>)
    ensures r.used <= |t|
    ensures r.Done? ==> r.value.kind == kind && r.value.db == db
    ensures r.Done? ==> 1 <= |r.value.elements| == SlotCount(kind)
  {
    var n := SlotCount(kind);
    if n == 0 then Fail(UnknownRecordKind(kind), 0)
    else
      match ParseSlots(t, n)
      case Fail(e, u) => Fail(e, u)
      case Done(xs, u) => Done(Key(kind, db, xs), u)
  }

  /** For a known kind the switch is the read of that many values. */
  lemma KeyBodySlots(kind: nat, db: nat, t: seq<Byte>)
    requires SlotCount(kind) > 0
    ensures var r := ParseSlots(t, SlotCount(kind));
            && ParseKeyBody(kind, db, t).used == r.used
            && ParseKeyBody(kind, db, t).Done? == r.Done?
            && (r.Done? ==> ParseKeyBody(kind, db, t).value.elements == r.value)
  {
  }

  /** The number of elements the kind in the header word of s calls for; 0 without a header. */
  function HeaderSlots(s: seq<Byte>): nat
  {
    if |s| < 4 then 0 else SlotCount(U32Of(s[..4]) % 256)
  }

  /**
   * KeyObject::Decode on the readable bytes s: the header word, then the
   * elements its kind calls for.
   */
  function ParseKey(s: seq<Byte>): (r: Parse<Key>)
    ensures r.used <= |s|
    ensures |s| < 4 <==> r == Fail(TruncatedInput, 0)
    ensures r.Done? ==> r.value.kind < 256 && r.value.db < MaxDb
    ensures r.Done? ==> 1 <= |r.value.elements| == SlotCount(r.value.kind)
  {
    if |s| < 4 then Fail(TruncatedInput, 0)
    else
      var header := U32Of(s[..4]);
      // src/codec.cpp:335 switches on the stale member `type`; the count is
      // taken from the kind just parsed, as evidently intended.
      match ParseKeyBody(header % 256, header / 256, s[4..])
      case Fail(e, u) => Fail(e, 4 + u)
      case Done(k, u) => Done(k, 4 + u)
  }

  /** The first four bytes of a key's wire form hold its header word. */
  lemma KeyWireHeader(kind: nat, db: nat, elements: seq<Scalar>, s: seq<Byte>)
    requires kind < 256 && |elements| == 3
    requires 4 <= |s| && s[..4] == KeyWire(kind, db, elements)[..4]
    ensures U32Of(s[..4]) % 256 == kind
    ensures db < MaxDb ==> U32Of(s[..4]) / 256 == db
  {
    var h := PackKeyHeader(db, kind);
    assert U32Of(s[..4]) == h by {
      assert KeyWire(kind, db, elements)[..4] == U32Bytes(h);
      U32RoundTrip(h);
    }
    KeyHeaderFields(db, kind);
  }

  /** When the first value fails, so does the whole read, at the same place. */
  lemma SlotsFirstFails(s: seq<Byte>, n: nat)
    requires n > 0 && ParseScalar(s).Fail?
    ensures ParseSlots(s, n) == Fail(ParseScalar(s).error, ParseScalar(s).used)
  {
  }

  /**
   * When the first value decodes, the read goes on with the n - 1 values
   * after it: it ends as they end, one value longer and that many bytes
   * further on.
   */
  lemma SlotsFirstDone(s: seq<Byte>, n: nat)
    requires n > 0 && ParseScalar(s).Done?
    ensures var p := ParseScalar(s);
            var r := ParseSlots(s[p.used..], n - 1);
            && ParseSlots(s, n).Done? == r.Done?
            && ParseSlots(s, n).used == p.used + r.used
            && (r.Done? ==> ParseSlots(s, n).value == [p.value] + r.value)
            && (r.Fail? ==> ParseSlots(s, n).error == r.error)
  {
  }

  /**
   * The read of n values, seen from the bytes b left after the n - 1 values
   * that follow the first: it leaves b too, succeeds as they do, and
   * yields the first value in front of theirs.
   */
  lemma SlotsStep(t: seq<Byte>, n: nat, b: seq<Byte>)
    requires 0 < n && ParseScalar(t).Done?
    requires var u := ParseScalar(t).used; b == t[u..][ParseSlots(t[u..], n - 1).used..]
    ensures b == t[ParseSlots(t, n).used..]
    ensures ParseSlots(t, n).Done? == ParseSlots(t[ParseScalar(t).used..], n - 1).Done?
    ensures ParseSlots(t, n).Done? ==>
              ParseSlots(t, n).value == [ParseScalar(t).value] + ParseSlots(t[ParseScalar(t).used..], n - 1).value
  {
    var u := ParseScalar(t).used;
    SlotsFirstDone(t, n);
    DropDrop(t, u, ParseSlots(t[u..], n - 1).used);
  }

  /**
   * Encoded values written one after another decode back in order, and
   * exactly their bytes are consumed.
   */
  lemma {:induction false} SlotsRoundTrip(xs: seq<Scalar>, rest: seq<Byte>)
    requires forall i :: 0 <= i < |xs| ==> Encodable(xs[i])
    ensures ParseSlots(WireAll(xs) + rest, |xs|) == Done(DecodedAll(xs), |WireAll(xs)|)
  {
    if xs != [] {
      var a := Wire(xs[0]);
      var t := WireAll(xs[1..]) + rest;
      assert WireAll(xs) + rest == a + t;
      ScalarRoundTrip(xs[0], t);
      assert (a + t)[|a|..] == t;
      SlotsRoundTrip(xs[1..], rest);
      SlotsFirstDone(a + t, |xs|);
    }
  }

  /**
   * A key's wire form followed by other bytes: the header word of the kind
   * and id, then the elements' bytes and what follows them.
   */
  lemma KeyWireSplit(kind: nat, db: nat, elements: seq<Scalar>, rest: seq<Byte>)
    requires kind < 256 && db < MaxDb && |elements| == 3
    ensures var s := KeyWire(kind, db, elements) + rest;
            && |KeyWire(kind, db, elements)| == 4 + |WireAll(elements[..SlotCount(kind)])|
            && 4 <= |s| && U32Of(s[..4]) % 256 == kind && U32Of(s[..4]) / 256 == db
            && s[4..] == WireAll(elements[..SlotCount(kind)]) + rest
  {
    var h := PackKeyHeader(db, kind);
    var w := WireAll(elements[..SlotCount(kind)]);
    var s := KeyWire(kind, db, elements) + rest;
    assert s == U32Bytes(h) + (w + rest);
    assert s[..4] == U32Bytes(h) && s[4..] == w + rest;
    U32RoundTrip(h);
    KeyHeaderFields(db, kind);
  }

  /**
   * Encode then Decode a key: the kind, the database id and each element
   * the kind calls for come back, and exactly the encoded bytes are consumed.
   */
  lemma KeyRoundTrip(kind: nat, db: nat, elements: seq<Scalar>, rest: seq<Byte>)
    requires kind < 256 && SlotCount(kind) > 0 && db < MaxDb && |elements| == 3
    requires forall i :: 0 <= i < SlotCount(kind) ==> Encodable(elements[i])
    ensures ParseKey(KeyWire(kind, db, elements) + rest) ==
            Done(Key(kind, db, DecodedAll(elements[..SlotCount(kind)])), |KeyWire(kind, db, elements)|)
  {
    var n := SlotCount(kind);
    var xs := elements[..n];
    var s := KeyWire(kind, db, elements) + rest;
    KeyWireSplit(kind, db, elements, rest);
    SlotsRoundTrip(xs, rest);
    assert ParseKeyBody(kind, db, s[4..]) == Done(Key(kind, db, DecodedAll(xs)), |WireAll(xs)|);
  }

  /** Encoded values written one after another and cut short at any byte are rejected as truncated. */
  lemma {:induction false} SlotsTruncated(xs: seq<Scalar>, k: nat)
    requires forall i :: 0 <= i < |xs| ==> Encodable(xs[i])
    requires k < |WireAll(xs)|
    ensures ParseSlots(WireAll(xs)[..k], |xs|).Fail?
    ensures ParseSlots(WireAll(xs)[..k], |xs|).error == TruncatedInput
  {
    var a := Wire(xs[0]);
    var w := WireAll(xs[1..]);
    var s := WireAll(xs)[..k];
    assert WireAll(xs) == a + w;
    if k < |a| {
      assert s == a[..k];
      ScalarTruncated(xs[0], k);
      SlotsFirstFails(s, |xs|);
    } else {
      var tail := w[..k - |a|];
      assert s == a + tail;
      ScalarRoundTrip(xs[0], tail);
      assert s[|a|..] == tail;
      SlotsTruncated(xs[1..], k - |a|);
      SlotsFirstDone(s, |xs|);
    }
  }

  /** A key's wire form cut short at any byte is rejected as truncated. */
  lemma KeyTruncated(kind: nat, db: nat, elements: seq<Scalar>, k: nat)
    requires kind < 256 && SlotCount(kind) > 0 && db < MaxDb && |elements| == 3
    requires forall i :: 0 <= i < SlotCount(kind) ==> Encodable(elements[i])
    requires k < |KeyWire(kind, db, elements)|
    ensures ParseKey(KeyWire(kind, db, elements)[..k]).Fail?
    ensures ParseKey(KeyWire(kind, db, elements)[..k]).error == TruncatedInput
  {
    if k >= 4 {
      var xs := elements[..SlotCount(kind)];
      var w := KeyWire(kind, db, elements);
      var s := w[..k];
      KeyWireSplit(kind, db, elements, []);
      assert w + [] == w;
      assert s[..4] == w[..4];
      KeyWireHeader(kind, db, elements, s);
      assert s[4..] == WireAll(xs)[..k - 4];
      SlotsTruncated(xs, k - 4);
      KeyBodySlots(kind, db, s[4..]);
    }
  }

  /** A key of unknown kind is written as a bare header, and Decode rejects it. */
  lemma UnknownKindRejected(kind: nat, db: nat, elements: seq<Scalar>, rest: seq<Byte>)
    requires kind < 256 && SlotCount(kind) == 0 && |elements| == 3
    ensures KeyWire(kind, db, elements) == U32Bytes(PackKeyHeader(db, kind))
    ensures ParseKey(KeyWire(kind, db, elements) + rest) == Fail(UnknownRecordKind(kind), 4)
  {
    var s := KeyWire(kind, db, elements) + rest;
    KeyWireHeader(kind, db, elements, s);
  }
}
