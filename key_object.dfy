/**
 * KeyObject (src/codec.cpp): a storage key made of a record kind (`type`),
 * a database id and three Data slots, of which the kind decides how many
 * are written and read.
 */
module KeyObjects {
  import opened Bytes
  import opened Scalars
  import opened ScalarWire
  import opened KeyCodec
  import opened Buffers
  import opened DataObjects

  class KeyObject {
    var keyType: nat
    var db: nat
    const elements: seq<Data>

    /** An 8-bit kind, a 32-bit id, and valid slots. */
    ghost predicate Valid()
      reads this, elements
    {
      keyType < 256 && db < 0x1_0000_0000 && SlotsValid()
    }

    /** Three distinct, valid Data slots; `type` and `db` play no part. */
    ghost predicate SlotsValid()
      reads elements
    {
      && |elements| == 3
      && elements[0] != elements[1] && elements[0] != elements[2] && elements[1] != elements[2]
      && elements[0].Valid() && elements[1].Valid() && elements[2].Valid()
    }

    /** The values of the three slots. */
    function Elements(): (xs: seq<Scalar>)
      reads elements
      requires SlotsValid()
      ensures |xs| == 3
    {
      [elements[0].View(), elements[1].View(), elements[2].View()]
    }

    /** The values of slots i to n - 1. */
    function Slots(i: nat, n: nat): (xs: seq<Scalar>)
      reads elements
      requires SlotsValid() && i <= n <= 3
      ensures |xs| == n - i
      decreases n - i
    {
      if i == n then [] else [elements[i].View()] + Slots(i + 1, n)
    }

    /** Slot i is none of the slots after it. */
    lemma SlotNotLater(i: nat)
      requires SlotsValid() && i < 3
      ensures elements[i] !in elements[i + 1..]
    {
    }

    /** No slot from n on is among the first n. */
    lemma SlotsNotEarlier(n: nat)
      requires SlotsValid() && n <= 3
      ensures forall j :: n <= j < 3 ==> elements[j] !in elements[..n]
    {
    }

    constructor (keyType: nat, db: nat)
      requires keyType < 256 && db < 0x1_0000_0000
      ensures Valid() && fresh(elements)
      ensures this.keyType == keyType && this.db == db && Elements() == [Unset, Unset, Unset]
    {
      this.keyType := keyType;
      this.db := db;
      var e0 := new Data();
      var e1 := new Data();
      var e2 := new Data();
      elements := [e0, e1, e2];
    }

    /** Slots i to n - 1 are elements i to n - 1 of Elements(). */
    lemma {:induction false} SlotsAreElements(i: nat, n: nat)
      requires SlotsValid() && i <= n <= 3
      ensures Slots(i, n) == Elements()[i..n]
      decreases n - i
    {
      if i < n {
        SlotsAreElements(i + 1, n);
        assert Elements()[i..n] == [Elements()[i]] + Elements()[i + 1..n];
      }
    }

    /** Appends the header word and the elements the kind calls for. */
    method Encode(buf: Buffer)
      requires Valid()
      modifies buf
      ensures buf.readable == old(buf.readable) + KeyWire(keyType, db, Elements())
    {
      ghost var b := buf.readable;
      var header := PackKeyHeader(db, keyType);
      buf.Write(U32Bytes(header));
      var n := SlotCount(keyType);
      EncodeSlots(0, n, buf);
      SlotsAreElements(0, n);
      AppendAssoc(b, U32Bytes(header), WireAll(Elements()[..n]));
    }

    /**
     * The switch of KeyObject::Encode: `elements[i].Encode(buf)` for slots
     * i to n - 1 in order, where n is the number the kind calls for.
     */
    method EncodeSlots(i: nat, n: nat, buf: Buffer)
      requires SlotsValid() && i <= n <= 3
      modifies buf
      ensures buf.readable == old(buf.readable) + WireAll(Slots(i, n))
      decreases n - i
    {
      if i < n {
        ghost var b := buf.readable;
        elements[i].Encode(buf);
        EncodeSlots(i + 1, n, buf);
        AppendAssoc(b, Wire(elements[i].View()), WireAll(Slots(i + 1, n)));
        assert Slots(i, n)[1..] == Slots(i + 1, n);
      }
    }

    /**
     * The chain `elements[i].Decode(buf) && ... && elements[n - 1].Decode(buf)`
     * of the source's switch: decodes slots i to n - 1 from the readable
     * bytes t, stopping at the first that fails. Slots before i are untouched.
     */
    method DecodeSlots(i: nat, n: nat, buf: Buffer, ghost t: seq<Byte>) returns (ok: bool)
      requires Valid()
      requires i <= n <= 3 && buf.readable == t
      modifies elements[i..n], buf
      ensures Valid()
      ensures buf.readable == t[ParseSlots(t, n - i).used..]
      ensures ok <==> ParseSlots(t, n - i).Done?
      ensures ok ==> Slots(i, n) == ParseSlots(t, n - i).value
      decreases n - i, 1
    {
      if i == n {
        return true;
      }
      ok := elements[i].Decode(buf);
      if !ok {
        SlotsFirstFails(t, n - i);
        return;
      }
      ok := DecodeAfter(i, n, buf, t);
    }

    /** DecodeSlots once slot i has decoded: the slots after it, from the bytes after it. */
    method DecodeAfter(i: nat, n: nat, buf: Buffer, ghost t: seq<Byte>) returns (ok: bool)
      requires Valid() && i < n <= 3
      requires ParseScalar(t).Done? && elements[i].View() == ParseScalar(t).value
      requires buf.readable == t[ParseScalar(t).used..]
      modifies elements[i + 1..n], buf
      ensures Valid()
      ensures buf.readable == t[ParseSlots(t, n - i).used..]
      ensures ok <==> ParseSlots(t, n - i).Done?
      ensures ok ==> Slots(i, n) == ParseSlots(t, n - i).value
      decreases n - i, 0
    {
      ghost var p := ParseScalar(t);
      SlotNotLater(i);
      ok := DecodeSlots(i + 1, n, buf, t[p.used..]);
      SlotsStep(t, n - i, buf.readable);
    }

    /**
     * Reads a key from buf: the header word, then the elements its kind
     * calls for. On failure the bytes read so far stay consumed.
     */
    method Decode(buf: Buffer) returns (ok: bool)
      requires Valid()
      modifies this, elements, buf
      ensures Valid()
      ensures buf.readable == old(buf.readable)[ParseKey(old(buf.readable)).used..]
      ensures ok <==> ParseKey(old(buf.readable)).Done?
      ensures ok ==> keyType == ParseKey(old(buf.readable)).value.kind
      ensures ok ==> db == ParseKey(old(buf.readable)).value.db
      ensures ok ==> Slots(0, SlotCount(keyType)) == ParseKey(old(buf.readable)).value.elements
      ensures !ok ==> keyType == old(keyType) && db == old(db)
      ensures forall j :: 0 <= j < 3 && HeaderSlots(old(buf.readable)) <= j ==>
                elements[j].View() == old(elements[j].View())
    {
      ghost var s := buf.readable;
      var word := buf.Read(4);
      if word.None? {
        return false;
      }
      var header := U32Of(word.value);
      assert word.value == s[..4] && buf.readable == s[4..];
      ok := DecodeBody(header % 256, header / 256, buf);
      DropDrop(s, 4, ParseKeyBody(header % 256, header / 256, s[4..]).used);
    }

    /**
     * The switch of KeyObject::Decode, on the kind just read from the
     * header: decodes the elements that kind calls for, and sets `type`
     * and `db` only when every one of them decodes.
     */
    method DecodeBody(kind: nat, id: nat, buf: Buffer) returns (ok: bool)
      requires Valid() && kind < 256 && id < 0x1_0000_0000
      modifies this, elements, buf
      ensures Valid()
      ensures buf.readable == old(buf.readable)[ParseKeyBody(kind, id, old(buf.readable)).used..]
      ensures ok <==> ParseKeyBody(kind, id, old(buf.readable)).Done?
      ensures ok ==> keyType == kind && db == id
      ensures ok ==> Slots(0, SlotCount(kind)) == ParseKeyBody(kind, id, old(buf.readable)).value.elements
      ensures !ok ==> keyType == old(keyType) && db == old(db)
      ensures forall j :: SlotCount(kind) <= j < 3 ==> elements[j].View() == old(elements[j].View())
    {
      // src/codec.cpp:335 switches on the stale member `type`; the number of
      // elements is taken from the kind just parsed here.
      ghost var t := buf.readable;
      if SlotCount(kind) == 0 {
        return false;
      }
      KeyBodySlots(kind, id, t);
      ok := DecodeKnown(kind, id, buf);
    }

    /**
     * DecodeBody for a kind that calls for elements: reads them, and sets
     * `type` and `db` only when every one of them decodes.
     */
    method DecodeKnown(kind: nat, id: nat, buf: Buffer) returns (ok: bool)
      requires Valid() && kind < 256 && id < 0x1_0000_0000 && SlotCount(kind) > 0
      modifies this, elements, buf
      ensures Valid()
      ensures buf.readable == old(buf.readable)[ParseSlots(old(buf.readable), SlotCount(kind)).used..]
      ensures ok <==> ParseSlots(old(buf.readable), SlotCount(kind)).Done?
      ensures ok ==> keyType == kind && db == id
      ensures ok ==> Slots(0, SlotCount(kind)) == ParseSlots(old(buf.readable), SlotCount(kind)).value
      ensures !ok ==> keyType == old(keyType) && db == old(db)
      ensures forall j :: SlotCount(kind) <= j < 3 ==> elements[j].View() == old(elements[j].View())
    {
      var n := SlotCount(kind);
      SlotsNotEarlier(n);
      ok := DecodeSlots(0, n, buf, buf.readable);
      ghost var es := Elements();
      SlotsAreElements(0, n);
      if ok {
        keyType := kind;
        db := id;
      }
      assert Elements() == es;
      SlotsAreElements(0, n);
    }
  }
}
