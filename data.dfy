/**
 * Data (src/codec.cpp): a tagged scalar whose setters, Clone and Decode
 * overwrite its fields in place. The fields mirror the source's `encoding`
 * and `len`; the source's raw `data` storage is split into the integer
 * `ival` and the text bytes `text`.
 */
module DataObjects {
  import opened Wrappers
  import opened Bytes
  import opened Decimal
  import opened Scalars
  import opened ScalarWire
  import opened Buffers

  class Data {
    var encoding: nat
    var len: nat
    var ival: Int64
    var text: seq<Byte>

    /** The tag is one of the four in use and `len` agrees with the value. */
    ghost predicate Valid()
      reads this
    {
      && encoding in {E_UNSET, E_INT64, E_CSTR, E_SDS}
      && (encoding == E_UNSET ==> len == 0)
      && (encoding == E_INT64 ==> len == DecimalLength(ival))
      && (encoding in {E_CSTR, E_SDS} ==> len == |text|)
    }

    /** The value the fields hold. */
    function View(): (x: Scalar)
      reads this
      requires Valid()
      ensures Encoding(x) == encoding && StringLength(x) == len
    {
      if encoding == E_INT64 then Integer(ival)
      else if encoding == E_CSTR then Text(false, text)
      else if encoding == E_SDS then Text(true, text)
      else Unset
    }

    constructor ()
      ensures Valid() && View() == Unset
    {
      encoding, len, ival, text := E_UNSET, 0, 0, [];
    }

    /** Data(str, try_int_encoding) */
    constructor FromString(s: seq<Byte>, tryIntEncoding: bool)
      ensures Valid() && View() == StringValue(s, tryIntEncoding)
    {
      encoding, len, ival, text := E_UNSET, 0, 0, [];
      new;
      SetString(s, tryIntEncoding);
    }

    /** The copy constructor: a new Data holding the same value. */
    constructor Copy(other: Data)
      requires other.Valid()
      ensures Valid() && View() == other.View()
    {
      encoding, len, ival, text := other.encoding, other.len, 0, [];
      new;
      Clone(other);
    }

    /** Resets the tag and the length; the payload fields are left as they were. */
    method Clear()
      modifies this
      ensures Valid() && View() == Unset
      ensures encoding == E_UNSET && len == 0 && ival == old(ival) && text == old(text)
    {
      encoding := E_UNSET;
      len := 0;
    }

    method SetInt64(v: Int64)
      modifies this
      ensures Valid() && View() == Integer(v)
      ensures len == Digits10(Abs(v)) + (if v < 0 then 1 else 0) == |Ll2String(v)|
    {
      Clear();
      encoding := E_INT64;
      ival := v;
      len := Digits10(Abs(v));
      if v < 0 {
        len := len + 1;
      }
    }

    method SetString(s: seq<Byte>, tryIntEncoding: bool)
      modifies this
      ensures Valid() && View() == StringValue(s, tryIntEncoding)
      ensures View().Text? ==> len == |s|
    {
      // src/codec.cpp:140 ignores try_int_encoding; the flag gates the parse here.
      var parsed := String2ll(s);
      if tryIntEncoding && |s| <= 21 && parsed.Some? {
        SetInt64(parsed.value);
        return;
      }
      Clear();
      text := s;
      len := |s|;
      encoding := E_CSTR;
    }

    /**
     * Takes over the value of `other`. Clear runs first, so cloning a Data
     * from itself leaves it unset.
     */
    method Clone(other: Data)
      requires other.Valid()
      modifies this
      ensures Valid()
      ensures View() == if other == this then Unset else old(other.View())
    {
      Clear();
      encoding := other.encoding;
      len := other.len;
      ival := other.ival;
      // src/codec.cpp:177-179 fills an owned copy from the wrong address; the
      // copy is meant to hold the same bytes, as it does here.
      text := other.text;
    }

    /** Appends the header word and the payload to buf. */
    method Encode(buf: Buffer)
      requires Valid()
      modifies buf
      ensures buf.readable == old(buf.readable) + Wire(View())
    {
      ghost var b := buf.readable;
      var header := PackDataHeader(len, encoding);
      assert Wire(View()) == U32Bytes(header) + Payload(View());
      buf.Write(U32Bytes(header));
      if encoding == E_INT64 {
        buf.WriteVarInt64(ival);
      } else if encoding == E_CSTR || encoding == E_SDS {
        buf.Write(text);
      }
      assert buf.readable == b + U32Bytes(header) + Payload(View());
      AppendAssoc(b, U32Bytes(header), Payload(View()));
    }

    /**
     * Reads one value from buf. On success the object holds the decoded
     * value; on failure it keeps its old value. Either way the cursor moves
     * past the bytes consumed and never past the end.
     */
    method Decode(buf: Buffer) returns (ok: bool)
      requires Valid()
      modifies this, buf
      ensures Valid()
      ensures buf.readable == old(buf.readable)[ParseScalar(old(buf.readable)).used..]
      ensures ok <==> ParseScalar(old(buf.readable)).Done?
      ensures ok ==> View() == ParseScalar(old(buf.readable)).value
      ensures !ok ==> View() == old(View())
    {
      ghost var s := buf.readable;
      var word := buf.Read(4);
      if word.None? {
        return false;
      }
      var header := U32Of(word.value);
      var tmpEncoding := header % 8;
      var tmpLen := header / 8;
      assert buf.readable == s[4..];
      // src/codec.cpp:102-103 writes a scrambled header back into the buffer;
      // that write is a defect and is left out.
      if tmpEncoding == E_INT64 {
        var v := buf.ReadVarInt64();
        if v.None? {
          return false;
        }
        SetInt64(v.value);
        return true;
      } else if tmpEncoding == E_CSTR || tmpEncoding == E_SDS {
        if buf.ReadableBytes() < tmpLen {
          return false;
        }
        // src/codec.cpp:123-128 points at the text in place and leaves the
        // cursor where it is; here exactly tmp_len bytes are taken.
        var ss := buf.Read(tmpLen);
        Clear();
        text := ss.value;
        len := tmpLen;
        encoding := E_CSTR;
        return true;
      } else {
        return false;
      }
    }
  }
}
