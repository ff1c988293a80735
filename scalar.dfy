/**
 * The value a Data object holds (src/codec.cpp), and its side-effect-free
 * queries. The class that holds it and updates it in place is DataObjects.Data.
 */
module Scalars {
  import opened Wrappers
  import opened Bytes
  import opened Decimal

  // Encoding tags; 0 means that no value is set.
  const E_UNSET: nat := 0
  const E_INT64: nat := 1
  const E_FLOAT64: nat := 2
  const E_CSTR: nat := 3
  const E_SDS: nat := 4

  /**
   * A Data value: unset, a 64-bit integer, or text. For text, `owned` tells
   * the owned tag (E_SDS) from the borrowed one (E_CSTR); the model keeps the
   * bytes themselves in both cases.
   */
  datatype Scalar = Unset | Integer(v: Int64) | Text(owned: bool, bytes: seq<Byte>)

  /** The encoding tag of a value; it fits the header's 3 tag bits and is never E_FLOAT64. */
  function Encoding(x: Scalar): (tag: nat)
    ensures tag < 8 && tag != E_FLOAT64
    ensures tag == E_UNSET <==> x.Unset?
  {
    match x
    case Unset => E_UNSET
    case Integer(_) => E_INT64
    case Text(owned, _) => if owned then E_SDS else E_CSTR
  }

  /** Data::IsInteger: the tag is E_INT64, which holds for integers and nothing else. */
  predicate IsInteger(x: Scalar): (b: bool)
    ensures b <==> x.Integer?
  {
    Encoding(x) == E_INT64
  }

  /** `len`: for an integer the length of its decimal form, for text its byte count. */
  function StringLength(x: Scalar): (n: nat)
    ensures x.Integer? ==> n >= 1
    ensures x.Text? ==> n == |x.bytes|
    ensures x.Unset? ==> n == 0
  {
    match x
    case Unset => 0
    case Integer(v) => DecimalLength(v)
    case Text(_, b) => |b|
  }

  /** `len` is always the length of what ToString renders. */
  lemma LengthIsRendering(x: Scalar)
    ensures StringLength(x) == |ToString(x, [])|
  {
  }

  /** The integer held, or 0 for any other value. */
  function GetInt64(x: Scalar): (v: Int64)
    ensures IsInteger(x) ==> Ll2String(v) == ToString(x, [])
    ensures !IsInteger(x) ==> v == 0
  {
    if IsInteger(x) then x.v else 0
  }

  /** The text bytes of a text value; none for an integer or an unset value. */
  function CStr(x: Scalar): (r: Option<seq<Byte>>)
    ensures r.Some? <==> Encoding(x) in {E_CSTR, E_SDS}
    ensures r.Some? ==> |r.value| == StringLength(x)
    ensures r.Some? ==> r.value == ToString(x, [])
  {
    if x.Text? then Some(x.bytes) else None
  }

  /**
   * ToString(out): the decimal form of an integer, the bytes of text; an
   * unset value leaves `out` as it was.
   */
  function ToString(x: Scalar, out: seq<Byte>): (r: seq<Byte>)
    ensures x.Unset? ==> r == out
    ensures x.Text? ==> r == x.bytes
    ensures x.Integer? ==> String2ll(r) == Some(x.v) && |r| == DecimalLength(x.v)
  {
    match x
    case Unset => out
    case Integer(v) => String2llRendered(v); Ll2String(v)
    case Text(_, b) => b
  }

  /**
   * The value SetString(s, tryIntEncoding) leaves: an integer when asked to
   * try and s is at most 21 bytes and the decimal form of an int64,
   * otherwise s itself as borrowed text. Either way it renders back to s.
   */
  function StringValue(s: seq<Byte>, tryIntEncoding: bool): (x: Scalar)
    ensures x.Integer? <==> tryIntEncoding && String2ll(s).Some?
    ensures x.Integer? ==> x.v == String2ll(s).value
    ensures x.Text? ==> x == Text(false, s)
    ensures ToString(x, []) == s
  {
    // src/codec.cpp:140 does not look at try_int_encoding; the flag gates the parse here.
    if tryIntEncoding && |s| <= 21 && String2ll(s).Some? then
      var v := String2ll(s).value;
      String2llCanonical(s, v);
      Integer(v)
    else
      assert String2ll(s).Some? ==> |s| <= 20 by {
        if String2ll(s).Some? { String2llShort(s); }
      }
      Text(false, s)
  }
}
