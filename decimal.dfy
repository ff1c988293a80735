/**
 * The decimal helpers the codec relies on: digit counting (digits10),
 * rendering (ll2string) and strict parsing (string2ll). Text is ASCII bytes.
 */
module Decimal {
  import opened Wrappers
  import opened Bytes

  const Zero: Byte := 48
  const MinusSign: Byte := 45

  predicate IsDigit(b: Byte) {
    Zero <= b <= Zero + 9
  }

  predicate AllDigits(s: seq<Byte>) {
    forall i :: 0 <= i < |s| ==> IsDigit(s[i])
  }

  function Abs(v: int): nat {
    if v < 0 then -v else v
  }

  /** digits10: the number of decimal digits of n; zero has one digit. */
  function Digits10(n: nat): (r: nat)
    ensures 1 <= r
    ensures r == 1 <==> n < 10
  {
    if n < 10 then 1 else 1 + Digits10(n / 10)
  }

  /** The length of the decimal form of v, counting the minus sign. */
  function DecimalLength(v: int): (r: nat)
    ensures r == 1 <==> 0 <= v < 10
    ensures v < 0 ==> r >= 2
  {
    Digits10(Abs(v)) + (if v < 0 then 1 else 0)
  }

  /** The decimal digits of n, most significant first, without leading zeros. */
  function DigitsOf(n: nat): (r: seq<Byte>)
    ensures |r| == Digits10(n)
    ensures AllDigits(r)
    ensures r[0] == Zero <==> n == 0
  {
    if n < 10 then [Zero + n] else DigitsOf(n / 10) + [Zero + n % 10]
  }

  /** ll2string: the decimal form of v. */
  function Ll2String(v: int): (r: seq<Byte>)
    ensures |r| == DecimalLength(v)
    ensures r[0] == MinusSign <==> v < 0
  {
    if v < 0 then [MinusSign] + DigitsOf(-v) else DigitsOf(v)
  }

  /** The number a run of digits denotes. */
  function DigitsValue(s: seq<Byte>): nat
    requires AllDigits(s)
  {
    if s == [] then 0 else DigitsValue(s[..|s| - 1]) * 10 + (s[|s| - 1] - Zero)
  }

  /**
   * string2ll: accepts exactly "0", or an optional '-' followed by digits
   * with no leading zero, whose value lies in the int64 range.
   */
  function String2ll(s: seq<Byte>): (r: Option<Int64>)
    ensures r.Some? ==> s != [] && (r.value < 0 <==> s[0] == MinusSign)
  {
    if |s| == 1 && s[0] == Zero then Some(0)
    else
      var negative := |s| > 0 && s[0] == MinusSign;
      var body := if negative then s[1..] else s;
      if body == [] || !AllDigits(body) || body[0] == Zero then None
      else
        DigitsValuePositive(body);
        var m: int := DigitsValue(body);
        var v := if negative then -m else m;
        if -0x8000_0000_0000_0000 <= v < 0x8000_0000_0000_0000 then Some(v) else None
  }

  lemma {:induction false} DigitsValueOfDigits(n: nat)
    ensures DigitsValue(DigitsOf(n)) == n
  {
    if n >= 10 {
      var d := DigitsOf(n / 10);
      var s := d + [Zero + n % 10];
      assert s[..|s| - 1] == d;
      DigitsValueOfDigits(n / 10);
    }
  }

  lemma {:induction false} DigitsValuePositive(s: seq<Byte>)
    requires s != [] && AllDigits(s) && s[0] != Zero
    ensures DigitsValue(s) > 0
  {
    if |s| > 1 {
      DigitsValuePositive(s[..|s| - 1]);
    }
  }

  lemma {:induction false} DigitsOfValue(s: seq<Byte>)
    requires s != [] && AllDigits(s) && s[0] != Zero
    ensures DigitsOf(DigitsValue(s)) == s
  {
    var init := s[..|s| - 1];
    if init != [] {
      DigitsValuePositive(init);
      DigitsOfValue(init);
      var n := DigitsValue(s);
      assert n / 10 == DigitsValue(init) && n % 10 == s[|s| - 1] - Zero;
      assert s == init + [s[|s| - 1]];
    }
  }

  /** string2ll accepts the decimal form of every int64 and returns that value. */
  lemma String2llRendered(v: Int64)
    ensures String2ll(Ll2String(v)) == Some(v)
  {
    var n := Abs(v);
    DigitsValueOfDigits(n);
    if v < 0 {
      assert Ll2String(v)[1..] == DigitsOf(n);
    }
  }

  /** string2ll accepts nothing but the decimal form of the value it returns. */
  lemma String2llCanonical(s: seq<Byte>, v: Int64)
    requires String2ll(s) == Some(v)
    ensures Ll2String(v) == s
  {
    if !(|s| == 1 && s[0] == Zero) {
      var negative := |s| > 0 && s[0] == MinusSign;
      var body := if negative then s[1..] else s;
      DigitsOfValue(body);
      DigitsValuePositive(body);
      if negative {
        assert s == [MinusSign] + body;
      }
    }
  }

  function Pow10(k: nat): (r: nat)
    ensures r >= 1
  {
    if k == 0 then 1 else 10 * Pow10(k - 1)
  }

  /** n has exactly Digits10(n) digits: it lies below 10^r, and at or above 10^(r-1) when r > 1. */
  lemma {:induction false} Digits10Exact(n: nat)
    ensures n < Pow10(Digits10(n))
    ensures Digits10(n) > 1 ==> Pow10(Digits10(n) - 1) <= n
  {
    if n >= 10 {
      Digits10Exact(n / 10);
    }
  }

  lemma {:induction false} Digits10Bound(n: nat, k: nat)
    requires 1 <= k && n < Pow10(k)
    ensures Digits10(n) <= k
  {
    if n >= 10 {
      assert k >= 2 && n / 10 < Pow10(k - 1);
      Digits10Bound(n / 10, k - 1);
    }
  }

  /**
   * Every string string2ll accepts has at most 20 bytes, so the codec's
   * 21-byte guard before parsing never turns away a parseable string.
   */
  lemma String2llShort(s: seq<Byte>)
    requires String2ll(s).Some?
    ensures |s| <= 20
  {
    var v := String2ll(s).value;
    String2llCanonical(s, v);
    assert Pow10(3) == 1000;
    assert Pow10(6) == 1000_000;
    assert Pow10(9) == 1000_000_000;
    assert Pow10(12) == 1000_000_000_000;
    assert Pow10(15) == 1000_000_000_000_000;
    assert Pow10(18) == 1000_000_000_000_000_000;
    Digits10Bound(Abs(v), 19);
  }
}
