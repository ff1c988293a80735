/**
 * Data::Compare (src/codec.cpp): the three-way order on Data values. The
 * result is the sign of the comparison, -1, 0 or 1.
 */
module ScalarOrder {
  import opened Bytes
  import opened Decimal
  import opened Scalars

  function Sign(d: int): (r: int)
    ensures -1 <= r <= 1 && (r < 0 <==> d < 0) && (r > 0 <==> d > 0)
  {
    if d < 0 then -1 else if d > 0 then 1 else 0
  }

  /** memcmp over the first n bytes, reduced to its sign. */
  function MemCmp(a: seq<Byte>, b: seq<Byte>, n: nat): (r: int)
    requires n <= |a| && n <= |b|
    ensures -1 <= r <= 1
    ensures r == 0 <==> a[..n] == b[..n]
  {
    if n == 0 then 0
    else if a[0] < b[0] then -1
    else if a[0] > b[0] then 1
    else
      var r := MemCmp(a[1..], b[1..], n - 1);
      assert a[..n] == [a[0]] + a[1..][..n - 1] && b[..n] == [b[0]] + b[1..][..n - 1];
      r
  }

  /** The lexicographic order on byte strings, a proper prefix first. */
  function LexCompare(a: seq<Byte>, b: seq<Byte>): int {
    if a == [] && b == [] then 0
    else if a == [] then -1
    else if b == [] then 1
    else if a[0] < b[0] then -1
    else if a[0] > b[0] then 1
    else LexCompare(a[1..], b[1..])
  }

  lemma {:induction false} MemCmpIsLex(a: seq<Byte>, b: seq<Byte>, n: nat)
    requires n <= |a| && n <= |b|
    ensures MemCmp(a, b, n) != 0 ==> MemCmp(a, b, n) == LexCompare(a, b)
    ensures MemCmp(a, b, n) == 0 ==> LexCompare(a, b) == LexCompare(a[n..], b[n..])
  {
    if n > 0 && a[0] == b[0] {
      MemCmpIsLex(a[1..], b[1..], n - 1);
      assert a[1..][n - 1..] == a[n..] && b[1..][n - 1..] == b[n..];
    }
  }

  /**
   * The byte comparison of Data::Compare: memcmp over the shorter length,
   * then the shorter value first. It is the lexicographic order.
   */
  function CompareBytes(a: seq<Byte>, b: seq<Byte>): (r: int)
    ensures r == LexCompare(a, b)
  {
    var minLen := if |a| < |b| then |a| else |b|;
    var c := MemCmp(a, b, minLen);
    MemCmpIsLex(a, b, minLen);
    // src/codec.cpp:225 returns the raw difference of two uint32 lengths; its sign is meant.
    if c != 0 then c else Sign(|a| - |b|)
  }

  /**
   * Data::Compare(right, alpha_cmp). Without alpha_cmp an integer sorts
   * before any other value and two integers compare by value; otherwise
   * both are compared as decimal text or raw bytes.
   */
  function Compare(x: Scalar, y: Scalar, alphaCmp: bool): (r: int)
    ensures -1 <= r <= 1
    ensures alphaCmp || (!IsInteger(x) && !IsInteger(y)) ==>
              r == LexCompare(ToString(x, []), ToString(y, []))
  {
    if !alphaCmp && IsInteger(x) && IsInteger(y) then
      // src/codec.cpp:189 returns the difference, which can overflow; its sign is meant.
      Sign(GetInt64(x) - GetInt64(y))
    else if !alphaCmp && IsInteger(x) then -1
    else if !alphaCmp && IsInteger(y) then 1
    else CompareBytes(ToString(x, []), ToString(y, []))
  }

  lemma {:induction false} LexCompareReflexive(a: seq<Byte>)
    ensures LexCompare(a, a) == 0
  {
    if a != [] {
      LexCompareReflexive(a[1..]);
    }
  }

  lemma {:induction false} LexCompareAntisymmetric(a: seq<Byte>, b: seq<Byte>)
    ensures LexCompare(a, b) == -LexCompare(b, a)
  {
    if a != [] && b != [] && a[0] == b[0] {
      LexCompareAntisymmetric(a[1..], b[1..]);
    }
  }

  /** Only equal strings compare equal. */
  lemma {:induction false} LexCompareEqual(a: seq<Byte>, b: seq<Byte>)
    requires LexCompare(a, b) == 0
    ensures a == b
  {
    if a != [] && b != [] {
      LexCompareEqual(a[1..], b[1..]);
      assert a == [a[0]] + a[1..] && b == [b[0]] + b[1..];
    }
  }

  lemma {:induction false} LexCompareTransitive(a: seq<Byte>, b: seq<Byte>, c: seq<Byte>)
    requires LexCompare(a, b) <= 0 && LexCompare(b, c) <= 0
    ensures LexCompare(a, c) <= 0
  {
    if a != [] && b != [] && c != [] && a[0] == b[0] == c[0] {
      LexCompareTransitive(a[1..], b[1..], c[1..]);
    }
  }

  /** Every value compares equal to itself, in both modes. */
  lemma CompareReflexive(x: Scalar, alphaCmp: bool)
    ensures Compare(x, x, alphaCmp) == 0
  {
    LexCompareReflexive(ToString(x, []));
  }

  /** Swapping the operands flips the sign, in both modes. */
  lemma CompareAntisymmetric(x: Scalar, y: Scalar, alphaCmp: bool)
    ensures Compare(x, y, alphaCmp) == -Compare(y, x, alphaCmp)
  {
    LexCompareAntisymmetric(ToString(x, []), ToString(y, []));
  }

  /** The order is transitive, in both modes. */
  lemma CompareTransitive(x: Scalar, y: Scalar, z: Scalar, alphaCmp: bool)
    requires Compare(x, y, alphaCmp) <= 0 && Compare(y, z, alphaCmp) <= 0
    ensures Compare(x, z, alphaCmp) <= 0
  {
    var a, b, c := ToString(x, []), ToString(y, []), ToString(z, []);
    if alphaCmp || (!IsInteger(x) && !IsInteger(y) && !IsInteger(z)) {
      LexCompareTransitive(a, b, c);
    }
  }

  /**
   * Without alpha_cmp two integers compare by value, and an integer sorts
   * before every value that is not an integer.
   */
  lemma NumericMode(x: Scalar, y: Scalar)
    ensures IsInteger(x) && IsInteger(y) ==>
              (Compare(x, y, false) < 0 <==> x.v < y.v) &&
              (Compare(x, y, false) == 0 <==> x.v == y.v)
    ensures IsInteger(x) && !IsInteger(y) ==> Compare(x, y, false) == -1 && Compare(y, x, false) == 1
  {
  }

  /**
   * Two text values, or any two values in alpha mode, compare equal exactly
   * when they render to the same bytes.
   */
  lemma CompareEqualMeansSameText(x: Scalar, y: Scalar, alphaCmp: bool)
    requires alphaCmp || (!IsInteger(x) && !IsInteger(y))
    ensures Compare(x, y, alphaCmp) == 0 <==> ToString(x, []) == ToString(y, [])
  {
    if Compare(x, y, alphaCmp) == 0 {
      LexCompareEqual(ToString(x, []), ToString(y, []));
    } else {
      LexCompareReflexive(ToString(x, []));
    }
  }
}
