/** Decimal arithmetic in tenths, as the statistics handlers produce it: SQL and PHP
    `ROUND(x, 1)` round half away from zero, and a percentage is kept as an integer
    number of tenths of a percent. */
module Arith {

  /** Negating one factor negates the product. */
  lemma MulNegate(x: int, y: int)
    ensures x * -y == -(x * y)
  {
  }

  /** `n / d` rounded to the nearest integer, halves away from zero. */
  function RoundDiv(n: int, d: int): (r: int)
    requires d > 0
    ensures -d <= 2 * (r * d - n) <= d
    ensures n >= 0 ==> 2 * (r * d - n) > -d
    ensures n < 0 ==> 2 * (r * d - n) < d
  {
    if n >= 0 then
      var q := (2 * n + d) / (2 * d);
      DivBounds(2 * n + d, 2 * d);
      q
    else
      var q := (2 * -n + d) / (2 * d);
      DivBounds(2 * -n + d, 2 * d);
      -q
  }

  lemma DivBounds(a: int, b: int)
    requires a >= 0 && b > 0
    ensures (a / b) * b <= a < (a / b) * b + b
  {
  }

  lemma MulAtLeast(x: int, d: int)
    requires d > 0
    ensures x >= 1 ==> x * d >= d
    ensures x <= -1 ==> x * d <= -d
  {
  }

  /** Rounding an exact multiple gives the multiplier back. */
  lemma RoundDivExact(k: int, d: int)
    requires d > 0
    ensures RoundDiv(k * d, d) == k
  {
    var r := RoundDiv(k * d, d);
    assert (r - k) * d == r * d - k * d;
    MulAtLeast(r - k, d);
  }

  /** Rounding is monotone. */
  lemma RoundDivMonotone(a: int, b: int, d: int)
    requires d > 0 && a <= b
    ensures RoundDiv(a, d) <= RoundDiv(b, d)
  {
    var ra, rb := RoundDiv(a, d), RoundDiv(b, d);
    assert (ra - rb) * d == ra * d - rb * d;
    MulAtLeast(ra - rb, d);
  }

  /** A quotient between two whole numbers rounds to a value between them. */
  lemma RoundDivBetween(n: int, d: int, lo: int, hi: int)
    requires d > 0 && lo * d <= n <= hi * d
    ensures lo <= RoundDiv(n, d) <= hi
  {
    RoundDivMonotone(lo * d, n, d);
    RoundDivMonotone(n, hi * d, d);
    RoundDivExact(lo, d);
    RoundDivExact(hi, d);
  }

  // ---------------------------------------------------------------- sum, max, min

  function Sum(s: seq<int>): int {
    if s == [] then 0 else Sum(s[..|s| - 1]) + s[|s| - 1]
  }

  /** PHP's `max()` of a non-empty list. */
  function Max(s: seq<int>): (m: int)
    requires s != []
    ensures m in s && forall x :: x in s ==> x <= m
  {
    var last := s[|s| - 1];
    if |s| == 1 then last
    else
      var init := s[..|s| - 1];
      var m := Max(init);
      assert s == init + [last];
      if last > m then last else m
  }

  /** PHP's `min()` of a non-empty list. */
  function Min(s: seq<int>): (m: int)
    requires s != []
    ensures m in s && forall x :: x in s ==> m <= x
  {
    var last := s[|s| - 1];
    if |s| == 1 then last
    else
      var init := s[..|s| - 1];
      var m := Min(init);
      assert s == init + [last];
      if last < m then last else m
  }

  /** Every element lies between `lo` and `hi`, so the sum lies between `|s|` times each. */
  lemma {:induction false} SumBetween(s: seq<int>, lo: int, hi: int)
    requires forall x :: x in s ==> lo <= x <= hi
    ensures |s| * lo <= Sum(s) <= |s| * hi
  {
    if s != [] {
      var init := s[..|s| - 1];
      assert forall x :: x in init ==> x in s;
      SumBetween(init, lo, hi);
      assert s[|s| - 1] in s;
      assert |s| * lo == |init| * lo + lo;
      assert |s| * hi == |init| * hi + hi;
    }
  }

  /** The rounded mean of a non-empty list lies between its minimum and maximum. */
  lemma MeanBetween(s: seq<int>)
    requires s != []
    ensures Min(s) <= RoundDiv(Sum(s), |s|) <= Max(s)
  {
    SumBetween(s, Min(s), Max(s));
    assert |s| * Min(s) == Min(s) * |s|;
    assert |s| * Max(s) == Max(s) * |s|;
    RoundDivBetween(Sum(s), |s|, Min(s), Max(s));
  }
}
