/** The two rounding helpers of src/utils/promotion.ts, on exact reals.
    JavaScript's `Math.round(y)` is the integer nearest to y with ties going
    towards +infinity, that is floor(y + 0.5). */
module Rounding {

  /** JavaScript `Math.round`. */
  function JsRound(y: real): (n: int)
    ensures y - 0.5 < n as real <= y + 0.5
  {
    (y + 0.5).Floor
  }

  /** x is a whole multiple of 0.5 (a half-grade). */
  predicate IsHalfMultiple(x: real)
  {
    (2.0 * x).Floor as real == 2.0 * x
  }

  /** x is a whole multiple of 0.01. */
  predicate IsCentMultiple(x: real)
  {
    (100.0 * x).Floor as real == 100.0 * x
  }

  /** `roundToHalf`: the nearest multiple of 0.5, ties going up. */
  function RoundToHalf(x: real): (r: real)
    ensures IsHalfMultiple(r)
    ensures x - 0.25 < r <= x + 0.25
  {
    JsRound(2.0 * x) as real / 2.0
  }

  /** `roundToTwoDecimals`: the nearest multiple of 0.01, ties going up. */
  function RoundToTwoDecimals(x: real): (r: real)
    ensures IsCentMultiple(r)
    ensures x - 0.005 < r <= x + 0.005
  {
    JsRound(100.0 * x) as real / 100.0
  }

  /** The contract of RoundToHalf determines its result: the only half-grade in
      (x - 0.25, x + 0.25] is RoundToHalf(x). In particular a tie (x exactly
      between two half-grades) goes to the upper one. */
  lemma RoundToHalfUnique(x: real, h: real)
    requires IsHalfMultiple(h) && x - 0.25 < h <= x + 0.25
    ensures RoundToHalf(x) == h
  {
    var r := RoundToHalf(x);
    var m, n := (2.0 * h).Floor, (2.0 * r).Floor;
    assert m as real == 2.0 * h && n as real == 2.0 * r;
    assert -1 < m - n < 1;
  }

  /** Every half-grade is left unchanged. */
  lemma RoundToHalfFixes(h: real)
    requires IsHalfMultiple(h)
    ensures RoundToHalf(h) == h
  {
    RoundToHalfUnique(h, h);
  }

  lemma RoundToHalfIdempotent(x: real)
    ensures RoundToHalf(RoundToHalf(x)) == RoundToHalf(x)
  {
    RoundToHalfFixes(RoundToHalf(x));
  }

  lemma RoundToHalfMonotone(x: real, y: real)
    requires x <= y
    ensures RoundToHalf(x) <= RoundToHalf(y)
  {
    var m, n := JsRound(2.0 * x), JsRound(2.0 * y);
    assert m as real <= 2.0 * y + 0.5;
    assert m <= n;
  }

  /** Rounding keeps a value inside any interval whose ends are half-grades,
      such as the grade scale [1, 6]. */
  lemma RoundToHalfWithin(x: real, lo: real, hi: real)
    requires IsHalfMultiple(lo) && IsHalfMultiple(hi) && lo <= x <= hi
    ensures lo <= RoundToHalf(x) <= hi
  {
    RoundToHalfMonotone(lo, x);
    RoundToHalfMonotone(x, hi);
    RoundToHalfFixes(lo);
    RoundToHalfFixes(hi);
  }

  /** The boundary case 4.25 rounds up to 4.5 (`Math.round(8.5) / 2`). */
  lemma RoundToHalfTieGoesUp()
    ensures RoundToHalf(4.25) == 4.5
  {
    RoundToHalfUnique(4.25, 4.5);
  }

  lemma HalfIsCent(h: real)
    requires IsHalfMultiple(h)
    ensures IsCentMultiple(h)
  {
    var m := (2.0 * h).Floor;
    assert 100.0 * h == (50 * m) as real;
  }

  /** Every multiple of 0.01, hence every half-grade and every sum of
      half-grades, is left unchanged by RoundToTwoDecimals. */
  lemma RoundToTwoDecimalsFixes(c: real)
    requires IsCentMultiple(c)
    ensures RoundToTwoDecimals(c) == c
  {
    var m := (100.0 * c).Floor;
    var n := JsRound(100.0 * c);
    assert m as real == 100.0 * c;
    assert n == m;
  }

  lemma HalfMultipleSum(a: real, b: real)
    requires IsHalfMultiple(a) && IsHalfMultiple(b)
    ensures IsHalfMultiple(a + b) && IsHalfMultiple(a - b)
  {
    var m, n := (2.0 * a).Floor, (2.0 * b).Floor;
    assert m as real == 2.0 * a && n as real == 2.0 * b;
    WholeIsHalf(m + n, a + b);
    WholeIsHalf(m - n, a - b);
  }

  lemma WholeIsHalf(k: int, x: real)
    requires k as real == 2.0 * x
    ensures IsHalfMultiple(x)
  {
    assert (k as real).Floor == k;
  }

  /** Rounding to cents keeps a value inside any interval whose ends are
      multiples of 0.01, such as the grade scale [1, 6]. */
  lemma RoundToTwoDecimalsWithin(x: real, lo: real, hi: real)
    requires IsCentMultiple(lo) && IsCentMultiple(hi) && lo <= x <= hi
    ensures lo <= RoundToTwoDecimals(x) <= hi
  {
    var n := JsRound(100.0 * x);
    var a, b := (100.0 * lo).Floor, (100.0 * hi).Floor;
    assert a as real <= 100.0 * x <= b as real;
    assert a <= n <= b;
    assert RoundToTwoDecimals(x) == n as real / 100.0;
  }

  /** Rounding a non-negative number to cents never makes it negative. */
  lemma RoundToTwoDecimalsNonNegative(x: real)
    requires x >= 0.0
    ensures RoundToTwoDecimals(x) >= 0.0
  {
    assert JsRound(100.0 * x) >= 0;
  }
}
