/**
 * Python's built-in `round`, applied to exact values: the nearest integer,
 * and on an exact tie the even one of the two neighbours.
 */
module Rounding {

  /** `k` is a nearest integer to `y`, and an even one when `y` lies midway. */
  predicate IsHalfEvenRounding(y: real, k: int) {
    && y - 0.5 <= k as real <= y + 0.5
    && ((k as real - y == 0.5 || y - k as real == 0.5) ==> k % 2 == 0)
  }

  /** `round(y)` with no digits argument. */
  function RoundHalfEven(y: real): (k: int)
    ensures IsHalfEvenRounding(y, k)
  {
    var f := y.Floor;
    var frac := y - f as real;
    if frac < 0.5 then f
    else if frac > 0.5 then f + 1
    else if f % 2 == 0 then f
    else f + 1
  }

  /** The rounding rule determines its result: no other integer satisfies it. */
  lemma RoundHalfEvenUnique(y: real, k: int)
    requires IsHalfEvenRounding(y, k)
    ensures k == RoundHalfEven(y)
  {
  }

  /** Rounding never reverses the order of two values. */
  lemma RoundHalfEvenMonotone(x: real, y: real)
    requires x <= y
    ensures RoundHalfEven(x) <= RoundHalfEven(y)
  {
  }

  /**
   * `round(x, 2)`: a whole number of hundredths, the nearest one to `x`, and
   * on an exact tie the one whose count of hundredths is even.
   */
  function RoundCents(x: real): (c: real)
    ensures (c * 100.0).Floor as real == c * 100.0
    ensures IsHalfEvenRounding(x * 100.0, (c * 100.0).Floor)
    ensures x - 0.005 <= c <= x + 0.005
  {
    var k := RoundHalfEven(x * 100.0);
    assert k as real / 100.0 * 100.0 == k as real;
    k as real / 100.0
  }

  /** A whole number is left unchanged by `round(x, 2)`. */
  lemma RoundCentsWhole(n: int)
    ensures RoundCents(n as real) == n as real
  {
    RoundHalfEvenUnique(n as real * 100.0, n * 100);
  }

  /** `round(x, 2)` never reverses the order of two values. */
  lemma RoundCentsMonotone(x: real, y: real)
    requires x <= y
    ensures RoundCents(x) <= RoundCents(y)
  {
    RoundHalfEvenMonotone(x * 100.0, y * 100.0);
  }

  /** A value between two whole numbers rounds, to hundredths, between them too. */
  lemma RoundCentsBetween(x: real, lo: int, hi: int)
    requires lo as real <= x <= hi as real
    ensures lo as real <= RoundCents(x) <= hi as real
  {
    RoundCentsMonotone(lo as real, x);
    RoundCentsMonotone(x, hi as real);
    RoundCentsWhole(lo);
    RoundCentsWhole(hi);
  }
}
