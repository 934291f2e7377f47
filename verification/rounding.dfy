/**
 * Rounding to two decimal places, as `Series.round(2)` does it: scale by 100,
 * round to the nearest integer with ties to the even neighbour, scale back.
 * Amounts are exact reals here, so the binary floating-point error of the
 * original is not part of the model.
 */
module Rounding {

  /** The integer nearest to `y`; a tie goes to the even one. */
  function RoundHalfEven(y: real): (n: int)
    ensures -0.5 <= n as real - y <= 0.5
    ensures n as real - y == 0.5 || n as real - y == -0.5 ==> n % 2 == 0
  {
    var f := y.Floor;
    var frac := y - f as real;
    if frac < 0.5 then f
    else if frac > 0.5 then f + 1
    else if f % 2 == 0 then f
    else f + 1
  }

  /** `round(x, 2)`: a whole number of hundredths, within half a hundredth of `x`. */
  function Round2(x: real): (r: real)
    ensures (r * 100.0).Floor as real == r * 100.0
    ensures -0.005 <= r - x <= 0.005
  {
    RoundHalfEven(x * 100.0) as real / 100.0
  }

  function Abs(x: real): real {
    if x < 0.0 then -x else x
  }

  /** No whole number of hundredths is nearer to `x` than `round(x, 2)`. */
  lemma Round2Nearest(x: real, n: int)
    ensures Abs(Round2(x) * 100.0 - x * 100.0) <= Abs(n as real - x * 100.0)
  {
    var y := x * 100.0;
    var m := RoundHalfEven(y);
    assert Round2(x) * 100.0 == m as real;
    if n < m {
      assert n as real <= m as real - 1.0;
    } else if n > m {
      assert n as real >= m as real + 1.0;
    }
  }

  /** A value exactly halfway between two hundredths rounds to the one with an even count of hundredths. */
  lemma Round2Tie(x: real, k: int)
    requires x * 100.0 == k as real + 0.5
    ensures Round2(x) == (if k % 2 == 0 then k else k + 1) as real / 100.0
  {
    assert (x * 100.0).Floor == k;
  }

  /** A whole number of hundredths rounds to itself. */
  lemma {:induction false} Round2Exact(n: int)
    ensures Round2(n as real / 100.0) == n as real / 100.0
  {
    var y := (n as real / 100.0) * 100.0;
    assert y == n as real;
    assert y.Floor == n;
  }

  /** Rounding twice is rounding once. */
  lemma Round2Idempotent(x: real)
    ensures Round2(Round2(x)) == Round2(x)
  {
    Round2Exact(RoundHalfEven(x * 100.0));
  }

  /** Rounding commutes with negation (ties to even are symmetric). */
  lemma {:induction false} Round2Negate(x: real)
    ensures Round2(-x) == -Round2(x)
  {
    var y := x * 100.0;
    var f := y.Floor;
    var frac := y - f as real;
    if frac == 0.0 {
      assert (-y).Floor == -f;
    } else {
      assert (-y).Floor == -f - 1;
    }
  }

  /** Rounding keeps the sign: a positive value never rounds below zero. */
  lemma Round2Sign(x: real)
    ensures x >= 0.0 ==> Round2(x) >= 0.0
    ensures x <= 0.0 ==> Round2(x) <= 0.0
  {
    var y := x * 100.0;
    if x >= 0.0 {
      assert y >= 0.0;
      assert y.Floor >= 0;
    } else {
      Round2Negate(x);
      assert (-x) * 100.0 >= 0.0;
      assert ((-x) * 100.0).Floor >= 0;
    }
  }
}
