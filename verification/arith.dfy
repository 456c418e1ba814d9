/**
  Facts about multiplication and division of reals that the solver does not
  find on its own in larger contexts. Used by the accumulator and sampling
  proofs.
 */
module Arith {

  lemma MulNonNegative(a: real, b: real)
    requires a >= 0.0 && b >= 0.0
    ensures a * b >= 0.0
  {
  }

  lemma MulPositive(a: real, b: real)
    requires a > 0.0 && b > 0.0
    ensures a * b > 0.0
  {
  }

  lemma ReciprocalTimes(r: real, q: real)
    requires r > 0.0 && q == 1.0 / r
    ensures q * r == 1.0
  {
  }

  lemma MulNonPositive(a: real, b: real)
    requires a >= 0.0 && b <= 0.0
    ensures a * b <= 0.0
  {
    MulNonNegative(a, -b);
  }

  /** A non-positive number divided by a negative one is non-negative. */
  lemma DivideNonPositive(a: real, r: real)
    requires a <= 0.0 && r < 0.0
    ensures a / r >= 0.0
  {
  }

  /** The point a share `u` of the way from `lo` to `hi`. */
  function Lerp(lo: real, hi: real, u: real): real {
    lo + (hi - lo) * u
  }

  /** Dividing `a >= t * r` by a negative `r` flips the comparison: `a / r <= t`. */
  lemma DivideByNegative(a: real, t: real, r: real)
    requires r < 0.0 && a >= t * r
    ensures a / r <= t
  {
    var d := a / r - t;
    assert d * r == a - t * r;
    if d > 0.0 {
      MulPositive(d, -r);
    }
  }

  /** Moving a share `u` in [0, 1] of the way from `lo` to `hi` stays in [lo, hi]. */
  lemma Interpolate(lo: real, hi: real, u: real)
    requires lo <= hi && 0.0 <= u <= 1.0
    ensures lo <= Lerp(lo, hi, u) <= hi
  {
    var w := hi - lo;
    MulNonNegative(w, u);
    MulNonNegative(w, 1.0 - u);
    assert w * (1.0 - u) == w - w * u;
  }

  /** Below one period `1 / r`, a time `c` corresponds to less than one event. */
  lemma BelowOnePeriod(c: real, r: real)
    requires r > 0.0 && 0.0 <= c < 1.0 / r
    ensures 0.0 <= c * r < 1.0
  {
    var q := 1.0 / r;
    var d := q - c;
    var cr := c * r;
    ReciprocalTimes(r, q);
    MulPositive(d, r);
    MulNonNegative(c, r);
    Distribute(q, c, r);
    assert d * r == 1.0 - cr;
  }

  lemma Distribute(q: real, c: real, r: real)
    ensures (q - c) * r == q * r - c * r
  {
  }

  /** Dividing a fraction in [0, 1) by a positive rate stays below one period. */
  lemma FractionOfPeriod(f: real, r: real)
    requires 0.0 <= f < 1.0 && r > 0.0
    ensures 0.0 <= f / r < 1.0 / r
  {
    var q := 1.0 / r;
    assert q > 0.0;
    assert f / r == f * q;
    MulNonNegative(f, q);
    MulPositive(1.0 - f, q);
    assert (1.0 - f) * q == q - f * q;
  }

  /** Undoing a scaling by `r`: `(t * r - m) / r = t - m / r`. */
  lemma UnscaleDifference(t: real, m: real, r: real)
    requires r != 0.0
    ensures (t * r - m) / r == t - m / r
  {
  }

  lemma DivideSum(a: real, b: real, r: real)
    requires r != 0.0
    ensures (a + b) / r == a / r + b / r
  {
  }

  lemma ScaleBack(x: real, c: real, r: real)
    requires r != 0.0
    ensures (x / r + c) * r == x + c * r
  {
  }
}
