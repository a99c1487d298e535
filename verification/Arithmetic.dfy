/** Non-linear facts about integers, each small enough for the solver to settle alone. */
module Arithmetic {

  lemma MulMonotone(a: int, b: int, k: int)
    requires a <= b && 0 <= k
    ensures a * k <= b * k
    ensures k * a <= k * b
  {
  }

  lemma MulStrict(a: int, b: int, k: int)
    requires a < b && 0 < k
    ensures a * k < b * k
    ensures k * a < k * b
  {
  }

  /** Cancelling a positive factor. */
  lemma CancelLe(a: int, b: int, k: int)
    requires 0 < k && a * k <= b * k
    ensures a <= b
  {
    if b < a {
      MulStrict(b, a, k);
    }
  }

  lemma CancelLt(a: int, b: int, k: int)
    requires 0 < k && a * k < b * k
    ensures a < b
  {
    if b <= a {
      MulMonotone(b, a, k);
    }
  }

  lemma DivBounds(x: int, d: int)
    requires 0 < d
    ensures x / d * d <= x < (x / d + 1) * d
    ensures x == x / d * d + x % d
    ensures 0 <= x ==> 0 <= x / d
  {
    assert x == d * (x / d) + x % d;
    assert (x / d + 1) * d == x / d * d + d;
    if 0 <= x && x / d < 0 {
      MulMonotone(x / d, -1, d);
    }
  }

  /** A quotient is the only integer whose multiple encloses the dividend. */
  lemma DivUnique(x: int, d: int, q: int)
    requires 0 < d && q * d <= x < (q + 1) * d
    ensures x / d == q && x % d == x - q * d
  {
    DivBounds(x, d);
    CancelLt(x / d, q + 1, d);
    CancelLt(q, x / d + 1, d);
  }

  lemma DivAtLeast(x: int, d: int, q: int)
    requires 0 < d && q * d <= x
    ensures q <= x / d
  {
    DivBounds(x, d);
    CancelLt(q, x / d + 1, d);
  }

  lemma DivAtMost(x: int, d: int, q: int)
    requires 0 < d && x <= q * d
    ensures x / d <= q
  {
    DivBounds(x, d);
    CancelLe(x / d, q, d);
  }

  lemma DivMonotone(x: int, y: int, d: int)
    requires 0 < d && x <= y
    ensures x / d <= y / d
  {
    DivBounds(x, d);
    DivAtLeast(y, d, x / d);
  }

  /** The least multiple of `d` that reaches `x`. */
  lemma CeilingBounds(x: int, d: int)
    requires 0 < d
    ensures
      var up := if x % d == 0 then x / d else x / d + 1;
      (up - 1) * d < x <= up * d
  {
    DivBounds(x, d);
    assert (x / d - 1) * d == x / d * d - d;
  }
}
