/** Small facts about integer multiplication and division used by the other modules. */
module Arith {

  lemma MulMonotone(a: int, b: int, m: int)
    requires m > 0 && a <= b
    ensures a * m <= b * m
  {
    assert b * m - a * m == (b - a) * m;
  }

  lemma MulStrict(a: int, b: int, m: int)
    requires m > 0 && a < b
    ensures a * m < b * m
  {
    MulMonotone(a + 1, b, m);
    assert (a + 1) * m == a * m + m;
  }

  /** The Euclidean quotient of a non-negative `n` by a positive `d` is the floor of `n / d`. */
  lemma DivFloor(n: int, d: int)
    requires n >= 0 && d > 0
    ensures (n / d) * d <= n < (n / d + 1) * d
  {
    assert n == (n / d) * d + n % d;
    assert (n / d + 1) * d == (n / d) * d + d;
  }
}
