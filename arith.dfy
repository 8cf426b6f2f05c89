/**
 * Two facts of nonlinear integer arithmetic the cycle macros and the temperature
 * interpolation rely on, stated once.
 */
module Arith {

  /** Multiplying by a non-negative factor keeps the order, on either side. */
  lemma MulMono(a: int, b: int, k: int)
    requires a <= b && 0 <= k
    ensures a * k <= b * k && k * a <= k * b
  {
  }

  /** Dividing by a positive divisor keeps the order of non-negative dividends. */
  lemma DivMono(a: int, b: int, d: int)
    requires 0 <= a <= b && 0 < d
    ensures a / d <= b / d
  {
    var qa, qb := a / d, b / d;
    assert qa * d <= a && b < qb * d + d;
    if qa > qb {
      MulMono(qb + 1, qa, d);
      assert false;
    }
  }
}
