/** Monotonicity of products, kept away from the solver's nonlinear search. */
module Arithmetic {

  lemma MulSuccessor(m: nat, n: nat)
    ensures (m + 1) * n == m * n + n
  {
  }

  lemma MulCommutes(m: nat, n: nat)
    ensures m * n == n * m
  {
  }

  lemma {:induction false} MulMonotone(a: nat, b: nat, n: nat)
    requires a <= b
    ensures a * n <= b * n
    decreases b - a
  {
    if a < b {
      MulMonotone(a + 1, b, n);
      MulSuccessor(a, n);
    }
  }

  lemma DivBounds(m: nat, d: nat)
    requires d > 0
    ensures (m / d) * d <= m < (m / d) * d + d
  {
  }

  /** The quotient is the only multiple count that fits. */
  lemma DivAtMost(m: nat, d: nat, q: nat)
    requires d > 0 && m < (q + 1) * d
    ensures m / d <= q
  {
    DivBounds(m, d);
    if m / d > q { MulMonotone(q + 1, m / d, d); }
  }

  lemma DivAtLeast(m: nat, d: nat, q: nat)
    requires d > 0 && q * d <= m
    ensures q <= m / d
  {
    DivBounds(m, d);
    if q > m / d {
      MulMonotone(m / d + 1, q, d);
      MulSuccessor(m / d, d);
    }
  }
}
