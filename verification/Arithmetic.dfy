/** The few facts about products and quotients that the solver is better told. */
module Arithmetic {
  lemma MulCancels(d: nat, p: int, q: int)
    requires d * p < d * q
    ensures p < q
  {
  }

  lemma MulMonotone(d: nat, p: int, q: int)
    requires p <= q
    ensures d * p <= d * q
  {
  }

  lemma MulSuccessor(m: nat, k: int)
    ensures m * (k + 1) == m * k + m
  {
  }

  lemma DivMonotone(a: nat, b: nat, d: nat)
    requires a <= b && d > 0
    ensures a / d <= b / d
  {
    MulCancels(d, a / d, b / d + 1);
  }

  /** Comparing a quotient is comparing with a multiple. */
  lemma QuotientAtLeast(a: nat, d: nat, q: int)
    requires d > 0
    ensures a / d >= q <==> a >= q * d
  {
    if a / d >= q {
      MulMonotone(d, q, a / d);
    } else {
      MulMonotone(d, a / d + 1, q);
    }
  }

  /** Quotients of numbers less than a divisor and one apart. */
  lemma AdjacentQuotients(d: nat, sec: nat, last: nat)
    requires d > 0 && last - d <= sec <= last
    ensures last / d - 1 <= sec / d <= last / d
  {
    DivMonotone(sec, last, d);
    MulSuccessor(d, last / d - 1);
    assert d * (last / d - 1) < d * (sec / d + 1);
    MulCancels(d, last / d - 1, sec / d + 1);
  }
}
