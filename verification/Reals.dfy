/** Monotonicity and cancellation of real products and quotients, one fact each. */
module Reals {

  lemma MulMono(p: real, x: real, y: real)
    requires p >= 0.0 && x <= y
    ensures x * p <= y * p
  {
  }

  lemma MulStrict(p: real, x: real, y: real)
    requires p > 0.0 && x < y
    ensures x * p < y * p
  {
  }

  lemma CancelLe(p: real, x: real, y: real)
    requires p > 0.0 && x * p <= y * p
    ensures x <= y
  {
  }

  lemma CancelLt(p: real, x: real, y: real)
    requires p > 0.0 && x * p < y * p
    ensures x < y
  {
  }

  lemma CancelEq(p: real, x: real, y: real)
    requires p > 0.0 && x * p == y * p
    ensures x == y
  {
  }

  lemma Quotient(x: real, p: real)
    requires p > 0.0
    ensures (x / p) * p == x
  {
  }

  lemma DivMono(p: real, x: real, y: real)
    requires p > 0.0 && x <= y
    ensures x / p <= y / p
  {
  }

  /** A larger divisor gives a smaller quotient. */
  lemma DivAntitone(x: real, p: real, q: real)
    requires x >= 0.0 && 0.0 < p <= q
    ensures x / q <= x / p
  {
  }

}
