/** The figures the ZK board shows: what the binary64 quotient, rounded to four decimals,
    is of the proofs per second it stands for. */
module Figures {
  import opened Numbers
  import opened Float64
  import opened Kernel
  import opened ZkGate

  /** r is within a relative error of c parts in 2^53 of x. */
  predicate Near(r: real, x: real, c: real) {
    x - c * x * HALF_ULP <= r <= x + c * x * HALF_ULP
  }

  /** r is x to four decimals, but for c parts in 2^53. */
  predicate FourDecimals(r: real, x: real, c: real) {
    && x - 0.00005 - c * (x + 1.0) * HALF_ULP <= r
    && r <= x + 0.00005 + c * (x + 1.0) * HALF_ULP
  }

  /** Rounding to four decimals moves a figure by half of one at most, up to the rounding
      of the product and of the quotient. */
  lemma Round4Error(x: real) returns (n: nat)
    requires x >= 0.0
    ensures FourDecimals(Round4(x), x, 3.0)
    ensures Round4(x) == Round(n as real / 10000.0)
  {
    n := RoundAway(Mul(x, 10000.0));
    RoundError(x * 10000.0);
    Scaled(x, Mul(x, 10000.0), RoundAway(Mul(x, 10000.0)) as real);
  }

  lemma Scaled(x: real, z: real, n: real)
    requires x >= 0.0 && n >= 0.0 && Near(z, x * 10000.0, 1.0) && z - 0.5 <= n <= z + 0.5
    ensures FourDecimals(Div(n, 10000.0), x, 3.0)
  {
    DivError(n, 10000.0);
    ScaledBack(x, z, n, n / 10000.0, Div(n, 10000.0));
  }

  lemma ScaledBack(x: real, z: real, n: real, q: real, r: real)
    requires x >= 0.0 && n >= 0.0 && q == n / 10000.0
    requires Near(z, x * 10000.0, 1.0) && z - 0.5 <= n <= z + 0.5 && Near(r, q, 1.0)
    ensures FourDecimals(r, x, 3.0)
  {
  }

  /** The exact proofs per second of k proofs in ms milliseconds. */
  function PerSecond(k: nat, ms: nat): (x: real)
    requires ms > 0
  {
    1000.0 * k as real / ms as real
  }

  /** The computed quotient is the exact one but for its four roundings. */
  lemma RateError(k: nat, ms: nat)
    requires ms > 0
    ensures PerSecond(k, ms) >= 0.0 && Near(Rate(k, ms), PerSecond(k, ms), 8.0)
  {
    SecondsPositive(ms);
    var n, m := Round(k as real), Round(ms as real);
    var d := Div(m, 1000.0);
    RoundError(k as real); RoundError(ms as real);
    DivError(m, 1000.0);
    DivError(n, d);
    SecondsNear(ms as real, m, m / 1000.0, d);
    QuotientNear(k as real, ms as real, n, d, n / d, Rate(k, ms), PerSecond(k, ms));
  }

  lemma SecondsNear(ms: real, m: real, q: real, d: real)
    requires ms > 0.0 && q == m / 1000.0 && Near(m, ms, 1.0) && Near(d, q, 1.0)
    ensures Near(d, ms / 1000.0, 3.0)
  {
  }

  /** q * d == n, x * s == k with s the seconds: cancel the denominators. */
  lemma QuotientNear(k: real, ms: real, n: real, d: real, q: real, r: real, x: real)
    requires k >= 0.0 && ms > 0.0 && d > 0.0 && q == n / d && x == 1000.0 * k / ms
    requires Near(n, k, 1.0) && Near(d, ms / 1000.0, 3.0) && Near(r, q, 1.0)
    ensures x >= 0.0 && Near(r, x, 8.0)
  {
    var s := ms / 1000.0;
    assert x * s == k;
    assert q * d == n;
    Cancelled(x, s, q, d);
    NearNear(r, q, x);
  }

  lemma Cancelled(x: real, s: real, q: real, d: real)
    requires s > 0.0 && d > 0.0 && x * s >= 0.0 && Near(q * d, x * s, 1.0) && Near(d, s, 3.0)
    ensures x >= 0.0 && Near(q, x, 5.0)
  {
  }

  lemma NearNear(r: real, q: real, x: real)
    requires x >= 0.0 && Near(q, x, 5.0) && Near(r, q, 1.0)
    ensures Near(r, x, 8.0)
  {
  }

  /** The shown figure is the exact one to four decimals. */
  lemma ShownRate(k: nat, ms: nat) returns (n: nat)
    requires ms > 0
    ensures Round4(Rate(k, ms)) == Round(n as real / 10000.0)
    ensures FourDecimals(Round4(Rate(k, ms)), PerSecond(k, ms), 20.0)
  {
    RateError(k, ms);
    n := Round4Error(Rate(k, ms));
    Composed(Round4(Rate(k, ms)), Rate(k, ms), PerSecond(k, ms));
  }

  lemma Composed(r: real, y: real, x: real)
    requires x >= 0.0 && Near(y, x, 8.0) && FourDecimals(r, y, 3.0)
    ensures FourDecimals(r, x, 20.0)
  {
  }

  /** On every run the kernel records past the gate: the figure it is ranked by is the
      proofs over the kernel's own window, and the self-reported one the proofs over the
      claimed time, each the double nearest to a number of four decimals. */
  lemma RankedFigure(calls: seq<Call>, i: nat) returns (ranked: nat, reported: nat)
    requires Gated(calls) && i < |Run(calls).runs|
    requires Run(calls).runs[i].submittedAt < U128
    ensures var r := Run(calls).runs[i];
            && RunSound(r) && 1 <= r.elapsedMs <= WindowMs(r.issuedAt, r.submittedAt)
            && FourDecimals(RankedRate(r), PerSecond(r.k, WindowMs(r.issuedAt, r.submittedAt)), 20.0)
            && FourDecimals(SelfReportedRate(r), PerSecond(r.k, r.elapsedMs), 20.0)
            && RankedRate(r) == Round(ranked as real / 10000.0)
            && SelfReportedRate(r) == Round(reported as real / 10000.0)
            && WindowMs(r.issuedAt, r.submittedAt) == (1000.0 * Seconds(r.issuedAt, r.submittedAt)).Floor
  {
    RankedNeverExceedsReported(calls, i);
    var r := Run(calls).runs[i];
    ranked := ShownRate(r.k, WindowMs(r.issuedAt, r.submittedAt));
    reported := ShownRate(r.k, r.elapsedMs);
    WindowIsFloor(r.issuedAt, r.submittedAt);
  }
}
