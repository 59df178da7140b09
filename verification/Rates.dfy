/** What the board recovers of a machine's true grind rate, over the reals: the tier a
    machine asks for, the window it spends, the ranked figure and its rounding. */
module Rates {
  import opened Numbers
  import opened Reals
  import opened Float64
  import opened Tiers

  /** Expected grinding per win, in certificate times. */
  const RATIO: real := 2.0

  const U64_MAX: nat := TWO_64 - 1

  /** A machine: attempts per second, seconds per certificate. */
  datatype Machine = Machine(attemptsPerSec: real, proveSecs: real)

  predicate Works(m: Machine) {
    m.attemptsPerSec > 0.0 && m.proveSecs > 0.0
  }

  /** Attempts per win that fill RATIO certificate times. */
  function PerWin(m: Machine): (n: real) {
    m.attemptsPerSec * RATIO * m.proveSecs
  }

  /** The saturating, truncating cast to 64 bits, guarded against non-positive input. */
  function Truncated(x: real): (n: nat) {
    if x <= 0.0 then 0 else if x.Floor > U64_MAX then U64_MAX else x.Floor
  }

  /** The tier a machine asks for. */
  function TierFor(m: Machine): (t: nat) {
    Grant(Truncated(PerWin(m)))
  }

  /** A faster machine, or one slower to prove, never asks for a smaller tier; one that fills
      the largest is granted it, however much faster it is. */
  lemma TierForMono(m: Machine, n: Machine)
    requires PerWin(m) <= PerWin(n)
    ensures TierFor(m) <= TierFor(n)
    ensures PerWin(n) >= 1073741824.0 ==> TierFor(n) == 0x4000_0000
  {
    var a, b := Truncated(PerWin(m)), Truncated(PerWin(n));
    assert a <= b;
    GrantMono(a, b);
    if PerWin(n) >= 1073741824.0 {
      assert b >= TIER_MAX;
      TierBounds();
      GrantMono(TIER_MAX, b);
      GrantAtMost(b);
    }
  }

  lemma GrantAtMost(b: nat)
    requires b >= TIER_MAX
    ensures Grant(b) == TIER_MAX
  {
    assert Clamp(b) == TIER_MAX;
    TierBounds();
    Log2Of(TIER_MAX, 30);
  }

  /** Seconds a run of k wins at `tier` expected attempts each takes: grinding, proving. */
  function Window(m: Machine, k: nat, tier: real): (w: real)
    requires Works(m)
  {
    k as real * (tier / m.attemptsPerSec + m.proveSecs)
  }

  /** The ranked figure: k wins of `tier` attempts of `macs` operations, over the window. */
  function Ranked(k: nat, tier: real, macs: real, window: real): (r: real)
    requires window > 0.0
  {
    k as real * tier * macs / window
  }

  /** A machine's true rate. */
  function TrueRate(m: Machine, macs: real): (r: real) {
    m.attemptsPerSec * macs
  }

  // ------------------------------------------------------------------------
  // Recovery
  // ------------------------------------------------------------------------

  /** Share of the true rate a tier recovers: tier / (tier + attempts in one prove time). */
  function Share(m: Machine, tier: real): (s: real)
    requires Works(m) && tier > 0.0
  {
    var lost := m.attemptsPerSec * m.proveSecs;
    MulStrict(m.proveSecs, 0.0, m.attemptsPerSec);
    tier / (tier + lost)
  }

  /** The ranked figure is the true rate times the share: k and the operations per
      attempt cancel. */
  lemma RecoversShare(m: Machine, k: nat, tier: real, macs: real)
    requires Works(m) && tier > 0.0 && k > 0
    ensures Window(m, k, tier) > 0.0
    ensures Ranked(k, tier, macs, Window(m, k, tier)) == Share(m, tier) * TrueRate(m, macs)
  {
  }

  /** The uncast tier recovers exactly RATIO / (RATIO + 1) of the true rate, whatever
      the machine, the certificate time, the wins asked for and the statement. */
  lemma UniformRecovery(m: Machine, k: nat, macs: real)
    requires Works(m) && k > 0
    ensures PerWin(m) > 0.0 && Window(m, k, PerWin(m)) > 0.0
    ensures Ranked(k, PerWin(m), macs, Window(m, k, PerWin(m))) == RATIO / (RATIO + 1.0) * TrueRate(m, macs)
  {
  }

  /** A harder tier always ranks higher, and never reaches the true rate. */
  lemma HarderRanksHigher(m: Machine, j: nat, k: nat, easy: real, hard: real, macs: real)
    requires Works(m) && 0.0 < easy < hard && j > 0 && k > 0 && macs > 0.0
    ensures Window(m, j, easy) > 0.0 && Window(m, k, hard) > 0.0
    ensures Ranked(j, easy, macs, Window(m, j, easy)) < Ranked(k, hard, macs, Window(m, k, hard)) < TrueRate(m, macs)
  {
  }

  lemma TrueRatePositive(m: Machine, macs: real)
    requires Works(m) && macs > 0.0
    ensures TrueRate(m, macs) > 0.0
  {
  }

  // ------------------------------------------------------------------------
  // The granted tier
  // ------------------------------------------------------------------------

  /** When the request is not clamped, the granted tier is within a factor of the
      square root of two of it. */
  lemma GrantBand(n: nat)
    requires TIER_MIN <= n <= TIER_MAX
    ensures Grant(n) * Grant(n) <= 2 * (n * n)
    ensures n * n <= 2 * (Grant(n) * Grant(n))
  {
    var _, lo := GrantPair(n);
    BandOfPair(n, lo, Grant(n));
  }

  lemma BandOfPair(n: nat, lo: nat, g: nat)
    requires lo <= n < 2 * lo
    requires g == if n * n < lo * (2 * lo) then lo else 2 * lo
    ensures g * g <= 2 * (n * n) && n * n <= 2 * (g * g)
  {
  }

  /** With the power-of-two tier actually granted, every machine whose request is in
      range recovers between 58% and 74% of its true rate. */
  lemma GrantedRecovery(m: Machine, k: nat, macs: real)
    requires Works(m) && k > 0 && macs > 0.0
    requires TIER_MIN as real <= PerWin(m) <= TIER_MAX as real
    ensures Window(m, k, TierFor(m) as real) > 0.0
    ensures 0.58 * TrueRate(m, macs)
            < Ranked(k, TierFor(m) as real, macs, Window(m, k, TierFor(m) as real))
            < 0.74 * TrueRate(m, macs)
  {
    GrantedNear(m);
    RecoversBetween(m, k, TierFor(m) as real, macs);
  }

  lemma RecoversBetween(m: Machine, k: nat, t: real, macs: real)
    requires Works(m) && k > 0 && macs > 0.0 && t > 0.0 && 0.58 < Share(m, t) < 0.74
    ensures Window(m, k, t) > 0.0
    ensures 0.58 * TrueRate(m, macs) < Ranked(k, t, macs, Window(m, k, t)) < 0.74 * TrueRate(m, macs)
  {
    RecoversShare(m, k, t, macs);
    TrueRatePositive(m, macs);
    Within(TrueRate(m, macs), Share(m, t), 0.58, 0.74, Ranked(k, t, macs, Window(m, k, t)));
  }

  lemma Within(t: real, s: real, lo: real, hi: real, x: real)
    requires t > 0.0 && lo < s < hi && x == s * t
    ensures lo * t < x < hi * t
  {
  }

  lemma GrantedNear(m: Machine)
    requires Works(m) && TIER_MIN as real <= PerWin(m) <= TIER_MAX as real
    ensures TierFor(m) > 0 && 0.58 < Share(m, TierFor(m) as real) < 0.74
  {
    var n := Truncated(PerWin(m));
    GrantNear(n);
    GrantInRange(n);
    ShareBand(m, Grant(n) as real, n as real);
  }

  lemma GrantNear(n: nat)
    requires TIER_MIN <= n <= TIER_MAX
    ensures Grant(n) as real <= 1.4143 * n as real && n as real <= 1.4143 * Grant(n) as real
  {
    GrantBand(n);
    RootBoundNat(Grant(n), n);
    RootBoundNat(n, Grant(n));
  }

  /** 1.4143 is a little more than the square root of two. */
  lemma RootBoundNat(g: nat, n: nat)
    requires g * g <= 2 * (n * n)
    ensures g as real <= 1.4143 * n as real
  {
  }

  lemma ShareBand(m: Machine, t: real, n: real)
    requires Works(m) && n >= 4096.0 && n <= PerWin(m) < n + 1.0
    requires t > 0.0 && t <= 1.4143 * n && n <= 1.4143 * t
    ensures 0.58 < Share(m, t) < 0.74
  {
    MulStrict(m.proveSecs, 0.0, m.attemptsPerSec);
    var lost := m.attemptsPerSec * m.proveSecs;
    assert PerWin(m) == 2.0 * lost;
    Quotient(t, t + lost);
    BandOfShare(t, n, lost, t + lost, Share(m, t));
  }

  lemma BandOfShare(t: real, n: real, lost: real, whole: real, s: real)
    requires n >= 4096.0 && n <= 2.0 * lost < n + 1.0 && lost > 0.0
    requires t > 0.0 && t <= 1.4143 * n && n <= 1.4143 * t
    requires whole == t + lost && s * whole == t
    ensures 0.58 < s < 0.74
  {
    assert 0.58 * whole < t < 0.74 * whole;
    CancelLt(whole, 0.58, s);
    CancelLt(whole, s, 0.74);
  }

  // ------------------------------------------------------------------------
  // Millisecond stamps
  // ------------------------------------------------------------------------

  /** A clock reading in whole milliseconds. */
  function Stamp(seconds: real): (ms: int)
    ensures ms as real <= 1000.0 * seconds < ms as real + 1.0
  {
    (1000.0 * seconds).Floor
  }

  /** The server's window between two instants, saturating, never zero. */
  function StampedWindow(issued: real, submitted: real): (w: real)
    ensures w > 0.0
  {
    var ms := Stamp(submitted) - Stamp(issued);
    (if ms < 1 then 1 else ms) as real / 1000.0
  }

  /** Truncated stamps move a window by less than a millisecond. */
  lemma StampsClose(issued: real, submitted: real)
    requires submitted > issued
    ensures StampedWindow(issued, submitted) > submitted - issued - 0.001
    ensures StampedWindow(issued, submitted) < submitted - issued + 0.001
  {
  }

  /** A window w shorter than x by less than a millisecond inflates the ranked figure by
      less than one part in the window's milliseconds. */
  lemma InflatesLittle(k: nat, tier: real, macs: real, w: real, x: real)
    requires tier > 0.0 && macs > 0.0 && k > 0 && w > 0.0 && x > 0.0 && w > x - 0.001
    ensures Ranked(k, tier, macs, w) < Ranked(k, tier, macs, x) * (1.0 + 0.001 / w)
  {
    WorkPositive(k, tier, macs);
    Inflation(k as real * tier * macs, w, x);
  }

  lemma Inflation(work: real, w: real, x: real)
    requires work > 0.0 && w > 0.0 && x > 0.0 && w > x - 0.001
    ensures work / w < work / x * (1.0 + 0.001 / w)
  {
    var a, b, c := work / w, work / x, 0.001 / w;
    Quotient(work, w); Quotient(work, x); Quotient(0.001, w);
    PositiveQuotient(work, x, b);
    // b * (w + 0.001) > b * x == work == a * w, and b * (1 + c) * w == b * (w + 0.001).
    MulStrict(b, x, w + 0.001);
    assert b * (1.0 + c) * w == b * (w + c * w);
    CancelLt(w, a, b * (1.0 + c));
  }

  lemma PositiveQuotient(n: real, d: real, q: real)
    requires n > 0.0 && d > 0.0 && q * d == n
    ensures q > 0.0
  {
  }

  // ------------------------------------------------------------------------
  // Four significant digits
  // ------------------------------------------------------------------------

  /** Decimal shifts still to go before x reaches [1000, 10000); a bound on them. */
  function Shifts(x: real): (n: nat)
    requires x > 0.0
  {
    if x >= 10000.0 then x.Floor else if x < 1000.0 then (DivMono(x, 0.0, 1000.0); (1000.0 / x).Floor) else 0
  }

  lemma ShiftsShrink(x: real)
    requires x > 0.0
    ensures x >= 10000.0 ==> Shifts(x / 10.0) < Shifts(x)
    ensures x < 1000.0 ==> Shifts(10.0 * x) < Shifts(x)
  {
  }

  /** Rounding to four significant digits, with exact powers of ten. */
  function Signif4(x: real): (r: real)
    requires x >= 0.0
    ensures r >= 0.0
    decreases if x == 0.0 then 0 else Shifts(x)
  {
    if x == 0.0 then 0.0
    else if x >= 10000.0 then (ShiftsShrink(x); 10.0 * Signif4(x / 10.0))
    else if x < 1000.0 then (ShiftsShrink(x); Signif4(10.0 * x) / 10.0)
    else RoundAway(x) as real
  }

  /** At most half a unit of the fourth digit: one part in 2000. */
  lemma {:induction false} Signif4Error(x: real)
    requires x >= 0.0
    ensures x - x / 2000.0 <= Signif4(x) <= x + x / 2000.0
    decreases if x == 0.0 then 0 else Shifts(x)
  {
    if x >= 10000.0 {
      ShiftsShrink(x);
      Signif4Error(x / 10.0);
    } else if 0.0 < x < 1000.0 {
      ShiftsShrink(x);
      Signif4Error(10.0 * x);
    }
  }

  /** n times or over a power of ten. */
  function Scaled(n: real, up: nat, down: nat): (x: real)
    decreases up + down
  {
    if up > 0 then 10.0 * Scaled(n, up - 1, down) else if down > 0 then Scaled(n, 0, down - 1) / 10.0 else n
  }

  /** Four significant digits: an integer from 1000 to 10000, shifted. */
  lemma {:induction false} Signif4Digits(x: real) returns (n: nat, up: nat, down: nat)
    requires x > 0.0
    ensures 1000 <= n <= 10000 && (up == 0 || down == 0) && Signif4(x) == Scaled(n as real, up, down)
    ensures x >= 10000.0 ==> down == 0
    ensures x < 1000.0 ==> up == 0
    ensures 1000.0 <= x < 10000.0 ==> up == 0 && down == 0
    decreases Shifts(x)
  {
    if x >= 10000.0 {
      ShiftsShrink(x);
      n, up, down := Signif4Digits(x / 10.0);
      up := up + 1;
    } else if x < 1000.0 {
      ShiftsShrink(x);
      n, up, down := Signif4Digits(10.0 * x);
      down := down + 1;
    } else {
      n, up, down := RoundAway(x), 0, 0;
    }
  }

  lemma {:induction false} Signif4Above(x: real)
    requires x >= 1000.0
    ensures Signif4(x) >= 1000.0
    ensures x >= 10000.0 ==> Signif4(x) >= 10000.0
    decreases Shifts(x)
  {
    if x >= 10000.0 {
      ShiftsShrink(x);
      Signif4Above(x / 10.0);
    }
  }

  lemma Signif4Tenfold(x: real)
    requires x >= 0.0
    ensures Signif4(10.0 * x) == 10.0 * Signif4(x)
  {
  }

  lemma Signif4AtUnits(x: real)
    requires 1000.0 <= x < 10000.0
    ensures Signif4(x) == RoundAway(x) as real
    ensures Signif4(x) <= 10000.0
  {
  }

  lemma Signif4MonoAtUnits(x: real, y: real)
    requires 1000.0 <= x < 10000.0 && x <= y
    ensures Signif4(x) <= Signif4(y)
  {
    Signif4AtUnits(x);
    if y >= 10000.0 {
      Signif4Above(y);
    } else {
      Signif4AtUnits(y);
      RoundAwayMono(x, y);
    }
  }

  /** Rounding for display never reverses the order of two figures. */
  lemma {:induction false} Signif4Mono(x: real, y: real)
    requires 0.0 <= x <= y
    ensures Signif4(x) <= Signif4(y)
    decreases if x == 0.0 then 0 else Shifts(x)
  {
    if 0.0 < x < 1000.0 {
      ShiftsShrink(x);
      Signif4Mono(10.0 * x, 10.0 * y);
      Signif4Tenfold(x); Signif4Tenfold(y);
    } else if x >= 10000.0 {
      ShiftsShrink(x);
      Signif4Mono(x / 10.0, y / 10.0);
    } else if x > 0.0 {
      Signif4MonoAtUnits(x, y);
    }
  }

  /** No inflation end to end: the published figure of a run, stamped and rounded, is
      below the true rate but for the two roundings. */
  lemma PublishedBelowTrue(m: Machine, k: nat, tier: real, macs: real, issued: real, submitted: real)
    requires Works(m) && tier > 0.0 && k > 0 && macs > 0.0
    requires submitted - issued >= Window(m, k, tier) && submitted > issued
    ensures var w := StampedWindow(issued, submitted);
            Published(k, tier, macs, w) < TrueRate(m, macs) * (1.0 + 0.001 / w) * (1.0 + 1.0 / 2000.0)
  {
    StampsClose(issued, submitted);
    LongerRanksLower(m, k, tier, macs, submitted - issued);
    PublishedNear(k, tier, macs, StampedWindow(issued, submitted), submitted - issued, TrueRate(m, macs));
  }

  function Published(k: nat, tier: real, macs: real, w: real): (r: real)
    requires tier > 0.0 && macs > 0.0 && k > 0 && w > 0.0
  {
    RankedPositive(k, tier, macs, w);
    Signif4(Ranked(k, tier, macs, w))
  }

  lemma PublishedNear(k: nat, tier: real, macs: real, w: real, x: real, t: real)
    requires tier > 0.0 && macs > 0.0 && k > 0 && w > 0.0 && x > 0.0
    requires w > x - 0.001 && Ranked(k, tier, macs, x) < t
    ensures Published(k, tier, macs, w) < t * (1.0 + 0.001 / w) * (1.0 + 1.0 / 2000.0)
  {
    InflatesLittle(k, tier, macs, w, x);
    RankedPositive(k, tier, macs, w);
    Signif4Error(Ranked(k, tier, macs, w));
    DivMono(w, 0.0, 0.001);
    TwoRoundings(Ranked(k, tier, macs, w), Ranked(k, tier, macs, x), t, 0.001 / w, Published(k, tier, macs, w));
  }

  lemma LongerRanksLower(m: Machine, k: nat, tier: real, macs: real, x: real)
    requires Works(m) && tier > 0.0 && k > 0 && macs > 0.0 && x > 0.0 && x >= Window(m, k, tier)
    ensures Ranked(k, tier, macs, x) < TrueRate(m, macs)
  {
    HarderRanksHigher(m, k, k, tier, tier + 1.0, macs);
    WorkPositive(k, tier, macs);
    DivAntitone(k as real * tier * macs, Window(m, k, tier), x);
  }

  lemma TwoRoundings(a: real, b: real, t: real, c: real, r: real)
    requires a < b * (1.0 + c) && b < t && c >= 0.0 && r <= a + a / 2000.0
    ensures r < t * (1.0 + c) * (1.0 + 1.0 / 2000.0)
  {
  }

  lemma WorkPositive(k: nat, tier: real, macs: real)
    requires tier > 0.0 && k > 0 && macs > 0.0
    ensures k as real * tier * macs > 0.0
  {
  }

  lemma RankedPositive(k: nat, tier: real, macs: real, w: real)
    requires tier > 0.0 && k > 0 && macs > 0.0 && w > 0.0
    ensures Ranked(k, tier, macs, w) > 0.0
  {
  }
}
