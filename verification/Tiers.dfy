/** Difficulty tiers: the power of two granted for a request, the one-bit target that
    realizes it, and the inversion of a statement's own score. */
module Tiers {
  import opened Wrappers
  import opened Numbers
  import opened Bytes
  import opened Float64
  import opened Score

  const TIER_MIN: nat := 0x1000
  const TIER_MAX: nat := 0x4000_0000

  /** 2^n. */
  function Power(n: nat): (p: nat)
    ensures p > 0
  {
    if n == 0 then 1 else 2 * Power(n - 1)
  }

  lemma {:induction false} PowerMono(a: nat, b: nat)
    requires a <= b
    ensures Power(a) <= Power(b)
    ensures a < b ==> 2 * Power(a) <= Power(b)
    decreases b - a
  {
    if a < b { PowerMono(a, b - 1); }
  }

  /** Position of the leading bit. */
  function Log2(m: nat): (j: nat)
    requires m > 0
    ensures Power(j) <= m < 2 * Power(j)
  {
    if m == 1 then 0 else Log2(m / 2) + 1
  }

  lemma Log2Of(m: nat, j: nat)
    requires Power(j) <= m < 2 * Power(j)
    ensures Log2(m) == j
  {
  }

  function Clamp(requested: nat): (n: nat)
    ensures TIER_MIN <= n <= TIER_MAX
  {
    if requested < TIER_MIN then TIER_MIN else if requested > TIER_MAX then TIER_MAX else requested
  }

  /** The tier granted for a request. */
  function Grant(requested: nat): (g: nat)
  {
    var n := Clamp(requested);
    var lo := Power(Log2(n));
    if n == lo then n
    else if n * n >= lo * (2 * lo) then 2 * lo
    else lo
  }

  /** 2^12, 2^13, ..., 2^30. */
  ghost predicate IsTier(t: nat) {
    exists a :: 12 <= a <= 30 && t == Power(a)
  }

  lemma TierBounds()
    ensures Power(12) == TIER_MIN && Power(30) == TIER_MAX
  {
    assert Power(12) == TIER_MIN;
    assert Power(24) == 0x100_0000;
    assert Power(30) == TIER_MAX;
  }

  lemma TierRange(a: nat)
    requires 12 <= a <= 30
    ensures TIER_MIN <= Power(a) <= TIER_MAX
  {
    TierBounds();
    PowerMono(12, a); PowerMono(a, 30);
  }

  /** Outside the exponents 12..30 a power is outside the range. */
  lemma TierRangeOnly(a: nat)
    ensures a < 12 ==> 2 * Power(a) <= TIER_MIN
    ensures a > 30 ==> Power(a) > TIER_MAX
    ensures a == 30 ==> Power(a) == TIER_MAX
  {
    TierBounds();
    if a < 12 { PowerMono(a, 12); }
    if a > 30 { PowerMono(30, a); }
  }

  /** Which tier is granted: with 2^a the power below the clamped request n, 2^a when
      n^2 is below the square of the geometric midpoint, 2^(a+1) otherwise. */
  lemma GrantCases(requested: nat) returns (a: nat, b: nat)
    ensures var n := Clamp(requested);
            && 12 <= a <= b <= 30 && b <= a + 1
            && Power(a) <= n < 2 * Power(a)
            && (b == a <==> n * n < Power(a) * (2 * Power(a)))
            && Grant(requested) == Power(b)
  {
    a := Log2(Clamp(requested));
    TierRangeOnly(a);
    SquareBelowMidpoint(Power(a));
    b := if Clamp(requested) * Clamp(requested) < Power(a) * (2 * Power(a)) then a else a + 1;
  }

  /** The same with the power itself: lo or 2 * lo, split at the geometric midpoint. */
  lemma GrantPair(requested: nat) returns (a: nat, lo: nat)
    ensures var n := Clamp(requested);
            && lo == Power(a) && lo <= n < 2 * lo
            && Grant(requested) == if n * n < lo * (2 * lo) then lo else 2 * lo
  {
    var b;
    a, b := GrantCases(requested);
    lo := Power(a);
  }

  lemma SquareBelowMidpoint(p: nat)
    requires p > 0
    ensures p * p < p * (2 * p)
  {
  }

  /** Every request is granted a tier. */
  lemma GrantInRange(requested: nat)
    ensures IsTier(Grant(requested))
    ensures TIER_MIN <= Grant(requested) <= TIER_MAX
  {
    var _, b := GrantCases(requested);
    TierRange(b);
  }

  lemma GrantOfTier(a: nat)
    requires 12 <= a <= 30
    ensures Grant(Power(a)) == Power(a)
  {
    TierRange(a);
    Log2Of(Power(a), a);
  }

  /** Granting is idempotent: the fixed points are exactly the tiers. */
  lemma GrantFixedPoints(t: nat)
    ensures Grant(t) == t <==> IsTier(t)
    ensures Grant(Grant(t)) == Grant(t)
  {
    GrantInRange(t);
    var a :| 12 <= a <= 30 && Grant(t) == Power(a);
    GrantOfTier(a);
    if IsTier(t) {
      var b :| 12 <= b <= 30 && t == Power(b);
      GrantOfTier(b);
    }
  }

  lemma GrantMono(r: nat, s: nat)
    requires r <= s
    ensures Grant(r) <= Grant(s)
  {
    var a, a' := GrantCases(r);
    var b, b' := GrantCases(s);
    if a == b {
      SquareMono(Clamp(r), Clamp(s));
    } else if b < a {
      PowerMono(b, a);
    }
    PowerMono(a', b');
  }

  lemma SquareMono(m: nat, n: nat)
    requires m <= n
    ensures m * m <= n * n
  {
  }

  /** g is at least as near to n as t is, on a logarithmic scale:
      max(n, g) / min(n, g) <= max(n, t) / min(n, t). */
  predicate LogNearer(n: nat, g: nat, t: nat) {
    Max(n, g) * Min(n, t) <= Max(n, t) * Min(n, g)
  }

  /** No tier is logarithmically nearer to the clamped request than the granted one. */
  lemma GrantNearest(requested: nat, t: nat)
    requires IsTier(t)
    ensures LogNearer(Clamp(requested), Grant(requested), t)
  {
    var a, lo := GrantPair(requested);
    var b :| 12 <= b <= 30 && t == Power(b);
    PowersAround(a, b);
    NearestOfPair(Clamp(requested), lo, t, Grant(requested));
  }

  lemma PowersAround(a: nat, b: nat)
    ensures Power(b) <= Power(a) || Power(b) >= 2 * Power(a)
  {
  }

  lemma NearestOfPair(n: nat, lo: nat, t: nat, g: nat)
    requires lo <= n < 2 * lo
    requires t <= lo || t >= 2 * lo
    requires g == if n * n < lo * (2 * lo) then lo else 2 * lo
    ensures LogNearer(n, g, t)
  {
    if g == lo {
      LowerNearest(n, lo, t);
    } else {
      UpperNearest(n, lo, t);
    }
  }

  lemma LowerNearest(n: nat, lo: nat, t: nat)
    requires lo <= n < 2 * lo && n * n < lo * (2 * lo)
    requires t <= lo || t >= 2 * lo
    ensures LogNearer(n, lo, t)
  {
    assert Max(n, lo) == n && Min(n, lo) == lo;
    if t <= lo {
      ProductMono(n, t, n, lo);
    } else {
      ProductMono(lo, 2 * lo, lo, t);
    }
  }

  lemma UpperNearest(n: nat, lo: nat, t: nat)
    requires lo <= n < 2 * lo && n * n >= lo * (2 * lo)
    requires t <= lo || t >= 2 * lo
    ensures LogNearer(n, 2 * lo, t)
  {
  }

  lemma ProductMono(a: nat, b: nat, c: nat, d: nat)
    requires a <= c && b <= d
    ensures a * b <= c * d
  {
  }

  /** The square root of two is irrational, so a request is never exactly midway. */
  lemma NoTie(n: nat, m: nat)
    requires m > 0
    ensures n * n != 2 * (m * m)
    decreases m
  {
    if n * n == 2 * (m * m) {
      EvenRoot(n);
      HalfSmaller(n, m);
      DoubleSquare(n / 2);
      NoTie(m, n / 2);
    }
  }

  lemma HalfSmaller(n: nat, m: nat)
    requires m > 0 && n % 2 == 0 && n * n == 2 * (m * m)
    ensures 0 < n / 2 < m
  {
    PositiveSquare(m);
    if n >= 2 * m {
      SquareMono(2 * m, n);
    }
  }

  lemma DoubleSquare(h: nat)
    ensures (2 * h) * (2 * h) == 4 * (h * h)
  {
  }

  lemma EvenRoot(n: nat)
    requires n * n % 2 == 0
    ensures n % 2 == 0
  {
    OddSquare(n / 2);
  }

  lemma OddSquare(h: nat)
    ensures (2 * h + 1) * (2 * h + 1) % 2 == 1
  {
    assert (2 * h + 1) * (2 * h + 1) == 2 * (2 * (h * h) + 2 * h) + 1;
  }

  lemma PositiveSquare(m: nat)
    requires m > 0
    ensures m * m > 0
  {
  }

  /** Rounding up and rounding down are separated strictly: the granted tier is the
      only nearest one among the tiers that bracket the request. */
  lemma GrantNeverTies(requested: nat, a: nat)
    requires Power(a) <= Clamp(requested) < Power(a + 1)
    ensures var n := Clamp(requested); n * n != Power(a) * Power(a + 1)
  {
    NoTie(Clamp(requested), Power(a));
    assert Power(a) * (2 * Power(a)) == 2 * (Power(a) * Power(a));
  }

  // ------------------------------------------------------------------------
  // One-bit targets
  // ------------------------------------------------------------------------

  /** The little-endian target 2^bit. */
  function Pow2Target(bit: nat): (t: Target)
    requires bit < 256
  {
    PowerMono(bit % 8, 7);
    assert Power(7) == 128;
    seq(32, i => if i == bit / 8 then Power(bit % 8) else 0)
  }

  lemma {:induction false} PowerSum(m: nat, n: nat)
    ensures Power(m + n) == Power(m) * Power(n)
  {
    if n > 0 { PowerSum(m, n - 1); }
  }

  lemma {:induction false} PowerIsDouble(n: nat)
    ensures IsDouble(Power(n) as real)
  {
    if n == 0 {
      RoundInteger(1);
    } else {
      PowerIsDouble(n - 1);
      RoundDouble(Power(n - 1) as real);
    }
  }

  lemma {:induction false} ShiftPower(m: nat, j: nat)
    ensures Shift(Power(m) as real, j) == Power(m + 8 * j) as real
  {
    if j > 0 { ShiftPower(m, j - 1); Octuple(m + 8 * (j - 1)); }
  }

  lemma Octuple(n: nat)
    ensures Power(n + 8) == 256 * Power(n)
  {
    assert Power(n + 4) == 2 * Power(n + 3);
    assert Power(n + 2) == 2 * Power(n + 1);
    assert Power(n + 6) == 2 * Power(n + 5);
  }

  lemma ZeroSum(bs: seq<byte>)
    requires forall i :: 0 <= i < |bs| ==> bs[i] == 0
    ensures Horner(bs) == 0.0 && LeValue(bs) == 0
  {
  }

  /** A single nonzero byte is summed without rounding. */
  lemma {:induction false} SingleByteSum(bs: seq<byte>, i: nat)
    requires i < |bs|
    requires forall k :: 0 <= k < |bs| && k != i ==> bs[k] == 0
    ensures Horner(bs) == Shift(bs[i] as real, i) == LeValue(bs) as real
  {
    if i == 0 {
      ZeroSum(bs[1..]);
      RoundInteger(bs[0]);
    } else {
      SingleByteSum(bs[1..], i - 1);
      HornerIsDouble(bs[1..]);
      ByteScaleExact(Horner(bs[1..]));
    }
  }

  lemma BitSum(bit: nat)
    requires bit < 256
    ensures Horner(Pow2Target(bit)) == Power(bit) as real
    ensures LeValue(Pow2Target(bit)) == Power(bit)
  {
    var t := Pow2Target(bit);
    SingleByteSum(t, bit / 8);
    ShiftPower(bit % 8, bit / 8);
    assert Shift(t[bit / 8] as real, bit / 8) == Power(bit % 8 + 8 * (bit / 8)) as real;
  }

  lemma SpaceIsPower()
    ensures SPACE == Power(256)
  {
    SpaceIsPow256();
    ByteWeightIsDouble(32);
    ShiftPower(0, 32);
  }

  /** From bit 53 on a one-bit target scores the exact power of two. */
  lemma BitScore(bit: nat)
    requires 53 <= bit < 256
    ensures DenseScore(Pow2Target(bit)) == Power(256 - bit) as real
  {
    BitSum(bit);
    HighPower(bit);
    OneIsLost(Power(bit) as real);
    SpaceIsPower();
    PowerSum(256 - bit, bit);
    PowerIsDouble(256 - bit);
    ExactDivision(Power(256 - bit), Power(bit));
  }

  lemma HighPower(bit: nat)
    requires bit >= 53
    ensures IsPowerAbove53(Power(bit) as real)
  {
    PowerValue53();
    PowerIsDouble(bit);
    PowerMono(53, bit);
  }

  lemma PowerValue53()
    ensures Power(53) == TWO_53
  {
    var n: nat := 24;
    assert Power(12) == 0x1000;
    assert Power(24) == 0x100_0000;
    PowerSum(n, n);
    Octuple(n + n);
    assert Power(n + n + 5) == 2 * Power(n + n + 4);
    assert Power(n + n + 3) == 2 * Power(n + n + 2);
    assert Power(n + n + 1) == 2 * Power(n + n);
  }

  lemma ExactDivision(x: nat, y: nat)
    requires y > 0 && IsDouble(x as real)
    ensures Div((x * y) as real, y as real) == x as real
  {
    assert (x * y) as real / y as real == x as real by {
      Reals.Quotient((x * y) as real, y as real);
      Reals.CancelEq(y as real, (x * y) as real / y as real, x as real);
    }
  }

  // ------------------------------------------------------------------------
  // Inverting a statement's score
  // ------------------------------------------------------------------------

  datatype Statement = Dense | CanonicalMoe
  {
    /** Expected attempts per win under this statement's comparison. */
    function ScoreOf(target: Target): (r: real)
      ensures r >= 0.0
    {
      match this
      case Dense => DenseScore(target)
      case CanonicalMoe => MoeScore(target)
    }

    /** The bit of the target that realizes tier 2^a. */
    function TierBit(a: nat): (bit: nat)
      requires 12 <= a <= 30
      ensures bit < 256
    {
      match this
      case Dense => 256 - a
      case CanonicalMoe => 240 - a
    }
  }

  /** The first one-bit target, from `bit` up, that scores exactly `want`. */
  function FirstHit(want: real, s: Statement, bit: nat): (r: Option<Target>)
    requires bit <= 256
    decreases 256 - bit
  {
    if bit == 256 then None
    else if s.ScoreOf(Pow2Target(bit)) == want then Some(Pow2Target(bit))
    else FirstHit(want, s, bit + 1)
  }

  function TargetForAttempts(attempts: nat, s: Statement): (r: Option<Target>)
  {
    if attempts != Grant(attempts) then None
    else FirstHit(Round(attempts as real), s, 0)
  }

  /** The scan over all 256 one-bit targets. */
  method ScanForTarget(attempts: nat, s: Statement) returns (r: Option<Target>)
    ensures r == TargetForAttempts(attempts, s)
  {
    if attempts != Grant(attempts) { return None; }
    var want := Round(attempts as real);
    var bit := 0;
    while bit < 256
      invariant bit <= 256
      invariant FirstHit(want, s, bit) == FirstHit(want, s, 0)
    {
      if s.ScoreOf(Pow2Target(bit)) == want { return Some(Pow2Target(bit)); }
      bit := bit + 1;
    }
    return None;
  }

  /** A one-bit target scores a given tier at exactly one bit. The low bits, whose
      scores are not powers of two, all score above every tier. */
  lemma DenseHit(bit: nat, a: nat)
    requires bit < 256 && 12 <= a <= 30
    ensures DenseScore(Pow2Target(bit)) == Power(a) as real <==> bit == 256 - a
  {
    if bit >= 53 {
      BitScore(bit);
      DistinctPowers(256 - bit, a);
    } else {
      LowBit(bit, 53, a);
    }
  }

  lemma LowBit(bit: nat, b: nat, a: nat)
    requires bit <= b && 53 <= b < 256 && a < 256 - b
    ensures DenseScore(Pow2Target(bit)) > Power(a) as real
  {
    BitOrder(bit, b);
    ScoreAntitone(Pow2Target(bit), Pow2Target(b));
    BitScore(b);
    PowerMono(a, 256 - b);
  }

  lemma BitOrder(m: nat, n: nat)
    requires m <= n < 256
    ensures LeValue(Pow2Target(m)) <= LeValue(Pow2Target(n))
  {
    BitSum(m); BitSum(n);
    PowerMono(m, n);
  }

  lemma DistinctPowers(m: nat, n: nat)
    ensures Power(m) == Power(n) <==> m == n
  {
  }

  lemma MoeHit(bit: nat, a: nat)
    requires bit < 256 && 12 <= a <= 30
    ensures MoeScore(Pow2Target(bit)) == Power(a) as real <==> bit == 240 - a
  {
    BitSum(bit);
    FactorIsPower();
    PowerSum(bit, 16);
    SpaceIsPower();
    if bit < 240 {
      BitSum(bit + 16);
      CrossStatement(Pow2Target(bit), Pow2Target(bit + 16));
      DenseHit(bit + 16, a);
    } else {
      PowerMono(256, bit + 16);
      TierRange(a);
    }
  }

  lemma FactorIsPower()
    ensures Power(16) == MOE_FACTOR
  {
    assert Power(8) == 256;
    Octuple(8);
  }

  lemma ScoreHit(s: Statement, bit: nat, a: nat)
    requires bit < 256 && 12 <= a <= 30
    ensures s.ScoreOf(Pow2Target(bit)) == Power(a) as real <==> bit == s.TierBit(a)
  {
    match s
    case Dense => DenseHit(bit, a);
    case CanonicalMoe => MoeHit(bit, a);
  }

  /** The scan stops at the one bit that hits. */
  lemma {:induction false} FirstHitIs(want: real, s: Statement, bit: nat, hit: nat)
    requires bit <= hit < 256
    requires forall b :: 0 <= b < 256 ==> (s.ScoreOf(Pow2Target(b)) == want <==> b == hit)
    ensures FirstHit(want, s, bit) == Some(Pow2Target(hit))
    decreases 256 - bit
  {
    assert s.ScoreOf(Pow2Target(bit)) == want <==> bit == hit;
    if bit != hit { FirstHitIs(want, s, bit + 1, hit); }
  }

  lemma FirstHitIsTierBit(s: Statement, a: nat)
    requires 12 <= a <= 30
    ensures FirstHit(Power(a) as real, s, 0) == Some(Pow2Target(s.TierBit(a)))
  {
    forall b | 0 <= b < 256
      ensures s.ScoreOf(Pow2Target(b)) == Power(a) as real <==> b == s.TierBit(a)
    {
      ScoreHit(s, b, a);
    }
    FirstHitIs(Power(a) as real, s, 0, s.TierBit(a));
  }

  /** Tier to target and back, for every tier and both statements: the scan finds
      2^(256-a) or 2^(240-a), and that target scores the tier exactly. */
  lemma TierRoundTrip(s: Statement, a: nat)
    requires 12 <= a <= 30
    ensures TargetForAttempts(Power(a), s) == Some(Pow2Target(s.TierBit(a)))
    ensures s.ScoreOf(Pow2Target(s.TierBit(a))) == Power(a) as real
  {
    GrantOfTier(a);
    PowerIsDouble(a);
    FirstHitIsTierBit(s, a);
    ScoreHit(s, s.TierBit(a), a);
  }

  /** A target exists exactly for the tiers, and it scores what was asked. */
  lemma TargetExistsExactlyForTiers(s: Statement, attempts: nat)
    ensures TargetForAttempts(attempts, s).Some? <==> IsTier(attempts)
    ensures IsTier(attempts) ==> s.ScoreOf(TargetForAttempts(attempts, s).value) == attempts as real
  {
    GrantFixedPoints(attempts);
    if IsTier(attempts) {
      var a :| 12 <= a <= 30 && attempts == Power(a);
      TierRoundTrip(s, a);
    }
  }

  /** Whatever a client requests, minting cannot fail: the granted tier has a target,
      and a run at that target is credited exactly the granted attempts per win. */
  lemma MintCannotFail(s: Statement, requested: nat)
    ensures TargetForAttempts(Grant(requested), s).Some?
    ensures s.ScoreOf(TargetForAttempts(Grant(requested), s).value) == Grant(requested) as real
  {
    GrantInRange(requested);
    TargetExistsExactlyForTiers(s, Grant(requested));
  }
}
