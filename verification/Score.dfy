/** Expected grind attempts per win: the binary64 score of a 256-bit target under
    the raw (dense) and the scaled (canonical-MoE) comparison. */
module Score {
  import opened Wrappers
  import opened Bytes
  import opened Float64

  /** 2^256, as a count and as the (exact) value of 2f64.powi(256). */
  const SPACE: nat := 0x1_0000_0000_0000_0000_0000_0000_0000_0000_0000_0000_0000_0000_0000_0000_0000_0000

  /** MAC-equivalents per canonical-MoE attempt: the factor that scales its target. */
  const MOE_FACTOR: nat := 0x1_0000

  /** The running sum t * 256 + b over the bytes, most significant first. */
  function Horner(bs: seq<byte>): (h: real)
    ensures h >= 0.0
  {
    if |bs| == 0 then 0.0
    else Add(Mul(Horner(bs[1..]), 256.0), bs[0] as real)
  }

  /** The dense rule: a win is jackpot <= T, so 2^256 / (T + 1). */
  function DenseScore(target: Target): (r: real)
    ensures r >= 0.0
  {
    Div(SPACE as real, Add(Horner(target), 1.0))
  }

  /** The canonical-MoE threshold T * F, or none when it does not fit 256 bits. */
  function MoeThreshold(target: Target): (r: Option<Target>)
    ensures r.Some? <==> LeValue(target) * MOE_FACTOR < SPACE
    ensures r.Some? ==> LeValue(r.value) == LeValue(target) * MOE_FACTOR
  {
    SpaceIsPow256();
    if LeValue(target) * MOE_FACTOR < SPACE
    then Some(LeBytes(LeValue(target) * MOE_FACTOR, 32)) else None
  }

  lemma SpaceIsPow256()
    ensures Pow256(32) == SPACE
  {
    assert Pow256(8) == 0x1_0000_0000_0000_0000;
    assert Pow256(16) == 0x1_0000_0000_0000_0000_0000_0000_0000_0000;
    assert Pow256(24) == 0x1_0000_0000_0000_0000_0000_0000_0000_0000_0000_0000_0000_0000;
  }

  /** The canonical-MoE score; an unscalable target degrades to one attempt. */
  function MoeScore(target: Target): (r: real)
    ensures r >= 0.0
  {
    match MoeThreshold(target)
    case Some(theta) => DenseScore(theta)
    case None => 1.0
  }

  /** The scoring loop, from the most significant byte down. */
  method ExpectedAttemptsPerWin(target: Target) returns (r: real)
    ensures r == DenseScore(target)
  {
    var t := 0.0;
    var i := 32;
    while i > 0
      invariant 0 <= i <= 32
      invariant t >= 0.0 && t == Horner(target[i..])
    {
      i := i - 1;
      assert target[i..][1..] == target[i + 1..];
      t := Add(Mul(t, 256.0), target[i] as real);
    }
    assert target[0..] == target;
    r := Div(SPACE as real, Add(t, 1.0));
  }

  /** The same loop over the scaled threshold; no score when the target does not scale. */
  method ExpectedAttemptsPerMoeWin(target: Target) returns (r: Option<real>)
    ensures r.Some? <==> LeValue(target) * MOE_FACTOR < SPACE
    ensures r.Some? ==> r.value == MoeScore(target)
  {
    var theta := MoeThreshold(target);
    if theta.None? { return None; }
    var x := ExpectedAttemptsPerWin(theta.value);
    r := Some(x);
  }

  lemma ByteScaleExact(h: real)
    requires h >= 0.0 && IsDouble(h)
    ensures Mul(h, 256.0) == 256.0 * h && IsDouble(256.0 * h)
  {
    NibbleScaled(h);
    NibbleScaled(16.0 * h);
  }

  lemma NibbleScaled(h: real)
    requires h >= 0.0
    ensures Round(16.0 * h) == 16.0 * Round(h)
  {
    RoundDouble(h); RoundDouble(2.0 * h); RoundDouble(4.0 * h); RoundDouble(8.0 * h);
  }

  lemma HornerIsDouble(bs: seq<byte>)
    ensures IsDouble(Horner(bs))
  {
    if |bs| > 0 {
      RoundIsDouble(Mul(Horner(bs[1..]), 256.0) + bs[0] as real);
    }
  }

  /** Once the sum has reached 2^53, a further byte only scales it. */
  lemma ByteAbsorbed(h: real, b: byte)
    requires h >= HI && IsDouble(h)
    ensures Add(Mul(h, 256.0), b as real) == 256.0 * h
  {
    ByteScaleExact(h);
    UlpAtByteStep(256.0 * h);
    Absorb(256.0 * h, b as real);
  }

  /** While the sum is below 2^53 a further byte is added with one rounding. */
  lemma ByteAdded(v: nat, b: byte)
    requires v < TWO_53
    ensures Add(Mul(v as real, 256.0), b as real) == Round((256 * v + b) as real)
  {
    RoundInteger(v);
    ByteScaleExact(v as real);
  }

  /** x * 256^j. */
  function Shift(x: real, j: nat): (r: real)
  {
    if j == 0 then x else 256.0 * Shift(x, j - 1)
  }

  lemma {:induction false} ShiftMono(x: real, y: real, j: nat)
    requires x <= y
    ensures Shift(x, j) <= Shift(y, j)
    ensures x >= HI ==> Shift(x, j) >= HI
  {
    if j > 0 { ShiftMono(x, y, j - 1); }
  }

  lemma {:induction false} ShiftLinear(x: real, y: real, j: nat)
    ensures Shift(x + y, j) == Shift(x, j) + Shift(y, j)
    ensures Shift(x * HALF_ULP, j) == Shift(x, j) * HALF_ULP
  {
    if j > 0 { ShiftLinear(x, y, j - 1); }
  }

  /** Dropping the j low bytes divides by 256^j. */
  lemma {:induction false} SuffixBounds(bs: seq<byte>, j: nat)
    requires j <= |bs|
    ensures Shift(LeValue(bs[j..]) as real, j) <= LeValue(bs) as real
    ensures LeValue(bs) as real <= Shift(LeValue(bs[j..]) as real + 1.0, j) - 1.0
  {
    if j == 0 {
      assert bs[0..] == bs;
    } else {
      SuffixBounds(bs[1..], j - 1);
      assert bs[1..][j - 1..] == bs[j..];
    }
  }

  lemma LowByte(bs: seq<byte>)
    requires |bs| > 0
    ensures LeValue(bs) == 256 * LeValue(bs[1..]) + bs[0] as int
    ensures Horner(bs) == Add(Mul(Horner(bs[1..]), 256.0), bs[0] as real)
  {
  }

  lemma HornerAdded(bs: seq<byte>, v: nat, w: nat, b: byte)
    requires |bs| > 0 && v == LeValue(bs[1..]) && w == LeValue(bs) && b == bs[0]
    requires v < TWO_53 && Horner(bs[1..]) == v as real
    ensures w == 256 * v + b as int && Horner(bs) == Round(w as real)
  {
    LowByte(bs);
    ByteAdded(v, b);
  }

  lemma HornerAbsorbed(bs: seq<byte>)
    requires |bs| > 0 && Horner(bs[1..]) >= HI
    ensures Horner(bs) == 256.0 * Horner(bs[1..])
  {
    HornerIsDouble(bs[1..]);
    ByteAbsorbed(Horner(bs[1..]), bs[0]);
  }

  lemma RoundsAt(w: nat)
    ensures w < TWO_53 ==> Round(w as real) == w as real
    ensures w >= TWO_53 ==> Round(w as real) >= HI
  {
    if w < TWO_53 { RoundInteger(w); } else { RoundAbove(w as real); }
  }

  /** The loop is exact below 2^53; from there on it has rounded once, when the sum
      first reached 2^53, and every later byte has been absorbed. */
  lemma {:induction false} HornerForm(bs: seq<byte>) returns (j: nat)
    ensures j <= |bs|
    ensures LeValue(bs) < TWO_53 ==> Horner(bs) == LeValue(bs) as real
    ensures LeValue(bs) >= TWO_53 ==>
              && TWO_53 <= LeValue(bs[j..]) < 256 * TWO_53
              && Horner(bs) == Shift(Round(LeValue(bs[j..]) as real), j)
              && Horner(bs) >= HI
  {
    j := 0;
    if |bs| > 0 {
      var j' := HornerForm(bs[1..]);
      if LeValue(bs[1..]) < TWO_53 {
        HornerAdded(bs, LeValue(bs[1..]), LeValue(bs), bs[0]);
        RoundsAt(LeValue(bs));
        assert bs[0..] == bs;
      } else {
        HornerAbsorbed(bs);
        j := j' + 1;
        assert bs[1..][j'..] == bs[j..];
      }
    }
  }

  lemma HornerError(bs: seq<byte>)
    ensures var t := LeValue(bs) as real;
            t - 2.0 * t * HALF_ULP <= Horner(bs) <= t + t * HALF_ULP
  {
    var j := HornerForm(bs);
    if LeValue(bs) >= TWO_53 {
      SuffixBounds(bs, j);
      TailError(LeValue(bs) as real, LeValue(bs[j..]) as real, j);
    }
  }

  lemma TailError(t: real, q: real, j: nat)
    requires q >= HI && Shift(q, j) <= t <= Shift(q + 1.0, j) - 1.0
    ensures t - 2.0 * t * HALF_ULP <= Shift(Round(q), j) <= t + t * HALF_ULP
  {
    ShiftedError(q, j);
  }

  /** Rounding the leading part, and dropping what it leaves out, cost one part each. */
  lemma ShiftedError(q: real, j: nat)
    requires q >= HI
    ensures var w := Shift(q, j);
            && w - w * HALF_ULP <= Shift(Round(q), j) <= w + w * HALF_ULP
            && Shift(q + 1.0, j) <= w + w * HALF_ULP
  {
    var e := q * HALF_ULP;
    RoundError(q);
    ShiftMono(q - e, Round(q), j);
    ShiftMono(Round(q), q + e, j);
    ShiftMono(q + 1.0, q + e, j);
    ShiftLinear(q, e, j);
    ShiftLinear(q - e, e, j);
  }

  /** score * divisor is within 8 * 2^-53 = 2^-50 of exact, relatively. */
  ghost predicate WithinRelativeError(score: real, divisor: real, exact: real) {
    exact - 8.0 * exact * HALF_ULP <= score * divisor <= exact + 8.0 * exact * HALF_ULP
  }

  /** The quotient keeps a relative error of the divisor small. */
  lemma QuotientError(n: real, a: real, d: real)
    requires n >= 0.0 && a > 0.0
    requires 0.0 < a - 3.0 * a * HALF_ULP <= d <= a + 3.0 * a * HALF_ULP
    ensures WithinRelativeError(Div(n, d), a, n)
  {
    var r := Div(n, d);
    DivError(n, d);
    QuotientTimes(n, a, d, r);
  }

  lemma QuotientTimes(n: real, a: real, d: real, r: real)
    requires n >= 0.0 && a > 0.0 && d > 0.0 && n / d >= 0.0
    requires a - 3.0 * a * HALF_ULP <= d <= a + 3.0 * a * HALF_ULP
    requires n / d - n / d * HALF_ULP <= r <= n / d + n / d * HALF_ULP
    ensures n - 8.0 * n * HALF_ULP <= r * a <= n + 8.0 * n * HALF_ULP
  {
  }

  /** For every target the score is within relative error 2^-50 of 2^256 / (T + 1). */
  lemma ScoreError(target: Target)
    ensures WithinRelativeError(DenseScore(target), LeValue(target) as real + 1.0, SPACE as real)
  {
    var a := LeValue(target) as real + 1.0;
    HornerError(target);
    PlusOneError(a, Horner(target));
    QuotientError(SPACE as real, a, Add(Horner(target), 1.0));
  }

  lemma PlusOneError(a: real, h: real)
    requires a >= 1.0 && h >= 0.0
    requires (a - 1.0) - 2.0 * (a - 1.0) * HALF_ULP <= h <= (a - 1.0) + (a - 1.0) * HALF_ULP
    ensures a - 3.0 * a * HALF_ULP <= Add(h, 1.0) <= a + 3.0 * a * HALF_ULP
  {
    RoundError(h + 1.0);
  }

  /** What the running sum over bytes of value v can be. */
  predicate SumOf(v: nat, h: real)
  {
    && h >= 0.0 && IsDouble(h)
    && (if v < TWO_53 then h == v as real else h >= HI)
  }

  lemma HornerSum(bs: seq<byte>)
    ensures SumOf(LeValue(bs), Horner(bs))
  {
    HornerIsDouble(bs);
    var _ := HornerForm(bs);
  }

  lemma ByteStepMono(va: nat, ha: real, a: byte, vb: nat, hb: real, b: byte)
    requires SumOf(va, ha) && SumOf(vb, hb) && va < vb && ha <= hb
    ensures Add(Mul(ha, 256.0), a as real) <= Add(Mul(hb, 256.0), b as real)
  {
    if vb < TWO_53 {
      BothAdded(va, a, vb, b);
    } else if va >= TWO_53 {
      ByteAbsorbed(ha, a); ByteAbsorbed(hb, b);
    } else {
      AddedBelowAbsorbed(va, a, hb, b);
    }
  }

  lemma BothAdded(va: nat, a: byte, vb: nat, b: byte)
    requires va < vb < TWO_53
    ensures Add(Mul(va as real, 256.0), a as real) <= Add(Mul(vb as real, 256.0), b as real)
  {
    ByteAdded(va, a); ByteAdded(vb, b);
    RoundMono((256 * va + a) as real, (256 * vb + b) as real);
  }

  lemma AddedBelowAbsorbed(va: nat, a: byte, hb: real, b: byte)
    requires va < TWO_53 && hb >= HI && IsDouble(hb)
    ensures Add(Mul(va as real, 256.0), a as real) <= Add(Mul(hb, 256.0), b as real)
  {
    ByteAdded(va, a);
    ByteAbsorbed(hb, b);
    ByteScaleExact(hb);
    RoundMono((256 * va + a) as real, 256.0 * hb);
  }

  /** The sum is monotone in the target's value although each step rounds. */
  lemma {:induction false} HornerMono(a: seq<byte>, b: seq<byte>)
    requires |a| == |b| && LeValue(a) <= LeValue(b)
    ensures Horner(a) <= Horner(b)
  {
    if |a| > 0 {
      HornerMono(a[1..], b[1..]);
      HornerSum(a[1..]); HornerSum(b[1..]);
      if LeValue(a[1..]) == LeValue(b[1..]) {
        LeInjective(a[1..], b[1..]);
        RoundMono(Mul(Horner(a[1..]), 256.0) + a[0] as real, Mul(Horner(a[1..]), 256.0) + b[0] as real);
      } else {
        ByteStepMono(LeValue(a[1..]), Horner(a[1..]), a[0], LeValue(b[1..]), Horner(b[1..]), b[0]);
      }
    }
  }

  /** An easier target never scores more attempts. */
  lemma ScoreAntitone(a: Target, b: Target)
    requires LeValue(a) <= LeValue(b)
    ensures DenseScore(b) <= DenseScore(a)
  {
    HornerMono(a, b);
    RoundMono(Horner(a) + 1.0, Horner(b) + 1.0);
    DivAntitoneRounded(SPACE as real, Add(Horner(a), 1.0), Add(Horner(b), 1.0));
  }

  /** The top bytes round up to a power of two at most. */
  lemma {:induction false} ByteWeightIsDouble(n: nat)
    ensures Shift(1.0, n) >= 1.0 && IsDouble(Shift(1.0, n))
    ensures Pow256(n) as real == Shift(1.0, n)
  {
    if n == 0 {
      RoundInteger(1);
    } else {
      ByteWeightIsDouble(n - 1);
      ByteScaleExact(Shift(1.0, n - 1));
    }
  }

  lemma {:induction false} ShiftTwice(x: real, i: nat, j: nat)
    ensures Shift(Shift(x, i), j) == Shift(x, i + j)
  {
    if j > 0 { ShiftTwice(x, i, j - 1); }
  }

  /** The computed sum never passes the end of its range. */
  lemma HornerBounded(bs: seq<byte>)
    ensures Horner(bs) <= Shift(1.0, |bs|)
  {
    var j := HornerForm(bs);
    ByteWeightIsDouble(|bs|);
    if LeValue(bs) >= TWO_53 {
      var n := |bs| - j;
      ByteWeightIsDouble(n);
      RoundMono(LeValue(bs[j..]) as real, Shift(1.0, n));
      ShiftMono(Round(LeValue(bs[j..]) as real), Shift(1.0, n), j);
      ShiftTwice(1.0, n, j);
    }
  }

  /** From 2^53 on adding one is absorbed; at 2^53 itself the tie goes to even. */
  lemma OneIsLost(y: real)
    requires IsPowerAbove53(y)
    ensures Add(y, 1.0) == y
  {
    if y == HI {
      assert (LO + 0.5).Floor == TWO_52;
      assert RoundHalfEven(LO + 0.5) == TWO_52;
    } else {
      assert Ulp(2.0 * HI) == 4.0;
      UlpMono(2.0 * HI, y);
      Absorb(y, 1.0);
    }
  }

  predicate IsPowerAbove53(y: real) {
    y == HI || (y >= 2.0 * HI && IsDouble(y))
  }

  /** No target scores less than one attempt per win. */
  lemma ScoreAtLeastOne(target: Target)
    ensures DenseScore(target) >= 1.0
  {
    SpaceIsPow256();
    ByteWeightIsDouble(32);
    HornerBounded(target);
    OneIsLost(SPACE as real);
    RoundMono(Horner(target) + 1.0, SPACE as real + 1.0);
    DivAntitoneRounded(SPACE as real, Add(Horner(target), 1.0), SPACE as real);
    assert SPACE as real / SPACE as real == 1.0;
    RoundInteger(1);
  }

  /** The order carries over to the scaled rule, for every pair of targets: one that
      does not scale scores the minimum. */
  lemma MoeScoreAntitone(a: Target, b: Target)
    requires LeValue(a) <= LeValue(b)
    ensures MoeScore(b) <= MoeScore(a)
  {
    if MoeThreshold(b).Some? {
      assert LeValue(a) * MOE_FACTOR <= LeValue(b) * MOE_FACTOR;
      ScoreAntitone(MoeThreshold(a).value, MoeThreshold(b).value);
    } else if MoeThreshold(a).Some? {
      ScoreAtLeastOne(MoeThreshold(a).value);
    }
  }

  /** Credit follows the threshold: a scalable target scores under the MoE rule what
      the target 2^16 times as large scores under the dense rule; an unscalable one
      scores one attempt, the least any target can score. */
  lemma CrossStatement(t: Target, u: Target)
    ensures LeValue(u) == LeValue(t) * MOE_FACTOR ==> MoeScore(t) == DenseScore(u)
    ensures LeValue(t) * MOE_FACTOR >= SPACE ==> MoeScore(t) == 1.0 <= DenseScore(u)
  {
    SpaceIsPow256();
    ScoreAtLeastOne(u);
    if LeValue(u) == LeValue(t) * MOE_FACTOR {
      LeInjective(MoeThreshold(t).value, u);
    }
  }

  /** Under both rules the score is within 2^-50 of 2^256 / (threshold + 1). */
  lemma MoeScoreError(t: Target)
    requires LeValue(t) * MOE_FACTOR < SPACE
    ensures WithinRelativeError(MoeScore(t), (LeValue(t) * MOE_FACTOR) as real + 1.0, SPACE as real)
  {
    ScoreError(MoeThreshold(t).value);
  }
}
