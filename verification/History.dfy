/** Thinning a series to a fixed number of points, with the index arithmetic both exact
    and as binary64 computes it. */
module History {
  import opened Reals
  import opened Float64

  /** The spacing n / (cap - 1), computed in binary64. */
  function Step(n: nat, cap: nat): (s: real)
    requires cap >= 2
    ensures s >= 0.0
  {
    RoundPositive(cap - 1);
    Div(Round(n as real), Round((cap - 1) as real))
  }

  /** Position i at spacing s: the product in binary64, truncated. */
  function At(i: nat, s: real): (k: int)
    requires s >= 0.0
  {
    MulMono(s, 0.0, Round(i as real));
    Mul(Round(i as real), s).Floor
  }

  /** Index of kept point i of n. */
  function KeptIndex(i: nat, n: nat, cap: nat): (k: int)
    requires cap >= 2
  {
    At(i, Step(n, cap))
  }

  /** What a thinned series must be: `cap` points of the series at strictly increasing
      positions, the first and the last among them. */
  ghost predicate EvenSample<T>(pts: seq<T>, out: seq<T>, cap: nat, at: seq<int>) {
    && |at| == |out| == cap
    && (forall i :: 0 <= i < cap ==> 0 <= at[i] < |pts| && out[i] == pts[at[i]])
    && (forall i :: 0 <= i < cap - 1 ==> at[i] < at[i + 1])
    && (cap > 0 ==> at[cap - 1] == |pts| - 1)
    && (cap > 1 ==> at[0] == 0)
  }

  /** Does the last spaced position stay before the last point? */
  predicate LastKeptOnce(n: nat, cap: nat) {
    cap >= 2 ==> KeptIndex(cap - 2, n, cap) < n - 1
  }

  /** Keep everything up to `cap` points; otherwise cap - 1 spaced points and the last.
      The result is an even sample exactly when the last spaced position stays before
      the last point, which is then kept once; nothing else can go wrong. */
  method Thin<T>(pts: seq<T>, cap: nat) returns (out: seq<T>, ghost at: seq<int>)
    requires |pts| <= TWO_52
    ensures |pts| <= cap || cap == 0 ==> out == pts
    ensures |pts| > cap > 0 ==>
              && |out| == |at| == cap
              && (forall i :: 0 <= i < cap ==> 0 <= at[i] < |pts| && out[i] == pts[at[i]])
              && (forall i :: 0 <= i < cap - 1 ==> at[i] == KeptIndex(i, |pts|, cap))
              && at[cap - 1] == |pts| - 1
    ensures |pts| > cap > 0 ==> (EvenSample(pts, out, cap, at) <==> LastKeptOnce(|pts|, cap))
  {
    at := [];
    if |pts| <= cap || cap == 0 { return pts, at; }
    out := [];
    var i := 0;
    while i < cap - 1
      invariant 0 <= i <= cap - 1
      invariant |at| == |out| == i
      invariant forall j :: 0 <= j < i ==> 0 <= at[j] < |pts| && out[j] == pts[at[j]]
      invariant forall j :: 0 <= j < i ==> at[j] == KeptIndex(j, |pts|, cap)
    {
      KeptInRange(i, |pts|, cap);
      out := out + [pts[KeptIndex(i, |pts|, cap)]];
      at := at + [KeptIndex(i, |pts|, cap)];
      i := i + 1;
    }
    forall j | 0 <= j < cap - 2 ensures at[j] < at[j + 1] {
      KeptAscends(j, |pts|, cap);
    }
    if cap > 1 { KeptFirst(|pts|, cap); }
    out := out + [pts[|pts| - 1]];
    at := at + [|pts| - 1];
  }

  lemma KeptFirst(n: nat, cap: nat)
    requires cap >= 2
    ensures KeptIndex(0, n, cap) == 0
  {
  }

  // ------------------------------------------------------------------------
  // Any cap
  // ------------------------------------------------------------------------

  lemma StepIsQuotient(n: nat, cap: nat)
    requires 2 <= cap <= TWO_53 && n <= TWO_53
    ensures Step(n, cap) == Div(n as real, (cap - 1) as real)
  {
    RoundInteger(n); RoundInteger(cap - 1);
  }

  /** What position i comes to when i is a binary64 integer. */
  lemma AtProduct(i: nat, s: real, p: real)
    requires s >= 0.0 && i <= TWO_53 && p == i as real * s
    ensures p >= 0.0 && At(i, s) == Round(p).Floor
  {
    RoundInteger(i);
    MulMono(s, 0.0, i as real);
  }

  lemma Room(i: real, c: real, s: real, bound: real) returns (p: real)
    requires s >= 0.0 && i + 1.0 <= c && c * s <= bound
    ensures p == i * s && p + s <= bound && p + s == (i + 1.0) * s
  {
    MulMono(s, i + 1.0, c);
    p := i * s;
  }

  /** The computed spacing exceeds one, and cap - 1 of them exceed n by half at most. */
  lemma StepBounds(n: nat, cap: nat)
    requires 2 <= cap < n <= TWO_52
    ensures Step(n, cap) > 1.0
    ensures (cap - 1) as real * Step(n, cap) <= n as real + 0.5
  {
    StepIsQuotient(n, cap);
    StepOver(n, cap, n as real, (cap - 1) as real, Step(n, cap));
  }

  lemma StepOver(n: nat, cap: nat, x: real, c: real, s: real)
    requires 2 <= cap < n <= TWO_52 && x == n as real && c == (cap - 1) as real && s == Div(x, c)
    ensures s > 1.0 && c * s <= x + 0.5
  {
    QuotientBounds(x, c);
  }

  /** A computed quotient s of n by c, near its exact value q. */
  ghost predicate Near(n: real, c: real, q: real, s: real) {
    && s >= 0.0
    && 0.0 <= q <= n
    && q <= s + q * HALF_ULP
    && c * s <= n + n * HALF_ULP
  }

  lemma ComputedQuotient(n: real, c: real) returns (q: real, s: real)
    requires n >= 0.0 && c >= 1.0
    ensures s == Div(n, c) && q * c == n && Near(n, c, q, s)
  {
    q, s := n / c, Div(n, c);
    Quotient(n, c);
    DivError(n, c);
    SpacingTimes(n, c, q, s);
  }

  lemma QuotientBounds(n: real, c: real)
    requires c >= 1.0 && n >= c + 2.0 && n <= LO
    ensures Div(n, c) > 1.0 && c * Div(n, c) <= n + 0.5
  {
    var q, s := ComputedQuotient(n, c);
    MoreThanOne(n, c, q, s);
  }

  lemma MoreThanOne(n: real, c: real, q: real, s: real)
    requires c >= 1.0 && n >= c + 2.0 && n <= LO && q * c == n && q <= s + q * HALF_ULP
    ensures s > 1.0
  {
    assert n * HALF_ULP <= 0.5;
    assert (q - q * HALF_ULP) * c == n - n * HALF_ULP;
    assert 1.0 * c < n - n * HALF_ULP;
    CancelLt(c, 1.0, q - q * HALF_ULP);
  }

  /** Every spaced position is a position of the series. */
  lemma KeptInRange(i: nat, n: nat, cap: nat)
    requires 2 <= cap < n <= TWO_52 && i + 1 < cap
    ensures 0 <= KeptIndex(i, n, cap) <= n - 1
  {
    StepBounds(n, cap);
    AtInRange(i, n, (cap - 1) as real, Step(n, cap));
  }

  lemma AtInRange(i: nat, n: nat, c: real, s: real)
    requires s > 1.0 && c * s <= n as real + 0.5 && 1 <= n <= TWO_52 && (i + 1) as real <= c && i <= TWO_53
    ensures 0 <= At(i, s) <= n - 1
  {
    var p := Room(i as real, c, s, n as real + 0.5);
    AtProduct(i, s, p);
    BelowHalf(p, n);
  }

  lemma BelowHalf(p: real, n: nat)
    requires 0.0 <= p <= n as real - 0.5 && 1 <= n <= TWO_52
    ensures 0 <= Round(p).Floor <= n - 1
  {
    RoundMono(p, n as real - 0.5);
    HalfIsDouble(n);
  }

  lemma HalfIsDouble(n: nat)
    requires 1 <= n <= TWO_52
    ensures Round(n as real - 0.5) == n as real - 0.5
  {
    RoundInteger(2 * n - 1);
    RoundDouble(n as real - 0.5);
    assert 2.0 * (n as real - 0.5) == (2 * n - 1) as real;
  }

  /** Successive spaced positions are distinct and in order. */
  lemma KeptAscends(i: nat, n: nat, cap: nat)
    requires 2 <= cap < n <= TWO_52 && i + 2 < cap
    ensures KeptIndex(i, n, cap) < KeptIndex(i + 1, n, cap)
  {
    StepBounds(n, cap);
    AtAscends(i, n as real, (cap - 1) as real, Step(n, cap));
  }

  lemma AtAscends(i: nat, n: real, c: real, s: real)
    requires s > 1.0 && c * s <= n + 0.5 && n <= LO && (i + 2) as real <= c && i + 1 <= TWO_53
    ensures At(i, s) < At(i + 1, s)
  {
    var p := Room(i as real, c, s, n + 0.5);
    NextBounded(i as real + 1.0, c, n, s, p + s);
    AtProduct(i, s, p);
    AtProduct(i + 1, s, p + s);
    RoundStep(p, s);
  }

  lemma NextBounded(i: real, c: real, n: real, s: real, p: real)
    requires s > 1.0 && c * s <= n + 0.5 && n <= LO && i + 1.0 <= c && p == i * s
    ensures p <= LO
  {
    var next := Room(i, c, s, n + 0.5);
  }

  /** The guard can fail: with cap = 2^28 + 1 and one point more, the position of the last
      spaced point rounds up to the last point, which is then kept twice. */
  lemma LastKeptTwice(n: nat, cap: nat)
    requires cap == 0x1000_0001 && n == cap + 1
    ensures KeptIndex(cap - 2, n, cap) == n - 1
    ensures !LastKeptOnce(n, cap)
  {
    StepIsQuotient(n, cap);
    var s := 1.0 + 1.0 / 134217728.0;
    assert n as real / (cap - 1) as real == s;
    SpacingIsDouble(s);
    assert Step(n, cap) == s;
    var p := 268435457.0 - 1.0 / 134217728.0;
    AtProduct(cap - 2, s, p);
    RoundsToLast(p);
  }

  lemma SpacingIsDouble(s: real)
    requires s == 1.0 + 1.0 / 134217728.0
    ensures Round(s) == s
  {
    RoundInteger(134217729);
    RoundScaled27(s);
  }

  lemma RoundScaled27(x: real)
    requires x >= 0.0
    ensures Round(134217728.0 * x) == 134217728.0 * Round(x)
  {
    RoundScaled9(x);
    RoundScaled9(512.0 * x);
    RoundScaled9(262144.0 * x);
  }

  lemma RoundScaled9(x: real)
    requires x >= 0.0
    ensures Round(512.0 * x) == 512.0 * Round(x)
  {
    RoundDouble(x); RoundDouble(2.0 * x); RoundDouble(4.0 * x); RoundDouble(8.0 * x); RoundDouble(16.0 * x);
    RoundDouble(32.0 * x); RoundDouble(64.0 * x); RoundDouble(128.0 * x); RoundDouble(256.0 * x);
  }

  /** 2^24 units in the last place make one here; 2^-27 is less than half of one. */
  lemma RoundsToLast(p: real)
    requires p == 268435457.0 - 1.0 / 134217728.0
    ensures Round(p) == 268435457.0
  {
    RoundInteger(268435457);
    RoundMono(p, 268435457.0);
    var w := 16777216.0 * p;
    assert w == 4503599644147712.0 - 0.125;
    UpAtUnits(w, 4503599644147712);
    RoundScaled24(p);
  }

  lemma RoundScaled24(x: real)
    requires x >= 0.0
    ensures Round(16777216.0 * x) == 16777216.0 * Round(x)
  {
    RoundScaled9(x);
    RoundScaled9(512.0 * x);
    RoundDouble(262144.0 * x); RoundDouble(524288.0 * x); RoundDouble(1048576.0 * x);
    RoundDouble(2097152.0 * x); RoundDouble(4194304.0 * x); RoundDouble(8388608.0 * x);
  }

  // ------------------------------------------------------------------------
  // Caps of any practical size
  // ------------------------------------------------------------------------

  /** The spacing exceeds one by more than all rounding can take away. */
  lemma SpacingMargin(n: nat, c: nat)
    requires 1 <= c <= 0x200_0000 && n >= c + 2
    ensures 4 * n * c < (n - c) * TWO_53
  {
    var m := n * c;
    Products(n, c, 2 * c);
    assert 4 * n * c == 4 * m;
  }

  lemma Products(n: nat, c: nat, d: nat)
    requires c <= 0x200_0000 && d == 2 * c
    ensures n * c <= n * 0x200_0000
    ensures n < d ==> n * c <= d * 0x200_0000
  {
  }

  /** A spacing s near n / c, its exact value q clear of one by more than rounding. */
  ghost predicate Spaced(n: real, c: real, q: real, s: real) {
    Near(n, c, q, s) && q > 1.0 + 4.0 * n * HALF_ULP
  }

  lemma StepSpaced(n: nat, cap: nat) returns (q: real)
    requires 2 <= cap <= 0x200_0000 && cap < n < TWO_53
    ensures Spaced(n as real, (cap - 1) as real, q, Step(n, cap))
  {
    StepIsQuotient(n, cap);
    q := QuotientSpaced(n, cap - 1);
  }

  lemma QuotientSpaced(n: nat, c: nat) returns (q: real)
    requires 1 <= c <= 0x200_0000 && n >= c + 2
    ensures Spaced(n as real, c as real, q, Div(n as real, c as real))
  {
    var s;
    q, s := ComputedQuotient(n as real, c as real);
    SpacingAbove(n, c, q);
  }

  lemma SpacingAbove(n: nat, c: nat, q: real)
    requires 1 <= c <= 0x200_0000 && n >= c + 2 && q * c as real == n as real
    ensures q > 1.0 + 4.0 * n as real * HALF_ULP
  {
    SpacingMargin(n, c);
    MarginOverC(n, c, q);
  }

  lemma SpacingTimes(n: real, c: real, q: real, s: real)
    requires c >= 1.0 && q >= 0.0 && q * c == n
    requires s <= q + q * HALF_ULP
    ensures c * s <= n + n * HALF_ULP && q <= n
  {
  }

  lemma MarginOverC(n: nat, c: nat, q: real)
    requires c >= 1 && q * c as real == n as real
    requires 4 * n * c < (n - c) * TWO_53
    ensures q > 1.0 + 4.0 * n as real * HALF_ULP
  {
    var m := 1.0 + 4.0 * n as real * HALF_ULP;
    assert (4 * n * c) as real < ((n - c) * TWO_53) as real;
    assert (4 * n * c) as real == (4.0 * n as real) * c as real;
    assert ((n - c) * TWO_53) as real == (n as real - c as real) * HI;
    assert m * c as real == c as real + ((4.0 * n as real) * c as real) * HALF_ULP;
    CancelLt(c as real, m, q);
  }

  /** For caps up to 2^25 the last point is always kept once; the board's own cap is 1000. */
  lemma SmallCapKeepsOnce(n: nat, cap: nat)
    requires cap <= 0x200_0000 && cap < n < TWO_53
    ensures LastKeptOnce(n, cap)
  {
    if cap >= 2 {
      var q := StepSpaced(n, cap);
      AtBelow(cap - 2, n, (cap - 1) as real, q, Step(n, cap));
    }
  }

  lemma AtBelow(i: nat, n: nat, c: real, q: real, s: real)
    requires Spaced(n as real, c, q, s) && i < TWO_53 && (i + 1) as real <= c
    ensures 0 <= At(i, s) < n - 1
  {
    var p := Room(i as real, c, s, n as real + n as real * HALF_ULP);
    AtProduct(i, s, p);
    RoundedBelow(n, p, c, q, s);
  }

  lemma RoundedBelow(n: nat, p: real, c: real, q: real, s: real)
    requires Spaced(n as real, c, q, s) && p >= 0.0 && p + s <= n as real + n as real * HALF_ULP
    ensures 0 <= Round(p).Floor < n - 1
  {
    RoundError(p);
    BelowLast(n as real, p, q, s, Round(p));
  }

  lemma BelowLast(n: real, p: real, q: real, s: real, x: real)
    requires n >= 0.0 && p >= 0.0 && p + s <= n + n * HALF_ULP && q <= s + q * HALF_ULP && 0.0 <= q <= n
    requires q > 1.0 + 4.0 * n * HALF_ULP && s >= 0.0
    requires x <= p + p * HALF_ULP
    ensures x < n - 1.0
  {
  }

  // ------------------------------------------------------------------------
  // The exact positions
  // ------------------------------------------------------------------------

  /** Position i of n spread evenly over cap - 1, in exact arithmetic. */
  function ExactIndex(i: nat, n: nat, cap: nat): (k: nat)
    requires cap >= 2
  {
    i * n / (cap - 1)
  }

  lemma ExactBounds(i: nat, n: nat, cap: nat) returns (k: nat, p: nat)
    requires cap >= 2
    ensures k == ExactIndex(i, n, cap) && p == i * n
    ensures k * (cap - 1) <= p < (k + 1) * (cap - 1)
  {
    k, p := ExactIndex(i, n, cap), i * n;
    Euclid(p, cap - 1);
  }

  lemma Euclid(p: nat, c: nat)
    requires c > 0
    ensures p / c * c <= p < (p / c + 1) * c
  {
  }

  lemma MulMonoInt(c: nat, a: int, b: int)
    requires a <= b
    ensures a * c <= b * c
  {
  }

  lemma CancelInt(c: nat, a: int, b: int)
    requires a * c < b * c
    ensures a < b
  {
  }

  /** In exact arithmetic, for every longer series: in order, distinct, before the last. */
  lemma ExactAscends(i: nat, n: nat, cap: nat)
    requires 2 <= cap < n && i + 1 < cap
    ensures ExactIndex(i, n, cap) < n - 1
    ensures i + 2 < cap ==> ExactIndex(i, n, cap) < ExactIndex(i + 1, n, cap)
    ensures ExactIndex(0, n, cap) == 0
  {
    var k, p := ExactBounds(i, n, cap);
    var k', p' := ExactBounds(i + 1, n, cap);
    BeforeLast(i, n, cap - 1, p);
    CancelInt(cap - 1, k, n - 1);
    NextProduct(i, n, p, p');
    Apart(k, k', cap - 1, n, p);
  }

  lemma NextProduct(i: nat, n: nat, p: nat, p': nat)
    requires p == i * n && p' == (i + 1) * n
    ensures p' == p + n
  {
  }

  lemma Apart(k: nat, k': nat, c: nat, n: nat, p: nat)
    requires k * c <= p && p + n < (k' + 1) * c && c < n
    ensures k < k'
  {
  }

  lemma BeforeLast(i: nat, n: nat, c: nat, p: nat)
    requires 1 <= c < n && i + 1 <= c && p == i * n
    ensures p < (n - 1) * c
  {
    MulMonoInt(n, i, c - 1);
    OneLess(n, c, (c - 1) * n, (n - 1) * c);
  }

  lemma OneLess(n: nat, c: nat, x: nat, y: nat)
    requires 1 <= c < n && x == (c - 1) * n && y == (n - 1) * c
    ensures x < y
  {
  }

  /** Up to 2^51 points the computed position is within one of the exact one. */
  lemma KeptNearExact(i: nat, n: nat, cap: nat)
    requires 2 <= cap <= TWO_53 && n <= TWO_52 / 2 && i + 1 < cap
    ensures ExactIndex(i, n, cap) - 1 <= KeptIndex(i, n, cap) <= ExactIndex(i, n, cap) + 1
  {
    StepIsQuotient(n, cap);
    NearExact(i, n, cap - 1, Step(n, cap));
  }

  lemma NearExact(i: nat, n: nat, c: nat, s: real)
    requires 1 <= c && i < c && i <= TWO_53 && n <= TWO_52 / 2 && s == Div(n as real, c as real) && s >= 0.0
    ensures i * n / c - 1 <= At(i, s) <= i * n / c + 1
  {
    var q, e := QuotientNear(n as real, c as real, s);
    NearShare(i, n, c, q, e, s);
  }

  lemma NearShare(i: nat, n: nat, c: nat, q: real, e: real, s: real)
    requires 1 <= c && i < c && i <= TWO_53 && n <= TWO_52 / 2 && s >= 0.0
    requires q >= 0.0 && q * c as real == n as real && e == q * HALF_ULP && q - e <= s <= q + e
    ensures i * n / c - 1 <= At(i, s) <= i * n / c + 1
  {
    var p, x := ProductNear(i as real, n as real, c as real, q, e, s);
    PositionNear(i, n as real, s, p, x);
    ExactShare(i, n, c, q, x);
  }

  lemma PositionNear(i: nat, n: real, s: real, p: real, x: real)
    requires i <= TWO_53 && n <= 2251799813685248.0 && s >= 0.0 && p == i as real * s
    requires 0.0 <= x <= n && x - n * HALF_ULP <= p <= x + n * HALF_ULP
    ensures x.Floor - 1 <= At(i, s) <= x.Floor + 1
  {
    AtProduct(i, s, p);
    RoundNear(p, x, n);
  }

  lemma QuotientNear(n: real, c: real, s: real) returns (q: real, e: real)
    requires n >= 0.0 && c >= 1.0 && s == Div(n, c)
    ensures q >= 0.0 && q * c == n && e == q * HALF_ULP && q - e <= s <= q + e
  {
    Quotient(n, c);
    DivError(n, c);
    q := n / c;
    e := q * HALF_ULP;
  }

  /** The integer quotient is the exact share's floor. */
  lemma ExactShare(i: nat, n: nat, c: nat, q: real, x: real)
    requires c >= 1 && q * c as real == n as real && x == i as real * q
    ensures x.Floor == i * n / c
  {
    var k := i * n / c;
    Euclid(i * n, c);
    assert x * c as real == (i * n) as real;
    assert (k * c) as real == k as real * c as real;
    assert ((k + 1) * c) as real == (k + 1) as real * c as real;
    CancelLe(c as real, k as real, x);
    CancelLt(c as real, x, (k + 1) as real);
  }

  lemma ProductNear(i: real, n: real, c: real, q: real, e: real, s: real) returns (p: real, x: real)
    requires 0.0 <= i < c && q >= 0.0 && q * c == n && e == q * HALF_ULP && q - e <= s <= q + e
    ensures p == i * s && x == i * q && 0.0 <= x <= n
    ensures x - n * HALF_ULP <= p <= x + n * HALF_ULP
  {
    p, x := i * s, i * q;
    MulMono(q, 0.0, i);
    MulMono(q, i, c);
    MulMono(i, s, q + e);
    MulMono(i, q - e, s);
    assert i * e == x * HALF_ULP;
  }

  lemma RoundNear(p: real, x: real, n: real)
    requires p >= 0.0 && 0.0 <= x <= n <= 2251799813685248.0 && x - n * HALF_ULP <= p <= x + n * HALF_ULP
    ensures x.Floor - 1 <= Round(p).Floor <= x.Floor + 1
  {
    RoundError(p);
    assert x - 1.0 < Round(p) < x + 1.0;
  }
}
