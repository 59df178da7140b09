/** Binary64 arithmetic as the board uses it: every operation is the exact real
    result rounded once, to the nearest 53-bit significand with ties to even
    (IEEE 754-2019, section 4.3.1). Every value the modelled code computes lies in
    {0} or in the normal range, so overflow and subnormals never arise. */
module Float64 {
  import opened Reals

  const TWO_52: nat := 0x10_0000_0000_0000
  const TWO_53: nat := 0x20_0000_0000_0000

  /** Half a unit in the last place of a value in [1, 2): 2^-53. */
  const HALF_ULP: real := 1.0 / 9007199254740992.0

  /** Where 53 significant bits end at the units: [2^52, 2^53). */
  const LO: real := 4503599627370496.0
  const HI: real := 9007199254740992.0

  /** Doublings or halvings still to go before x reaches [LO, HI); a bound on them. */
  function Distance(x: real): (n: nat)
    requires x > 0.0
  {
    if x >= HI then x.Floor else if x < LO then (DivMono(x, 0.0, LO); (LO / x).Floor) else 0
  }

  lemma DistanceShrinks(x: real)
    requires x > 0.0
    ensures x >= HI ==> Distance(x / 2.0) < Distance(x)
    ensures x < LO ==> Distance(2.0 * x) < Distance(x)
  {
  }

  /** Nearest integer, ties to the even one. */
  function RoundHalfEven(y: real): (n: int)
    requires y >= 0.0
    ensures n >= 0
    ensures y - 0.5 <= n as real <= y + 0.5
  {
    var f := y.Floor;
    var d := y - f as real;
    if d < 0.5 then f
    else if d > 0.5 then f + 1
    else if f % 2 == 0 then f else f + 1
  }

  lemma RoundHalfEvenMono(x: real, y: real)
    requires 0.0 <= x <= y
    ensures RoundHalfEven(x) <= RoundHalfEven(y)
  {
  }

  /** The rounding to 53 significant bits: scale by powers of two until the last
      significant bit weighs one, round to an integer, scale back. */
  function Round(x: real): (r: real)
    requires x >= 0.0
    ensures r >= 0.0
    ensures x > 0.0 ==> r > 0.0
    decreases if x == 0.0 then 0 else Distance(x)
  {
    if x == 0.0 then 0.0
    else if x >= HI then (DistanceShrinks(x); 2.0 * Round(x / 2.0))
    else if x < LO then (DistanceShrinks(x); Round(2.0 * x) / 2.0)
    else RoundHalfEven(x) as real
  }

  /** The unit in the last place of the binade of x. */
  function Ulp(x: real): (u: real)
    requires x > 0.0
    ensures u > 0.0
    decreases Distance(x)
  {
    if x >= HI then (DistanceShrinks(x); 2.0 * Ulp(x / 2.0))
    else if x < LO then (DistanceShrinks(x); Ulp(2.0 * x) / 2.0)
    else 1.0
  }

  /** x is a binary64 value. */
  predicate IsDouble(x: real)
    requires x >= 0.0
  {
    Round(x) == x
  }

  /** Scaling by two commutes with rounding. */
  lemma RoundDouble(x: real)
    requires x >= 0.0
    ensures Round(2.0 * x) == 2.0 * Round(x)
  {
  }

  /** A rounding is itself a binary64 value. */
  lemma {:induction false} RoundIsDouble(x: real)
    requires x >= 0.0
    ensures IsDouble(Round(x))
    decreases if x == 0.0 then 0 else Distance(x)
  {
    if x >= HI {
      DistanceShrinks(x);
      RoundIsDouble(x / 2.0);
      RoundDouble(Round(x / 2.0));
    } else if 0.0 < x < LO {
      DistanceShrinks(x);
      RoundIsDouble(2.0 * x);
      RoundDouble(Round(2.0 * x) / 2.0);
    } else if x > 0.0 {
      RoundInteger(RoundHalfEven(x));
    }
  }

  /** Integers up to 2^53 are representable. */
  lemma {:induction false} RoundInteger(m: nat)
    requires m <= TWO_53
    ensures IsDouble(m as real)
    decreases TWO_53 - m
  {
    if m == TWO_53 {
    } else if 0 < m < TWO_52 {
      RoundInteger(2 * m);
    }
  }

  lemma {:induction false} RoundAbove(x: real)
    requires x >= LO
    ensures Round(x) >= LO
    ensures x >= HI ==> Round(x) >= HI
    decreases Distance(x)
  {
    if x >= HI {
      DistanceShrinks(x);
      RoundAbove(x / 2.0);
    }
  }

  lemma RoundMonoAtUnits(x: real, y: real)
    requires LO <= x < HI && x <= y
    ensures Round(x) <= Round(y)
  {
    if y >= HI {
      RoundAbove(y);
      RoundAtUnits(x);
    } else {
      RoundAtUnits(x); RoundAtUnits(y);
      RoundHalfEvenMono(x, y);
    }
  }

  lemma RoundAtUnits(x: real)
    requires LO <= x < HI
    ensures Round(x) == RoundHalfEven(x) as real
    ensures LO <= Round(x) <= HI
  {
  }

  lemma TieHalfEven(n: nat, y: real)
    requires y == n as real + 0.5
    ensures RoundHalfEven(y) == if n % 2 == 0 then n else n + 1
  {
    assert y.Floor == n;
  }

  /** A value midway between two neighbours goes to the even one. */
  lemma TiesToEven(n: nat, y: real)
    requires TWO_52 <= n < TWO_53 && y == n as real + 0.5
    ensures Round(y) == (if n % 2 == 0 then n else n + 1) as real
  {
    RoundAtUnits(y);
    TieHalfEven(n, y);
  }

  lemma {:induction false} RoundMono(x: real, y: real)
    requires 0.0 <= x <= y
    ensures Round(x) <= Round(y)
    decreases if x == 0.0 then 0 else Distance(x), if y == 0.0 then 0 else Distance(y)
  {
    if 0.0 < x < LO {
      DistanceShrinks(x);
      RoundMono(2.0 * x, 2.0 * y);
      RoundDouble(x); RoundDouble(y);
    } else if x >= HI {
      DistanceShrinks(x);
      RoundMono(x / 2.0, y / 2.0);
    } else if x > 0.0 {
      RoundMonoAtUnits(x, y);
    }
  }

  /** Rounding moves a value by at most one part in 2^53. */
  lemma {:induction false} RoundError(x: real)
    requires x >= 0.0
    ensures x - x * HALF_ULP <= Round(x) <= x + x * HALF_ULP
    decreases if x == 0.0 then 0 else Distance(x)
  {
    if x >= HI {
      DistanceShrinks(x);
      RoundError(x / 2.0);
    } else if 0.0 < x < LO {
      DistanceShrinks(x);
      RoundError(2.0 * x);
    }
  }

  /** Rounding moves a value by at most half a unit in its last place. */
  lemma {:induction false} HalfUlpError(x: real)
    requires x > 0.0
    ensures x - Ulp(x) / 2.0 <= Round(x) <= x + Ulp(x) / 2.0
    decreases Distance(x)
  {
    if x >= HI {
      DistanceShrinks(x);
      HalfUlpError(x / 2.0);
    } else if x < LO {
      DistanceShrinks(x);
      HalfUlpError(2.0 * x);
    }
  }

  /** A value less than half a unit in the last place below an integer rounds up to it. */
  lemma {:induction false} RoundUpTo(w: real, z: nat)
    requires 0.0 < w < z as real <= HI && z as real - w < Ulp(w) / 2.0
    ensures Round(w) >= z as real
    decreases Distance(w)
  {
    if w < LO {
      BelowUnits(w, z);
      DistanceShrinks(w);
      RoundUpTo(2.0 * w, 2 * z);
      RoundDouble(w);
    } else {
      UpAtUnits(w, z);
    }
  }

  lemma BelowUnits(w: real, z: nat)
    requires 0.0 < w < LO && z as real - w < Ulp(w) / 2.0
    ensures z <= TWO_52 && Ulp(w) == Ulp(2.0 * w) / 2.0
  {
    UlpMono(w, LO);
    assert Ulp(LO) == 1.0;
  }

  lemma UpAtUnits(w: real, z: nat)
    requires LO <= w < HI && z as real - w < Ulp(w) / 2.0
    ensures Round(w) >= z as real
  {
    UlpAtUnits(w);
    RoundAtUnits(w);
    HalfEvenUp(w, z);
  }

  lemma UlpAtUnits(w: real)
    requires LO <= w < HI
    ensures Ulp(w) == 1.0
  {
  }

  lemma HalfEvenUp(w: real, z: nat)
    requires w >= 0.0 && z as real - w < 0.5
    ensures RoundHalfEven(w) >= z
  {
    assert RoundHalfEven(w) as real > z as real - 1.0;
  }

  /** A step of more than one always reaches the next integer, however both ends are
      rounded. */
  lemma RoundStep(x: real, s: real)
    requires x >= 0.0 && s > 1.0 && x + s <= LO
    ensures Round(x).Floor < Round(x + s).Floor
  {
    var m := Round(x).Floor;
    RoundMono(x, LO);
    RoundInteger(TWO_52);
    RoundInteger(m);
    RoundInteger(m + 1);
    if m as real + 1.0 <= x + s {
      RoundMono((m + 1) as real, x + s);
    } else {
      RoundMono(x, m as real);
      HalfUlpError(x);
      UlpMono(x, x + s);
      RoundUpTo(x + s, m + 1);
    }
  }

  lemma AbsorbAtUnits(n: nat, b: real)
    requires TWO_52 <= n < TWO_53 && 0.0 <= b < 0.5
    ensures Round(n as real + b) == n as real
  {
    assert (n as real + b).Floor == n;
  }

  /** What falls short of half a unit in the last place of a double is lost. */
  lemma {:induction false} Absorb(y: real, b: real)
    requires y > 0.0 && IsDouble(y) && 0.0 <= b < Ulp(y) / 2.0
    ensures Round(y + b) == y
    decreases Distance(y)
  {
    if y >= HI {
      DistanceShrinks(y);
      Absorb(y / 2.0, b / 2.0);
    } else if y < LO {
      DistanceShrinks(y);
      RoundDouble(y);
      Absorb(2.0 * y, 2.0 * b);
      RoundDouble(y + b);
    } else {
      assert Ulp(y) == 1.0;
      AbsorbAtUnits(RoundHalfEven(y), b);
    }
  }

  lemma {:induction false} UlpMono(x: real, y: real)
    requires 0.0 < x <= y
    ensures Ulp(x) <= Ulp(y)
    decreases Distance(x), Distance(y)
  {
    if x < LO {
      DistanceShrinks(x);
      UlpMono(2.0 * x, 2.0 * y);
    } else if y >= HI {
      DistanceShrinks(y);
      if x >= HI {
        DistanceShrinks(x);
        UlpMono(x / 2.0, y / 2.0);
      } else {
        UlpMono(LO, y / 2.0);
      }
    }
  }

  /** From 2^61 on a unit in the last place is at least 512. */
  lemma UlpAtByteStep(y: real)
    requires y >= 256.0 * HI
    ensures Ulp(y) >= 512.0
  {
    assert Ulp(2.0 * HI) == 4.0;
    assert Ulp(8.0 * HI) == 16.0;
    assert Ulp(32.0 * HI) == 64.0;
    assert Ulp(128.0 * HI) == 256.0;
    UlpMono(256.0 * HI, y);
  }

  lemma RoundPositive(n: nat)
    requires n >= 1
    ensures Round(n as real) > 0.0
  {
  }

  /** Nearest integer, halves away from zero: the library's `round`, exact in binary64. */
  function RoundAway(x: real): (n: nat)
    requires x >= 0.0
    ensures x - 0.5 < n as real <= x + 0.5
  {
    (x + 0.5).Floor
  }

  lemma RoundAwayMono(x: real, y: real)
    requires 0.0 <= x <= y
    ensures RoundAway(x) <= RoundAway(y)
  {
  }

  function Add(x: real, y: real): (r: real)
    requires x >= 0.0 && y >= 0.0
    ensures r >= 0.0
    ensures y > 0.0 ==> r > 0.0
  {
    Round(x + y)
  }

  function Mul(x: real, y: real): (r: real)
    requires x >= 0.0 && y >= 0.0
  {
    Round(x * y)
  }

  function Div(x: real, y: real): (r: real)
    requires x >= 0.0 && y > 0.0
  {
    DivMono(y, 0.0, x);
    Round(x / y)
  }

  lemma DivError(n: real, d: real)
    requires n >= 0.0 && d > 0.0
    ensures n / d >= 0.0
    ensures n / d - n / d * HALF_ULP <= Div(n, d) <= n / d + n / d * HALF_ULP
  {
    DivMono(d, 0.0, n);
    RoundError(n / d);
  }

  /** A larger divisor never gives a larger computed quotient. */
  lemma DivAntitoneRounded(n: real, c: real, d: real)
    requires n >= 0.0 && 0.0 < c <= d
    ensures Div(n, d) <= Div(n, c)
  {
    DivMono(d, 0.0, n);
    DivAntitone(n, c, d);
    RoundMono(n / d, n / c);
  }
}
