/** The seed-to-belts rule: a hash absorbs domain and seed octet by octet, then a stream
    is advanced, mixed and reduced once per belt. The loops are stated for any such rule;
    FNV-1a with splitmix64 is one of them. */
module Belts {
  import opened Numbers

  /** The steps of a rule over state words W and input symbols S. */
  datatype Rule<!W, !S> = Rule(
    start: W,
    absorb: (W, S) -> W,
    advance: W -> W,
    mix: W -> W,
    reduce: W -> int)

  function Absorb<W, S>(rule: Rule<W, S>, h: W, t: seq<S>): (r: W)
    decreases t
  {
    if |t| == 0 then h else Absorb(rule, rule.absorb(h, t[0]), t[1..])
  }

  function Advance<W, S>(rule: Rule<W, S>, h: W, j: nat): (r: W) {
    if j == 0 then h else rule.advance(Advance(rule, h, j - 1))
  }

  /** Raw output j, counted from 1. */
  function Output<W, S>(rule: Rule<W, S>, h: W, j: nat): (r: W) {
    rule.mix(Advance(rule, h, j))
  }

  function SeedState<W, S>(rule: Rule<W, S>, seed: seq<S>, domain: seq<S>): (h: W) {
    Absorb(rule, rule.start, domain + seed)
  }

  function SeedToBelts<W, S>(rule: Rule<W, S>, seed: seq<S>, domain: seq<S>): (belts: seq<int>)
    ensures |belts| == 5
  {
    seq(5, j requires 0 <= j < 5 => rule.reduce(Output(rule, SeedState(rule, seed, domain), j + 1)))
  }

  /** The rule as it is run: one state word updated in place, five slots filled. */
  method ComputeBelts<W, S>(rule: Rule<W, S>, seed: seq<S>, domain: seq<S>) returns (out: array<int>)
    ensures out.Length == 5 && out[..] == SeedToBelts(rule, seed, domain)
  {
    var text := domain + seed;
    ghost var root := Absorb(rule, rule.start, text);
    var h := rule.start;
    var i := 0;
    while i < |text|
      invariant 0 <= i <= |text|
      invariant Absorb(rule, h, text[i..]) == root
    {
      assert text[i..][1..] == text[i + 1..];
      h := rule.absorb(h, text[i]);
      i := i + 1;
    }
    out := new int[5];
    var j := 0;
    while j < 5
      invariant 0 <= j <= 5
      invariant h == Advance(rule, root, j)
      invariant Filled(rule, root, out[..], j)
    {
      h := rule.advance(h);
      out[j] := rule.reduce(rule.mix(h));
      j := j + 1;
    }
    AllFilled(rule, seed, domain, out[..]);
  }

  /** The first j slots hold the first j outputs, reduced. */
  ghost predicate Filled<W, S>(rule: Rule<W, S>, h: W, slots: seq<int>, j: nat) {
    j <= |slots| && forall k :: 0 <= k < j ==> slots[k] == rule.reduce(Output(rule, h, k + 1))
  }

  lemma AllFilled<W, S>(rule: Rule<W, S>, seed: seq<S>, domain: seq<S>, slots: seq<int>)
    requires |slots| == 5 && Filled(rule, Absorb(rule, rule.start, domain + seed), slots, 5)
    ensures slots == SeedToBelts(rule, seed, domain)
  {
    assert SeedState(rule, seed, domain) == Absorb(rule, rule.start, domain + seed);
  }

  // ------------------------------------------------------------------------
  // Nothing is lost before the reduction
  // ------------------------------------------------------------------------

  /** Every step is injective: in the state, and in the octet absorbed. */
  ghost predicate Lossless<W(!new), S(!new)>(rule: Rule<W, S>) {
    && (forall g, h, c :: rule.absorb(g, c) == rule.absorb(h, c) ==> g == h)
    && (forall h, b, c :: rule.absorb(h, b) == rule.absorb(h, c) ==> b == c)
    && (forall g, h :: rule.advance(g) == rule.advance(h) ==> g == h)
    && (forall g, h :: rule.mix(g) == rule.mix(h) ==> g == h)
  }

  lemma {:induction false} AbsorbConcat<W, S>(rule: Rule<W, S>, h: W, a: seq<S>, b: seq<S>)
    ensures Absorb(rule, h, a + b) == Absorb(rule, Absorb(rule, h, a), b)
    decreases a
  {
    if |a| == 0 {
      assert a + b == b;
    } else {
      assert (a + b)[1..] == a[1..] + b;
      AbsorbConcat(rule, rule.absorb(h, a[0]), a[1..], b);
    }
  }

  lemma {:induction false} StatesStayApart<W(!new), S(!new)>(rule: Rule<W, S>, g: W, h: W, t: seq<S>)
    requires Lossless(rule) && g != h
    ensures Absorb(rule, g, t) != Absorb(rule, h, t)
    decreases t
  {
    if |t| > 0 { StatesStayApart(rule, rule.absorb(g, t[0]), rule.absorb(h, t[0]), t[1..]); }
  }

  lemma {:induction false} OutputsStayApart<W(!new), S(!new)>(rule: Rule<W, S>, g: W, h: W, j: nat)
    requires Lossless(rule) && g != h
    ensures Advance(rule, g, j) != Advance(rule, h, j)
    ensures Output(rule, g, j) != Output(rule, h, j)
  {
    if j > 0 { OutputsStayApart(rule, g, h, j - 1); }
  }

  /** Two seeds of equal length that differ in one octet give streams that differ at
      every position. */
  lemma OneOctetSeparates<W(!new), S(!new)>(rule: Rule<W, S>, domain: seq<S>, pre: seq<S>, b: S, c: S,
                                            post: seq<S>, j: nat)
    requires Lossless(rule) && b != c
    ensures Output(rule, SeedState(rule, pre + [b] + post, domain), j)
         != Output(rule, SeedState(rule, pre + [c] + post, domain), j)
  {
    var h := Absorb(rule, rule.start, domain + pre);
    assert domain + (pre + [b] + post) == (domain + pre) + ([b] + post);
    assert domain + (pre + [c] + post) == (domain + pre) + ([c] + post);
    AbsorbConcat(rule, rule.start, domain + pre, [b] + post);
    AbsorbConcat(rule, rule.start, domain + pre, [c] + post);
    AbsorbConcat(rule, h, [b], post);
    AbsorbConcat(rule, h, [c], post);
    assert [b][1..] == [] && [c][1..] == [];
    StatesStayApart(rule, rule.absorb(h, b), rule.absorb(h, c), post);
    OutputsStayApart(rule, Absorb(rule, rule.absorb(h, b), post), Absorb(rule, rule.absorb(h, c), post), j);
  }

  // ------------------------------------------------------------------------
  // FNV-1a and splitmix64
  // ------------------------------------------------------------------------

  type word = bv64

  /** The field's order, 2^64 - 2^32 + 1. */
  const PRIME: nat := 0xFFFF_FFFF_0000_0001

  function FnvStep(h: word, b: word): (r: word) {
    (h ^ b) * 0x100000001b3
  }

  function Gamma(h: word): (r: word) { h + 0x9e3779b97f4a7c15 }

  // The finalizer's steps: fold the high bits in, multiply by an odd constant.

  function Fold30(z: word): (r: word) { z ^ (z >> 30) }
  function Fold27(z: word): (r: word) { z ^ (z >> 27) }
  function Fold31(z: word): (r: word) { z ^ (z >> 31) }
  function Times1(z: word): (r: word) { z * 0xbf58476d1ce4e5b9 }
  function Times2(z: word): (r: word) { z * 0x94d049bb133111eb }

  function Mix(z: word): (r: word) {
    Fold31(Times2(Fold27(Times1(Fold30(z)))))
  }

  /** The field element of a raw output. */
  function Belt(raw: int): (b: nat)
    ensures b < PRIME
  {
    raw % PRIME
  }

  /** The value of a word. */
  function WordValue(w: word): (v: int)
    ensures 0 <= v < TWO_64
  {
    w as int
  }

  function BeltOf(raw: word): (b: int) {
    Belt(WordValue(raw))
  }

  function FnvAbsorb(h: word, c: bv8): (r: word) {
    FnvStep(h, c as bv64)
  }

  const FNV_SPLITMIX: Rule<word, bv8> := Rule(
    0xcbf29ce484222325,
    (h, c) => FnvAbsorb(h, c),
    h => Gamma(h),
    h => Mix(h),
    h => BeltOf(h))

  // Each step is undone by multiplying with the inverse of its odd constant modulo
  // 2^64, or by folding the shifted bits back in. An assertion spells the step out so
  // that the two multiplications meet and cancel.

  function FnvUnstep(r: word, b: word): (h: word) {
    (r * 0xce965057aff6957b) ^ b
  }

  function FnvOctet(r: word, h: word): (b: word) {
    (r * 0xce965057aff6957b) ^ h
  }

  function Unfold30(z: word): (r: word) { z ^ (z >> 30) ^ (z >> 60) }
  function Unfold27(z: word): (r: word) { z ^ (z >> 27) ^ (z >> 54) }
  function Unfold31(z: word): (r: word) { z ^ (z >> 31) ^ (z >> 62) }
  function Untimes1(z: word): (r: word) { z * 0x96de1b173f119089 }
  function Untimes2(z: word): (r: word) { z * 0x319642b2d24d8ec3 }

  function Unmix(z: word): (r: word) {
    Unfold30(Untimes1(Unfold27(Untimes2(Unfold31(z)))))
  }

  function Ungamma(r: word): (h: word) { r - 0x9e3779b97f4a7c15 }

  /** An FNV step is a bijection of the state, for every octet. */
  lemma FnvBijective(h: word, b: word)
    ensures FnvUnstep(FnvStep(h, b), b) == h
    ensures FnvStep(FnvUnstep(h, b), b) == h
  {
    assert FnvUnstep((h ^ b) * 0x100000001b3, b) == h;
    assert FnvStep((h * 0xce965057aff6957b) ^ b, b) == h;
  }

  lemma FnvOctetBack(h: word, b: word)
    ensures FnvOctet(FnvStep(h, b), h) == b
  {
    assert FnvOctet((h ^ b) * 0x100000001b3, h) == b;
  }

  lemma Fold30Bijective(z: word)
    ensures Unfold30(Fold30(z)) == z && Fold30(Unfold30(z)) == z
  {
    assert Unfold30(z ^ (z >> 30)) == z;
    assert Fold30(z ^ (z >> 30) ^ (z >> 60)) == z;
  }

  lemma Fold27Bijective(z: word)
    ensures Unfold27(Fold27(z)) == z && Fold27(Unfold27(z)) == z
  {
    assert Unfold27(z ^ (z >> 27)) == z;
    assert Fold27(z ^ (z >> 27) ^ (z >> 54)) == z;
  }

  lemma Fold31Bijective(z: word)
    ensures Unfold31(Fold31(z)) == z && Fold31(Unfold31(z)) == z
  {
    assert Unfold31(z ^ (z >> 31)) == z;
    assert Fold31(z ^ (z >> 31) ^ (z >> 62)) == z;
  }

  lemma Times1Bijective(z: word)
    ensures Untimes1(Times1(z)) == z && Times1(Untimes1(z)) == z
  {
    assert Untimes1(z * 0xbf58476d1ce4e5b9) == z;
    assert Times1(z * 0x96de1b173f119089) == z;
  }

  lemma Times2Bijective(z: word)
    ensures Untimes2(Times2(z)) == z && Times2(Untimes2(z)) == z
  {
    assert Untimes2(z * 0x94d049bb133111eb) == z;
    assert Times2(z * 0x319642b2d24d8ec3) == z;
  }

  lemma GammaUndone(h: word)
    ensures Ungamma(Gamma(h)) == h
  {
  }

  lemma FnvInjective(g: word, h: word, b: word, c: word)
    ensures FnvStep(g, b) == FnvStep(h, b) ==> g == h
    ensures FnvStep(h, b) == FnvStep(h, c) ==> b == c
  {
    FnvBijective(g, b); FnvBijective(h, b);
    FnvOctetBack(h, b); FnvOctetBack(h, c);
  }

  lemma Unmixed(z: word)
    ensures Unmix(Mix(z)) == z
  {
    Fold30Bijective(z);
    Times1Bijective(Fold30(z));
    Fold27Bijective(Times1(Fold30(z)));
    Times2Bijective(Fold27(Times1(Fold30(z))));
    Fold31Bijective(Times2(Fold27(Times1(Fold30(z)))));
  }

  lemma Remixed(z: word)
    ensures Mix(Unmix(z)) == z
  {
    Fold31Bijective(z);
    Times2Bijective(Unfold31(z));
    Fold27Bijective(Untimes2(Unfold31(z)));
    Times1Bijective(Unfold27(Untimes2(Unfold31(z))));
    Fold30Bijective(Untimes1(Unfold27(Untimes2(Unfold31(z)))));
  }

  /** The finalizer is a bijection on 64-bit words: its inverse undoes it and is undone by
      it. */
  lemma MixBijective(z: word)
    ensures Unmix(Mix(z)) == z && Mix(Unmix(z)) == z
  {
    Unmixed(z); Remixed(z);
  }

  lemma ByteInjective(b: bv8, c: bv8)
    ensures b as bv64 == c as bv64 ==> b == c
  {
  }

  /** The concrete rule loses nothing before it reduces. */
  lemma FnvSplitmixLossless()
    ensures Lossless(FNV_SPLITMIX)
  {
    forall g, h, c ensures FNV_SPLITMIX.absorb(g, c) == FNV_SPLITMIX.absorb(h, c) ==> g == h {
      FnvInjective(g, h, c as bv64, c as bv64);
    }
    forall h, b, c ensures FNV_SPLITMIX.absorb(h, b) == FNV_SPLITMIX.absorb(h, c) ==> b == c {
      FnvInjective(h, h, b as bv64, c as bv64);
      ByteInjective(b, c);
    }
    forall g, h ensures FNV_SPLITMIX.advance(g) == FNV_SPLITMIX.advance(h) ==> g == h {
      GammaUndone(g); GammaUndone(h);
    }
    forall g, h ensures FNV_SPLITMIX.mix(g) == FNV_SPLITMIX.mix(h) ==> g == h {
      Unmixed(g); Unmixed(h);
    }
  }

  lemma GammaNeverReturns(x: word)
    ensures Gamma(x) != x
    ensures Gamma(Gamma(x)) != x
    ensures Gamma(Gamma(Gamma(x))) != x
    ensures Gamma(Gamma(Gamma(Gamma(x)))) != x
  {
  }

  lemma AdvancesDistinct(h: word, i: nat, j: nat)
    requires 1 <= i < j <= 5
    ensures Advance(FNV_SPLITMIX, h, i) != Advance(FNV_SPLITMIX, h, j)
  {
    var x := Advance(FNV_SPLITMIX, h, i);
    GammaNeverReturns(x);
    assert Advance(FNV_SPLITMIX, h, i + 1) == Gamma(x);
    if j > i + 1 { assert Advance(FNV_SPLITMIX, h, i + 2) == Gamma(Gamma(x)); }
    if j > i + 2 { assert Advance(FNV_SPLITMIX, h, i + 3) == Gamma(Gamma(Gamma(x))); }
  }

  lemma MixKeepsApart<W(!new), S(!new)>(rule: Rule<W, S>, h: W, i: nat, j: nat)
    requires Lossless(rule) && Advance(rule, h, i) != Advance(rule, h, j)
    ensures Output(rule, h, i) != Output(rule, h, j)
  {
  }

  /** The five raw outputs of one call are pairwise distinct. */
  lemma OutputsDistinct(h: word, i: nat, j: nat)
    requires 1 <= i < j <= 5
    ensures Output(FNV_SPLITMIX, h, i) != Output(FNV_SPLITMIX, h, j)
  {
    FnvSplitmixLossless();
    AdvancesDistinct(h, i, j);
    MixKeepsApart(FNV_SPLITMIX, h, i, j);
  }

  /** Two raw outputs reduce to one belt exactly when they are equal or PRIME apart. */
  lemma BeltCollision(x: nat, y: nat)
    requires x < TWO_64 && y < TWO_64
    ensures Belt(x) == Belt(y) <==> x == y || x == y + 18446744069414584321 || y == x + 18446744069414584321
  {
  }

  predicate PrimeApart(x: int, y: int) {
    x == y + PRIME || y == x + PRIME
  }

  /** A rule that reduces modulo PRIME the value of a 64-bit word. */
  ghost predicate Reduces<W(!new), S>(rule: Rule<W, S>, value: W -> int) {
    && (forall w :: 0 <= value(w) < TWO_64 && rule.reduce(w) == Belt(value(w)))
    && (forall v, w :: value(v) == value(w) ==> v == w)
  }

  /** Two equal-length seeds that differ in one octet share a belt exactly when the raw
      outputs at its place, which differ, are PRIME apart. */
  lemma OneOctetCollides<W(!new), S(!new)>(rule: Rule<W, S>, value: W -> int, domain: seq<S>, pre: seq<S>, b: S, c: S,
                                           post: seq<S>, j: nat)
    requires Lossless(rule) && Reduces(rule, value) && b != c && j < 5
    ensures var x := Output(rule, SeedState(rule, pre + [b] + post, domain), j + 1);
            var y := Output(rule, SeedState(rule, pre + [c] + post, domain), j + 1);
            SeedToBelts(rule, pre + [b] + post, domain)[j] == SeedToBelts(rule, pre + [c] + post, domain)[j]
            <==> PrimeApart(value(x), value(y))
  {
    OneOctetSeparates(rule, domain, pre, b, c, post, j + 1);
    var x := Output(rule, SeedState(rule, pre + [b] + post, domain), j + 1);
    var y := Output(rule, SeedState(rule, pre + [c] + post, domain), j + 1);
    BeltCollision(value(x), value(y));
  }

  lemma SameWord(x: word, y: word)
    ensures WordValue(x) == WordValue(y) ==> x == y
  {
    assert x == (x as int) as word && y == (y as int) as word;
  }

  /** The rule in use is one of them. */
  lemma FnvSplitmixReduces()
    ensures Reduces(FNV_SPLITMIX, w => WordValue(w))
  {
    forall v: word, w: word ensures WordValue(v) == WordValue(w) ==> v == w {
      SameWord(v, w);
    }
    forall w: word ensures 0 <= WordValue(w) < TWO_64 && FNV_SPLITMIX.reduce(w) == Belt(WordValue(w)) {
      ReducesWord(w);
    }
  }

  lemma ReducesWord(w: word)
    ensures 0 <= WordValue(w) < TWO_64 && FNV_SPLITMIX.reduce(w) == Belt(WordValue(w))
  {
  }

  /** For the rule in use: two seeds that differ in one octet share belt j exactly when
      their raw outputs at j are PRIME apart. */
  lemma FnvSplitmixCollides(domain: seq<bv8>, pre: seq<bv8>, b: bv8, c: bv8, post: seq<bv8>, j: nat)
    requires b != c && j < 5
    ensures var x := Output(FNV_SPLITMIX, SeedState(FNV_SPLITMIX, pre + [b] + post, domain), j + 1);
            var y := Output(FNV_SPLITMIX, SeedState(FNV_SPLITMIX, pre + [c] + post, domain), j + 1);
            SeedToBelts(FNV_SPLITMIX, pre + [b] + post, domain)[j]
              == SeedToBelts(FNV_SPLITMIX, pre + [c] + post, domain)[j]
            <==> PrimeApart(WordValue(x), WordValue(y))
  {
    FnvSplitmixLossless();
    FnvSplitmixReduces();
    OneOctetCollides(FNV_SPLITMIX, w => WordValue(w), domain, pre, b, c, post, j);
  }
}
