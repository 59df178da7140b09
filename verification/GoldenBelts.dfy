/** The known value that fixes the seed-to-belts rule: constants, order and all. */
module GoldenBelts {
  import opened Belts

  /** `states` are the states of absorbing `text` octet by octet. */
  ghost predicate Chained(states: seq<word>, text: seq<bv8>) {
    |states| == |text| + 1
    && forall i :: 0 <= i < |text| ==> FnvAbsorb(states[i], text[i]) == states[i + 1]
  }

  lemma {:induction false} AbsorbChain(states: seq<word>, text: seq<bv8>)
    requires Chained(states, text)
    ensures Absorb(FNV_SPLITMIX, states[0], text) == states[|text|]
    decreases |text|
  {
    if |text| > 0 {
      assert FnvAbsorb(states[0], text[0]) == states[1];
      AbsorbChain(states[1..], text[1..]);
    }
  }

  // The texts absorbed, in pieces.

  function Nonce(): (t: seq<bv8>) { [0x6e, 0x6f, 0x6e, 0x63, 0x65] }
  function Nock(): (t: seq<bv8>) { [0x6e, 0x6f, 0x63, 0x6b] }
  function Mark(): (t: seq<bv8>) { [0x6d, 0x61, 0x72, 0x6b, 0x2d] }
  function M0(): (t: seq<bv8>) { [0x6d, 0x30, 0x2d] }
  function Test(): (t: seq<bv8>) { [0x74, 0x65, 0x73, 0x74, 0x2d] }
  function One(): (t: seq<bv8>) { [0x31] }

  /** "nockmark-m0-test-1" */
  function GoldenSeed(): (t: seq<bv8>) {
    Nock() + Mark() + M0() + Test() + One()
  }

  lemma NonceState()
    ensures Absorb(FNV_SPLITMIX, 0xcbf29ce484222325, Nonce()) == 0x73a94c71d60dc0d8
  {
    var states: seq<word> := [0xcbf29ce484222325, 0xaf63e34c8601f871, 0x08b35907b5589afa, 0x215adc19258ea97c,
                              0x3c0d1dbad1695fad, 0x73a94c71d60dc0d8];
    AbsorbChain(states, Nonce());
  }

  lemma NockState()
    ensures Absorb(FNV_SPLITMIX, 0x73a94c71d60dc0d8, Nock()) == 0x5aee34f1f8d76695
  {
    var states: seq<word> := [0x73a94c71d60dc0d8, 0x966d9b6eb95e7542, 0xfab44a24fb811b77, 0x817510d75c6102fc,
                              0x5aee34f1f8d76695];
    AbsorbChain(states, Nock());
  }

  lemma MarkState()
    ensures Absorb(FNV_SPLITMIX, 0x5aee34f1f8d76695, Mark()) == 0xbee9fcf3f3bac4a7
  {
    var states: seq<word> := [0x5aee34f1f8d76695, 0x5a2aef29d603f768, 0x3aeb6d16a8bcc44b, 0xdace9680b8c16cdb,
                              0x8e766cb9f0abaf10, 0xbee9fcf3f3bac4a7];
    AbsorbChain(states, Mark());
  }

  lemma M0State()
    ensures Absorb(FNV_SPLITMIX, 0xbee9fcf3f3bac4a7, M0()) == 0xb479e661d6bd7885
  {
    var states: seq<word> := [0xbee9fcf3f3bac4a7, 0x225d9c87265c633e, 0xc17407a62efc50ca, 0xb479e661d6bd7885];
    AbsorbChain(states, M0());
  }

  lemma TestState()
    ensures Absorb(FNV_SPLITMIX, 0xb479e661d6bd7885, Test()) == 0x16538508e60b8178
  {
    var states: seq<word> := [0xb479e661d6bd7885, 0x689b693fe3f48183, 0xb495bd905878b9d2, 0x532abd4655236c93,
                              0x750c8582ab320c85, 0x16538508e60b8178];
    AbsorbChain(states, Test());
  }

  lemma OneState()
    ensures Absorb(FNV_SPLITMIX, 0x16538508e60b8178, One()) == 0xfb6c571ee58caf0b
  {
    var states: seq<word> := [0x16538508e60b8178, 0xfb6c571ee58caf0b];
    AbsorbChain(states, One());
  }

  lemma Joined(g: word, a: seq<bv8>, h: word, b: seq<bv8>, r: word)
    requires Absorb(FNV_SPLITMIX, g, a) == h && Absorb(FNV_SPLITMIX, h, b) == r
    ensures Absorb(FNV_SPLITMIX, g, a + b) == r
  {
    AbsorbConcat(FNV_SPLITMIX, g, a, b);
  }

  lemma GoldenState()
    ensures SeedState(FNV_SPLITMIX, GoldenSeed(), Nonce()) == 0xfb6c571ee58caf0b
  {
    NonceState(); NockState(); MarkState(); M0State(); TestState(); OneState();
    var g: word := 0x73a94c71d60dc0d8;
    Joined(g, Nock(), 0x5aee34f1f8d76695, Mark(), 0xbee9fcf3f3bac4a7);
    Joined(g, Nock() + Mark(), 0xbee9fcf3f3bac4a7, M0(), 0xb479e661d6bd7885);
    Joined(g, Nock() + Mark() + M0(), 0xb479e661d6bd7885, Test(), 0x16538508e60b8178);
    Joined(g, Nock() + Mark() + M0() + Test(), 0x16538508e60b8178, One(), 0xfb6c571ee58caf0b);
    Joined(FNV_SPLITMIX.start, Nonce(), g, GoldenSeed(), 0xfb6c571ee58caf0b);
  }

  /** Output j + 1 of a stream: one step of the state, what it mixes to, and its belt. */
  lemma GoldenStep(root: word, j: nat, h: word, g: word, raw: word, belt: int)
    requires h == Advance(FNV_SPLITMIX, root, j) && Gamma(h) == g && Mix(g) == raw && BeltOf(raw) == belt
    ensures g == Advance(FNV_SPLITMIX, root, j + 1)
    ensures FNV_SPLITMIX.reduce(Output(FNV_SPLITMIX, root, j + 1)) == belt
  {
  }

  lemma GoldenFirst(root: word)
    requires root == 0xfb6c571ee58caf0b
    ensures Advance(FNV_SPLITMIX, root, 3) == 0xd612c44b636c234a
    ensures Slot(root, 0) && Slot(root, 1) && Slot(root, 2)
  {
    GoldenStep(root, 0, root, 0x99a3d0d864d72b20, 0x698d0e13097680bd, 7605750820624564413);
    GoldenStep(root, 1, 0x99a3d0d864d72b20, 0x37db4a91e421a735, 0x7eb77ed202e9fefb, 9130906209974091515);
    GoldenStep(root, 2, 0x37db4a91e421a735, 0xd612c44b636c234a, 0x09418002fcf3f19e, 666954970149679518);
  }

  lemma GoldenLast(root: word)
    requires Advance(FNV_SPLITMIX, root, 3) == 0xd612c44b636c234a
    ensures Slot(root, 3) && Slot(root, 4)
  {
    GoldenStep(root, 3, 0xd612c44b636c234a, 0x744a3e04e2b69f5f, 0x839e3750e1d565b4, 9484078685814613428);
    GoldenStep(root, 4, 0x744a3e04e2b69f5f, 0x1281b7be62011b74, 0xa225e4c88a30dd25, 11683996358245670181);
  }

  function GoldenBelts(): (belts: seq<int>)
    ensures |belts| == 5
  {
    [7605750820624564413, 9130906209974091515, 666954970149679518, 9484078685814613428, 11683996358245670181]
  }

  predicate Slot(root: word, j: nat)
    requires j < 5
  {
    InSlot(FNV_SPLITMIX, root, GoldenBelts(), j)
  }

  predicate InSlot<W, S>(rule: Rule<W, S>, h: W, slots: seq<int>, j: nat)
    requires j < |slots|
  {
    slots[j] == rule.reduce(Output(rule, h, j + 1))
  }

  lemma GoldenStream(root: word)
    requires root == 0xfb6c571ee58caf0b
    ensures Filled(FNV_SPLITMIX, root, GoldenBelts(), 5)
  {
    GoldenFirst(root);
    GoldenLast(root);
    FiveFilled(FNV_SPLITMIX, root, GoldenBelts());
  }

  /** The five belts of "nockmark-m0-test-1" in the domain "nonce". */
  lemma GoldenVector()
    ensures SeedToBelts(FNV_SPLITMIX, GoldenSeed(), Nonce()) == GoldenBelts()
  {
    GoldenState();
    GoldenStream(SeedState(FNV_SPLITMIX, GoldenSeed(), Nonce()));
    AllFilled(FNV_SPLITMIX, GoldenSeed(), Nonce(), GoldenBelts());
  }

  lemma FiveFilled<W, S>(rule: Rule<W, S>, h: W, slots: seq<int>)
    requires |slots| == 5
    requires InSlot(rule, h, slots, 0) && InSlot(rule, h, slots, 1) && InSlot(rule, h, slots, 2)
    requires InSlot(rule, h, slots, 3) && InSlot(rule, h, slots, 4)
    ensures Filled(rule, h, slots, 5)
  {
    forall k | 0 <= k < 5 ensures slots[k] == rule.reduce(Output(rule, h, k + 1)) {
      assert InSlot(rule, h, slots, k);
    }
  }
}
