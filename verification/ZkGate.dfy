/** The ZK track around its kernel: the submission gate, the ranked figure, and the
    client that stripes proof indices over threads. */
module ZkGate {
  import opened Wrappers
  import opened Numbers
  import opened Octets
  import opened Float64
  import opened Kernel

  // ------------------------------------------------------------------------
  // Binding
  // ------------------------------------------------------------------------

  /** Five field elements derived from a seed and a domain. */
  type BeltsOf = (Text, Text) -> seq<int>

  datatype ProofObject =
    | Puzzle(com: seq<int>, nonce: seq<int>, len: nat)
    | OtherObject

  /** A decoded proof; none when the bytes are not one. */
  type Proof = Option<seq<ProofObject>>

  datatype Binding = Bound | Garbled | NoPuzzle | WrongNonce | WrongHeader | WrongLen

  function IndexedSeed(challenge: Text, index: nat): (t: Text) {
    challenge + "/" + Decimal(index)
  }

  /** The first puzzle decides, its length before its nonce before its header. */
  function BindingOf(objects: seq<ProofObject>, challenge: Text, index: nat, powLen: nat, belts: BeltsOf)
    : (b: Binding)
  {
    if |objects| == 0 then NoPuzzle
    else match objects[0]
      case OtherObject => BindingOf(objects[1..], challenge, index, powLen, belts)
      case Puzzle(com, nonce, len) =>
        if len != powLen then WrongLen
        else if nonce != belts(IndexedSeed(challenge, index), "nonce") then WrongNonce
        else if com != belts(challenge, "header") then WrongHeader
        else Bound
  }

  function CheckBinding(proof: Proof, challenge: Text, index: nat, powLen: nat, belts: BeltsOf): (b: Binding) {
    match proof
    case None => Garbled
    case Some(objects) => BindingOf(objects, challenge, index, powLen, belts)
  }

  /** The puzzle a proof for this challenge and index carries. */
  function PuzzleFor(challenge: Text, index: nat, powLen: nat, belts: BeltsOf): (p: ProofObject) {
    Puzzle(belts(challenge, "header"), belts(IndexedSeed(challenge, index), "nonce"), powLen)
  }

  predicate FirstPuzzleIs(objects: seq<ProofObject>, p: ProofObject)
    requires p.Puzzle?
  {
    |objects| > 0 && (objects[0] == p || (objects[0].OtherObject? && FirstPuzzleIs(objects[1..], p)))
  }

  /** A proof is bound exactly when its first puzzle is the one for this challenge,
      index and length. */
  lemma {:induction false} BoundIff(objects: seq<ProofObject>, challenge: Text, index: nat, powLen: nat, belts: BeltsOf)
    ensures CheckBinding(Some(objects), challenge, index, powLen, belts) == Bound
            <==> FirstPuzzleIs(objects, PuzzleFor(challenge, index, powLen, belts))
  {
    if |objects| > 0 && objects[0].OtherObject? {
      BoundIff(objects[1..], challenge, index, powLen, belts);
    }
  }

  /** Bytes that are no proof are never bound. */
  lemma GarbledExactly(proof: Proof, challenge: Text, index: nat, powLen: nat, belts: BeltsOf)
    ensures CheckBinding(proof, challenge, index, powLen, belts) == Garbled <==> proof == None
    ensures CheckBinding(proof, challenge, index, powLen, belts) == Bound ==> proof.Some?
  {
    if proof.Some? { NeverGarbled(proof.value, challenge, index, powLen, belts); }
  }

  lemma {:induction false} NeverGarbled(objects: seq<ProofObject>, challenge: Text, index: nat, powLen: nat,
                                        belts: BeltsOf)
    ensures BindingOf(objects, challenge, index, powLen, belts) != Garbled
  {
    if |objects| > 0 && objects[0].OtherObject? { NeverGarbled(objects[1..], challenge, index, powLen, belts); }
  }

  /** A proof bound at one index passes at another exactly when the two nonces collide. */
  lemma {:induction false} BoundElsewhere(objects: seq<ProofObject>, challenge: Text, i: nat, j: nat, powLen: nat,
                                          belts: BeltsOf)
    requires CheckBinding(Some(objects), challenge, i, powLen, belts) == Bound
    ensures CheckBinding(Some(objects), challenge, j, powLen, belts) == Bound
            <==> belts(IndexedSeed(challenge, i), "nonce") == belts(IndexedSeed(challenge, j), "nonce")
  {
    if objects[0].OtherObject? { BoundElsewhere(objects[1..], challenge, i, j, powLen, belts); }
  }

  /** The error, exactly: none when no object is a puzzle, else what is wrong first with
      the first puzzle, its length before its nonce before its header. */
  lemma {:induction false} BindingErrors(objects: seq<ProofObject>, challenge: Text, index: nat, powLen: nat,
                                         belts: BeltsOf, p: ProofObject)
    requires p.Puzzle?
    ensures var b := CheckBinding(Some(objects), challenge, index, powLen, belts);
            && (b == NoPuzzle <==> forall o :: o in objects ==> o.OtherObject?)
            && (FirstPuzzleIs(objects, p) ==>
                  && (b == WrongLen <==> p.len != powLen)
                  && (b == WrongNonce <==> p.len == powLen && p.nonce != belts(IndexedSeed(challenge, index), "nonce"))
                  && (b == WrongHeader <==> p.len == powLen && p.nonce == belts(IndexedSeed(challenge, index), "nonce")
                                            && p.com != belts(challenge, "header")))
  {
    if |objects| > 0 && objects[0].OtherObject? {
      BindingErrors(objects[1..], challenge, index, powLen, belts, p);
      assert forall o :: o in objects <==> o == objects[0] || o in objects[1..];
    }
  }

  /** Different challenges and indices are bound to different seeds. */
  lemma SeedsDiffer(c: Text, i: nat, d: Text, j: nat)
    ensures IndexedSeed(c, i) == IndexedSeed(d, j) <==> c == d && i == j
  {
    if IndexedSeed(c, i) == IndexedSeed(d, j) {
      SlashPlace(c, Decimal(i), d, Decimal(j));
      DecimalRoundTrip(i); DecimalRoundTrip(j);
    }
  }

  /** The last slash is where the digits begin. */
  lemma NoEarlierSlash(c: Text, a: Text, d: Text, b: Text)
    requires AllDigits(a) && |c| < |d|
    ensures c + "/" + a != d + "/" + b
  {
    var s := c + "/" + a;
    if |d| < |s| { assert s[|d|] == a[|d| - |c| - 1]; }
    assert (d + "/" + b)[|d|] == '/';
  }

  lemma SlashPlace(c: Text, a: Text, d: Text, b: Text)
    requires c + "/" + a == d + "/" + b && AllDigits(a) && AllDigits(b)
    ensures c == d && a == b
  {
    if |c| < |d| { NoEarlierSlash(c, a, d, b); }
    if |d| < |c| { NoEarlierSlash(d, b, c, a); }
    SamePrefix(c, a, d, b);
  }

  lemma SamePrefix(c: Text, a: Text, d: Text, b: Text)
    requires c + "/" + a == d + "/" + b && |c| == |d|
    ensures c == d && a == b
  {
    assert (c + "/" + a)[..|c|] == c && (d + "/" + b)[..|d|] == d;
    assert (c + "/" + a)[|c| + 1..] == a && (d + "/" + b)[|d| + 1..] == b;
  }

  // ------------------------------------------------------------------------
  // The client's bench
  // ------------------------------------------------------------------------

  datatype Result = Result(index: nat, proof: Proof)

  /** One thread proves tid, tid + threads, tid + 2 * threads, ... below k. */
  method ProveStripe(tid: nat, threads: nat, k: nat, prove: nat -> Proof) returns (results: seq<Result>)
    requires tid < threads
    ensures results == Stripe(tid, tid, threads, k, prove)
  {
    results := [];
    var i := tid;
    while i < k
      invariant i >= tid
      invariant results + Stripe(i, tid, threads, k, prove) == Stripe(tid, tid, threads, k, prove)
      decreases k - i
    {
      results := results + [Result(i, prove(i))];
      i := i + threads;
    }
  }

  function Stripe(i: nat, tid: nat, threads: nat, k: nat, prove: nat -> Proof): (rs: seq<Result>)
    requires threads > 0
    decreases k - i
  {
    if i >= k then [] else [Result(i, prove(i))] + Stripe(i + threads, tid, threads, k, prove)
  }

  /** What has been collected once the threads in `done` have finished: their indices,
      each once, with the right proofs. */
  ghost predicate Collected(rs: seq<Result>, done: set<nat>, threads: nat, k: nat, prove: nat -> Proof)
    requires threads > 0
  {
    && (forall x :: x in rs ==> x.index < k && x.index % threads in done && x.proof == prove(x.index))
    && (forall i: nat :: i < k && i % threads in done ==> Result(i, prove(i)) in rs)
    && (forall a, b :: 0 <= a < b < |rs| ==> rs[a].index != rs[b].index)
  }

  lemma {:induction false} StripeHolds(i: nat, tid: nat, threads: nat, k: nat, prove: nat -> Proof)
    requires tid < threads && i % threads == tid
    ensures OfClass(Stripe(i, tid, threads, k, prove), i, tid, threads, k, prove)
    decreases k - i
  {
    if i < k {
      NextInClass(i, threads);
      StripeHolds(i + threads, tid, threads, k, prove);
      StripeJoins(i, tid, threads, k, prove, Stripe(i + threads, tid, threads, k, prove));
    }
  }

  /** The results `rs` are those of the indices from i on in the class of tid. */
  ghost predicate OfClass(rs: seq<Result>, i: nat, tid: nat, threads: nat, k: nat, prove: nat -> Proof)
    requires threads > 0
  {
    && (forall x :: x in rs ==> i <= x.index < k && x.index % threads == tid && x.proof == prove(x.index))
    && (forall j: nat :: i <= j < k && j % threads == tid ==> Result(j, prove(j)) in rs)
    && (forall a, b :: 0 <= a < b < |rs| ==> rs[a].index < rs[b].index)
  }

  lemma StripeJoins(i: nat, tid: nat, threads: nat, k: nat, prove: nat -> Proof, rest: seq<Result>)
    requires tid < threads && i % threads == tid && i < k && OfClass(rest, i + threads, tid, threads, k, prove)
    ensures OfClass([Result(i, prove(i))] + rest, i, tid, threads, k, prove)
  {
    var rs := [Result(i, prove(i))] + rest;
    assert forall a :: 0 <= a < |rest| ==> rest[a] in rest;
    forall j: nat | i <= j < k && j % threads == tid ensures Result(j, prove(j)) in rs {
      if j > i { ClassGap(i, j, threads); }
    }
  }

  lemma NextInClass(i: nat, t: nat)
    requires t > 0
    ensures (i + t) % t == i % t
  {
    assert i == t * (i / t) + i % t;
    assert i + t == t * (i / t + 1) + i % t;
    assert i + t == t * ((i + t) / t) + (i + t) % t;
    var q := i / t + 1 - (i + t) / t;
    assert t * q == (i + t) % t - i % t;
    Multiples(t, q);
  }

  lemma Multiples(t: nat, q: int)
    ensures q >= 1 ==> t * q >= t
    ensures q <= -1 ==> t * q + t <= 0
    ensures q <= 0 ==> t * q <= 0
  {
  }

  /** Two numbers of one residue class are at least the modulus apart. */
  lemma ClassGap(i: nat, j: nat, t: nat)
    requires t > 0 && i < j && i % t == j % t
    ensures i + t <= j
  {
    if j < i + t {
      var d := j - i;
      assert j == i + d;
      assert i == t * (i / t) + i % t && j == t * (j / t) + j % t;
      assert d == t * (j / t - i / t);
      Multiples(t, j / t - i / t);
    }
  }

  /** Threads finish in any order; their results are appended as they do. */
  method Collect(order: seq<nat>, threads: nat, k: nat, prove: nat -> Proof) returns (all: seq<Result>)
    requires threads > 0
    requires forall i :: 0 <= i < |order| ==> order[i] < threads
    requires forall i, j :: 0 <= i < j < |order| ==> order[i] != order[j]
    ensures Collected(all, set i | 0 <= i < |order| :: order[i], threads, k, prove)
  {
    all := [];
    var n := 0;
    while n < |order|
      invariant 0 <= n <= |order|
      invariant Collected(all, set i | 0 <= i < n :: order[i], threads, k, prove)
    {
      ghost var done := set i | 0 <= i < n :: order[i];
      var stripe := ProveStripe(order[n], threads, k, prove);
      OneMoreThread(all, done, order[n], threads, k, prove);
      all := all + stripe;
      n := n + 1;
      assert (set i | 0 <= i < n :: order[i]) == done + {order[n - 1]};
    }
  }

  lemma OneMoreThread(all: seq<Result>, done: set<nat>, tid: nat, threads: nat, k: nat, prove: nat -> Proof)
    requires tid < threads && tid !in done && Collected(all, done, threads, k, prove)
    ensures Collected(all + Stripe(tid, tid, threads, k, prove), done + {tid}, threads, k, prove)
  {
    SmallResidue(tid, threads);
    StripeHolds(tid, tid, threads, k, prove);
    var stripe := Stripe(tid, tid, threads, k, prove);
    var both := all + stripe;
    forall a, b | 0 <= a < b < |both| ensures both[a].index != both[b].index {
      if a < |all| <= b {
        assert both[a] in all && both[b] in stripe;
      }
    }
    forall i: nat | i < k && i % threads in done + {tid} ensures Result(i, prove(i)) in both {
      if i % threads == tid { ResidueBelow(i, tid, threads); }
    }
  }

  lemma SmallResidue(tid: nat, threads: nat)
    requires tid < threads
    ensures tid % threads == tid
  {
  }

  lemma ResidueBelow(i: nat, tid: nat, threads: nat)
    requires threads > 0 && i % threads == tid
    ensures tid <= i
  {
  }

  /** A sorted arrangement of the results. */
  ghost predicate SortedArrangement(sorted: seq<Result>, all: seq<Result>) {
    && |sorted| == |all|
    && multiset(sorted) == multiset(all)
    && (forall a, b :: 0 <= a < b < |sorted| ==> sorted[a].index <= sorted[b].index)
  }

  lemma {:induction false} DistinctCount(all: seq<Result>, x: Result)
    requires forall a, b :: 0 <= a < b < |all| ==> all[a].index != all[b].index
    ensures multiset(all)[x] <= 1
  {
    if |all| > 0 {
      assert all == [all[0]] + all[1..];
      DistinctCount(all[1..], x);
      if all[0] == x { assert x !in all[1..]; }
    }
  }

  lemma RepeatedCount(rs: seq<Result>, a: nat, b: nat)
    requires a < b < |rs| && rs[a] == rs[b]
    ensures multiset(rs)[rs[a]] >= 2
  {
    assert rs == rs[..b] + [rs[b]] + rs[b + 1..];
    assert rs[a] in rs[..b];
  }

  lemma ArrangementDistinct(sorted: seq<Result>, all: seq<Result>, prove: nat -> Proof)
    requires SortedArrangement(sorted, all)
    requires forall x :: x in all ==> x.proof == prove(x.index)
    requires forall a, b :: 0 <= a < b < |all| ==> all[a].index != all[b].index
    ensures forall x :: x in sorted <==> x in all
    ensures forall a, b :: 0 <= a < b < |sorted| ==> sorted[a].index < sorted[b].index
  {
    assert forall x :: x in sorted <==> x in multiset(sorted);
    assert forall x :: x in all <==> x in multiset(all);
    forall a, b | 0 <= a < b < |sorted| ensures sorted[a].index < sorted[b].index {
      assert sorted[a] in sorted && sorted[b] in sorted;
      if sorted[a] == sorted[b] {
        DistinctCount(all, sorted[a]);
        RepeatedCount(sorted, a, b);
      }
    }
  }

  lemma {:induction false} InPlace(sorted: seq<Result>, k: nat, prove: nat -> Proof, i: nat)
    requires forall a, b :: 0 <= a < b < |sorted| ==> sorted[a].index < sorted[b].index
    requires forall j: nat :: j < k ==> Result(j, prove(j)) in sorted
    requires i < k
    ensures i < |sorted| && sorted[i].index == i
  {
    if i > 0 { InPlace(sorted, k, prove, i - 1); }
    var p :| 0 <= p < |sorted| && sorted[p] == Result(i, prove(i));
    if p < i { InPlace(sorted, k, prove, p); }
  }

  /** For every k, thread count and completion order: the sorted bundle holds proof i at
      place i, for exactly the k indices. */
  lemma BundleInPlace(sorted: seq<Result>, all: seq<Result>, tids: set<nat>, threads: nat, k: nat, prove: nat -> Proof)
    requires threads > 0 && (forall t: nat :: t < threads ==> t in tids)
    requires Collected(all, tids, threads, k, prove) && SortedArrangement(sorted, all)
    ensures |sorted| == k
    ensures forall i :: 0 <= i < k ==> sorted[i] == Result(i, prove(i))
  {
    ArrangementDistinct(sorted, all, prove);
    forall i: nat | i < k ensures Result(i, prove(i)) in sorted {
      assert i % threads in tids;
    }
    forall i | 0 <= i < k ensures i < |sorted| && sorted[i] == Result(i, prove(i)) {
      InPlace(sorted, k, prove, i);
      assert sorted[i] in all;
    }
    if k > 0 { InPlace(sorted, k, prove, k - 1); }
    if |sorted| > k {
      assert sorted[k] in all;
      InPlace(sorted, k, prove, sorted[k].index);
    }
  }

  /** An honest bundle passes the gate at every place: each proof was made for its own
      index of the challenge string it was fetched under. */
  lemma HonestBundleBinds(sorted: seq<Result>, all: seq<Result>, tids: set<nat>, threads: nat, k: nat,
                          prove: nat -> Proof, challenge: Text, powLen: nat, belts: BeltsOf)
    requires threads > 0 && (forall t: nat :: t < threads ==> t in tids)
    requires Collected(all, tids, threads, k, prove) && SortedArrangement(sorted, all)
    requires forall i: nat :: i < k ==> prove(i).Some?
    requires forall i: nat :: i < k ==> FirstPuzzleIs(prove(i).value, PuzzleFor(challenge, i, powLen, belts))
    ensures |sorted| == k
    ensures forall i :: 0 <= i < k ==> CheckBinding(sorted[i].proof, challenge, i, powLen, belts) == Bound
  {
    BundleInPlace(sorted, all, tids, threads, k, prove);
    forall i | 0 <= i < k ensures CheckBinding(sorted[i].proof, challenge, i, powLen, belts) == Bound {
      BoundIff(prove(i).value, challenge, i, powLen, belts);
    }
  }

  // ------------------------------------------------------------------------
  // The submission gate
  // ------------------------------------------------------------------------

  /** Largest value the kernel call can pass as a direct atom. */
  const DIRECT_MAX: nat := 0x7FFF_FFFF_FFFF_FFFF

  /** Decimal text as u64: an optional plus sign, then at least one digit. */
  function ParseU64(t: Text): (r: Option<nat>) {
    if |t| > 1 && t[0] == '+' then ParseDigits(t[1..]) else ParseDigits(t)
  }

  function ParseDigits(d: Text): (r: Option<nat>) {
    if |d| > 0 && AllDigits(d) && DecimalValue(d) < TWO_64 then Some(DecimalValue(d)) else None
  }

  predicate AllDigits(d: Text) {
    forall i :: 0 <= i < |d| ==> IsDigit(d[i])
  }

  datatype Submitted = Submitted(nonce: Text, hardware: Text, proverVersion: Text, elapsedMs: nat, proofs: seq<Proof>)

  datatype Answer = BadRequest | Panicked | Forwarded(effect: Effect)

  /** Proof i is bound to its index of the nonce as sent, and verifies. */
  predicate ProofPasses(sub: Submitted, i: nat, powLen: nat, belts: BeltsOf, verify: Proof -> bool)
    requires i < |sub.proofs|
  {
    CheckBinding(sub.proofs[i], sub.nonce, i, powLen, belts) == Bound && verify(sub.proofs[i])
  }

  /** The gate: fields first, then every proof bound and verified, then the kernel. The
      binding uses the nonce as sent, the kernel the number it parses to. */
  function SubmitRun(s: State, sub: Submitted, k: nat, powLen: nat, belts: BeltsOf, verify: Proof -> bool,
                     now: nat, eny: nat)
    : (r: (Answer, State))
  {
    var nonce := ParseU64(sub.nonce);
    if nonce == None || sub.elapsedMs == 0 || |sub.hardware| > 128 || |sub.proverVersion| > 64 || |sub.proofs| != k
    then (BadRequest, s)
    else if exists i :: 0 <= i < k && !ProofPasses(sub, i, powLen, belts, verify)
    then (BadRequest, s)
    else if k > DIRECT_MAX || sub.elapsedMs > DIRECT_MAX then (Panicked, s)
    else
      var cause := Cause.SubmitRun(nonce.value, sub.hardware, sub.proverVersion, k, sub.elapsedMs);
      var (effect, t) := Poke(s, cause, now, eny);
      (Forwarded(effect), t)
  }

  /** What the gate asks of a submission before the kernel sees it. */
  ghost predicate PassesGate(sub: Submitted, k: nat, powLen: nat, belts: BeltsOf, verify: Proof -> bool) {
    && ParseU64(sub.nonce).Some? && 1 <= sub.elapsedMs <= DIRECT_MAX
    && |sub.hardware| <= 128 && |sub.proverVersion| <= 64
    && |sub.proofs| == k <= DIRECT_MAX
    && forall i :: 0 <= i < k ==> ProofPasses(sub, i, powLen, belts, verify)
  }

  /** What the kernel asks: the nonce minted, unused and fresh, the elapsed time inside
      its window. */
  predicate PassesKernel(s: State, nonce: nat, elapsedMs: nat, now: nat) {
    && nonce in s.challenges && !s.challenges[nonce].used
    && s.challenges[nonce].issuedAt <= now <= s.challenges[nonce].issuedAt + HOUR
    && elapsedMs <= WindowMs(s.challenges[nonce].issuedAt, now)
  }

  /** A run is recorded exactly when k proofs are bound and verified, the fields are in
      range and the kernel agrees; nothing else ever changes the state. */
  lemma GateExact(s: State, sub: Submitted, k: nat, powLen: nat, belts: BeltsOf, verify: Proof -> bool,
                  now: nat, eny: nat)
    ensures var (answer, t) := SubmitRun(s, sub, k, powLen, belts, verify, now, eny);
            && (answer == Forwarded(RunRecorded(s.nextId)) <==>
                  PassesGate(sub, k, powLen, belts, verify)
                  && PassesKernel(s, ParseU64(sub.nonce).value, sub.elapsedMs, now))
            && (answer == Forwarded(RunRecorded(s.nextId)) ==>
                  t.runs == [ZkRun(s.nextId, ParseU64(sub.nonce).value, sub.hardware, sub.proverVersion, k,
                                   sub.elapsedMs, s.challenges[ParseU64(sub.nonce).value].issuedAt, now)] + s.runs)
            && (answer != Forwarded(RunRecorded(s.nextId)) ==> t == s)
  {
  }

  function Zeros(z: nat): (t: Text)
    ensures |t| == z && AllDigits(t)
  {
    seq(z, _ => '0')
  }

  /** Every other answer, exactly: a bad request for what the gate checks, in plain terms;
      an abort on a number too wide for the kernel's call; otherwise the kernel's own. */
  lemma AnswersExact(s: State, sub: Submitted, k: nat, powLen: nat, belts: BeltsOf, verify: Proof -> bool,
                     now: nat, eny: nat)
    ensures var (answer, t) := SubmitRun(s, sub, k, powLen, belts, verify, now, eny);
            && (answer == BadRequest <==>
                  || ParseU64(sub.nonce) == None || sub.elapsedMs == 0
                  || |sub.hardware| > 128 || |sub.proverVersion| > 64 || |sub.proofs| != k
                  || exists i :: 0 <= i < k && !ProofPasses(sub, i, powLen, belts, verify))
            && (answer == Panicked <==> answer != BadRequest
                                        && (k >= 0x8000_0000_0000_0000 || sub.elapsedMs >= 0x8000_0000_0000_0000))
  {
  }

  lemma ZeroFirst(z: nat)
    requires z > 0
    ensures Zeros(z) == ['0'] + Zeros(z - 1)
  {
  }

  lemma {:induction false} ValueAfterZeros(z: nat, t: Text)
    requires AllDigits(t)
    ensures DecimalValue(Zeros(z) + t) == DecimalValue(t)
    decreases |t|, z
  {
    var s := Zeros(z) + t;
    if |t| > 0 {
      assert s[..|s| - 1] == Zeros(z) + t[..|t| - 1];
      ValueAfterZeros(z, t[..|t| - 1]);
    } else if z > 0 {
      assert s[..|s| - 1] == Zeros(z - 1) + t;
      ValueAfterZeros(z - 1, t);
    } else {
      assert s == t;
    }
  }

  lemma OneZeroMore(d: Text, rest: Text, y: nat)
    requires d == ['0'] + rest && AllDigits(rest) && rest == Zeros(y) + Decimal(DecimalValue(rest))
    ensures AllDigits(d) && d == Zeros(y + 1) + Decimal(DecimalValue(d))
  {
    ZeroFirst(y + 1);
    ZeroFirst(1);
    assert d == Zeros(1) + rest;
    ValueAfterZeros(1, rest);
  }

  /** Digits are zeros before the decimal of their value. */
  lemma {:induction false} ZerosAndDecimal(d: Text) returns (z: nat)
    requires |d| > 0 && AllDigits(d)
    ensures d == Zeros(z) + Decimal(DecimalValue(d))
  {
    if |d| > 1 && d[0] == '0' {
      var y := ZerosAndDecimal(d[1..]);
      z := y + 1;
      OneZeroMore(d, d[1..], y);
    } else {
      z := 0;
      DecimalOfValue(d);
      assert d == Zeros(0) + d;
    }
  }

  /** What parses as n: its decimal, with any zeros before it, and perhaps a plus sign. */
  lemma NamesOf(t: Text, n: nat)
    ensures ParseU64(t) == Some(n)
            <==> n < 0x1_0000_0000_0000_0000
                 && exists z: nat :: t == Zeros(z) + Decimal(n) || t == ['+'] + (Zeros(z) + Decimal(n))
  {
    if ParseU64(t) == Some(n) {
      var signed := |t| > 1 && t[0] == '+';
      var d := if signed then t[1..] else t;
      var z := ZerosAndDecimal(d);
      assert signed ==> t == ['+'] + d;
    }
    forall z: nat | n < TWO_64 && (t == Zeros(z) + Decimal(n) || t == ['+'] + (Zeros(z) + Decimal(n)))
      ensures ParseU64(t) == Some(n)
    {
      NameParses(t, n, z);
    }
  }

  lemma NameParses(t: Text, n: nat, z: nat)
    requires n < TWO_64 && (t == Zeros(z) + Decimal(n) || t == ['+'] + (Zeros(z) + Decimal(n)))
    ensures ParseU64(t) == Some(n)
  {
    var d := Zeros(z) + Decimal(n);
    ValueAfterZeros(z, Decimal(n));
    DecimalRoundTrip(n);
    assert AllDigits(d) && IsDigit(d[0]);
    if t != d { assert t[1..] == d && t[0] == '+'; }
  }

  lemma ParseDecimal(n: nat)
    requires n < TWO_64
    ensures ParseU64(Decimal(n)) == Some(n)
  {
    DecimalRoundTrip(n);
    assert IsDigit(Decimal(n)[0]);
  }

  // ------------------------------------------------------------------------
  // The claimed time
  // ------------------------------------------------------------------------

  function Ceil(x: real): (n: int)
    ensures x <= n as real < x + 1.0
  {
    -((-x).Floor)
  }

  /** Milliseconds the client claims for d seconds: the binary64 product rounded up, and at
      least one. */
  function Claim(d: real): (ms: nat)
    requires d >= 0.0
  {
    if Ceil(Mul(d, 1000.0)) < 1 then 1 else Ceil(Mul(d, 1000.0))
  }

  /** The claim for d seconds fits the whole milliseconds of a window of w seconds. */
  predicate InTime(d: real, w: real)
    requires d >= 0.0
  {
    Ceil(Mul(d, 1000.0)) <= (1000.0 * w).Floor && 1000.0 * w >= 1.0
  }

  /** The time between two kernel instants, in seconds. */
  function Seconds(issuedAt: nat, now: nat): (w: real) {
    (now - issuedAt) as real / SECOND as real
  }

  lemma WindowIsFloor(issuedAt: nat, now: nat)
    requires issuedAt <= now
    ensures WindowMs(issuedAt, now) == (1000.0 * Seconds(issuedAt, now)).Floor
  {
    var m := (now - issuedAt) * 1000;
    assert m == m / SECOND * SECOND + m % SECOND;
    assert 1000.0 * Seconds(issuedAt, now) == m as real / SECOND as real;
  }

  /** Rounding up at the client and down at the kernel: an honest claim fits its window
      exactly when no whole millisecond is lost between the two, which a millisecond of
      slack ensures, the binary64 product included. */
  lemma ClaimFitsExactly(d: real, issuedAt: nat, now: nat)
    requires d >= 0.0 && issuedAt <= now
    ensures Claim(d) <= WindowMs(issuedAt, now) <==> InTime(d, Seconds(issuedAt, now))
    ensures now <= issuedAt + HOUR && Seconds(issuedAt, now) >= d + 0.001 ==> Claim(d) <= WindowMs(issuedAt, now)
  {
    WindowIsFloor(issuedAt, now);
    if now <= issuedAt + HOUR && Seconds(issuedAt, now) >= d + 0.001 {
      HourSeconds(issuedAt, now);
      SlackSuffices(d, Seconds(issuedAt, now));
    }
  }

  lemma HourSeconds(issuedAt: nat, now: nat)
    requires issuedAt <= now <= issuedAt + HOUR
    ensures 0.0 <= Seconds(issuedAt, now) <= 3600.0
  {
  }

  lemma SlackSuffices(d: real, w: real)
    requires 0.0 <= d && d + 0.001 <= w <= 3600.0
    ensures InTime(d, w)
  {
    var n := (1000.0 * w).Floor;
    RoundInteger(n);
    RoundMono(d * 1000.0, n as real);
    CeilBelow(Mul(d, 1000.0), n);
  }

  lemma CeilBelow(x: real, n: int)
    requires x <= n as real
    ensures Ceil(x) <= n
  {
  }

  /** The fraction of a millisecond a window of d seconds ends with. */
  function Fraction(d: real): (f: real) {
    1000.0 * d - (1000.0 * d).Floor as real
  }

  /** The failing case: work that takes all of its window of d seconds, whatever whole
      number of milliseconds that is, is refused if the window ends with a fraction of a
      millisecond the claim cannot round away, in particular any of 1/1024 or more; without
      a fraction it is recorded. */
  lemma WholeWindowClaim(s: State, submit: Call, d: real)
    requires submit.cause.SubmitRun? && submit.cause.nonce in s.challenges && !s.challenges[submit.cause.nonce].used
    requires var issuedAt := s.challenges[submit.cause.nonce].issuedAt;
             issuedAt <= submit.now <= issuedAt + HOUR && d == Seconds(issuedAt, submit.now) && 1000.0 * d >= 1.0
    requires d >= 0.0 && submit.cause.elapsedMs == Claim(d)
    ensures var r := Poke(s, submit.cause, submit.now, submit.eny);
            && (InTime(d, d) ==> r.0 == RunRecorded(s.nextId))
            && (!InTime(d, d) ==> r == (Rejected(ElapsedExceedsWindow), s))
    ensures Fraction(d) == 0.0 ==> InTime(d, d)
    ensures Fraction(d) >= 1.0 / 1024.0 ==> !InTime(d, d)
  {
    var issuedAt := s.challenges[submit.cause.nonce].issuedAt;
    ClaimFitsExactly(d, issuedAt, submit.now);
    HourSeconds(issuedAt, submit.now);
    FractionDecides(d);
  }

  lemma FractionDecides(d: real)
    requires 0.0 <= d <= 3600.0 && 1000.0 * d >= 1.0
    ensures Fraction(d) == 0.0 ==> InTime(d, d)
    ensures Fraction(d) >= 1.0 / 1024.0 ==> !InTime(d, d)
  {
    var n := (1000.0 * d).Floor;
    RoundInteger(n);
    assert d * 1000.0 == 1000.0 * d;
    CeilBelow(n as real, n);
    RoundError(d * 1000.0);
    assert Fraction(d) >= 1.0 / 1024.0 ==> Mul(d, 1000.0) > n as real;
  }

  /** From mint to ledger: a client that proves every index of the challenge string, on
      any number of threads finishing in any order, sorts, and submits first, has its run
      recorded with the next id exactly when it comes within the hour and the time it
      claims, rounded up, is no more than the window, rounded down. */
  lemma HonestClientIsRecorded(calls: seq<Call>, mint: Call, between: seq<Call>, submit: Call,
                               sorted: seq<Result>, all: seq<Result>, tids: set<nat>, threads: nat, prove: nat -> Proof,
                               sub: Submitted, d: real, powLen: nat, belts: BeltsOf, verify: Proof -> bool)
    requires submit.cause.SubmitRun? && Mints(mint, submit.cause.nonce)
    requires forall i :: 0 <= i < |between| ==> Spares(between[i], submit.cause.nonce)
    requires threads > 0 && (forall t: nat :: t < threads ==> t in tids) && submit.cause.k <= DIRECT_MAX
    requires Collected(all, tids, threads, submit.cause.k, prove) && SortedArrangement(sorted, all)
    requires forall i: nat :: i < submit.cause.k ==> verify(prove(i)) && prove(i).Some?
    requires forall i: nat :: i < submit.cause.k ==>
               FirstPuzzleIs(prove(i).value, PuzzleFor(Decimal(submit.cause.nonce), i, powLen, belts))
    requires d >= 0.0 && submit.cause.elapsedMs == Claim(d) <= DIRECT_MAX
    requires sub == Submitted(Decimal(submit.cause.nonce), submit.cause.hardware, submit.cause.proverVersion,
                              submit.cause.elapsedMs, seq(|sorted|, i requires 0 <= i < |sorted| => sorted[i].proof))
    requires |sub.hardware| <= 128 && |sub.proverVersion| <= 64
    ensures var s := Run(calls + [mint] + between);
            SubmitRun(s, sub, submit.cause.k, powLen, belts, verify, submit.now, submit.eny).0
              == Forwarded(RunRecorded(|s.runs|))
            <==> mint.now <= submit.now <= mint.now + HOUR && InTime(d, Seconds(mint.now, submit.now))
  {
    var n, k, s := submit.cause.nonce, submit.cause.k, Run(calls + [mint] + between);
    BundleInPlace(sorted, all, tids, threads, k, prove);
    HonestBundleBinds(sorted, all, tids, threads, k, prove, Decimal(n), powLen, belts);
    ParseDecimal(n);
    assert PassesGate(sub, k, powLen, belts, verify);
    FirstSubmissionDecides(calls, mint, between, submit, submit);
    LedgerAlways(calls + [mint] + between);
    GateExact(s, sub, k, powLen, belts, verify, submit.now, submit.eny);
    if mint.now <= submit.now { ClaimFitsExactly(d, mint.now, submit.now); }
  }

  /** The string the proofs are bound to is the canonical name of the nonce the run is
      recorded under exactly when it has no plus sign and no superfluous zero. */
  lemma BoundNameIsCanonical(t: Text, n: nat)
    requires ParseU64(t) == Some(n)
    ensures t == Decimal(n) <==> t[0] != '+' && (|t| > 1 ==> t[0] != '0')
  {
    assert IsDigit(Decimal(n)[0]) && (|Decimal(n)| > 1 ==> Decimal(n)[0] != '0');
    if t[0] != '+' && (|t| > 1 ==> t[0] != '0') {
      assert AllDigits(t);
      DecimalOfValue(t);
    }
  }

  /** The string the proofs are bound to need not be the canonical name of the nonce the
      run is recorded under: 7, 07 and +7 are one nonce with three bindings. */
  lemma OneNonceManyNames()
    ensures ParseU64("7") == ParseU64("07") == ParseU64("+7") == Some(7)
  {
  }

  // ------------------------------------------------------------------------
  // The ranked figure
  // ------------------------------------------------------------------------

  /** Four decimals, as computed: scale, round, scale back. */
  function Round4(x: real): (r: real)
    requires x >= 0.0
    ensures r >= 0.0
  {
    Div(RoundAway(Mul(x, 10000.0)) as real, 10000.0)
  }

  lemma Round4Mono(x: real, y: real)
    requires 0.0 <= x <= y
    ensures Round4(x) <= Round4(y)
  {
    RoundMono(x * 10000.0, y * 10000.0);
    var m, n := RoundAway(Mul(x, 10000.0)), RoundAway(Mul(y, 10000.0));
    RoundAwayMono(Mul(x, 10000.0), Mul(y, 10000.0));
    RoundMono(m as real / 10000.0, n as real / 10000.0);
  }

  /** k proofs over a window of ms milliseconds, in proofs per second. */
  function Rate(k: nat, ms: nat): (r: real)
    requires ms > 0
    ensures r >= 0.0
  {
    SecondsPositive(ms);
    Div(Round(k as real), Div(Round(ms as real), 1000.0))
  }

  lemma SecondsPositive(ms: nat)
    requires ms > 0
    ensures Round(ms as real) > 0.0
    ensures Div(Round(ms as real), 1000.0) > 0.0
  {
  }

  function AtLeastOne(n: nat): (m: nat)
    ensures m >= 1 && m >= n && (m == n || m == 1)
  {
    if n == 0 then 1 else n
  }

  function RankedRate(r: ZkRun): (x: real)
    requires r.issuedAt < U128 && r.submittedAt < U128
  {
    Round4(Rate(r.k, AtLeastOne(DaDiffToMs(r.issuedAt, r.submittedAt))))
  }

  function SelfReportedRate(r: ZkRun): (x: real)
    requires r.elapsedMs > 0
  {
    Round4(Rate(r.k, r.elapsedMs))
  }

  lemma RateAntitone(k: nat, short: nat, long: nat)
    requires 0 < short <= long
    ensures Rate(k, long) <= Rate(k, short)
  {
    SecondsPositive(short); SecondsPositive(long);
    RoundMono(short as real, long as real);
    RoundMono(Round(short as real) / 1000.0, Round(long as real) / 1000.0);
    DivAntitoneRounded(Round(k as real), Div(Round(short as real), 1000.0), Div(Round(long as real), 1000.0));
  }

  /** Every submission poke came through the gate, which refuses a zero elapsed time. */
  predicate Gated(calls: seq<Call>) {
    forall i :: 0 <= i < |calls| && calls[i].cause.SubmitRun? ==> calls[i].cause.elapsedMs >= 1
  }

  lemma {:induction false} GatedRuns(calls: seq<Call>, i: nat)
    requires Gated(calls) && i < |Run(calls).runs|
    ensures Run(calls).runs[i].elapsedMs >= 1
  {
    if |calls| > 0 {
      var init := calls[..|calls| - 1];
      if |Run(calls).runs| == |Run(init).runs| {
        GatedRuns(init, i);
      } else if i > 0 {
        GatedRuns(init, i - 1);
      }
    }
  }

  /** On every run the kernel records past the gate, in binary64 and after rounding to
      four decimals: the ranked rate never exceeds the self-reported one, and the floor of
      one millisecond on the window never applies. */
  lemma RankedNeverExceedsReported(calls: seq<Call>, i: nat)
    requires Gated(calls) && i < |Run(calls).runs|
    requires Run(calls).runs[i].submittedAt < U128
    ensures var r := Run(calls).runs[i];
            && RunSound(r) && r.elapsedMs >= 1
            && AtLeastOne(DaDiffToMs(r.issuedAt, r.submittedAt)) == WindowMs(r.issuedAt, r.submittedAt)
            && RankedRate(r) <= SelfReportedRate(r)
  {
    LedgerAlways(calls);
    GatedRuns(calls, i);
    var r := Run(calls).runs[i];
    WindowReadsBack(r);
    RateAntitone(r.k, r.elapsedMs, WindowMs(r.issuedAt, r.submittedAt));
    Round4Mono(Rate(r.k, WindowMs(r.issuedAt, r.submittedAt)), Rate(r.k, r.elapsedMs));
  }
}
