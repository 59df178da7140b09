/** The ZK track's kernel: challenges and recorded runs as a state machine over pokes.
    Times are 64.64 fixed-point seconds. */
module Kernel {
  import opened Numbers
  import opened Octets

  /** One second and one hour in 64.64 fixed point. */
  const SECOND: nat := TWO_64
  const HOUR: nat := 3600 * SECOND

  datatype Challenge = Challenge(issuedAt: nat, used: bool)

  datatype ZkRun = ZkRun(
    id: nat,
    nonce: nat,
    hardware: Text,
    proverVersion: Text,
    k: nat,
    elapsedMs: nat,
    issuedAt: nat,
    submittedAt: nat)

  /** Challenges by nonce, runs newest first, next run id. */
  datatype State = State(challenges: map<nat, Challenge>, runs: seq<ZkRun>, nextId: nat)

  datatype Cause =
    | NewChallenge
    | SubmitRun(nonce: nat, hardware: Text, proverVersion: Text, k: nat, elapsedMs: nat)
    | BadCause

  datatype Effect =
    | ChallengeMinted(nonce: nat)
    | RunRecorded(id: nat)
    | Rejected(reason: Reason)
    | Crashed

  datatype Reason = UnknownNonce | NonceUsed | StaleNonce | ElapsedExceedsWindow | Undecodable

  /** The window in whole milliseconds. */
  function WindowMs(issuedAt: nat, now: nat): (ms: nat)
    requires issuedAt <= now
  {
    (now - issuedAt) * 1000 / SECOND
  }

  /** A poke at time `now` with entropy `eny`. A clock behind the issue time makes the
      subtraction crash, which leaves the state alone. */
  function Poke(s: State, cause: Cause, now: nat, eny: nat): (r: (Effect, State)) {
    match cause
    case BadCause => (Rejected(Undecodable), s)
    case NewChallenge =>
      var nonce := eny % TWO_64;
      (ChallengeMinted(nonce), s.(challenges := s.challenges[nonce := Challenge(now, false)]))
    case SubmitRun(nonce, hardware, version, k, elapsed) =>
      if nonce !in s.challenges then (Rejected(UnknownNonce), s) else
      var c := s.challenges[nonce];
      if c.used then (Rejected(NonceUsed), s)
      else if now > c.issuedAt + HOUR then (Rejected(StaleNonce), s)
      else if now < c.issuedAt then (Crashed, s)
      else if elapsed > WindowMs(c.issuedAt, now) then (Rejected(ElapsedExceedsWindow), s)
      else
        (RunRecorded(s.nextId),
         State(s.challenges[nonce := Challenge(c.issuedAt, true)],
               [ZkRun(s.nextId, nonce, hardware, version, k, elapsed, c.issuedAt, now)] + s.runs,
               s.nextId + 1))
  }

  datatype Call = Call(cause: Cause, now: nat, eny: nat)

  const INITIAL: State := State(map[], [], 0)

  function Run(calls: seq<Call>): (s: State) {
    if |calls| == 0 then INITIAL
    else var c := calls[|calls| - 1]; Poke(Run(calls[..|calls| - 1]), c.cause, c.now, c.eny).1
  }

  predicate Mints(c: Call, nonce: nat) {
    c.cause.NewChallenge? && c.eny % TWO_64 == nonce
  }

  /** How often a nonce was minted. */
  function MintCount(calls: seq<Call>, nonce: nat): (n: nat) {
    if |calls| == 0 then 0
    else MintCount(calls[..|calls| - 1], nonce) + (if Mints(calls[|calls| - 1], nonce) then 1 else 0)
  }

  function RunCount(runs: seq<ZkRun>, nonce: nat): (n: nat) {
    if |runs| == 0 then 0
    else (if runs[0].nonce == nonce then 1 else 0) + RunCount(runs[1..], nonce)
  }

  function Open(s: State, nonce: nat): (n: nat) {
    if nonce in s.challenges && !s.challenges[nonce].used then 1 else 0
  }

  /** What is true of every recorded run. */
  predicate RunSound(r: ZkRun) {
    && r.issuedAt <= r.submittedAt <= r.issuedAt + HOUR
    && r.elapsedMs <= WindowMs(r.issuedAt, r.submittedAt)
    && r.nonce < TWO_64
  }

  ghost predicate LedgerInv(s: State, calls: seq<Call>) {
    && s.nextId == |s.runs|
    && (forall i :: 0 <= i < |s.runs| ==> s.runs[i].id == |s.runs| - 1 - i && RunSound(s.runs[i]))
    && (forall n :: n in s.challenges ==> n < TWO_64)
    && (forall n: nat :: RunCount(s.runs, n) + Open(s, n) <= MintCount(calls, n))
  }

  lemma PokeKeepsLedger(s: State, calls: seq<Call>, c: Call)
    requires LedgerInv(s, calls)
    ensures LedgerInv(Poke(s, c.cause, c.now, c.eny).1, calls + [c])
  {
    var t := Poke(s, c.cause, c.now, c.eny).1;
    assert (calls + [c])[..|calls|] == calls;
    forall n: nat
      ensures RunCount(t.runs, n) + Open(t, n) <= MintCount(calls + [c], n)
    {
      assert MintCount(calls + [c], n) == MintCount(calls, n) + (if Mints(c, n) then 1 else 0);
      assert RunCount(s.runs, n) + Open(s, n) <= MintCount(calls, n);
      if t.runs != s.runs { assert t.runs[1..] == s.runs; }
    }
    if t.runs != s.runs {
      assert forall i :: 0 < i < |t.runs| ==> t.runs[i] == s.runs[i - 1];
    }
  }

  /** After any sequence of pokes: ids are n-1 down to 0, every run was submitted inside
      its hour with no more elapsed time than its window, and no nonce has more runs, its
      open challenge counted in, than it was minted. */
  lemma {:induction false} LedgerAlways(calls: seq<Call>)
    ensures LedgerInv(Run(calls), calls)
  {
    if |calls| > 0 {
      var init, c := calls[..|calls| - 1], calls[|calls| - 1];
      LedgerAlways(init);
      PokeKeepsLedger(Run(init), init, c);
      assert init + [c] == calls;
    }
  }

  lemma {:induction false} RunCountPositive(runs: seq<ZkRun>, i: nat)
    requires i < |runs|
    ensures RunCount(runs, runs[i].nonce) >= 1
  {
    if i > 0 { RunCountPositive(runs[1..], i - 1); }
  }

  lemma {:induction false} TwoRunsCount(runs: seq<ZkRun>, i: nat, j: nat)
    requires i < j < |runs| && runs[i].nonce == runs[j].nonce
    ensures RunCount(runs, runs[i].nonce) >= 2
  {
    if i == 0 { RunCountPositive(runs[1..], j - 1); } else { TwoRunsCount(runs[1..], i - 1, j - 1); }
  }

  /** A nonce minted once backs at most one run; ids are unique in any case. */
  lemma OneMintOneRun(calls: seq<Call>, i: nat, j: nat)
    requires i < j < |Run(calls).runs|
    ensures Run(calls).runs[i].id != Run(calls).runs[j].id
    ensures MintCount(calls, Run(calls).runs[i].nonce) <= 1 ==> Run(calls).runs[i].nonce != Run(calls).runs[j].nonce
  {
    LedgerAlways(calls);
    if Run(calls).runs[i].nonce == Run(calls).runs[j].nonce {
      TwoRunsCount(Run(calls).runs, i, j);
      assert RunCount(Run(calls).runs, Run(calls).runs[i].nonce) + Open(Run(calls), Run(calls).runs[i].nonce)
             <= MintCount(calls, Run(calls).runs[i].nonce);
    }
  }

  // ------------------------------------------------------------------------
  // An honest run is recorded, once
  // ------------------------------------------------------------------------

  /** The call neither mints nor submits the nonce. */
  predicate Spares(c: Call, nonce: nat) {
    !Mints(c, nonce) && (c.cause.SubmitRun? ==> c.cause.nonce != nonce)
  }

  lemma {:induction false} ChallengeKept(calls: seq<Call>, between: seq<Call>, nonce: nat)
    requires nonce in Run(calls).challenges && forall i :: 0 <= i < |between| ==> Spares(between[i], nonce)
    ensures nonce in Run(calls + between).challenges
    ensures Run(calls + between).challenges[nonce] == Run(calls).challenges[nonce]
  {
    if |between| == 0 {
      assert calls + between == calls;
    } else {
      var init, c := between[..|between| - 1], between[|between| - 1];
      ChallengeKept(calls, init, nonce);
      assert (calls + between)[..|calls + between| - 1] == calls + init;
      assert Spares(c, nonce);
    }
  }

  lemma RunSnoc(calls: seq<Call>, c: Call)
    ensures Run(calls + [c]) == Poke(Run(calls), c.cause, c.now, c.eny).1
  {
    assert (calls + [c])[..|calls|] == calls;
  }

  /** After a mint, whatever else happens to other nonces, the first submission of the
      nonce is recorded exactly when it comes within the hour and claims no more elapsed
      time than the window; the run says what was submitted, numbered by the runs before
      it; and the nonce then backs no second run. */
  lemma FirstSubmissionDecides(calls: seq<Call>, mint: Call, between: seq<Call>, submit: Call, again: Call)
    requires submit.cause.SubmitRun? && Mints(mint, submit.cause.nonce)
    requires again.cause.SubmitRun? && again.cause.nonce == submit.cause.nonce
    requires forall i :: 0 <= i < |between| ==> Spares(between[i], submit.cause.nonce)
    ensures var s := Run(calls + [mint] + between);
            var (effect, t) := Poke(s, submit.cause, submit.now, submit.eny);
            && (effect.RunRecorded? <==>
                  && mint.now <= submit.now <= mint.now + 3600 * 0x1_0000_0000_0000_0000
                  && submit.cause.elapsedMs <= WindowMs(mint.now, submit.now))
            && (effect.RunRecorded? ==>
                  && t.runs == [ZkRun(|s.runs|, submit.cause.nonce, submit.cause.hardware, submit.cause.proverVersion,
                                      submit.cause.k, submit.cause.elapsedMs, mint.now, submit.now)] + s.runs
                  && Poke(t, again.cause, again.now, again.eny) == (Rejected(NonceUsed), t))
            && (!effect.RunRecorded? ==> t == s)
  {
    RunSnoc(calls, mint);
    ChallengeKept(calls + [mint], between, submit.cause.nonce);
    LedgerAlways(calls + [mint] + between);
  }

  /** The nonce the client is told is the one opened at this instant; no other challenge
      is touched, and it alone takes the client's run. */
  lemma ToldNonceIsOpened(calls: seq<Call>, mint: Call, told: nat)
    requires mint.cause.NewChallenge?
    requires Poke(Run(calls), mint.cause, mint.now, mint.eny).0 == ChallengeMinted(told)
    ensures var s, t := Run(calls), Run(calls + [mint]);
            && told == mint.eny % TWO_64 && t.runs == s.runs && t.nextId == s.nextId
            && t.challenges.Keys == s.challenges.Keys + {told}
            && t.challenges[told] == Challenge(mint.now, false)
            && forall n :: n in s.challenges && n != told ==> t.challenges[n] == s.challenges[n]
  {
    RunSnoc(calls, mint);
  }

  /** Only a mint and a recorded run change anything; what cannot be decoded is refused. */
  lemma RefusalsChangeNothing(s: State, c: Call)
    ensures var (effect, t) := Poke(s, c.cause, c.now, c.eny);
            && (!effect.ChallengeMinted? && !effect.RunRecorded? ==> t == s)
            && (effect == Rejected(Undecodable) <==> c.cause.BadCause?)
            && (effect.ChallengeMinted? <==> c.cause.NewChallenge?)
            && (effect.RunRecorded? ==> c.cause.SubmitRun? && effect.id == s.nextId && t.nextId == s.nextId + 1)
  {
  }

  lemma {:induction false} KnownIffMinted(calls: seq<Call>, nonce: nat)
    ensures nonce in Run(calls).challenges <==> MintCount(calls, nonce) > 0
  {
    if |calls| > 0 { KnownIffMinted(calls[..|calls| - 1], nonce); }
  }

  /** A nonce that has no open challenge was recorded. */
  lemma {:induction false} UsedIffRecorded(calls: seq<Call>, nonce: nat)
    requires nonce in Run(calls).challenges && Run(calls).challenges[nonce].used
    ensures exists i :: 0 <= i < |Run(calls).runs| && Run(calls).runs[i].nonce == nonce
                        && Run(calls).runs[i].issuedAt == Run(calls).challenges[nonce].issuedAt
  {
    var init, c := calls[..|calls| - 1], calls[|calls| - 1];
    var s, t := Run(init), Run(calls);
    if nonce in s.challenges && s.challenges[nonce].used && t.challenges[nonce] == s.challenges[nonce] {
      UsedIffRecorded(init, nonce);
      var i :| 0 <= i < |s.runs| && s.runs[i].nonce == nonce && s.runs[i].issuedAt == s.challenges[nonce].issuedAt;
      var j := if t.runs == s.runs then i else i + 1;
      assert t.runs[j] == s.runs[i];
    } else {
      assert t.runs[0].nonce == nonce;
    }
  }

  /** Why a submission is refused, over any pokes: unknown exactly when the nonce was never
      minted; used exactly when its challenge is closed, which one of the runs then shows;
      else stale, crashing or too long by the times alone. */
  lemma RefusalsExact(calls: seq<Call>, submit: Call)
    requires submit.cause.SubmitRun?
    ensures var s, nonce, now := Run(calls), submit.cause.nonce, submit.now;
            var effect := Poke(s, submit.cause, now, submit.eny).0;
            && (effect == Rejected(UnknownNonce) <==> MintCount(calls, nonce) == 0)
            && (effect == Rejected(NonceUsed) <==> nonce in s.challenges && s.challenges[nonce].used)
            && (effect == Rejected(NonceUsed) ==> exists i :: 0 <= i < |s.runs| && s.runs[i].nonce == nonce)
            && (nonce in s.challenges && !s.challenges[nonce].used ==>
                  var t := s.challenges[nonce].issuedAt;
                  && (effect == Rejected(StaleNonce) <==> now > t + 3600 * 0x1_0000_0000_0000_0000)
                  && (effect == Crashed <==> now < t)
                  && (effect == Rejected(ElapsedExceedsWindow)
                      <==> t <= now <= t + HOUR && submit.cause.elapsedMs > WindowMs(t, now)))
  {
    var s, nonce := Run(calls), submit.cause.nonce;
    KnownIffMinted(calls, nonce);
    if nonce in s.challenges && s.challenges[nonce].used { UsedIffRecorded(calls, nonce); }
  }

  // ------------------------------------------------------------------------
  // Reading the window back
  // ------------------------------------------------------------------------

  const U128: nat := SECOND * SECOND

  /** The reader's conversion, in saturating 128-bit arithmetic and a 64-bit result. */
  function DaDiffToMs(issuedAt: nat, submittedAt: nat): (ms: nat)
    requires issuedAt < U128 && submittedAt < U128
    ensures ms < SECOND
  {
    var diff := if submittedAt < issuedAt then 0 else submittedAt - issuedAt;
    var scaled := if diff * 1000 >= U128 then U128 - 1 else diff * 1000;
    scaled / SECOND % SECOND
  }

  /** Stamps out of order read as no time at all, a difference whose thousandfold does not
      fit 128 bits as the longest there is. */
  lemma OutOfRangeReads(issuedAt: nat, submittedAt: nat)
    requires issuedAt < U128 && submittedAt < U128
    ensures submittedAt <= issuedAt ==> DaDiffToMs(issuedAt, submittedAt) == 0
    ensures (submittedAt - issuedAt) * 1000 >= U128 ==> DaDiffToMs(issuedAt, submittedAt) == 0xFFFF_FFFF_FFFF_FFFF
  {
  }

  /** On every recorded run the reader computes the kernel's own window. */
  lemma WindowReadsBack(r: ZkRun)
    requires RunSound(r) && r.submittedAt < U128
    ensures DaDiffToMs(r.issuedAt, r.submittedAt) == WindowMs(r.issuedAt, r.submittedAt)
    ensures r.elapsedMs <= DaDiffToMs(r.issuedAt, r.submittedAt) <= 3_600_000
  {
  }
}
