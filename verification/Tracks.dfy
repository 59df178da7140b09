/** Both ledgers fed by one mint: every AI challenge is minted by the kernel first, and
    the two tracks then run side by side over the same nonces. */
module Tracks {
  import K = Kernel
  import S = Submission
  import opened AiLedger
  import opened Bytes
  import opened Events
  import opened Numbers
  import opened Wrappers

  datatype Step =
    | Zk(call: K.Call)
    | AiMint(now: nat, eny: nat, issuedAtMs: nat, target: Option<Target>, written: nat)
    | Ai(step: S.Step)

  /** The AI track stores no challenge of its own making. */
  predicate Proper(s: Step) {
    s.Ai? ==> !s.step.MintStep?
  }

  predicate AllProper(steps: seq<Step>) {
    forall i :: 0 <= i < |steps| ==> Proper(steps[i])
  }

  /** What a step asks of the kernel. */
  function KernelCalls(s: Step): (calls: seq<K.Call>) {
    match s
    case Zk(call) => [call]
    case AiMint(now, eny, _, _, _) => [K.Call(K.NewChallenge, now, eny)]
    case Ai(_) => []
  }

  /** What a step asks of the AI store. */
  function AiSteps(s: Step): (steps: seq<S.Step>) {
    match s
    case Zk(_) => []
    case AiMint(_, eny, issued, target, written) => [S.MintStep(S.Mint(eny % TWO_64, issued, target), written)]
    case Ai(step) => [step]
  }

  function AllCalls(steps: seq<Step>): (calls: seq<K.Call>) {
    if |steps| == 0 then [] else AllCalls(steps[..|steps| - 1]) + KernelCalls(steps[|steps| - 1])
  }

  function AllAiSteps(steps: seq<Step>): (ai: seq<S.Step>) {
    if |steps| == 0 then [] else AllAiSteps(steps[..|steps| - 1]) + AiSteps(steps[|steps| - 1])
  }

  function KernelState(steps: seq<Step>): (s: K.State) {
    K.Run(AllCalls(steps))
  }

  function AiState(c: S.Config, steps: seq<Step>, verify: S.Verifier): (s: S.System) {
    S.Run(c, AllAiSteps(steps), verify)
  }

  function Mints(steps: seq<Step>, nonce: nat): (n: nat) {
    K.MintCount(AllCalls(steps), nonce)
  }

  function AiRuns(runs: seq<RunRecord>, nonce: nat): (n: nat) {
    if |runs| == 0 then 0 else (if runs[0].nonce == nonce then 1 else 0) + AiRuns(runs[1..], nonce)
  }

  /** Every mint the AI store saw was the kernel's. */
  ghost predicate KernelMinted(mints: seq<S.Mint>, steps: seq<Step>) {
    forall i :: 0 <= i < |mints| ==> Mints(steps, mints[i].nonce) >= 1
  }

  lemma MintsGrow(init: seq<Step>, s: Step, nonce: nat)
    ensures Mints(init + [s], nonce) == Mints(init, nonce) + K.MintCount(KernelCalls(s), nonce)
  {
    assert (init + [s])[..|init|] == init;
    var calls, more := AllCalls(init), KernelCalls(s);
    if |more| == 0 {
      assert calls + more == calls;
    } else {
      assert (calls + more)[..|calls|] == calls && more[..0] == [];
    }
  }

  /** Only a mint step extends the record of mints, and by its own mint. */
  lemma HistoryStep(s: S.System, step: S.Step, verify: S.Verifier)
    requires PossibleAppends(s.appends)
    ensures var t := S.Exec(s, step, verify);
            t.history.mints == s.history.mints
            || (step.MintStep? && t.history.mints == s.history.mints + [step.mint])
  {
  }

  lemma {:induction false} MintsAreKernels(c: S.Config, steps: seq<Step>, verify: S.Verifier)
    requires AllProper(steps)
    ensures KernelMinted(AiState(c, steps, verify).history.mints, steps)
  {
    if |steps| > 0 {
      var init, last := steps[..|steps| - 1], steps[|steps| - 1];
      MintsAreKernels(c, init, verify);
      assert init + [last] == steps && Proper(last);
      forall n: nat ensures Mints(steps, n) == Mints(init, n) + K.MintCount(KernelCalls(last), n) {
        MintsGrow(init, last, n);
      }
      AiStep(c, init, last, verify);
    }
  }

  lemma AiStep(c: S.Config, init: seq<Step>, last: Step, verify: S.Verifier)
    requires Proper(last) && KernelMinted(AiState(c, init, verify).history.mints, init)
    requires forall n: nat :: Mints(init + [last], n) == Mints(init, n) + K.MintCount(KernelCalls(last), n)
    ensures KernelMinted(AiState(c, init + [last], verify).history.mints, init + [last])
  {
    var before, more := AllAiSteps(init), AiSteps(last);
    assert (init + [last])[..|init|] == init;
    if |more| == 0 {
      assert before + more == before;
    } else {
      S.RunSnoc(c, before, more[0], verify);
      assert before + more == before + [more[0]];
      MintsFollow(S.Run(c, before, verify), init, last, more[0], verify);
    }
  }

  lemma MintsFollow(s: S.System, init: seq<Step>, last: Step, step: S.Step, verify: S.Verifier)
    requires PossibleAppends(s.appends) && Proper(last) && AiSteps(last) == [step]
    requires KernelMinted(s.history.mints, init)
    requires forall n: nat :: Mints(init + [last], n) == Mints(init, n) + K.MintCount(KernelCalls(last), n)
    ensures KernelMinted(S.Exec(s, step, verify).history.mints, init + [last])
  {
    HistoryStep(s, step, verify);
    var mints, now := s.history.mints, S.Exec(s, step, verify).history.mints;
    if now == mints {
      StillMinted(mints, init, init + [last]);
    } else {
      MintIsKernels(last, step);
      OneMoreMinted(mints, step.mint, init, init + [last]);
    }
  }

  lemma MintIsKernels(last: Step, step: S.Step)
    requires Proper(last) && AiSteps(last) == [step] && step.MintStep?
    ensures K.MintCount(KernelCalls(last), step.mint.nonce) >= 1
  {
    assert K.Mints(KernelCalls(last)[0], step.mint.nonce);
  }

  lemma StillMinted(mints: seq<S.Mint>, before: seq<Step>, after: seq<Step>)
    requires KernelMinted(mints, before) && forall n: nat :: Mints(after, n) >= Mints(before, n)
    ensures KernelMinted(mints, after)
  {
  }

  lemma OneMoreMinted(mints: seq<S.Mint>, m: S.Mint, before: seq<Step>, after: seq<Step>)
    requires KernelMinted(mints, before) && forall n: nat :: Mints(after, n) >= Mints(before, n)
    requires Mints(after, m.nonce) >= 1
    ensures KernelMinted(mints + [m], after)
  {
    StillMinted(mints, before, after);
  }

  lemma {:induction false} NoneForeign(runs: seq<RunRecord>, nonce: nat)
    requires forall i :: 0 <= i < |runs| ==> runs[i].nonce != nonce
    ensures AiRuns(runs, nonce) == 0
  {
    if |runs| > 0 { NoneForeign(runs[1..], nonce); }
  }

  lemma {:induction false} AtMostOne(runs: seq<RunRecord>, nonce: nat)
    requires S.OneRunEach(runs)
    ensures AiRuns(runs, nonce) <= 1
  {
    if |runs| > 0 {
      if runs[0].nonce == nonce { NoneForeign(runs[1..], nonce); } else { AtMostOne(runs[1..], nonce); }
    }
  }

  lemma {:induction false} SomeRun(runs: seq<RunRecord>, nonce: nat) returns (r: RunRecord)
    requires AiRuns(runs, nonce) > 0
    ensures r in runs && r.nonce == nonce
  {
    if runs[0].nonce == nonce { r := runs[0]; } else { r := SomeRun(runs[1..], nonce); }
  }

  /** One mint backs at most one run per track: whatever the interleaving, a nonce has no
      more ZK runs than the kernel minted it, no more than one AI run, and no run on
      either track if it was never minted. */
  lemma OneMintOneRunPerTrack(c: S.Config, steps: seq<Step>, verify: S.Verifier, nonce: nat)
    requires AllProper(steps) && AiState(c, steps, verify).up
    ensures K.RunCount(KernelState(steps).runs, nonce) <= Mints(steps, nonce)
    ensures AiRuns(AiState(c, steps, verify).ledger.runs, nonce) <= 1
    ensures AiRuns(AiState(c, steps, verify).ledger.runs, nonce) <= Mints(steps, nonce)
  {
    K.LedgerAlways(AllCalls(steps));
    assert K.RunCount(KernelState(steps).runs, nonce) + K.Open(KernelState(steps), nonce) <= Mints(steps, nonce);
    var runs := AiState(c, steps, verify).ledger.runs;
    S.AtMostOneRunPerNonce(c, AllAiSteps(steps), verify);
    AtMostOne(runs, nonce);
    if AiRuns(runs, nonce) > 0 {
      var r := SomeRun(runs, nonce);
      S.StoredRunsAreVerified(c, AllAiSteps(steps), verify, r);
      MintsAreKernels(c, steps, verify);
    }
  }

  /** One mint opens both tracks: after it the kernel has the nonce open since its own
      instant, and the AI store, if the whole line was written, since the millisecond and
      for the target it was given. */
  lemma MintOpensBoth(c: S.Config, steps: seq<Step>, mint: Step, verify: S.Verifier)
    requires mint.AiMint? && mint.issuedAtMs < TWO_64 && AiState(c, steps, verify).up
    requires mint.written == |Line(ChallengeMinted(mint.eny % TWO_64, mint.issuedAtMs, mint.target))|
    ensures var nonce := mint.eny % TWO_64;
            var k, l := KernelState(steps + [mint]), AiState(c, steps + [mint], verify).ledger;
            && nonce in k.challenges && k.challenges[nonce] == K.Challenge(mint.now, false)
            && nonce in l.pending && l.pending[nonce] == Pending(mint.issuedAtMs, mint.target)
            && l.runs == AiState(c, steps, verify).ledger.runs && l.used == AiState(c, steps, verify).ledger.used
  {
    assert (steps + [mint])[..|steps|] == steps;
    K.RunSnoc(AllCalls(steps), KernelCalls(mint)[0]);
    S.RunSnoc(c, AllAiSteps(steps), AiSteps(mint)[0], verify);
    MintOpensHere(S.Run(c, AllAiSteps(steps), verify), AiSteps(mint)[0], verify);
  }

  lemma MintOpensHere(s: S.System, step: S.Step, verify: S.Verifier)
    requires PossibleAppends(s.appends) && s.up && step.MintStep?
    requires step.mint.nonce < TWO_64 && step.mint.issuedAtMs < TWO_64
    requires step.written == |Line(ChallengeMinted(step.mint.nonce, step.mint.issuedAtMs, step.mint.target))|
    ensures var l := S.Exec(s, step, verify).ledger;
            && step.mint.nonce in l.pending
            && l.pending[step.mint.nonce] == Pending(step.mint.issuedAtMs, step.mint.target)
            && l.runs == s.ledger.runs && l.used == s.ledger.used
  {
  }
}
