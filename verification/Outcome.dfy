/** What becomes of a submission: stored as sent exactly when its wins verify and its
    challenge is open both times it is looked at; otherwise it leaves no trace. */
module Outcome {
  import opened Wrappers
  import opened Numbers
  import opened Bytes
  import opened Events
  import opened AiLedger
  import opened Submission

  /** The nonce is minted, unused and at most an hour old. */
  predicate Open(l: Ledger, nonce: nat, nowMs: nat) {
    nonce !in l.used && nonce in l.pending && nowMs <= l.pending[nonce].issuedAtMs + 3_600_000
  }

  lemma OpenIff(l: Ledger, nonce: nat, nowMs: nat)
    ensures Status(l, nonce, nowMs).Ok? <==> Open(l, nonce, nowMs)
  {
  }

  /** The first n wins verify against the target. */
  predicate VerifyBelow(sub: Submitted, target: Target, verify: Verifier, n: nat) {
    && |sub.blobs| == |sub.extranonces|
    && forall i :: 0 <= i < n && i < |sub.blobs| ==>
         verify(sub.statement, sub.nonce, target, sub.extranonces[i], sub.blobs[i])
  }

  /** The system while the handler works on win n, and when a win before it was refused. */
  function Midway(s: System, id: nat, sub: Submitted, target: Target, verify: Verifier, n: nat): (v: System) {
    if VerifyBelow(sub, target, verify, n) then s.(handlers := s.handlers[id := Verifying(sub, target, n)]) else s
  }

  lemma Removed(s: System, id: nat, h: Handler)
    requires id !in s.handlers
    ensures s.handlers[id := h] - {id} == s.handlers
  {
  }

  lemma MidwayStep(s: System, id: nat, sub: Submitted, target: Target, verify: Verifier, n: nat, next: nat)
    requires s.up && PossibleAppends(s.appends) && id !in s.handlers && n < |sub.blobs| == |sub.extranonces|
    requires next == n + 1
    ensures Exec(Midway(s, id, sub, target, verify, n), VerifyNext(id), verify)
            == Midway(s, id, sub, target, verify, next)
  {
    Removed(s, id, Verifying(sub, target, n));
    if VerifyBelow(sub, target, verify, n) {
      assert s.handlers[id := Verifying(sub, target, n)][id := Verifying(sub, target, n + 1)]
             == s.handlers[id := Verifying(sub, target, n + 1)];
      assert VerifyBelow(sub, target, verify, n + 1)
             <==> verify(sub.statement, sub.nonce, target, sub.extranonces[n], sub.blobs[n]);
    } else {
      assert !VerifyBelow(sub, target, verify, n + 1);
    }
  }

  lemma NoSteps(c: Config, opening: seq<Step>, id: nat, verify: Verifier)
    ensures Run(c, opening + VerifySteps(id, 0), verify) == Run(c, opening, verify)
  {
    assert opening + VerifySteps(id, 0) == opening;
  }

  lemma OneMoreStep(c: Config, opening: seq<Step>, id: nat, n: nat, verify: Verifier)
    requires n > 0
    ensures Run(c, opening + VerifySteps(id, n), verify)
            == Exec(Run(c, opening + VerifySteps(id, n - 1), verify), VerifyNext(id), verify)
  {
    RunJoin(c, opening, VerifySteps(id, n - 1), VerifyNext(id), verify);
  }

  /** A verification takes state k to the next. */
  predicate Linked(passed: seq<System>, k: nat, verify: Verifier, id: nat)
    requires k + 1 < |passed|
  {
    PossibleAppends(passed[k].appends) && Exec(passed[k], VerifyNext(id), verify) == passed[k + 1]
  }

  /** n verifications take the system through the states it passes. */
  lemma {:induction false} Passes(c: Config, opening: seq<Step>, verify: Verifier, id: nat, passed: seq<System>, n: nat)
    requires n < |passed| && Run(c, opening, verify) == passed[0]
    requires forall k :: 0 <= k < n ==> Linked(passed, k, verify, id)
    ensures Run(c, opening + VerifySteps(id, n), verify) == passed[n]
    decreases n
  {
    if n == 0 {
      NoSteps(c, opening, id, verify);
    } else {
      Passes(c, opening, verify, id, passed, n - 1);
      OneMoreStep(c, opening, id, n, verify);
      assert Linked(passed, n - 1, verify, id);
    }
  }

  lemma VerifyPhase(c: Config, opening: seq<Step>, s: System, verify: Verifier, id: nat, sub: Submitted, target: Target)
    requires s.up && PossibleAppends(s.appends) && id !in s.handlers && |sub.blobs| == |sub.extranonces|
    requires Run(c, opening, verify) == Midway(s, id, sub, target, verify, 0)
    ensures Run(c, opening + VerifySteps(id, |sub.blobs|), verify)
            == Midway(s, id, sub, target, verify, |sub.blobs|)
  {
    var n := |sub.blobs|;
    var passed := seq(n + 1, k requires 0 <= k <= n => Midway(s, id, sub, target, verify, k));
    forall k | 0 <= k < n ensures Linked(passed, k, verify, id) {
      MidwayStep(s, id, sub, target, verify, k, k + 1);
    }
    Passes(c, opening, verify, id, passed, n);
  }

  /** A check of a challenge that is not open drops the handler. */
  lemma Unopened(v: System, s: System, id: nat, sub: Submitted, checkMs: nat)
    requires s.up && id !in s.handlers && v == s.(handlers := s.handlers[id := Validated(sub)])
    requires !Open(s.ledger, sub.nonce, checkMs)
    ensures ExecCheck(v, id, checkMs) == s
  {
    OpenIff(s.ledger, sub.nonce, checkMs);
    Removed(s, id, Validated(sub));
  }

  /** Without its handler, a verification or a commit does nothing. */
  lemma NoHandler(s: System, step: Step, id: nat, verify: Verifier)
    requires PossibleAppends(s.appends) && id !in s.handlers
    requires step == VerifyNext(id) || (step.CommitStep? && step.id == id)
    ensures Exec(s, step, verify) == s
  {
  }

  lemma {:induction false} IdlePhase(c: Config, opening: seq<Step>, s: System, verify: Verifier, id: nat, n: nat)
    requires PossibleAppends(s.appends) && id !in s.handlers && Run(c, opening, verify) == s
    ensures Run(c, opening + VerifySteps(id, n), verify) == s
    decreases n
  {
    if n == 0 {
      NoSteps(c, opening, id, verify);
    } else {
      IdlePhase(c, opening, s, verify, id, n - 1);
      OneMoreStep(c, opening, id, n, verify);
      NoHandler(s, VerifyNext(id), id, verify);
    }
  }

  /** A commit of a challenge that is no longer open drops the handler. */
  lemma Expired(v: System, s: System, id: nat, sub: Submitted, target: Target, commitMs: nat, written: nat)
    requires s.up && id !in s.handlers && |sub.blobs| == |sub.extranonces|
    requires v == s.(handlers := s.handlers[id := Verifying(sub, target, |sub.blobs|)])
    requires !Open(s.ledger, sub.nonce, commitMs)
    ensures ExecCommit(v, id, commitMs, written) == s
  {
    OpenIff(s.ledger, sub.nonce, commitMs);
    Removed(s, id, Verifying(sub, target, |sub.blobs|));
  }

  /** A commit whose append is cut short: the client is told of an error, memory stays as it
      was, and the file keeps what was written. */
  lemma AppendCut(v: System, s: System, id: nat, sub: Submitted, target: Target, commitMs: nat, written: nat)
    requires s.up && id !in s.handlers && Acceptable(sub, s.config) && Open(s.ledger, sub.nonce, commitMs)
    requires v == s.(handlers := s.handlers[id := Verifying(sub, target, |sub.blobs|)])
    requires target == VerifyTarget(s.ledger.pending[sub.nonce].target, sub.statement, s.config)
    requires var e := RunVerified(RunFor(s, sub, commitMs)); Representable(e) && written < |Line(e)|
    ensures ExecCommit(v, id, commitMs, written)
            == s.(appends := s.appends + [Append(RunVerified(RunFor(s, sub, commitMs)), written)])
  {
    OpenIff(s.ledger, sub.nonce, commitMs);
    Removed(s, id, Verifying(sub, target, |sub.blobs|));
  }

  lemma AppendWhole(v: System, s: System, id: nat, sub: Submitted, target: Target, commitMs: nat, written: nat)
    requires s.up && id !in s.handlers && Acceptable(sub, s.config) && Open(s.ledger, sub.nonce, commitMs)
    requires v == s.(handlers := s.handlers[id := Verifying(sub, target, |sub.blobs|)])
    requires target == VerifyTarget(s.ledger.pending[sub.nonce].target, sub.statement, s.config)
    requires var e := RunVerified(RunFor(s, sub, commitMs)); Representable(e) && written == |Line(e)|
    ensures ExecCommit(v, id, commitMs, written) == WithRun(s, RunFor(s, sub, commitMs))
  {
    OpenIff(s.ledger, sub.nonce, commitMs);
    Removed(s, id, Verifying(sub, target, |sub.blobs|));
  }

  /** A submission's steps: arrival, check, one verification a win, commit. */
  function Steps(id: nat, sub: Submitted, checkMs: nat, commitMs: nat, written: nat): (steps: seq<Step>) {
    [Arrive(id, sub)] + [Check(id, checkMs)] + VerifySteps(id, |sub.blobs|) + [CommitStep(id, commitMs, written)]
  }

  lemma Phases(c: Config, steps: seq<Step>, id: nat, sub: Submitted, checkMs: nat, commitMs: nat, written: nat,
               verify: Verifier)
    ensures Run(c, steps + Steps(id, sub, checkMs, commitMs, written), verify)
            == Exec(Run(c, steps + [Arrive(id, sub)] + [Check(id, checkMs)] + VerifySteps(id, |sub.blobs|), verify),
                    CommitStep(id, commitMs, written), verify)
  {
    var opening := [Arrive(id, sub)] + [Check(id, checkMs)];
    RunJoin(c, steps, opening + VerifySteps(id, |sub.blobs|), CommitStep(id, commitMs, written), verify);
    Grouped(steps, [Arrive(id, sub)], [Check(id, checkMs)], VerifySteps(id, |sub.blobs|));
  }

  /** Its wins verify against the target in force, and its challenge is open at both times. */
  predicate Earned(s: System, sub: Submitted, checkMs: nat, commitMs: nat, verify: Verifier) {
    && Open(s.ledger, sub.nonce, checkMs) && Open(s.ledger, sub.nonce, commitMs)
    && AllVerify(sub, VerifyTarget(s.ledger.pending[sub.nonce].target, sub.statement, s.config), verify)
  }

  /** After arrival and check: at work on win 0, or gone. */
  lemma Checked(c: Config, steps: seq<Step>, s: System, id: nat, sub: Submitted, checkMs: nat, verify: Verifier)
    requires s == Run(c, steps, verify) && s.up && id !in s.handlers && Acceptable(sub, s.config)
    ensures var t := Run(c, steps + [Arrive(id, sub)] + [Check(id, checkMs)], verify);
            if Open(s.ledger, sub.nonce, checkMs) then
              t == s.(handlers := s.handlers[id := Verifying(sub, VerifyTarget(s.ledger.pending[sub.nonce].target,
                                                                               sub.statement, s.config), 0)])
            else t == s
  {
    OpenIff(s.ledger, sub.nonce, checkMs);
    if Open(s.ledger, sub.nonce, checkMs) {
      var target := VerifyTarget(s.ledger.pending[sub.nonce].target, sub.statement, s.config);
      var opening := Opened(c, steps, verify, id, sub, checkMs, target);
    } else {
      RunSnoc(c, steps, Arrive(id, sub), verify);
      RunSnoc(c, steps + [Arrive(id, sub)], Check(id, checkMs), verify);
      Unopened(Run(c, steps + [Arrive(id, sub)], verify), s, id, sub, checkMs);
    }
  }

  /** After the verifications: ready to commit, or gone. */
  lemma Judged(c: Config, steps: seq<Step>, s: System, id: nat, sub: Submitted, checkMs: nat, verify: Verifier)
    requires s == Run(c, steps, verify) && s.up && id !in s.handlers && Acceptable(sub, s.config)
    ensures var t := Run(c, steps + [Arrive(id, sub)] + [Check(id, checkMs)] + VerifySteps(id, |sub.blobs|), verify);
            if Open(s.ledger, sub.nonce, checkMs) then
              t == Midway(s, id, sub, VerifyTarget(s.ledger.pending[sub.nonce].target, sub.statement, s.config),
                          verify, |sub.blobs|)
            else t == s
  {
    var opening := steps + [Arrive(id, sub)] + [Check(id, checkMs)];
    Checked(c, steps, s, id, sub, checkMs, verify);
    if Open(s.ledger, sub.nonce, checkMs) {
      var target := VerifyTarget(s.ledger.pending[sub.nonce].target, sub.statement, s.config);
      VerifyPhase(c, opening, s, verify, id, sub, target);
    } else {
      IdlePhase(c, opening, s, verify, id, |sub.blobs|);
    }
  }

  /** From every reachable state: a submission that has not earned its place leaves the
      system exactly as it was, memory, file and handlers. */
  lemma UnearnedLeavesNoTrace(c: Config, steps: seq<Step>, id: nat, sub: Submitted, checkMs: nat, commitMs: nat,
                              written: nat, verify: Verifier)
    requires var s := Run(c, steps, verify); s.up && id !in s.handlers && Acceptable(sub, s.config)
    requires !Earned(Run(c, steps, verify), sub, checkMs, commitMs, verify)
    ensures Run(c, steps + Steps(id, sub, checkMs, commitMs, written), verify) == Run(c, steps, verify)
  {
    var s := Run(c, steps, verify);
    Phases(c, steps, id, sub, checkMs, commitMs, written, verify);
    Judged(c, steps, s, id, sub, checkMs, verify);
    LastStep(s, id, sub, checkMs, commitMs, written, verify);
  }

  lemma LastStep(s: System, id: nat, sub: Submitted, checkMs: nat, commitMs: nat, written: nat, verify: Verifier)
    requires s.up && PossibleAppends(s.appends) && id !in s.handlers && Acceptable(sub, s.config)
    requires !Earned(s, sub, checkMs, commitMs, verify)
    ensures Exec(s, CommitStep(id, commitMs, written), verify) == s
    ensures Open(s.ledger, sub.nonce, checkMs) ==>
              var target := VerifyTarget(s.ledger.pending[sub.nonce].target, sub.statement, s.config);
              Exec(Midway(s, id, sub, target, verify, |sub.blobs|), CommitStep(id, commitMs, written), verify) == s
  {
    NoHandler(s, CommitStep(id, commitMs, written), id, verify);
    if Open(s.ledger, sub.nonce, checkMs) {
      var target := VerifyTarget(s.ledger.pending[sub.nonce].target, sub.statement, s.config);
      if VerifyBelow(sub, target, verify, |sub.blobs|) {
        Expired(Midway(s, id, sub, target, verify, |sub.blobs|), s, id, sub, target, commitMs, written);
      }
    }
  }

  /** A submission that has earned its place, its line written only in part: memory and
      handlers are as before, and the file has the part. */
  lemma CutCommitKeepsMemory(c: Config, steps: seq<Step>, id: nat, sub: Submitted, checkMs: nat, commitMs: nat,
                             written: nat, verify: Verifier)
      returns (r: RunRecord)
    requires var s := Run(c, steps, verify); s.up && id !in s.handlers && Acceptable(sub, s.config)
    requires Earned(Run(c, steps, verify), sub, checkMs, commitMs, verify)
    requires var e := RunVerified(RunFor(Run(c, steps, verify), sub, commitMs));
             Representable(e) && written < |Line(e)|
    ensures var s := Run(c, steps, verify);
            Records(r, s, sub, commitMs)
            && Run(c, steps + Steps(id, sub, checkMs, commitMs, written), verify)
               == s.(appends := s.appends + [Append(RunVerified(r), written)])
  {
    var s := Run(c, steps, verify);
    r := RunFor(s, sub, commitMs);
    Phases(c, steps, id, sub, checkMs, commitMs, written, verify);
    Judged(c, steps, s, id, sub, checkMs, verify);
    var target := VerifyTarget(s.ledger.pending[sub.nonce].target, sub.statement, s.config);
    AppendCut(Midway(s, id, sub, target, verify, |sub.blobs|), s, id, sub, target, commitMs, written);
  }

  /** From every reachable state: taken through its steps with its line written whole, a
      submission is stored if and only if it has earned its place. */
  lemma StoredExactlyWhenEarned(c: Config, steps: seq<Step>, id: nat, sub: Submitted, checkMs: nat, commitMs: nat,
                                written: nat, verify: Verifier)
    requires var s := Run(c, steps, verify); s.up && id !in s.handlers && Acceptable(sub, s.config)
    requires sub.nonce in Run(c, steps, verify).ledger.pending ==>
               var e := RunVerified(RunFor(Run(c, steps, verify), sub, commitMs));
               Representable(e) && written == |Line(e)|
    ensures var s, t := Run(c, steps, verify), Run(c, steps + Steps(id, sub, checkMs, commitMs, written), verify);
            (exists r :: t.ledger.runs == s.ledger.runs + [r]) <==> Earned(s, sub, checkMs, commitMs, verify)
    ensures var s, t := Run(c, steps, verify), Run(c, steps + Steps(id, sub, checkMs, commitMs, written), verify);
            Earned(s, sub, checkMs, commitMs, verify) ==>
              exists r :: Records(r, s, sub, commitMs) && StoredLast(s, t, r)
  {
    var s := Run(c, steps, verify);
    var t := Run(c, steps + Steps(id, sub, checkMs, commitMs, written), verify);
    if Earned(s, sub, checkMs, commitMs, verify) {
      Phases(c, steps, id, sub, checkMs, commitMs, written, verify);
      Judged(c, steps, s, id, sub, checkMs, verify);
      EarnedLast(s, t, id, sub, checkMs, commitMs, written, verify);
    } else {
      UnearnedLeavesNoTrace(c, steps, id, sub, checkMs, commitMs, written, verify);
      forall r ensures s.ledger.runs != s.ledger.runs + [r] {
        assert |s.ledger.runs + [r]| == |s.ledger.runs| + 1;
      }
    }
  }

  lemma EarnedLast(s: System, t: System, id: nat, sub: Submitted, checkMs: nat, commitMs: nat, written: nat,
                   verify: Verifier)
    requires s.up && PossibleAppends(s.appends) && id !in s.handlers && Acceptable(sub, s.config)
    requires Earned(s, sub, checkMs, commitMs, verify)
    requires var e := RunVerified(RunFor(s, sub, commitMs)); Representable(e) && written == |Line(e)|
    requires var target := VerifyTarget(s.ledger.pending[sub.nonce].target, sub.statement, s.config);
             t == Exec(Midway(s, id, sub, target, verify, |sub.blobs|), CommitStep(id, commitMs, written), verify)
    ensures PossibleAppends(t.appends)
    ensures exists r :: Records(r, s, sub, commitMs) && StoredLast(s, t, r)
  {
    var target := VerifyTarget(s.ledger.pending[sub.nonce].target, sub.statement, s.config);
    AppendWhole(Midway(s, id, sub, target, verify, |sub.blobs|), s, id, sub, target, commitMs, written);
    var r := RunFor(s, sub, commitMs);
    WithRunStores(s, r, t);
    assert Records(r, s, sub, commitMs);
  }
}
