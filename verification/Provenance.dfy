/** Where a run on the board comes from: every stored run holds, field by field, what some
    client sent, stamped with the time of a commit of the handler that took it. */
module Provenance {
  import opened Wrappers
  import opened Events
  import opened AiLedger
  import opened Submission
  import HexCodec

  /** The run holds what the submission said, submitted at time t. */
  predicate Holds(r: RunRecord, sub: Submitted, t: nat) {
    && r.nonce == sub.nonce && r.statement == sub.statement
    && r.hardware == sub.hardware && r.proverVersion == sub.proverVersion
    && r.grindElapsedMs == sub.grindElapsedMs
    && r.winExtranonces == sub.extranonces && r.k == |sub.extranonces|
    && r.submittedAtMs == t
  }

  /** Step i brought the submission, step j, later and by the same handler, committed it. */
  predicate CameBy(r: RunRecord, steps: seq<Step>, i: nat, j: nat) {
    && i < j < |steps| && steps[i].Arrive? && steps[j].CommitStep? && steps[i].id == steps[j].id
    && Holds(r, steps[i].sub, steps[j].nowMs)
  }

  ghost predicate Genuine(r: RunRecord, steps: seq<Step>) {
    exists i, j :: CameBy(r, steps, i, j)
  }

  ghost predicate GenuineEvent(e: Event, steps: seq<Step>) {
    e.RunVerified? ==> Genuine(e.run, steps)
  }

  /** The handler works on what arrived for it. */
  ghost predicate Arrived(id: nat, sub: Submitted, steps: seq<Step>) {
    exists i: nat :: i < |steps| && steps[i] == Arrive(id, sub)
  }

  ghost predicate AllArrived(hs: map<nat, Handler>, steps: seq<Step>) {
    forall id :: id in hs ==> Arrived(id, hs[id].sub, steps)
  }

  ghost predicate AllGenuine(es: seq<Event>, steps: seq<Step>) {
    forall i :: 0 <= i < |es| ==> GenuineEvent(es[i], steps)
  }

  ghost predicate RunsGenuine(runs: seq<RunRecord>, steps: seq<Step>) {
    forall i :: 0 <= i < |runs| ==> Genuine(runs[i], steps)
  }

  ghost predicate Traced(s: System, steps: seq<Step>) {
    && AllArrived(s.handlers, steps)
    && AllGenuine(Found(SurvivorsOf(s.appends)), steps) && AllGenuine(SurvivorsOf(s.appends).events, steps)
    && RunsGenuine(s.ledger.runs, steps)
  }

  // ------------------------------------------------------------------------
  // Nothing is forgotten as the execution goes on
  // ------------------------------------------------------------------------

  lemma GenuineOn(r: RunRecord, steps: seq<Step>, step: Step)
    requires Genuine(r, steps)
    ensures Genuine(r, steps + [step])
  {
    var i, j :| CameBy(r, steps, i, j);
    assert CameBy(r, steps + [step], i, j);
  }

  lemma EventsOn(es: seq<Event>, steps: seq<Step>, step: Step)
    requires AllGenuine(es, steps)
    ensures AllGenuine(es, steps + [step])
  {
    forall i | 0 <= i < |es| ensures GenuineEvent(es[i], steps + [step]) {
      assert GenuineEvent(es[i], steps);
      if es[i].RunVerified? { GenuineOn(es[i].run, steps, step); }
    }
  }

  lemma RunsOn(runs: seq<RunRecord>, steps: seq<Step>, step: Step)
    requires RunsGenuine(runs, steps)
    ensures RunsGenuine(runs, steps + [step])
  {
    forall i | 0 <= i < |runs| ensures Genuine(runs[i], steps + [step]) {
      GenuineOn(runs[i], steps, step);
    }
  }

  lemma ArrivedOn(hs: map<nat, Handler>, steps: seq<Step>, step: Step)
    requires AllArrived(hs, steps)
    ensures AllArrived(hs, steps + [step])
  {
    forall id | id in hs ensures Arrived(id, hs[id].sub, steps + [step]) {
      var i: nat :| i < |steps| && steps[i] == Arrive(id, hs[id].sub);
      assert (steps + [step])[i] == steps[i];
    }
  }

  lemma TracedOn(s: System, steps: seq<Step>, step: Step)
    requires Traced(s, steps)
    ensures Traced(s, steps + [step])
  {
    ArrivedOn(s.handlers, steps, step);
    EventsOn(Found(SurvivorsOf(s.appends)), steps, step);
    EventsOn(SurvivorsOf(s.appends).events, steps, step);
    RunsOn(s.ledger.runs, steps, step);
  }

  // ------------------------------------------------------------------------
  // Steps
  // ------------------------------------------------------------------------

  /** Runs replayed from genuine events are genuine. */
  lemma {:induction false} ReplayedGenuine(es: seq<Event>, steps: seq<Step>)
    requires AllGenuine(es, steps)
    ensures RunsGenuine(ApplyAll(EMPTY, es).runs, steps)
  {
    if |es| > 0 {
      ReplayedGenuine(es[..|es| - 1], steps);
      assert GenuineEvent(es[|es| - 1], steps);
    }
  }

  /** One more append of a genuine event. */
  lemma AppendTraced(s: System, a: Append, t: System, steps: seq<Step>)
    requires Traced(s, steps) && GenuineEvent(a.event, steps) && PossibleAppends(s.appends) && PossibleAppend(a)
    requires t.appends == s.appends + [a] && AllArrived(t.handlers, steps)
    requires t.ledger == if IsWhole(a) then Apply(s.ledger, a.event) else s.ledger
    ensures Traced(t, steps)
  {
    OneMore(s.appends, a);
    if a.written > 0 { FoundAfter(SurvivorsOf(s.appends), a); }
    RunsAfter(s.ledger, a.event, steps);
  }

  lemma RunsAfter(l: Ledger, e: Event, steps: seq<Step>)
    requires RunsGenuine(l.runs, steps) && GenuineEvent(e, steps)
    ensures RunsGenuine(Apply(l, e).runs, steps)
  {
  }

  lemma CommitTraced(s: System, id: nat, nowMs: nat, written: nat, steps: seq<Step>)
    requires PossibleAppends(s.appends) && Traced(s, steps)
    ensures Traced(ExecCommit(s, id, nowMs, written), steps + [CommitStep(id, nowMs, written)])
  {
    var step, t := CommitStep(id, nowMs, written), ExecCommit(s, id, nowMs, written);
    TracedOn(s, steps, step);
    if id in s.handlers && s.handlers[id].Verifying? && Status(s.ledger, s.handlers[id].sub.nonce, nowMs).Ok? {
      var h := s.handlers[id];
      var a := CommitAppend(s, h, nowMs, written);
      var i: nat :| i < |steps| && steps[i] == Arrive(id, h.sub);
      assert CameBy(a.event.run, steps + [step], i, |steps|);
      if t.appends != s.appends { AppendTraced(s, a, t, steps + [step]); }
    }
  }

  lemma MintTraced(s: System, m: Mint, written: nat, steps: seq<Step>)
    requires PossibleAppends(s.appends) && Traced(s, steps)
    ensures Traced(ExecMint(s, m, written), steps)
  {
    var a := Append(ChallengeMinted(m.nonce, m.issuedAtMs, m.target), written);
    if PossibleAppend(a) { AppendTraced(s, a, ExecMint(s, m, written), steps); }
  }

  lemma RestartTraced(s: System, d: Config, steps: seq<Step>)
    requires PossibleAppends(s.appends) && Traced(s, steps)
    ensures Traced(ExecRestart(s, d), steps)
  {
    ReplayExact(s.appends);
    ReplayedGenuine(Found(SurvivorsOf(s.appends)), steps);
  }

  /** Every handler there is now was there before with its submission, or is the new one. */
  predicate KeepsSubs(hs: map<nat, Handler>, gs: map<nat, Handler>) {
    forall id :: id in gs ==> id in hs && gs[id].sub == hs[id].sub
  }

  /** A step that only moves handlers on, or drops them. */
  lemma QuietTraced(s: System, t: System, steps: seq<Step>)
    requires Traced(s, steps) && KeepsSubs(s.handlers, t.handlers)
    requires t.appends == s.appends && t.ledger == s.ledger
    ensures Traced(t, steps)
  {
  }

  lemma CheckKeeps(s: System, id: nat, nowMs: nat)
    ensures var t := ExecCheck(s, id, nowMs);
            KeepsSubs(s.handlers, t.handlers) && t.appends == s.appends && t.ledger == s.ledger
  {
  }

  lemma VerifyKeeps(s: System, id: nat, verify: Verifier)
    ensures var t := ExecVerify(s, id, verify);
            KeepsSubs(s.handlers, t.handlers) && t.appends == s.appends && t.ledger == s.ledger
  {
  }

  /** An arrival brings its submission. */
  lemma ArriveTraced(s: System, id: nat, sub: Submitted, steps: seq<Step>)
    requires Traced(s, steps)
    ensures Traced(s.(handlers := s.handlers[id := Validated(sub)]), steps + [Arrive(id, sub)])
  {
    TracedOn(s, steps, Arrive(id, sub));
    assert (steps + [Arrive(id, sub)])[|steps|] == Arrive(id, sub);
  }

  lemma HandlerTraced(s: System, step: Step, steps: seq<Step>, verify: Verifier)
    requires PossibleAppends(s.appends) && s.up && Traced(s, steps) && (step.Check? || step.VerifyNext?)
    ensures Traced(Exec(s, step, verify), steps)
  {
    match step
    case Check(id, nowMs) =>
      CheckKeeps(s, id, nowMs);
      QuietTraced(s, ExecCheck(s, id, nowMs), steps);
    case VerifyNext(id) =>
      VerifyKeeps(s, id, verify);
      QuietTraced(s, ExecVerify(s, id, verify), steps);
  }

  lemma StepTraced(s: System, step: Step, steps: seq<Step>, verify: Verifier)
    requires PossibleAppends(s.appends) && Traced(s, steps)
    ensures Traced(Exec(s, step, verify), steps + [step])
  {
    TracedOn(s, steps, step);
    if step.Restart? {
      RestartTraced(s, step.config, steps + [step]);
    } else if s.up {
      LiveTraced(s, step, steps, verify);
    }
  }

  lemma LiveTraced(s: System, step: Step, steps: seq<Step>, verify: Verifier)
    requires PossibleAppends(s.appends) && s.up && Traced(s, steps) && Traced(s, steps + [step]) && !step.Restart?
    ensures Traced(Exec(s, step, verify), steps + [step])
  {
    match step
    case MintStep(m, written) => MintTraced(s, m, written, steps + [step]);
    case CommitStep(id, nowMs, written) => CommitTraced(s, id, nowMs, written, steps);
    case Arrive(id, sub) => ArriveTraced(s, id, sub, steps);
    case Check(_, _) => HandlerTraced(s, step, steps + [step], verify);
    case VerifyNext(_) => HandlerTraced(s, step, steps + [step], verify);
  }

  lemma {:induction false} AlwaysTraced(c: Config, steps: seq<Step>, verify: Verifier)
    ensures Traced(Run(c, steps, verify), steps)
  {
    if |steps| > 0 {
      var init, step := steps[..|steps| - 1], steps[|steps| - 1];
      AlwaysTraced(c, init, verify);
      StepTraced(Run(c, init, verify), step, init, verify);
      assert init + [step] == steps;
    }
  }

  /** Over every interleaving, failed append and restart, every run in memory holds what a
      client sent and the time at which its handler committed it. */
  lemma StoredRunsWereSent(c: Config, steps: seq<Step>, verify: Verifier, r: RunRecord)
    requires r in Run(c, steps, verify).ledger.runs
    ensures exists i, j :: CameBy(r, steps, i, j)
  {
    AlwaysTraced(c, steps, verify);
    assert Genuine(r, steps);
  }
}
