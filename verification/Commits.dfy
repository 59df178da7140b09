/** What an acknowledged commit is worth across restarts: when it is on record for good,
    when a nonce can be committed twice, and that the ids in memory are unique. */
module Commits {
  import opened Wrappers
  import opened Bytes
  import opened Numbers
  import opened Events
  import opened AiLedger
  import opened Octets
  import opened Submission
  import Utf8

  /** A run whose whole line was written: the client was told that it is recorded. */
  predicate IsCommit(a: Append) {
    a.event.RunVerified? && IsWhole(a)
  }

  /** Append i began on a clean last line. */
  predicate OnCleanLine(appends: seq<Append>, i: nat)
    requires i < |appends|
  {
    SurvivorsOf(appends[..i]).tail == Clean
  }

  /** The run of append a is not yet consumed by what the log is certain to keep. */
  predicate RunIsNew(v: Survivors, a: Append) {
    a.event.RunVerified? ==> a.event.run.nonce !in ApplyAll(EMPTY, v.events).used
  }

  /** A mint of which `written` octets reach the file. */
  function MintAppend(m: Mint, written: nat): (a: Append) {
    Append(ChallengeMinted(m.nonce, m.issuedAtMs, m.target), written)
  }

  /** From s to t nothing is appended, or a, whose run's nonce is unused on record. */
  predicate Appended(s: System, t: System, a: Append) {
    t.appends == s.appends || (t.appends == s.appends + [a] && RunIsNew(SurvivorsOf(s.appends), a))
  }

  lemma MintAppends(s: System, m: Mint, written: nat)
    ensures Appended(s, ExecMint(s, m, written), MintAppend(m, written))
  {
  }

  lemma CommitAppends(s: System, id: nat, nowMs: nat, written: nat, verify: Verifier) returns (a: Append)
    requires Inv(s, verify) && s.up
    ensures Appended(s, ExecCommit(s, id, nowMs, written), a)
  {
    a := MintAppend(Mint(0, 0, None), 0);
    if id in s.handlers && s.handlers[id].Verifying? && Status(s.ledger, s.handlers[id].sub.nonce, nowMs).Ok? {
      a := CommitAppend(s, s.handlers[id], nowMs, written);
    }
  }

  lemma BootAppends(s: System, step: Step, verify: Verifier)
    requires PossibleAppends(s.appends) && (step.Restart? || !s.up)
    ensures Exec(s, step, verify).appends == s.appends
  {
  }

  /** A step appends nothing, or one event, and a run only for a nonce unused on record. */
  lemma StepAppends(s: System, step: Step, verify: Verifier) returns (a: Append)
    requires Inv(s, verify)
    ensures Appended(s, Exec(s, step, verify), a)
  {
    a := MintAppend(Mint(0, 0, None), 0);
    if step.Restart? || !s.up {
      BootAppends(s, step, verify);
    } else if step.MintStep? {
      MintAppends(s, step.mint, step.written);
      a := MintAppend(step.mint, step.written);
    } else if step.CommitStep? {
      a := CommitAppends(s, step.id, step.nowMs, step.written, verify);
    } else {
      QuietStep(s, step, verify);
    }
  }

  lemma {:induction false} UsedOf(es: seq<Event>, k: nat)
    requires k < |es| && es[k].RunVerified?
    ensures es[k].run.nonce in ApplyAll(EMPTY, es).used
  {
    if k < |es| - 1 { UsedOf(es[..|es| - 1], k); }
  }

  lemma CleanCommitLands(appends: seq<Append>, i: nat)
    requires i < |appends| && IsCommit(appends[i]) && OnCleanLine(appends, i) && appends[i].written > 0
    ensures SurvivorsOf(appends[..i + 1]).events == SurvivorsOf(appends[..i]).events + [appends[i].event]
  {
    assert appends[..i + 1][..i] == appends[..i];
  }

  lemma EventsGrow(before: seq<Append>, all: seq<Append>)
    requires before <= all
    ensures SurvivorsOf(before).events <= SurvivorsOf(all).events
  {
    var later := all[|before|..];
    assert before + later == all;
    SurvivorsPersist(before, later);
  }

  /** A commit on a clean line is among the surviving events from then on. */
  lemma CleanCommitStays(appends: seq<Append>, i: nat)
    requires i < |appends| && IsCommit(appends[i]) && OnCleanLine(appends, i) && appends[i].written > 0
    ensures appends[i].event in SurvivorsOf(appends).events
    ensures appends[i].event.run.nonce in ApplyAll(EMPTY, SurvivorsOf(appends).events).used
  {
    CleanCommitLands(appends, i);
    EventsGrow(appends[..i + 1], appends);
    Consumed(SurvivorsOf(appends[..i]).events, appends[i].event, SurvivorsOf(appends).events);
  }

  lemma Consumed(before: seq<Event>, e: Event, es: seq<Event>)
    requires e.RunVerified? && before + [e] <= es
    ensures e in es && e.run.nonce in ApplyAll(EMPTY, es).used
  {
    assert es[|before|] == e;
    UsedOf(es, |before|);
  }

  /** No nonce is committed twice, unless the earlier commit began on a spoiled line. */
  ghost predicate CommitsApart(appends: seq<Append>) {
    forall i, j :: 0 <= i < j < |appends| ==> Apart(appends, i, j)
  }

  predicate Apart(appends: seq<Append>, i: nat, j: nat)
    requires i < j < |appends|
  {
    IsCommit(appends[i]) && IsCommit(appends[j]) && appends[i].event.run.nonce == appends[j].event.run.nonce
    ==> !OnCleanLine(appends, i)
  }

  lemma LineNotEmpty(e: Event)
    ensures |Line(e)| > 0
  {
  }

  lemma AppendKeepsApart(appends: seq<Append>, a: Append)
    requires CommitsApart(appends) && RunIsNew(SurvivorsOf(appends), a)
    ensures CommitsApart(appends + [a])
  {
    var all := appends + [a];
    forall i, j | 0 <= i < j < |all| ensures Apart(all, i, j) {
      assert all[..i] == appends[..i];
      if j < |appends| {
        assert Apart(appends, i, j);
      } else if IsCommit(appends[i]) && OnCleanLine(appends, i) {
        LineNotEmpty(appends[i].event);
        CleanCommitStays(appends, i);
      }
    }
  }

  lemma {:induction false} AlwaysApart(c: Config, steps: seq<Step>, verify: Verifier)
    ensures CommitsApart(Run(c, steps, verify).appends)
  {
    if |steps| > 0 {
      var init, step := steps[..|steps| - 1], steps[|steps| - 1];
      AlwaysApart(c, init, verify);
      Reachable(c, init, verify);
      var a := StepAppends(Run(c, init, verify), step, verify);
      if Run(c, steps, verify).appends != Run(c, init, verify).appends {
        AppendKeepsApart(Run(c, init, verify).appends, a);
      }
    }
  }

  /** At most one commit per nonce over a whole execution, restarts included: if a nonce is
      committed twice, the first of the two commits began on a spoiled last line. */
  lemma CommittedTwiceOnlyAfterFragment(c: Config, steps: seq<Step>, verify: Verifier, i: nat, j: nat)
    requires i < j < |Run(c, steps, verify).appends|
    requires var appends := Run(c, steps, verify).appends;
             IsCommit(appends[i]) && IsCommit(appends[j]) && appends[i].event.run.nonce == appends[j].event.run.nonce
    ensures !OnCleanLine(Run(c, steps, verify).appends, i)
  {
    AlwaysApart(c, steps, verify);
    assert Apart(Run(c, steps, verify).appends, i, j);
  }

  /** While appends are whole, no nonce is ever committed twice. */
  lemma WholeCommitsOnce(c: Config, steps: seq<Step>, verify: Verifier, i: nat, j: nat)
    requires AllWritesWhole(c, steps, verify) && i < j < |Run(c, steps, verify).appends|
    requires var appends := Run(c, steps, verify).appends; IsCommit(appends[i]) && IsCommit(appends[j])
    ensures var appends := Run(c, steps, verify).appends;
            appends[i].event.run.nonce != appends[j].event.run.nonce
  {
    WholeHistory(c, steps, verify);
    var appends := Run(c, steps, verify).appends;
    AllWholeSurvive(appends[..i]);
    AlwaysApart(c, steps, verify);
    assert Apart(appends, i, j);
  }

  // ------------------------------------------------------------------------
  // When a commit is on record
  // ------------------------------------------------------------------------

  /** A boot from the file after these appends succeeds and has the run. */
  predicate Recorded(r: RunRecord, appends: seq<Append>)
    requires PossibleAppends(appends)
  {
    Replay(LogOf(appends)).Some? && r in Replay(LogOf(appends)).value.runs
  }

  /** Possible appends that each end between characters. */
  predicate Clear(later: seq<Append>) {
    PossibleAppends(later) && AllCutsClean(later)
  }

  lemma {:induction false} RunOfEvent(es: seq<Event>, k: nat)
    requires k < |es| && es[k].RunVerified?
    ensures es[k].run in ApplyAll(EMPTY, es).runs
  {
    if k < |es| - 1 {
      RunOfEvent(es[..|es| - 1], k);
    } else {
      var l := ApplyAll(EMPTY, es[..k]);
      assert Apply(l, es[k]).runs[|l.runs|] == es[k].run;
    }
  }

  lemma JoinedClear(appends: seq<Append>, later: seq<Append>)
    requires PossibleAppends(appends) && PossibleAppends(later)
    ensures PossibleAppends(appends + later)
    ensures AllCutsClean(appends + later) <==> AllCutsClean(appends) && AllCutsClean(later)
  {
    var all := appends + later;
    assert forall i :: 0 <= i < |appends| ==> all[i] == appends[i];
    assert forall i :: 0 <= i < |later| ==> all[|appends| + i] == later[i];
  }

  /** A whole run on a clean line of a readable file is in every boot from then on, unless
      a later cut makes the file unreadable. */
  lemma StaysRecorded(appends: seq<Append>, i: nat)
    requires PossibleAppends(appends) && AllCutsClean(appends)
    requires i < |appends| && IsCommit(appends[i]) && OnCleanLine(appends, i)
    ensures Recorded(appends[i].event.run, appends)
  {
    LineNotEmpty(appends[i].event);
    CleanCommitStays(appends, i);
    ReplayExact(appends);
    var es, k := SurvivorsOf(appends).events, 0;
    k :| 0 <= k < |es| && es[k] == appends[i].event;
    assert Found(SurvivorsOf(appends))[k] == es[k];
    RunOfEvent(Found(SurvivorsOf(appends)), k);
  }

  /** A whole run on a spoiled line is in no boot right after it. */
  lemma LostAtOnce(s: System, a: Append, verify: Verifier)
    requires Inv(s, verify) && PossibleAppend(a) && IsCommit(a) && RunIsNew(SurvivorsOf(s.appends), a)
    requires SurvivorsOf(s.appends).tail != Clean
    ensures PossibleAppends(s.appends + [a]) && !Recorded(a.event.run, s.appends + [a])
  {
    var v := SurvivorsOf(s.appends);
    LineNotEmpty(a.event);
    OneMore(s.appends, a);
    ReplayExact(s.appends + [a]);
    FoundAfter(v, a);
  }

  /** An acknowledged run is in every later boot of a file no later append makes unreadable
      exactly when the file was a string ending with a line break before it. */
  lemma CommitIsDurableExactly(s: System, a: Append, verify: Verifier)
    requires Inv(s, verify) && PossibleAppend(a) && IsCommit(a) && RunIsNew(SurvivorsOf(s.appends), a)
    ensures forall later :: Clear(later) ==> PossibleAppends(s.appends + [a] + later)
    ensures (forall later :: Clear(later) ==> Recorded(a.event.run, s.appends + [a] + later))
            <==> Utf8.Valid(LogOf(s.appends)) && EndsLine(LogOf(s.appends))
  {
    OneMore(s.appends, a);
    WholeCutsCleanly(a);
    LogValidIff(s.appends);
    CleanMeansEnded(s.appends);
    forall later | Clear(later)
      ensures PossibleAppends(s.appends + [a] + later)
      ensures AllCutsClean(s.appends) && SurvivorsOf(s.appends).tail == Clean
              ==> Recorded(a.event.run, s.appends + [a] + later)
    {
      var all := s.appends + [a] + later;
      JoinedClear(s.appends + [a], later);
      assert all[..|s.appends|] == s.appends && all[|s.appends|] == a;
      if AllCutsClean(s.appends) && SurvivorsOf(s.appends).tail == Clean { StaysRecorded(all, |s.appends|); }
    }
    assert Clear([]) && s.appends + [a] + [] == s.appends + [a];
    if !AllCutsClean(s.appends) {
      ReplayExact(s.appends + [a]);
    } else if SurvivorsOf(s.appends).tail != Clean {
      LostAtOnce(s, a, verify);
    }
  }

  // ------------------------------------------------------------------------
  // Ids
  // ------------------------------------------------------------------------

  /** Ids ascend with the order of storing, all below the next one. */
  ghost predicate IdsGood(l: Ledger) {
    && (forall i, j :: 0 <= i < j < |l.runs| ==> l.runs[i].id < l.runs[j].id)
    && (forall i :: 0 <= i < |l.runs| ==> l.runs[i].id < l.nextId)
    && l.nextId >= 1
  }

  lemma ApplyIds(l: Ledger, e: Event)
    requires IdsGood(l) && (e.RunVerified? ==> e.run.id >= l.nextId)
    ensures IdsGood(Apply(l, e)) && Apply(l, e).nextId >= l.nextId
  {
  }

  ghost predicate IdsInv(s: System) {
    var v := SurvivorsOf(s.appends);
    && IdsGood(ApplyAll(EMPTY, v.events)) && IdsGood(ApplyAll(EMPTY, Found(v)))
    && (s.up ==> IdsGood(s.ledger) && ApplyAll(EMPTY, v.events).nextId <= s.ledger.nextId)
  }

  lemma AppendIds(s: System, a: Append, t: System)
    requires IdsInv(s) && s.up && PossibleAppends(s.appends) && PossibleAppend(a)
    requires a.event.RunVerified? ==> a.event.run.id == s.ledger.nextId
    requires t.up && t.appends == s.appends + [a]
    requires t.ledger == if IsWhole(a) then Apply(s.ledger, a.event) else s.ledger
    ensures IdsInv(t)
  {
    var v := SurvivorsOf(s.appends);
    OneMore(s.appends, a);
    ApplyIds(s.ledger, a.event);
    ApplyIds(ApplyAll(EMPTY, v.events), a.event);
    ApplyAllSnoc(EMPTY, v.events, a.event);
    if a.written > 0 { FoundAfter(v, a); }
  }

  lemma MintIds(s: System, m: Mint, written: nat)
    requires IdsInv(s) && s.up && PossibleAppends(s.appends)
    ensures IdsInv(ExecMint(s, m, written))
  {
    var a := MintAppend(m, written);
    if PossibleAppend(a) { AppendIds(s, a, ExecMint(s, m, written)); }
  }

  lemma CommitIds(s: System, id: nat, nowMs: nat, written: nat)
    requires IdsInv(s) && s.up && PossibleAppends(s.appends)
    ensures IdsInv(ExecCommit(s, id, nowMs, written))
  {
    var t := ExecCommit(s, id, nowMs, written);
    if id in s.handlers && s.handlers[id].Verifying? && Status(s.ledger, s.handlers[id].sub.nonce, nowMs).Ok? {
      var a := CommitAppend(s, s.handlers[id], nowMs, written);
      if t.appends != s.appends { AppendIds(s, a, t); }
    }
  }

  lemma RestartIds(s: System, c: Config)
    requires IdsInv(s) && PossibleAppends(s.appends)
    ensures IdsInv(ExecRestart(s, c))
  {
    var v := SurvivorsOf(s.appends);
    ReplayExact(s.appends);
    if v.tail.Unended? {
      ApplyAllSnoc(EMPTY, v.events, v.tail.event);
    } else {
      assert Found(v) == v.events;
    }
  }

  lemma StepIds(s: System, step: Step, verify: Verifier)
    requires IdsInv(s) && PossibleAppends(s.appends)
    ensures IdsInv(Exec(s, step, verify))
  {
    if step.Restart? {
      RestartIds(s, step.config);
    } else if s.up && step.MintStep? {
      MintIds(s, step.mint, step.written);
    } else if s.up && step.CommitStep? {
      CommitIds(s, step.id, step.nowMs, step.written);
    } else {
      QuietStep(s, step, verify);
    }
  }

  /** Only mints, commits and restarts touch the ledger and the file. */
  lemma QuietStep(s: System, step: Step, verify: Verifier)
    requires PossibleAppends(s.appends) && !step.Restart? && (s.up ==> !step.MintStep? && !step.CommitStep?)
    ensures var t := Exec(s, step, verify); t.up == s.up && t.ledger == s.ledger && t.appends == s.appends
  {
  }

  /** Over every interleaving, failed append and restart, the ids of the stored runs are
      unique and ascend in the order of storing, and the next id is free. */
  lemma {:induction false} IdsAreUnique(c: Config, steps: seq<Step>, verify: Verifier)
    ensures IdsInv(Run(c, steps, verify))
    ensures Run(c, steps, verify).up ==> IdsGood(Run(c, steps, verify).ledger)
  {
    if |steps| > 0 {
      IdsAreUnique(c, steps[..|steps| - 1], verify);
      StepIds(Run(c, steps[..|steps| - 1], verify), steps[|steps| - 1], verify);
    }
  }

  // ------------------------------------------------------------------------
  // When a nonce can be committed again
  // ------------------------------------------------------------------------

  /** From append lo on, some run of the nonce is committed. */
  ghost predicate CommittedFrom(appends: seq<Append>, lo: nat, nonce: nat) {
    exists j :: lo <= j < |appends| && IsCommit(appends[j]) && appends[j].event.run.nonce == nonce
  }

  /** After these steps some continuation commits the nonce, at append lo or later. */
  ghost predicate Repeats(c: Config, steps: seq<Step>, verify: Verifier, lo: nat, nonce: nat) {
    exists more: seq<Step> :: CommittedFrom(Run(c, steps + more, verify).appends, lo, nonce)
  }

  lemma {:induction false} AppendsGrow(c: Config, steps: seq<Step>, more: seq<Step>, verify: Verifier)
    ensures Run(c, steps, verify).appends <= Run(c, steps + more, verify).appends
    decreases |more|
  {
    if |more| == 0 {
      assert steps + more == steps;
    } else {
      var init, step := more[..|more| - 1], more[|more| - 1];
      AppendsGrow(c, steps, init, verify);
      RunLast(c, steps, more, verify);
      Reachable(c, steps + init, verify);
      var a := StepAppends(Run(c, steps + init, verify), step, verify);
    }
  }

  /** What a commit step had before it: a fully verified handler of the same boot whose
      target some mint of the nonce pledged, and an unused nonce. */
  lemma CommitFacts(s: System, id: nat, nowMs: nat, written: nat, a: Append, verify: Verifier)
      returns (sub: Submitted, pledged: Option<Target>)
    requires Inv(s, verify) && s.up && ExecCommit(s, id, nowMs, written).appends == s.appends + [a] && IsCommit(a)
    ensures PossibleAppend(a) && RunIsNew(SurvivorsOf(s.appends), a)
    ensures Acceptable(sub, s.config) && a.event.run.nonce == sub.nonce && sub.nonce !in s.ledger.used
    ensures a.event.run.id == s.ledger.nextId < TWO_64 && nowMs < TWO_64
    ensures AllVerify(sub, VerifyTarget(pledged, sub.statement, s.config), verify)
    ensures var t := ExecCommit(s, id, nowMs, written);
            t.up && t.config == s.config && t.ledger == Apply(s.ledger, a.event)
  {
    var h := s.handlers[id];
    assert HandlerGood(h, s.config, s.history, verify);
    assert (s.appends + [a])[|s.appends|] == a == CommitAppend(s, h, nowMs, written);
    sub := h.sub;
    var m :| m in s.history.mints && m.nonce == sub.nonce
             && h.target == VerifyTarget(m.target, sub.statement, s.config);
    pledged := m.target;
  }

  /** A file that some cut has made unreadable is never loaded again, and within its last
      boot the nonce is used. */
  ghost predicate Sealed(s: System, lo: nat, nonce: nat) {
    && PossibleAppends(s.appends) && !AllCutsClean(s.appends)
    && (s.up ==> nonce in s.ledger.used)
    && !CommittedFrom(s.appends, lo, nonce)
  }

  lemma SealedAppend(s: System, t: System, a: Append, lo: nat, nonce: nat)
    requires Sealed(s, lo, nonce) && s.up && PossibleAppend(a) && t.appends == s.appends + [a]
    requires a.event.RunVerified? ==> a.event.run.nonce != nonce
    requires t.ledger == if IsWhole(a) then Apply(s.ledger, a.event) else s.ledger
    ensures Sealed(t, lo, nonce)
  {
    OneMore(s.appends, a);
  }

  lemma SealedStep(s: System, step: Step, verify: Verifier, lo: nat, nonce: nat)
    requires Sealed(s, lo, nonce)
    ensures Sealed(Exec(s, step, verify), lo, nonce)
  {
    var t := Exec(s, step, verify);
    match step
    case MintStep(m, written) =>
      if t.appends != s.appends {
        SealedAppend(s, t, MintAppend(m, written), lo, nonce);
      }
    case CommitStep(id, nowMs, written) =>
      if t.appends != s.appends {
        SealedAppend(s, t, CommitAppend(s, s.handlers[id], nowMs, written), lo, nonce);
      }
    case Restart(_) => ReplayExact(s.appends);
    case Arrive(_, _) =>
    case Check(_, _) =>
    case VerifyNext(_) =>
  }

  lemma {:induction false} StaysSealed(c: Config, steps: seq<Step>, more: seq<Step>, verify: Verifier, lo: nat,
                                       nonce: nat)
    requires Sealed(Run(c, steps, verify), lo, nonce)
    ensures Sealed(Run(c, steps + more, verify), lo, nonce)
    decreases |more|
  {
    if |more| == 0 {
      assert steps + more == steps;
    } else {
      var init, step := more[..|more| - 1], more[|more| - 1];
      StaysSealed(c, steps, init, verify, lo, nonce);
      RunLast(c, steps, more, verify);
      SealedStep(Run(c, steps + init, verify), step, verify, lo, nonce);
    }
  }

  /** No continuation repeats a commit that began on a clean line, or in a file that was no
      string. */
  lemma NeverRepeats(c: Config, steps: seq<Step>, verify: Verifier, s: System, t: System, a: Append, more: seq<Step>)
    requires PossibleAppends(s.appends) && t == Run(c, steps, verify) && t.appends == s.appends + [a] && IsCommit(a)
    requires t.up && a.event.run.nonce in t.ledger.used
    requires SurvivorsOf(s.appends).tail == Clean || !AllCutsClean(s.appends)
    ensures !CommittedFrom(Run(c, steps + more, verify).appends, |t.appends|, a.event.run.nonce)
  {
    var n, nonce := |s.appends|, a.event.run.nonce;
    var all := Run(c, steps + more, verify).appends;
    AppendsGrow(c, steps, more, verify);
    assert all[..n] == s.appends && all[n] == a;
    if SurvivorsOf(s.appends).tail == Clean {
      AlwaysApart(c, steps + more, verify);
      forall j | n < j < |all| ensures !(IsCommit(all[j]) && all[j].event.run.nonce == nonce) {
        assert Apart(all, n, j);
      }
    } else {
      JoinedClear(s.appends, [a]);
      StaysSealed(c, steps, more, verify, |t.appends|, nonce);
    }
  }

  /** A boot from a readable file whose last commit began on a spoiled line: the run is
      gone, its nonce and its id are free. */
  lemma BootForgets(s: System, t: System, a: Append, verify: Verifier) returns (u: System)
    requires Inv(s, verify) && IdsInv(s) && s.up && PossibleAppend(a) && IsCommit(a)
    requires RunIsNew(SurvivorsOf(s.appends), a) && t.appends == s.appends + [a]
    requires SurvivorsOf(s.appends).tail != Clean && AllCutsClean(s.appends)
    ensures PossibleAppends(t.appends) && u == Exec(t, Restart(t.config), verify)
    ensures Without(u, s, t, a.event.run.nonce)
  {
    LostInFile(s.appends, a);
    RecordKnowsLess(s, verify);
    u := Booted(t, ApplyAll(EMPTY, SurvivorsOf(s.appends).events), verify);
  }

  lemma RecordKnowsLess(s: System, verify: Verifier)
    requires Inv(s, verify) && IdsInv(s) && s.up
    ensures var l := ApplyAll(EMPTY, SurvivorsOf(s.appends).events);
            l.used <= s.ledger.used && 1 <= l.nextId <= s.ledger.nextId
  {
  }

  lemma Booted(t: System, l: Ledger, verify: Verifier) returns (u: System)
    requires PossibleAppends(t.appends) && Replay(LogOf(t.appends)) == Some(l)
    ensures u == Exec(t, Restart(t.config), verify)
    ensures u.up && u.ledger == l && u.config == t.config && u.handlers == map[] && u.appends == t.appends
  {
    u := ExecRestart(t, t.config);
  }

  lemma LostInFile(appends: seq<Append>, a: Append)
    requires PossibleAppends(appends) && PossibleAppend(a) && IsCommit(a)
    requires SurvivorsOf(appends).tail != Clean && AllCutsClean(appends)
    ensures PossibleAppends(appends + [a])
    ensures Replay(LogOf(appends + [a])) == Some(ApplyAll(EMPTY, SurvivorsOf(appends).events))
  {
    LineNotEmpty(a.event);
    OneMore(appends, a);
    WholeCutsCleanly(a);
    ReplayExact(appends + [a]);
    FoundAfter(SurvivorsOf(appends), a);
  }

  /** Boot u of the file of t knows no more than s did, and the nonce is free. */
  predicate Without(u: System, s: System, t: System, nonce: nat) {
    && u.up && u.config == t.config && u.handlers == map[] && u.appends == t.appends
    && nonce !in u.ledger.used && u.ledger.used <= s.ledger.used
    && 1 <= u.ledger.nextId <= s.ledger.nextId
  }

  /** A challenge minted anew is open to a submission that verifies against it. */
  lemma MintedAnew(u: System, m: Mint, sub: Submitted, verify: Verifier) returns (w: System)
    requires u.up && u.handlers == map[] && PossibleAppends(u.appends) && Acceptable(sub, u.config)
    requires sub.nonce == m.nonce && m.nonce !in u.ledger.used && m.issuedAtMs < TWO_64 && u.ledger.nextId < TWO_64
    requires AllVerify(sub, VerifyTarget(m.target, sub.statement, u.config), verify)
    ensures w == Exec(u, WholeMint(m), verify)
    ensures w.appends == u.appends + [WholeAppend(ChallengeMinted(m.nonce, m.issuedAtMs, m.target))]
    ensures w.ledger.nextId == u.ledger.nextId && Honest(w, 0, sub, m.issuedAtMs, m.issuedAtMs, verify)
  {
    w := Exec(u, WholeMint(m), verify);
    assert w.ledger == Apply(u.ledger, ChallengeMinted(m.nonce, m.issuedAtMs, m.target));
  }

  /** From a boot with the nonce free: minted again, submitted, committed. */
  lemma RepeatsAfterBoot(c: Config, steps: seq<Step>, verify: Verifier, u: System, m: Mint, sub: Submitted)
      returns (more: seq<Step>)
    requires u == Run(c, steps, verify) && u.up && u.handlers == map[] && Acceptable(sub, u.config)
    requires sub.nonce == m.nonce && m.nonce !in u.ledger.used && m.issuedAtMs < TWO_64 && u.ledger.nextId < TWO_64
    requires AllVerify(sub, VerifyTarget(m.target, sub.statement, u.config), verify)
    ensures CommittedNext(u, Run(c, steps + more, verify).appends, sub.nonce)
  {
    RunSnoc(c, steps, WholeMint(m), verify);
    var w := MintedAnew(u, m, sub, verify);
    var rest := StoredFrom(c, steps + [WholeMint(m)], w, verify, 0, sub, m.issuedAtMs, m.issuedAtMs);
    more := [WholeMint(m)] + rest;
    RunRegrouped(c, steps, [WholeMint(m)], rest, verify);
    StoredNext(u, w, m, sub);
  }

  /** After a mint, a run of the nonce was committed under the next id of u. */
  predicate CommittedNext(u: System, all: seq<Append>, nonce: nat) {
    var n := |u.appends|;
    && |all| == n + 2 && all[..n] == u.appends
    && IsCommit(all[n + 1]) && all[n + 1].event.run.nonce == nonce && all[n + 1].event.run.id == u.ledger.nextId
  }

  lemma StoredNext(u: System, w: System, m: Mint, sub: Submitted)
    requires w.appends == u.appends + [WholeAppend(ChallengeMinted(m.nonce, m.issuedAtMs, m.target))]
    requires w.ledger.nextId == u.ledger.nextId && sub.nonce in w.ledger.pending
    ensures CommittedNext(u, WithRun(w, RunFor(w, sub, m.issuedAtMs)).appends, sub.nonce)
  {
  }

  lemma RepeatsThroughBoot(c: Config, steps: seq<Step>, d: Config, verify: Verifier, u: System, m: Mint, sub: Submitted)
    requires u == Run(c, steps + [Restart(d)], verify) && u.up && u.handlers == map[] && Acceptable(sub, u.config)
    requires sub.nonce == m.nonce && m.nonce !in u.ledger.used && m.issuedAtMs < TWO_64 && u.ledger.nextId < TWO_64
    requires AllVerify(sub, VerifyTarget(m.target, sub.statement, u.config), verify)
    ensures Repeats(c, steps, verify, |u.appends|, sub.nonce)
  {
    var rest := RepeatsAfterBoot(c, steps + [Restart(d)], verify, u, m, sub);
    var more := [Restart(d)] + rest;
    RunRegrouped(c, steps, [Restart(d)], rest, verify);
    assert CommittedFrom(Run(c, steps + more, verify).appends, |u.appends|, sub.nonce);
  }

  lemma RepeatsAfterFragment(c: Config, steps: seq<Step>, verify: Verifier, s: System, t: System, a: Append,
                             sub: Submitted, m: Mint)
    requires Inv(s, verify) && IdsInv(s) && s.up && PossibleAppend(a) && IsCommit(a)
    requires RunIsNew(SurvivorsOf(s.appends), a) && SurvivorsOf(s.appends).tail != Clean && AllCutsClean(s.appends)
    requires t == Run(c, steps, verify) && t.appends == s.appends + [a] && t.config == s.config
    requires Acceptable(sub, s.config) && sub.nonce == m.nonce == a.event.run.nonce
    requires m.issuedAtMs < TWO_64 && s.ledger.nextId < TWO_64
    requires AllVerify(sub, VerifyTarget(m.target, sub.statement, s.config), verify)
    ensures Repeats(c, steps, verify, |t.appends|, sub.nonce)
  {
    var u := BootForgets(s, t, a, verify);
    RunSnoc(c, steps, Restart(t.config), verify);
    RepeatsThroughBoot(c, steps, t.config, verify, u, m, sub);
  }

  /** One commit per nonce over restarts, exactly: from every reachable state, after a run
      is acknowledged, some continuation acknowledges its nonce again if and only if the
      file was a string that did not end with a line break. */
  lemma CommitRepeatsExactly(c: Config, steps: seq<Step>, id: nat, nowMs: nat, written: nat, a: Append,
                             verify: Verifier)
    requires Run(c, steps, verify).up && IsCommit(a)
    requires Run(c, steps + [CommitStep(id, nowMs, written)], verify).appends == Run(c, steps, verify).appends + [a]
    ensures var log := LogOf(Run(c, steps, verify).appends);
            Repeats(c, steps + [CommitStep(id, nowMs, written)], verify, |Run(c, steps, verify).appends| + 1,
                    a.event.run.nonce)
            <==> Utf8.Valid(log) && !EndsLine(log)
  {
    var step, s := CommitStep(id, nowMs, written), Run(c, steps, verify);
    RunSnoc(c, steps, step, verify);
    Reachable(c, steps, verify);
    IdsAreUnique(c, steps, verify);
    RepeatsAfter(c, steps + [step], verify, s, Run(c, steps + [step], verify), id, nowMs, written, a);
  }

  lemma RepeatsAfter(c: Config, steps: seq<Step>, verify: Verifier, s: System, t: System, id: nat, nowMs: nat,
                     written: nat, a: Append)
    requires Inv(s, verify) && IdsInv(s) && s.up && t == Run(c, steps, verify)
    requires t == ExecCommit(s, id, nowMs, written) && t.appends == s.appends + [a] && IsCommit(a)
    ensures |t.appends| == |s.appends| + 1
    ensures Repeats(c, steps, verify, |t.appends|, a.event.run.nonce)
            <==> Utf8.Valid(LogOf(s.appends)) && !EndsLine(LogOf(s.appends))
  {
    RepeatsIff(c, steps, verify, s, t, id, nowMs, written, a);
    LogValidIff(s.appends);
    CleanMeansEnded(s.appends);
  }

  lemma RepeatsIff(c: Config, steps: seq<Step>, verify: Verifier, s: System, t: System, id: nat, nowMs: nat,
                   written: nat, a: Append)
    requires Inv(s, verify) && IdsInv(s) && s.up && t == Run(c, steps, verify)
    requires t == ExecCommit(s, id, nowMs, written) && t.appends == s.appends + [a] && IsCommit(a)
    ensures Repeats(c, steps, verify, |t.appends|, a.event.run.nonce)
            <==> SurvivorsOf(s.appends).tail != Clean && AllCutsClean(s.appends)
  {
    var sub, pledged := CommitFacts(s, id, nowMs, written, a, verify);
    if SurvivorsOf(s.appends).tail == Clean || !AllCutsClean(s.appends) {
      NoneRepeats(c, steps, verify, s, t, a);
    } else {
      RepeatsAfterFragment(c, steps, verify, s, t, a, sub, Mint(sub.nonce, nowMs, pledged));
    }
  }

  lemma NoneRepeats(c: Config, steps: seq<Step>, verify: Verifier, s: System, t: System, a: Append)
    requires PossibleAppends(s.appends) && t == Run(c, steps, verify) && t.appends == s.appends + [a] && IsCommit(a)
    requires t.up && a.event.run.nonce in t.ledger.used
    requires SurvivorsOf(s.appends).tail == Clean || !AllCutsClean(s.appends)
    ensures !Repeats(c, steps, verify, |t.appends|, a.event.run.nonce)
  {
    forall more: seq<Step>
      ensures !CommittedFrom(Run(c, steps + more, verify).appends, |t.appends|, a.event.run.nonce)
    {
      NeverRepeats(c, steps, verify, s, t, a, more);
    }
  }

  // ------------------------------------------------------------------------
  // What a fragment does to ids and to the boot
  // ------------------------------------------------------------------------

  lemma TornMint(c: Config, m: Mint, torn: Mint, written: nat, verify: Verifier) returns (s: System)
    requires m.nonce < TWO_64 && m.issuedAtMs < TWO_64
    requires var a := MintAppend(torn, written); PossibleAppend(a) && !IsWhole(a)
    ensures s == Run(c, [WholeMint(m)] + [MintStep(torn, written)], verify)
    ensures s == Minted(c, m).(appends := Minted(c, m).appends + [MintAppend(torn, written)],
                               history := History([m] + [torn], [c]))
  {
    FirstMint(c, m, verify);
    RunSnoc(c, [WholeMint(m)], MintStep(torn, written), verify);
    s := Exec(Minted(c, m), MintStep(torn, written), verify);
  }

  lemma FreshIsHonest(s: System, m: Mint, sub: Submitted, verify: Verifier)
    requires s.up && s.handlers == map[] && Acceptable(sub, s.config) && sub.nonce == m.nonce
    requires m.issuedAtMs < TWO_64 && s.ledger == EMPTY.(pending := map[m.nonce := Pending(m.issuedAtMs, m.target)])
    requires AllVerify(sub, VerifyTarget(m.target, sub.statement, s.config), verify)
    ensures Honest(s, 0, sub, m.issuedAtMs, m.issuedAtMs, verify)
  {
  }

  lemma TornTail(c: Config, m: Mint, torn: Mint, written: nat)
    requires m.nonce < TWO_64 && m.issuedAtMs < TWO_64
    requires var a := MintAppend(torn, written);
             PossibleAppend(a) && 0 < a.written && !IsWhole(a) && CutsCleanly(a)
    ensures var appends := Minted(c, m).appends + [MintAppend(torn, written)];
            PossibleAppends(appends) && AllCutsClean(appends) && SurvivorsOf(appends).tail != Clean
  {
    AllWholeSurvive(Minted(c, m).appends);
    OneMore(Minted(c, m).appends, MintAppend(torn, written));
  }

  /** Acknowledged ids are not unique: after a fragment and a boot, another client's run is
      acknowledged under the id the first client was given. With the same mint and the same
      submission it is the same run again. */
  lemma OneIdTwoRuns(c: Config, m: Mint, sub: Submitted, torn: Mint, written: nat, other: Mint, next: Submitted,
                     verify: Verifier)
      returns (steps: seq<Step>)
    requires Acceptable(sub, c) && sub.nonce == m.nonce && m.issuedAtMs < TWO_64
    requires Acceptable(next, c) && next.nonce == other.nonce && other.issuedAtMs < TWO_64
    requires AllVerify(sub, VerifyTarget(m.target, sub.statement, c), verify)
    requires AllVerify(next, VerifyTarget(other.target, next.statement, c), verify)
    requires var a := MintAppend(torn, written);
             PossibleAppend(a) && 0 < a.written && !IsWhole(a) && CutsCleanly(a)
    ensures var appends := Run(c, steps, verify).appends;
            && |appends| == 5 && IsCommit(appends[2]) && IsCommit(appends[4])
            && appends[2].event.run.nonce == sub.nonce && appends[4].event.run.nonce == next.nonce
            && appends[2].event.run.id == appends[4].event.run.id == 1
  {
    var begun, s, a := FirstOwner(c, m, sub, torn, written, verify);
    var t := Run(c, begun, verify);
    assert t.appends[2] == a;
    steps := NextOwner(c, begun, s, t, a, other, next, verify);
    assert Run(c, steps, verify).appends[2] == Run(c, steps, verify).appends[..3][2];
  }

  lemma FirstOwner(c: Config, m: Mint, sub: Submitted, torn: Mint, written: nat, verify: Verifier)
      returns (begun: seq<Step>, s: System, a: Append)
    requires Acceptable(sub, c) && sub.nonce == m.nonce && m.issuedAtMs < TWO_64
    requires AllVerify(sub, VerifyTarget(m.target, sub.statement, c), verify)
    requires var a := MintAppend(torn, written);
             PossibleAppend(a) && 0 < a.written && !IsWhole(a) && CutsCleanly(a)
    ensures Inv(s, verify) && IdsInv(s) && s.up && s.ledger.used == {} && s.ledger.nextId == 1 && |s.appends| == 2
    ensures SurvivorsOf(s.appends).tail != Clean && AllCutsClean(s.appends)
    ensures Run(c, begun, verify).appends == s.appends + [a] && Run(c, begun, verify).config == c
    ensures IsCommit(a) && a.event.run.nonce == sub.nonce && a.event.run.id == 1
  {
    var opening := [WholeMint(m)] + [MintStep(torn, written)];
    s := TornMint(c, m, torn, written, verify);
    FreshIsHonest(s, m, sub, verify);
    TornTail(c, m, torn, written);
    Reachable(c, opening, verify);
    IdsAreUnique(c, opening, verify);
    var first := StoredFrom(c, opening, s, verify, 0, sub, m.issuedAtMs, m.issuedAtMs);
    begun := opening + first;
    a := WholeAppend(RunVerified(RunFor(s, sub, m.issuedAtMs)));
  }

  lemma NextOwner(c: Config, begun: seq<Step>, s: System, t: System, a: Append, other: Mint, next: Submitted,
                  verify: Verifier)
      returns (steps: seq<Step>)
    requires Inv(s, verify) && IdsInv(s) && s.up && IsCommit(a) && s.ledger.used == {} && s.ledger.nextId == 1
    requires SurvivorsOf(s.appends).tail != Clean && AllCutsClean(s.appends)
    requires t == Run(c, begun, verify) && t.appends == s.appends + [a] && t.config == c
    requires Acceptable(next, c) && next.nonce == other.nonce && other.issuedAtMs < TWO_64
    requires AllVerify(next, VerifyTarget(other.target, next.statement, c), verify)
    ensures var all := Run(c, steps, verify).appends;
            && |all| == |t.appends| + 2 && all[..|t.appends|] == t.appends && IsCommit(all[|t.appends| + 1])
            && all[|t.appends| + 1].event.run.nonce == next.nonce && all[|t.appends| + 1].event.run.id == 1
  {
    assert t.appends[|s.appends|] == a && PossibleAppend(a);
    var u := BootForgets(s, t, a, verify);
    RunSnoc(c, begun, Restart(t.config), verify);
    var rest := RepeatsAfterBoot(c, begun + [Restart(t.config)], verify, u, other, next);
    steps := begun + [Restart(t.config)] + rest;
  }

  /** A process that cannot boot from its file, nor ever will. */
  ghost predicate Down(s: System) {
    !s.up && PossibleAppends(s.appends) && !AllCutsClean(s.appends)
  }

  lemma {:induction false} StaysDown(c: Config, steps: seq<Step>, more: seq<Step>, verify: Verifier)
    requires Down(Run(c, steps, verify))
    ensures Down(Run(c, steps + more, verify))
    decreases |more|
  {
    if |more| == 0 {
      assert steps + more == steps;
    } else {
      var init, step := more[..|more| - 1], more[|more| - 1];
      StaysDown(c, steps, init, verify);
      RunLast(c, steps, more, verify);
      DownStep(Run(c, steps + init, verify), step, verify);
    }
  }

  lemma DownStep(s: System, step: Step, verify: Verifier)
    requires Down(s)
    ensures Down(Exec(s, step, verify))
  {
    if step.Restart? { NoBoot(s, step.config, verify); }
  }

  /** A cut of the run's line inside a character. */
  lemma CutOf(r: RunRecord) returns (n: nat)
    requires !Ascii(r.hardware) && Representable(RunVerified(r))
    ensures n < |Line(RunVerified(r))| && !Utf8.Valid(Line(RunVerified(r))[..n])
  {
    var line := Line(RunVerified(r));
    ForeignHardware(r);
    Utf8.CutsIff(line);
    n :| 0 <= n <= |line| && !Utf8.Valid(line[..n]);
    WholeCutsCleanly(WholeAppend(RunVerified(r)));
    assert line[..|line|] == line;
  }

  lemma RunIsRepresentable(s: System, sub: Submitted, commitMs: nat)
    requires Acceptable(sub, s.config) && sub.nonce in s.ledger.pending
    requires s.ledger.pending[sub.nonce].issuedAtMs < TWO_64 && commitMs < TWO_64 && s.ledger.nextId < TWO_64
    ensures Representable(RunVerified(RunFor(s, sub, commitMs)))
  {
    HexText(VerifyTarget(s.ledger.pending[sub.nonce].target, sub.statement, s.config));
  }

  lemma TornCommit(v: System, s: System, id: nat, sub: Submitted, target: Target, commitMs: nat, n: nat)
    requires v == s.(handlers := s.handlers[id := Verifying(sub, target, |sub.blobs|)])
    requires s.up && id !in s.handlers && Acceptable(sub, s.config) && Status(s.ledger, sub.nonce, commitMs).Ok?
    requires target == VerifyTarget(s.ledger.pending[sub.nonce].target, sub.statement, s.config)
    requires var e := RunVerified(RunFor(s, sub, commitMs)); Representable(e) && n < |Line(e)|
    ensures ExecCommit(v, id, commitMs, n).appends == s.appends + [Append(RunVerified(RunFor(s, sub, commitMs)), n)]
  {
  }

  /** A submission whose hardware name leaves ASCII can stop the registry: from every
      reachable state, for any such good submission, some cut of its commit leaves a file
      that no boot can ever read again. */
  lemma BootRefused(c: Config, steps: seq<Step>, id: nat, sub: Submitted, checkMs: nat, commitMs: nat, d: Config,
                    verify: Verifier)
      returns (more: seq<Step>)
    requires Honest(Run(c, steps, verify), id, sub, checkMs, commitMs, verify) && !Ascii(sub.hardware)
    ensures forall later: seq<Step> :: !Run(c, steps + more + [Restart(d)] + later, verify).up
  {
    var s := Run(c, steps, verify);
    RunIsRepresentable(s, sub, commitMs);
    var r := RunFor(s, sub, commitMs);
    var n := CutOf(r);
    more := CutShort(c, steps, s, id, sub, checkMs, commitMs, n, verify);
    OneMore(s.appends, Append(RunVerified(r), n));
    NoBoot(Run(c, steps + more, verify), d, verify);
    RunSnoc(c, steps + more, Restart(d), verify);
    forall later: seq<Step> ensures !Run(c, steps + more + [Restart(d)] + later, verify).up {
      StaysDown(c, steps + more + [Restart(d)], later, verify);
    }
  }

  lemma CutShort(c: Config, steps: seq<Step>, s: System, id: nat, sub: Submitted, checkMs: nat, commitMs: nat, n: nat,
             verify: Verifier)
      returns (more: seq<Step>)
    requires s == Run(c, steps, verify) && Honest(s, id, sub, checkMs, commitMs, verify)
    requires var e := RunVerified(RunFor(s, sub, commitMs)); Representable(e) && n < |Line(e)|
    ensures Run(c, steps + more, verify).appends == s.appends + [Append(RunVerified(RunFor(s, sub, commitMs)), n)]
  {
    var target := VerifyTarget(s.ledger.pending[sub.nonce].target, sub.statement, s.config);
    var checked := Verified(c, steps, s, verify, id, sub, checkMs, target);
    RunJoin(c, steps, checked, CommitStep(id, commitMs, n), verify);
    TornCommit(Run(c, steps + checked, verify), s, id, sub, target, commitMs, n);
    more := checked + [CommitStep(id, commitMs, n)];
  }

  lemma NoBoot(t: System, d: Config, verify: Verifier)
    requires PossibleAppends(t.appends) && !AllCutsClean(t.appends)
    ensures Down(Exec(t, Restart(d), verify))
  {
    ReplayExact(t.appends);
  }
}
