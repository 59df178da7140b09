/** The AI track as a concurrent system: mints, submission handlers that check, verify
    without the lock and commit, appends that may be cut short, and restarts. A run of
    the system is any sequence of steps; each step is one critical section. */
module Submission {
  import opened Wrappers
  import opened Bytes
  import opened Octets
  import opened Numbers
  import opened Events
  import opened AiLedger
  import opened Tiers
  import HexCodec
  import Utf8

  const BLOB_MAX: nat := 154 * 1024

  type Blob = seq<byte>

  /** Wins per submission and the targets of untiered challenges, fixed per boot. */
  datatype Config = Config(k: nat, denseTarget: Target, moeTarget: Target)

  /** The certificate verifier: statement, challenge nonce, target, attempt, blob. */
  type Verifier = (Statement, nat, Target, nat, Blob) -> bool

  datatype Submitted = Submitted(
    nonce: nat,
    statement: Statement,
    hardware: Text,
    proverVersion: Text,
    grindElapsedMs: nat,
    extranonces: seq<nat>,
    blobs: seq<Blob>)

  /** A handler between its critical sections. */
  datatype Handler =
    | Validated(sub: Submitted)
    | Verifying(sub: Submitted, target: Target, verified: nat)

  datatype Mint = Mint(nonce: nat, issuedAtMs: nat, target: Option<Target>)

  /** Everything ever minted (or attempted to be) and every configuration booted. */
  datatype History = History(mints: seq<Mint>, configs: seq<Config>)

  datatype System = System(
    up: bool,
    ledger: Ledger,
    appends: seq<Append>,
    handlers: map<nat, Handler>,
    config: Config,
    history: History)

  datatype Step =
    | MintStep(mint: Mint, written: nat)
    | Arrive(id: nat, sub: Submitted)
    | Check(id: nat, nowMs: nat)
    | VerifyNext(id: nat)
    | CommitStep(id: nat, nowMs: nat, written: nat)
    | Restart(config: Config)

  /** The loop over adjacent pairs of extranonces. */
  predicate StrictlyAscending(xs: seq<nat>) {
    forall i :: 0 <= i < |xs| - 1 ==> xs[i] < xs[i + 1]
  }

  /** What a body must satisfy before any lock is taken. */
  predicate Acceptable(sub: Submitted, c: Config) {
    && sub.nonce < TWO_64 && 0 < sub.grindElapsedMs < TWO_64
    && |sub.hardware| <= 128 && |sub.proverVersion| <= 64
    && Utf8.Valid(sub.hardware) && Utf8.Valid(sub.proverVersion)
    && |sub.extranonces| == |sub.blobs| == c.k < TWO_64
    && (forall i :: 0 <= i < |sub.extranonces| ==> sub.extranonces[i] < TWO_64)
    && StrictlyAscending(sub.extranonces)
    && (sub.statement == CanonicalMoe ==> forall i :: 0 <= i < |sub.extranonces| ==> sub.extranonces[i] <= U32_MAX)
    && (forall i :: 0 <= i < |sub.blobs| ==> |sub.blobs[i]| <= BLOB_MAX)
  }

  /** What is accepted, in plain terms: k wins with extranonces in order, no two equal, and
      every size within its limit. */
  lemma AcceptableExactly(sub: Submitted, c: Config)
    ensures Acceptable(sub, c)
            <==> && sub.nonce < 0x1_0000_0000_0000_0000 && 0 < sub.grindElapsedMs < 0x1_0000_0000_0000_0000
                 && |sub.hardware| <= 128 && |sub.proverVersion| <= 64
                 && Utf8.Valid(sub.hardware) && Utf8.Valid(sub.proverVersion)
                 && |sub.extranonces| == |sub.blobs| == c.k < 0x1_0000_0000_0000_0000
                 && (forall i, j :: 0 <= i < j < c.k ==> sub.extranonces[i] < sub.extranonces[j])
                 && (forall i :: 0 <= i < c.k ==> sub.extranonces[i] < 0x1_0000_0000_0000_0000)
                 && (sub.statement == CanonicalMoe ==>
                       forall i :: 0 <= i < c.k ==> sub.extranonces[i] < 0x1_0000_0000)
                 && (forall i :: 0 <= i < c.k ==> |sub.blobs[i]| <= 157_696)
  {
    if StrictlyAscending(sub.extranonces) {
      forall i, j | 0 <= i < j < |sub.extranonces| ensures sub.extranonces[i] < sub.extranonces[j] {
        AscendingFrom(sub.extranonces, i, j);
      }
    }
  }

  /** The issued target of a tiered challenge, the configured one otherwise. */
  function VerifyTarget(issued: Option<Target>, s: Statement, c: Config): (t: Target) {
    match issued
    case Some(t) => t
    case None => if s == Dense then c.denseTarget else c.moeTarget
  }

  function PartsOf(sub: Submitted, target: Target): (p: RunParts) {
    RunParts(sub.nonce, sub.statement, sub.hardware, sub.proverVersion, target, sub.grindElapsedMs, sub.extranonces)
  }

  function Boot(c: Config): (s: System) {
    System(true, EMPTY, [], map[], c, History([], [c]))
  }

  function ExecMint(s: System, m: Mint, written: nat): (r: System) {
    var a := Append(ChallengeMinted(m.nonce, m.issuedAtMs, m.target), written);
    if !PossibleAppend(a) then s else
    s.(ledger := if IsWhole(a) then Apply(s.ledger, a.event) else s.ledger,
       appends := s.appends + [a],
       history := s.history.(mints := s.history.mints + [m]))
  }

  function ExecCheck(s: System, id: nat, nowMs: nat): (r: System) {
    if id !in s.handlers || !s.handlers[id].Validated? then s else
    var sub := s.handlers[id].sub;
    match Status(s.ledger, sub.nonce, nowMs)
    case Err(_) => s.(handlers := s.handlers - {id})
    case Ok(p) => s.(handlers := s.handlers[id := Verifying(sub, VerifyTarget(p.target, sub.statement, s.config), 0)])
  }

  function ExecVerify(s: System, id: nat, verify: Verifier): (r: System) {
    if id !in s.handlers || !s.handlers[id].Verifying? then s else
    var h := s.handlers[id];
    if h.verified >= |h.sub.extranonces| || h.verified >= |h.sub.blobs| then s
    else if verify(h.sub.statement, h.sub.nonce, h.target, h.sub.extranonces[h.verified], h.sub.blobs[h.verified])
    then s.(handlers := s.handlers[id := h.(verified := h.verified + 1)])
    else s.(handlers := s.handlers - {id})
  }

  /** The run handler h would store now. */
  function CommitAppend(s: System, h: Handler, nowMs: nat, written: nat): (a: Append)
    requires h.Verifying? && h.sub.nonce in s.ledger.pending
  {
    var issuedAtMs := s.ledger.pending[h.sub.nonce].issuedAtMs;
    Append(RunVerified(RunOf(s.ledger, PartsOf(h.sub, h.target), issuedAtMs, nowMs)), written)
  }

  function ExecCommit(s: System, id: nat, nowMs: nat, written: nat): (r: System) {
    if id !in s.handlers || !s.handlers[id].Verifying? then s else
    var h := s.handlers[id];
    if h.verified < |h.sub.extranonces| then s else
    match Status(s.ledger, h.sub.nonce, nowMs)
    case Err(_) => s.(handlers := s.handlers - {id})
    case Ok(p) =>
      var a := CommitAppend(s, h, nowMs, written);
      if !PossibleAppend(a) then s else
      s.(ledger := if IsWhole(a) then Apply(s.ledger, a.event) else s.ledger,
         appends := s.appends + [a],
         handlers := s.handlers - {id})
  }

  /** The process dies, handlers with it, and boots from the file. */
  function ExecRestart(s: System, c: Config): (r: System)
    requires PossibleAppends(s.appends)
  {
    match Replay(LogOf(s.appends))
    case None => s.(up := false, handlers := map[])
    case Some(l) => System(true, l, s.appends, map[], c, s.history.(configs := s.history.configs + [c]))
  }

  /** One step; a step that is not enabled changes nothing. */
  function Exec(s: System, step: Step, verify: Verifier): (r: System)
    requires PossibleAppends(s.appends)
    ensures PossibleAppends(r.appends)
  {
    match step
    case Restart(c) => ExecRestart(s, c)
    case MintStep(m, written) => if s.up then ExecMint(s, m, written) else s
    case Arrive(id, sub) =>
      if s.up && id !in s.handlers && Acceptable(sub, s.config)
      then s.(handlers := s.handlers[id := Validated(sub)]) else s
    case Check(id, nowMs) => if s.up then ExecCheck(s, id, nowMs) else s
    case VerifyNext(id) => if s.up then ExecVerify(s, id, verify) else s
    case CommitStep(id, nowMs, written) => if s.up then ExecCommit(s, id, nowMs, written) else s
  }

  function Run(c: Config, steps: seq<Step>, verify: Verifier): (s: System)
    ensures PossibleAppends(s.appends)
  {
    if |steps| == 0 then Boot(c)
    else Exec(Run(c, steps[..|steps| - 1], verify), steps[|steps| - 1], verify)
  }

  // ------------------------------------------------------------------------
  // What a stored run has behind it
  // ------------------------------------------------------------------------

  /** What vouches for a run: the target and blobs its wins were verified with, the
      mint that fixed the target, the mint that opened its window, its boot. */
  datatype Voucher = Voucher(target: Target, blobs: seq<Blob>, pledged: Mint, issued: Mint, config: Config)

  ghost predicate Vouches(w: Voucher, r: RunRecord, h: History, verify: Verifier) {
    && w.config in h.configs && w.pledged in h.mints && w.issued in h.mints
    && |r.winExtranonces| == |w.blobs| == r.k == w.config.k
    && StrictlyAscending(r.winExtranonces)
    && (forall i :: 0 <= i < r.k ==> verify(r.statement, r.nonce, w.target, r.winExtranonces[i], w.blobs[i]))
    && r.target == HexCodec.Hex(w.target)
    && w.pledged.nonce == w.issued.nonce == r.nonce
    && w.target == VerifyTarget(w.pledged.target, r.statement, w.config)
    && w.issued.issuedAtMs == r.issuedAtMs
    && SaturatingSub(r.submittedAtMs, r.issuedAtMs) <= AI_WINDOW_MS
    && r.grindElapsedMs > 0
  }

  ghost predicate Good(r: RunRecord, h: History, verify: Verifier) {
    exists w :: Vouches(w, r, h, verify)
  }

  /** An event that may stand in the log. */
  ghost predicate Backed(e: Event, h: History, verify: Verifier) {
    match e
    case ChallengeMinted(nonce, t, target) => Mint(nonce, t, target) in h.mints
    case RunVerified(r) => Good(r, h, verify)
  }

  /** No nonce has two runs. */
  predicate OneRunEach(runs: seq<RunRecord>) {
    forall i, j :: 0 <= i < j < |runs| ==> runs[i].nonce != runs[j].nonce
  }

  function Nonces(runs: seq<RunRecord>): (ns: set<nat>) {
    set i | 0 <= i < |runs| :: runs[i].nonce
  }

  ghost predicate LedgerGood(l: Ledger, h: History, verify: Verifier) {
    && OneRunEach(l.runs) && l.used == Nonces(l.runs)
    && (forall i :: 0 <= i < |l.runs| ==> Good(l.runs[i], h, verify))
    && (forall n :: n in l.pending ==> Mint(n, l.pending[n].issuedAtMs, l.pending[n].target) in h.mints)
  }

  ghost predicate HandlerGood(x: Handler, c: Config, h: History, verify: Verifier) {
    && Acceptable(x.sub, c)
    && (x.Verifying? ==>
          && x.verified <= |x.sub.extranonces|
          && (forall i :: 0 <= i < x.verified ==>
                verify(x.sub.statement, x.sub.nonce, x.target, x.sub.extranonces[i], x.sub.blobs[i]))
          && exists m :: m in h.mints && m.nonce == x.sub.nonce
                         && x.target == VerifyTarget(m.target, x.sub.statement, c))
  }

  /** What the log is certain to keep, and what replay would find now, are sound. */
  ghost predicate LogGood(v: Survivors, h: History, verify: Verifier) {
    && LedgerGood(ApplyAll(EMPTY, v.events), h, verify)
    && LedgerGood(ApplyAll(EMPTY, Found(v)), h, verify)
  }

  ghost predicate HandlersGood(hs: map<nat, Handler>, c: Config, h: History, verify: Verifier) {
    forall id :: id in hs ==> HandlerGood(hs[id], c, h, verify)
  }

  /** The invariant: memory and log are sound, and every nonce the log is certain to
      keep as consumed is consumed in memory too. */
  ghost predicate Inv(s: System, verify: Verifier) {
    && PossibleAppends(s.appends)
    && LogGood(SurvivorsOf(s.appends), s.history, verify)
    && s.config in s.history.configs
    && (s.up ==>
          && LedgerGood(s.ledger, s.history, verify)
          && ApplyAll(EMPTY, SurvivorsOf(s.appends).events).used <= s.ledger.used
          && HandlersGood(s.handlers, s.config, s.history, verify))
  }

  // ------------------------------------------------------------------------
  // Ledgers stay good
  // ------------------------------------------------------------------------

  lemma EmptyGood(h: History, verify: Verifier)
    ensures LedgerGood(EMPTY, h, verify)
  {
  }

  /** A run of an unused nonce, or a recorded mint, keeps a ledger good. */
  lemma ApplyGood(l: Ledger, e: Event, h: History, verify: Verifier)
    requires LedgerGood(l, h, verify) && Backed(e, h, verify)
    requires e.RunVerified? ==> e.run.nonce !in l.used
    ensures LedgerGood(Apply(l, e), h, verify)
  {
    match e
    case ChallengeMinted(_, _, _) =>
    case RunVerified(r) =>
      var runs := l.runs + [r];
      assert Nonces(runs) == Nonces(l.runs) + {r.nonce} by {
        assert runs[|l.runs|] == r;
        assert forall i :: 0 <= i < |l.runs| ==> runs[i] == l.runs[i];
      }
      forall i | 0 <= i < |l.runs| ensures runs[i].nonce != r.nonce {
        assert l.runs[i].nonce in Nonces(l.runs);
      }
  }

  /** Histories only grow, and nothing vouched for is withdrawn. */
  predicate Extends(g: History, h: History) {
    (forall m :: m in g.mints ==> m in h.mints) && (forall c :: c in g.configs ==> c in h.configs)
  }

  lemma GoodExtends(r: RunRecord, g: History, h: History, verify: Verifier)
    requires Good(r, g, verify) && Extends(g, h)
    ensures Good(r, h, verify)
  {
    var w :| Vouches(w, r, g, verify);
    assert Vouches(w, r, h, verify);
  }

  lemma LedgerExtends(l: Ledger, g: History, h: History, verify: Verifier)
    requires LedgerGood(l, g, verify) && Extends(g, h)
    ensures LedgerGood(l, h, verify)
  {
    forall i | 0 <= i < |l.runs| ensures Good(l.runs[i], h, verify) {
      GoodExtends(l.runs[i], g, h, verify);
    }
  }

  /** The commit of a fully verified handler is vouched for. */
  lemma CommitGood(s: System, id: nat, nowMs: nat, written: nat, verify: Verifier)
    requires Inv(s, verify) && s.up
    requires id in s.handlers && s.handlers[id].Verifying?
    requires s.handlers[id].verified >= |s.handlers[id].sub.extranonces|
    requires Status(s.ledger, s.handlers[id].sub.nonce, nowMs).Ok?
    ensures Good(CommitAppend(s, s.handlers[id], nowMs, written).event.run, s.history, verify)
  {
    var x := s.handlers[id];
    var r := CommitAppend(s, x, nowMs, written).event.run;
    var p := s.ledger.pending[x.sub.nonce];
    var m :| m in s.history.mints && m.nonce == x.sub.nonce
             && x.target == VerifyTarget(m.target, x.sub.statement, s.config);
    var w := Voucher(x.target, x.sub.blobs, m, Mint(x.sub.nonce, p.issuedAtMs, p.target), s.config);
    assert Vouches(w, r, s.history, verify);
  }

  // ------------------------------------------------------------------------
  // Appends and what replay finds
  // ------------------------------------------------------------------------

  /** An append that reaches the file leaves the certain events as they are, or adds its
      own to them on a clean last line. */
  lemma FoundAfter(v: Survivors, a: Append)
    requires a.written > 0
    ensures var w, es, more := AfterAppend(v, a), v.events, v.events + [a.event];
            if v.tail == Clean then (w.events == es || w.events == more) && (Found(w) == es || Found(w) == more)
            else w.events == es && Found(w) == es
  {
  }

  /** One more append keeps the log good, if the event is backed and its nonce is not
      already consumed by what the log is certain to keep. */
  lemma AppendGood(v: Survivors, a: Append, h: History, verify: Verifier)
    requires LogGood(v, h, verify) && Backed(a.event, h, verify)
    requires a.event.RunVerified? ==> a.event.run.nonce !in ApplyAll(EMPTY, v.events).used
    ensures LogGood(AfterAppend(v, a), h, verify)
  {
    if a.written > 0 {
      FoundAfter(v, a);
      if v.tail == Clean { ExtendedGood(v.events, a.event, h, verify); }
    }
  }

  lemma ExtendedGood(es: seq<Event>, e: Event, h: History, verify: Verifier)
    requires LedgerGood(ApplyAll(EMPTY, es), h, verify) && Backed(e, h, verify)
    requires e.RunVerified? ==> e.run.nonce !in ApplyAll(EMPTY, es).used
    ensures LedgerGood(ApplyAll(EMPTY, es + [e]), h, verify)
  {
    ApplyGood(ApplyAll(EMPTY, es), e, h, verify);
    ApplyAllSnoc(EMPTY, es, e);
  }

  /** Nor does the log get ahead of memory. */
  lemma AppendUsed(v: Survivors, a: Append, l: Ledger)
    requires ApplyAll(EMPTY, v.events).used <= l.used
    ensures ApplyAll(EMPTY, AfterAppend(v, a).events).used <= (if IsWhole(a) then Apply(l, a.event) else l).used
  {
    ApplyAllSnoc(EMPTY, v.events, a.event);
  }

  lemma HandlersExtend(hs: map<nat, Handler>, gs: map<nat, Handler>, c: Config, g: History, h: History,
                       verify: Verifier)
    requires HandlersGood(hs, c, g, verify) && Extends(g, h)
    requires forall id :: id in gs ==> id in hs && gs[id] == hs[id]
    ensures HandlersGood(gs, c, h, verify)
  {
  }

  lemma LogExtends(v: Survivors, g: History, h: History, verify: Verifier)
    requires LogGood(v, g, verify) && Extends(g, h)
    ensures LogGood(v, h, verify)
  {
    LedgerExtends(ApplyAll(EMPTY, v.events), g, h, verify);
    LedgerExtends(ApplyAll(EMPTY, Found(v)), g, h, verify);
  }

  /** An append and its effect in memory, for a mint or a commit. */
  lemma AppendStep(s: System, a: Append, t: System, verify: Verifier)
    requires Inv(s, verify) && s.up && PossibleAppend(a)
    requires Extends(s.history, t.history) && Backed(a.event, t.history, verify)
    requires a.event.RunVerified? ==> a.event.run.nonce !in s.ledger.used
    requires t.up && t.config == s.config && t.appends == s.appends + [a]
    requires t.ledger == if IsWhole(a) then Apply(s.ledger, a.event) else s.ledger
    requires forall id :: id in t.handlers ==> id in s.handlers && t.handlers[id] == s.handlers[id]
    ensures Inv(t, verify)
  {
    var v := SurvivorsOf(s.appends);
    LogExtends(v, s.history, t.history, verify);
    LedgerExtends(s.ledger, s.history, t.history, verify);
    HandlersExtend(s.handlers, t.handlers, s.config, s.history, t.history, verify);
    OneMore(s.appends, a);
    AppendGood(v, a, t.history, verify);
    AppendUsed(v, a, s.ledger);
    ApplyGood(s.ledger, a.event, t.history, verify);
  }

  lemma MintKeepsInv(s: System, m: Mint, written: nat, verify: Verifier)
    requires Inv(s, verify) && s.up
    ensures Inv(ExecMint(s, m, written), verify)
  {
    var a := Append(ChallengeMinted(m.nonce, m.issuedAtMs, m.target), written);
    if PossibleAppend(a) {
      var t := ExecMint(s, m, written);
      assert t.history.mints[|s.history.mints|] == m;
      AppendStep(s, a, t, verify);
    }
  }

  lemma CommitKeepsInv(s: System, id: nat, nowMs: nat, written: nat, verify: Verifier)
    requires Inv(s, verify) && s.up
    ensures Inv(ExecCommit(s, id, nowMs, written), verify)
  {
    if id in s.handlers && s.handlers[id].Verifying? {
      var h := s.handlers[id];
      if h.verified >= |h.sub.extranonces| && Status(s.ledger, h.sub.nonce, nowMs).Ok? {
        var a := CommitAppend(s, h, nowMs, written);
        if PossibleAppend(a) {
          CommitGood(s, id, nowMs, written, verify);
          AppendStep(s, a, ExecCommit(s, id, nowMs, written), verify);
        }
      }
    }
  }

  lemma CheckKeepsInv(s: System, id: nat, nowMs: nat, verify: Verifier)
    requires Inv(s, verify) && s.up
    ensures Inv(ExecCheck(s, id, nowMs), verify)
  {
    if id in s.handlers && s.handlers[id].Validated? {
      var sub := s.handlers[id].sub;
      match Status(s.ledger, sub.nonce, nowMs)
      case Err(_) =>
      case Ok(p) =>
        var m := Mint(sub.nonce, p.issuedAtMs, p.target);
        assert m in s.history.mints;
        var target := VerifyTarget(p.target, sub.statement, s.config);
        assert HandlerGood(Verifying(sub, target, 0), s.config, s.history, verify);
    }
  }

  lemma AdvanceGood(x: Handler, c: Config, h: History, verify: Verifier)
    requires HandlerGood(x, c, h, verify) && x.Verifying? && x.verified < |x.sub.extranonces|
    requires verify(x.sub.statement, x.sub.nonce, x.target, x.sub.extranonces[x.verified], x.sub.blobs[x.verified])
    ensures HandlerGood(x.(verified := x.verified + 1), c, h, verify)
  {
  }

  lemma VerifyKeepsInv(s: System, id: nat, verify: Verifier)
    requires Inv(s, verify) && s.up
    ensures Inv(ExecVerify(s, id, verify), verify)
  {
    if id in s.handlers && s.handlers[id].Verifying? {
      var h := s.handlers[id];
      assert HandlerGood(h, s.config, s.history, verify);
      if h.verified < |h.sub.extranonces|
         && verify(h.sub.statement, h.sub.nonce, h.target, h.sub.extranonces[h.verified], h.sub.blobs[h.verified]) {
        AdvanceGood(h, s.config, s.history, verify);
      }
    }
  }

  /** What replay finds has consumed all that the log is certain to keep as consumed. */
  lemma FoundKeepsUsed(v: Survivors)
    ensures ApplyAll(EMPTY, v.events).used <= ApplyAll(EMPTY, Found(v)).used
  {
    if v.tail.Unended? { ApplyAllSnoc(EMPTY, v.events, v.tail.event); } else { assert Found(v) == v.events; }
  }

  lemma RestartKeepsInv(s: System, c: Config, verify: Verifier)
    requires Inv(s, verify)
    ensures Inv(ExecRestart(s, c), verify)
  {
    var t := ExecRestart(s, c);
    ReplayExact(s.appends);
    if t.up {
      var v := SurvivorsOf(s.appends);
      assert t.history.configs[|s.history.configs|] == c;
      LedgerExtends(ApplyAll(EMPTY, v.events), s.history, t.history, verify);
      LedgerExtends(ApplyAll(EMPTY, Found(v)), s.history, t.history, verify);
      FoundKeepsUsed(v);
    }
  }

  lemma ArriveKeepsInv(s: System, id: nat, sub: Submitted, verify: Verifier)
    requires Inv(s, verify) && s.up && Acceptable(sub, s.config)
    ensures Inv(s.(handlers := s.handlers[id := Validated(sub)]), verify)
  {
    assert HandlerGood(Validated(sub), s.config, s.history, verify);
  }

  lemma StepKeepsInv(s: System, step: Step, verify: Verifier)
    requires Inv(s, verify)
    ensures Inv(Exec(s, step, verify), verify)
  {
    if step.Restart? {
      RestartKeepsInv(s, step.config, verify);
    } else if s.up && step.MintStep? {
      MintKeepsInv(s, step.mint, step.written, verify);
    } else if s.up && step.CommitStep? {
      CommitKeepsInv(s, step.id, step.nowMs, step.written, verify);
    } else if s.up {
      HandlerStep(s, step, verify);
    }
  }

  lemma HandlerStep(s: System, step: Step, verify: Verifier)
    requires Inv(s, verify) && s.up && (step.Arrive? || step.Check? || step.VerifyNext?)
    ensures Inv(Exec(s, step, verify), verify)
  {
    match step
    case Arrive(id, sub) => ArriveStep(s, id, sub, verify);
    case Check(id, t) => CheckKeepsInv(s, id, t, verify);
    case VerifyNext(id) => VerifyKeepsInv(s, id, verify);
  }

  lemma ArriveStep(s: System, id: nat, sub: Submitted, verify: Verifier)
    requires Inv(s, verify)
    ensures Inv(Exec(s, Arrive(id, sub), verify), verify)
  {
    if s.up && Acceptable(sub, s.config) { ArriveKeepsInv(s, id, sub, verify); }
  }

  /** The invariant holds after every sequence of steps. */
  lemma {:induction false} Reachable(c: Config, steps: seq<Step>, verify: Verifier)
    ensures Inv(Run(c, steps, verify), verify)
  {
    if |steps| > 0 {
      Reachable(c, steps[..|steps| - 1], verify);
      StepKeepsInv(Run(c, steps[..|steps| - 1], verify), steps[|steps| - 1], verify);
    } else {
      assert Boot(c).history.configs[0] == c;
      EmptyGood(History([], [c]), verify);
    }
  }

  // ------------------------------------------------------------------------
  // Main results
  // ------------------------------------------------------------------------

  /** Over every interleaving of handlers, mints (also repeated ones), failed appends and
      restarts: no nonce ever has two stored runs, and a stored run's nonce is used. */
  lemma AtMostOneRunPerNonce(c: Config, steps: seq<Step>, verify: Verifier)
    ensures var s := Run(c, steps, verify);
            s.up ==> OneRunEach(s.ledger.runs) && s.ledger.used == Nonces(s.ledger.runs)
  {
    Reachable(c, steps, verify);
  }

  lemma {:induction false} AscendingFrom(xs: seq<nat>, i: nat, j: nat)
    requires StrictlyAscending(xs) && i < j < |xs|
    ensures xs[i] < xs[j]
    decreases j
  {
    if i < j - 1 { AscendingFrom(xs, i, j - 1); }
  }

  /** Every stored run: k distinct wins in ascending order, every one verified under the
      run's statement against exactly the stored target, inside the window. */
  lemma StoredRunsAreVerified(c: Config, steps: seq<Step>, verify: Verifier, r: RunRecord)
    requires var s := Run(c, steps, verify); s.up && r in s.ledger.runs
    ensures var h := Run(c, steps, verify).history;
            exists w :: Vouches(w, r, h, verify)
    ensures forall i, j :: 0 <= i < j < |r.winExtranonces| ==> r.winExtranonces[i] < r.winExtranonces[j]
    ensures r.k == |r.winExtranonces|
    ensures r.submittedAtMs <= r.issuedAtMs + 3_600_000
  {
    Reachable(c, steps, verify);
    var s := Run(c, steps, verify);
    var w :| Vouches(w, r, s.history, verify);
    forall i, j | 0 <= i < j < |r.winExtranonces| ensures r.winExtranonces[i] < r.winExtranonces[j] {
      AscendingFrom(r.winExtranonces, i, j);
    }
  }

  /** Every mint of the nonce carried target t. */
  predicate OneTarget(mints: seq<Mint>, nonce: nat, t: Target) {
    forall i :: 0 <= i < |mints| && mints[i].nonce == nonce ==> mints[i].target == Some(t)
  }

  predicate MintedOnce(mints: seq<Mint>, nonce: nat) {
    forall i, j :: 0 <= i < |mints| && 0 <= j < |mints| && mints[i].nonce == nonce && mints[j].nonce == nonce ==> i == j
  }

  /** When every mint of the nonce had the same tier, the stored target is the issued
      one; when it was minted once, the window runs from that issue. */
  lemma StoredTargetIsIssued(c: Config, steps: seq<Step>, verify: Verifier, r: RunRecord, t: Target)
    requires var s := Run(c, steps, verify); s.up && r in s.ledger.runs && OneTarget(s.history.mints, r.nonce, t)
    ensures r.target == HexCodec.Hex(t)
    ensures HexCodec.ParseResult(r.target) == HexCodec.Parsed(t)
    ensures var mints := Run(c, steps, verify).history.mints;
            && (exists i :: 0 <= i < |mints| && mints[i].nonce == r.nonce && mints[i].issuedAtMs == r.issuedAtMs)
            && (MintedOnce(mints, r.nonce) ==>
                  forall i :: 0 <= i < |mints| && mints[i].nonce == r.nonce ==> mints[i].issuedAtMs == r.issuedAtMs)
  {
    Reachable(c, steps, verify);
    VouchedTarget(r, Run(c, steps, verify).history, verify, t);
    HexCodec.HexRoundTrip(t);
  }

  lemma VouchedTarget(r: RunRecord, h: History, verify: Verifier, t: Target)
    requires Good(r, h, verify) && OneTarget(h.mints, r.nonce, t)
    ensures r.target == HexCodec.Hex(t)
    ensures exists i :: 0 <= i < |h.mints| && h.mints[i].nonce == r.nonce && h.mints[i].issuedAtMs == r.issuedAtMs
    ensures MintedOnce(h.mints, r.nonce) ==>
              forall i :: 0 <= i < |h.mints| && h.mints[i].nonce == r.nonce ==> h.mints[i].issuedAtMs == r.issuedAtMs
  {
    var w :| Vouches(w, r, h, verify);
  }

  predicate Untiered(mints: seq<Mint>, nonce: nat) {
    forall i :: 0 <= i < |mints| && mints[i].nonce == nonce ==> mints[i].target == None
  }

  /** Every boot so far had configuration d. */
  predicate OnlyConfig(configs: seq<Config>, d: Config) {
    forall i :: 0 <= i < |configs| ==> configs[i] == d
  }

  /** r has the target configured for its statement. */
  predicate HasConfigured(r: RunRecord, d: Config) {
    && (r.statement == Dense ==> r.target == HexCodec.Hex(d.denseTarget))
    && (r.statement == CanonicalMoe ==> r.target == HexCodec.Hex(d.moeTarget))
  }

  /** When every mint of the nonce was untiered, the stored target is the one that a boot
      of the process configured for the run's statement. */
  lemma UntieredTargetIsConfigured(c: Config, steps: seq<Step>, verify: Verifier, r: RunRecord)
    requires var s := Run(c, steps, verify); s.up && r in s.ledger.runs && Untiered(s.history.mints, r.nonce)
    ensures exists d :: d in Run(c, steps, verify).history.configs && HasConfigured(r, d)
    ensures forall d :: OnlyConfig(Run(c, steps, verify).history.configs, d) ==> HasConfigured(r, d)
  {
    Reachable(c, steps, verify);
    ConfiguredTarget(r, Run(c, steps, verify).history, verify);
  }

  lemma ConfiguredTarget(r: RunRecord, h: History, verify: Verifier)
    requires Good(r, h, verify) && Untiered(h.mints, r.nonce)
    ensures exists d :: d in h.configs && HasConfigured(r, d)
    ensures forall d :: OnlyConfig(h.configs, d) ==> HasConfigured(r, d)
  {
    var w :| Vouches(w, r, h, verify);
    assert HasConfigured(r, w.config);
  }

  predicate WritesWhole(step: Step, s: System)
    requires PossibleAppends(s.appends)
  {
    match step
    case MintStep(m, written) => written == |Line(ChallengeMinted(m.nonce, m.issuedAtMs, m.target))|
    case CommitStep(id, t, written) =>
      id in s.handlers && s.handlers[id].Verifying? && s.handlers[id].sub.nonce in s.ledger.pending ==>
        IsWhole(CommitAppend(s, s.handlers[id], t, written))
    case _ => true
  }

  predicate AllWritesWhole(c: Config, steps: seq<Step>, verify: Verifier) {
    forall i :: 0 <= i < |steps| ==> WritesWhole(steps[i], Run(c, steps[..i], verify))
  }

  lemma {:induction false} WholeHistory(c: Config, steps: seq<Step>, verify: Verifier)
    requires AllWritesWhole(c, steps, verify)
    ensures Mirrors(Run(c, steps, verify))
  {
    if |steps| > 0 {
      var init, step := steps[..|steps| - 1], steps[|steps| - 1];
      forall i | 0 <= i < |init| ensures WritesWhole(init[i], Run(c, init[..i], verify)) {
        assert init[..i] == steps[..i];
      }
      WholeHistory(c, init, verify);
      var s := Run(c, init, verify);
      assert WritesWhole(step, s);
      WholeStep(s, step, verify);
    }
  }

  /** Memory is exactly what the events written, all whole, amount to. */
  ghost predicate Mirrors(s: System) {
    && s.up && PossibleAppends(s.appends) && AllWhole(s.appends)
    && s.ledger == ApplyAll(EMPTY, EventsOf(s.appends))
  }

  lemma MirrorsAppend(s: System, t: System, a: Append)
    requires Mirrors(s) && PossibleAppend(a) && IsWhole(a)
    requires t.up && t.appends == s.appends + [a] && t.ledger == Apply(s.ledger, a.event)
    ensures Mirrors(t)
  {
    assert EventsOf(t.appends) == EventsOf(s.appends) + [a.event];
    ApplyAllSnoc(EMPTY, EventsOf(s.appends), a.event);
  }

  lemma WholeStep(s: System, step: Step, verify: Verifier)
    requires Mirrors(s) && WritesWhole(step, s)
    ensures Mirrors(Exec(s, step, verify))
  {
    match step
    case Restart(_) => ReplayWhole(s.appends);
    case MintStep(m, written) =>
      var a := Append(ChallengeMinted(m.nonce, m.issuedAtMs, m.target), written);
      if PossibleAppend(a) { MirrorsAppend(s, ExecMint(s, m, written), a); }
    case CommitStep(id, t, written) => WholeCommit(s, id, t, written);
    case Arrive(_, _) =>
    case Check(_, _) =>
    case VerifyNext(_) =>
  }

  lemma WholeCommit(s: System, id: nat, nowMs: nat, written: nat)
    requires Mirrors(s) && WritesWhole(CommitStep(id, nowMs, written), s)
    ensures Mirrors(ExecCommit(s, id, nowMs, written))
  {
    var t := ExecCommit(s, id, nowMs, written);
    if t.appends != s.appends {
      MirrorsAppend(s, t, CommitAppend(s, s.handlers[id], nowMs, written));
    }
  }

  lemma RestartMirrors(s: System, d: Config)
    requires Mirrors(s)
    ensures Replay(LogOf(s.appends)) == Some(s.ledger)
    ensures ExecRestart(s, d)
            == s.(handlers := map[], config := d, history := s.history.(configs := s.history.configs + [d]))
  {
    ReplayWhole(s.appends);
  }

  /** While no append is cut short, a restart at any moment changes nothing but the
      handlers and the configuration. */
  lemma RestartIsInvisible(c: Config, steps: seq<Step>, verify: Verifier, d: Config)
    requires AllWritesWhole(c, steps, verify)
    ensures var s := Run(c, steps, verify);
            && s.up && Replay(LogOf(s.appends)) == Some(s.ledger)
            && ExecRestart(s, d)
               == s.(handlers := map[], config := d, history := s.history.(configs := s.history.configs + [d]))
  {
    WholeHistory(c, steps, verify);
    RestartMirrors(Run(c, steps, verify), d);
  }

  // ------------------------------------------------------------------------
  // An honest run is stored
  // ------------------------------------------------------------------------

  function VerifySteps(id: nat, n: nat): (steps: seq<Step>) {
    if n == 0 then [] else VerifySteps(id, n - 1) + [VerifyNext(id)]
  }

  /** Every blob of the submission verifies against the target. */
  predicate AllVerify(sub: Submitted, target: Target, verify: Verifier) {
    && |sub.blobs| == |sub.extranonces|
    && forall i :: 0 <= i < |sub.blobs| ==> verify(sub.statement, sub.nonce, target, sub.extranonces[i], sub.blobs[i])
  }

  lemma {:induction false} VerifiedAll(c: Config, steps: seq<Step>, longer: seq<Step>, s: System, verify: Verifier,
                                       id: nat, sub: Submitted, target: Target, n: nat)
    requires s == Run(c, steps, verify) && s.up && id in s.handlers && s.handlers[id] == Verifying(sub, target, 0)
    requires AllVerify(sub, target, verify) && n <= |sub.blobs| && longer == steps + VerifySteps(id, n)
    ensures Run(c, longer, verify) == s.(handlers := s.handlers[id := Verifying(sub, target, n)])
    decreases n
  {
    if n == 0 {
      assert longer == steps;
      Unchanged(s, id);
    } else {
      var shorter := steps + VerifySteps(id, n - 1);
      VerifiedAll(c, steps, shorter, s, verify, id, sub, target, n - 1);
      VerifiedNext(c, shorter, s, verify, id, sub, target, n - 1);
      assert longer == shorter + [VerifyNext(id)];
    }
  }

  lemma Unchanged(s: System, id: nat)
    requires id in s.handlers
    ensures s.(handlers := s.handlers[id := s.handlers[id]]) == s
  {
  }

  lemma VerifiedNext(c: Config, steps: seq<Step>, s: System, verify: Verifier,
                     id: nat, sub: Submitted, target: Target, n: nat)
    requires s.up && PossibleAppends(s.appends) && AllVerify(sub, target, verify) && n < |sub.blobs|
    requires Run(c, steps, verify) == s.(handlers := s.handlers[id := Verifying(sub, target, n)])
    ensures Run(c, steps + [VerifyNext(id)], verify) == s.(handlers := s.handlers[id := Verifying(sub, target, n + 1)])
  {
    RunSnoc(c, steps, VerifyNext(id), verify);
    VerifiedOne(Run(c, steps, verify), s, id, sub, target, n, verify);
  }

  lemma VerifiedOne(v: System, s: System, id: nat, sub: Submitted, target: Target, n: nat, verify: Verifier)
    requires s.up && PossibleAppends(s.appends) && AllVerify(sub, target, verify) && n < |sub.blobs|
    requires v == s.(handlers := s.handlers[id := Verifying(sub, target, n)])
    ensures Exec(v, VerifyNext(id), verify) == s.(handlers := s.handlers[id := Verifying(sub, target, n + 1)])
  {
    assert s.handlers[id := Verifying(sub, target, n)][id := Verifying(sub, target, n + 1)]
           == s.handlers[id := Verifying(sub, target, n + 1)];
  }

  /** The run a commit of the submission at commitMs stores. */
  function RunFor(s: System, sub: Submitted, commitMs: nat): (r: RunRecord)
    requires sub.nonce in s.ledger.pending
  {
    var p := s.ledger.pending[sub.nonce];
    RunOf(s.ledger, PartsOf(sub, VerifyTarget(p.target, sub.statement, s.config)), p.issuedAtMs, commitMs)
  }

  function WholeAppend(e: Event): (a: Append) {
    Append(e, |Line(e)|)
  }

  /** The system with run r stored: in memory, consumed, and in the file. */
  function WithRun(s: System, r: RunRecord): (t: System) {
    s.(ledger := Apply(s.ledger, RunVerified(r)), appends := s.appends + [WholeAppend(RunVerified(r))])
  }

  /** What a submission of k good wins against an open challenge meets. */
  predicate Honest(s: System, id: nat, sub: Submitted, checkMs: nat, commitMs: nat, verify: Verifier) {
    && s.up && id !in s.handlers && Acceptable(sub, s.config) && s.ledger.nextId < TWO_64
    && Status(s.ledger, sub.nonce, checkMs).Ok? && Status(s.ledger, sub.nonce, commitMs).Ok?
    && s.ledger.pending[sub.nonce].issuedAtMs < TWO_64 && commitMs < TWO_64
    && AllVerify(sub, VerifyTarget(s.ledger.pending[sub.nonce].target, sub.statement, s.config), verify)
  }

  /** The run holds the submission field by field, the next id, the issue time of the
      challenge, the time of the commit, and the target in force: the issued one, or else
      the configured one of the statement. */
  predicate Records(r: RunRecord, s: System, sub: Submitted, commitMs: nat)
    requires sub.nonce in s.ledger.pending
  {
    var p := s.ledger.pending[sub.nonce];
    && r.id == s.ledger.nextId && r.nonce == sub.nonce && r.statement == sub.statement
    && r.hardware == sub.hardware && r.proverVersion == sub.proverVersion
    && r.k == |sub.extranonces| && r.winExtranonces == sub.extranonces
    && r.grindElapsedMs == sub.grindElapsedMs
    && r.issuedAtMs == p.issuedAtMs && r.submittedAtMs == commitMs
    && (p.target.Some? ==> r.target == HexCodec.Hex(p.target.value))
    && (p.target.None? && sub.statement == Dense ==> r.target == HexCodec.Hex(s.config.denseTarget))
    && (p.target.None? && sub.statement == CanonicalMoe ==> r.target == HexCodec.Hex(s.config.moeTarget))
  }

  /** From s to t one run is stored, last, in memory and in the file, its nonce is consumed
      and its id taken; nothing else changed. */
  predicate StoredLast(s: System, t: System, r: RunRecord)
    requires PossibleAppends(s.appends) && PossibleAppends(t.appends)
  {
    && t.ledger.runs == s.ledger.runs + [r]
    && t.ledger.pending == s.ledger.pending - {r.nonce} && t.ledger.used == s.ledger.used + {r.nonce}
    && t.ledger.nextId == r.id + 1
    && LogOf(t.appends) == LogOf(s.appends) + Line(RunVerified(r))
    && t.up == s.up && t.handlers == s.handlers && t.config == s.config && t.history == s.history
  }

  /** From any reachable state, a submission of k good wins against an open challenge is
      checked, verified and stored: one more run, holding what was submitted, in memory
      and in the file, its nonce consumed, and nothing else changed. */
  lemma HonestRunIsStored(c: Config, steps: seq<Step>, verify: Verifier, id: nat, sub: Submitted, checkMs: nat,
                          commitMs: nat)
      returns (more: seq<Step>, r: RunRecord)
    requires Honest(Run(c, steps, verify), id, sub, checkMs, commitMs, verify)
    ensures var s := Run(c, steps, verify);
            && Records(r, s, sub, commitMs) && StoredLast(s, Run(c, steps + more, verify), r)
            && Run(c, steps + more, verify) == WithRun(s, r)
  {
    var s := Run(c, steps, verify);
    more := StoredFrom(c, steps, s, verify, id, sub, checkMs, commitMs);
    r := RunFor(s, sub, commitMs);
    WithRunStores(s, r, Run(c, steps + more, verify));
  }

  lemma WithRunStores(s: System, r: RunRecord, t: System)
    requires PossibleAppends(s.appends) && PossibleAppends(t.appends)
    requires t == WithRun(s, r) && r.id == s.ledger.nextId
    ensures StoredLast(s, t, r)
  {
    var a := WholeAppend(RunVerified(r));
    assert t.appends[|s.appends|] == a;
    OneMore(s.appends, a);
    assert Piece(a) == Line(RunVerified(r));
  }

  lemma StoredFrom(c: Config, steps: seq<Step>, s: System, verify: Verifier, id: nat, sub: Submitted, checkMs: nat,
                   commitMs: nat)
      returns (more: seq<Step>)
    requires s == Run(c, steps, verify) && Honest(s, id, sub, checkMs, commitMs, verify)
    ensures Run(c, steps + more, verify) == WithRun(s, RunFor(s, sub, commitMs))
  {
    var target := VerifyTarget(s.ledger.pending[sub.nonce].target, sub.statement, s.config);
    var checked := Verified(c, steps, s, verify, id, sub, checkMs, target);
    var commit := CommitNext(c, steps + checked, s, verify, id, sub, target, commitMs);
    more := checked + [commit];
    RunRegrouped(c, steps, checked, [commit], verify);
  }

  lemma CommitNext(c: Config, checked: seq<Step>, s: System, verify: Verifier, id: nat, sub: Submitted, target: Target,
                   commitMs: nat)
      returns (step: Step)
    requires Run(c, checked, verify) == s.(handlers := s.handlers[id := Verifying(sub, target, |sub.blobs|)])
    requires s.up && id !in s.handlers && Acceptable(sub, s.config)
    requires Status(s.ledger, sub.nonce, commitMs).Ok? && s.ledger.pending[sub.nonce].issuedAtMs < TWO_64
    requires commitMs < TWO_64 && s.ledger.nextId < TWO_64
    ensures Run(c, checked + [step], verify)
            == WithRun(s, RunOf(s.ledger, PartsOf(sub, target), s.ledger.pending[sub.nonce].issuedAtMs, commitMs))
  {
    step := Committed(Run(c, checked, verify), s, id, sub, target, commitMs);
    RunSnoc(c, checked, step, verify);
  }

  lemma Verified(c: Config, steps: seq<Step>, s: System, verify: Verifier,
                 id: nat, sub: Submitted, checkMs: nat, target: Target)
      returns (more: seq<Step>)
    requires s == Run(c, steps, verify) && s.up && id !in s.handlers && Acceptable(sub, s.config)
    requires Status(s.ledger, sub.nonce, checkMs).Ok?
    requires target == VerifyTarget(s.ledger.pending[sub.nonce].target, sub.statement, s.config)
    requires AllVerify(sub, target, verify)
    ensures Run(c, steps + more, verify) == s.(handlers := s.handlers[id := Verifying(sub, target, |sub.blobs|)])
  {
    var opening := Opened(c, steps, verify, id, sub, checkMs, target);
    more := [Arrive(id, sub)] + [Check(id, checkMs)] + VerifySteps(id, |sub.blobs|);
    Grouped(steps, [Arrive(id, sub)], [Check(id, checkMs)], VerifySteps(id, |sub.blobs|));
    var t := s.(handlers := s.handlers[id := Verifying(sub, target, 0)]);
    VerifiedAll(c, opening, steps + more, t, verify, id, sub, target, |sub.blobs|);
    Overwrite(s, id, Verifying(sub, target, 0), Verifying(sub, target, |sub.blobs|));
  }

  lemma Grouped(a: seq<Step>, b: seq<Step>, c: seq<Step>, d: seq<Step>)
    ensures a + (b + c + d) == a + b + c + d
  {
  }

  lemma Overwrite(s: System, id: nat, x: Handler, y: Handler)
    ensures s.handlers[id := x][id := y] == s.handlers[id := y]
  {
  }

  lemma Opened(c: Config, steps: seq<Step>, verify: Verifier, id: nat, sub: Submitted, checkMs: nat, target: Target)
      returns (opening: seq<Step>)
    requires var s := Run(c, steps, verify);
             && s.up && id !in s.handlers && Acceptable(sub, s.config) && Status(s.ledger, sub.nonce, checkMs).Ok?
             && target == VerifyTarget(s.ledger.pending[sub.nonce].target, sub.statement, s.config)
    ensures opening == steps + [Arrive(id, sub)] + [Check(id, checkMs)]
    ensures var s := Run(c, steps, verify);
            Run(c, opening, verify) == s.(handlers := s.handlers[id := Verifying(sub, target, 0)])
  {
    var s := Run(c, steps, verify);
    RunSnoc(c, steps, Arrive(id, sub), verify);
    RunSnoc(c, steps + [Arrive(id, sub)], Check(id, checkMs), verify);
    opening := steps + [Arrive(id, sub)] + [Check(id, checkMs)];
    assert s.handlers[id := Validated(sub)][id := Verifying(sub, target, 0)]
           == s.handlers[id := Verifying(sub, target, 0)];
  }

  lemma Committed(v: System, s: System, id: nat, sub: Submitted, target: Target, commitMs: nat) returns (step: Step)
    requires v == s.(handlers := s.handlers[id := Verifying(sub, target, |sub.blobs|)])
    requires s.up && id !in s.handlers && PossibleAppends(s.appends) && Acceptable(sub, s.config)
    requires Status(s.ledger, sub.nonce, commitMs).Ok? && s.ledger.pending[sub.nonce].issuedAtMs < TWO_64
    requires commitMs < TWO_64 && s.ledger.nextId < TWO_64
    ensures step.CommitStep? && step.id == id
    ensures var r := RunOf(s.ledger, PartsOf(sub, target), s.ledger.pending[sub.nonce].issuedAtMs, commitMs);
            ExecCommit(v, id, step.nowMs, step.written) == WithRun(s, r)
  {
    var a := CommitAppend(v, v.handlers[id], commitMs, 0);
    HexText(target);
    step := CommitStep(id, commitMs, |Line(a.event)|);
    assert v.handlers - {id} == s.handlers;
  }

  // ------------------------------------------------------------------------
  // A nonce minted twice
  // ------------------------------------------------------------------------

  function WholeMint(m: Mint): (step: Step) {
    MintStep(m, |Line(ChallengeMinted(m.nonce, m.issuedAtMs, m.target))|)
  }

  lemma RunSnoc(c: Config, steps: seq<Step>, step: Step, verify: Verifier)
    ensures Run(c, steps + [step], verify) == Exec(Run(c, steps, verify), step, verify)
  {
    assert (steps + [step])[..|steps|] == steps;
  }

  lemma RunJoin(c: Config, steps: seq<Step>, more: seq<Step>, step: Step, verify: Verifier)
    ensures Run(c, steps + (more + [step]), verify) == Exec(Run(c, steps + more, verify), step, verify)
  {
    RunSnoc(c, steps + more, step, verify);
    assert steps + (more + [step]) == steps + more + [step];
  }

  lemma RunRegrouped(c: Config, steps: seq<Step>, first: seq<Step>, rest: seq<Step>, verify: Verifier)
    ensures Run(c, steps + (first + rest), verify) == Run(c, steps + first + rest, verify)
  {
    assert steps + (first + rest) == steps + first + rest;
  }

  lemma RunLast(c: Config, steps: seq<Step>, more: seq<Step>, verify: Verifier)
    requires |more| > 0
    ensures Run(c, steps + more, verify)
            == Exec(Run(c, steps + more[..|more| - 1], verify), more[|more| - 1], verify)
  {
    assert more == more[..|more| - 1] + [more[|more| - 1]];
    RunJoin(c, steps, more[..|more| - 1], more[|more| - 1], verify);
  }

  /** The system after the one mint of a fresh boot. */
  function Minted(c: Config, m: Mint): (s: System) {
    Boot(c).(ledger := EMPTY.(pending := map[m.nonce := Pending(m.issuedAtMs, m.target)]),
             appends := [WholeAppend(ChallengeMinted(m.nonce, m.issuedAtMs, m.target))],
             history := History([m], [c]))
  }

  lemma FirstMint(c: Config, m: Mint, verify: Verifier)
    requires m.nonce < TWO_64 && m.issuedAtMs < TWO_64
    ensures Run(c, [WholeMint(m)], verify) == Minted(c, m)
  {
    RunSnoc(c, [], WholeMint(m), verify);
    assert [] + [WholeMint(m)] == [WholeMint(m)];
    MintOnBoot(Boot(c), c, m, verify);
  }

  lemma MintOnBoot(s: System, c: Config, m: Mint, verify: Verifier)
    requires m.nonce < TWO_64 && m.issuedAtMs < TWO_64 && s == Boot(c)
    ensures Exec(s, WholeMint(m), verify) == Minted(c, m)
  {
    assert s.ledger.pending[m.nonce := Pending(m.issuedAtMs, m.target)] == Minted(c, m).ledger.pending;
  }

  /** ... and after the nonce was minted again. */
  function Reminted(c: Config, first: Mint, again: Mint): (s: System) {
    Minted(c, first).(ledger := EMPTY.(pending := map[first.nonce := Pending(again.issuedAtMs, again.target)]),
                      appends := [WholeAppend(ChallengeMinted(first.nonce, first.issuedAtMs, first.target)),
                                  WholeAppend(ChallengeMinted(again.nonce, again.issuedAtMs, again.target))],
                      history := History([first, again], [c]))
  }

  lemma SecondMint(s: System, h: map<nat, Handler>, c: Config, first: Mint, again: Mint, verify: Verifier)
    requires first.nonce == again.nonce < TWO_64 && first.issuedAtMs < TWO_64 && again.issuedAtMs < TWO_64
    requires s == Minted(c, first).(handlers := h)
    ensures Exec(s, WholeMint(again), verify) == Reminted(c, first, again).(handlers := h)
  {
    assert s.ledger.pending[again.nonce := Pending(again.issuedAtMs, again.target)]
           == Reminted(c, first, again).ledger.pending;
  }

  /** A challenge is checked, and its nonce minted again before the wins are verified. */
  lemma AfterRemint(c: Config, first: Mint, again: Mint, sub: Submitted, target: Target, verify: Verifier)
      returns (steps: seq<Step>)
    requires Acceptable(sub, c) && sub.nonce == first.nonce == again.nonce
    requires first.issuedAtMs < TWO_64 && again.issuedAtMs < TWO_64
    requires target == VerifyTarget(first.target, sub.statement, c) && AllVerify(sub, target, verify)
    ensures Run(c, steps, verify)
            == Reminted(c, first, again).(handlers := map[][0 := Verifying(sub, target, |sub.blobs|)])
  {
    FirstMint(c, first, verify);
    var checked := Opened(c, [WholeMint(first)], verify, 0, sub, first.issuedAtMs, target);
    var h := map[][0 := Verifying(sub, target, 0)];
    RunSnoc(c, checked, WholeMint(again), verify);
    SecondMint(Run(c, checked, verify), h, c, first, again, verify);
    var reminted := checked + [WholeMint(again)];
    steps := reminted + VerifySteps(0, |sub.blobs|);
    VerifiedAll(c, reminted, steps, Reminted(c, first, again).(handlers := h), verify, 0, sub, target, |sub.blobs|);
    Overwrite(Reminted(c, first, again), 0, Verifying(sub, target, 0), Verifying(sub, target, |sub.blobs|));
  }

  /** The run such a commit stores: the first target, the second issue time. */
  function MixedRun(c: Config, first: Mint, again: Mint, sub: Submitted): (r: RunRecord) {
    RunOf(EMPTY, PartsOf(sub, VerifyTarget(first.target, sub.statement, c)), again.issuedAtMs, again.issuedAtMs)
  }

  /** The limit of the issued-target result: for any boot, any two mints of a nonce and
      any submission that verifies against the first, the submission is stored with the
      first target and the second issue time when the second mint falls between its check
      and its commit. */
  lemma RemintedTargetDiffers(c: Config, first: Mint, again: Mint, sub: Submitted, verify: Verifier)
      returns (steps: seq<Step>)
    requires Acceptable(sub, c) && sub.nonce == first.nonce == again.nonce
    requires first.issuedAtMs < TWO_64 && again.issuedAtMs < TWO_64
    requires AllVerify(sub, VerifyTarget(first.target, sub.statement, c), verify)
    ensures Run(c, steps, verify) == WithRun(Reminted(c, first, again), MixedRun(c, first, again, sub))
  {
    var target := VerifyTarget(first.target, sub.statement, c);
    var before := AfterRemint(c, first, again, sub, target, verify);
    var commit := CommitNext(c, before, Reminted(c, first, again), verify, 0, sub, target, again.issuedAtMs);
    steps := before + [commit];
  }

  /** Every stored run of the nonce and statement has the target of a mint with its issue
      time, as configuration c reads it. */
  ghost predicate TargetKept(s: System, nonce: nat, statement: Statement, c: Config) {
    forall r :: s.up && r in s.ledger.runs && r.nonce == nonce && r.statement == statement
                ==> MintOf(r, s.history.mints, c)
  }

  ghost predicate MintOf(r: RunRecord, mints: seq<Mint>, c: Config) {
    exists m :: m in mints && m.nonce == r.nonce && m.issuedAtMs == r.issuedAtMs
                && r.target == HexCodec.Hex(VerifyTarget(m.target, r.statement, c))
  }

  predicate OnlyThese(mints: seq<Mint>, first: Mint, again: Mint) {
    forall i :: 0 <= i < |mints| && mints[i].nonce == first.nonce ==> mints[i] == first || mints[i] == again
  }

  /** The nonce was minted as `first` and `again` only, and every boot read the two as c
      does (for tiered mints every configuration does). */
  predicate MintedAs(h: History, c: Config, first: Mint, again: Mint, statement: Statement) {
    && OnlyThese(h.mints, first, again)
    && forall i :: 0 <= i < |h.configs| ==>
         && VerifyTarget(first.target, statement, h.configs[i]) == VerifyTarget(first.target, statement, c)
         && VerifyTarget(again.target, statement, h.configs[i]) == VerifyTarget(again.target, statement, c)
  }

  /** The exact condition: provided some submission verifies against the first mint, a
      nonce minted as `first` and `again` keeps target and issue time together in every
      run of the system if and only if the two mints agree in one of them. */
  lemma TargetKeptExactly(c: Config, first: Mint, again: Mint, sub: Submitted, verify: Verifier)
    requires Acceptable(sub, c) && sub.nonce == first.nonce == again.nonce
    requires first.issuedAtMs < TWO_64 && again.issuedAtMs < TWO_64
    requires AllVerify(sub, VerifyTarget(first.target, sub.statement, c), verify)
    ensures (forall steps :: MintedAs(Run(c, steps, verify).history, c, first, again, sub.statement) ==>
                               TargetKept(Run(c, steps, verify), sub.nonce, sub.statement, c))
            <==> VerifyTarget(first.target, sub.statement, c) == VerifyTarget(again.target, sub.statement, c)
                 || first.issuedAtMs == again.issuedAtMs
  {
    var st := sub.statement;
    if VerifyTarget(first.target, st, c) == VerifyTarget(again.target, st, c) || first.issuedAtMs == again.issuedAtMs {
      forall steps | MintedAs(Run(c, steps, verify).history, c, first, again, st)
        ensures TargetKept(Run(c, steps, verify), sub.nonce, st, c)
      {
        KeptWhenAgreeing(c, steps, first, again, st, verify);
      }
    } else {
      var steps := RemintedTargetDiffers(c, first, again, sub, verify);
      SplitApart(c, first, again, sub);
    }
  }

  lemma KeptWhenAgreeing(c: Config, steps: seq<Step>, first: Mint, again: Mint, statement: Statement, verify: Verifier)
    requires first.nonce == again.nonce && MintedAs(Run(c, steps, verify).history, c, first, again, statement)
    requires VerifyTarget(first.target, statement, c) == VerifyTarget(again.target, statement, c)
             || first.issuedAtMs == again.issuedAtMs
    ensures TargetKept(Run(c, steps, verify), first.nonce, statement, c)
  {
    Reachable(c, steps, verify);
    var s := Run(c, steps, verify);
    forall r | s.up && r in s.ledger.runs && r.nonce == first.nonce && r.statement == statement
      ensures MintOf(r, s.history.mints, c)
    {
      var w :| Vouches(w, r, s.history, verify);
      var m := if first.issuedAtMs == again.issuedAtMs then w.pledged else w.issued;
      assert m in s.history.mints && m.issuedAtMs == r.issuedAtMs;
    }
  }

  lemma SplitApart(c: Config, first: Mint, again: Mint, sub: Submitted)
    requires sub.nonce == first.nonce == again.nonce && first.issuedAtMs != again.issuedAtMs
    requires VerifyTarget(first.target, sub.statement, c) != VerifyTarget(again.target, sub.statement, c)
    ensures var s := WithRun(Reminted(c, first, again), MixedRun(c, first, again, sub));
            MintedAs(s.history, c, first, again, sub.statement) && !TargetKept(s, sub.nonce, sub.statement, c)
  {
    var s, r := WithRun(Reminted(c, first, again), MixedRun(c, first, again, sub)), MixedRun(c, first, again, sub);
    assert s.ledger.runs == [r];
    NoMintOf(c, first, again, sub, r);
  }

  lemma NoMintOf(c: Config, first: Mint, again: Mint, sub: Submitted, r: RunRecord)
    requires first.issuedAtMs != again.issuedAtMs && r == MixedRun(c, first, again, sub)
    requires VerifyTarget(first.target, sub.statement, c) != VerifyTarget(again.target, sub.statement, c)
    ensures !MintOf(r, [first, again], c)
  {
    HexCodec.HexRoundTrip(VerifyTarget(first.target, sub.statement, c));
    HexCodec.HexRoundTrip(VerifyTarget(again.target, sub.statement, c));
  }

  lemma HexText(t: Target)
    ensures Utf8.Valid(HexCodec.Hex(t))
  {
    Utf8.AsciiValid(HexCodec.Hex(t));
  }
}
