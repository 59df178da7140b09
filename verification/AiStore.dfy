/** The AI store: the ledger held in memory beside the log file it is rebuilt from. */
module AiStore {
  import opened Wrappers
  import opened Bytes
  import opened Octets
  import opened Numbers
  import opened Events
  import opened AiLedger
  import Utf8
  import HexCodec

  /** The log file on the persistent volume. A missing file is an empty one. */
  class LogFile {
    var content: Text

    constructor ()
      ensures content == []
    {
      content := [];
    }

    /** Append a line; `written` is how many of its octets the system took. */
    method Append(line: Text, written: nat) returns (ok: bool)
      requires written <= |line|
      modifies this
      ensures content == old(content) + line[..written]
      ensures ok <==> written == |line|
    {
      content := content + line[..written];
      ok := written == |line|;
    }
  }

  datatype Commit = Stored(run: RunRecord) | Rejected(reason: Reject) | AppendFailed

  /** The run holds the submitted parts field by field, stamped with the time of the commit. */
  predicate Records(r: RunRecord, p: RunParts, nowMs: nat) {
    && r.nonce == p.nonce && r.statement == p.statement
    && r.hardware == p.hardware && r.proverVersion == p.proverVersion
    && r.target == HexCodec.Hex(p.target) && r.grindElapsedMs == p.grindElapsedMs
    && r.winExtranonces == p.winExtranonces && r.k == |p.winExtranonces|
    && r.submittedAtMs == nowMs
  }

  class Store {
    const file: LogFile
    var pending: map<nat, Pending>
    var used: set<nat>
    var runs: seq<RunRecord>
    var nextId: nat

    /** The in-memory state as a value. */
    function State(): (l: Ledger)
      reads this
      ensures l.used == used && l.runs == runs && l.nextId == nextId && l.pending == pending
    {
      Ledger(pending, used, runs, nextId)
    }

    /** Memory and file agree: loading the file now would rebuild this state, and the
        file ends where a line may start. */
    ghost predicate InSync()
      reads this, file
    {
      && Utf8.Valid(file.content)
      && ScanText(Scan(EMPTY, []), file.content) == Scan(State(), [])
    }

    constructor Empty(file: LogFile)
      ensures this.file == file && State() == EMPTY
    {
      this.file := file;
      pending, used, runs, nextId := map[], {}, [], 1;
    }

    /** Apply one replayed line in place. */
    method ReplayLine(line: Text)
      modifies this
      ensures State() == ApplyLine(old(State()), line)
    {
      match Decode(line) {
        case None =>
        case Some(ChallengeMinted(nonce, t, target)) =>
          pending := pending[nonce := Pending(t, target)];
        case Some(RunVerified(run)) =>
          pending := pending - {run.nonce};
          used := used + {run.nonce};
          nextId := Max(nextId, run.id + 1);
          runs := runs + [run];
      }
    }

    /** Replay the file, line by line; refused as a whole when it is not a string. */
    static method Load(file: LogFile) returns (store: Store?)
      ensures store == null <==> Replay(file.content) == None
      ensures store != null ==> fresh(store) && store.file == file
                                && Replay(file.content) == Some(store.State())
      ensures file.content == old(file.content)
    {
      if !Utf8.Valid(file.content) { return null; }
      var raw := file.content;
      var s := new Store.Empty(file);
      var line: Text := [];
      var i := 0;
      while i < |raw|
        invariant 0 <= i <= |raw| && fresh(s) && s.file == file && file.content == raw
        invariant ScanText(Scan(EMPTY, []), raw[..i]) == Scan(s.State(), line)
      {
        ScanNext(Scan(EMPTY, []), raw, i);
        if raw[i] == '\n' {
          s.ReplayLine(line);
          line := [];
        } else {
          line := line + [raw[i]];
        }
        i := i + 1;
      }
      assert raw[..i] == raw;
      s.ReplayLine(line);
      store := s;
    }

    /** Record a freshly minted challenge: in memory only once its line is written. */
    method RecordChallenge(nonce: nat, issuedAtMs: nat, target: Option<Target>, written: nat) returns (ok: bool)
      requires PossibleAppend(Append(ChallengeMinted(nonce, issuedAtMs, target), written))
      modifies this, file
      ensures var a := Append(ChallengeMinted(nonce, issuedAtMs, target), written);
              && (ok <==> IsWhole(a))
              && file.content == old(file.content) + Piece(a)
              && State() == if ok then Apply(old(State()), a.event) else old(State())
      ensures old(InSync()) && ok ==> InSync()
    {
      var e := ChallengeMinted(nonce, issuedAtMs, target);
      ghost var before := file.content;
      ghost var was := State();
      ok := file.Append(Line(e), written);
      if ok {
        pending := pending[nonce := Pending(issuedAtMs, target)];
        StaysInSync(before, was, Append(e, written));
      }
    }

    /** Is the nonce pending, unexpired and unused? */
    method ChallengeStatus(nonce: nat, nowMs: nat) returns (r: Result<Pending, Reject>)
      ensures r == Status(State(), nonce, nowMs)
      ensures r.Ok? <==> && nonce !in used && nonce in pending
                         && (nowMs < pending[nonce].issuedAtMs || nowMs - pending[nonce].issuedAtMs <= 3_600_000)
    {
      if nonce in used { return Err(NonceUsed); }
      if nonce !in pending { return Err(UnknownNonce); }
      var p := pending[nonce];
      if SaturatingSub(nowMs, p.issuedAtMs) > AI_WINDOW_MS { return Err(StaleNonce); }
      return Ok(p);
    }

    /** Re-check the challenge, append the run, then consume the nonce. A rejection or a
        failed append changes nothing in memory. */
    method CommitRun(p: RunParts, nowMs: nat, written: nat) returns (r: Commit)
      requires Status(State(), p.nonce, nowMs).Ok? ==>
                 var run := RunOf(State(), p, State().pending[p.nonce].issuedAtMs, nowMs);
                 PossibleAppend(Append(RunVerified(run), written))
      modifies this, file
      ensures old(Status(State(), p.nonce, nowMs)).Err? ==>
                && r == Rejected(old(Status(State(), p.nonce, nowMs)).error)
                && State() == old(State()) && file.content == old(file.content)
      ensures old(Status(State(), p.nonce, nowMs)).Ok? ==>
                var a := Append(RunVerified(RunOf(old(State()), p, old(pending[p.nonce]).issuedAtMs, nowMs)), written);
                && file.content == old(file.content) + Piece(a)
                && (IsWhole(a) ==> r == Stored(a.event.run) && State() == Apply(old(State()), a.event))
                && (!IsWhole(a) ==> r == AppendFailed && State() == old(State()))
      ensures r.Stored? ==> p.nonce !in old(used) && p.nonce in old(pending) && Records(r.run, p, nowMs)
                            && r.run.id == old(nextId) && r.run.issuedAtMs == old(pending)[p.nonce].issuedAtMs
                            && file.content == old(file.content) + Line(RunVerified(r.run))
                            && runs == old(runs) + [r.run] && nextId == old(nextId) + 1
                            && used == old(used) + {p.nonce} && pending == old(pending) - {p.nonce}
      ensures old(InSync()) && !r.AppendFailed? ==> InSync()
    {
      var status := ChallengeStatus(p.nonce, nowMs);
      if status.Err? { return Rejected(status.error); }
      var run := RunOf(State(), p, status.value.issuedAtMs, nowMs);
      ghost var before := file.content;
      ghost var was := State();
      var ok := file.Append(Line(RunVerified(run)), written);
      if !ok { return AppendFailed; }
      pending := pending - {p.nonce};
      used := used + {p.nonce};
      nextId := nextId + 1;
      runs := runs + [run];
      StaysInSync(before, was, Append(RunVerified(run), written));
      r := Stored(run);
    }
  }

  lemma ScanNext(s: Scan, t: Text, i: nat)
    requires i < |t|
    ensures ScanText(s, t[..i + 1]) == ScanOctet(ScanText(s, t[..i]), t[i])
  {
    assert t[..i + 1] == t[..i] + [t[i]];
    ScanConcat(s, t[..i], [t[i]]);
    assert [t[i]][1..] == [];
  }

  /** A whole append keeps a synchronized file synchronized. */
  lemma StaysInSync(before: Text, l: Ledger, a: Append)
    requires PossibleAppend(a) && IsWhole(a)
    ensures Utf8.Valid(before) && ScanText(Scan(EMPTY, []), before) == Scan(l, []) ==>
              && Utf8.Valid(before + Piece(a))
              && ScanText(Scan(EMPTY, []), before + Piece(a)) == Scan(Apply(l, a.event), [])
  {
    ScanConcat(Scan(EMPTY, []), before, Piece(a));
    ScanPiece(Scan(l, []), a);
    EventRoundTrip(a.event);
    assert [] + Encode(a.event) == Encode(a.event);
    WholeCutsCleanly(a);
    Utf8.WalkConcat(Utf8.Boundary, before, Piece(a));
  }
}
