/** The AI track's state, the events that change it, and its byte log: what replaying
    a log rebuilds, for every sequence of appends that may each be cut short. */
module AiLedger {
  import opened Wrappers
  import opened Bytes
  import opened Octets
  import opened Json
  import opened Numbers
  import opened Events
  import opened Tiers
  import HexCodec
  import Utf8

  /** A challenge expires this many milliseconds after it was minted. */
  const AI_WINDOW_MS: nat := 3_600_000

  datatype Pending = Pending(issuedAtMs: nat, target: Option<Target>)

  /** Challenges minted but not consumed, nonces consumed, runs in order, next id. */
  datatype Ledger = Ledger(pending: map<nat, Pending>, used: set<nat>, runs: seq<RunRecord>, nextId: nat)

  const EMPTY: Ledger := Ledger(map[], {}, [], 1)

  /** The effect of one replayed event. */
  function Apply(l: Ledger, e: Event): (r: Ledger) {
    match e
    case ChallengeMinted(nonce, t, target) => l.(pending := l.pending[nonce := Pending(t, target)])
    case RunVerified(run) =>
      Ledger(l.pending - {run.nonce}, l.used + {run.nonce}, l.runs + [run], Max(l.nextId, run.id + 1))
  }

  function ApplyAll(l: Ledger, es: seq<Event>): (r: Ledger) {
    if |es| == 0 then l else Apply(ApplyAll(l, es[..|es| - 1]), es[|es| - 1])
  }

  datatype Reject = NonceUsed | UnknownNonce | StaleNonce

  function SaturatingSub(a: nat, b: nat): (d: nat) {
    if a < b then 0 else a - b
  }

  /** Is the nonce unused, pending and unexpired? */
  function Status(l: Ledger, nonce: nat, nowMs: nat): (r: Result<Pending, Reject>) {
    if nonce in l.used then Err(NonceUsed)
    else if nonce !in l.pending then Err(UnknownNonce)
    else if SaturatingSub(nowMs, l.pending[nonce].issuedAtMs) > AI_WINDOW_MS then Err(StaleNonce)
    else Ok(l.pending[nonce])
  }

  /** The parts of a run its submitter and the verifying handler settle. */
  datatype RunParts = RunParts(
    nonce: nat,
    statement: Statement,
    hardware: Text,
    proverVersion: Text,
    target: Target,
    grindElapsedMs: nat,
    winExtranonces: seq<nat>)

  /** The run a commit stores. */
  function RunOf(l: Ledger, p: RunParts, issuedAtMs: nat, nowMs: nat): (r: RunRecord) {
    RunRecord(l.nextId, p.nonce, p.hardware, p.proverVersion, p.statement, |p.winExtranonces|,
              HexCodec.Hex(p.target), p.grindElapsedMs, p.winExtranonces, issuedAtMs, nowMs)
  }

  // ------------------------------------------------------------------------
  // Replay
  // ------------------------------------------------------------------------

  /** The ledger so far and the line not yet ended. */
  datatype Scan = Scan(ledger: Ledger, tail: Text)

  /** One line of the log: an event, or nothing when it does not parse. */
  function ApplyLine(l: Ledger, line: Text): (r: Ledger) {
    match Decode(line)
    case Some(e) => Apply(l, e)
    case None => l
  }

  function ScanOctet(s: Scan, c: octet): (r: Scan) {
    if c == '\n' then Scan(ApplyLine(s.ledger, s.tail), []) else Scan(s.ledger, s.tail + [c])
  }

  function ScanText(s: Scan, t: Text): (r: Scan)
    decreases t
  {
    if |t| == 0 then s else ScanText(ScanOctet(s, t[0]), t[1..])
  }

  /** Loading a log: none when the file is not a string; otherwise all its lines, the
      last one ended or not. */
  function Replay(log: Text): (r: Option<Ledger>) {
    if !Utf8.Valid(log) then None
    else var s := ScanText(Scan(EMPTY, []), log); Some(ApplyLine(s.ledger, s.tail))
  }

  lemma {:induction false} ScanConcat(s: Scan, a: Text, b: Text)
    ensures ScanText(s, a + b) == ScanText(ScanText(s, a), b)
    decreases a
  {
    if |a| == 0 {
      assert a + b == b;
    } else {
      assert (a + b)[1..] == a[1..] + b;
      ScanConcat(ScanOctet(s, a[0]), a[1..], b);
    }
  }

  lemma {:induction false} ScanOneLine(s: Scan, t: Text)
    requires Utf8.OneLine(t)
    ensures ScanText(s, t) == Scan(s.ledger, s.tail + t)
    decreases t
  {
    if |t| == 0 {
      assert s.tail + t == s.tail;
    } else {
      ScanOneLine(ScanOctet(s, t[0]), t[1..]);
      assert s.tail + [t[0]] + t[1..] == s.tail + t;
    }
  }

  // ------------------------------------------------------------------------
  // Appends that may be cut short
  // ------------------------------------------------------------------------

  /** One append: the event and how many octets of its line reached the file. */
  datatype Append = Append(event: Event, written: nat)

  predicate PossibleAppend(a: Append) {
    Representable(a.event) && a.written <= |Line(a.event)|
  }

  predicate IsWhole(a: Append) {
    a.written == |Line(a.event)|
  }

  function Piece(a: Append): (t: Text)
    requires PossibleAppend(a)
  {
    Line(a.event)[..a.written]
  }

  predicate PossibleAppends(appends: seq<Append>) {
    forall i :: 0 <= i < |appends| ==> PossibleAppend(appends[i])
  }

  /** The file after a sequence of appends. */
  function LogOf(appends: seq<Append>): (t: Text)
    requires PossibleAppends(appends)
  {
    if |appends| == 0 then [] else LogOf(appends[..|appends| - 1]) + Piece(appends[|appends| - 1])
  }

  /** What stands on the last, unended line: nothing, one event lacking only its line
      break, or a fragment nothing can complete. */
  datatype Tail = Clean | Unended(event: Event) | Spoiled

  datatype Survivors = Survivors(events: seq<Event>, tail: Tail)

  /** The effect of one append on what replay will find. A whole append survives on a
      line of its own; after a fragment it only ends the fragment's line. */
  function AfterAppend(s: Survivors, a: Append): (r: Survivors) {
    if a.written == 0 then s
    else if s.tail == Clean then
      if IsWhole(a) then Survivors(s.events + [a.event], Clean)
      else if a.written == |Encode(a.event)| then Survivors(s.events, Unended(a.event))
      else Survivors(s.events, Spoiled)
    else Survivors(s.events, if IsWhole(a) then Clean else Spoiled)
  }

  function SurvivorsOf(appends: seq<Append>): (s: Survivors) {
    if |appends| == 0 then Survivors([], Clean)
    else AfterAppend(SurvivorsOf(appends[..|appends| - 1]), appends[|appends| - 1])
  }

  /** The events a survivor list stands for. */
  function Found(s: Survivors): (es: seq<Event>) {
    s.events + (if s.tail.Unended? then [s.tail.event] else [])
  }

  /** The cut falls between characters. */
  predicate CutsCleanly(a: Append)
    requires PossibleAppend(a)
  {
    Utf8.Valid(Piece(a))
  }

  predicate AllCutsClean(appends: seq<Append>)
    requires PossibleAppends(appends)
  {
    forall i :: 0 <= i < |appends| ==> CutsCleanly(appends[i])
  }

  predicate AllWhole(appends: seq<Append>) {
    forall i :: 0 <= i < |appends| ==> IsWhole(appends[i])
  }

  /** How a scanned log and its survivors correspond. */
  ghost predicate Matches(s: Scan, v: Survivors) {
    && s.ledger == ApplyAll(EMPTY, v.events)
    && match v.tail
       case Clean => s.tail == []
       case Unended(e) => Representable(e) && s.tail == Encode(e)
       case Spoiled => Entered(Read(START, s.tail)) && !Read(START, s.tail).Done?
  }

  lemma BraceEnters(t: Text)
    requires |t| > 0 && t[0] == '{'
    ensures Entered(Read(START, t))
  {
    EnteredRead(Step(START, t[0]), t[1..]);
  }

  lemma EventOpening(e: Event)
    requires Representable(e)
    ensures Writable(Obj(FieldsOf(e))) && Encode(e) == Write(Obj(FieldsOf(e)))
    ensures |FieldsOf(e)[0].key| > 0 && FieldsOf(e)[0].key[0] == 'e'
  {
    FieldsWritable(e);
  }

  /** A proper prefix of an event's text never parses. */
  lemma ProperPrefix(e: Event, n: nat)
    requires Representable(e) && 0 < n < |Encode(e)|
    ensures Entered(Read(START, Encode(e)[..n])) && !Read(START, Encode(e)[..n]).Done?
  {
    EventRoundTrip(e);
    var t := Encode(e);
    BraceEnters(t[..n]);
    assert t == t[..n] + t[n..];
    PrefixNotDone(START, t[..n], t[n..]);
  }

  /** After anything that entered an object, an event's text, whole or cut, spoils. */
  lemma Glued(tail: Text, e: Event, n: nat)
    requires Entered(Read(START, tail))
    requires Representable(e) && 0 < n <= |Encode(e)|
    ensures var s := Read(START, tail + Encode(e)[..n]); Entered(s) && !s.Done?
  {
    EventOpening(e);
    ReadConcat(START, tail, Encode(e)[..n]);
    EnteredRead(Read(START, tail), Encode(e)[..n]);
    GlueNeverDone(Read(START, tail), FieldsOf(e), n);
  }

  lemma PieceShape(a: Append)
    requires PossibleAppend(a)
    ensures Utf8.OneLine(Encode(a.event))
    ensures IsWhole(a) ==> Piece(a) == Encode(a.event) + ['\n']
    ensures !IsWhole(a) ==> a.written <= |Encode(a.event)| && Piece(a) == Encode(a.event)[..a.written]
  {
    EventRoundTrip(a.event);
  }

  lemma ScanPiece(s: Scan, a: Append)
    requires PossibleAppend(a)
    ensures !IsWhole(a) ==> ScanText(s, Piece(a)) == Scan(s.ledger, s.tail + Encode(a.event)[..a.written])
    ensures IsWhole(a) ==> ScanText(s, Piece(a)) == Scan(ApplyLine(s.ledger, s.tail + Encode(a.event)), [])
  {
    PieceShape(a);
    var t := Encode(a.event);
    if IsWhole(a) {
      ScanConcat(s, t, ['\n']);
      ScanOneLine(s, t);
      assert ['\n'][1..] == [];
    } else {
      ScanOneLine(s, t[..a.written]);
    }
  }

  lemma ApplyAllSnoc(l: Ledger, es: seq<Event>, e: Event)
    ensures ApplyAll(l, es + [e]) == Apply(ApplyAll(l, es), e)
  {
  }

  /** Every append keeps the correspondence. */
  lemma AppendMatches(s: Scan, v: Survivors, a: Append)
    requires Matches(s, v) && PossibleAppend(a)
    ensures Matches(ScanText(s, Piece(a)), AfterAppend(v, a))
  {
    ScanPiece(s, a);
    EventRoundTrip(a.event);
    var t := Encode(a.event);
    if a.written == 0 {
      assert s.tail + t[..0] == s.tail;
    } else if v.tail == Clean {
      assert s.tail + t == t;
      ApplyAllSnoc(EMPTY, v.events, a.event);
      if !IsWhole(a) {
        assert s.tail + t[..a.written] == t[..a.written];
        if a.written < |t| { ProperPrefix(a.event, a.written); } else { assert t[..a.written] == t; }
      }
    } else {
      if v.tail.Unended? { EventRoundTrip(v.tail.event); }
      if IsWhole(a) {
        Glued(s.tail, a.event, |t|);
        assert t[..|t|] == t;
      } else {
        Glued(s.tail, a.event, a.written);
      }
    }
  }

  lemma {:induction false} LogMatches(appends: seq<Append>)
    requires PossibleAppends(appends)
    ensures Matches(ScanText(Scan(EMPTY, []), LogOf(appends)), SurvivorsOf(appends))
  {
    if |appends| > 0 {
      var init, a := appends[..|appends| - 1], appends[|appends| - 1];
      LogMatches(init);
      AppendMatches(ScanText(Scan(EMPTY, []), LogOf(init)), SurvivorsOf(init), a);
      ScanConcat(Scan(EMPTY, []), LogOf(init), Piece(a));
    }
  }

  /** A log is a string exactly when every cut fell between characters: a cut inside
      one is never repaired by what follows. */
  lemma {:induction false} LogValidIff(appends: seq<Append>)
    requires PossibleAppends(appends)
    ensures Utf8.Valid(LogOf(appends)) <==> AllCutsClean(appends)
  {
    if |appends| > 0 {
      var init, a := appends[..|appends| - 1], appends[|appends| - 1];
      LogValidIff(init);
      PieceValidIff(LogOf(init), a);
      if AllCutsClean(appends) {
        assert forall i :: 0 <= i < |init| ==> appends[i] == init[i];
      }
    }
  }

  lemma PieceValidIff(log: Text, a: Append)
    requires PossibleAppend(a)
    ensures Utf8.Valid(log + Piece(a)) <==> Utf8.Valid(log) && CutsCleanly(a)
  {
    Utf8.WalkConcat(Utf8.Boundary, log, Piece(a));
    EventRoundTrip(a.event);
    if !Utf8.Valid(log) && a.written > 0 {
      assert Piece(a)[0] == '{';
      Utf8.CutIsFatal(Utf8.Walk(Utf8.Boundary, log), Piece(a));
    }
  }

  /** The file is empty or ends with a line break: the next event gets a line of its own. */
  predicate EndsLine(log: Text) {
    |log| == 0 || log[|log| - 1] == '\n'
  }

  /** The last line is clean exactly when the file ends with a line break. */
  lemma {:induction false} CleanMeansEnded(appends: seq<Append>)
    requires PossibleAppends(appends)
    ensures SurvivorsOf(appends).tail == Clean <==> EndsLine(LogOf(appends))
  {
    if |appends| > 0 {
      var init, a := appends[..|appends| - 1], appends[|appends| - 1];
      CleanMeansEnded(init);
      PieceEnds(a);
    }
  }

  lemma PieceEnds(a: Append)
    requires PossibleAppend(a)
    ensures |Piece(a)| == a.written
    ensures a.written > 0 ==> (Piece(a)[a.written - 1] == '\n' <==> IsWhole(a))
  {
    EventRoundTrip(a.event);
  }

  /** Replay, exactly, for every sequence of appends however each was cut: the load
      fails if and only if some cut fell inside a character; otherwise it rebuilds the
      ledger of the surviving events and no other. */
  lemma ReplayExact(appends: seq<Append>)
    requires PossibleAppends(appends)
    ensures Replay(LogOf(appends)) ==
              if AllCutsClean(appends) then Some(ApplyAll(EMPTY, Found(SurvivorsOf(appends)))) else None
  {
    LogValidIff(appends);
    LogMatches(appends);
    EndOfLog(ScanText(Scan(EMPTY, []), LogOf(appends)), SurvivorsOf(appends));
  }

  lemma EndOfLog(s: Scan, v: Survivors)
    requires Matches(s, v)
    ensures ApplyLine(s.ledger, s.tail) == ApplyAll(EMPTY, Found(v))
  {
    match v.tail
    case Clean =>
      assert Read(START, []) == START;
      assert Found(v) == v.events;
    case Unended(e) =>
      EventRoundTrip(e);
      ApplyAllSnoc(EMPTY, v.events, e);
    case Spoiled =>
      assert Found(v) == v.events;
  }

  function EventsOf(appends: seq<Append>): (es: seq<Event>)
    ensures |es| == |appends|
  {
    seq(|appends|, i requires 0 <= i < |appends| => appends[i].event)
  }

  lemma OneMore(appends: seq<Append>, a: Append)
    requires PossibleAppends(appends) && PossibleAppend(a)
    ensures PossibleAppends(appends + [a])
    ensures SurvivorsOf(appends + [a]) == AfterAppend(SurvivorsOf(appends), a)
    ensures LogOf(appends + [a]) == LogOf(appends) + Piece(a)
    ensures AllCutsClean(appends + [a]) <==> AllCutsClean(appends) && CutsCleanly(a)
  {
    var all := appends + [a];
    assert all[..|appends|] == appends && all[|appends|] == a;
    if AllCutsClean(all) {
      assert forall i :: 0 <= i < |appends| ==> all[i] == appends[i];
    }
  }

  lemma {:induction false} AllWholeSurvive(appends: seq<Append>)
    requires PossibleAppends(appends) && AllWhole(appends)
    ensures SurvivorsOf(appends) == Survivors(EventsOf(appends), Clean)
    ensures AllCutsClean(appends)
  {
    if |appends| > 0 {
      var init, a := appends[..|appends| - 1], appends[|appends| - 1];
      AllWholeSurvive(init);
      assert EventsOf(init) + [a.event] == EventsOf(appends);
      WholeCutsCleanly(a);
      assert init + [a] == appends;
      OneMore(init, a);
    }
  }

  lemma WholeCutsCleanly(a: Append)
    requires PossibleAppend(a) && IsWhole(a)
    ensures CutsCleanly(a)
  {
    PieceShape(a);
    EventRoundTrip(a.event);
    Utf8.AsciiValid(['\n']);
    Utf8.ValidConcat(Encode(a.event), ['\n']);
  }

  /** While every append is whole, replay rebuilds exactly the state that applying each
      event in memory produced. */
  lemma ReplayWhole(appends: seq<Append>)
    requires PossibleAppends(appends) && AllWhole(appends)
    ensures Replay(LogOf(appends)) == Some(ApplyAll(EMPTY, EventsOf(appends)))
  {
    AllWholeSurvive(appends);
    ReplayExact(appends);
    assert Found(SurvivorsOf(appends)) == EventsOf(appends);
  }

  /** A torn last append: before or after, never anything else; after exactly when the
      whole text reached the file, and no load at all exactly when the cut fell inside
      a character. */
  lemma TornLastAppend(appends: seq<Append>, a: Append)
    requires PossibleAppends(appends) && PossibleAppend(a) && AllWhole(appends)
    ensures PossibleAppends(appends + [a])
    ensures var before := ApplyAll(EMPTY, EventsOf(appends));
            Replay(LogOf(appends + [a])) ==
              if !CutsCleanly(a) then None
              else if a.written >= |Encode(a.event)| then Some(Apply(before, a.event))
              else Some(before)
  {
    AllWholeSurvive(appends);
    OneMore(appends, a);
    ReplayExact(appends + [a]);
    FoundAfterTear(EventsOf(appends), a);
    ApplyAllSnoc(EMPTY, EventsOf(appends), a.event);
  }

  /** A torn last append can make the whole file unreadable exactly when its line leaves
      ASCII. */
  lemma UnreadableExactly(appends: seq<Append>, e: Event)
    requires PossibleAppends(appends) && AllWhole(appends) && Representable(e)
    ensures (exists n :: 0 <= n <= |Line(e)| && Replay(LogOf(Torn(appends, e, n))) == None) <==> !Ascii(Line(e))
  {
    forall n | 0 <= n <= |Line(e)|
      ensures Replay(LogOf(Torn(appends, e, n))) == None <==> !Utf8.Valid(Line(e)[..n])
    {
      TornLastAppend(appends, Append(e, n));
    }
    Utf8.CutsIff(Line(e));
  }

  /** The log after whole appends and n octets of event e. */
  function Torn(appends: seq<Append>, e: Event, n: nat): (all: seq<Append>)
    requires PossibleAppends(appends) && Representable(e) && n <= |Line(e)|
    ensures PossibleAppends(all)
  {
    OneMore(appends, Append(e, n));
    appends + [Append(e, n)]
  }

  /** The two octets of one character. */
  function Accented(): (t: Text) {
    [0xC3 as char, 0xA9 as char]
  }

  lemma AccentedText()
    ensures Utf8.Valid(Accented()) && !Ascii(Accented()) && Utf8.Valid([])
  {
    var t := Accented();
    assert t[1..][1..] == [];
    assert t[0] as int >= 0x80;
  }

  lemma ForeignHardware(r: RunRecord)
    requires !Ascii(r.hardware)
    ensures !Ascii(Line(RunVerified(r)))
  {
    var fs := RunFields(r);
    assert fs[2] == Field("hardware", Str(r.hardware));
    Utf8.FieldForeign(fs, 2);
    Utf8.ForeignPart(['{'], WriteFields(fs), ['}']);
    Utf8.ForeignPart([], Encode(RunVerified(r)), ['\n']);
  }

  /** One such event: a run on hardware whose name is a single two-octet character. */
  lemma TornInsideCharacter(appends: seq<Append>, target: Target) returns (r: RunRecord, n: nat)
    requires PossibleAppends(appends) && AllWhole(appends)
    ensures Representable(RunVerified(r)) && n <= |Line(RunVerified(r))|
    ensures Replay(LogOf(Torn(appends, RunVerified(r), n))) == None
  {
    AccentedText();
    r := RunRecord(1, 7, Accented(), [], Dense, 1, HexCodec.Hex(target), 1, [0], 0, 0);
    Utf8.AsciiValid(r.target);
    ForeignHardware(r);
    UnreadableExactly(appends, RunVerified(r));
    n :| 0 <= n <= |Line(RunVerified(r))| && Replay(LogOf(Torn(appends, RunVerified(r), n))) == None;
  }

  lemma FoundAfterTear(es: seq<Event>, a: Append)
    requires PossibleAppend(a)
    ensures Found(AfterAppend(Survivors(es, Clean), a)) ==
              if a.written >= |Encode(a.event)| then es + [a.event] else es
  {
    EventRoundTrip(a.event);
  }

  /** An unended line swallows the next append: after a fragment, the next whole event
      is in memory but not in the log, and an event that lacked only its line break is
      lost with it. From then on the log is clean again. */
  lemma FragmentSwallowsNext(appends: seq<Append>, torn: Append, next: Append)
    requires PossibleAppends(appends) && PossibleAppend(torn) && PossibleAppend(next) && AllWhole(appends)
    requires 0 < torn.written && !IsWhole(torn) && CutsCleanly(torn) && IsWhole(next)
    ensures PossibleAppends(appends + [torn] + [next])
    ensures SurvivorsOf(appends + [torn] + [next]) == Survivors(EventsOf(appends), Clean)
    ensures Replay(LogOf(appends + [torn] + [next])) == Some(ApplyAll(EMPTY, EventsOf(appends)))
  {
    AllWholeSurvive(appends);
    WholeCutsCleanly(next);
    OneMore(appends, torn);
    OneMore(appends + [torn], next);
    ReplayExact(appends + [torn] + [next]);
    assert Found(Survivors(EventsOf(appends), Clean)) == EventsOf(appends);
  }

  /** What has survived on ended lines survives every later append, cut or not. */
  lemma {:induction false} SurvivorsPersist(appends: seq<Append>, later: seq<Append>)
    ensures SurvivorsOf(appends).events <= SurvivorsOf(appends + later).events
  {
    var all := appends + later;
    if |later| == 0 {
      assert all == appends;
    } else {
      SurvivorsPersist(appends, later[..|later| - 1]);
      assert all[..|all| - 1] == appends + later[..|later| - 1];
    }
  }
}
