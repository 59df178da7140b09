/** The AI track's log events and their one-line JSON form. */
module Events {
  import opened Wrappers
  import opened Bytes
  import opened Octets
  import opened Json
  import opened Numbers
  import Utf8
  import HexCodec
  import opened Tiers

  /** One verified run, as persisted. Times are server-observed milliseconds. */
  datatype RunRecord = RunRecord(
    id: nat,
    nonce: nat,
    hardware: Text,
    proverVersion: Text,
    statement: Statement,
    k: nat,
    target: Text,
    grindElapsedMs: nat,
    winExtranonces: seq<nat>,
    issuedAtMs: nat,
    submittedAtMs: nat)

  datatype Event =
    | ChallengeMinted(nonce: nat, issuedAtMs: nat, target: Option<Target>)
    | RunVerified(run: RunRecord)

  /** Numbers fit u64 and texts are UTF-8, as the field types guarantee. */
  predicate Representable(e: Event) {
    match e
    case ChallengeMinted(nonce, t, _) => nonce < TWO_64 && t < TWO_64
    case RunVerified(r) =>
      && r.id < TWO_64 && r.nonce < TWO_64 && r.k < TWO_64 && r.grindElapsedMs < TWO_64
      && r.issuedAtMs < TWO_64 && r.submittedAtMs < TWO_64
      && (forall i :: 0 <= i < |r.winExtranonces| ==> r.winExtranonces[i] < TWO_64)
      && Utf8.Valid(r.hardware) && Utf8.Valid(r.proverVersion) && Utf8.Valid(r.target)
  }

  function StatementName(s: Statement): (t: Text) {
    match s
    case Dense => "dense"
    case CanonicalMoe => "canonical-moe"
  }

  function NumOf(n: nat): (v: Value) {
    Num(Decimal(n))
  }

  function NumList(ns: seq<nat>): (vs: seq<Value>)
    ensures |vs| == |ns|
  {
    seq(|ns|, i requires 0 <= i < |ns| => NumOf(ns[i]))
  }

  /** Member i of a challenge's object; an untiered one has no target member. */
  function ChallengeField(nonce: nat, issuedAtMs: nat, target: Option<Target>, i: nat): (f: Field)
    requires i < 3 || (i == 3 && target.Some?)
  {
    if i == 0 then Field("ev", Str("challenge"))
    else if i == 1 then Field("issued_at_ms", NumOf(issuedAtMs))
    else if i == 2 then Field("nonce", NumOf(nonce))
    else Field("target", Str(HexCodec.Hex(target.value)))
  }

  function ChallengeFields(nonce: nat, issuedAtMs: nat, target: Option<Target>): (fs: seq<Field>)
    ensures |fs| == if target.Some? then 4 else 3
  {
    var n := if target.Some? then 4 else 3;
    seq(n, i requires 0 <= i < n => ChallengeField(nonce, issuedAtMs, target, i))
  }

  /** Member i of a run's object. */
  function RunField(r: RunRecord, i: nat): (f: Field)
    requires i < 12
  {
    if i == 0 then Field("ev", Str("run"))
    else if i == 1 then Field("grind_elapsed_ms", NumOf(r.grindElapsedMs))
    else if i == 2 then Field("hardware", Str(r.hardware))
    else if i == 3 then Field("id", NumOf(r.id))
    else if i == 4 then Field("issued_at_ms", NumOf(r.issuedAtMs))
    else if i == 5 then Field("k", NumOf(r.k))
    else if i == 6 then Field("nonce", NumOf(r.nonce))
    else if i == 7 then Field("prover_version", Str(r.proverVersion))
    else if i == 8 then Field("statement", Str(StatementName(r.statement)))
    else if i == 9 then Field("submitted_at_ms", NumOf(r.submittedAtMs))
    else if i == 10 then Field("target", Str(r.target))
    else Field("win_extranonces", Arr(NumList(r.winExtranonces)))
  }

  function RunFields(r: RunRecord): (fs: seq<Field>)
    ensures |fs| == 12
  {
    seq(12, i requires 0 <= i < 12 => RunField(r, i))
  }

  function FieldsOf(e: Event): (fs: seq<Field>)
    ensures |fs| >= 3 && fs[0].key == "ev"
  {
    match e
    case ChallengeMinted(nonce, t, target) => ChallengeFields(nonce, t, target)
    case RunVerified(r) => RunFields(r)
  }

  /** The event's text, without the line break that ends its line. */
  function Encode(e: Event): (t: Text) {
    Write(Obj(FieldsOf(e)))
  }

  function Line(e: Event): (t: Text) {
    Encode(e) + ['\n']
  }

  // ------------------------------------------------------------------------
  // Reading events back
  // ------------------------------------------------------------------------

  /** A member of an object; the last one of that name. */
  function Member(fields: seq<Field>, key: Text): (r: Option<Value>)
    decreases fields
  {
    if |fields| == 0 then None
    else if fields[|fields| - 1].key == key then Some(fields[|fields| - 1].val)
    else Member(fields[..|fields| - 1], key)
  }

  function AsText(v: Option<Value>): (r: Option<Text>) {
    if v.Some? && v.value.Str? then Some(v.value.text) else None
  }

  function AsU64(v: Option<Value>): (r: Option<nat>)
    ensures r.Some? ==> r.value < TWO_64
  {
    if v.Some? && v.value.Num? && (forall i :: 0 <= i < |v.value.digits| ==> IsDigit(v.value.digits[i]))
       && DecimalValue(v.value.digits) < TWO_64
    then Some(DecimalValue(v.value.digits)) else None
  }

  function AsU64List(v: Option<Value>): (r: Option<seq<nat>>) {
    if v.Some? && v.value.Arr? && (forall i :: 0 <= i < |v.value.items| ==> AsU64(Some(v.value.items[i])).Some?)
    then Some(seq(|v.value.items|, i requires 0 <= i < |v.value.items| => AsU64(Some(v.value.items[i])).value))
    else None
  }

  /** Absent means dense: such rows predate the field. */
  function AsStatement(v: Option<Value>): (r: Option<Statement>) {
    match v
    case None => Some(Dense)
    case Some(j) =>
      if j == Str("dense") then Some(Dense)
      else if j == Str("canonical-moe") then Some(CanonicalMoe)
      else None
  }

  /** An absent or unparseable target falls back to the configured one. */
  function AsTarget(v: Option<Value>): (r: Option<Target>) {
    match AsText(v)
    case None => None
    case Some(t) => if HexCodec.ParseResult(t).Parsed? then Some(HexCodec.ParseResult(t).bytes) else None
  }

  function ReadChallenge(fs: seq<Field>): (r: Option<Event>) {
    var nonce, t := AsU64(Member(fs, "nonce")), AsU64(Member(fs, "issued_at_ms"));
    if nonce == None || t == None then None
    else Some(ChallengeMinted(nonce.value, t.value, AsTarget(Member(fs, "target"))))
  }

  function ReadRun(fs: seq<Field>): (r: Option<Event>) {
    var id, nonce, k := AsU64(Member(fs, "id")), AsU64(Member(fs, "nonce")), AsU64(Member(fs, "k"));
    var hardware, version := AsText(Member(fs, "hardware")), AsText(Member(fs, "prover_version"));
    var statement, target := AsStatement(Member(fs, "statement")), AsText(Member(fs, "target"));
    var elapsed, wins := AsU64(Member(fs, "grind_elapsed_ms")), AsU64List(Member(fs, "win_extranonces"));
    var issued, submitted := AsU64(Member(fs, "issued_at_ms")), AsU64(Member(fs, "submitted_at_ms"));
    if id == None || nonce == None || k == None || hardware == None || version == None || statement == None
       || target == None || elapsed == None || wins == None || issued == None || submitted == None
    then None
    else Some(RunVerified(RunRecord(id.value, nonce.value, hardware.value, version.value, statement.value,
                                    k.value, target.value, elapsed.value, wins.value, issued.value, submitted.value)))
  }

  function Interpret(v: Value): (r: Option<Event>) {
    if !v.Obj? then None
    else match AsText(Member(v.fields, "ev"))
      case Some(kind) =>
        if kind == "challenge" then ReadChallenge(v.fields)
        else if kind == "run" then ReadRun(v.fields)
        else None
      case None => None
  }

  /** What replay makes of one line; nothing, if it does not parse as an event. */
  function Decode(line: Text): (r: Option<Event>) {
    match Read(START, line)
    case Done(v) => Interpret(v)
    case _ => None
  }

  // ------------------------------------------------------------------------
  // Round trip
  // ------------------------------------------------------------------------

  lemma NumReadBack(n: nat)
    ensures Writable(NumOf(n)) && Utf8.TextsValid(NumOf(n))
    ensures n < TWO_64 ==> AsU64(Some(NumOf(n))) == Some(n)
  {
    DecimalRoundTrip(n);
  }

  lemma NumListReadBack(ns: seq<nat>)
    ensures Writable(Arr(NumList(ns))) && Utf8.TextsValid(Arr(NumList(ns)))
    ensures (forall i :: 0 <= i < |ns| ==> ns[i] < TWO_64) ==> AsU64List(Some(Arr(NumList(ns)))) == Some(ns)
  {
    var vs := NumList(ns);
    forall i | 0 <= i < |ns|
      ensures Writable(vs[i]) && Utf8.TextsValid(vs[i])
      ensures ns[i] < TWO_64 ==> AsU64(Some(vs[i])) == Some(ns[i])
    {
      NumReadBack(ns[i]);
    }
    if forall i :: 0 <= i < |ns| ==> ns[i] < TWO_64 {
      assert AsU64List(Some(Arr(vs))).value == ns;
    }
  }

  lemma {:induction false} MemberAt(fields: seq<Field>, i: nat)
    requires i < |fields|
    requires forall j :: i < j < |fields| ==> fields[j].key != fields[i].key
    ensures Member(fields, fields[i].key) == Some(fields[i].val)
    decreases |fields|
  {
    if i < |fields| - 1 {
      MemberAt(fields[..|fields| - 1], i);
    }
  }

  /** Of several members of one name the last counts. */
  lemma LastMemberCounts(fields: seq<Field>, f: Field)
    ensures Member(fields + [f], f.key) == Some(f.val)
  {
    MemberAt(fields + [f], |fields|);
  }

  lemma {:induction false} MemberAbsent(fields: seq<Field>, key: Text)
    requires forall j :: 0 <= j < |fields| ==> fields[j].key != key
    ensures Member(fields, key) == None
    decreases |fields|
  {
    if |fields| > 0 { MemberAbsent(fields[..|fields| - 1], key); }
  }

  lemma ChallengeKeysDiffer(nonce: nat, t: nat, target: Option<Target>, i: nat, j: nat)
    requires i < j < |ChallengeFields(nonce, t, target)|
    ensures ChallengeFields(nonce, t, target)[i].key != ChallengeFields(nonce, t, target)[j].key
  {
  }

  lemma ChallengeMember(nonce: nat, t: nat, target: Option<Target>, i: nat)
    requires i < |ChallengeFields(nonce, t, target)|
    ensures var fs := ChallengeFields(nonce, t, target);
            Member(fs, fs[i].key) == Some(fs[i].val)
  {
    var fs := ChallengeFields(nonce, t, target);
    forall j | i < j < |fs| ensures fs[j].key != fs[i].key {
      ChallengeKeysDiffer(nonce, t, target, i, j);
    }
    MemberAt(fs, i);
  }

  lemma ChallengeTarget(nonce: nat, t: nat, target: Option<Target>)
    ensures AsTarget(Member(ChallengeFields(nonce, t, target), "target")) == target
  {
    var fs := ChallengeFields(nonce, t, target);
    if target.Some? {
      HexCodec.HexRoundTrip(target.value);
      ChallengeMember(nonce, t, target, 3);
    } else {
      assert |"ev"| == 2 && |"nonce"| == 5 && |"issued_at_ms"| == 12 && |"target"| == 6;
      MemberAbsent(fs, "target");
    }
  }

  lemma ChallengeReadBack(nonce: nat, t: nat, target: Option<Target>)
    requires nonce < TWO_64 && t < TWO_64
    ensures Interpret(Obj(ChallengeFields(nonce, t, target))) == Some(ChallengeMinted(nonce, t, target))
  {
    ChallengeMember(nonce, t, target, 0);
    ChallengeMember(nonce, t, target, 1);
    ChallengeMember(nonce, t, target, 2);
    ChallengeTarget(nonce, t, target);
    ChallengeFrom(ChallengeFields(nonce, t, target), nonce, t, target);
  }

  lemma ChallengeFrom(fs: seq<Field>, nonce: nat, t: nat, target: Option<Target>)
    requires nonce < TWO_64 && t < TWO_64
    requires Member(fs, "ev") == Some(Str("challenge")) && AsTarget(Member(fs, "target")) == target
    requires Member(fs, "nonce") == Some(NumOf(nonce)) && Member(fs, "issued_at_ms") == Some(NumOf(t))
    ensures Interpret(Obj(fs)) == Some(ChallengeMinted(nonce, t, target))
  {
    NumReadBack(nonce); NumReadBack(t);
  }

  lemma RunKeysDiffer(r: RunRecord, i: nat, j: nat)
    requires i < j < 12
    ensures RunFields(r)[i].key != RunFields(r)[j].key
  {
    var fs := RunFields(r);
    assert |"ev"| == 2 && |"grind_elapsed_ms"| == 16 && |"hardware"| == 8 && |"id"| == 2;
    assert |"issued_at_ms"| == 12 && |"k"| == 1 && |"nonce"| == 5 && |"prover_version"| == 14;
    assert |"statement"| == 9 && |"submitted_at_ms"| == 15 && |"target"| == 6 && |"win_extranonces"| == 15;
    assert "ev"[0] != "id"[0] && "submitted_at_ms"[0] != "win_extranonces"[0];
  }

  lemma RunMember(r: RunRecord, i: nat)
    requires i < 12
    ensures Member(RunFields(r), RunFields(r)[i].key) == Some(RunFields(r)[i].val)
  {
    forall j | i < j < 12 ensures RunFields(r)[j].key != RunFields(r)[i].key {
      RunKeysDiffer(r, i, j);
    }
    MemberAt(RunFields(r), i);
  }

  lemma RunReadBack(r: RunRecord)
    requires Representable(RunVerified(r))
    ensures Interpret(Obj(RunFields(r))) == Some(RunVerified(r))
  {
    forall i | 0 <= i < 12
      ensures Member(RunFields(r), RunFields(r)[i].key) == Some(RunFields(r)[i].val)
    {
      RunMember(r, i);
    }
    RunMembers(r, RunFields(r));
  }

  /** Every field of the run is a member under its own name. */
  predicate HasMembers(r: RunRecord, fs: seq<Field>) {
    fs == RunFields(r) && forall i :: 0 <= i < 12 ==> Member(fs, fs[i].key) == Some(fs[i].val)
  }

  lemma RunMembers(r: RunRecord, fs: seq<Field>)
    requires Representable(RunVerified(r)) && HasMembers(r, fs)
    ensures Interpret(Obj(fs)) == Some(RunVerified(r))
  {
    assert fs[0] == Field("ev", Str("run"));
    assert |"challenge"| == 9 && |"run"| == 3;
    RunCounts(r, fs);
    RunTimes(r, fs);
    RunTexts(r, fs);
  }

  lemma RunCounts(r: RunRecord, fs: seq<Field>)
    requires Representable(RunVerified(r)) && HasMembers(r, fs)
    ensures AsU64(Member(fs, "id")) == Some(r.id) && AsU64(Member(fs, "nonce")) == Some(r.nonce)
    ensures AsU64(Member(fs, "k")) == Some(r.k)
  {
    NumberAt(r, fs, 3, "id", r.id);
    NumberAt(r, fs, 5, "k", r.k);
    NumberAt(r, fs, 6, "nonce", r.nonce);
  }

  lemma RunTimes(r: RunRecord, fs: seq<Field>)
    requires Representable(RunVerified(r)) && HasMembers(r, fs)
    ensures AsU64(Member(fs, "grind_elapsed_ms")) == Some(r.grindElapsedMs)
    ensures AsU64(Member(fs, "issued_at_ms")) == Some(r.issuedAtMs)
    ensures AsU64(Member(fs, "submitted_at_ms")) == Some(r.submittedAtMs)
  {
    NumberAt(r, fs, 1, "grind_elapsed_ms", r.grindElapsedMs);
    NumberAt(r, fs, 4, "issued_at_ms", r.issuedAtMs);
    NumberAt(r, fs, 9, "submitted_at_ms", r.submittedAtMs);
  }

  lemma NumberAt(r: RunRecord, fs: seq<Field>, i: nat, key: Text, n: nat)
    requires HasMembers(r, fs) && i < 12 && RunField(r, i) == Field(key, NumOf(n)) && n < TWO_64
    ensures AsU64(Member(fs, key)) == Some(n)
  {
    NumReadBack(n);
    assert fs[i].key == key;
  }

  lemma RunTexts(r: RunRecord, fs: seq<Field>)
    requires Representable(RunVerified(r)) && HasMembers(r, fs)
    ensures AsText(Member(fs, "hardware")) == Some(r.hardware)
    ensures AsText(Member(fs, "prover_version")) == Some(r.proverVersion)
    ensures AsStatement(Member(fs, "statement")) == Some(r.statement) && AsText(Member(fs, "target")) == Some(r.target)
    ensures AsU64List(Member(fs, "win_extranonces")) == Some(r.winExtranonces)
  {
    NumListReadBack(r.winExtranonces);
    assert |"dense"| == 5 && |"canonical-moe"| == 13;
    assert AsStatement(Some(Str(StatementName(r.statement)))) == Some(r.statement);
    assert fs[2].key == "hardware" && fs[7].key == "prover_version" && fs[8].key == "statement";
    assert fs[10].key == "target" && fs[11].key == "win_extranonces";
  }

  predicate Sound(f: Field) {
    Ascii(f.key) && Writable(f.val) && Utf8.TextsValid(f.val)
  }

  lemma NumField(key: Text, n: nat)
    requires Ascii(key)
    ensures Sound(Field(key, NumOf(n)))
  {
  }

  lemma TextField(key: Text, t: Text)
    requires Ascii(key) && Utf8.Valid(t)
    ensures Sound(Field(key, Str(t)))
  {
  }

  lemma NameField(key: Text, t: Text)
    requires Ascii(key) && Ascii(t)
    ensures Sound(Field(key, Str(t)))
  {
    Utf8.AsciiValid(t);
    TextField(key, t);
  }

  lemma ListField(key: Text, ns: seq<nat>)
    requires Ascii(key)
    ensures Sound(Field(key, Arr(NumList(ns))))
  {
  }

  lemma SoundFields(fs: seq<Field>)
    requires forall i :: 0 <= i < |fs| ==> Sound(fs[i])
    ensures Writable(Obj(fs)) && Utf8.TextsValid(Obj(fs))
  {
  }

  lemma FieldsWritable(e: Event)
    requires Representable(e)
    ensures Writable(Obj(FieldsOf(e))) && Utf8.TextsValid(Obj(FieldsOf(e)))
  {
    match e
    case ChallengeMinted(nonce, t, target) =>
      forall i | 0 <= i < |ChallengeFields(nonce, t, target)| ensures Sound(ChallengeFields(nonce, t, target)[i]) {
        ChallengeFieldSound(nonce, t, target, i);
      }
      SoundFields(ChallengeFields(nonce, t, target));
    case RunVerified(r) =>
      forall i | 0 <= i < 12 ensures Sound(RunFields(r)[i]) {
        RunFieldSound(r, i);
      }
      SoundFields(RunFields(r));
  }

  lemma ChallengeFieldSound(nonce: nat, t: nat, target: Option<Target>, i: nat)
    requires i < 3 || (i == 3 && target.Some?)
    ensures Sound(ChallengeField(nonce, t, target, i))
  {
    if i == 0 { NameField("ev", "challenge"); }
    else if i == 1 { NumField("issued_at_ms", t); }
    else if i == 2 { NumField("nonce", nonce); }
    else { NameField("target", HexCodec.Hex(target.value)); }
  }

  lemma RunFieldSound(r: RunRecord, i: nat)
    requires Representable(RunVerified(r)) && i < 12
    ensures Sound(RunField(r, i))
  {
    if i == 0 { NameField("ev", "run"); }
    else if i == 2 { TextField("hardware", r.hardware); }
    else if i == 7 { TextField("prover_version", r.proverVersion); }
    else if i == 8 { NameField("statement", StatementName(r.statement)); }
    else if i == 10 { TextField("target", r.target); }
    else { RunNumberSound(r, i); }
  }

  lemma RunNumberSound(r: RunRecord, i: nat)
    requires i in [1, 3, 4, 5, 6, 9, 11]
    ensures Sound(RunField(r, i))
  {
    if i == 1 { NumField("grind_elapsed_ms", r.grindElapsedMs); }
    else if i == 3 { NumField("id", r.id); }
    else if i == 4 { NumField("issued_at_ms", r.issuedAtMs); }
    else if i == 5 { NumField("k", r.k); }
    else if i == 6 { NumField("nonce", r.nonce); }
    else if i == 9 { NumField("submitted_at_ms", r.submittedAtMs); }
    else { ListField("win_extranonces", r.winExtranonces); }
  }

  /** A written event is one well-formed line that reads back as that event. */
  lemma EventRoundTrip(e: Event)
    requires Representable(e)
    ensures Decode(Encode(e)) == Some(e)
    ensures Read(START, Encode(e)).Done?
    ensures Utf8.Valid(Encode(e)) && Utf8.OneLine(Encode(e))
    ensures |Encode(e)| > 0 && Encode(e)[0] == '{' && Encode(e)[|Encode(e)| - 1] == '}'
  {
    FieldsWritable(e);
    ObjectRoundTrip(FieldsOf(e));
    Utf8.WriteValid(Obj(FieldsOf(e)));
    Utf8.WriteOneLine(Obj(FieldsOf(e)));
    match e
    case ChallengeMinted(nonce, t, target) => ChallengeReadBack(nonce, t, target);
    case RunVerified(r) => RunReadBack(r);
  }

  // ------------------------------------------------------------------------
  // Lines of older versions
  // ------------------------------------------------------------------------

  /** A member list without the statement: runs of versions that had one statement only. */
  function WithoutStatement(r: RunRecord): (fs: seq<Field>) {
    RunFields(r)[..8] + RunFields(r)[9..]
  }

  /** Leaving out one member leaves the others. */
  lemma {:induction false} MemberBeside(before: seq<Field>, f: Field, after: seq<Field>, key: Text)
    requires f.key != key
    ensures Member(before + [f] + after, key) == Member(before + after, key)
    decreases |after|
  {
    if |after| == 0 {
      assert (before + [f] + after)[..|before|] == before && before + after == before;
    } else {
      var init := after[..|after| - 1];
      assert (before + [f] + after)[..|before| + |after|] == before + [f] + init;
      assert (before + after)[..|before| + |after| - 1] == before + init;
      MemberBeside(before, f, init, key);
    }
  }

  lemma StatementBeside(r: RunRecord, key: Text)
    requires key != "statement"
    ensures Member(WithoutStatement(r), key) == Member(RunFields(r), key)
  {
    var fs := RunFields(r);
    assert fs == fs[..8] + [fs[8]] + fs[9..];
    MemberBeside(fs[..8], fs[8], fs[9..], key);
  }

  lemma NoStatement(r: RunRecord)
    ensures Member(WithoutStatement(r), "statement") == None
  {
    var fs := WithoutStatement(r);
    forall j | 0 <= j < |fs| ensures fs[j].key != "statement" {
      if j < 8 { RunKeysDiffer(r, j, 8); } else { RunKeysDiffer(r, 8, j + 1); }
    }
    MemberAbsent(fs, "statement");
  }

  lemma OldNames()
    ensures "id" != "statement" && "nonce" != "statement" && "k" != "statement" && "hardware" != "statement"
    ensures "prover_version" != "statement" && "target" != "statement" && "grind_elapsed_ms" != "statement"
    ensures "win_extranonces" != "statement" && "issued_at_ms" != "statement" && "submitted_at_ms" != "statement"
    ensures "ev" != "statement"
  {
    assert |"id"| == 2 && |"nonce"| == 5 && |"k"| == 1 && |"hardware"| == 8 && |"statement"| == 9;
    assert |"prover_version"| == 14 && |"target"| == 6 && |"grind_elapsed_ms"| == 16 && |"ev"| == 2;
    assert |"win_extranonces"| == 15 && |"issued_at_ms"| == 12 && |"submitted_at_ms"| == 15;
  }

  /** A run line without the statement member is replayed as a dense run. */
  lemma OldRunIsDense(r: RunRecord)
    requires Representable(RunVerified(r))
    ensures Decode(Write(Obj(WithoutStatement(r)))) == Some(RunVerified(r.(statement := Dense)))
  {
    OldRunWritten(r, WithoutStatement(r));
    SameWithout(r, r.(statement := Dense));
    OldRunReadBack(r.(statement := Dense));
  }

  lemma OldRunWritten(r: RunRecord, fs: seq<Field>)
    requires Representable(RunVerified(r)) && fs == WithoutStatement(r)
    ensures Decode(Write(Obj(fs))) == Interpret(Obj(fs))
  {
    FieldsWritable(RunVerified(r));
    AllWritable(RunFields(r), fs);
    WrittenIsRead(fs);
  }

  lemma WrittenIsRead(fs: seq<Field>)
    requires Writable(Obj(fs))
    ensures Decode(Write(Obj(fs))) == Interpret(Obj(fs))
  {
    ObjectRoundTrip(fs);
  }

  lemma AllWritable(all: seq<Field>, fs: seq<Field>)
    requires |all| == 12 && fs == all[..8] + all[9..] && Writable(Obj(all))
    ensures Writable(Obj(fs))
  {
  }

  lemma SameWithout(r: RunRecord, d: RunRecord)
    requires d == r.(statement := Dense)
    ensures WithoutStatement(r) == WithoutStatement(d)
  {
    forall i | 0 <= i < 12 && i != 8 ensures RunFields(r)[i] == RunFields(d)[i] {
    }
  }

  lemma OldRunReadBack(r: RunRecord)
    requires Representable(RunVerified(r)) && r.statement == Dense
    ensures Interpret(Obj(WithoutStatement(r))) == Some(RunVerified(r))
  {
    RunReadBack(r);
    RunMember(r, 0);
    RunMember(r, 8);
    NoStatement(r);
    OthersAlike(r);
    ReadAlike(RunFields(r), WithoutStatement(r));
  }

  /** Both member lists have the same under this name. */
  predicate Alike(fs: seq<Field>, gs: seq<Field>, key: Text) {
    Member(gs, key) == Member(fs, key)
  }

  /** ... and under every name a run has but the statement's. */
  predicate AlikeButStatement(fs: seq<Field>, gs: seq<Field>) {
    && Alike(fs, gs, "ev") && Alike(fs, gs, "grind_elapsed_ms") && Alike(fs, gs, "hardware") && Alike(fs, gs, "id")
    && Alike(fs, gs, "issued_at_ms") && Alike(fs, gs, "k") && Alike(fs, gs, "nonce")
    && Alike(fs, gs, "prover_version") && Alike(fs, gs, "submitted_at_ms") && Alike(fs, gs, "target")
    && Alike(fs, gs, "win_extranonces")
  }

  lemma OthersAlike(r: RunRecord)
    ensures AlikeButStatement(RunFields(r), WithoutStatement(r))
  {
    OldNames();
    StatementBeside(r, "ev"); StatementBeside(r, "grind_elapsed_ms"); StatementBeside(r, "hardware");
    StatementBeside(r, "id"); StatementBeside(r, "issued_at_ms"); StatementBeside(r, "k");
    StatementBeside(r, "nonce"); StatementBeside(r, "prover_version"); StatementBeside(r, "submitted_at_ms");
    StatementBeside(r, "target"); StatementBeside(r, "win_extranonces");
  }

  lemma ReadAlike(fs: seq<Field>, gs: seq<Field>)
    requires AlikeButStatement(fs, gs)
    requires AsStatement(Member(gs, "statement")) == AsStatement(Member(fs, "statement"))
    ensures ReadRun(gs) == ReadRun(fs) && Alike(fs, gs, "ev")
  {
  }

  /** A challenge whose target cannot be read is replayed as untiered. */
  lemma BadTargetIsUntiered(nonce: nat, t: nat, target: Text)
    requires nonce < TWO_64 && t < TWO_64 && !HexCodec.ParseResult(target).Parsed?
    ensures Decode(Write(Obj(ChallengeFields(nonce, t, None) + [Field("target", Str(target))])))
            == Some(ChallengeMinted(nonce, t, None))
  {
    var fs := ChallengeFields(nonce, t, None) + [Field("target", Str(target))];
    BadTargetRead(nonce, t, target, fs);
    BadTargetWritten(nonce, t, target, fs);
    WrittenIsRead(fs);
  }

  lemma BadTargetWritten(nonce: nat, t: nat, target: Text, fs: seq<Field>)
    requires nonce < TWO_64 && t < TWO_64
    requires fs == ChallengeFields(nonce, t, None) + [Field("target", Str(target))]
    ensures Writable(Obj(fs))
  {
    FieldsWritable(ChallengeMinted(nonce, t, None));
    OneMoreWritable(ChallengeFields(nonce, t, None), Field("target", Str(target)), fs);
  }

  lemma OneMoreWritable(plain: seq<Field>, f: Field, fs: seq<Field>)
    requires fs == plain + [f] && Writable(Obj(plain)) && Writable(f.val)
    ensures Writable(Obj(fs))
  {
    forall i | 0 <= i < |fs| ensures Writable(fs[i].val) {
      if i < |plain| { assert fs[i] == plain[i]; }
    }
  }

  lemma BadTargetRead(nonce: nat, t: nat, target: Text, fs: seq<Field>)
    requires nonce < TWO_64 && t < TWO_64 && !HexCodec.ParseResult(target).Parsed?
    requires fs == ChallengeFields(nonce, t, None) + [Field("target", Str(target))]
    ensures Interpret(Obj(fs)) == Some(ChallengeMinted(nonce, t, None))
  {
    WithTarget(nonce, t, target, fs);
    ChallengeFrom(fs, nonce, t, None);
  }

  lemma WithTarget(nonce: nat, t: nat, target: Text, fs: seq<Field>)
    requires fs == ChallengeFields(nonce, t, None) + [Field("target", Str(target))]
    ensures Member(fs, "ev") == Some(Str("challenge")) && Member(fs, "target") == Some(Str(target))
    ensures Member(fs, "nonce") == Some(NumOf(nonce)) && Member(fs, "issued_at_ms") == Some(NumOf(t))
  {
    var plain := ChallengeFields(nonce, t, None);
    assert fs[..3] == plain;
    assert |"ev"| == 2 && |"nonce"| == 5 && |"issued_at_ms"| == 12 && |"target"| == 6;
    ChallengeMember(nonce, t, None, 0);
    ChallengeMember(nonce, t, None, 1);
    ChallengeMember(nonce, t, None, 2);
  }

  /** Blanks around a line, a carriage return before its line break among them, change
      nothing. */
  lemma BlanksAround(e: Event, c: octet)
    requires Representable(e) && (c == ' ' || c == '\t' || c == '\r')
    ensures Decode([c] + Encode(e)) == Some(e) && Decode(Encode(e) + [c]) == Some(e)
  {
    EventRoundTrip(e);
    ReadConcat(START, [c], Encode(e));
    ReadOne(START, c);
    ReadConcat(START, Encode(e), [c]);
    ReadOne(Read(START, Encode(e)), c);
  }
}
