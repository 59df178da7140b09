/** The JSON the event log is written in: objects, arrays, strings and unsigned
    integers (sections 2 to 7 of RFC 8259). The writer is a function from values to
    text; the reader consumes one octet at a time, so what a cut or a glued line does
    to it can be read off its state. */
module Json {
  import opened Octets

  datatype Value =
    | Str(text: Text)
    | Num(digits: Text)
    | Arr(items: seq<Value>)
    | Obj(fields: seq<Field>)

  datatype Field = Field(key: Text, val: Value)

  // ------------------------------------------------------------------------
  // Writer
  // ------------------------------------------------------------------------

  /** The escaped form of one octet (section 7). */
  function EscapeOctet(c: octet): (t: Text) {
    if c == '"' then ['\\', '"']
    else if c == '\\' then ['\\', '\\']
    else if c == 8 as char then ['\\', 'b']
    else if c == 9 as char then ['\\', 't']
    else if c == 10 as char then ['\\', 'n']
    else if c == 12 as char then ['\\', 'f']
    else if c == 13 as char then ['\\', 'r']
    else if c as int < 32 then ['\\', 'u', '0', '0', HexOf(c as int / 16), HexOf(c as int % 16)]
    else [c]
  }

  /** Seven octets have a short escape, the other controls a long one, the rest none. */
  lemma EscapeLength(c: octet)
    ensures |EscapeOctet(c)| == if c in "\"\\" || 8 <= c as int <= 10 || 12 <= c as int <= 13 then 2
                   else if c as int < 32 then 6 else 1
  {
  }

  function Escape(t: Text): (r: Text) {
    if |t| == 0 then [] else EscapeOctet(t[0]) + Escape(t[1..])
  }

  function Quote(t: Text): (r: Text) {
    ['"'] + Escape(t) + ['"']
  }

  function Write(v: Value): (r: Text)
    decreases v, 1
  {
    match v
    case Str(t) => Quote(t)
    case Num(d) => d
    case Arr(items) => ['['] + WriteItems(items) + [']']
    case Obj(fields) => ['{'] + WriteFields(fields) + ['}']
  }

  function WriteItems(items: seq<Value>): (r: Text)
    decreases items, 0
  {
    if |items| == 0 then []
    else if |items| == 1 then Write(items[0])
    else Write(items[0]) + [','] + WriteItems(items[1..])
  }

  function WriteFields(fields: seq<Field>): (r: Text)
    decreases fields, 0
  {
    if |fields| == 0 then []
    else if |fields| == 1 then WriteField(fields[0])
    else WriteField(fields[0]) + [','] + WriteFields(fields[1..])
  }

  function WriteField(f: Field): (r: Text)
    decreases f, 2
  {
    Quote(f.key) + [':'] + Write(f.val)
  }

  /** A number's digits are canonical; everything else can be written. */
  predicate Writable(v: Value)
    decreases v
  {
    match v
    case Str(_) => true
    case Num(d) => |d| > 0 && (forall i :: 0 <= i < |d| ==> IsDigit(d[i])) && (d[0] == '0' ==> |d| == 1)
    case Arr(items) => forall i :: 0 <= i < |items| ==> Writable(items[i])
    case Obj(fields) => forall i :: 0 <= i < |fields| ==> Writable(fields[i].val)
  }

  // ------------------------------------------------------------------------
  // Reader
  // ------------------------------------------------------------------------

  /** A container still open. */
  datatype Frame =
    | InArr(items: seq<Value>)
    | InObj(fields: seq<Field>, key: Text)

  /** What the next octet continues. */
  datatype Mode =
    | BeforeValue
    | BeforeItem            // just after '[': a value or ']'
    | BeforeField           // just after '{': a key or '}'
    | BeforeKey
    | BeforeColon
    | AfterValue
    | InText(text: Text, isKey: bool)
    | InEscape(text: Text, isKey: bool)
    | InUnicode(text: Text, isKey: bool, count: nat, code: nat)
    | InNumber(digits: Text)

  datatype State =
    | Failed
    | Done(val: Value)
    | Reading(stack: seq<Frame>, mode: Mode)

  const START: State := Reading([], BeforeValue)

  predicate IsSpace(c: octet) {
    c == ' ' || c == '\t' || c == '\r'
  }

  /** A value has ended: hand it to the innermost open container. */
  function Complete(stack: seq<Frame>, v: Value): (s: State) {
    if |stack| == 0 then Done(v) else
    var outer, top := stack[..|stack| - 1], stack[|stack| - 1];
    match top
    case InArr(items) => Reading(outer + [InArr(items + [v])], AfterValue)
    case InObj(fields, key) => Reading(outer + [InObj(fields + [Field(key, v)], [])], AfterValue)
  }

  function EndText(stack: seq<Frame>, t: Text, isKey: bool): (s: State) {
    if !isKey then Complete(stack, Str(t))
    else if |stack| == 0 then Failed else
    var outer, top := stack[..|stack| - 1], stack[|stack| - 1];
    match top
    case InArr(_) => Failed
    case InObj(fields, _) => Reading(outer + [InObj(fields, t)], BeforeColon)
  }

  function BeginValue(stack: seq<Frame>, mode: Mode, c: octet): (s: State) {
    if IsSpace(c) then Reading(stack, mode)
    else if c == '{' then Reading(stack + [InObj([], [])], BeforeField)
    else if c == '[' then Reading(stack + [InArr([])], BeforeItem)
    else if c == '"' then Reading(stack, InText([], false))
    else if IsDigit(c) then Reading(stack, InNumber([c]))
    else Failed
  }

  function Close(stack: seq<Frame>, c: octet): (s: State) {
    if |stack| == 0 then Failed else
    var outer, top := stack[..|stack| - 1], stack[|stack| - 1];
    match top
    case InArr(items) => if c == ']' then Complete(outer, Arr(items)) else Failed
    case InObj(fields, _) => if c == '}' then Complete(outer, Obj(fields)) else Failed
  }

  function StepAfterValue(stack: seq<Frame>, c: octet): (s: State) {
    if IsSpace(c) then Reading(stack, AfterValue)
    else if c == ',' && |stack| > 0 then
      Reading(stack, if stack[|stack| - 1].InArr? then BeforeValue else BeforeKey)
    else Close(stack, c)
  }

  function StepEscape(stack: seq<Frame>, t: Text, isKey: bool, c: octet): (s: State) {
    if c == 'u' then Reading(stack, InUnicode(t, isKey, 0, 0))
    else if c == '"' || c == '\\' || c == '/' then Reading(stack, InText(t + [c], isKey))
    else if c == 'b' then Reading(stack, InText(t + [8 as char], isKey))
    else if c == 't' then Reading(stack, InText(t + [9 as char], isKey))
    else if c == 'n' then Reading(stack, InText(t + [10 as char], isKey))
    else if c == 'f' then Reading(stack, InText(t + [12 as char], isKey))
    else if c == 'r' then Reading(stack, InText(t + [13 as char], isKey))
    else Failed
  }

  /** Four hexadecimal digits. Only ASCII code points are ever written this way. */
  function StepUnicode(stack: seq<Frame>, t: Text, isKey: bool, n: nat, code: nat, c: octet): (s: State) {
    var next := 16 * code + HexDigit(c);
    if !IsHexDigit(c) then Failed
    else if n != 3 then Reading(stack, InUnicode(t, isKey, n + 1, next))
    else if next < 128 then Reading(stack, InText(t + [next as char], isKey))
    else Failed
  }

  function Step(s: State, c: octet): (r: State) {
    match s
    case Failed => Failed
    case Done(v) => if IsSpace(c) then s else Failed
    case Reading(stack, mode) =>
      match mode
      case BeforeValue => BeginValue(stack, mode, c)
      case BeforeItem => if c == ']' then Close(stack, c) else BeginValue(stack, mode, c)
      case BeforeField =>
        if IsSpace(c) then s
        else if c == '"' then Reading(stack, InText([], true))
        else Close(stack, c)
      case BeforeKey =>
        if IsSpace(c) then s
        else if c == '"' then Reading(stack, InText([], true))
        else Failed
      case BeforeColon =>
        if IsSpace(c) then s
        else if c == ':' then Reading(stack, BeforeValue)
        else Failed
      case AfterValue => StepAfterValue(stack, c)
      case InText(t, isKey) =>
        if c == '"' then EndText(stack, t, isKey)
        else if c == '\\' then Reading(stack, InEscape(t, isKey))
        else if c as int < 32 then Failed
        else Reading(stack, InText(t + [c], isKey))
      case InEscape(t, isKey) => StepEscape(stack, t, isKey, c)
      case InUnicode(t, isKey, n, code) => StepUnicode(stack, t, isKey, n, code, c)
      case InNumber(d) =>
        if IsDigit(c) then (if d == "0" then Failed else Reading(stack, InNumber(d + [c])))
        else match Complete(stack, Num(d))
             case Reading(outer, _) => StepAfterValue(outer, c)
             case _ => if IsSpace(c) then Complete(stack, Num(d)) else Failed
  }

  /** Reading a whole text. */
  function Read(s: State, t: Text): (r: State)
    decreases t
  {
    if |t| == 0 then s else Read(Step(s, t[0]), t[1..])
  }

  lemma {:induction false} ReadConcat(s: State, a: Text, b: Text)
    ensures Read(s, a + b) == Read(Read(s, a), b)
    decreases a
  {
    if |a| == 0 {
      assert a + b == b;
    } else {
      assert (a + b)[1..] == a[1..] + b;
      ReadConcat(Step(s, a[0]), a[1..], b);
    }
  }

  lemma ReadOne(s: State, c: octet)
    ensures Read(s, [c]) == Step(s, c)
  {
  }

  lemma {:induction false} ReadFailed(t: Text)
    ensures Read(Failed, t) == Failed
  {
    if |t| > 0 { ReadFailed(t[1..]); }
  }

  // ------------------------------------------------------------------------
  // What the reader makes of what the writer wrote
  // ------------------------------------------------------------------------

  lemma EscapeOctetRead(stack: seq<Frame>, acc: Text, isKey: bool, c: octet)
    ensures Read(Reading(stack, InText(acc, isKey)), EscapeOctet(c)) == Reading(stack, InText(acc + [c], isKey))
  {
    var s := Reading(stack, InText(acc, isKey));
    var t := EscapeOctet(c);
    if |t| == 1 {
      ReadOne(s, c);
    } else if |t| == 2 {
      assert t == [t[0], t[1]] + [];
      ReadTwo(s, t[0], t[1], []);
    } else {
      UnicodeRead(stack, acc, isKey, c);
    }
  }

  lemma UnicodeRead(stack: seq<Frame>, acc: Text, isKey: bool, c: octet)
    requires c as int < 128
    ensures Read(Reading(stack, InText(acc, isKey)), ['\\', 'u', '0', '0', HexOf(c as int / 16), HexOf(c as int % 16)])
            == Reading(stack, InText(acc + [c], isKey))
  {
    var h, l := HexOf(c as int / 16), HexOf(c as int % 16);
    var s := Reading(stack, InText(acc, isKey));
    var s1 := Reading(stack, InUnicode(acc, isKey, 0, 0));
    var s3 := Reading(stack, InUnicode(acc, isKey, 2, 0));
    ReadTwo(s, '\\', 'u', ['0', '0', h, l]);
    ReadTwo(s1, '0', '0', [h, l]);
    ReadTwo(s3, h, l, []);
    assert ['\\', 'u', '0', '0', h, l] == ['\\', 'u'] + ['0', '0', h, l];
    assert ['0', '0', h, l] == ['0', '0'] + [h, l];
    assert [h, l] == [h, l] + [];
    assert Step(s3, h) == Reading(stack, InUnicode(acc, isKey, 3, c as int / 16));
  }

  lemma ReadTwo(s: State, a: octet, b: octet, rest: Text)
    ensures Read(s, [a, b] + rest) == Read(Step(Step(s, a), b), rest)
  {
  }

  lemma {:induction false} EscapeRead(stack: seq<Frame>, acc: Text, isKey: bool, t: Text)
    ensures Read(Reading(stack, InText(acc, isKey)), Escape(t)) == Reading(stack, InText(acc + t, isKey))
    decreases t
  {
    if |t| == 0 {
      assert acc + t == acc;
    } else {
      EscapeOctetRead(stack, acc, isKey, t[0]);
      ReadConcat(Reading(stack, InText(acc, isKey)), EscapeOctet(t[0]), Escape(t[1..]));
      EscapeRead(stack, acc + [t[0]], isKey, t[1..]);
      assert acc + [t[0]] + t[1..] == acc + t;
    }
  }

  /** From the opening quote on, a quoted text is read back whole. */
  lemma QuoteRead(s: State, stack: seq<Frame>, isKey: bool, t: Text)
    requires Step(s, '"') == Reading(stack, InText([], isKey))
    ensures Read(s, Quote(t)) == EndText(stack, t, isKey)
  {
    assert Quote(t) == ['"'] + (Escape(t) + ['"']);
    ReadConcat(s, ['"'], Escape(t) + ['"']);
    ReadOne(s, '"');
    ReadConcat(Reading(stack, InText([], isKey)), Escape(t), ['"']);
    EscapeRead(stack, [], isKey, t);
    assert [] + t == t;
    ReadOne(Reading(stack, InText(t, isKey)), '"');
  }

  lemma {:induction false} DigitsRead(stack: seq<Frame>, d: Text, n: nat)
    requires 1 <= n <= |d|
    requires Writable(Num(d))
    ensures Read(Reading(stack, InNumber(d[..n])), d[n..]) == Reading(stack, InNumber(d))
    decreases |d| - n
  {
    if n == |d| {
      assert d[..n] == d;
    } else {
      assert d[n..][1..] == d[n + 1..];
      assert d[..n] + [d[n]] == d[..n + 1];
      DigitsRead(stack, d, n + 1);
    }
  }

  /** s has read a complete value: it is t, or t as soon as a number is ended. */
  predicate Settles(s: State, t: State) {
    s == t || (s.Reading? && s.mode.InNumber? && t == Complete(s.stack, Num(s.mode.digits)))
  }

  lemma SettledStep(s: State, t: State, c: octet)
    requires Settles(s, t) && !IsDigit(c)
    ensures Step(s, c) == Step(t, c)
  {
  }

  lemma SettledRead(s: State, a: Text, t: State, c: octet, rest: Text)
    requires Settles(Read(s, a), t) && !IsDigit(c)
    ensures Read(s, a + [c] + rest) == Read(Step(t, c), rest)
  {
    ReadConcat(s, a + [c], rest);
    ReadConcat(s, a, [c]);
    ReadOne(Read(s, a), c);
    SettledStep(Read(s, a), t, c);
  }

  lemma Pushed(stack: seq<Frame>, f: Frame)
    ensures var s := stack + [f];
            |s| > 0 && s[..|s| - 1] == stack && s[|s| - 1] == f
  {
  }

  /** Where a value may start, also in an array that has no item yet. */
  predicate AwaitsValue(mode: Mode) {
    mode == BeforeValue || mode == BeforeItem
  }

  /** A written value is read back, whatever is open around it. */
  lemma {:induction false} ValueRead(stack: seq<Frame>, mode: Mode, v: Value)
    requires Writable(v) && AwaitsValue(mode)
    ensures Settles(Read(Reading(stack, mode), Write(v)), Complete(stack, v))
    ensures !v.Num? ==> Read(Reading(stack, mode), Write(v)) == Complete(stack, v)
    decreases v, 1
  {
    var s := Reading(stack, mode);
    match v
    case Str(t) =>
      QuoteRead(s, stack, false, t);
    case Num(d) =>
      assert d == [d[0]] + d[1..];
      ReadConcat(s, [d[0]], d[1..]);
      ReadOne(s, d[0]);
      assert d[..1] == [d[0]];
      DigitsRead(stack, d, 1);
    case Arr(items) => ArrRead(stack, mode, items);
    case Obj(fields) => ObjRead(stack, mode, fields);
  }

  lemma {:induction false} ArrRead(stack: seq<Frame>, mode: Mode, items: seq<Value>)
    requires AwaitsValue(mode)
    requires forall i :: 0 <= i < |items| ==> Writable(items[i])
    ensures Read(Reading(stack, mode), ['['] + WriteItems(items) + [']']) == Complete(stack, Arr(items))
    decreases items, 1
  {
    ReadBracketed(Reading(stack, mode), '[', WriteItems(items), ']');
    var open := Reading(stack + [InArr([])], BeforeItem);
    var full := Reading(stack + [InArr(items)], AfterValue);
    if |items| > 0 {
      ItemsRead(stack, [], items, BeforeItem);
      assert [] + items == items;
    }
    ClosesArr(stack, items, Read(open, WriteItems(items)));
  }

  lemma ClosesArr(stack: seq<Frame>, items: seq<Value>, s: State)
    requires if |items| > 0 then Settles(s, Reading(stack + [InArr(items)], AfterValue))
             else s == Reading(stack + [InArr([])], BeforeItem)
    ensures Step(s, ']') == Complete(stack, Arr(items))
  {
    Pushed(stack, InArr(items));
    if |items| > 0 {
      SettledStep(s, Reading(stack + [InArr(items)], AfterValue), ']');
    }
  }

  lemma {:induction false} ObjRead(stack: seq<Frame>, mode: Mode, fields: seq<Field>)
    requires AwaitsValue(mode)
    requires forall i :: 0 <= i < |fields| ==> Writable(fields[i].val)
    ensures Read(Reading(stack, mode), ['{'] + WriteFields(fields) + ['}']) == Complete(stack, Obj(fields))
    decreases fields, 1
  {
    ReadBracketed(Reading(stack, mode), '{', WriteFields(fields), '}');
    var open := Reading(stack + [InObj([], [])], BeforeField);
    if |fields| > 0 {
      FieldsRead(stack, [], fields, BeforeField);
      assert [] + fields == fields;
    }
    ClosesObj(stack, fields, Read(open, WriteFields(fields)));
  }

  lemma ClosesObj(stack: seq<Frame>, fields: seq<Field>, s: State)
    requires if |fields| > 0 then Settles(s, Reading(stack + [InObj(fields, [])], AfterValue))
             else s == Reading(stack + [InObj([], [])], BeforeField)
    ensures Step(s, '}') == Complete(stack, Obj(fields))
  {
    Pushed(stack, InObj(fields, []));
    if |fields| > 0 {
      SettledStep(s, Reading(stack + [InObj(fields, [])], AfterValue), '}');
    }
  }

  lemma ReadBracketed(s: State, open: octet, body: Text, close: octet)
    ensures Read(s, [open] + body + [close]) == Step(Read(Step(s, open), body), close)
  {
    ReadConcat(s, [open] + body, [close]);
    ReadConcat(s, [open], body);
    ReadOne(s, open);
    ReadOne(Read(Step(s, open), body), close);
  }

  lemma {:induction false} ItemsRead(stack: seq<Frame>, done: seq<Value>, items: seq<Value>, mode: Mode)
    requires |items| > 0 && AwaitsValue(mode)
    requires forall i :: 0 <= i < |items| ==> Writable(items[i])
    ensures Settles(Read(Reading(stack + [InArr(done)], mode), WriteItems(items)),
                    Reading(stack + [InArr(done + items)], AfterValue))
    decreases items, 0
  {
    var s := Reading(stack + [InArr(done)], mode);
    ValueRead(stack + [InArr(done)], mode, items[0]);
    Pushed(stack, InArr(done));
    var next := Reading(stack + [InArr(done + [items[0]])], AfterValue);
    if |items| == 1 {
      assert done + [items[0]] == done + items;
    } else {
      SettledRead(s, Write(items[0]), next, ',', WriteItems(items[1..]));
      Pushed(stack, InArr(done + [items[0]]));
      ItemsRead(stack, done + [items[0]], items[1..], BeforeValue);
      assert done + [items[0]] + items[1..] == done + items;
    }
  }

  predicate AwaitsKey(mode: Mode) {
    mode == BeforeField || mode == BeforeKey
  }

  lemma KeyRead(stack: seq<Frame>, done: seq<Field>, key: Text, mode: Mode)
    requires AwaitsKey(mode)
    ensures Read(Reading(stack + [InObj(done, [])], mode), Quote(key) + [':'])
            == Reading(stack + [InObj(done, key)], BeforeValue)
  {
    var s := Reading(stack + [InObj(done, [])], mode);
    QuoteRead(s, stack + [InObj(done, [])], true, key);
    Pushed(stack, InObj(done, []));
    ReadConcat(s, Quote(key), [':']);
    ReadOne(Reading(stack + [InObj(done, key)], BeforeColon), ':');
  }

  lemma {:induction false} FieldRead(stack: seq<Frame>, done: seq<Field>, f: Field, mode: Mode)
    requires AwaitsKey(mode) && Writable(f.val)
    ensures Settles(Read(Reading(stack + [InObj(done, [])], mode), WriteField(f)),
                    Reading(stack + [InObj(done + [f], [])], AfterValue))
    decreases f, 2
  {
    var s := Reading(stack + [InObj(done, [])], mode);
    KeyRead(stack, done, f.key, mode);
    ReadConcat(s, Quote(f.key) + [':'], Write(f.val));
    ValueRead(stack + [InObj(done, f.key)], BeforeValue, f.val);
    Pushed(stack, InObj(done, f.key));
  }

  lemma {:induction false} FieldsRead(stack: seq<Frame>, done: seq<Field>, fields: seq<Field>, mode: Mode)
    requires |fields| > 0 && AwaitsKey(mode)
    requires forall i :: 0 <= i < |fields| ==> Writable(fields[i].val)
    ensures Settles(Read(Reading(stack + [InObj(done, [])], mode), WriteFields(fields)),
                    Reading(stack + [InObj(done + fields, [])], AfterValue))
    decreases fields, 0
  {
    var s := Reading(stack + [InObj(done, [])], mode);
    FieldRead(stack, done, fields[0], mode);
    var next := Reading(stack + [InObj(done + [fields[0]], [])], AfterValue);
    if |fields| == 1 {
      assert done + [fields[0]] == done + fields;
    } else {
      SettledRead(s, WriteField(fields[0]), next, ',', WriteFields(fields[1..]));
      Pushed(stack, InObj(done + [fields[0]], []));
      FieldsRead(stack, done + [fields[0]], fields[1..], BeforeKey);
      assert done + [fields[0]] + fields[1..] == done + fields;
    }
  }

  /** Round trip: an object's text reads back as that object. */
  lemma ObjectRoundTrip(fields: seq<Field>)
    requires Writable(Obj(fields))
    ensures Read(START, Write(Obj(fields))) == Done(Obj(fields))
  {
    ValueRead([], BeforeValue, Obj(fields));
  }

  // ------------------------------------------------------------------------
  // Cuts and glued lines
  // ------------------------------------------------------------------------

  /** A complete document takes nothing more but space, so no proper prefix of a text
      that reads without failing and ends in a non-space is itself complete. */
  lemma PrefixNotDone(s: State, a: Text, b: Text)
    requires |b| > 0 && !IsSpace(b[|b| - 1])
    requires Read(s, a + b) != Failed
    ensures !Read(s, a).Done?
  {
    ReadConcat(s, a, b);
    if Read(s, a).Done? {
      DoneThenFails(Read(s, a).val, b);
    }
  }

  lemma {:induction false} DoneThenFails(v: Value, b: Text)
    requires |b| > 0 && !IsSpace(b[|b| - 1])
    ensures Read(Done(v), b) == Failed
    decreases b
  {
    if IsSpace(b[0]) {
      assert |b| > 1;
      DoneThenFails(v, b[1..]);
    } else {
      ReadFailed(b[1..]);
    }
  }

  /** The reader is past the first brace of something: inside an object, at its end,
      or failed. It can never get back to the start of a document from here. */
  predicate Entered(s: State) {
    s.Reading? ==> |s.stack| > 0
  }

  lemma EnteredStep(s: State, c: octet)
    requires Entered(s)
    ensures Entered(Step(s, c))
  {
  }

  lemma {:induction false} EnteredRead(s: State, t: Text)
    requires Entered(s)
    ensures Entered(Read(s, t))
    decreases t
  {
    if |t| > 0 {
      EnteredStep(s, t[0]);
      EnteredRead(Step(s, t[0]), t[1..]);
    }
  }

  /** Glued lines: after anything that already entered an object, a written object or
      any nonempty prefix of one never completes a document. */
  lemma GlueNeverDone(s: State, fields: seq<Field>, n: nat)
    requires Entered(s) && Writable(Obj(fields))
    requires |fields| > 0 && |fields[0].key| > 0 && fields[0].key[0] == 'e'
    requires 0 < n <= |Write(Obj(fields))|
    ensures !Read(s, Write(Obj(fields))[..n]).Done?
  {
    var t := Write(Obj(fields));
    if s.Reading? && AwaitsValue(s.mode) {
      ValueRead(s.stack, s.mode, Obj(fields));
      assert t == t[..n] + t[n..];
      ReadConcat(s, t[..n], t[n..]);
      if n < |t| { PrefixNotDone(s, t[..n], t[n..]); } else { assert t[..n] == t; }
    } else {
      OpeningFails(s);
      ObjectOpening(fields);
      if n >= 3 {
        assert t[..n] == ['{', '"', 'e'] + t[3..n];
        ReadThree(s, t[3..n]);
        ReadFailed(t[3..n]);
      } else if n == 2 {
        assert t[..2] == ['{', '"'] + [];
        ReadTwo(s, '{', '"', []);
      } else {
        assert t[..1] == ['{'];
        ReadOne(s, '{');
      }
    }
  }

  lemma ReadThree(s: State, rest: Text)
    ensures Read(s, ['{', '"', 'e'] + rest) == Read(Step(Step(Step(s, '{'), '"'), 'e'), rest)
  {
    assert ['{', '"', 'e'] + rest == ['{', '"'] + (['e'] + rest);
    ReadTwo(s, '{', '"', ['e'] + rest);
    assert (['e'] + rest)[1..] == rest;
  }

  lemma OpeningFails(s: State)
    requires Entered(s) && !(s.Reading? && AwaitsValue(s.mode))
    ensures !Step(s, '{').Done?
    ensures !Step(Step(s, '{'), '"').Done?
    ensures Step(Step(Step(s, '{'), '"'), 'e') == Failed
  {
  }

  lemma ObjectOpening(fields: seq<Field>)
    requires |fields| > 0 && |fields[0].key| > 0 && fields[0].key[0] == 'e'
    ensures var t := Write(Obj(fields)); |t| > 3 && t[0] == '{' && t[1] == '"' && t[2] == 'e'
  {
    var k := fields[0].key;
    assert Escape(k)[0] == 'e';
    assert Quote(k)[1] == 'e';
    assert WriteField(fields[0])[1] == 'e';
    assert WriteFields(fields)[1] == 'e';
  }
}
