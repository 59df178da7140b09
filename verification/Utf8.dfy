/** Well-formed UTF-8, octet by octet (section 4 of RFC 3629). A log is read as a
    string, so a single malformed sequence anywhere in it refuses the whole file. */
module Utf8 {
  import opened Octets
  import opened Json

  /** Where a reader stands: between characters, or inside one. */
  datatype Pos =
    | Boundary
    | Tail(n: nat)
    | AfterE0 | AfterED | AfterF0 | AfterF4
    | Malformed

  predicate IsTail(c: octet) {
    0x80 <= c as int <= 0xBF
  }

  function Advance(p: Pos, c: octet): (q: Pos) {
    var b := c as int;
    match p
    case Boundary =>
      if b <= 0x7F then Boundary
      else if 0xC2 <= b <= 0xDF then Tail(1)
      else if b == 0xE0 then AfterE0
      else if b == 0xED then AfterED
      else if 0xE1 <= b <= 0xEF then Tail(2)
      else if b == 0xF0 then AfterF0
      else if b == 0xF4 then AfterF4
      else if 0xF1 <= b <= 0xF3 then Tail(3)
      else Malformed
    case Tail(n) => if !IsTail(c) then Malformed else if n <= 1 then Boundary else Tail(n - 1)
    case AfterE0 => if 0xA0 <= b <= 0xBF then Tail(1) else Malformed
    case AfterED => if 0x80 <= b <= 0x9F then Tail(1) else Malformed
    case AfterF0 => if 0x90 <= b <= 0xBF then Tail(2) else Malformed
    case AfterF4 => if 0x80 <= b <= 0x8F then Tail(2) else Malformed
    case Malformed => Malformed
  }

  function Walk(p: Pos, t: Text): (q: Pos)
    decreases t
  {
    if |t| == 0 then p else Walk(Advance(p, t[0]), t[1..])
  }

  predicate Valid(t: Text) {
    Walk(Boundary, t) == Boundary
  }

  lemma {:induction false} WalkConcat(p: Pos, a: Text, b: Text)
    ensures Walk(p, a + b) == Walk(Walk(p, a), b)
    decreases a
  {
    if |a| == 0 {
      assert a + b == b;
    } else {
      assert (a + b)[1..] == a[1..] + b;
      WalkConcat(Advance(p, a[0]), a[1..], b);
    }
  }

  lemma {:induction false} WalkMalformed(t: Text)
    ensures Walk(Malformed, t) == Malformed
    decreases t
  {
    if |t| > 0 { WalkMalformed(t[1..]); }
  }

  /** An ASCII octet right after a cut inside a character spoils the file for good. */
  lemma CutIsFatal(p: Pos, t: Text)
    requires p != Boundary && |t| > 0 && t[0] as int < 0x80
    ensures Walk(p, t) == Malformed
  {
    WalkMalformed(t[1..]);
  }

  lemma {:induction false} AsciiValid(t: Text)
    requires Ascii(t)
    ensures Walk(Boundary, t) == Boundary
    decreases t
  {
    if |t| > 0 { AsciiValid(t[1..]); }
  }

  /** In a well-formed text a prefix is well-formed exactly when what follows it does not
      continue a character. */
  lemma CutsAt(t: Text, i: nat)
    requires Valid(t) && i < |t|
    ensures Valid(t[..i]) <==> !IsTail(t[i])
  {
    assert t == t[..i] + t[i..];
    WalkConcat(Boundary, t[..i], t[i..]);
    var p := Walk(Boundary, t[..i]);
    WalkMalformed(t[i + 1..]);
    assert t[i..][1..] == t[i + 1..];
    assert Advance(p, t[i]) != Malformed;
  }

  /** Some cut of a text is malformed exactly when the text leaves ASCII: the cut after
      the first octet of its first longer character. */
  lemma CutsIff(t: Text)
    ensures (exists n :: 0 <= n <= |t| && !Valid(t[..n])) <==> !Ascii(t)
  {
    if Ascii(t) {
      forall n | 0 <= n <= |t| ensures Valid(t[..n]) {
        AsciiValid(t[..n]);
      }
    } else {
      var i := FirstForeign(t);
      AsciiValid(t[..i]);
      WalkConcat(Boundary, t[..i], [t[i]]);
      assert t[..i + 1] == t[..i] + [t[i]] && [t[i]][1..] == [];
      assert !Valid(t[..i + 1]);
    }
  }

  lemma {:induction false} FirstForeign(t: Text) returns (i: nat)
    requires !Ascii(t)
    ensures i < |t| && t[i] as int >= 0x80 && Ascii(t[..i])
    decreases |t|
  {
    if t[0] as int >= 0x80 {
      i := 0;
    } else {
      ForeignRest(t);
      var j := FirstForeign(t[1..]);
      i := j + 1;
      assert t[..i] == [t[0]] + t[1..][..j];
    }
  }

  lemma ForeignRest(t: Text)
    requires !Ascii(t) && t[0] as int < 0x80
    ensures !Ascii(t[1..])
  {
    var i :| 0 <= i < |t| && t[i] as int >= 0x80;
    assert t[1..][i - 1] == t[i];
  }

  lemma ValidConcat(a: Text, b: Text)
    requires Valid(a) && Valid(b)
    ensures Valid(a + b)
  {
    WalkConcat(Boundary, a, b);
  }

  /** Escaping touches only ASCII octets, and leaves the walk where it was. */
  lemma EscapeOctetWalk(p: Pos, c: octet)
    ensures p == Boundary ==> Walk(p, EscapeOctet(c)) == Advance(p, c)
    ensures c as int >= 0x80 ==> Walk(p, EscapeOctet(c)) == Advance(p, c)
  {
    if c as int < 0x80 {
      AsciiValid(EscapeOctet(c));
    } else {
      assert [c][1..] == [];
    }
  }

  lemma {:induction false} EscapeWalk(p: Pos, t: Text)
    requires Walk(p, t) == Boundary
    ensures Walk(p, Escape(t)) == Boundary
    decreases t
  {
    if |t| > 0 {
      if p != Boundary && t[0] as int < 0x80 { CutIsFatal(p, t); }
      EscapeOctetWalk(p, t[0]);
      WalkConcat(p, EscapeOctet(t[0]), Escape(t[1..]));
      EscapeWalk(Advance(p, t[0]), t[1..]);
    }
  }

  /** Texts are well-formed and member names are ASCII. */
  predicate TextsValid(v: Value)
    decreases v
  {
    match v
    case Str(t) => Valid(t)
    case Num(d) => forall i :: 0 <= i < |d| ==> IsDigit(d[i])
    case Arr(items) => forall i :: 0 <= i < |items| ==> TextsValid(items[i])
    case Obj(fields) => forall i :: 0 <= i < |fields| ==> Ascii(fields[i].key) && TextsValid(fields[i].val)
  }

  lemma QuoteValid(t: Text)
    requires Valid(t)
    ensures Valid(Quote(t))
  {
    EscapeWalk(Boundary, t);
    AsciiValid(['"']);
    ValidConcat(['"'], Escape(t));
    ValidConcat(['"'] + Escape(t), ['"']);
  }

  lemma Wrapped(open: Text, body: Text, close: Text)
    requires Valid(body)
    requires |open| == |close| == 1 && open[0] as int < 0x80 && close[0] as int < 0x80
    ensures Valid(open + body + close)
  {
    AsciiValid(open); AsciiValid(close);
    ValidConcat(open, body);
    ValidConcat(open + body, close);
  }

  /** What the writer writes of well-formed texts is well-formed. */
  lemma {:induction false} WriteValid(v: Value)
    requires TextsValid(v)
    ensures Valid(Write(v))
    decreases v, 1
  {
    match v
    case Str(t) => QuoteValid(t);
    case Num(d) => AsciiValid(d);
    case Arr(items) =>
      ItemsValid(items);
      Wrapped(['['], WriteItems(items), [']']);
    case Obj(fields) =>
      FieldsValid(fields);
      Wrapped(['{'], WriteFields(fields), ['}']);
  }

  lemma {:induction false} ItemsValid(items: seq<Value>)
    requires forall i :: 0 <= i < |items| ==> TextsValid(items[i])
    ensures Valid(WriteItems(items))
    decreases items, 0
  {
    if |items| > 0 {
      WriteValid(items[0]);
      if |items| > 1 {
        ItemsValid(items[1..]);
        AsciiValid([',']);
        ValidConcat(Write(items[0]), [',']);
        ValidConcat(Write(items[0]) + [','], WriteItems(items[1..]));
      }
    }
  }

  lemma {:induction false} FieldsValid(fields: seq<Field>)
    requires forall i :: 0 <= i < |fields| ==> Ascii(fields[i].key) && TextsValid(fields[i].val)
    ensures Valid(WriteFields(fields))
    decreases fields, 0
  {
    if |fields| > 0 {
      AsciiValid([':']); AsciiValid([',']);
      AsciiValid(fields[0].key);
      QuoteValid(fields[0].key);
      WriteValid(fields[0].val);
      ValidConcat(Quote(fields[0].key), [':']);
      ValidConcat(Quote(fields[0].key) + [':'], Write(fields[0].val));
      if |fields| > 1 {
        FieldsValid(fields[1..]);
        ValidConcat(WriteField(fields[0]), [',']);
        ValidConcat(WriteField(fields[0]) + [','], WriteFields(fields[1..]));
      }
    }
  }

  // ------------------------------------------------------------------------
  // Text beyond ASCII stays beyond it
  // ------------------------------------------------------------------------

  lemma {:induction false} EscapeForeign(t: Text)
    requires !Ascii(t)
    ensures !Ascii(Escape(t))
  {
    var rest := Escape(t[1..]);
    if t[0] as int >= 0x80 {
      assert (EscapeOctet(t[0]) + rest)[0] == t[0];
    } else {
      ForeignRest(t);
      EscapeForeign(t[1..]);
      ForeignPart(EscapeOctet(t[0]), rest, []);
    }
  }

  lemma ForeignPart(a: Text, b: Text, c: Text)
    requires !Ascii(b)
    ensures !Ascii(a + b + c) && !Ascii(a + b) && !Ascii(b + c)
  {
    var i :| 0 <= i < |b| && b[i] as int >= 0x80;
    assert (a + b)[|a| + i] == b[i] && (b + c)[i] == b[i] && (a + b + c)[|a| + i] == b[i];
  }

  /** A member's text that leaves ASCII makes the object's text leave it. */
  lemma {:induction false} FieldForeign(fields: seq<Field>, i: nat)
    requires i < |fields| && fields[i].val.Str? && !Ascii(fields[i].val.text)
    ensures !Ascii(WriteFields(fields))
    decreases i
  {
    if i == 0 {
      FirstForeignField(fields);
    } else {
      FieldForeign(fields[1..], i - 1);
      RestForeign(fields);
    }
  }

  lemma FirstForeignField(fields: seq<Field>)
    requires |fields| > 0 && fields[0].val.Str? && !Ascii(fields[0].val.text)
    ensures !Ascii(WriteFields(fields))
  {
    var w := WriteField(fields[0]);
    TextForeign(fields[0]);
    if |fields| > 1 {
      ForeignPart([], w, [','] + WriteFields(fields[1..]));
      assert w + ([','] + WriteFields(fields[1..])) == w + [','] + WriteFields(fields[1..]);
    }
  }

  lemma RestForeign(fields: seq<Field>)
    requires |fields| > 1 && !Ascii(WriteFields(fields[1..]))
    ensures !Ascii(WriteFields(fields))
  {
    ForeignPart(WriteField(fields[0]) + [','], WriteFields(fields[1..]), []);
  }

  lemma TextForeign(f: Field)
    requires f.val.Str? && !Ascii(f.val.text)
    ensures !Ascii(WriteField(f))
  {
    EscapeForeign(f.val.text);
    ForeignPart(['"'], Escape(f.val.text), ['"']);
    assert Write(f.val) == ['"'] + Escape(f.val.text) + ['"'];
    ForeignPart(Quote(f.key) + [':'], Write(f.val), []);
  }

  // ------------------------------------------------------------------------
  // No raw line break
  // ------------------------------------------------------------------------

  predicate OneLine(t: Text) {
    forall i :: 0 <= i < |t| ==> t[i] != '\n'
  }

  lemma {:induction false} EscapeOneLine(t: Text)
    ensures OneLine(Escape(t))
  {
    if |t| > 0 {
      EscapeOneLine(t[1..]);
      assert OneLine(EscapeOctet(t[0]));
    }
  }

  /** The writer never emits a line break: a text is one line of the log. */
  lemma {:induction false} WriteOneLine(v: Value)
    requires Writable(v)
    ensures OneLine(Write(v))
    decreases v, 1
  {
    match v
    case Str(t) => EscapeOneLine(t);
    case Num(d) =>
    case Arr(items) => ItemsOneLine(items);
    case Obj(fields) => FieldsOneLine(fields);
  }

  lemma {:induction false} ItemsOneLine(items: seq<Value>)
    requires forall i :: 0 <= i < |items| ==> Writable(items[i])
    ensures OneLine(WriteItems(items))
    decreases items, 0
  {
    if |items| > 0 {
      WriteOneLine(items[0]);
      if |items| > 1 { ItemsOneLine(items[1..]); }
    }
  }

  lemma {:induction false} FieldsOneLine(fields: seq<Field>)
    requires forall i :: 0 <= i < |fields| ==> Writable(fields[i].val)
    ensures OneLine(WriteFields(fields))
    decreases fields, 0
  {
    if |fields| > 0 {
      EscapeOneLine(fields[0].key);
      WriteOneLine(fields[0].val);
      if |fields| > 1 { FieldsOneLine(fields[1..]); }
    }
  }
}
