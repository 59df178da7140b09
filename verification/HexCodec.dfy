/** The 32-byte hexadecimal codec for targets and challenges. */
module HexCodec {
  import opened Wrappers
  import opened Bytes
  import opened Octets
  import Utf8

  /** Lower-case digits, two a byte, first byte first. */
  function Hex(bs: seq<byte>): (t: Text)
    ensures |t| == 2 * |bs|
    ensures forall i :: 0 <= i < |t| ==> '0' <= t[i] <= '9' || 'a' <= t[i] <= 'f'
  {
    if |bs| == 0 then [] else [HexOf(bs[0] / 16), HexOf(bs[0] % 16)] + Hex(bs[1..])
  }

  datatype Parsed = Parsed(bytes: Target) | Refused | Aborted

  /** An octet that continues a multi-octet character: slicing there aborts. */
  predicate Continues(c: octet) {
    0x80 <= c as int <= 0xBF
  }

  predicate Cuts(s: Text, i: nat) {
    i < |s| && Continues(s[i])
  }

  /** A radix-16 pair. A leading plus sign before one digit is accepted. */
  function Pair(a: octet, b: octet): (r: Option<byte>) {
    if a == '+' && IsHexDigit(b) then Some(HexDigit(b))
    else if IsHexDigit(a) && IsHexDigit(b) then Some(16 * HexDigit(a) + HexDigit(b))
    else None
  }

  function Body(s: Text): (t: Text) {
    if |s| >= 2 && s[0] == '0' && s[1] == 'x' then s[2..] else s
  }

  /** The byte that pair k denotes. */
  function PairAt(t: Text, k: nat): (r: Option<byte>)
    requires |t| == 64 && k < 32
  {
    Pair(t[2 * k], t[2 * k + 1])
  }

  /** Every pair from byte i on is accepted. */
  predicate PairsFrom(t: Text, i: nat)
    requires |t| == 64
  {
    forall k :: i <= k < 32 ==> PairAt(t, k).Some?
  }

  function PairValues(t: Text): (r: Target)
    requires |t| == 64 && PairsFrom(t, 0)
  {
    seq(32, k requires 0 <= k < 32 => PairAt(t, k).value)
  }

  /** The parser: a 32-byte buffer filled pair by pair. It accepts exactly 64 octets
      of accepted pairs after an optional prefix, and aborts only on a slice inside a
      multi-octet character. */
  method ParseHex32(s: Text) returns (r: Parsed)
    ensures r == ParseResult(s)
  {
    var t := Body(s);
    if |t| != 64 { return Refused; }
    var out := new byte[32];
    var i := 0;
    while i < 32
      invariant i <= 32
      invariant forall k :: 0 <= k < i ==> PairAt(t, k) == Some(out[k])
      invariant FirstFault(t, i) == FirstFault(t, 0)
    {
      if Cuts(t, 2 * i) || Cuts(t, 2 * i + 2) { return Aborted; }
      var p := PairAt(t, i);
      if p == None { return Refused; }
      out[i] := p.value;
      i := i + 1;
    }
    var bytes: Target := out[..];
    AllParsed(s, t, bytes);
    r := Parsed(bytes);
  }

  lemma AllParsed(s: Text, t: Text, bytes: Target)
    requires t == Body(s) && |t| == 64 && FirstFault(t, 0) == NoFault
    requires forall k :: 0 <= k < 32 ==> PairAt(t, k) == Some(bytes[k])
    ensures ParseResult(s) == Parsed(bytes)
  {
    assert bytes == PairValues(t);
  }

  datatype Fault = NoFault | BadPair | BadSlice

  /** The first thing wrong from byte i on. */
  function FirstFault(t: Text, i: nat): (f: Fault)
    requires |t| == 64 && i <= 32
    ensures f == NoFault ==> PairsFrom(t, i)
    decreases 32 - i
  {
    if i == 32 then NoFault
    else if Cuts(t, 2 * i) || Cuts(t, 2 * i + 2) then BadSlice
    else if PairAt(t, i) == None then BadPair
    else FirstFault(t, i + 1)
  }

  function ParseResult(s: Text): (r: Parsed) {
    var t := Body(s);
    if |t| != 64 then Refused
    else match FirstFault(t, 0)
      case NoFault => Parsed(PairValues(t))
      case BadPair => Refused
      case BadSlice => Aborted
  }

  lemma {:induction false} GoodPairsNoFault(t: Text, i: nat)
    requires |t| == 64 && i <= 32 && PairsFrom(t, i)
    ensures FirstFault(t, i) == NoFault
    decreases 32 - i
  {
    if i < 32 {
      assert PairAt(t, i).Some?;
      if i + 1 < 32 { assert PairAt(t, i + 1).Some?; }
      GoodPairsNoFault(t, i + 1);
    }
  }

  /** 64 octets, each pair two hexadecimal digits or a plus sign and one. */
  predicate PairsOfDigits(t: Text) {
    |t| == 64
    && forall k :: 0 <= k < 32 ==> IsHexDigit(t[2 * k + 1]) && (IsHexDigit(t[2 * k]) || t[2 * k] == '+')
  }

  /** Acceptance, exactly: pairs of digits, as they are or after the prefix. */
  lemma AcceptsExactly(s: Text)
    ensures ParseResult(s).Parsed? <==> |Body(s)| == 64 && PairsFrom(Body(s), 0)
    ensures ParseResult(s).Parsed?
            <==> PairsOfDigits(s) || (|s| == 66 && s[0] == '0' && s[1] == 'x' && PairsOfDigits(s[2..]))
  {
    if |Body(s)| == 64 && PairsFrom(Body(s), 0) { GoodPairsNoFault(Body(s), 0); }
    if |s| == 64 { DigitsIff(s); }
    if |s| == 66 { DigitsIff(s[2..]); }
    if PairsOfDigits(s) { assert IsHexDigit(s[2 * 0 + 1]); }
  }

  lemma DigitsIff(t: Text)
    requires |t| == 64
    ensures PairsFrom(t, 0) <==> PairsOfDigits(t)
  {
    if PairsFrom(t, 0) {
      forall k | 0 <= k < 32
        ensures IsHexDigit(t[2 * k + 1]) && (IsHexDigit(t[2 * k]) || t[2 * k] == '+')
      {
        assert PairAt(t, k).Some?;
      }
    }
  }

  lemma {:induction false} HexAt(bs: seq<byte>, k: nat)
    requires k < |bs|
    ensures Hex(bs)[2 * k] == HexOf(bs[k] / 16) && Hex(bs)[2 * k + 1] == HexOf(bs[k] % 16)
  {
    if k > 0 { HexAt(bs[1..], k - 1); }
  }

  /** Parsing undoes formatting on every target; in particular no formatted target
      looks as if it had the optional prefix. */
  lemma HexRoundTrip(b: Target)
    ensures Body(Hex(b)) == Hex(b)
    ensures ParseResult(Hex(b)) == Parsed(b)
  {
    var t := Hex(b);
    forall k | 0 <= k < 32
      ensures PairAt(t, k) == Some(b[k])
    {
      HexAt(b, k);
    }
    GoodPairsNoFault(t, 0);
    assert PairValues(t) == b;
  }

  /** The optional prefix is read over. */
  lemma PrefixedHex(b: Target)
    ensures ParseResult(['0', 'x'] + Hex(b)) == Parsed(b)
  {
    HexRoundTrip(b);
    assert (['0', 'x'] + Hex(b))[2..] == Hex(b);
  }

  predicate AllHex(t: Text) {
    forall i :: 0 <= i < |t| ==> IsHexDigit(t[i])
  }

  function LowerAll(t: Text): (r: Text)
    ensures |r| == |t|
  {
    seq(|t|, i requires 0 <= i < |t| => Lower(t[i]))
  }

  lemma LowerHex(c: octet)
    requires IsHexDigit(c)
    ensures Lower(c) == HexOf(HexDigit(c))
  {
  }

  predicate SamePair(h: Text, t: Text, k: nat)
    requires |h| == |t| == 64 && k < 32
  {
    h[2 * k] == Lower(t[2 * k]) && h[2 * k + 1] == Lower(t[2 * k + 1])
  }

  predicate HexPair(t: Text, k: nat)
    requires |t| == 64 && k < 32
  {
    IsHexDigit(t[2 * k]) && IsHexDigit(t[2 * k + 1])
  }

  lemma ByPairs(h: Text, t: Text)
    requires |h| == |t| == 64
    ensures (forall k :: 0 <= k < 32 ==> SamePair(h, t, k)) <==> h == LowerAll(t)
    ensures (forall k :: 0 <= k < 32 ==> HexPair(t, k)) <==> AllHex(t)
  {
    if forall k :: 0 <= k < 32 ==> SamePair(h, t, k) {
      forall i | 0 <= i < 64 ensures h[i] == Lower(t[i]) {
        assert SamePair(h, t, i / 2);
      }
    }
    if forall k :: 0 <= k < 32 ==> HexPair(t, k) {
      forall i | 0 <= i < 64 ensures IsHexDigit(t[i]) {
        assert HexPair(t, i / 2);
      }
    }
  }

  /** Formatting undoes parsing, up to case, exactly on pure hexadecimal input: the
      accepted plus-sign pairs come back as something else. */
  lemma HexOfParse(s: Text)
    requires ParseResult(s).Parsed?
    ensures Hex(ParseResult(s).bytes) == LowerAll(Body(s)) <==> AllHex(Body(s))
  {
    var t := Body(s);
    AcceptsExactly(s);
    var h := Hex(PairValues(t));
    ByPairs(h, t);
    forall k | 0 <= k < 32
      ensures SamePair(h, t, k) <==> HexPair(t, k)
    {
      HexAt(PairValues(t), k);
      PairBack(t[2 * k], t[2 * k + 1]);
    }
  }

  /** One accepted text that is not hexadecimal: `+f` followed by zeros is read as 15 and
      printed as `0f`. */
  lemma PlusIsAccepted(s: Text)
    requires |s| == 64 && s[0] == '+' && s[1] == 'f' && forall i :: 2 <= i < 64 ==> s[i] == '0'
    ensures ParseResult(s).Parsed? && ParseResult(s).bytes[0] == 15
    ensures Hex(ParseResult(s).bytes) != LowerAll(Body(s))
  {
    assert Body(s) == s;
    forall k | 0 <= k < 32 ensures PairAt(s, k).Some? {
      assert k > 0 ==> s[2 * k] == '0' && s[2 * k + 1] == '0';
    }
    AcceptsExactly(s);
    HexOfParse(s);
    assert !IsHexDigit(s[0]);
  }

  lemma PairBack(a: octet, b: octet)
    requires Pair(a, b).Some?
    ensures var v := Pair(a, b).value;
            HexOf(v / 16) == Lower(a) && HexOf(v % 16) == Lower(b) <==> IsHexDigit(a) && IsHexDigit(b)
  {
    LowerHex(b);
    if IsHexDigit(a) { LowerHex(a); }
  }

  /** Pair k of a text can be sliced out: it begins and ends between characters. */
  predicate Sliceable(t: Text, k: nat)
    requires |t| == 64 && k < 32
  {
    Utf8.Valid(t[..2 * k]) && Utf8.Valid(t[..2 * k + 2])
  }

  lemma CutsIffNot(t: Text, k: nat)
    requires |t| == 64 && k < 32 && Utf8.Valid(t)
    ensures Sliceable(t, k) <==> !(Cuts(t, 2 * k) || Cuts(t, 2 * k + 2))
  {
    Utf8.CutsAt(t, 2 * k);
    if k < 31 { Utf8.CutsAt(t, 2 * k + 2); } else { assert t[..64] == t; }
  }

  /** Pair k is the first that cannot be sliced out, and none before it is refused. */
  predicate StopsAt(t: Text, i: nat, k: nat)
    requires |t| == 64
  {
    i <= k < 32 && !Sliceable(t, k) && forall j :: i <= j < k ==> PairAt(t, j).Some? && Sliceable(t, j)
  }

  lemma {:induction false} SliceFault(t: Text, i: nat)
    requires |t| == 64 && i <= 32 && Utf8.Valid(t)
    ensures FirstFault(t, i) == BadSlice <==> exists k :: StopsAt(t, i, k)
    decreases 32 - i
  {
    if i < 32 {
      CutsIffNot(t, i);
      if !Sliceable(t, i) {
        assert StopsAt(t, i, i);
      } else if PairAt(t, i).Some? {
        SliceFault(t, i + 1);
        StopsLater(t, i, i + 1);
      } else {
        forall k ensures !StopsAt(t, i, k) {
          assert PairAt(t, i) == None;
        }
      }
    }
  }

  lemma StopsLater(t: Text, i: nat, next: nat)
    requires |t| == 64 && i < 32 && next == i + 1 && Sliceable(t, i) && PairAt(t, i).Some?
    ensures (exists k :: StopsAt(t, i, k)) <==> (exists k :: StopsAt(t, next, k))
  {
    if k :| StopsAt(t, i, k) { assert StopsAt(t, next, k); }
    if k :| StopsAt(t, next, k) { assert StopsAt(t, i, k); }
  }

  lemma BodyValid(s: Text)
    requires Utf8.Valid(s)
    ensures Utf8.Valid(Body(s))
  {
    if Body(s) != s {
      assert s == s[..2] + s[2..];
      Utf8.AsciiValid(s[..2]);
      Utf8.WalkConcat(Utf8.Boundary, s[..2], s[2..]);
    }
  }

  /** On a text the parser aborts exactly when, before any refused pair, it slices inside a
      character. */
  lemma AbortsExactly(s: Text)
    requires Utf8.Valid(s)
    ensures ParseResult(s) == Aborted <==> |Body(s)| == 64 && exists k :: StopsAt(Body(s), 0, k)
  {
    BodyValid(s);
    if |Body(s)| == 64 { SliceFault(Body(s), 0); }
  }
}
