/** UTF-8 from the other side: the encodings of Unicode scalar values by the bits of
    their code points (section 3 of RFC 3629), and that exactly their concatenations
    are well-formed. */
module Scalars {
  import opened Octets
  import Utf8

  /** A code point that may be encoded: no surrogate, none above 10FFFF. */
  predicate IsScalar(u: nat) {
    u < 0xD800 || 0xE000 <= u < 0x11_0000
  }

  /** Six bits of the code point behind the marker of a following octet. */
  function Following(u: nat, shift: nat): (c: octet)
    requires shift > 0
    ensures 0x80 <= c as int < 0xC0
  {
    (0x80 + u / shift % 64) as char
  }

  /** One to four octets, as many as the bits of the code point need. */
  function Encoding(u: nat): (t: Text)
    requires u < 0x11_0000
    ensures 1 <= |t| <= 4
  {
    if u < 0x80 then [u as char]
    else if u < 0x800 then [(0xC0 + u / 64) as char, Following(u, 1)]
    else if u < 0x1_0000 then [(0xE0 + u / 4096) as char, Following(u, 64), Following(u, 1)]
    else [(0xF0 + u / 262144) as char, Following(u, 4096), Following(u, 64), Following(u, 1)]
  }

  predicate AllScalars(us: seq<nat>) {
    forall i :: 0 <= i < |us| ==> IsScalar(us[i])
  }

  function Encodings(us: seq<nat>): (t: Text)
    requires AllScalars(us)
  {
    if |us| == 0 then [] else Encoding(us[0]) + Encodings(us[1..])
  }

  // ------------------------------------------------------------------------
  // Encodings are well-formed
  // ------------------------------------------------------------------------

  lemma WalkOn(p: Utf8.Pos, a: octet, t: Text)
    ensures Utf8.Walk(p, [a] + t) == Utf8.Walk(Utf8.Advance(p, a), t)
  {
    assert ([a] + t)[1..] == t;
  }

  lemma WalkTwo(a: octet, b: octet)
    requires Utf8.Advance(Utf8.Advance(Utf8.Boundary, a), b) == Utf8.Boundary
    ensures Utf8.Valid([a, b])
  {
    WalkOn(Utf8.Boundary, a, [b]);
    WalkOn(Utf8.Advance(Utf8.Boundary, a), b, []);
    assert [a] + [b] == [a, b] && [b] + [] == [b];
  }

  lemma WalkThree(a: octet, b: octet, c: octet)
    requires Utf8.Advance(Utf8.Advance(Utf8.Advance(Utf8.Boundary, a), b), c) == Utf8.Boundary
    ensures Utf8.Valid([a, b, c])
  {
    var p := Utf8.Advance(Utf8.Boundary, a);
    WalkOn(Utf8.Boundary, a, [b, c]);
    WalkOn(p, b, [c]);
    WalkOn(Utf8.Advance(p, b), c, []);
    assert [a] + [b, c] == [a, b, c] && [b] + [c] == [b, c] && [c] + [] == [c];
  }

  lemma WalkFour(a: octet, b: octet, c: octet, d: octet)
    requires Utf8.Advance(Utf8.Advance(Utf8.Advance(Utf8.Advance(Utf8.Boundary, a), b), c), d) == Utf8.Boundary
    ensures Utf8.Valid([a, b, c, d])
  {
    var p := Utf8.Advance(Utf8.Boundary, a);
    var q := Utf8.Advance(p, b);
    WalkOn(Utf8.Boundary, a, [b, c, d]);
    WalkOn(p, b, [c, d]);
    WalkOn(q, c, [d]);
    WalkOn(Utf8.Advance(q, c), d, []);
    assert [a] + [b, c, d] == [a, b, c, d] && [b] + [c, d] == [b, c, d];
    assert [c] + [d] == [c, d] && [d] + [] == [d];
  }

  lemma TwoValid(u: nat)
    requires 0x80 <= u < 0x800
    ensures Utf8.Valid(Encoding(u))
  {
    WalkTwo((0xC0 + u / 64) as char, Following(u, 1));
  }

  lemma ThreeValid(u: nat)
    requires 0x800 <= u < 0x1_0000 && IsScalar(u)
    ensures Utf8.Valid(Encoding(u))
  {
    var a, b, c := (0xE0 + u / 4096) as char, Following(u, 64), Following(u, 1);
    MiddleOfThree(u);
    WalkThree(a, b, c);
  }

  /** What the second octet must be where the first alone would allow too much. */
  lemma MiddleOfThree(u: nat)
    requires 0x800 <= u < 0x1_0000 && IsScalar(u)
    ensures u / 4096 < 16
    ensures u / 4096 == 0 ==> u / 64 % 64 >= 32
    ensures u / 4096 == 13 ==> u / 64 % 64 < 32
  {
    assert u / 64 == u / 4096 * 64 + u / 64 % 64;
  }

  lemma FourValid(u: nat)
    requires 0x1_0000 <= u < 0x11_0000
    ensures Utf8.Valid(Encoding(u))
  {
    var a, b, c, d := (0xF0 + u / 262144) as char, Following(u, 4096), Following(u, 64), Following(u, 1);
    SecondOfFour(u);
    WalkFour(a, b, c, d);
  }

  lemma SecondOfFour(u: nat)
    requires 0x1_0000 <= u < 0x11_0000
    ensures u / 262144 <= 4
    ensures u / 262144 == 0 ==> u / 4096 % 64 >= 16
    ensures u / 262144 == 4 ==> u / 4096 % 64 < 16
  {
    assert u / 4096 == u / 262144 * 64 + u / 4096 % 64;
  }

  lemma EncodingValid(u: nat)
    requires IsScalar(u)
    ensures Utf8.Valid(Encoding(u))
  {
    if u < 0x80 {
      Utf8.AsciiValid(Encoding(u));
    } else if u < 0x800 {
      TwoValid(u);
    } else if u < 0x1_0000 {
      ThreeValid(u);
    } else {
      FourValid(u);
    }
  }

  lemma {:induction false} EncodingsValid(us: seq<nat>)
    requires AllScalars(us)
    ensures Utf8.Valid(Encodings(us))
  {
    if |us| > 0 {
      EncodingValid(us[0]);
      EncodingsValid(us[1..]);
      Utf8.ValidConcat(Encoding(us[0]), Encodings(us[1..]));
    }
  }

  // ------------------------------------------------------------------------
  // What is well-formed decodes
  // ------------------------------------------------------------------------

  /** Inside a character a well-formed text goes on. */
  lemma GoesOn(p: Utf8.Pos, t: Text, i: nat) returns (q: Utf8.Pos)
    requires i <= |t| && p != Utf8.Boundary && Utf8.Walk(p, t[i..]) == Utf8.Boundary
    ensures i < |t| && q == Utf8.Advance(p, t[i]) && q != Utf8.Malformed
    ensures Utf8.Walk(q, t[i + 1..]) == Utf8.Boundary
  {
    assert i < |t|;
    assert t[i..][1..] == t[i + 1..];
    q := Utf8.Advance(p, t[i]);
    if q == Utf8.Malformed { Utf8.WalkMalformed(t[i + 1..]); }
  }

  /** u is the first character of t, in n octets. */
  ghost predicate Leads(t: Text, u: nat, n: nat) {
    IsScalar(u) && 1 <= n <= |t| && t[..n] == Encoding(u) && Utf8.Valid(t[n..])
  }

  lemma LeadTwo(t: Text) returns (u: nat)
    requires Utf8.Valid(t) && |t| > 0 && 0xC2 <= t[0] as int <= 0xDF
    ensures Leads(t, u, 2)
  {
    assert t[0..] == t;
    var p := GoesOn(Utf8.Tail(1), t, 1);
    u := (t[0] as int - 0xC0) * 64 + (t[1] as int - 0x80);
    assert t[..2] == [t[0], t[1]];
  }

  lemma LeadThree(t: Text) returns (u: nat)
    requires Utf8.Valid(t) && |t| > 0 && 0xE0 <= t[0] as int <= 0xEF
    ensures Leads(t, u, 3)
  {
    var p := GoesOn(Utf8.Advance(Utf8.Boundary, t[0]), t, 1);
    var q := GoesOn(p, t, 2);
    u := JoinThree(t[0] as int - 0xE0, t[1] as int - 0x80, t[2] as int - 0x80);
    assert t[..3] == [t[0], t[1], t[2]];
  }

  lemma JoinThree(a: nat, b: nat, c: nat) returns (u: nat)
    requires a < 16 && b < 64 && c < 64
    ensures u == a * 4096 + b * 64 + c && u / 4096 == a && u / 64 % 64 == b && u % 64 == c
  {
    u := a * 4096 + b * 64 + c;
    assert u / 64 == a * 64 + b;
  }

  lemma LeadFour(t: Text) returns (u: nat)
    requires Utf8.Valid(t) && |t| > 0 && 0xF0 <= t[0] as int <= 0xF4
    ensures Leads(t, u, 4)
  {
    var p := GoesOn(Utf8.Advance(Utf8.Boundary, t[0]), t, 1);
    var q := GoesOn(p, t, 2);
    var r := GoesOn(q, t, 3);
    u := JoinFour(t[0] as int - 0xF0, t[1] as int - 0x80, t[2] as int - 0x80, t[3] as int - 0x80);
    assert t[..4] == [t[0], t[1], t[2], t[3]];
  }

  lemma JoinFour(a: nat, b: nat, c: nat, d: nat) returns (u: nat)
    requires a < 8 && b < 64 && c < 64 && d < 64
    ensures u == a * 262144 + b * 4096 + c * 64 + d
    ensures u / 262144 == a && u / 4096 % 64 == b && u / 64 % 64 == c && u % 64 == d
  {
    u := a * 262144 + b * 4096 + c * 64 + d;
    assert u / 64 == a * 4096 + b * 64 + c && u / 4096 == a * 64 + b;
  }

  /** A well-formed text begins with a character. */
  lemma LeadsOff(t: Text) returns (u: nat, n: nat)
    requires Utf8.Valid(t) && |t| > 0
    ensures Leads(t, u, n)
  {
    var b := t[0] as int;
    if b < 0x80 {
      u, n := b, 1;
      assert t[..1] == [t[0]];
    } else if 0xC2 <= b <= 0xDF {
      u := LeadTwo(t);
      n := 2;
    } else if 0xE0 <= b <= 0xEF {
      u := LeadThree(t);
      n := 3;
    } else if 0xF0 <= b <= 0xF4 {
      u := LeadFour(t);
      n := 4;
    } else {
      Utf8.WalkMalformed(t[1..]);
      assert false;
    }
  }

  lemma {:induction false} Decoded(t: Text) returns (us: seq<nat>)
    requires Utf8.Valid(t)
    ensures AllScalars(us) && Encodings(us) == t
    decreases |t|
  {
    us := [];
    if |t| > 0 {
      var u, n := LeadsOff(t);
      var rest := Decoded(t[n..]);
      us := [u] + rest;
      assert us[1..] == rest && t == t[..n] + t[n..];
    }
  }

  /** A text is well-formed if and only if it is a concatenation of encodings of scalar
      values. */
  lemma ValidExactly(t: Text)
    ensures Utf8.Valid(t) <==> exists us :: AllScalars(us) && Encodings(us) == t
  {
    if Utf8.Valid(t) {
      var us := Decoded(t);
      assert AllScalars(us) && Encodings(us) == t;
    }
    forall us | AllScalars(us) && Encodings(us) == t ensures Utf8.Valid(t) {
      EncodingsValid(us);
    }
  }
}
