/** Text as the log stores it: octets, each written as the char of that code. */
module Octets {

  type octet = c: char | c as int < 256 witness '0'

  type Text = seq<octet>

  predicate Ascii(t: Text) {
    forall i :: 0 <= i < |t| ==> t[i] as int < 0x80
  }

  predicate IsDigit(c: octet) {
    '0' <= c <= '9'
  }

  function DigitValue(c: octet): (d: nat)
    requires IsDigit(c)
    ensures d < 10
  {
    c as int - '0' as int
  }

  function DigitOf(d: nat): (c: octet)
    requires d < 10
    ensures IsDigit(c) && DigitValue(c) == d
  {
    ('0' as int + d) as char
  }

  /** Canonical decimal: no leading zeros. */
  function Decimal(n: nat): (t: Text)
    ensures |t| > 0
    ensures forall i :: 0 <= i < |t| ==> IsDigit(t[i])
    ensures n > 0 ==> t[0] != '0'
    ensures n == 0 ==> t == "0"
  {
    if n < 10 then [DigitOf(n)] else Decimal(n / 10) + [DigitOf(n % 10)]
  }

  function DecimalValue(t: Text): (n: nat)
    requires forall i :: 0 <= i < |t| ==> IsDigit(t[i])
  {
    if |t| == 0 then 0
    else 10 * DecimalValue(t[..|t| - 1]) + DigitValue(t[|t| - 1])
  }

  lemma {:induction false} DecimalRoundTrip(n: nat)
    ensures DecimalValue(Decimal(n)) == n
  {
    if n >= 10 {
      DecimalRoundTrip(n / 10);
      var t := Decimal(n);
      assert t[..|t| - 1] == Decimal(n / 10);
    } else {
      assert Decimal(n)[..0] == [];
    }
  }

  /** Digits without a superfluous leading zero are the decimal of their value. */
  lemma {:induction false} DecimalOfValue(t: Text)
    requires |t| > 0 && (forall i :: 0 <= i < |t| ==> IsDigit(t[i])) && (|t| > 1 ==> t[0] != '0')
    ensures Decimal(DecimalValue(t)) == t
    ensures t[0] != '0' ==> DecimalValue(t) > 0
  {
    var init, d := t[..|t| - 1], DigitValue(t[|t| - 1]);
    if |t| == 1 {
      assert init == [] && DecimalValue(t) == d;
    } else {
      DecimalOfValue(init);
      assert DecimalValue(t) == 10 * DecimalValue(init) + d;
    }
    assert t == init + [DigitOf(d)];
  }

  /** The value of a hexadecimal digit, either case; 16 for anything else. */
  function HexDigit(c: octet): (d: nat)
    ensures d <= 16
  {
    if '0' <= c <= '9' then c as int - '0' as int
    else if 'a' <= c <= 'f' then c as int - 'a' as int + 10
    else if 'A' <= c <= 'F' then c as int - 'A' as int + 10
    else 16
  }

  predicate IsHexDigit(c: octet) {
    HexDigit(c) < 16
  }

  /** The lower-case digit of a value. */
  function HexOf(d: nat): (c: octet)
    requires d < 16
    ensures HexDigit(c) == d
    ensures '0' <= c <= '9' || 'a' <= c <= 'f'
  {
    if d < 10 then ('0' as int + d) as char else ('a' as int + (d - 10)) as char
  }

  function Lower(c: octet): (r: octet) {
    if 'A' <= c <= 'Z' then (c as int + 32) as char else c
  }
}
