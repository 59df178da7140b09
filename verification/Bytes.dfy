/** Bytes, little-endian values and 32-byte targets. */
module Bytes {

  type byte = b: int | 0 <= b < 256

  /** A 256-bit jackpot target, least significant byte first. */
  type Target = t: seq<byte> | |t| == 32 witness seq(32, _ => 0)

  function Pow256(n: nat): (p: nat)
    ensures p > 0
  {
    if n == 0 then 1 else 256 * Pow256(n - 1)
  }

  /** The integer a little-endian byte string denotes. */
  function LeValue(bs: seq<byte>): (v: nat)
    ensures v < Pow256(|bs|)
  {
    if |bs| == 0 then 0 else bs[0] + 256 * LeValue(bs[1..])
  }

  /** The n-byte little-endian encoding of v. */
  function LeBytes(v: nat, n: nat): (bs: seq<byte>)
    requires v < Pow256(n)
    ensures |bs| == n && LeValue(bs) == v
  {
    if n == 0 then [] else [v % 256] + LeBytes(v / 256, n - 1)
  }

  lemma {:induction false} LeInjective(a: seq<byte>, b: seq<byte>)
    requires |a| == |b| && LeValue(a) == LeValue(b)
    ensures a == b
  {
    if |a| > 0 {
      assert a[0] == LeValue(a) % 256 == LeValue(b) % 256 == b[0];
      LeInjective(a[1..], b[1..]);
      assert a == [a[0]] + a[1..] && b == [b[0]] + b[1..];
    }
  }
}
