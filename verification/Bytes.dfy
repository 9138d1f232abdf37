/** Bytes and little-endian numbers. */
module Bytes {
  newtype Byte = x: int | 0 <= x < 256

  /** The number that the bytes stand for, least significant byte first. */
  function Value(s: seq<Byte>): nat
  {
    if s == [] then 0 else s[0] as nat + 256 * Value(s[1..])
  }

  /** `n` bytes of the number `v`. */
  function Digits(v: nat, n: nat): (s: seq<Byte>)
    ensures |s| == n
  {
    if n == 0 then [] else [(v % 256) as Byte] + Digits(v / 256, n - 1)
  }

  ghost function Pow256(n: nat): nat { if n == 0 then 1 else 256 * Pow256(n - 1) }

  /** Byte `i` counts multiples of 256 to the power `i`. */
  lemma {:induction false} ValueMore(s: seq<Byte>, b: Byte)
    ensures Value(s + [b]) == Value(s) + Pow256(|s|) * b as nat
  {
    if s == [] {
      assert (s + [b])[1..] == [];
    } else {
      assert (s + [b])[1..] == s[1..] + [b];
      ValueMore(s[1..], b);
      Spread(Pow256(|s| - 1), b as nat);
    }
  }

  lemma {:induction false} Spread(p: nat, b: nat)
    ensures 256 * (p * b) == (256 * p) * b
  {
  }

  lemma {:induction false} ValueOfDigits(v: nat, n: nat)
    requires v < Pow256(n)
    ensures Value(Digits(v, n)) == v
  {
    if n != 0 { ValueOfDigits(v / 256, n - 1); }
  }
}
