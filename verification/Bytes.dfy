// Fixed-width unsigned integers as bytes, in both byte orders.
module Bytes {
  import opened Arithmetic
  import opened Text

  const TWO16 := 0x1_0000
  const TWO31 := 0x8000_0000
  const TWO32 := 0x1_0000_0000
  const TWO63 := 0x8000_0000_0000_0000
  const TWO64 := 0x1_0000_0000_0000_0000

  type uint16 = x: int | 0 <= x < 0x1_0000 witness 0
  type uint32 = x: int | 0 <= x < 0x1_0000_0000 witness 0
  type uint64 = x: int | 0 <= x < 0x1_0000_0000_0000_0000 witness 0
  type int32 = x: int | -0x8000_0000 <= x < 0x8000_0000 witness 0

  // The uint32 with the same bits as an int32, and back.
  function ToUnsigned(x: int32): (u: uint32) {
    if x < 0 then x + TWO32 else x
  }

  function ToSigned(u: uint32): (x: int32)
    ensures ToUnsigned(x) == u
  {
    if u >= TWO31 then u - TWO32 else u
  }

  function Pow256(n: nat): (p: nat)
    ensures p > 0
  {
    if n == 0 then 1 else 256 * Pow256(n - 1)
  }

  lemma Pow256Values()
    ensures Pow256(1) == 256 && Pow256(2) == TWO16 && Pow256(4) == TWO32 && Pow256(8) == TWO64
  {
    assert Pow256(3) == 256 * Pow256(2);
    assert Pow256(5) == 256 * Pow256(4);
    assert Pow256(6) == 256 * Pow256(5);
    assert Pow256(7) == 256 * Pow256(6);
  }

  // The low n bytes of v, least significant first.
  function LE(v: nat, n: nat): (b: Text)
    ensures |b| == n
  {
    if n == 0 then [] else [v % 256] + LE(v / 256, n - 1)
  }

  function FromLE(b: Text): (v: nat) {
    if b == [] then 0 else b[0] + 256 * FromLE(b[1..])
  }

  lemma {:induction false} FromLEOfLE(v: nat, n: nat)
    requires v < Pow256(n)
    ensures FromLE(LE(v, n)) == v
  {
    if n > 0 {
      FromLEOfLE(v / 256, n - 1);
      assert v == 256 * (v / 256) + v % 256;
      assert LE(v, n)[1..] == LE(v / 256, n - 1);
    }
  }

  lemma {:induction false} FromLEBound(b: Text)
    ensures FromLE(b) < Pow256(|b|)
  {
    if b != [] { FromLEBound(b[1..]); }
  }

  lemma {:induction false} LEOfFromLE(b: Text)
    ensures LE(FromLE(b), |b|) == b
  {
    if b != [] {
      LEOfFromLE(b[1..]);
      SameQuotient(FromLE(b), FromLE(b[1..]), b[0], 256);
      assert b == [b[0]] + b[1..];
    }
  }

  // The low n bytes of v, most significant first.
  function BE(v: nat, n: nat): (b: Text)
    ensures |b| == n
  {
    if n == 0 then [] else BE(v / 256, n - 1) + [v % 256]
  }

  function FromBE(b: Text): (v: nat) {
    if b == [] then 0 else 256 * FromBE(b[..|b| - 1]) + b[|b| - 1]
  }

  lemma {:induction false} FromBEOfBE(v: nat, n: nat)
    requires v < Pow256(n)
    ensures FromBE(BE(v, n)) == v
  {
    if n > 0 {
      FromBEOfBE(v / 256, n - 1);
      assert BE(v, n)[..n - 1] == BE(v / 256, n - 1);
    }
  }

  lemma {:induction false} FromBEBound(b: Text)
    ensures FromBE(b) < Pow256(|b|)
  {
    if b != [] { FromBEBound(b[..|b| - 1]); }
  }

  lemma {:induction false} BEOfFromBE(b: Text)
    ensures BE(FromBE(b), |b|) == b
  {
    if b != [] {
      BEOfFromBE(b[..|b| - 1]);
      SameQuotient(FromBE(b), FromBE(b[..|b| - 1]), b[|b| - 1], 256);
      assert b == b[..|b| - 1] + [b[|b| - 1]];
    }
  }

  // Least significant byte first, and last.
  lemma ByteOrder(v: nat, n: nat)
    requires n > 0
    ensures LE(v, n)[0] == v % 256 && LE(v, n)[1..] == LE(v / 256, n - 1)
    ensures BE(v, n)[n - 1] == v % 256 && BE(v, n)[..n - 1] == BE(v / 256, n - 1)
  {
  }
}
