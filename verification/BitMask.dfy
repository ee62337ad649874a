// A word used as a set of small numbers: the bit tests and bit sets of
// `seen & (1 << n)` and `seen |= 1 << n`, on the value of the word.
module BitMask {

  predicate HasBit(mask: nat, n: nat) {
    if n == 0 then mask % 2 == 1 else HasBit(mask / 2, n - 1)
  }

  function SetBit(mask: nat, n: nat): nat {
    if n == 0 then mask / 2 * 2 + 1 else SetBit(mask / 2, n - 1) * 2 + mask % 2
  }

  function Pow2(n: nat): (p: nat)
    ensures p > 0
  {
    if n == 0 then 1 else 2 * Pow2(n - 1)
  }

  lemma {:induction false} SetBitSets(mask: nat, n: nat, m: nat)
    ensures HasBit(SetBit(mask, n), m) <==> m == n || HasBit(mask, m)
  {
    if n > 0 && m > 0 { SetBitSets(mask / 2, n - 1, m - 1); }
  }

  lemma {:induction false} SetBitFits(mask: nat, n: nat, width: nat)
    requires mask < Pow2(width) && n < width
    ensures SetBit(mask, n) < Pow2(width)
  {
    if n > 0 { SetBitFits(mask / 2, n - 1, width - 1); }
  }

  lemma {:induction false} NoBits(n: nat)
    ensures !HasBit(0, n)
  {
    if n > 0 { NoBits(n - 1); }
  }
}
