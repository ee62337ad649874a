// Facts about multiplication, quotients and remainders.
module Arithmetic {

  lemma MultipleBound(w: int, q: int)
    requires w > 0
    ensures q >= 1 ==> w * q >= w
    ensures q <= -1 ==> w * q <= 0 - w
  {
  }

  lemma SameResidue(a: int, b: int, w: nat)
    requires w > 0 && a % w == b % w && b <= a < b + w
    ensures a == b
  {
    var q := a / w - b / w;
    assert a - b == w * q;
    MultipleBound(w, q);
  }

  lemma ShiftedResidue(a: int, w: nat)
    requires w > 0
    ensures (a + w) % w == a % w
  {
    assert a + w == w * (a / w + 1) + a % w;
    SameQuotient(a + w, a / w + 1, a % w, w);
  }

  lemma SameQuotient(x: int, q: int, r: int, w: nat)
    requires w > 0 && x == w * q + r && 0 <= r < w
    ensures x % w == r && x / w == q
  {
    var d := x / w - q;
    assert w * d == r - x % w;
    MultipleBound(w, d);
  }

  lemma SumResidue(a: nat, b: nat, w: nat)
    requires w > 0
    ensures (a % w + b) % w == (a + b) % w
  {
    var q, r := (a % w + b) / w, (a % w + b) % w;
    assert a + b == w * (a / w + q) + r;
    SameQuotient(a + b, a / w + q, r, w);
  }

  lemma MulMonotone(a: nat, b: nat, w: nat)
    requires a <= b
    ensures a * w <= b * w
  {
  }

  lemma ExactQuotient(count: nat, width: nat)
    requires width > 0
    ensures count * width / width == count && count * width % width == 0
  {
    SameQuotient(count * width, count, 0, width);
  }
}
