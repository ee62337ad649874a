// Facts about sequences and sets used across the project.
module Sequences {

  predicate AllFrom<T>(xs: seq<T>, p: T -> bool, i: nat)
    requires i <= |xs|
    decreases |xs| - i
  {
    i == |xs| || (p(xs[i]) && AllFrom(xs, p, i + 1))
  }

  lemma {:induction false} AllFromMeans<T>(xs: seq<T>, p: T -> bool, i: nat)
    requires i <= |xs|
    ensures AllFrom(xs, p, i) <==> forall j :: i <= j < |xs| ==> p(xs[j])
    decreases |xs| - i
  {
    if i < |xs| { AllFromMeans(xs, p, i + 1); }
  }

  function Concat<T>(parts: seq<seq<T>>): seq<T> {
    if parts == [] then [] else parts[0] + Concat(parts[1..])
  }

  lemma NonEmptyHolds<T>(xs: seq<T>)
    ensures xs != [] ==> exists x :: x in xs
  {
    if xs != [] { assert xs[0] in xs; }
  }

  lemma DropSlice<T>(xs: seq<T>, p: nat, a: nat, b: nat)
    requires p <= |xs| && a <= b <= |xs| - p
    ensures xs[p..][a..b] == xs[p + a..p + b]
  {
  }

  lemma DropDrop<T>(xs: seq<T>, p: nat, a: nat)
    requires p <= |xs| && a <= |xs| - p
    ensures xs[p..][a..] == xs[p + a..]
  {
  }

  lemma SubSlice<T>(s: seq<T>, at: nat, n: nat, i: nat, j: nat)
    requires at + n <= |s| && i <= j <= n
    ensures s[at..at + n][i..j] == s[at + i..at + j]
  {
    var a, b := s[at..at + n][i..j], s[at + i..at + j];
    forall k | 0 <= k < j - i ensures a[k] == b[k] {
    }
  }

  lemma HeadSlice<T>(a: seq<T>, b: seq<T>, i: nat, j: nat)
    requires i <= j <= |a|
    ensures (a + b)[i..j] == a[i..j]
  {
  }

  lemma TailSlice<T>(a: seq<T>, b: seq<T>, i: nat, j: nat)
    requires i <= j <= |b|
    ensures (a + b)[|a| + i..|a| + j] == b[i..j]
  {
  }

  lemma Associative<T>(a: seq<T>, b: seq<T>, c: seq<T>)
    ensures (a + b) + c == a + (b + c)
  {
  }

  lemma SubsetSize<T>(a: set<T>, b: set<T>)
    requires a <= b
    ensures |a| <= |b|
  {
    assert b == a + (b - a);
  }

  lemma AllFromTail<T>(xs: seq<T>, p: T -> bool)
    requires xs != [] && AllFrom(xs, p, 0)
    ensures p(xs[0]) && AllFrom(xs[1..], p, 0)
  {
    AllFromMeans(xs, p, 0);
    AllFromMeans(xs[1..], p, 0);
  }
}
