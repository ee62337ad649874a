// Allocating commodity ids above the published ones
// (go-server/cmd/scratch/pvfshopgift/main.go).
module CommodityIds {
  import opened Bytes
  import opened Sequences
  import opened Wrappers

  predicate Increasing(ids: seq<uint32>) {
    forall i, j :: 0 <= i < j < |ids| ==> ids[i] < ids[j]
  }

  predicate FreeAbove(ids: seq<uint32>, used: set<uint32>, maximum: uint32) {
    forall i :: 0 <= i < |ids| ==> ids[i] > maximum && ids[i] !in used
  }

  // No free value between the maximum and limit was passed over.
  predicate NoneSkipped(ids: seq<uint32>, used: set<uint32>, maximum: uint32, limit: nat) {
    forall v: uint32 :: maximum < v < limit ==> v in used || v in ids
  }

  predicate AllBelow(ids: seq<uint32>, limit: nat) {
    forall i :: 0 <= i < |ids| ==> ids[i] < limit
  }

  // These are the first free ids above the maximum, all below limit.
  predicate FirstFree(ids: seq<uint32>, used: set<uint32>, maximum: uint32, limit: nat) {
    Increasing(ids) && FreeAbove(ids, used, maximum) && NoneSkipped(ids, used, maximum, limit) && AllBelow(ids, limit)
  }

  // The position a wrapped counter stands for: zero is past the last id.
  function Position(next: uint32): (p: nat) {
    if next == 0 then TWO32 else next
  }

  // The search loop: wraps to zero when every id from here on is used.
  method NextFree(used: set<uint32>, first: uint32) returns (next: uint32)
    ensures Position(first) <= Position(next)
    ensures next != 0 ==> next !in used
    ensures forall v: uint32 :: first <= v < Position(next) && first != 0 ==> v in used
  {
    next := first;
    while next != 0 && next in used
      invariant Position(first) <= Position(next)
      invariant forall v: uint32 :: first <= v < Position(next) && first != 0 ==> v in used
      decreases TWO32 - Position(next)
    {
      next := (next + 1) % TWO32;
    }
  }

  lemma OneMore(ids: seq<uint32>, used: set<uint32>, maximum: uint32, limit: nat, next: uint32)
    requires FirstFree(ids, used, maximum, limit) && maximum < limit <= next && next !in used
    requires forall v: uint32 :: limit <= v < next ==> v in used + Members(ids)
    ensures FirstFree(ids + [next], used, maximum, next + 1)
  {
    var more := ids + [next];
    forall v: uint32 | maximum < v < next + 1 ensures v in used || v in more {
      assert more[|ids|] == next;
      if limit <= v < next { assert v in used + Members(ids); }
    }
  }

  function Members(ids: seq<uint32>): (s: set<uint32>)
    ensures forall v :: v in s <==> v in ids
  {
    set v | v in ids
  }

  // Main result: the ids are the least free values above the maximum, in
  // increasing order; the space is exhausted only when fewer exist.
  method Allocate(used: set<uint32>, maximum: uint32, count: nat) returns (ids: Option<seq<uint32>>)
    requires maximum < TWO32 - 1
    ensures ids.Some? ==> |ids.value| == count && exists limit :: FirstFree(ids.value, used, maximum, limit)
    ensures ids.None? ==> exists taken :: |taken| < count && FirstFree(taken, used, maximum, TWO32)
  {
    var found: seq<uint32> := [];
    var taken := used;
    var next: uint32 := maximum + 1;
    for i := 0 to count
      invariant |found| == i && taken == used + Members(found)
      invariant maximum < Position(next) && FirstFree(found, used, maximum, Position(next))
    {
      ghost var limit := Position(next);
      var free := NextFree(taken, next);
      if free == 0 {
        ExhaustedHere(found, used, maximum, limit);
        return None;
      }
      OneMore(found, used, maximum, limit, free);
      found := found + [free];
      taken := taken + {free};
      next := (free + 1) % TWO32;
    }
    ids := Some(found);
  }

  lemma ExhaustedHere(ids: seq<uint32>, used: set<uint32>, maximum: uint32, limit: nat)
    requires FirstFree(ids, used, maximum, limit) && limit <= TWO32
    requires forall v: uint32 :: limit <= v < TWO32 ==> v in used + Members(ids)
    ensures FirstFree(ids, used, maximum, TWO32)
  {
    forall v: uint32 | maximum < v < TWO32 ensures v in used || v in ids {
      if limit <= v { assert v in used + Members(ids); }
    }
  }

  lemma {:induction false} IncreasingCovers(ids: seq<uint32>, a: nat, b: nat)
    requires a <= b <= TWO32 && Increasing(ids) && forall v: uint32 :: a <= v < b ==> v in ids
    ensures |ids| >= b - a
    decreases b
  {
    if a < b {
      var last: uint32 := b - 1;
      assert last in ids;
      var k :| 0 <= k < |ids| && ids[k] == last;
      forall v: uint32 | a <= v < b - 1 ensures v in ids[..k] {
        assert v in ids;
        var j :| 0 <= j < |ids| && ids[j] == v;
        assert j < k;
        assert ids[..k][j] == v;
      }
      IncreasingCovers(ids[..k], a, b - 1);
    }
  }

  // Script integers never reach 2^31, so that many ids are always free.
  lemma ExhaustionNeedsMany(taken: seq<uint32>, used: set<uint32>, maximum: uint32)
    requires FirstFree(taken, used, maximum, TWO32) && maximum < TWO31
    requires forall v :: v in used ==> v < TWO31
    ensures |taken| >= TWO31
  {
    IncreasingCovers(taken, TWO31, TWO32);
  }

  // The free ids between the maximum and a bound.
  function FreeBetween(used: set<uint32>, maximum: uint32, bound: nat): set<uint32> {
    set v: uint32 | maximum < v < bound && v !in used
  }

  lemma {:induction false} MembersCount(ids: seq<uint32>)
    requires Increasing(ids)
    ensures |Members(ids)| == |ids|
  {
    if ids != [] {
      var front, last := ids[..|ids| - 1], ids[|ids| - 1];
      MembersCount(front);
      assert Members(ids) == Members(front) + {last};
    }
  }

  // The first free ids stay below a bound exactly if there are enough below it.
  lemma FitIff(ids: seq<uint32>, used: set<uint32>, maximum: uint32, limit: nat, bound: nat)
    requires FirstFree(ids, used, maximum, limit)
    ensures AllBelow(ids, bound) <==> |ids| <= |FreeBetween(used, maximum, bound)|
  {
    MembersCount(ids);
    if AllBelow(ids, bound) {
      forall v | v in Members(ids) ensures v in FreeBetween(used, maximum, bound) {
        var i :| 0 <= i < |ids| && ids[i] == v;
      }
      SubsetSize(Members(ids), FreeBetween(used, maximum, bound));
    } else {
      var last := ids[|ids| - 1];
      assert last >= bound && last in Members(ids);
      SubsetSize(FreeBetween(used, maximum, bound), Members(ids) - {last});
    }
  }

  // Where ids run out there are too few below any bound.
  lemma ExhaustedIsFewer(taken: seq<uint32>, used: set<uint32>, maximum: uint32, bound: nat)
    requires FirstFree(taken, used, maximum, TWO32)
    ensures |FreeBetween(used, maximum, bound)| <= |taken|
  {
    MembersCount(taken);
    SubsetSize(FreeBetween(used, maximum, bound), Members(taken));
  }
}
