// sort.Strings, and that a set has one sorted listing.
module SortedTexts {
  import opened Sequences
  import opened Text

  // The order of Go strings.
  predicate Less(a: Text, b: Text) {
    b != [] && (a == [] || a[0] < b[0] || (a[0] == b[0] && Less(a[1..], b[1..])))
  }

  lemma {:induction false} LessTotal(a: Text, b: Text)
    ensures a == b || Less(a, b) || Less(b, a)
  {
    if a != [] && b != [] && a[0] == b[0] {
      LessTotal(a[1..], b[1..]);
      assert a == [a[0]] + a[1..] && b == [b[0]] + b[1..];
    }
  }

  lemma {:induction false} LessAsymmetric(a: Text, b: Text)
    requires Less(a, b)
    ensures !Less(b, a) && a != b
  {
    if a != [] && a[0] == b[0] { LessAsymmetric(a[1..], b[1..]); }
  }

  lemma {:induction false} LessTransitive(a: Text, b: Text, c: Text)
    requires Less(a, b) && Less(b, c)
    ensures Less(a, c)
  {
    if a != [] && a[0] == b[0] && b[0] == c[0] { LessTransitive(a[1..], b[1..], c[1..]); }
  }

  ghost predicate Sorted(keys: seq<Text>) {
    forall i, j :: 0 <= i < j < |keys| ==> Less(keys[i], keys[j])
  }

  function Insert(x: Text, keys: seq<Text>): seq<Text> {
    if keys == [] || Less(x, keys[0]) then [x] + keys else [keys[0]] + Insert(x, keys[1..])
  }

  lemma {:induction false} InsertHolds(x: Text, keys: seq<Text>, k: Text)
    ensures k in Insert(x, keys) <==> k == x || k in keys
  {
    if keys != [] && !Less(x, keys[0]) {
      InsertHolds(x, keys[1..], k);
      assert keys == [keys[0]] + keys[1..];
    }
  }

  lemma {:induction false} InsertSorts(x: Text, keys: seq<Text>)
    requires Sorted(keys) && x !in keys
    ensures Sorted(Insert(x, keys))
  {
    if keys == [] {
    } else if Less(x, keys[0]) {
      forall j | 0 <= j < |keys| ensures Less(x, keys[j]) {
        if j > 0 { LessTransitive(x, keys[0], keys[j]); }
      }
    } else {
      var rest := Insert(x, keys[1..]);
      InsertSorts(x, keys[1..]);
      LessTotal(x, keys[0]);
      assert keys[0] in keys;
      forall j | 0 <= j < |rest| ensures Less(keys[0], rest[j]) {
        InsertHolds(x, keys[1..], rest[j]);
      }
    }
  }

  // sort.Strings
  function Sort(keys: seq<Text>): seq<Text> {
    if keys == [] then [] else Insert(keys[0], Sort(keys[1..]))
  }

  ghost predicate Lists(keys: seq<Text>, s: set<Text>) {
    forall k :: k in keys <==> k in s
  }

  ghost predicate Distinct(keys: seq<Text>) {
    forall i, j :: 0 <= i < j < |keys| ==> keys[i] != keys[j]
  }

  lemma {:induction false} SortWorks(keys: seq<Text>)
    requires Distinct(keys)
    ensures Sorted(Sort(keys)) && forall k :: k in Sort(keys) <==> k in keys
  {
    if keys != [] {
      SortWorks(keys[1..]);
      assert keys[0] !in keys[1..];
      InsertSorts(keys[0], Sort(keys[1..]));
      forall k ensures k in Sort(keys) <==> k in keys {
        InsertHolds(keys[0], Sort(keys[1..]), k);
        assert keys == [keys[0]] + keys[1..];
      }
    }
  }

  // A set has one sorted listing, whatever order its elements come in.
  lemma {:induction false} SortedUnique(a: seq<Text>, b: seq<Text>)
    requires Sorted(a) && Sorted(b) && forall k :: k in a <==> k in b
    ensures a == b
  {
    if a == [] {
      NonEmptyHolds(b);
    } else {
      assert a[0] in a;
      FirstIsLeast(a, b);
      SortedTail(a);
      SortedTail(b);
      assert a == [a[0]] + a[1..] && b == [b[0]] + b[1..];
      SortedUnique(a[1..], b[1..]);
    }
  }

  lemma FirstIsLeast(a: seq<Text>, b: seq<Text>)
    requires Sorted(a) && Sorted(b) && a != [] && b != [] && forall k :: k in a <==> k in b
    ensures a[0] == b[0]
  {
    assert a[0] in b && b[0] in a;
    if a[0] != b[0] { LessAsymmetric(a[0], b[0]); }
  }

  lemma SortedTail(a: seq<Text>)
    requires Sorted(a) && a != []
    ensures Sorted(a[1..]) && forall k :: k in a[1..] <==> k in a && k != a[0]
  {
    forall k | k in a[1..] ensures k in a && k != a[0] {
      var i :| 0 <= i < |a[1..]| && a[1..][i] == k;
      LessAsymmetric(a[0], a[i + 1]);
    }
  }

  // Any listing of the keys of a set, sorted.
  ghost function Listing(s: set<Text>): (keys: seq<Text>)
    ensures Lists(keys, s) && Distinct(keys)
  {
    if s == {} then []
    else
      var k :| k in s;
      [k] + Listing(s - {k})
  }

  ghost function SortedKeys(s: set<Text>): (keys: seq<Text>)
    ensures Sorted(keys) && Lists(keys, s)
  {
    SortWorks(Listing(s));
    Sort(Listing(s))
  }

  // At some place the texts differ for the first time, and a is over or has the
  // lesser byte there.
  predicate FirstLess(a: Text, b: Text, i: nat) {
    && i <= |a| && i < |b| && a[..i] == b[..i] && (i == |a| || a[i] < b[i])
  }

  lemma SameStart(a: Text, b: Text, i: nat)
    requires FirstLess(a, b, i)
    ensures i > 0 ==> a[0] == b[0]
  {
    if i > 0 { assert a[..i][0] == a[0] && b[..i][0] == b[0]; }
  }

  // Main result: the order is the lexicographic one of bytes.
  lemma {:induction false} LessIff(a: Text, b: Text)
    ensures Less(a, b) <==> exists i :: FirstLess(a, b, i)
    decreases |a|
  {
    if b != [] && a != [] && a[0] == b[0] {
      LessIff(a[1..], b[1..]);
      if i: nat :| FirstLess(a[1..], b[1..], i) {
        assert a == [a[0]] + a[1..] && b == [b[0]] + b[1..];
        assert FirstLess(a, b, i + 1);
      }
      if i: nat :| FirstLess(a, b, i) {
        assert i > 0 && a[1..][..i - 1] == a[..i][1..] && b[1..][..i - 1] == b[..i][1..];
        assert FirstLess(a[1..], b[1..], i - 1);
      }
    } else if b != [] {
      if Less(a, b) { assert FirstLess(a, b, 0); }
      if i: nat :| FirstLess(a, b, i) { SameStart(a, b, i); }
    }
  }
}
