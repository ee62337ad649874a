// Frame metadata and its normalisation (protocol/frame.go).  How one key and
// value are normalised is a parameter; Ascii is the instance for ASCII text.
module Metadata {
  import opened Text
  import opened Wrappers

  type Meta = map<Text, Text>

  type Pair = (Text, Text)

  // A key and a value normalised; None if either is blank.
  type Norm = (Text, Text) -> Option<Pair>

  // Normalising again changes nothing, and what is left is not empty.
  ghost predicate Idempotent(norm: Norm) {
    forall k, v :: norm(k, v).Some? ==>
      var p := norm(k, v).value; p.0 != [] && p.1 != [] && norm(p.0, p.1) == Some(p)
  }

  // ---- ASCII ----

  // strings.ToLower(strings.TrimSpace(key)) and strings.TrimSpace(value)
  function Ascii(k: Text, v: Text): Option<Pair> {
    if Lower(Trim(k)) == [] || Trim(v) == [] then None else Some((Lower(Trim(k)), Trim(v)))
  }

  lemma LowerTrimIdempotent(t: Text)
    requires Trimmed(t)
    ensures Trim(Lower(t)) == Lower(t) && Lower(Lower(t)) == Lower(t)
  {
    LowerKeepsTrimmed(t);
    LowerIdempotent(t);
    TrimTrimmed(Lower(t));
  }

  lemma AsciiAgain(k: Text, v: Text)
    requires Trimmed(k) && Trimmed(v) && Lower(k) != [] && v != []
    ensures Ascii(Lower(k), v) == Some((Lower(k), v))
  {
    LowerTrimIdempotent(k);
    TrimTrimmed(v);
  }

  lemma AsciiIdempotent()
    ensures Idempotent(Ascii)
  {
    forall k, v | Ascii(k, v).Some?
      ensures var p := Ascii(k, v).value; p.0 != [] && p.1 != [] && Ascii(p.0, p.1) == Some(p)
    {
      AsciiAgain(Trim(k), Trim(v));
    }
  }

  // ---- Cloning ----

  ghost predicate Normalised(m: Meta, norm: Norm) {
    forall k :: k in m ==> k != [] && m[k] != [] && norm(k, m[k]) == Some((k, m[k]))
  }

  // The normalised entries.
  function Pairs(m: Meta, norm: Norm): set<Pair> {
    set k | k in m && norm(k, m[k]).Some? :: norm(k, m[k]).value
  }

  // What storing the pairs in a map one after the other can produce: each key
  // ends up with one of its values.
  ghost predicate Stores(pairs: set<Pair>, out: Meta) {
    && (forall k :: k in out ==> (k, out[k]) in pairs)
    && (forall p :: p in pairs ==> p.0 in out)
  }

  // What CloneFrameMetadata can return; the order in which it ranges over the
  // map is arbitrary.
  ghost predicate Clones(m: Meta, out: Meta, norm: Norm) {
    Stores(Pairs(m, norm), out)
  }

  method CloneFrameMetadata(m: Meta, norm: Norm) returns (out: Meta)
    ensures Clones(m, out, norm)
  {
    out := map[];
    var left := m.Keys;
    ghost var done: Meta := map[];
    while left != {}
      invariant left <= m.Keys && done == m - left
      invariant Clones(done, out, norm)
      decreases |left|
    {
      var k :| k in left;
      left := left - {k};
      PairsGrow(done, k, m[k], norm);
      done := done[k := m[k]];
      assert done == m - left;
      match norm(k, m[k])
      case None => continue;
      case Some((key, value)) => out := out[key := value];
    }
    assert done == m;
  }

  lemma PairsGrow(m: Meta, k: Text, v: Text, norm: Norm)
    requires k !in m
    ensures Pairs(m[k := v], norm) == match norm(k, v) case None => Pairs(m, norm) case Some(p) => Pairs(m, norm) + {p}
  {
    var next := m[k := v];
    forall p | p in Pairs(m, norm) ensures p in Pairs(next, norm) {
      var j :| j in m && norm(j, m[j]) == Some(p);
      assert j in next && next[j] == m[j];
    }
    if norm(k, v).Some? {
      assert k in next && norm(k, next[k]).value in Pairs(next, norm);
    }
  }

  lemma ClonesAreNormalised(m: Meta, out: Meta, norm: Norm)
    requires Idempotent(norm) && Clones(m, out, norm)
    ensures Normalised(out, norm)
  {
    forall k | k in out ensures k != [] && out[k] != [] && norm(k, out[k]) == Some((k, out[k])) {
      assert (k, out[k]) in Pairs(m, norm);
      var j :| j in m && norm(j, m[j]) == Some((k, out[k]));
    }
  }

  // A normalised map is cloned to itself.
  lemma NormalisedClonesToItself(m: Meta, out: Meta, norm: Norm)
    requires Normalised(m, norm)
    ensures Clones(m, out, norm) <==> out == m
  {
    forall p: Pair ensures p in Pairs(m, norm) <==> p.0 in m && m[p.0] == p.1 {
      if p.0 in m && m[p.0] == p.1 { assert norm(p.0, m[p.0]) == Some(p); }
    }
    StoresOf(Pairs(m, norm), m, out);
  }

  lemma StoresOf(pairs: set<Pair>, m: Meta, out: Meta)
    requires forall p: Pair :: p in pairs <==> p.0 in m && m[p.0] == p.1
    ensures Stores(pairs, out) <==> out == m
  {
    if Stores(pairs, out) {
      forall k | k in m ensures k in out { assert (k, m[k]) in pairs; }
      assert out.Keys == m.Keys;
    }
  }

  // No two entries share a normalised key but not the value.
  ghost predicate Unambiguous(m: Meta, norm: Norm) {
    Functional(Pairs(m, norm))
  }

  ghost predicate Functional(pairs: set<Pair>) {
    forall p, q :: p in pairs && q in pairs && p.0 == q.0 ==> p == q
  }

  // The result does not depend on the order exactly then.
  lemma CloneDetermined(m: Meta, norm: Norm, a: Meta, b: Meta)
    requires Unambiguous(m, norm) && Clones(m, a, norm) && Clones(m, b, norm)
    ensures a == b
  {
    StoresSame(Pairs(m, norm), a, b);
  }

  lemma CloneUndetermined(m: Meta, norm: Norm) returns (a: Meta, b: Meta)
    requires !Unambiguous(m, norm)
    ensures Clones(m, a, norm) && Clones(m, b, norm) && a != b
  {
    a, b := StoresDiffer(Pairs(m, norm));
  }

  lemma AmbiguousEntries(m: Meta, norm: Norm, k: Text, l: Text, p: Pair, q: Pair)
    requires k in m && l in m && norm(k, m[k]) == Some(p) && norm(l, m[l]) == Some(q) && p.0 == q.0 && p.1 != q.1
    ensures !Unambiguous(m, norm)
  {
    assert p in Pairs(m, norm) && q in Pairs(m, norm);
  }

  lemma AsciiTrimmed(k: Text, v: Text)
    requires Trimmed(k) && Trimmed(v) && Lower(k) != [] && v != []
    ensures Ascii(k, v) == Some((Lower(k), v))
  {
    TrimTrimmed(k);
    TrimTrimmed(v);
  }

  predicate OneByte(t: Text) {
    |t| == 1 && !IsSpace(t[0])
  }

  lemma AsciiByte(k: Text, v: Text)
    requires OneByte(k) && OneByte(v)
    ensures Ascii(k, v) == Some((Lower(k), v))
  {
    assert Trimmed(k) && Trimmed(v) && |Lower(k)| == 1;
    AsciiTrimmed(k, v);
  }

  // Two one-byte keys that differ in case only, with different values.
  lemma AmbiguousBytes(k: Text, l: Text, v: Text, w: Text)
    requires OneByte(k) && OneByte(l) && OneByte(v) && OneByte(w) && k != l && v != w && Lower(k) == Lower(l)
    ensures !Unambiguous(map[k := v, l := w], Ascii)
  {
    AsciiByte(k, v);
    AsciiByte(l, w);
    AmbiguousEntries(map[k := v, l := w], Ascii, k, l, (Lower(k), v), (Lower(l), w));
  }

  lemma LowerByteText(b: byte)
    ensures Lower([b]) == [LowerByte(b)]
  {
  }

  // Keys "A" and "a" with the values "x" and "y".
  lemma AmbiguousAscii() returns (upper: Text, lower: Text, x: Text, y: Text)
    ensures upper == [65] && lower == [97] && x == [120] && y == [121]
    ensures !Unambiguous(map[upper := x, lower := y], Ascii)
  {
    upper, lower, x, y := [65], [97], [120], [121];
    assert upper[0] != lower[0] && x[0] != y[0];
    LowerByteText(65);
    LowerByteText(97);
    AmbiguousBytes(upper, lower, x, y);
  }

  lemma StoresSame(pairs: set<Pair>, a: Meta, b: Meta)
    requires Functional(pairs) && Stores(pairs, a) && Stores(pairs, b)
    ensures a == b
  {
    forall k | k in a ensures k in b && a[k] == b[k] {
      assert (k, a[k]) in pairs && (k, a[k]).0 in b;
      assert (k, b[k]) in pairs;
    }
    forall k | k in b ensures k in a {
      assert (k, b[k]) in pairs && (k, b[k]).0 in a;
    }
    assert a.Keys == b.Keys;
  }

  lemma StoresDiffer(pairs: set<Pair>) returns (a: Meta, b: Meta)
    requires !Functional(pairs)
    ensures Stores(pairs, a) && Stores(pairs, b) && a != b
  {
    var p, q :| p in pairs && q in pairs && p.0 == q.0 && p != q;
    var out := StoreAll(pairs);
    a, b := out[p.0 := p.1], out[q.0 := q.1];
    assert a[p.0] != b[p.0];
  }

  ghost function StoreAll(pairs: set<Pair>): (out: Meta)
    ensures Stores(pairs, out)
  {
    if pairs == {} then map[]
    else
      var p :| p in pairs;
      StoreAll(pairs - {p})[p.0 := p.1]
  }

  // A result of CloneFrameMetadata: the only one for an unambiguous map.
  ghost function Normal(m: Meta, norm: Norm): (out: Meta)
    ensures Clones(m, out, norm)
  {
    StoreAll(Pairs(m, norm))
  }

  // White space around keys and values is dropped, keys are folded; an entry of
  // which nothing is left is.
  lemma AsciiOf(a: Text, k: Text, b: Text, c: Text, v: Text, d: Text)
    requires Spaces(a) && Spaces(b) && Spaces(c) && Spaces(d) && Trimmed(k) && Trimmed(v)
    ensures Ascii(a + k + b, c + v + d) == if k == [] || v == [] then None else Some((Lower(k), v))
  {
    TrimOf(a, k, b);
    TrimOf(c, v, d);
    AsciiCases(a + k + b, c + v + d, k, v);
  }

  lemma AsciiCases(raw: Text, value: Text, k: Text, v: Text)
    requires Trim(raw) == k && Trim(value) == v
    ensures Ascii(raw, value) == if k == [] || v == [] then None else Some((Lower(k), v))
  {
    assert |Lower(k)| == |k|;
  }
}
