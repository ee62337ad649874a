// encodeFrameMeta and decodeFrameMeta (protocol/frame.go).
module MetadataCodec {
  import opened Metadata
  import opened Sequences
  import opened SortedTexts
  import opened Text
  import opened Wrappers

  const HEADER_SIZE := 32
  const MAX_HEADER_SIZE := 255
  const META_VERSION := 1

  // ---- Encoding ----

  // byte(len(key)), byte(len(value)), key, value
  function EntryBytes(k: Text, v: Text): (b: Text)
    ensures |b| == 2 + |k| + |v|
  {
    [|k| % 256, |v| % 256] + k + v
  }

  function Entries(keys: seq<Text>, m: Meta): Text
    requires forall k :: k in keys ==> k in m
  {
    if keys == [] then [] else EntryBytes(keys[0], m[keys[0]]) + Entries(keys[1..], m)
  }

  // "MD", the version and the number of entries.
  function MetaHeader(count: nat): (b: Text)
    ensures |b| == 4
  {
    [77, 68, META_VERSION, count % 256]
  }

  // The bytes that follow the fixed header for a normalised map: none for an
  // empty one, None if they do not fit into its one-byte size.
  ghost function EncodeMeta(m: Meta): (r: Option<Text>)
    ensures r.Some? ==> HEADER_SIZE + |r.value| <= MAX_HEADER_SIZE
  {
    if m == map[] then Some([])
    else
      var keys := SortedKeys(m.Keys);
      var out := MetaHeader(|keys|) + Entries(keys, m);
      if HEADER_SIZE + |out| <= MAX_HEADER_SIZE then Some(out) else None
  }

  lemma {:induction false} EntriesSplit(keys: seq<Text>, m: Meta, i: nat)
    requires i <= |keys| && forall k :: k in keys ==> k in m
    ensures Entries(keys, m) == Entries(keys[..i], m) + Entries(keys[i..], m)
  {
    if i > 0 {
      EntriesSplit(keys[1..], m, i - 1);
      assert keys[..i][0] == keys[0] && keys[..i][1..] == keys[1..][..i - 1];
      assert keys[1..][i - 1..] == keys[i..];
      Associative(EntryBytes(keys[0], m[keys[0]]), Entries(keys[1..][..i - 1], m), Entries(keys[i..], m));
    } else {
      assert keys[..0] == [] && keys[0..] == keys;
    }
  }

  lemma EntriesNext(keys: seq<Text>, m: Meta, i: nat)
    requires i < |keys| && forall k :: k in keys ==> k in m
    ensures Entries(keys[..i + 1], m) == Entries(keys[..i], m) + EntryBytes(keys[i], m[keys[i]])
    ensures |Entries(keys, m)| >= |Entries(keys[..i + 1], m)|
  {
    EntriesSplit(keys[..i + 1], m, i);
    assert keys[..i + 1][..i] == keys[..i] && keys[..i + 1][i..] == [keys[i]];
    EntriesSplit(keys, m, i + 1);
  }

  // Every entry takes at least four bytes.
  lemma {:induction false} EntriesLength(keys: seq<Text>, m: Meta)
    requires forall k :: k in keys ==> k in m && k != [] && m[k] != []
    ensures |Entries(keys, m)| >= 4 * |keys|
  {
    if keys != [] {
      assert forall k :: k in keys[1..] ==> k in keys;
      EntriesLength(keys[1..], m);
    }
  }

  method Keys(m: Meta) returns (keys: seq<Text>)
    ensures Lists(keys, m.Keys) && Distinct(keys)
  {
    keys := [];
    var left := m.Keys;
    while left != {}
      invariant left <= m.Keys && Lists(keys, m.Keys - left) && Distinct(keys)
      decreases |left|
    {
      var k :| k in left;
      left := left - {k};
      keys := keys + [k];
    }
  }

  lemma {:induction false} SortLength(keys: seq<Text>)
    ensures |Sort(keys)| == |keys|
  {
    if keys != [] {
      SortLength(keys[1..]);
      InsertLength(keys[0], Sort(keys[1..]));
    }
  }

  lemma {:induction false} InsertLength(x: Text, keys: seq<Text>)
    ensures |Insert(x, keys)| == |keys| + 1
  {
    if keys != [] && !Less(x, keys[0]) { InsertLength(x, keys[1..]); }
  }

  lemma {:induction false} DistinctCount(keys: seq<Text>, s: set<Text>)
    requires Lists(keys, s) && Distinct(keys)
    ensures |keys| == |s|
    decreases |keys|
  {
    if keys == [] {
      NoElements(s);
    } else {
      assert keys[0] in keys;
      forall k ensures k in keys[1..] <==> k in s - {keys[0]} {
        assert keys == [keys[0]] + keys[1..];
      }
      DistinctCount(keys[1..], s - {keys[0]});
    }
  }

  lemma NoElements(s: set<Text>)
    requires forall k :: k !in s
    ensures s == {}
  {
  }

  lemma KeyCount(keys: seq<Text>, listed: seq<Text>, m: Meta)
    requires Lists(listed, m.Keys) && Distinct(listed) && keys == Sort(listed)
    ensures |keys| == |m|
  {
    SortLength(listed);
    DistinctCount(listed, m.Keys);
    assert |m| == |m.Keys|;
  }

  method KeysSorted(m: Meta) returns (keys: seq<Text>)
    ensures keys == SortedKeys(m.Keys) && |keys| == |m|
  {
    var listed := Keys(m);
    keys := Sort(listed);
    SortWorks(listed);
    KeyCount(keys, listed, m);
    SortedUnique(keys, SortedKeys(m.Keys));
  }

  // The loop over the sorted keys, with its size checks.
  method AppendEntries(keys: seq<Text>, m: Meta) returns (r: Option<Text>)
    requires forall k :: k in keys ==> k in m
    ensures var all := MetaHeader(|keys|) + Entries(keys, m);
            r == if HEADER_SIZE + |all| <= MAX_HEADER_SIZE then Some(all) else None
  {
    var out := MetaHeader(|keys|);
    for i := 0 to |keys|
      invariant out == MetaHeader(|keys|) + Entries(keys[..i], m)
      invariant HEADER_SIZE + |out| <= MAX_HEADER_SIZE
    {
      var key := keys[i];
      var value := m[key];
      EntriesNext(keys, m, i);
      if |key| > 255 || |value| > 255 { return None; }
      out := out + EntryBytes(key, value);
      if HEADER_SIZE + |out| > MAX_HEADER_SIZE { return None; }
    }
    assert keys[..|keys|] == keys;
    r := Some(out);
  }

  // No empty key and no empty value.
  ghost predicate Filled(m: Meta) {
    forall k :: k in m ==> k != [] && m[k] != []
  }

  // encodeFrameMeta on the normalised map.
  method EncodeNormalised(m: Meta) returns (r: Option<Text>)
    requires Filled(m)
    ensures r == EncodeMeta(m)
  {
    if m == map[] { return Some([]); }
    var keys := KeysSorted(m);
    EntriesLength(keys, m);
    if |m| > 255 { return None; }
    r := AppendEntries(keys, m);
  }

  method EncodeFrameMeta(m: Meta, norm: Norm) returns (r: Option<Text>, ghost n: Meta)
    requires Idempotent(norm)
    ensures Clones(m, n, norm) && r == EncodeMeta(n)
  {
    var normalised := CloneFrameMetadata(m, norm);
    ClonesAreNormalised(m, normalised, norm);
    n := normalised;
    r := EncodeNormalised(normalised);
  }

  // ---- Decoding ----

  // The raw key and value of the entry at an offset, and where it ends.
  datatype RawEntry = RawEntry(key: Text, value: Text, next: nat)

  function RawAt(extra: Text, pos: nat): (r: Option<RawEntry>)
    ensures r.Some? ==> pos < r.value.next <= |extra|
  {
    if pos + 2 > |extra| then None
    else
      var k: int, v: int := extra[pos], extra[pos + 1];
      if k == 0 || v == 0 || pos + 2 + k + v > |extra| then None
      else Some(RawEntry(extra[pos + 2..pos + 2 + k], extra[pos + 2 + k..pos + 2 + k + v], pos + 2 + k + v))
  }

  // The entries of decodeFrameMeta; each key and value is normalised again.
  function DecodeEntries(b: Text, count: nat, acc: Meta, norm: Norm): Option<Meta> {
    if count == 0 then
      if b == [] then Some(acc) else None
    else match RawAt(b, 0)
      case None => None
      case Some(e) =>
        match norm(e.key, e.value)
        case None => None
        case Some((key, value)) => DecodeEntries(b[e.next..], count - 1, acc[key := value], norm)
  }

  function DecodeMeta(extra: Text, norm: Norm): Option<Meta> {
    if extra == [] then Some(map[])
    else if |extra| < 4 || extra[0] != 77 || extra[1] != 68 || extra[2] != META_VERSION then None
    else DecodeEntries(extra[4..], extra[3], map[], norm)
  }

  // The same at an offset into the whole, as the loop goes.
  function DecodeAt(extra: Text, pos: nat, count: nat, acc: Meta, norm: Norm): Option<Meta>
    requires pos <= |extra|
    decreases count
  {
    if count == 0 then
      if pos == |extra| then Some(acc) else None
    else match RawAt(extra, pos)
      case None => None
      case Some(e) =>
        match norm(e.key, e.value)
        case None => None
        case Some((key, value)) => DecodeAt(extra, e.next, count - 1, acc[key := value], norm)
  }

  ghost predicate Shifted(r: Option<RawEntry>, at: Option<RawEntry>, pos: nat) {
    if at.None? then r.None? else at.value.next > pos && r == Some(at.value.(next := at.value.next - pos))
  }

  lemma RawAtShifts(extra: Text, pos: nat)
    requires pos <= |extra|
    ensures Shifted(RawAt(extra[pos..], 0), RawAt(extra, pos), pos)
  {
    if pos + 2 <= |extra| {
      var k: int, v: int := extra[pos], extra[pos + 1];
      if pos + 2 + k + v <= |extra| {
        DropSlice(extra, pos, 2, 2 + k);
        DropSlice(extra, pos, 2 + k, 2 + k + v);
      }
    }
  }

  // One step of each form, given the same entry.
  lemma DecodeAtStep(extra: Text, pos: nat, count: nat, acc: Meta, norm: Norm, e: RawEntry)
    requires pos <= |extra| && count > 0 && RawAt(extra, pos) == Some(e) && norm(e.key, e.value).Some?
    ensures var p := norm(e.key, e.value).value;
            DecodeAt(extra, pos, count, acc, norm) == DecodeAt(extra, e.next, count - 1, acc[p.0 := p.1], norm)
  {
  }

  lemma DecodeEntriesStep(b: Text, count: nat, acc: Meta, norm: Norm, e: RawEntry)
    requires count > 0 && RawAt(b, 0) == Some(e) && norm(e.key, e.value).Some?
    ensures var p := norm(e.key, e.value).value;
            DecodeEntries(b, count, acc, norm) == DecodeEntries(b[e.next..], count - 1, acc[p.0 := p.1], norm)
  {
  }

  lemma DecodeEntriesShifted(extra: Text, pos: nat, count: nat, acc: Meta, norm: Norm, e: RawEntry)
    requires pos <= |extra| && count > 0 && RawAt(extra, pos) == Some(e) && norm(e.key, e.value).Some?
    ensures pos < e.next <= |extra|
    ensures var p := norm(e.key, e.value).value;
            DecodeEntries(extra[pos..], count, acc, norm) ==
              DecodeEntries(extra[e.next..], count - 1, acc[p.0 := p.1], norm)
  {
    RawAtShifts(extra, pos);
    var first := RawEntry(e.key, e.value, e.next - pos);
    DecodeEntriesStep(extra[pos..], count, acc, norm, first);
    DropDrop(extra, pos, first.next);
  }

  lemma {:induction false} DecodeAtIs(extra: Text, pos: nat, count: nat, acc: Meta, norm: Norm)
    requires pos <= |extra|
    ensures DecodeAt(extra, pos, count, acc, norm) == DecodeEntries(extra[pos..], count, acc, norm)
    decreases count
  {
    RawAtShifts(extra, pos);
    var r := RawAt(extra, pos);
    if count > 0 && r.Some? {
      var p := norm(r.value.key, r.value.value);
      if p.Some? {
        DecodeAtStep(extra, pos, count, acc, norm, r.value);
        DecodeEntriesShifted(extra, pos, count, acc, norm, r.value);
        DecodeAtIs(extra, r.value.next, count - 1, acc[p.value.0 := p.value.1], norm);
      }
    }
  }

  method DecodeFrameMeta(extra: Text, norm: Norm) returns (r: Option<Meta>)
    ensures r == DecodeMeta(extra, norm)
  {
    if extra == [] { return Some(map[]); }
    if |extra| < 4 || extra[0] != 77 || extra[1] != 68 { return None; }
    if extra[2] != META_VERSION { return None; }
    r := DecodeLoop(extra, norm);
    DecodeAtIs(extra, 4, extra[3], map[], norm);
  }

  method ReadRaw(extra: Text, start: nat) returns (r: Option<RawEntry>)
    ensures r == RawAt(extra, start)
  {
    var pos := start;
    if pos + 2 > |extra| { return None; }
    var keyLen: int, valueLen: int := extra[pos], extra[pos + 1];
    pos := pos + 2;
    if keyLen == 0 || valueLen == 0 || pos + keyLen + valueLen > |extra| { return None; }
    var key := extra[pos..pos + keyLen];
    pos := pos + keyLen;
    var value := extra[pos..pos + valueLen];
    pos := pos + valueLen;
    r := Some(RawEntry(key, value, pos));
  }

  method DecodeLoop(extra: Text, norm: Norm) returns (r: Option<Meta>)
    requires |extra| >= 4
    ensures r == DecodeAt(extra, 4, extra[3], map[], norm)
  {
    var count: int, pos: int := extra[3], 4;
    var out: Meta := map[];
    for idx := 0 to count
      invariant 4 <= pos <= |extra|
      invariant DecodeAt(extra, 4, count, map[], norm) == DecodeAt(extra, pos, count - idx, out, norm)
    {
      var e := ReadRaw(extra, pos);
      if e.None? { return None; }
      pos := e.value.next;
      match norm(e.value.key, e.value.value)
      case None => return None;
      case Some((k, v)) => out := out[k := v];
    }
    if pos != |extra| { return None; }
    r := Some(out);
  }

  // ---- Round trip ----

  ghost predicate NormalBy(keys: seq<Text>, m: Meta, norm: Norm) {
    forall k :: k in keys ==> k in m && norm(k, m[k]) == Some((k, m[k]))
  }

  ghost predicate Encodable(keys: seq<Text>, m: Meta) {
    forall k :: k in keys ==> k in m && 0 < |k| <= 255 && 0 < |m[k]| <= 255
  }

  ghost function Part(keys: seq<Text>, m: Meta): Meta
    requires forall k :: k in keys ==> k in m
  {
    map k | k in keys :: m[k]
  }

  lemma DecodesEntry(k: Text, v: Text, rest: Text, count: nat, acc: Meta, norm: Norm)
    requires norm(k, v) == Some((k, v)) && 0 < |k| <= 255 && 0 < |v| <= 255
    ensures DecodeEntries(EntryBytes(k, v) + rest, count + 1, acc, norm) ==
              DecodeEntries(rest, count, acc[k := v], norm)
  {
    var b := EntryBytes(k, v) + rest;
    assert b[0] == |k| && b[1] == |v|;
    assert b[2..2 + |k|] == k && b[2 + |k|..2 + |k| + |v|] == v && b[2 + |k| + |v|..] == rest;
  }

  lemma {:induction false} DecodesEntries(keys: seq<Text>, m: Meta, acc: Meta, norm: Norm)
    requires Encodable(keys, m) && NormalBy(keys, m, norm)
    ensures DecodeEntries(Entries(keys, m), |keys|, acc, norm) == Some(acc + Part(keys, m))
    decreases |keys|
  {
    if keys == [] {
      assert acc + Part(keys, m) == acc;
    } else {
      var k := keys[0];
      assert forall j :: j in keys[1..] ==> j in keys;
      DecodesEntry(k, m[k], Entries(keys[1..], m), |keys| - 1, acc, norm);
      DecodesEntries(keys[1..], m, acc[k := m[k]], norm);
      PartSplits(keys, m, acc);
    }
  }

  lemma PartSplits(keys: seq<Text>, m: Meta, acc: Meta)
    requires keys != [] && forall k :: k in keys ==> k in m
    ensures forall k :: k in keys[1..] ==> k in m
    ensures acc[keys[0] := m[keys[0]]] + Part(keys[1..], m) == acc + Part(keys, m)
  {
    assert keys == [keys[0]] + keys[1..];
  }

  lemma {:induction false} EntryFits(keys: seq<Text>, m: Meta, k: Text)
    requires k in keys && forall j :: j in keys ==> j in m
    ensures |k| + |m[k]| <= |Entries(keys, m)|
    decreases |keys|
  {
    if k != keys[0] {
      assert forall j :: j in keys[1..] ==> j in keys;
      assert keys == [keys[0]] + keys[1..];
      EntryFits(keys[1..], m, k);
    }
  }

  lemma AllEncodable(keys: seq<Text>, m: Meta)
    requires forall k :: k in keys ==> k in m && k != [] && m[k] != []
    requires |Entries(keys, m)| <= 255
    ensures Encodable(keys, m) && |keys| <= 63
  {
    forall k | k in keys ensures |k| <= 255 && |m[k]| <= 255 {
      EntryFits(keys, m, k);
    }
    EntriesLength(keys, m);
  }

  lemma PartAll(keys: seq<Text>, m: Meta)
    requires Lists(keys, m.Keys)
    ensures map[] + Part(keys, m) == m
  {
  }

  lemma DecodesHeader(count: byte, entries: Text, norm: Norm)
    ensures DecodeMeta(MetaHeader(count) + entries, norm) == DecodeEntries(entries, count, map[], norm)
  {
    var b := MetaHeader(count) + entries;
    assert b[0] == 77 && b[1] == 68 && b[2] == META_VERSION && b[3] == count;
    assert b[4..] == entries;
  }

  lemma DecodesAll(keys: seq<Text>, m: Meta, norm: Norm)
    requires Encodable(keys, m) && NormalBy(keys, m, norm) && Lists(keys, m.Keys) && |keys| <= 255
    ensures DecodeMeta(MetaHeader(|keys|) + Entries(keys, m), norm) == Some(m)
  {
    DecodesHeader(|keys|, Entries(keys, m), norm);
    DecodesEntries(keys, m, map[], norm);
    PartAll(keys, m);
  }

  // What is encoded decodes to the same map.
  lemma MetaRoundTrip(m: Meta, norm: Norm)
    requires Normalised(m, norm) && EncodeMeta(m).Some?
    ensures DecodeMeta(EncodeMeta(m).value, norm) == Some(m)
  {
    if m != map[] {
      var keys := SortedKeys(m.Keys);
      AllEncodable(keys, m);
      DecodesAll(keys, m, norm);
    }
  }

  // Different normalised maps have different encodings.
  lemma EncodeMetaInjective(m: Meta, n: Meta, norm: Norm)
    requires Normalised(m, norm) && Normalised(n, norm) && EncodeMeta(m).Some? && EncodeMeta(m) == EncodeMeta(n)
    ensures m == n
  {
    MetaRoundTrip(m, norm);
    MetaRoundTrip(n, norm);
  }

  lemma {:induction false} DecodedEntriesAll(b: Text, count: nat, acc: Meta, norm: Norm, good: (Text, Text) -> bool)
    requires forall k, v :: norm(k, v).Some? ==> good(norm(k, v).value.0, norm(k, v).value.1)
    requires forall k :: k in acc ==> good(k, acc[k])
    ensures var r := DecodeEntries(b, count, acc, norm); r.Some? ==> forall k :: k in r.value ==> good(k, r.value[k])
    decreases count
  {
    if count > 0 && RawAt(b, 0).Some? {
      var e := RawAt(b, 0).value;
      var p := norm(e.key, e.value);
      if p.Some? { DecodedEntriesAll(b[e.next..], count - 1, acc[p.value.0 := p.value.1], norm, good); }
    }
  }

  // Whatever is decoded is normalised.
  lemma DecodedIsNormalised(extra: Text, norm: Norm)
    requires Idempotent(norm) && DecodeMeta(extra, norm).Some?
    ensures Normalised(DecodeMeta(extra, norm).value, norm)
  {
    if extra != [] {
      var good := (k: Text, v: Text) => k != [] && v != [] && norm(k, v) == Some((k, v));
      DecodedEntriesAll(extra[4..], extra[3], map[], norm, good);
    }
  }

  lemma {:induction false} EntriesSum(keys: seq<Text>, m: Meta)
    requires forall k :: k in keys ==> k in m
    ensures |Entries(keys, m)| == Sum(keys, m)
  {
    if keys != [] {
      assert forall k :: k in keys[1..] ==> k in keys;
      EntriesSum(keys[1..], m);
    }
  }

  // 2 + len(key) + len(value) over the given entries.
  function Sum(keys: seq<Text>, m: Meta): nat
    requires forall k :: k in keys ==> k in m
  {
    if keys == [] then 0
    else
      assert forall k :: k in keys[1..] ==> k in keys;
      2 + |keys[0]| + |m[keys[0]]| + Sum(keys[1..], m)
  }

  // Encoding succeeds exactly when the entries fit; the limits on the number of
  // entries and on the lengths of keys and values never decide.
  lemma EncodesIff(m: Meta)
    requires Filled(m) && m != map[]
    ensures EncodeMeta(m).Some? <==> 36 + Sum(SortedKeys(m.Keys), m) <= 255
    ensures EncodeMeta(m).Some? ==> |m| <= 54 && forall k :: k in m ==> |k| <= 255 && |m[k]| <= 255
  {
    var keys := SortedKeys(m.Keys);
    EntriesSum(keys, m);
    EntriesLength(keys, m);
    SortedDistinct(keys);
    DistinctCount(keys, m.Keys);
    assert |m| == |m.Keys|;
    if EncodeMeta(m).Some? {
      forall k | k in m ensures |k| <= 255 && |m[k]| <= 255 {
        EntryFits(keys, m, k);
      }
    }
  }

  lemma SortedDistinct(keys: seq<Text>)
    requires Sorted(keys)
    ensures Distinct(keys)
  {
    forall i, j | 0 <= i < j < |keys| ensures keys[i] != keys[j] {
      LessAsymmetric(keys[i], keys[j]);
    }
  }
}
