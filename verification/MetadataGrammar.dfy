// Which bytes decodeFrameMeta accepts, and as what (protocol/frame.go).
module MetadataGrammar {
  import opened Metadata
  import opened MetadataCodec
  import opened Sequences
  import opened Text
  import opened Wrappers

  // The entries as they stand in the bytes, not normalised.
  function RawBytes(entries: seq<Pair>): Text {
    if entries == [] then [] else EntryBytes(entries[0].0, entries[0].1) + RawBytes(entries[1..])
  }

  // Keys and values are not empty, fit their length bytes and are not blank.
  predicate Acceptable(entries: seq<Pair>, norm: Norm) {
    forall i :: 0 <= i < |entries| ==>
      && 0 < |entries[i].0| <= 255 && 0 < |entries[i].1| <= 255
      && norm(entries[i].0, entries[i].1).Some?
  }

  // What they mean: normalised, a later entry replacing an earlier of its key.
  function Meaning(entries: seq<Pair>, acc: Meta, norm: Norm): Meta
    requires Acceptable(entries, norm)
  {
    if entries == [] then acc
    else
      var p := norm(entries[0].0, entries[0].1).value;
      Meaning(entries[1..], acc[p.0 := p.1], norm)
  }

  lemma EntrySlices(k: Text, v: Text, rest: Text)
    requires |k| <= 255 && |v| <= 255
    ensures var b := EntryBytes(k, v) + rest;
            && b[0] == |k| && b[1] == |v| && b[2..2 + |k|] == k
            && b[2 + |k|..2 + |k| + |v|] == v && b[2 + |k| + |v|..] == rest
  {
  }

  lemma ReadsRaw(k: Text, v: Text, rest: Text)
    requires 0 < |k| <= 255 && 0 < |v| <= 255
    ensures RawAt(EntryBytes(k, v) + rest, 0) == Some(RawEntry(k, v, 2 + |k| + |v|))
    ensures (EntryBytes(k, v) + rest)[2 + |k| + |v|..] == rest
  {
    EntrySlices(k, v, rest);
  }

  lemma RawCut(b: Text)
    requires RawAt(b, 0).Some?
    ensures var e := RawAt(b, 0).value;
            && 0 < |e.key| <= 255 && 0 < |e.value| <= 255 && b == EntryBytes(e.key, e.value) + b[e.next..]
  {
  }

  lemma {:induction false} DecodesRaw(entries: seq<Pair>, acc: Meta, norm: Norm)
    requires Acceptable(entries, norm)
    ensures DecodeEntries(RawBytes(entries), |entries|, acc, norm) == Some(Meaning(entries, acc, norm))
    decreases |entries|
  {
    if entries != [] {
      var (k, v) := entries[0];
      var p := norm(k, v).value;
      ReadsRaw(k, v, RawBytes(entries[1..]));
      DecodeEntriesStep(RawBytes(entries), |entries|, acc, norm, RawEntry(k, v, 2 + |k| + |v|));
      DecodesRaw(entries[1..], acc[p.0 := p.1], norm);
    }
  }

  // The entries that were read, and nothing else, make up the bytes.
  lemma {:induction false} DecodedWere(b: Text, count: nat, acc: Meta, norm: Norm) returns (entries: seq<Pair>)
    requires DecodeEntries(b, count, acc, norm).Some?
    ensures |entries| == count && RawBytes(entries) == b && Acceptable(entries, norm)
    ensures DecodeEntries(b, count, acc, norm) == Some(Meaning(entries, acc, norm))
    decreases count
  {
    entries := [];
    if count > 0 {
      var e := RawAt(b, 0).value;
      var p := norm(e.key, e.value).value;
      RawCut(b);
      var more := DecodedWere(b[e.next..], count - 1, acc[p.0 := p.1], norm);
      entries := [(e.key, e.value)] + more;
      assert entries[1..] == more;
    }
  }

  ghost predicate Spells(extra: Text, entries: seq<Pair>, norm: Norm) {
    && |entries| <= 255 && Acceptable(entries, norm)
    && extra == [77, 68, 1, |entries|] + RawBytes(entries)
  }

  lemma SpelledDecodes(extra: Text, entries: seq<Pair>, norm: Norm)
    requires Spells(extra, entries, norm)
    ensures DecodeMeta(extra, norm) == Some(Meaning(entries, map[], norm))
  {
    assert extra == MetaHeader(|entries|) + RawBytes(entries);
    DecodesHeader(|entries|, RawBytes(entries), norm);
    DecodesRaw(entries, map[], norm);
  }

  lemma DecodedIsSpelled(extra: Text, norm: Norm) returns (entries: seq<Pair>)
    requires extra != [] && DecodeMeta(extra, norm).Some?
    ensures Spells(extra, entries, norm) && DecodeMeta(extra, norm) == Some(Meaning(entries, map[], norm))
  {
    entries := DecodedWere(extra[4..], extra[3], map[], norm);
    FourBytes(extra);
  }

  lemma FourBytes(t: Text)
    requires |t| >= 4
    ensures t == [t[0], t[1], t[2], t[3]] + t[4..]
  {
  }

  // Main result: the bytes accepted are none, or "MD", version 1, a count and
  // that many entries with nothing behind them; and they mean those entries.
  lemma DecodesIff(extra: Text, norm: Norm, m: Meta)
    ensures DecodeMeta(extra, norm) == Some(m) <==>
              || (extra == [] && m == map[])
              || exists entries :: Spells(extra, entries, norm) && m == Meaning(entries, map[], norm)
  {
    if extra != [] && DecodeMeta(extra, norm) == Some(m) {
      var entries := DecodedIsSpelled(extra, norm);
    }
    forall entries | Spells(extra, entries, norm)
      ensures extra != [] && DecodeMeta(extra, norm) == Some(Meaning(entries, map[], norm))
    {
      SpelledDecodes(extra, entries, norm);
    }
  }

  // Entry i says what key k is, and no entry behind it does.
  predicate LastSays(entries: seq<Pair>, norm: Norm, i: nat, k: Text, v: Text)
    requires Acceptable(entries, norm)
  {
    && i < |entries| && norm(entries[i].0, entries[i].1) == Some((k, v))
    && forall j :: i < j < |entries| ==> norm(entries[j].0, entries[j].1).value.0 != k
  }

  ghost predicate Says(entries: seq<Pair>, norm: Norm, k: Text, v: Text)
    requires Acceptable(entries, norm)
  {
    exists i :: LastSays(entries, norm, i, k, v)
  }

  predicate Silent(entries: seq<Pair>, norm: Norm, k: Text)
    requires Acceptable(entries, norm)
  {
    forall j :: 0 <= j < |entries| ==> norm(entries[j].0, entries[j].1).value.0 != k
  }

  lemma SaysNext(entries: seq<Pair>, norm: Norm, k: Text, v: Text)
    requires Acceptable(entries, norm) && entries != []
    ensures var p := norm(entries[0].0, entries[0].1).value;
            && (Silent(entries, norm, k) <==> Silent(entries[1..], norm, k) && p.0 != k)
            && (Says(entries, norm, k, v) <==>
                Says(entries[1..], norm, k, v) || (p == (k, v) && Silent(entries[1..], norm, k)))
  {
    var more := entries[1..];
    if Says(entries, norm, k, v) {
      var i: nat :| LastSays(entries, norm, i, k, v);
      if i > 0 {
        assert more[i - 1] == entries[i];
        assert LastSays(more, norm, i - 1, k, v);
      }
    }
    if Says(more, norm, k, v) {
      var i: nat :| LastSays(more, norm, i, k, v);
      assert entries[i + 1] == more[i];
      forall j | i + 1 < j < |entries| ensures norm(entries[j].0, entries[j].1).value.0 != k {
        assert more[j - 1] == entries[j];
      }
      assert LastSays(entries, norm, i + 1, k, v);
    }
    if norm(entries[0].0, entries[0].1).value == (k, v) && Silent(more, norm, k) {
      assert LastSays(entries, norm, 0, k, v);
    }
  }

  // A key has the value that the last entry of that normalised key gives it.
  lemma {:induction false} MeaningIff(entries: seq<Pair>, acc: Meta, norm: Norm, k: Text, v: Text)
    requires Acceptable(entries, norm)
    ensures var m := Meaning(entries, acc, norm);
            k in m && m[k] == v <==>
              Says(entries, norm, k, v) || (Silent(entries, norm, k) && k in acc && acc[k] == v)
    decreases |entries|
  {
    if entries != [] {
      var p := norm(entries[0].0, entries[0].1).value;
      SaysNext(entries, norm, k, v);
      MeaningIff(entries[1..], acc[p.0 := p.1], norm, k, v);
      SaysOrSilent(entries[1..], norm, k);
    }
  }

  lemma SaysOrSilent(entries: seq<Pair>, norm: Norm, k: Text)
    requires Acceptable(entries, norm)
    ensures forall v :: Says(entries, norm, k, v) ==> !Silent(entries, norm, k)
  {
    forall v | Says(entries, norm, k, v) ensures !Silent(entries, norm, k) {
      var i: nat :| LastSays(entries, norm, i, k, v);
      assert norm(entries[i].0, entries[i].1).value.0 == k;
    }
  }
}
