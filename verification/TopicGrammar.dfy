// What a printed topic looks like, and which topics are parsed and as what
// (go-server/pkg/contracts/topics.go).
module TopicGrammar {
  import opened Sequences
  import opened Text
  import opened Topics
  import opened Wrappers

  // ---- Printing ----

  // A key between dots, and the value.
  function Suffix(key: Text, value: Text): Text {
    if value == [] then [] else [46] + key + [46] + value
  }

  function NameSuffix(name: Text): Text {
    if name == [] then [] else [46] + name
  }

  lemma {:induction false} JoinAppend(parts: seq<Text>, more: seq<Text>)
    requires parts != [] && more != []
    ensures Join(parts + more) == Join(parts) + ([46] + Join(more))
    decreases |parts|
  {
    if |parts| == 1 {
      assert (parts + more)[1..] == more;
    } else {
      assert (parts + more)[1..] == parts[1..] + more;
      JoinAppend(parts[1..], more);
      Associative(parts[0], [46] + Join(parts[1..]), [46] + Join(more));
      Associative([46], Join(parts[1..]), [46] + Join(more));
    }
  }

  lemma JoinPair(parts: seq<Text>, key: Text, value: Text)
    requires parts != []
    ensures Join(parts + Pair(key, value)) == Join(parts) + Suffix(key, value)
  {
    if value == [] {
      assert parts + [] == parts;
    } else {
      JoinAppend(parts, [key, value]);
      assert [key, value][1..] == [value];
      assert Join([key, value]) == key + ([46] + value);
      assert [46] + (key + ([46] + value)) == [46] + key + [46] + value;
    }
  }

  lemma JoinName(parts: seq<Text>, name: Text)
    requires parts != []
    ensures Join(Named(parts, name)) == Join(parts) + NameSuffix(name)
  {
    if name == [] { assert Join(parts) + [] == Join(parts); } else { JoinAppend(parts, [name]); }
  }

  lemma JoinParts(scope: Text, first: Text, groupID: Text, shardID: Text, name: Text)
    ensures Join(Named(Parts(scope, first, groupID, shardID), name)) ==
            scope + [46] + first + Suffix([103, 105, 100], groupID) + Suffix([115, 105, 100], shardID)
            + NameSuffix(name)
  {
    assert [scope, first][1..] == [first];
    assert Join([scope, first]) == scope + ([46] + first) == scope + [46] + first;
    JoinPair([scope, first], [103, 105, 100], groupID);
    JoinPair([scope, first] + Pair([103, 105, 100], groupID), [115, 105, 100], shardID);
    JoinName(Parts(scope, first, groupID, shardID), name);
  }

  // Main result: a topic is its scope and first part, ".gid." and ".sid." with
  // their values where there are any, and its name, all trimmed and with dots
  // between; or nothing when one of the first two is blank.
  lemma PrintIs(scope: Text, first: Text, groupID: Text, shardID: Text, name: Text)
    ensures Print(scope, first, groupID, shardID, name) ==
            if Trim(scope) == [] || Trim(first) == [] then []
            else Trim(scope) + [46] + Trim(first) + Suffix([103, 105, 100], Trim(groupID))
                 + Suffix([115, 105, 100], Trim(shardID)) + NameSuffix(Trim(name))
  {
    PrintIsEmptyIff(scope, first, groupID, shardID, name);
    JoinParts(Trim(scope), Trim(first), Trim(groupID), Trim(shardID), Trim(name));
  }

  // ---- Parsing ----

  // Which of the keys stand between the service and the name, in either order.
  predicate KeyParts(keys: seq<Text>, groupID: Text, shardID: Text) {
    || (keys == [] && groupID == shardID == [])
    || (keys == [[103, 105, 100], groupID] && shardID == [])
    || (keys == [[115, 105, 100], shardID] && groupID == [])
    || keys == [[103, 105, 100], groupID, [115, 105, 100], shardID]
    || keys == [[115, 105, 100], shardID, [103, 105, 100], groupID]
  }

  // "service", the service, its keys, and a name that starts with no key.
  predicate ServiceParts(parts: seq<Text>, keys: seq<Text>, segments: seq<Text>, r: ScopedTopic) {
    && r.scope == Service && r.zoneID == [] && r.name == Join(segments)
    && parts == [[115, 101, 114, 118, 105, 99, 101], r.service] + keys + segments
    && KeyParts(keys, r.groupID, r.shardID)
    && (segments == [] || (segments[0] != [103, 105, 100] && segments[0] != [115, 105, 100]))
  }

  // "zone" or "shard", one part and a name.
  predicate OneParts(parts: seq<Text>, segments: seq<Text>, r: ScopedTopic) {
    || (parts == [[122, 111, 110, 101], r.zoneID] + segments
        && r == ScopedTopic(Zone, [], r.zoneID, [], [], Join(segments)))
    || (parts == [[115, 104, 97, 114, 100], r.shardID] + segments
        && r == ScopedTopic(Shard, [], [], [], r.shardID, Join(segments)))
  }

  predicate NoneBlank(parts: seq<Text>) {
    forall i :: 0 <= i < |parts| ==> Trim(parts[i]) != []
  }

  lemma BlankIff(parts: seq<Text>)
    ensures HasEmptyPart(parts) <==> !NoneBlank(parts)
  {
    forall i | 0 <= i < |parts| ensures NotBlank(parts[i]) <==> Trim(parts[i]) != [] {
    }
  }

  lemma EmptyIsBlank()
    ensures Trim([]) == []
  {
  }

  // One key in front is read, if it was not read before.
  lemma KeyStep(parts: seq<Text>, idx: nat, out: ScopedTopic)
    requires idx + 1 < |parts|
    ensures parts[idx] == GID && out.groupID == [] ==>
              ParseFrom(parts, idx, out) == ParseFrom(parts, idx + 2, out.(groupID := parts[idx + 1]))
    ensures parts[idx] == SID && out.shardID == [] ==>
              ParseFrom(parts, idx, out) == ParseFrom(parts, idx + 2, out.(shardID := parts[idx + 1]))
  {
  }

  lemma NameStep(parts: seq<Text>, idx: nat, out: ScopedTopic)
    requires idx <= |parts| && (idx == |parts| || !IsKey(parts[idx])) && out.name == []
    ensures ParseFrom(parts, idx, out) == Some(out.(name := Join(parts[idx..])))
  {
  }

  lemma KeysDiffer()
    ensures GID == [103, 105, 100] && SID == [115, 105, 100] && GID != SID
  {
  }

  // Service parts are read as what they say.
  lemma ServicePartsRead(parts: seq<Text>, keys: seq<Text>, segments: seq<Text>, r: ScopedTopic)
    requires ServiceParts(parts, keys, segments, r)
    ensures ParseFrom(parts, 2, ScopedTopic(Service, r.service, [], [], [], [])) == Some(r)
  {
    var base := ScopedTopic(Service, r.service, [], [], [], []);
    var at := 2 + |keys|;
    KeysDiffer();
    assert parts[at..] == segments && (segments != [] ==> parts[at] == segments[0]);
    if |keys| >= 2 {
      assert parts[2] == keys[0] && parts[3] == keys[1];
      KeyStep(parts, 2, base);
      if |keys| == 4 {
        assert parts[4] == keys[2] && parts[5] == keys[3];
        KeyStep(parts, 4, if keys[0] == GID then base.(groupID := r.groupID) else base.(shardID := r.shardID));
      }
    }
    NameStep(parts, at, ScopedTopic(Service, r.service, [], r.groupID, r.shardID, []));
  }

  // Behind these keys a name was read.
  lemma NameWas(parts: seq<Text>, keys: seq<Text>, last: ScopedTopic)
    requires 2 + |keys| <= |parts| && parts[0] == SERVICE && parts[1] == last.service && parts[2..2 + |keys|] == keys
    requires last.scope == Service && last.zoneID == last.name == [] && KeyParts(keys, last.groupID, last.shardID)
    requires 2 + |keys| == |parts| || !IsKey(parts[2 + |keys|])
    ensures var r := ParseFrom(parts, 2 + |keys|, last);
            r.Some? && ServiceParts(parts, keys, parts[2 + |keys|..], r.value)
  {
    NameStep(parts, 2 + |keys|, last);
    ScopesDiffer();
    PartsCut(parts, keys);
    SegmentsStart(parts, parts[2 + |keys|..], 2 + |keys|);
    ServicePartsAre(parts, keys, parts[2 + |keys|..], last);
  }

  lemma PartsCut(parts: seq<Text>, keys: seq<Text>)
    requires 2 + |keys| <= |parts| && parts[2..2 + |keys|] == keys
    ensures parts == [parts[0], parts[1]] + keys + parts[2 + |keys|..]
  {
  }

  lemma SegmentsStart(parts: seq<Text>, segments: seq<Text>, at: nat)
    requires at <= |parts| && segments == parts[at..] && (at == |parts| || !IsKey(parts[at]))
    ensures segments == [] || (segments[0] != [103, 105, 100] && segments[0] != [115, 105, 100])
  {
    KeysDiffer();
  }

  lemma ServicePartsAre(parts: seq<Text>, keys: seq<Text>, segments: seq<Text>, last: ScopedTopic)
    requires parts == [[115, 101, 114, 118, 105, 99, 101], last.service] + keys + segments
    requires last.scope == Service && last.zoneID == [] && KeyParts(keys, last.groupID, last.shardID)
    requires segments == [] || (segments[0] != [103, 105, 100] && segments[0] != [115, 105, 100])
    ensures ServiceParts(parts, keys, segments, last.(name := Join(segments)))
  {
  }

  lemma KeyWas(parts: seq<Text>, at: nat, out: ScopedTopic)
    requires at < |parts| && IsKey(parts[at]) && NoneBlank(parts) && ParseFrom(parts, at, out).Some?
    ensures at + 1 < |parts| && parts[at + 1] != []
    ensures if parts[at] == GID then out.groupID == [] else out.shardID == []
  {
    EmptyIsBlank();
    if at + 1 < |parts| { assert Trim(parts[at + 1]) != []; }
  }

  // The topic with one more key.
  function WithKey(out: ScopedTopic, key: Text, value: Text): ScopedTopic {
    if key == GID then out.(groupID := value) else out.(shardID := value)
  }

  lemma KeyPassed(parts: seq<Text>, at: nat, out: ScopedTopic)
    requires at + 1 < |parts| && IsKey(parts[at])
    requires if parts[at] == GID then out.groupID == [] else out.shardID == []
    ensures ParseFrom(parts, at, out) == ParseFrom(parts, at + 2, WithKey(out, parts[at], parts[at + 1]))
  {
    KeyStep(parts, at, out);
  }

  // At most the two keys and then a name are read.
  lemma KeysWere(parts: seq<Text>, service: Text) returns (keys: seq<Text>, segments: seq<Text>)
    requires |parts| >= 2 && parts[0] == SERVICE && parts[1] == service && NoneBlank(parts)
    requires ParseFrom(parts, 2, ScopedTopic(Service, service, [], [], [], [])).Some?
    ensures var r := ParseFrom(parts, 2, ScopedTopic(Service, service, [], [], [], [])).value;
            ServiceParts(parts, keys, segments, r)
  {
    var base := ScopedTopic(Service, service, [], [], [], []);
    keys := [];
    if |parts| > 2 && IsKey(parts[2]) {
      KeyWas(parts, 2, base);
      KeyPassed(parts, 2, base);
      keys := SecondKey(parts, WithKey(base, parts[2], parts[3]));
    } else {
      NameWas(parts, [], base);
    }
    segments := parts[2 + |keys|..];
  }

  lemma OneKeyParts(base: ScopedTopic, k: Text, v: Text)
    requires base.groupID == base.shardID == [] && IsKey(k)
    ensures KeyParts([k, v], WithKey(base, k, v).groupID, WithKey(base, k, v).shardID)
  {
    KeysDiffer();
  }

  lemma TwoKeyParts(base: ScopedTopic, k: Text, v: Text, l: Text, w: Text)
    requires base.groupID == base.shardID == [] && IsKey(k) && IsKey(l) && k != l
    ensures var two := WithKey(WithKey(base, k, v), l, w); KeyParts([k, v, l, w], two.groupID, two.shardID)
  {
    KeysDiffer();
  }

  lemma NoThirdKey(parts: seq<Text>, out: ScopedTopic)
    requires |parts| >= 6 && NoneBlank(parts) && ParseFrom(parts, 6, out).Some?
    requires out.groupID != [] && out.shardID != []
    ensures |parts| == 6 || !IsKey(parts[6])
  {
    if |parts| > 6 && IsKey(parts[6]) { KeyWas(parts, 6, out); }
  }

  lemma TwoKeys(parts: seq<Text>, one: ScopedTopic)
    requires |parts| > 5 && parts[0] == SERVICE && NoneBlank(parts)
    requires IsKey(parts[2]) && IsKey(parts[4]) && parts[3] != []
    requires one == WithKey(ScopedTopic(Service, parts[1], [], [], [], []), parts[2], parts[3])
    requires parts[4] != parts[2] && parts[5] != []
    requires ParseFrom(parts, 6, WithKey(one, parts[4], parts[5])).Some?
    ensures ServiceParts(parts, parts[2..6], parts[6..], ParseFrom(parts, 6, WithKey(one, parts[4], parts[5])).value)
  {
    var two := WithKey(one, parts[4], parts[5]);
    TwoKeyParts(ScopedTopic(Service, parts[1], [], [], [], []), parts[2], parts[3], parts[4], parts[5]);
    FourOf(parts);
    NoThirdKey(parts, two);
    NameWas(parts, parts[2..6], two);
  }

  lemma FourOf(parts: seq<Text>)
    requires |parts| > 5
    ensures parts[2..6] == [parts[2], parts[3], parts[4], parts[5]]
  {
  }

  lemma TwoOf(parts: seq<Text>)
    requires |parts| > 3
    ensures parts[2..4] == [parts[2], parts[3]]
  {
  }

  lemma OtherKey(parts: seq<Text>, one: ScopedTopic)
    requires |parts| > 4 && IsKey(parts[2]) && IsKey(parts[4]) && parts[3] != []
    requires one == WithKey(ScopedTopic(Service, parts[1], [], [], [], []), parts[2], parts[3])
    requires if parts[4] == GID then one.groupID == [] else one.shardID == []
    ensures parts[4] != parts[2]
  {
    KeysDiffer();
  }

  lemma SecondKey(parts: seq<Text>, one: ScopedTopic) returns (keys: seq<Text>)
    requires |parts| >= 4 && parts[0] == SERVICE && NoneBlank(parts) && IsKey(parts[2]) && parts[3] != []
    requires one == WithKey(ScopedTopic(Service, parts[1], [], [], [], []), parts[2], parts[3])
    requires ParseFrom(parts, 4, one).Some?
    ensures 2 + |keys| <= |parts| && ServiceParts(parts, keys, parts[2 + |keys|..], ParseFrom(parts, 4, one).value)
  {
    if |parts| > 4 && IsKey(parts[4]) {
      KeyWas(parts, 4, one);
      KeyPassed(parts, 4, one);
      OtherKey(parts, one);
      TwoKeys(parts, one);
      keys := parts[2..6];
    } else {
      OneKeyParts(ScopedTopic(Service, parts[1], [], [], [], []), parts[2], parts[3]);
      TwoOf(parts);
      keys := parts[2..4];
      NameWas(parts, keys, one);
    }
  }

  ghost predicate Stands(parts: seq<Text>, r: ScopedTopic) {
    && NoneBlank(parts)
    && ((exists keys, segments :: ServiceParts(parts, keys, segments, r))
        || exists segments :: OneParts(parts, segments, r))
  }

  lemma ScopesDiffer()
    ensures SERVICE == [115, 101, 114, 118, 105, 99, 101] && ZONE == [122, 111, 110, 101]
    ensures SHARD == [115, 104, 97, 114, 100] && SERVICE != ZONE && SERVICE != SHARD && ZONE != SHARD
  {
    assert |SERVICE| == 7 && |ZONE| == 4 && |SHARD| == 5;
  }

  lemma OnePartsRead(parts: seq<Text>, segments: seq<Text>, r: ScopedTopic)
    requires NoneBlank(parts) && OneParts(parts, segments, r)
    ensures ParseParts(parts) == Some(r)
  {
    ScopesDiffer();
    BlankIff(parts);
    assert parts[2..] == segments;
  }

  lemma OneWas(parts: seq<Text>)
    requires |parts| >= 2 && NoneBlank(parts) && (parts[0] == ZONE || parts[0] == SHARD)
    ensures ParseParts(parts).Some? && OneParts(parts, parts[2..], ParseParts(parts).value)
  {
    ScopesDiffer();
    BlankIff(parts);
    assert parts == [parts[0], parts[1]] + parts[2..];
  }

  lemma ServiceRead(parts: seq<Text>, keys: seq<Text>, segments: seq<Text>, r: ScopedTopic)
    requires NoneBlank(parts) && ServiceParts(parts, keys, segments, r)
    ensures ParseParts(parts) == Some(r)
  {
    ScopesDiffer();
    BlankIff(parts);
    ServicePartsRead(parts, keys, segments, r);
    ServiceBranch(parts, r.service);
  }

  // Main result: a topic is parsed exactly if none of its parts is blank and they
  // are those of a service, with its keys in either order, of a zone or of a
  // shard; and it is parsed as that.
  lemma ParsesIff(topic: Text, r: ScopedTopic)
    ensures Parse(topic) == Some(r) <==> Stands(Split(Trim(topic)), r)
  {
    var parts := Split(Trim(topic));
    BlankIff(parts);
    if Parse(topic) == Some(r) {
      if parts[0] == SERVICE {
        ServiceBranch(parts, parts[1]);
        var keys, segments := KeysWere(parts, parts[1]);
      } else {
        OneWas(parts);
      }
    }
    forall keys, segments | NoneBlank(parts) && ServiceParts(parts, keys, segments, r) ensures Parse(topic) == Some(r) {
      ServiceRead(parts, keys, segments, r);
    }
    forall segments | NoneBlank(parts) && OneParts(parts, segments, r) ensures Parse(topic) == Some(r) {
      OnePartsRead(parts, segments, r);
    }
  }
}
