// Scoped topics: printed from their parts and parsed back
// (go-server/pkg/contracts/topics.go).
module Topics {
  import opened Sequences
  import opened Text
  import opened Wrappers

  const DOT: byte := 46
  const SERVICE: Text := [115, 101, 114, 118, 105, 99, 101]
  const ZONE: Text := [122, 111, 110, 101]
  const SHARD: Text := [115, 104, 97, 114, 100]
  const GID: Text := [103, 105, 100]
  const SID: Text := [115, 105, 100]

  datatype Scope = Service | Zone | Shard

  datatype ScopedTopic = ScopedTopic(scope: Scope, service: Text, zoneID: Text, groupID: Text, shardID: Text,
                                     name: Text)

  // ---- strings.Split and strings.Join on dots ----

  function Split(t: Text): (parts: seq<Text>)
    ensures parts != []
  {
    if t == [] then [[]]
    else
      var rest := Split(t[1..]);
      if t[0] == DOT then [[]] + rest else [[t[0]] + rest[0]] + rest[1..]
  }

  function Join(parts: seq<Text>): Text {
    if parts == [] then [] else if |parts| == 1 then parts[0] else parts[0] + ([DOT] + Join(parts[1..]))
  }

  predicate DotFree(t: Text) {
    DOT !in t
  }

  predicate AllDotFree(parts: seq<Text>) {
    forall i :: 0 <= i < |parts| ==> DotFree(parts[i])
  }

  lemma {:induction false} JoinOfSplit(t: Text)
    ensures Join(Split(t)) == t
  {
    if t != [] {
      JoinOfSplit(t[1..]);
      var rest := Split(t[1..]);
      if t[0] == DOT {
        assert ([[]] + rest)[1..] == rest;
        assert t == [DOT] + t[1..];
      } else {
        var parts := [[t[0]] + rest[0]] + rest[1..];
        assert parts[1..] == rest[1..];
        assert t == [t[0]] + t[1..];
      }
    }
  }

  lemma {:induction false} SplitAfterDot(p: Text, rest: Text)
    requires DotFree(p)
    ensures Split(p + ([DOT] + rest)) == [p] + Split(rest)
  {
    var t := p + ([DOT] + rest);
    if p == [] {
      assert t == [DOT] + rest && t[1..] == rest;
    } else {
      SplitAfterDot(p[1..], rest);
      assert t[1..] == p[1..] + ([DOT] + rest);
      assert t[0] == p[0] && p[0] in p;
      var tail := [p[1..]] + Split(rest);
      assert tail[1..] == Split(rest) && [p[0]] + p[1..] == p;
    }
  }

  lemma {:induction false} SplitDotFree(p: Text)
    requires DotFree(p)
    ensures Split(p) == [p]
  {
    if p != [] {
      SplitDotFree(p[1..]);
      assert p[0] in p && [p[0]] + p[1..] == p;
    }
  }

  lemma SplitOfCons(first: Text, more: seq<Text>)
    requires DotFree(first) && more != []
    ensures Split(Join([first] + more)) == [first] + Split(Join(more))
  {
    assert ([first] + more)[1..] == more;
    SplitAfterDot(first, Join(more));
  }

  // Joining dot-free parts and a last text, which may hold dots, and splitting.
  lemma {:induction false} SplitOfJoin(parts: seq<Text>, last: Text)
    requires AllDotFree(parts)
    ensures Split(Join(parts + [last])) == parts + Split(last)
    decreases |parts|
  {
    if parts == [] {
      assert parts + [last] == [last] && parts + Split(last) == Split(last);
    } else {
      var first, more := parts[0], parts[1..];
      SplitOfJoin(more, last);
      SplitOfCons(first, more + [last]);
      Associative([first], more, [last]);
      Associative([first], more, Split(last));
      assert parts == [first] + more;
    }
  }

  // ---- Printing ----

  // A key and its value, unless the value is missing.
  function Pair(key: Text, value: Text): seq<Text> {
    if value == [] then [] else [key, value]
  }

  // The parts of a topic before its name.
  function Parts(scope: Text, first: Text, groupID: Text, shardID: Text): seq<Text> {
    [scope, first] + Pair(GID, groupID) + Pair(SID, shardID)
  }

  function Named(parts: seq<Text>, name: Text): seq<Text> {
    if name == [] then parts else parts + [name]
  }

  // Nothing when a part is missing.
  function JoinAll(parts: seq<Text>): Text {
    if [] in parts then [] else Join(parts)
  }

  function Print(scope: Text, first: Text, groupID: Text, shardID: Text, name: Text): Text {
    JoinAll(Named(Parts(Trim(scope), Trim(first), Trim(groupID), Trim(shardID)), Trim(name)))
  }

  method JoinParts(parts: seq<Text>) returns (topic: Text)
    ensures topic == JoinAll(parts)
  {
    for i := 0 to |parts|
      invariant [] !in parts[..i]
    {
      if parts[i] == [] { return []; }
    }
    assert parts[..|parts|] == parts;
    topic := Join(parts);
  }

  method AppendPair(parts: seq<Text>, key: Text, value: Text) returns (more: seq<Text>)
    ensures more == parts + Pair(key, value)
  {
    more := parts;
    if value != [] { more := more + [key, value]; }
  }

  method PrintScopedTopic(scope: Text, first: Text, groupID: Text, shardID: Text, name: Text) returns (topic: Text)
    ensures topic == Print(scope, first, groupID, shardID, name)
  {
    var parts := [Trim(scope), Trim(first)];
    parts := AppendPair(parts, GID, Trim(groupID));
    parts := AppendPair(parts, SID, Trim(shardID));
    var last := Trim(name);
    if last != [] { parts := parts + [last]; }
    topic := JoinParts(parts);
  }

  // ---- Parsing ----

  predicate Each(parts: seq<Text>, p: Text -> bool) {
    forall i :: 0 <= i < |parts| ==> p(parts[i])
  }

  predicate NotBlank(t: Text) {
    !Blank(t)
  }

  predicate HasEmptyPart(parts: seq<Text>) {
    !Each(parts, NotBlank)
  }

  function ParseFrom(parts: seq<Text>, idx: nat, out: ScopedTopic): Option<ScopedTopic>
    decreases |parts| - idx
  {
    if idx >= |parts| then Some(out)
    else if parts[idx] == GID then
      if idx + 1 >= |parts| || out.groupID != [] then None
      else ParseFrom(parts, idx + 2, out.(groupID := parts[idx + 1]))
    else if parts[idx] == SID then
      if idx + 1 >= |parts| || out.shardID != [] then None
      else ParseFrom(parts, idx + 2, out.(shardID := parts[idx + 1]))
    else Some(out.(name := Join(parts[idx..])))
  }

  function ParseParts(parts: seq<Text>): Option<ScopedTopic> {
    if |parts| < 2 || HasEmptyPart(parts) then None
    else if parts[0] == SERVICE then ParseFrom(parts, 2, ScopedTopic(Service, parts[1], [], [], [], []))
    else if parts[0] == ZONE then Some(ScopedTopic(Zone, [], parts[1], [], [], Join(parts[2..])))
    else if parts[0] == SHARD then Some(ScopedTopic(Shard, [], [], [], parts[1], Join(parts[2..])))
    else None
  }

  function Parse(topic: Text): Option<ScopedTopic> {
    ParseParts(Split(Trim(topic)))
  }

  method ParseServiceTopic(parts: seq<Text>) returns (topic: Option<ScopedTopic>)
    requires |parts| >= 2
    ensures topic == ParseFrom(parts, 2, ScopedTopic(Service, parts[1], [], [], [], []))
  {
    var out := ScopedTopic(Service, parts[1], [], [], [], []);
    var idx := 2;
    while idx < |parts|
      invariant 2 <= idx
      invariant ParseFrom(parts, idx, out) == ParseFrom(parts, 2, ScopedTopic(Service, parts[1], [], [], [], []))
    {
      if parts[idx] == GID {
        if idx + 1 >= |parts| || out.groupID != [] { return None; }
        out := out.(groupID := parts[idx + 1]);
        idx := idx + 2;
      } else if parts[idx] == SID {
        if idx + 1 >= |parts| || out.shardID != [] { return None; }
        out := out.(shardID := parts[idx + 1]);
        idx := idx + 2;
      } else {
        return Some(out.(name := Join(parts[idx..])));
      }
    }
    topic := Some(out);
  }

  method FindEmptyPart(parts: seq<Text>) returns (found: bool)
    ensures found == HasEmptyPart(parts)
  {
    for i := 0 to |parts|
      invariant Each(parts[..i], NotBlank)
    {
      if Blank(parts[i]) {
        assert !NotBlank(parts[i]);
        return true;
      }
    }
    assert parts[..|parts|] == parts;
    found := false;
  }

  method ParseScopedTopic(topic: Text) returns (parsed: Option<ScopedTopic>)
    ensures parsed == Parse(topic)
  {
    var parts := Split(Trim(topic));
    if |parts| < 2 { return None; }
    var empty := FindEmptyPart(parts);
    if empty { return None; }
    if parts[0] == SERVICE {
      parsed := ParseServiceTopic(parts);
    } else if parts[0] == ZONE {
      parsed := Some(ScopedTopic(Zone, [], parts[1], [], [], Join(parts[2..])));
    } else if parts[0] == SHARD {
      parsed := Some(ScopedTopic(Shard, [], [], [], parts[1], Join(parts[2..])));
    } else {
      parsed := None;
    }
  }

  // ---- Round trips ----

  // A part a topic can carry: no white space around it, no dot inside.
  predicate Part(t: Text) {
    t != [] && Trimmed(t) && DotFree(t)
  }

  predicate OptionalPart(t: Text) {
    t == [] || Part(t)
  }

  // A name whose segments between dots are not blank.
  predicate Name(t: Text) {
    t == [] || (Trimmed(t) && !HasEmptyPart(Split(t)))
  }

  lemma EachPart(scope: Text, first: Text, groupID: Text, shardID: Text, p: Text -> bool)
    requires p(GID) && p(SID) && p(scope) && p(first)
    requires (groupID != [] ==> p(groupID)) && (shardID != [] ==> p(shardID))
    ensures Each(Parts(scope, first, groupID, shardID), p)
  {
  }

  lemma EachNamed(parts: seq<Text>, name: Text, p: Text -> bool)
    requires Each(parts, p) && (name != [] ==> p(name))
    ensures Each(Named(parts, name), p)
  {
  }

  lemma EachOfConcat(a: seq<Text>, b: seq<Text>, p: Text -> bool)
    requires Each(a, p) && Each(b, p)
    ensures Each(a + b, p)
  {
  }

  predicate NonEmpty(t: Text) {
    t != []
  }

  // A topic is printed unless one of its first two parts is missing.
  lemma PrintIsEmptyIff(scope: Text, first: Text, groupID: Text, shardID: Text, name: Text)
    ensures Print(scope, first, groupID, shardID, name) == [] <==> Trim(scope) == [] || Trim(first) == []
  {
    JoinAllEmptyIff(Trim(scope), Trim(first), Trim(groupID), Trim(shardID), Trim(name));
  }

  lemma JoinAllEmptyIff(scope: Text, first: Text, groupID: Text, shardID: Text, name: Text)
    ensures JoinAll(Named(Parts(scope, first, groupID, shardID), name)) == [] <==> scope == [] || first == []
  {
    var parts := Named(Parts(scope, first, groupID, shardID), name);
    assert parts[0] == scope && parts[1] == first;
    if scope != [] && first != [] {
      EachPart(scope, first, groupID, shardID, NonEmpty);
      EachNamed(Parts(scope, first, groupID, shardID), name, NonEmpty);
      NoneEmpty(parts);
    }
  }

  // A joined text is trimmed when its first and last parts are.
  lemma {:induction false} JoinTrimmed(parts: seq<Text>)
    requires parts != [] && [] !in parts && Trimmed(parts[0]) && Trimmed(parts[|parts| - 1])
    ensures Join(parts) != [] && !IsSpace(Join(parts)[0]) && !IsSpace(Join(parts)[|Join(parts)| - 1])
    decreases |parts|
  {
    assert parts[0] != [] && parts[|parts| - 1] != [];
    if |parts| > 1 {
      JoinEnds(parts);
    }
  }

  lemma {:induction false} JoinEnds(parts: seq<Text>)
    requires parts != [] && [] !in parts
    ensures var last := parts[|parts| - 1];
            last != [] && |Join(parts)| >= |last| && Join(parts)[|Join(parts)| - 1] == last[|last| - 1]
    decreases |parts|
  {
    assert parts[|parts| - 1] != [];
    if |parts| > 1 {
      assert [] !in parts[1..];
      JoinEnds(parts[1..]);
    }
  }

  // The split of a name that may be missing.
  function Segments(name: Text): seq<Text> {
    if name == [] then [] else Split(name)
  }

  lemma SplitNamed(parts: seq<Text>, name: Text)
    requires parts != [] && AllDotFree(parts)
    ensures Split(Join(Named(parts, name))) == parts + Segments(name)
  {
    if name == [] {
      var front, last := parts[..|parts| - 1], parts[|parts| - 1];
      assert front + [last] == parts;
      SplitOfJoin(front, last);
      SplitDotFree(last);
      assert parts + [] == parts;
    } else {
      SplitOfJoin(parts, name);
    }
  }

  lemma KeysAreParts()
    ensures Part(GID) && Part(SID) && Part(SERVICE) && Part(ZONE) && Part(SHARD)
  {
  }

  lemma EachIsPart(parts: seq<Text>)
    requires Each(parts, Part)
    ensures AllDotFree(parts) && Each(parts, NonEmpty) && Each(parts, Trimmed) && Each(parts, NotBlank)
  {
    forall i | 0 <= i < |parts|
      ensures DotFree(parts[i]) && NonEmpty(parts[i]) && Trimmed(parts[i]) && NotBlank(parts[i])
    {
      assert Part(parts[i]);
    }
  }

  // The parts, joined with the name, survive the parser's trimming and splitting.
  lemma JoinedSplits(parts: seq<Text>, name: Text)
    requires parts != [] && Each(parts, Part) && Name(name)
    ensures JoinAll(Named(parts, name)) != []
    ensures Split(Trim(JoinAll(Named(parts, name)))) == parts + Segments(name)
    ensures !HasEmptyPart(parts + Segments(name))
  {
    EachIsPart(parts);
    EachNamed(parts, name, NonEmpty);
    EachNamed(parts, name, Trimmed);
    NoneEmpty(Named(parts, name));
    JoinTrimmed(Named(parts, name));
    TrimTrimmed(Join(Named(parts, name)));
    SplitNamed(parts, name);
    EachOfConcat(parts, Segments(name), NotBlank);
  }

  lemma NoneEmpty(parts: seq<Text>)
    requires Each(parts, NonEmpty)
    ensures [] !in parts
  {
    forall part | part in parts ensures NonEmpty(part) {
    }
  }

  lemma PrintTrimmed(scope: Text, first: Text, groupID: Text, shardID: Text, name: Text)
    requires Trimmed(scope) && Trimmed(first) && Trimmed(groupID) && Trimmed(shardID) && Trimmed(name)
    ensures Print(scope, first, groupID, shardID, name) == JoinAll(Named(Parts(scope, first, groupID, shardID), name))
  {
    TrimTrimmed(scope);
    TrimTrimmed(first);
    TrimTrimmed(groupID);
    TrimTrimmed(shardID);
    TrimTrimmed(name);
  }

  lemma PartsAreParts(scope: Text, first: Text, groupID: Text, shardID: Text)
    requires Part(scope) && Part(first) && OptionalPart(groupID) && OptionalPart(shardID)
    ensures Each(Parts(scope, first, groupID, shardID), Part)
  {
    KeysAreParts();
    EachPart(scope, first, groupID, shardID, Part);
  }

  // What the parser sees of a printed topic.
  lemma PrintedParts(scope: Text, first: Text, groupID: Text, shardID: Text, name: Text)
    requires Part(scope) && Part(first) && OptionalPart(groupID) && OptionalPart(shardID) && Name(name)
    ensures Split(Trim(Print(scope, first, groupID, shardID, name))) ==
            Parts(scope, first, groupID, shardID) + Segments(name)
    ensures !HasEmptyPart(Parts(scope, first, groupID, shardID) + Segments(name))
  {
    PrintTrimmed(scope, first, groupID, shardID, name);
    PartsAreParts(scope, first, groupID, shardID);
    JoinedSplits(Parts(scope, first, groupID, shardID), name);
  }

  lemma JoinOfSegments(name: Text)
    ensures Join(Segments(name)) == name
  {
    JoinOfSplit(name);
  }

  // Main result: a zone or shard topic is parsed back to its parts.
  lemma ZoneRoundTrip(id: Text, name: Text)
    requires Part(id) && Name(name)
    ensures Parse(Print(ZONE, id, [], [], name)) == Some(ScopedTopic(Zone, [], id, [], [], name))
    ensures Parse(Print(SHARD, id, [], [], name)) == Some(ScopedTopic(Shard, [], [], [], id, name))
  {
    ZoneParsed(id, name);
    ShardParsed(id, name);
  }

  lemma ZoneParsed(id: Text, name: Text)
    requires Part(id) && Name(name)
    ensures Parse(Print(ZONE, id, [], [], name)) == Some(ScopedTopic(Zone, [], id, [], [], name))
  {
    KeysAreParts();
    PrintedParts(ZONE, id, [], [], name);
    JoinOfSegments(name);
    OneScoped(ZONE, id, Segments(name));
  }

  lemma ShardParsed(id: Text, name: Text)
    requires Part(id) && Name(name)
    ensures Parse(Print(SHARD, id, [], [], name)) == Some(ScopedTopic(Shard, [], [], [], id, name))
  {
    KeysAreParts();
    PrintedParts(SHARD, id, [], [], name);
    JoinOfSegments(name);
    OneScoped(SHARD, id, Segments(name));
  }

  lemma OneScoped(scope: Text, id: Text, segments: seq<Text>)
    ensures (Parts(scope, id, [], []) + segments)[2..] == segments
    ensures Parts(scope, id, [], [])[0] == scope && Parts(scope, id, [], [])[1] == id
  {
  }

  predicate IsKey(t: Text) {
    t == GID || t == SID
  }

  // Keys once read are never lost again.
  lemma {:induction false} KeysStay(parts: seq<Text>, idx: nat, out: ScopedTopic)
    ensures match ParseFrom(parts, idx, out)
            case None => true
            case Some(r) =>
              (out.groupID != [] ==> r.groupID == out.groupID) && (out.shardID != [] ==> r.shardID == out.shardID)
    decreases |parts| - idx
  {
    if idx + 1 < |parts| {
      KeysStay(parts, idx + 2, out.(groupID := parts[idx + 1]));
      KeysStay(parts, idx + 2, out.(shardID := parts[idx + 1]));
    }
  }

  // Behind its keys a topic's segments are read as its name exactly when they
  // do not start with a key: that key would take the next segment, or be refused.
  lemma NameReadIff(parts: seq<Text>, idx: nat, out: ScopedTopic)
    requires idx <= |parts| && out.name == [] && Each(parts[idx..], NonEmpty)
    ensures ParseFrom(parts, idx, out) == Some(out.(name := Join(parts[idx..]))) <==>
            idx == |parts| || !IsKey(parts[idx])
  {
    if idx + 1 < |parts| {
      assert NonEmpty(parts[idx..][1]) && parts[idx..][1] == parts[idx + 1];
      KeysStay(parts, idx + 2, out.(groupID := parts[idx + 1]));
      KeysStay(parts, idx + 2, out.(shardID := parts[idx + 1]));
    }
  }

  // The keys in front are read one after the other.
  lemma KeysRead(service: Text, groupID: Text, shardID: Text, segments: seq<Text>)
    ensures var parts := Parts(SERVICE, service, groupID, shardID) + segments;
            ParseFrom(parts, 2, ScopedTopic(Service, service, [], [], [], [])) ==
            ParseFrom(parts, |Parts(SERVICE, service, groupID, shardID)|,
                      ScopedTopic(Service, service, [], groupID, shardID, []))
  {
    var parts := Parts(SERVICE, service, groupID, shardID) + segments;
    var base := ScopedTopic(Service, service, [], [], [], []);
    assert GID != SID;
    if groupID != [] {
      assert parts[2] == GID && parts[3] == groupID;
      if shardID != [] {
        assert parts[4] == SID && parts[5] == shardID;
      }
    } else if shardID != [] {
      assert parts[2] == SID && parts[3] == shardID;
    }
  }

  lemma ServiceParsed(service: Text, groupID: Text, shardID: Text, segments: seq<Text>)
    requires !HasEmptyPart(Parts(SERVICE, service, groupID, shardID) + segments)
    ensures ParseParts(Parts(SERVICE, service, groupID, shardID) + segments) ==
            ParseFrom(Parts(SERVICE, service, groupID, shardID) + segments, |Parts(SERVICE, service, groupID, shardID)|,
                      ScopedTopic(Service, service, [], groupID, shardID, []))
  {
    var front := Parts(SERVICE, service, groupID, shardID);
    assert front[0] == SERVICE && front[1] == service;
    ServiceBranch(front + segments, service);
    assert ParseFrom(front + segments, 2, ScopedTopic(Service, service, [], [], [], [])) ==
           ParseFrom(front + segments, |front|, ScopedTopic(Service, service, [], groupID, shardID, [])) by {
      KeysRead(service, groupID, shardID, segments);
    }
  }

  lemma ServiceBranch(parts: seq<Text>, service: Text)
    requires |parts| >= 2 && parts[0] == SERVICE && parts[1] == service && !HasEmptyPart(parts)
    ensures ParseParts(parts) == ParseFrom(parts, 2, ScopedTopic(Service, service, [], [], [], []))
  {
  }

  lemma ServiceParses(service: Text, groupID: Text, shardID: Text, name: Text)
    requires Part(service) && OptionalPart(groupID) && OptionalPart(shardID) && Name(name)
    ensures var front := Parts(SERVICE, service, groupID, shardID);
            Parse(Print(SERVICE, service, groupID, shardID, name)) ==
            ParseFrom(front + Segments(name), |front|, ScopedTopic(Service, service, [], groupID, shardID, []))
  {
    assert Part(SERVICE) by { KeysAreParts(); }
    PrintedParts(SERVICE, service, groupID, shardID, name);
    ServiceParsed(service, groupID, shardID, Segments(name));
  }

  predicate ServiceRoundTrips(service: Text, groupID: Text, shardID: Text, name: Text) {
    Parse(Print(SERVICE, service, groupID, shardID, name)) ==
      Some(ScopedTopic(Service, service, [], groupID, shardID, name))
  }

  lemma SegmentsRead(service: Text, groupID: Text, shardID: Text, name: Text)
    requires Name(name)
    ensures var front := Parts(SERVICE, service, groupID, shardID);
            var out := ScopedTopic(Service, service, [], groupID, shardID, []);
            ParseFrom(front + Segments(name), |front|, out) == Some(out.(name := name)) <==>
            name == [] || !IsKey(Split(name)[0])
  {
    var front := Parts(SERVICE, service, groupID, shardID);
    var parts := front + Segments(name);
    assert parts[|front|..] == Segments(name);
    JoinOfSegments(name);
    NotBlankIsNonEmpty(Segments(name));
    NameReadIff(parts, |front|, ScopedTopic(Service, service, [], groupID, shardID, []));
  }

  lemma ServiceRoundTrip(service: Text, groupID: Text, shardID: Text, name: Text)
    requires Part(service) && OptionalPart(groupID) && OptionalPart(shardID) && Name(name)
    requires name == [] || !IsKey(Split(name)[0])
    ensures ServiceRoundTrips(service, groupID, shardID, name)
  {
    ServiceParses(service, groupID, shardID, name);
    SegmentsRead(service, groupID, shardID, name);
  }

  lemma KeyIsMisread(service: Text, groupID: Text, shardID: Text, name: Text)
    requires Part(service) && OptionalPart(groupID) && OptionalPart(shardID) && Name(name)
    requires name != [] && IsKey(Split(name)[0])
    ensures !ServiceRoundTrips(service, groupID, shardID, name)
  {
    ServiceParses(service, groupID, shardID, name);
    SegmentsRead(service, groupID, shardID, name);
  }

  // Main result: a service topic is parsed back to its parts exactly when its
  // name does not start with one of the keys.
  lemma ServiceRoundTripIff(service: Text, groupID: Text, shardID: Text, name: Text)
    requires Part(service) && OptionalPart(groupID) && OptionalPart(shardID) && Name(name)
    ensures ServiceRoundTrips(service, groupID, shardID, name) <==> name == [] || !IsKey(Split(name)[0])
  {
    if name == [] || !IsKey(Split(name)[0]) {
      ServiceRoundTrip(service, groupID, shardID, name);
    } else {
      KeyIsMisread(service, groupID, shardID, name);
    }
  }

  lemma NotBlankIsNonEmpty(parts: seq<Text>)
    requires Each(parts, NotBlank)
    ensures Each(parts, NonEmpty)
  {
    forall i | 0 <= i < |parts| ensures NonEmpty(parts[i]) {
      assert NotBlank(parts[i]);
    }
  }
}
