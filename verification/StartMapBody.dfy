// The body of an op29 packet, as ParseEvidenceBackedDungeonStartMapBody accepts
// it (client-patch/90CN.cpp).
module StartMapBody {
  import opened Arithmetic
  import opened Bytes
  import opened Sequences
  import opened Text
  import opened Wrappers

  const HEAD := 18
  const ACTOR_ROW := 21
  const RIDE_ROW := 20

  datatype Room = Room(x: byte, y: byte, layer: byte, mapID: nat)

  // ---- The grammar ----

  // Eighteen fixed bytes, two counted tables of 21-byte rows, a byte, a counted
  // list of counted tables of 20-byte rows, and a last byte.
  datatype Body = Body(head: Text, actors: Text, extras: Text, fog: byte, groups: seq<Text>, member: byte)

  predicate Table(rows: Text, width: nat)
    requires width > 0
  {
    |rows| % width == 0 && |rows| / width <= 255
  }

  function Counted(rows: Text, width: nat): (b: Text)
    requires width > 0 && Table(rows, width)
    ensures |b| == 1 + |rows|
  {
    [|rows| / width] + rows
  }

  predicate RideTable(rows: Text) {
    Table(rows, 20)
  }

  predicate WellFormed(b: Body) {
    && |b.head| == 18 && b.head[2] <= 1 && b.head[13] <= 1 && FromLE(b.head[14..18]) != 0
    && Table(b.actors, 21) && Table(b.extras, 21)
    && |b.groups| <= 255 && AllFrom(b.groups, RideTable, 0)
  }

  function GroupBytes(groups: seq<Text>): Text
    requires AllFrom(groups, RideTable, 0)
  {
    if groups == [] then []
    else
      AllFromTail(groups, RideTable);
      Counted(groups[0], 20) + GroupBytes(groups[1..])
  }

  function Serialise(b: Body): Text
    requires WellFormed(b)
  {
    b.head + (Counted(b.actors, 21) + (Counted(b.extras, 21)
    + ([b.fog, |b.groups|] + (GroupBytes(b.groups) + [b.member]))))
  }

  function RoomOf(b: Body): Room
    requires WellFormed(b)
  {
    Room(b.head[0], b.head[1], b.head[2], FromLE(b.head[14..18]))
  }

  // ---- The parser ----

  // Where the counted table at an offset ends.
  function TableEnd(body: Text, offset: nat, width: nat): (r: Option<nat>)
    requires width > 0
    ensures r.Some? ==> offset < r.value <= |body|
  {
    if offset >= |body| then None
    else
      var count: int := body[offset];
      if count > (|body| - offset - 1) / width then None
      else
        CountFits(count, width, |body| - offset - 1);
        Some(offset + 1 + count * width)
  }

  lemma CountFits(count: nat, width: nat, left: nat)
    requires width > 0
    ensures count <= left / width <==> count * width <= left
  {
    assert left == width * (left / width) + left % width;
    if count <= left / width {
      MulMonotone(count, left / width, width);
    } else {
      MulMonotone(left / width + 1, count, width);
    }
  }

  function GroupsEnd(body: Text, offset: nat, count: nat): (r: Option<nat>)
    requires offset <= |body|
    ensures r.Some? ==> offset <= r.value <= |body|
    decreases count
  {
    if count == 0 then Some(offset)
    else match TableEnd(body, offset, RIDE_ROW)
      case None => None
      case Some(next) => GroupsEnd(body, next, count - 1)
  }

  // The parser without its first checks: the tables and the length.
  function TablesFit(body: Text): bool {
    match TableEnd(body, HEAD, ACTOR_ROW)
    case None => false
    case Some(extra) =>
      match TableEnd(body, extra, ACTOR_ROW)
      case None => false
      case Some(fog) =>
        |body| - fog >= 2 &&
        match GroupsEnd(body, fog + 2, body[fog + 1])
        case None => false
        case Some(end) => |body| - end == 1
  }

  function Parse(body: Text, requireInitial: bool): Option<Room> {
    if |body| < 23 || body[2] > 1 || body[13] > 1 || (requireInitial && body[13] != 1) then None
    else if FromLE(body[14..18]) == 0 then None
    else if !TablesFit(body) then None
    else Some(Room(body[0], body[1], body[2], FromLE(body[14..18])))
  }

  method ParseStartMapBody(body: Text, requireInitial: bool) returns (room: Option<Room>)
    ensures room == Parse(body, requireInitial)
  {
    if |body| < 23 || body[2] > 1 || body[13] > 1 || (requireInitial && body[13] != 1) { return None; }
    var mapID := FromLE(body[14..18]);
    if mapID == 0 { return None; }
    var fits := CheckTables(body);
    if !fits { return None; }
    room := Some(Room(body[0], body[1], body[2], mapID));
  }

  method CheckTables(body: Text) returns (fits: bool)
    requires |body| >= 23
    ensures fits == TablesFit(body)
  {
    var offset := 19;
    var actorCount: int := body[18];
    if actorCount > (|body| - offset) / 21 { return false; }
    CountFits(actorCount, 21, |body| - offset);
    offset := offset + actorCount * 21;
    assert TableEnd(body, HEAD, ACTOR_ROW) == Some(offset);

    if offset >= |body| { return false; }
    ghost var at := offset;
    var extraCount: int := body[offset];
    offset := offset + 1;
    if extraCount > (|body| - offset) / 21 { return false; }
    CountFits(extraCount, 21, |body| - offset);
    offset := offset + extraCount * 21;
    assert TableEnd(body, at, ACTOR_ROW) == Some(offset);

    if |body| - offset < 2 { return false; }
    offset := offset + 1;
    var groupCount: int := body[offset];
    offset := offset + 1;
    var end := SkipGroups(body, offset, groupCount);
    if end.None? { return false; }
    fits := |body| - end.value == 1;
  }

  method SkipGroups(body: Text, start: nat, groupCount: nat) returns (end: Option<nat>)
    requires start <= |body|
    ensures end == GroupsEnd(body, start, groupCount)
  {
    var offset := start;
    for group := 0 to groupCount
      invariant start <= offset <= |body|
      invariant GroupsEnd(body, start, groupCount) == GroupsEnd(body, offset, groupCount - group)
    {
      if offset >= |body| { return None; }
      var entryCount: int := body[offset];
      if entryCount > (|body| - (offset + 1)) / 20 { return None; }
      CountFits(entryCount, 20, |body| - offset - 1);
      offset := offset + 1 + entryCount * 20;
    }
    end := Some(offset);
  }

  // ---- The parser accepts exactly the grammar ----

  lemma WholeQuotient(n: nat, width: nat)
    requires width > 0 && n % width == 0
    ensures n / width * width == n
  {
  }

  lemma TableSound(body: Text, offset: nat, width: nat)
    requires width > 0 && TableEnd(body, offset, width).Some?
    ensures var rows := body[offset + 1..TableEnd(body, offset, width).value];
            Table(rows, width) && body[offset..TableEnd(body, offset, width).value] == Counted(rows, width)
  {
    ExactQuotient(body[offset], width);
  }

  lemma TableComplete(pre: Text, rows: Text, width: nat, rest: Text)
    requires width > 0 && Table(rows, width)
    ensures TableEnd(pre + (Counted(rows, width) + rest), |pre|, width) == Some(|pre| + 1 + |rows|)
  {
    var body := pre + (Counted(rows, width) + rest);
    assert body[|pre|] == |rows| / width;
    WholeQuotient(|rows|, width);
    CountFits(|rows| / width, width, |body| - |pre| - 1);
  }

  lemma {:induction false} GroupsSound(body: Text, offset: nat, count: nat) returns (groups: seq<Text>)
    requires offset <= |body| && GroupsEnd(body, offset, count).Some?
    ensures |groups| == count && AllFrom(groups, RideTable, 0)
    ensures GroupBytes(groups) == body[offset..GroupsEnd(body, offset, count).value]
    decreases count
  {
    if count == 0 {
      groups := [];
    } else {
      var next := TableEnd(body, offset, RIDE_ROW).value;
      TableSound(body, offset, RIDE_ROW);
      var rows := body[offset + 1..next];
      var more := GroupsSound(body, next, count - 1);
      groups := [rows] + more;
      AllFromCons(rows, more, RideTable);
      assert groups[1..] == more;
    }
  }

  lemma AllFromCons(x: Text, xs: seq<Text>, p: Text -> bool)
    requires p(x) && AllFrom(xs, p, 0)
    ensures AllFrom([x] + xs, p, 0)
  {
    AllFromMeans(xs, p, 0);
    AllFromMeans([x] + xs, p, 0);
  }

  lemma Regroup(a: Text, b: Text, c: Text, d: Text)
    ensures a + ((b + c) + d) == a + (b + (c + d)) == (a + b) + (c + d)
  {
  }

  lemma {:induction false} GroupsComplete(pre: Text, groups: seq<Text>, rest: Text)
    requires AllFrom(groups, RideTable, 0)
    ensures GroupsEnd(pre + (GroupBytes(groups) + rest), |pre|, |groups|) == Some(|pre| + |GroupBytes(groups)|)
    decreases |groups|
  {
    if groups != [] {
      AllFromTail(groups, RideTable);
      var first, more := Counted(groups[0], RIDE_ROW), GroupBytes(groups[1..]);
      TableComplete(pre, groups[0], RIDE_ROW, more + rest);
      GroupsComplete(pre + first, groups[1..], rest);
      Regroup(pre, first, more, rest);
    }
  }

  // A well-formed body parses to its room, unless an initial room is required
  // and this is not one.
  lemma ParsesSerialised(b: Body, requireInitial: bool)
    requires WellFormed(b)
    ensures Parse(Serialise(b), requireInitial) ==
            if requireInitial && b.head[13] != 1 then None else Some(RoomOf(b))
  {
    var s := Serialise(b);
    assert s[14..18] == b.head[14..18];
    SerialisedTablesFit(b);
  }

  lemma SerialisedTablesFit(b: Body)
    requires WellFormed(b)
    ensures |Serialise(b)| >= 23 && TablesFit(Serialise(b))
  {
    var s := Serialise(b);
    var ride := [b.fog, |b.groups|] + (GroupBytes(b.groups) + [b.member]);
    var actors, extras := Counted(b.actors, ACTOR_ROW), Counted(b.extras, ACTOR_ROW);
    TableComplete(b.head, b.actors, ACTOR_ROW, extras + ride);
    var pre := b.head + actors;
    assert s == pre + (extras + ride);
    TableComplete(pre, b.extras, ACTOR_ROW, ride);
    var pre2 := pre + extras;
    assert s == pre2 + ride;
    assert s[|pre2| + 1] == |b.groups|;
    var pre3 := pre2 + [b.fog, |b.groups|];
    assert s == pre3 + (GroupBytes(b.groups) + [b.member]);
    GroupsComplete(pre3, b.groups, [b.member]);
  }

  lemma Cut(s: Text, i: nat, j: nat, k: nat, l: nat, m: nat)
    requires i <= j <= k <= l <= m <= |s|
    ensures s == s[..i] + (s[i..j] + (s[j..k] + (s[k..l] + (s[l..m] + s[m..]))))
  {
  }

  // A body from its pieces.
  lemma Assembled(body: Text, extra: nat, fog: nat, end: nat, groups: seq<Text>) returns (b: Body)
    requires HEAD < extra < fog && fog + 2 <= end && end + 1 == |body|
    requires body[2] <= 1 && body[13] <= 1 && FromLE(body[14..18]) != 0
    requires Table(body[HEAD + 1..extra], ACTOR_ROW) && body[HEAD..extra] == Counted(body[HEAD + 1..extra], ACTOR_ROW)
    requires Table(body[extra + 1..fog], ACTOR_ROW) && body[extra..fog] == Counted(body[extra + 1..fog], ACTOR_ROW)
    requires |groups| == body[fog + 1] && AllFrom(groups, RideTable, 0) && GroupBytes(groups) == body[fog + 2..end]
    ensures WellFormed(b) && Serialise(b) == body && b.head == body[..HEAD]
  {
    assert body[..HEAD][14..18] == body[14..18];
    b := Body(body[..HEAD], body[HEAD + 1..extra], body[extra + 1..fog], body[fog], groups, body[end]);
    Cut(body, HEAD, extra, fog, fog + 2, end);
    assert body[fog..fog + 2] == [b.fog, |b.groups|] && body[end..] == [b.member];
  }

  // What the tables are when they fit.
  lemma FittingTables(body: Text) returns (b: Body)
    requires |body| >= 23 && TablesFit(body) && body[2] <= 1 && body[13] <= 1 && FromLE(body[14..18]) != 0
    ensures WellFormed(b) && Serialise(b) == body && b.head == body[..HEAD]
  {
    var extra := TableEnd(body, HEAD, ACTOR_ROW).value;
    var fog := TableEnd(body, extra, ACTOR_ROW).value;
    var end := GroupsEnd(body, fog + 2, body[fog + 1]).value;
    TableSound(body, HEAD, ACTOR_ROW);
    TableSound(body, extra, ACTOR_ROW);
    var groups := GroupsSound(body, fog + 2, body[fog + 1]);
    b := Assembled(body, extra, fog, end, groups);
  }

  // Main result: a body is accepted exactly when it is the serialisation of a
  // well-formed one.
  lemma AcceptedIff(body: Text, requireInitial: bool)
    ensures Parse(body, requireInitial).Some? <==>
              exists b :: WellFormed(b) && (requireInitial ==> b.head[13] == 1) && Serialise(b) == body
  {
    if Parse(body, requireInitial).Some? {
      var b := FittingTables(body);
      assert b.head[13] == body[13];
    }
    forall b | WellFormed(b) && (requireInitial ==> b.head[13] == 1) && Serialise(b) == body
      ensures Parse(body, requireInitial).Some?
    {
      ParsesSerialised(b, requireInitial);
    }
  }

  lemma CountedInjective(a: Text, b: Text, width: nat, x: Text, y: Text)
    requires width > 0 && Table(a, width) && Table(b, width) && Counted(a, width) + x == Counted(b, width) + y
    ensures a == b && x == y
  {
    var l, r := Counted(a, width) + x, Counted(b, width) + y;
    assert l[0] == |a| / width && r[0] == |b| / width;
    WholeQuotient(|a|, width);
    WholeQuotient(|b|, width);
    assert l[1..1 + |a|] == a && r[1..1 + |b|] == b && l[1 + |a|..] == x && r[1 + |b|..] == y;
  }

  lemma {:induction false} GroupBytesInjective(a: seq<Text>, b: seq<Text>, x: Text, y: Text)
    requires AllFrom(a, RideTable, 0) && AllFrom(b, RideTable, 0) && |a| == |b|
    requires GroupBytes(a) + x == GroupBytes(b) + y
    ensures a == b && x == y
    decreases |a|
  {
    if a == [] {
      assert GroupBytes(a) + x == x && GroupBytes(b) + y == y;
    } else {
      AllFromTail(a, RideTable);
      AllFromTail(b, RideTable);
      var la, lb := GroupBytes(a[1..]) + x, GroupBytes(b[1..]) + y;
      assert GroupBytes(a) + x == Counted(a[0], RIDE_ROW) + la;
      assert GroupBytes(b) + y == Counted(b[0], RIDE_ROW) + lb;
      CountedInjective(a[0], b[0], RIDE_ROW, la, lb);
      GroupBytesInjective(a[1..], b[1..], x, y);
      assert a == [a[0]] + a[1..] && b == [b[0]] + b[1..];
    }
  }

  // ... and of only one.
  lemma SerialiseInjective(a: Body, b: Body)
    requires WellFormed(a) && WellFormed(b) && Serialise(a) == Serialise(b)
    ensures a == b
  {
    var ra := [a.fog, |a.groups|] + (GroupBytes(a.groups) + [a.member]);
    var rb := [b.fog, |b.groups|] + (GroupBytes(b.groups) + [b.member]);
    var sa, sb := Serialise(a), Serialise(b);
    assert sa[..HEAD] == a.head && sb[..HEAD] == b.head;
    assert sa[HEAD..] == Counted(a.actors, ACTOR_ROW) + (Counted(a.extras, ACTOR_ROW) + ra);
    assert sb[HEAD..] == Counted(b.actors, ACTOR_ROW) + (Counted(b.extras, ACTOR_ROW) + rb);
    CountedInjective(a.actors, b.actors, ACTOR_ROW,
                     Counted(a.extras, ACTOR_ROW) + ra, Counted(b.extras, ACTOR_ROW) + rb);
    CountedInjective(a.extras, b.extras, ACTOR_ROW, ra, rb);
    assert ra[0] == a.fog && rb[0] == b.fog && ra[1] == |a.groups| && rb[1] == |b.groups|;
    assert ra[2..] == GroupBytes(a.groups) + [a.member] && rb[2..] == GroupBytes(b.groups) + [b.member];
    GroupBytesInjective(a.groups, b.groups, [a.member], [b.member]);
  }
}
