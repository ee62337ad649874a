// Room changes and leaves, read off the packets before them
// (client-patch/90CN.cpp: UpdateLuaDungeonEntryStateAfterDispatch,
// QueueLuaEnterTownEventIfAccepted).
module DungeonRooms {
  import opened Bytes
  import opened DungeonLifecycle
  import opened StartMapBody
  import opened Text
  import opened Wrappers

  // ---- The room before a packet ----

  predicate ReadableAt(ps: seq<Packet>, k: nat)
    requires k < |ps|
  {
    StartMapOf(ps[k], false).Some?
  }

  ghost predicate NoneReadable(ps: seq<Packet>, k: nat, j: nat)
    requires j <= |ps|
  {
    forall m :: k < m < j ==> !ReadableAt(ps, m)
  }

  ghost predicate NoReset(ps: seq<Packet>, i: nat, j: nat)
    requires j <= |ps|
  {
    forall k :: i < k < j ==> !ResetsAt(ps, k)
  }

  // The room of the last readable op29 since the enter at i, and of the first
  // one, b, while there was none.  An op29 between b and i does not count.
  ghost predicate LastRoom(ps: seq<Packet>, b: nat, i: nat, j: nat, k: nat, room: Room)
    requires b < i < j <= |ps|
  {
    NoneReadable(ps, k, j) &&
    if k == i then StartMapOf(ps[b], true) == Some(room) else i < k < j && StartMapOf(ps[k], false) == Some(room)
  }

  // Where a visit is before packet j: begun by the op28 at a, its first op29 at
  // b and the op3 at i, now in this room.
  ghost predicate Visiting(ps: seq<Packet>, a: nat, b: nat, i: nat, j: nat, room: Room)
    requires j <= |ps|
  {
    && i < j && Roomed(ps, a, b, i) && UserAt(ps, i) && NoReset(ps, i, j)
    && exists k :: LastRoom(ps, b, i, j, k, room)
  }

  function VisitLife(info: Packet, room: Room): Life
    requires InfoOf(info).Some?
  {
    Life(Active, InfoOf(info).value, info.body.value[8], info.body.value[9], Some(room))
  }

  lemma VisitNext(ps: seq<Packet>, a: nat, b: nat, i: nat, j: nat, room: Room)
    requires j < |ps| && Visiting(ps, a, b, i, j, room) && !ResetsAt(ps, j)
    ensures Visiting(ps, a, b, i, j + 1, if ReadableAt(ps, j) then StartMapOf(ps[j], false).value else room)
  {
    if ReadableAt(ps, j) {
      assert LastRoom(ps, b, i, j + 1, j, StartMapOf(ps[j], false).value);
    } else {
      var k :| LastRoom(ps, b, i, j, k, room);
      assert LastRoom(ps, b, i, j + 1, k, room);
    }
  }

  lemma VisitBegins(ps: seq<Packet>, a: nat, b: nat, i: nat)
    requires i < |ps| && Roomed(ps, a, b, i) && UserAt(ps, i)
    ensures RoomAt(ps, b) && Visiting(ps, a, b, i, i + 1, StartMapOf(ps[b], true).value)
  {
    assert LastRoom(ps, b, i, i + 1, i, StartMapOf(ps[b], true).value);
  }

  // An active dungeon keeps its op28 and takes the room of every readable op29.
  lemma ActiveStep(info: Packet, room: Room, p: Packet)
    requires InfoOf(info).Some? && InfoOf(p).None? && !TownAccepted(p)
    ensures Step(VisitLife(info, room), p).0 ==
            VisitLife(info, if StartMapOf(p, false).Some? then StartMapOf(p, false).value else room)
  {
  }

  lemma LastRoomBefore(ps: seq<Packet>, b: nat, i: nat, j: nat, k: nat, room: Room)
    requires b < i < j < |ps| && LastRoom(ps, b, i, j + 1, k, room)
    ensures if ReadableAt(ps, j) then StartMapOf(ps[j], false) == Some(room) else LastRoom(ps, b, i, j, k, room)
  {
  }

  lemma FirstState(ps: seq<Packet>, a: nat, b: nat, i: nat)
    requires i < |ps| && Roomed(ps, a, b, i) && UserAt(ps, i)
    ensures InfoAt(ps, a) && RoomAt(ps, b)
    ensures StateAfter(ps[..i + 1]) == VisitLife(ps[a], StartMapOf(ps[b], true).value)
  {
    RoomedState(ps, a, b, i);
    StateAfterNext(ps, i);
    assert RoomAt(ps, b);
  }

  lemma NextState(ps: seq<Packet>, info: Packet, j: nat, before: Room)
    requires j < |ps| && !ResetsAt(ps, j) && InfoOf(info).Some? && StateAfter(ps[..j]) == VisitLife(info, before)
    ensures StateAfter(ps[..j + 1]) ==
            VisitLife(info, if ReadableAt(ps, j) then StartMapOf(ps[j], false).value else before)
  {
    StateAfterNext(ps, j);
    ActiveStep(info, before, ps[j]);
  }

  lemma FirstRoom(ps: seq<Packet>, a: nat, b: nat, i: nat, room: Room)
    requires i < |ps| && Visiting(ps, a, b, i, i + 1, room)
    ensures StartMapOf(ps[b], true) == Some(room)
  {
    var k: nat :| LastRoom(ps, b, i, i + 1, k, room);
  }

  lemma {:induction false} VisitState(ps: seq<Packet>, a: nat, b: nat, i: nat, j: nat, room: Room)
    requires j <= |ps| && Visiting(ps, a, b, i, j, room)
    ensures InfoAt(ps, a) && StateAfter(ps[..j]) == VisitLife(ps[a], room)
    decreases j
  {
    if j == i + 1 {
      FirstState(ps, a, b, i);
      FirstRoom(ps, a, b, i, room);
    } else {
      var before := RoomBefore(ps, a, b, i, j, room);
      VisitState(ps, a, b, i, j - 1, before);
      assert !ResetsAt(ps, j - 1);
      NextState(ps, ps[a], j - 1, before);
    }
  }

  // The room one packet earlier.
  lemma {:induction false} RoomBefore(ps: seq<Packet>, a: nat, b: nat, i: nat, j: nat, room: Room)
    returns (before: Room)
    requires i + 1 < j <= |ps| && Visiting(ps, a, b, i, j, room)
    ensures Visiting(ps, a, b, i, j - 1, before)
    ensures room == if ReadableAt(ps, j - 1) then StartMapOf(ps[j - 1], false).value else before
    decreases j
  {
    var k: nat :| LastRoom(ps, b, i, j, k, room);
    LastRoomBefore(ps, b, i, j - 1, k, room);
    if ReadableAt(ps, j - 1) {
      before := SomeRoom(ps, a, b, i, j - 1);
    } else {
      before := room;
    }
  }

  // Every visit has a room.
  lemma {:induction false} SomeRoom(ps: seq<Packet>, a: nat, b: nat, i: nat, j: nat) returns (room: Room)
    requires i < j <= |ps| && Roomed(ps, a, b, i) && UserAt(ps, i) && NoReset(ps, i, j)
    ensures Visiting(ps, a, b, i, j, room)
    decreases j
  {
    if j == i + 1 {
      VisitBegins(ps, a, b, i);
      room := StartMapOf(ps[b], true).value;
    } else {
      room := SomeRoom(ps, a, b, i, j - 1);
      assert !ResetsAt(ps, j - 1);
      VisitNext(ps, a, b, i, j - 1, room);
      room := if ReadableAt(ps, j - 1) then StartMapOf(ps[j - 1], false).value else room;
    }
  }

  // ---- Every active dungeon is such a visit ----

  ghost predicate Visited(ps: seq<Packet>, j: nat)
    requires j <= |ps|
  {
    exists a, b, i, room :: Visiting(ps, a, b, i, j, room)
  }

  lemma ActiveBefore(l: Life, p: Packet)
    requires Step(l, p).0.stage == Active
    ensures (l.stage == AwaitUserState && UserState(p)) || l.stage == Active
    ensures InfoOf(p).None? && !TownAccepted(p)
  {
  }

  lemma VisitGoesOn(ps: seq<Packet>, j: nat)
    requires j < |ps| && Visited(ps, j) && !ResetsAt(ps, j)
    ensures Visited(ps, j + 1)
  {
    var a: nat, b: nat, i: nat, room :| Visiting(ps, a, b, i, j, room);
    VisitNext(ps, a, b, i, j, room);
  }

  lemma VisitOpens(ps: seq<Packet>, j: nat)
    requires j < |ps| && StateAfter(ps[..j]).stage == AwaitUserState && UserAt(ps, j)
    ensures Visited(ps, j + 1)
  {
    AllTraced(ps, j);
    var a: nat, b: nat :| Roomed(ps, a, b, j);
    VisitBegins(ps, a, b, j);
  }

  lemma FreshStart(ps: seq<Packet>)
    ensures StateAfter(ps[..0]) == FRESH
  {
    assert ps[..0] == [];
  }

  lemma {:induction false} ActiveIsVisit(ps: seq<Packet>, j: nat)
    requires j <= |ps| && StateAfter(ps[..j]).stage == Active
    ensures Visited(ps, j)
    decreases j
  {
    if j == 0 {
      FreshStart(ps);
    } else {
      var l := StateAfter(ps[..j - 1]);
      StateAfterNext(ps, j - 1);
      ActiveBefore(l, ps[j - 1]);
      if l.stage == Active {
        ActiveIsVisit(ps, j - 1);
        VisitGoesOn(ps, j - 1);
      } else {
        VisitOpens(ps, j - 1);
      }
    }
  }

  // ---- What is published ----

  lemma StepChangesRoom(l: Life, p: Packet, c: Context)
    ensures RoomChanged(c) in Step(l, p).1 <==>
              && l.stage == Active && StartMapOf(p, false).Some? && StartMapOf(p, false) != l.room
              && c == ContextOf(l.(room := StartMapOf(p, false)), l.room)
    ensures RoomChanged(c) in Step(l, p).1 ==> Step(l, p).1 == [RoomChanged(c)]
  {
    if l.stage == Active && StartMapOf(p, false).Some? && StartMapOf(p, false) != l.room {
      assert Step(l, p).1 == [RoomChanged(ContextOf(l.(room := StartMapOf(p, false)), l.room))];
    }
  }

  lemma StepLeaves(l: Life, p: Packet, c: Context)
    ensures LeaveDungeon(c) in Step(l, p).1 <==> l.stage == Active && TownAccepted(p) && c == ContextOf(l, None)
  {
    if l.stage == Active && TownAccepted(p) {
      assert Step(l, p).1 == [LeaveDungeon(ContextOf(l, None)), EnterTown];
    }
  }

  // The room change that packet j makes of a visit.
  ghost predicate ChangesWith(ps: seq<Packet>, a: nat, b: nat, i: nat, j: nat, previous: Room, c: Context)
    requires j < |ps|
  {
    && Visiting(ps, a, b, i, j, previous) && ReadableAt(ps, j) && StartMapOf(ps[j], false).value != previous
    && InfoOf(ps[a]).Some? && c == RoomContext(ps[a], StartMapOf(ps[j], false).value, Some(previous))
  }

  ghost predicate LeavesWith(ps: seq<Packet>, a: nat, b: nat, i: nat, j: nat, room: Room, c: Context)
    requires j < |ps|
  {
    Visiting(ps, a, b, i, j, room) && InfoOf(ps[a]).Some? && c == RoomContext(ps[a], room, None)
  }

  // Main result: over every packet sequence a room change is published exactly
  // for a readable op29 inside a visit whose room is another than the one the
  // visit is in; it carries the visit's dungeon, the new room and that one.
  lemma RoomChangedIff(ps: seq<Packet>, j: nat, c: Context)
    requires j < |ps|
    ensures RoomChanged(c) in EventsAt(ps, j) <==> exists a, b, i, previous :: ChangesWith(ps, a, b, i, j, previous, c)
    ensures RoomChanged(c) in EventsAt(ps, j) ==> EventsAt(ps, j) == [RoomChanged(c)]
  {
    var l := StateAfter(ps[..j]);
    StepChangesRoom(l, ps[j], c);
    forall a: nat, b: nat, i: nat, previous | ChangesWith(ps, a, b, i, j, previous, c)
      ensures RoomChanged(c) in EventsAt(ps, j)
    {
      VisitState(ps, a, b, i, j, previous);
    }
    if RoomChanged(c) in EventsAt(ps, j) {
      ActiveIsVisit(ps, j);
      var a: nat, b: nat, i: nat, previous :| Visiting(ps, a, b, i, j, previous);
      VisitState(ps, a, b, i, j, previous);
      assert ChangesWith(ps, a, b, i, j, previous, c);
    }
  }

  // Main result: a leave is published exactly for an accepted town packet inside
  // a visit, and carries the visit's dungeon and its last room.
  lemma LeavesIff(ps: seq<Packet>, j: nat, c: Context)
    requires j < |ps|
    ensures LeaveDungeon(c) in EventsAt(ps, j) <==>
              TownAccepted(ps[j]) && exists a, b, i, room :: LeavesWith(ps, a, b, i, j, room, c)
  {
    var l := StateAfter(ps[..j]);
    StepLeaves(l, ps[j], c);
    forall a: nat, b: nat, i: nat, room | LeavesWith(ps, a, b, i, j, room, c)
      ensures l.stage == Active && c == ContextOf(l, None)
    {
      VisitState(ps, a, b, i, j, room);
    }
    if LeaveDungeon(c) in EventsAt(ps, j) {
      ActiveIsVisit(ps, j);
      var a: nat, b: nat, i: nat, room :| Visiting(ps, a, b, i, j, room);
      VisitState(ps, a, b, i, j, room);
      assert LeavesWith(ps, a, b, i, j, room, c);
    }
  }

  // An enter-town is published exactly for an accepted town packet.
  lemma TownIff(ps: seq<Packet>, j: nat)
    requires j < |ps|
    ensures EnterTown in EventsAt(ps, j) <==> TownAccepted(ps[j])
  {
    if TownAccepted(ps[j]) { LeaveIff(ps, j); }
  }

  // ---- The packets that count ----

  // op28: a dungeon id, which is not zero, and at least 32 bytes behind it.
  lemma InfoIff(p: Packet, id: nat)
    ensures InfoOf(p) == Some(id) <==>
              && p.opcode == 28 && 0 < id < TWO32
              && exists rest :: p.body == Some(LE(id, 4) + rest) && |rest| >= 32
  {
    Pow256Values();
    if InfoOf(p) == Some(id) {
      var body := p.body.value;
      FromLEBound(body[..4]);
      LEOfFromLE(body[..4]);
      assert body == LE(id, 4) + body[4..];
    }
    forall rest | p.body == Some(LE(id, 4) + rest) && 0 < id < TWO32 ensures FromLE(p.body.value[..4]) == id {
      assert (LE(id, 4) + rest)[..4] == LE(id, 4);
      FromLEOfLE(id, 4);
    }
  }

  lemma ZeroBytes(lo: byte, hi: byte)
    ensures FromLE([lo, hi]) == 0 <==> lo == 0 && hi == 0
  {
    assert [lo, hi][1..] == [hi] && [hi][1..] == [];
    assert FromLE([hi]) == hi;
  }

  // op3: a one, an object key that is not zero, and another one.
  lemma UserStateIff(p: Packet)
    ensures UserState(p) <==>
              && p.opcode == 3 && p.selected
              && exists lo: byte, hi: byte :: p.body == Some([1, lo, hi, 1]) && !(lo == 0 && hi == 0)
  {
    if p.body.Some? && |p.body.value| == 4 {
      var body := p.body.value;
      assert body == [body[0], body[1], body[2], body[3]] && body[1..3] == [body[1], body[2]];
      ZeroBytes(body[1], body[2]);
    }
  }

  // Two bytes, a count, that many rows of eight bytes and anything behind them;
  // the object key of the last row is not zero.
  predicate TownRows(body: Text, head: Text, count: nat, rows: Text, tail: Text) {
    && |head| == 2 && 0 < count < 0x1_0000 && |rows| == 8 * count
    && body == head + LE(count, 2) + rows + tail
    && !(rows[8 * count - 8] == 0 && rows[8 * count - 7] == 0)
  }

  lemma TownSlices(head: Text, size: Text, rows: Text, tail: Text, at: nat)
    requires |head| == |size| == 2 && at + 2 <= |rows|
    ensures var body := head + size + rows + tail;
            body[2..4] == size && body[4 + at..4 + at + 2] == [rows[at], rows[at + 1]]
  {
  }

  lemma TownRowsAccepted(body: Text, head: Text, count: nat, rows: Text, tail: Text)
    requires TownRows(body, head, count, rows, tail)
    ensures |body| >= 4 && FromLE(body[2..4]) == count && count <= (|body| - 4) / 8
    ensures FromLE(body[4 + (count - 1) * 8..4 + (count - 1) * 8 + 2]) != 0
  {
    TownSlices(head, LE(count, 2), rows, tail, 8 * count - 8);
    Pow256Values();
    FromLEOfLE(count, 2);
    ZeroBytes(rows[8 * count - 8], rows[8 * count - 7]);
  }

  lemma AcceptedTownRows(body: Text) returns (count: nat, rows: Text, tail: Text)
    requires |body| >= 4 && 0 < FromLE(body[2..4]) <= (|body| - 4) / 8
    requires var at := 4 + (FromLE(body[2..4]) - 1) * 8; FromLE(body[at..at + 2]) != 0
    ensures TownRows(body, body[..2], count, rows, tail)
  {
    count := FromLE(body[2..4]);
    FromLEBound(body[2..4]);
    Pow256Values();
    LEOfFromLE(body[2..4]);
    rows, tail := body[4..4 + 8 * count], body[4 + 8 * count..];
    var at := 8 * count - 8;
    assert body[4 + at..4 + at + 2] == [rows[at], rows[at + 1]];
    ZeroBytes(rows[at], rows[at + 1]);
    assert body == body[..2] + body[2..4] + rows + tail;
  }

  lemma TownAcceptedIff(p: Packet)
    ensures TownAccepted(p) <==>
              && p.opcode == 24 && !p.refused && p.selected && p.body.Some?
              && exists head, count, rows, tail :: TownRows(p.body.value, head, count, rows, tail)
  {
    if TownAccepted(p) { var count, rows, tail := AcceptedTownRows(p.body.value); }
    if p.body.Some? {
      forall head, count: nat, rows, tail | TownRows(p.body.value, head, count, rows, tail)
        ensures p.opcode == 24 && !p.refused && p.selected ==> TownAccepted(p)
      {
        TownRowsAccepted(p.body.value, head, count, rows, tail);
      }
    }
  }

  // op29: a well-formed body, whose first three bytes and map id are the room;
  // for a first room its flag is set.
  ghost predicate ShowsRoom(p: Packet, initial: bool, b: Body, room: Room) {
    && WellFormed(b) && p.body == Some(Serialise(b)) && (initial ==> b.head[13] == 1)
    && room == Room(b.head[0], b.head[1], b.head[2], FromLE(b.head[14..18]))
  }

  lemma StartMapIff(p: Packet, initial: bool, room: Room)
    ensures StartMapOf(p, initial) == Some(room) <==> p.opcode == 29 && exists b :: ShowsRoom(p, initial, b, room)
  {
    forall b | ShowsRoom(p, initial, b, room) ensures Parse(p.body.value, initial) == Some(room) {
      ParsesSerialised(b, initial);
    }
    if StartMapOf(p, initial) == Some(room) {
      AcceptedIff(p.body.value, initial);
      var b :| WellFormed(b) && (initial ==> b.head[13] == 1) && Serialise(b) == p.body.value;
      ParsesSerialised(b, initial);
      assert ShowsRoom(p, initial, b, room);
    }
  }
}
