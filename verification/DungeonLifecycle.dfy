// The dungeon lifecycle events, as a state machine over packets
// (client-patch/90CN.cpp: UpdateLuaDungeonEntryStateAfterDispatch,
// QueueLuaEnterTownEventIfAccepted, BuildLuaDungeonClientEventContext).
module DungeonLifecycle {
  import opened Bytes
  import opened StartMapBody
  import opened Text
  import opened Wrappers

  const OP_USER_STATE := 3
  const OP_TOWN := 24
  const OP_DUNGEON_INFO := 28
  const OP_START_MAP := 29

  datatype Stage = Idle | AwaitStartMap | AwaitUserState | Active

  // room is None while it is not known.
  datatype Life = Life(stage: Stage, dungeonID: nat, bossX: byte, bossY: byte, room: Option<Room>)

  const FRESH := Life(Idle, 0, 0, 0, None)

  datatype Context = Context(dungeonID: Option<nat>, room: Option<Room>, boss: bool, previous: Option<Room>)

  datatype Event =
    | EnterDungeon(context: Context)
    | RoomChanged(context: Context)
    | LeaveDungeon(context: Context)
    | EnterTown

  // A dispatched packet.  body is None when the packet is too short to have
  // one.  `selected`: the object key in the body is that of the current actor.
  // `refused`: the client's own town handling returned early.
  datatype Packet = Packet(opcode: nat, body: Option<Text>, selected: bool, refused: bool)

  function ContextOf(l: Life, previous: Option<Room>): Context {
    Context(if l.dungeonID != 0 then Some(l.dungeonID) else None, l.room,
            l.room.Some? && l.room.value.x == l.bossX && l.room.value.y == l.bossY, previous)
  }

  // ---- The packets that count ----

  // op28: what dungeon, if it is one.
  function InfoOf(p: Packet): Option<nat> {
    if p.opcode == OP_DUNGEON_INFO && p.body.Some? && |p.body.value| >= 36 && FromLE(p.body.value[..4]) != 0
    then Some(FromLE(p.body.value[..4])) else None
  }

  // op29: what room.
  function StartMapOf(p: Packet, initial: bool): Option<Room> {
    if p.opcode == OP_START_MAP && p.body.Some? then Parse(p.body.value, initial) else None
  }

  // op3 for the current actor.
  predicate UserState(p: Packet) {
    && p.opcode == OP_USER_STATE && p.body.Some? && |p.body.value| == 4
    && p.body.value[0] == 1 && p.body.value[3] == 1 && FromLE(p.body.value[1..3]) != 0 && p.selected
  }

  // op24, accepted, for the current actor: the key of its last row.
  predicate TownAccepted(p: Packet) {
    && p.opcode == OP_TOWN && !p.refused && p.selected && p.body.Some?
    && var body := p.body.value;
       && |body| >= 4
       && var rows := FromLE(body[2..4]);
          && rows > 0 && rows <= (|body| - 4) / 8
          && FromLE(body[4 + (rows - 1) * 8..4 + (rows - 1) * 8 + 2]) != 0
  }

  // ---- One packet ----

  function Update(l: Life, p: Packet): (Life, seq<Event>) {
    if p.opcode == OP_DUNGEON_INFO then
      if InfoOf(p).None? then (l, [])
      else (Life(AwaitStartMap, InfoOf(p).value, p.body.value[8], p.body.value[9], None), [])
    else if p.opcode == OP_START_MAP then
      if l.stage == AwaitStartMap then
        var room := StartMapOf(p, true);
        if room.None? then (l, []) else (l.(room := room, stage := AwaitUserState), [])
      else if l.stage == Active then
        var room := StartMapOf(p, false);
        if room.None? || l.room == room then (l, [])
        else
          var next := l.(room := room);
          (next, [RoomChanged(ContextOf(next, l.room))])
      else (l, [])
    else if p.opcode == OP_USER_STATE && l.stage == AwaitUserState && UserState(p) then
      var next := l.(stage := Active);
      (next, [EnterDungeon(ContextOf(next, None))])
    else (l, [])
  }

  function Town(l: Life, p: Packet): (Life, seq<Event>) {
    if !TownAccepted(p) then (l, [])
    else (FRESH, (if l.stage == Active then [LeaveDungeon(ContextOf(l, None))] else []) + [EnterTown])
  }

  // What the dispatcher does with a packet.
  function Step(l: Life, p: Packet): (Life, seq<Event>) {
    var (m, first) := Update(l, p);
    if p.opcode == OP_TOWN then
      var (n, second) := Town(m, p);
      (n, first + second)
    else (m, first)
  }

  lemma StepByOpcode(l: Life, p: Packet)
    ensures Step(l, p) == if p.opcode == OP_TOWN then Town(l, p) else Update(l, p)
  {
    assert [] + Town(l, p).1 == Town(l, p).1;
  }

  // ---- Runs ----

  function StateAfter(ps: seq<Packet>): Life {
    if ps == [] then FRESH else Step(StateAfter(ps[..|ps| - 1]), ps[|ps| - 1]).0
  }

  function EventsAt(ps: seq<Packet>, j: nat): seq<Event>
    requires j < |ps|
  {
    Step(StateAfter(ps[..j]), ps[j]).1
  }

  function Trace(ps: seq<Packet>): seq<Event> {
    if ps == [] then [] else Trace(ps[..|ps| - 1]) + EventsAt(ps, |ps| - 1)
  }

  // ---- What a trace looks like ----

  predicate InDungeon(e: Event) {
    e.EnterDungeon? || e.RoomChanged?
  }

  // An event that belongs to a dungeon directly continues the one before it:
  // same dungeon; the room left is the room that was entered.
  predicate Continues(before: Event, e: Event) {
    && InDungeon(before) && (e.RoomChanged? || e.LeaveDungeon?)
    && e.context.dungeonID == before.context.dungeonID
    && (e.RoomChanged? ==>
          && e.context.previous == before.context.room
          && e.context.room.Some? && e.context.room != before.context.room)
    && (e.LeaveDungeon? ==> e.context.room == before.context.room)
  }

  predicate GoodAt(trace: seq<Event>, i: nat)
    requires i < |trace|
  {
    match trace[i]
    case EnterTown => true
    case EnterDungeon(c) => c.dungeonID.Some? && c.dungeonID.value != 0 && c.room.Some? && c.previous == None
    case RoomChanged(c) => i > 0 && Continues(trace[i - 1], trace[i])
    case LeaveDungeon(c) => i > 0 && Continues(trace[i - 1], trace[i]) && i + 1 < |trace| && trace[i + 1] == EnterTown
  }

  ghost predicate GoodTrace(trace: seq<Event>) {
    forall i :: 0 <= i < |trace| ==> GoodAt(trace, i)
  }

  // What the state knows of the trace.
  predicate Consistent(l: Life, trace: seq<Event>) {
    && (l.stage != Idle ==> l.dungeonID != 0)
    && (l.stage == AwaitUserState || l.stage == Active ==> l.room.Some?)
    && (l.stage == Active ==>
          && trace != [] && var last := trace[|trace| - 1];
             InDungeon(last) && last.context.dungeonID == Some(l.dungeonID) && last.context.room == l.room)
  }

  lemma GoodAppend(trace: seq<Event>, more: seq<Event>)
    requires GoodTrace(trace)
    requires forall i :: |trace| <= i < |trace + more| ==> GoodAt(trace + more, i)
    ensures GoodTrace(trace + more)
  {
    forall i | 0 <= i < |trace + more| ensures GoodAt(trace + more, i) {
      if i < |trace| { assert GoodAt(trace, i); }
    }
  }

  lemma StepGood(l: Life, trace: seq<Event>, p: Packet)
    requires Consistent(l, trace)
    ensures var (next, events) := Step(l, p);
            && Consistent(next, trace + events)
            && forall i :: |trace| <= i < |trace + events| ==> GoodAt(trace + events, i)
  {
  }

  // Main result: over every packet sequence the trace is good.
  lemma {:induction false} TraceIsGood(ps: seq<Packet>)
    ensures GoodTrace(Trace(ps)) && Consistent(StateAfter(ps), Trace(ps))
    decreases |ps|
  {
    if ps != [] {
      var front := ps[..|ps| - 1];
      TraceIsGood(front);
      StepGood(StateAfter(front), Trace(front), ps[|ps| - 1]);
      GoodAppend(Trace(front), EventsAt(ps, |ps| - 1));
    }
  }

  // In a good trace every room change and every leave goes back, through room
  // changes only, to an enter of the same dungeon.
  lemma {:induction false} BackToEnter(trace: seq<Event>, i: nat) returns (k: nat)
    requires GoodTrace(trace) && i < |trace| && (trace[i].RoomChanged? || trace[i].LeaveDungeon?)
    ensures k < i && trace[k].EnterDungeon?
    ensures forall j :: k < j < i ==> trace[j].RoomChanged?
    ensures forall j :: k <= j <= i ==>
              trace[j] != EnterTown && trace[j].context.dungeonID == trace[i].context.dungeonID
    ensures trace[i].context.dungeonID.Some? && trace[i].context.dungeonID.value != 0
  {
    assert GoodAt(trace, i);
    assert GoodAt(trace, i - 1);
    if trace[i - 1].EnterDungeon? { k := i - 1; } else { k := BackToEnter(trace, i - 1); }
  }

  // ---- No enter is replayed ----

  // Nothing is published between packet a and packet j, both excluded.
  ghost predicate Quiet(ps: seq<Packet>, a: nat, j: nat)
    requires j <= |ps|
  {
    forall k :: a < k < j ==> EventsAt(ps, k) == []
  }

  lemma StateAfterNext(ps: seq<Packet>, j: nat)
    requires j < |ps|
    ensures StateAfter(ps[..j + 1]) == Step(StateAfter(ps[..j]), ps[j]).0
  {
    assert ps[..j + 1][..j] == ps[..j];
  }

  predicate InfoAt(ps: seq<Packet>, k: nat)
    requires k < |ps|
  {
    InfoOf(ps[k]).Some?
  }

  // Packet k begins or ends a dungeon.
  predicate ResetsAt(ps: seq<Packet>, k: nat)
    requires k < |ps|
  {
    InfoAt(ps, k) || TownAccepted(ps[k])
  }

  predicate RoomAt(ps: seq<Packet>, k: nat)
    requires k < |ps|
  {
    StartMapOf(ps[k], true).Some?
  }

  predicate UserAt(ps: seq<Packet>, k: nat)
    requires k < |ps|
  {
    UserState(ps[k])
  }

  // Packet a named a dungeon, and since then no room of it is known.
  ghost predicate Named(ps: seq<Packet>, a: nat, j: nat)
    requires j <= |ps|
  {
    a < j && InfoAt(ps, a) && forall k :: a < k < j ==> !ResetsAt(ps, k) && !RoomAt(ps, k)
  }

  // Packet b gave the first room of the dungeon that packet a named, and since
  // then no op3 came for the current actor.
  ghost predicate Roomed(ps: seq<Packet>, a: nat, b: nat, j: nat)
    requires j <= |ps|
  {
    b < j && Named(ps, a, b) && RoomAt(ps, b) && forall k :: b < k < j ==> !ResetsAt(ps, k) && !UserAt(ps, k)
  }

  function NamedLife(info: Packet): Life
    requires InfoOf(info).Some?
  {
    Life(AwaitStartMap, InfoOf(info).value, info.body.value[8], info.body.value[9], None)
  }

  function RoomedLife(info: Packet, first: Packet): Life
    requires InfoOf(info).Some?
  {
    NamedLife(info).(stage := AwaitUserState, room := StartMapOf(first, true))
  }

  lemma {:induction false} NamedState(ps: seq<Packet>, a: nat, j: nat)
    requires j <= |ps| && Named(ps, a, j)
    ensures StateAfter(ps[..j]) == NamedLife(ps[a])
    decreases j
  {
    StateAfterNext(ps, j - 1);
    if a < j - 1 {
      NamedState(ps, a, j - 1);
      assert !ResetsAt(ps, j - 1) && !RoomAt(ps, j - 1);
    }
  }

  lemma {:induction false} RoomedState(ps: seq<Packet>, a: nat, b: nat, j: nat)
    requires j <= |ps| && Roomed(ps, a, b, j)
    ensures StateAfter(ps[..j]) == RoomedLife(ps[a], ps[b])
    decreases j
  {
    StateAfterNext(ps, j - 1);
    if b < j - 1 {
      RoomedState(ps, a, b, j - 1);
      assert !ResetsAt(ps, j - 1) && !UserAt(ps, j - 1);
    } else {
      NamedState(ps, a, b);
    }
  }

  // How the state before packet j came about.
  ghost predicate Traced(ps: seq<Packet>, j: nat)
    requires j <= |ps|
  {
    && (StateAfter(ps[..j]).stage == AwaitStartMap ==> exists a :: Named(ps, a, j))
    && (StateAfter(ps[..j]).stage == AwaitUserState ==> exists a, b :: Roomed(ps, a, b, j))
  }

  lemma {:induction false} AllTraced(ps: seq<Packet>, j: nat)
    requires j <= |ps|
    ensures Traced(ps, j)
    decreases j
  {
    if j > 0 {
      AllTraced(ps, j - 1);
      StateAfterNext(ps, j - 1);
      TracedStep(ps, j - 1);
    } else {
      assert ps[..0] == [];
    }
  }

  // An awaiting stage is reached from the one before it and kept by what does
  // not count.
  lemma StageBefore(l: Life, p: Packet)
    ensures Step(l, p).0.stage == AwaitStartMap ==>
              InfoOf(p).Some? || (l.stage == AwaitStartMap && !TownAccepted(p) && StartMapOf(p, true).None?)
    ensures Step(l, p).0.stage == AwaitUserState ==>
              || (l.stage == AwaitStartMap && InfoOf(p).None? && StartMapOf(p, true).Some?)
              || (l.stage == AwaitUserState && InfoOf(p).None? && !TownAccepted(p) && !UserState(p))
  {
  }

  lemma TracedStep(ps: seq<Packet>, j: nat)
    requires j < |ps| && Traced(ps, j) && StateAfter(ps[..j + 1]) == Step(StateAfter(ps[..j]), ps[j]).0
    ensures Traced(ps, j + 1)
  {
    var l, next := StateAfter(ps[..j]), StateAfter(ps[..j + 1]);
    StageBefore(l, ps[j]);
    if next.stage == AwaitStartMap {
      if InfoAt(ps, j) {
        assert Named(ps, j, j + 1);
      } else {
        var a :| Named(ps, a, j);
        assert !ResetsAt(ps, j) && !RoomAt(ps, j);
        assert Named(ps, a, j + 1);
      }
    } else if next.stage == AwaitUserState {
      if l.stage == AwaitStartMap {
        var a :| Named(ps, a, j);
        assert RoomAt(ps, j);
        assert Roomed(ps, a, j, j + 1);
      } else {
        var a, b :| Roomed(ps, a, b, j);
        assert !ResetsAt(ps, j) && !UserAt(ps, j);
        assert Roomed(ps, a, b, j + 1);
      }
    }
  }

  lemma StepEnters(l: Life, p: Packet, c: Context)
    ensures EnterDungeon(c) in Step(l, p).1 <==>
              l.stage == AwaitUserState && UserState(p) && c == ContextOf(l.(stage := Active), None)
  {
    if l.stage == AwaitUserState && UserState(p) {
      assert Step(l, p).1 == [EnterDungeon(ContextOf(l.(stage := Active), None))];
    }
  }

  // What is published about a room: the dungeon of an op28, and whether the room
  // is at the place that the op28 gives the boss.
  function RoomContext(info: Packet, room: Room, previous: Option<Room>): Context
    requires InfoOf(info).Some?
  {
    Context(InfoOf(info), Some(room), room.x == info.body.value[8] && room.y == info.body.value[9], previous)
  }

  ghost predicate EntersWith(ps: seq<Packet>, a: nat, b: nat, j: nat, c: Context)
    requires j <= |ps|
  {
    Roomed(ps, a, b, j) && c == RoomContext(ps[a], StartMapOf(ps[b], true).value, None)
  }

  // Main result: over every packet sequence an enter is published exactly for
  // the first op3 for the current actor behind the first room op29 behind the
  // last op28 with a dungeon, with no accepted town packet since that op28; and
  // it carries that op28's dungeon and that op29's room.
  lemma EnterIff(ps: seq<Packet>, j: nat, c: Context)
    requires j < |ps|
    ensures EnterDungeon(c) in EventsAt(ps, j) <==> UserAt(ps, j) && exists a, b :: EntersWith(ps, a, b, j, c)
  {
    AllTraced(ps, j);
    StepEnters(StateAfter(ps[..j]), ps[j], c);
    forall a: nat, b: nat | Roomed(ps, a, b, j) ensures StateAfter(ps[..j]) == RoomedLife(ps[a], ps[b]) {
      RoomedState(ps, a, b, j);
    }
    if EnterDungeon(c) in EventsAt(ps, j) {
      var a, b :| Roomed(ps, a, b, j);
      assert EntersWith(ps, a, b, j, c);
    }
  }

  // Nothing is published from the op28 on until the enter.
  lemma RoomedIsQuiet(ps: seq<Packet>, a: nat, b: nat, j: nat)
    requires j <= |ps| && Roomed(ps, a, b, j)
    ensures Quiet(ps, a, j)
  {
    forall k | a < k < j ensures EventsAt(ps, k) == [] {
      if k <= b { NamedState(ps, a, k); } else { RoomedState(ps, a, b, k); }
      assert k != b ==> !ResetsAt(ps, k) && (k < b ==> !RoomAt(ps, k)) && (k > b ==> !UserAt(ps, k));
    }
  }

  // An enter is fresh: no other is published from the op28 on that it goes back to.
  lemma EnterIsFresh(ps: seq<Packet>, j: nat, c: Context) returns (a: nat, b: nat)
    requires j < |ps| && EnterDungeon(c) in EventsAt(ps, j)
    ensures UserState(ps[j]) && EntersWith(ps, a, b, j, c) && Quiet(ps, a, j)
    ensures c.dungeonID == InfoOf(ps[a]) && c.room == StartMapOf(ps[b], true) && c.room.Some?
  {
    EnterIff(ps, j, c);
    a, b :| EntersWith(ps, a, b, j, c);
    RoomedIsQuiet(ps, a, b, j);
    assert InfoAt(ps, a) && RoomAt(ps, b);
  }

  // ---- Leaving ----

  // An accepted town packet publishes a leave exactly when the dungeon is
  // active, and then right before the enter-town.
  lemma LeaveIff(ps: seq<Packet>, j: nat)
    requires j < |ps| && TownAccepted(ps[j])
    ensures var l := StateAfter(ps[..j]);
            EventsAt(ps, j) == (if l.stage == Active then [LeaveDungeon(ContextOf(l, None))] else []) + [EnterTown]
  {
  }

  // An enter, or a leave, is published for a packet.
  predicate Enters(ps: seq<Packet>, k: nat)
    requires k < |ps|
  {
    exists e :: e in EventsAt(ps, k) && e.EnterDungeon?
  }

  predicate Leaves(ps: seq<Packet>, k: nat)
    requires k < |ps|
  {
    exists e :: e in EventsAt(ps, k) && e.LeaveDungeon?
  }

  // Something is entered or a town packet is accepted.
  predicate DisturbedAt(ps: seq<Packet>, k: nat)
    requires k < |ps|
  {
    Enters(ps, k) || TownAccepted(ps[k])
  }

  ghost predicate Undisturbed(ps: seq<Packet>, i: nat, j: nat)
    requires j <= |ps|
  {
    forall k :: i < k < j ==> !DisturbedAt(ps, k)
  }

  ghost predicate NoInfo(ps: seq<Packet>, i: nat, j: nat)
    requires j <= |ps|
  {
    forall k :: i < k < j ==> !InfoAt(ps, k)
  }

  // Such a packet leaves an active dungeon only by an op28, and none becomes active.
  lemma StaysActive(l: Life, p: Packet)
    requires !TownAccepted(p) && forall e :: e in Step(l, p).1 ==> !e.EnterDungeon?
    ensures Step(l, p).0.stage == Active <==> l.stage == Active && InfoOf(p).None?
  {
    UserStateEnters(l, p);
  }

  lemma UserStateEnters(l: Life, p: Packet)
    ensures l.stage == AwaitUserState && UserState(p) ==> exists e :: e in Step(l, p).1 && e.EnterDungeon?
  {
    if l.stage == AwaitUserState && UserState(p) {
      assert Step(l, p).1[0].EnterDungeon?;
    }
  }

  lemma EnterActivates(l: Life, p: Packet)
    requires exists e :: e in Step(l, p).1 && e.EnterDungeon?
    ensures Step(l, p).0.stage == Active
  {
  }

  lemma AfterEnter(ps: seq<Packet>, i: nat)
    requires i < |ps| && Enters(ps, i)
    ensures StateAfter(ps[..i + 1]).stage == Active
  {
    StateAfterNext(ps, i);
    EnterActivates(StateAfter(ps[..i]), ps[i]);
  }

  lemma AfterUndisturbed(ps: seq<Packet>, k: nat)
    requires k < |ps| && !DisturbedAt(ps, k)
    ensures StateAfter(ps[..k + 1]).stage == Active <==> StateAfter(ps[..k]).stage == Active && !InfoAt(ps, k)
  {
    StateAfterNext(ps, k);
    StaysActive(StateAfter(ps[..k]), ps[k]);
  }

  lemma UndisturbedBefore(ps: seq<Packet>, i: nat, j: nat)
    requires i < j < |ps| && Undisturbed(ps, i, j + 1)
    ensures Undisturbed(ps, i, j) && !DisturbedAt(ps, j)
  {
  }

  lemma NoInfoNext(ps: seq<Packet>, i: nat, j: nat)
    requires i < j < |ps|
    ensures NoInfo(ps, i, j + 1) <==> NoInfo(ps, i, j) && !InfoAt(ps, j)
  {
  }

  lemma {:induction false} ActiveSince(ps: seq<Packet>, i: nat, j: nat)
    requires i < j <= |ps| && Enters(ps, i) && Undisturbed(ps, i, j)
    ensures StateAfter(ps[..j]).stage == Active <==> NoInfo(ps, i, j)
    decreases j
  {
    if j == i + 1 {
      AfterEnter(ps, i);
    } else {
      var k := j - 1;
      UndisturbedBefore(ps, i, k);
      ActiveSince(ps, i, k);
      AfterUndisturbed(ps, k);
      NoInfoNext(ps, i, k);
    }
  }

  // Main result: the first accepted town packet after an enter publishes the
  // leave that answers it if and only if no op28 with a dungeon came between.
  lemma EnterIsLeftIff(ps: seq<Packet>, i: nat, j: nat)
    requires i < j < |ps| && Enters(ps, i) && Undisturbed(ps, i, j) && TownAccepted(ps[j])
    ensures Leaves(ps, j) <==> forall k :: i < k < j ==> !InfoAt(ps, k)
  {
    ActiveSince(ps, i, j);
    LeaveIff(ps, j);
    if StateAfter(ps[..j]).stage == Active { assert EventsAt(ps, j)[0].LeaveDungeon?; }
  }

  // ---- Five packets that lose a leave ----

  // The body of an op28 for dungeon 1, and of an op29 for its first room.
  const INFO_BODY: Text := [1, 0, 0, 0] + ZEROS16 + ZEROS16

  const ZEROS16: Text := [0, 0, 0, 0, 0, 0, 0, 0, 0, 0, 0, 0, 0, 0, 0, 0]

  const ROOM_BODY := Body([0, 0, 0, 0, 0, 0, 0, 0, 0, 0, 0, 0, 0, 1, 1, 0, 0, 0], [], [], 0, [], 0)

  function Sample(): seq<Packet>
    requires WellFormed(ROOM_BODY)
  {
    var info := Packet(OP_DUNGEON_INFO, Some(INFO_BODY), false, false);
    [info,
     Packet(OP_START_MAP, Some(Serialise(ROOM_BODY)), false, false),
     Packet(OP_USER_STATE, Some([1, 1, 0, 1]), true, false),
     info,
     Packet(OP_TOWN, Some([0, 0, 1, 0, 1, 0, 0, 0, 0, 0, 0, 0]), true, false)]
  }

  lemma SampleNumbers()
    ensures WellFormed(ROOM_BODY) && FromLE(INFO_BODY[..4]) == 1
    ensures FromLE([1, 0]) == 1 && FromLE([0, 0]) == 0
  {
    assert INFO_BODY[..4] == [1, 0, 0, 0] && ROOM_BODY.head[14..18] == [1, 0, 0, 0];
    LittleOne();
  }

  lemma LittleOne()
    ensures FromLE([1, 0, 0, 0]) == 1 && FromLE([1, 0]) == 1 && FromLE([0, 0]) == 0
  {
    assert [0][1..] == [] && [0, 0][1..] == [0] && [0, 0, 0][1..] == [0, 0];
    assert [1, 0, 0, 0][1..] == [0, 0, 0] && [1, 0][1..] == [0];
    assert FromLE([0, 0]) == 0 && FromLE([0, 0, 0]) == 0;
  }

  // They reach an active dungeon, ...
  lemma SampleEnters()
    ensures WellFormed(ROOM_BODY)
    ensures Enters(Sample(), 2)
  {
    SampleNumbers();
    ParsesSerialised(ROOM_BODY, true);
    var info, first, user := Sample()[0], Sample()[1], Sample()[2];
    assert [1, 1, 0, 1][1..3] == [1, 0];
    assert InfoOf(info) == Some(1) && StartMapOf(first, true).Some? && UserState(user);
    ThreeEnter(Sample(), 1);
  }

  lemma ThreeEnter(ps: seq<Packet>, id: nat)
    requires |ps| >= 3 && InfoOf(ps[0]) == Some(id) && StartMapOf(ps[1], true).Some? && UserState(ps[2])
    ensures Enters(ps, 2)
  {
    assert ps[..0] == [];
    StateAfterNext(ps, 0);
    StateAfterNext(ps, 1);
    assert StateAfter(ps[..1]).stage == AwaitStartMap;
    assert StateAfter(ps[..2]).stage == AwaitUserState;
    assert EventsAt(ps, 2)[0].EnterDungeon?;
  }

  lemma InfoPublishesNothing(l: Life, p: Packet)
    requires InfoOf(p).Some?
    ensures Step(l, p).1 == [] && !TownAccepted(p)
  {
  }

  lemma LostBehindInfo(ps: seq<Packet>, i: nat)
    requires i + 2 < |ps| && Enters(ps, i) && InfoOf(ps[i + 1]).Some? && TownAccepted(ps[i + 2])
    ensures Undisturbed(ps, i, i + 2) && !Leaves(ps, i + 2)
  {
    InfoPublishesNothing(StateAfter(ps[..i + 1]), ps[i + 1]);
    assert InfoAt(ps, i + 1);
    EnterIsLeftIff(ps, i, i + 2);
  }

  lemma SampleTown()
    ensures WellFormed(ROOM_BODY)
    ensures InfoOf(Sample()[3]).Some? && TownAccepted(Sample()[4])
  {
    SampleNumbers();
    var body: Text := [0, 0, 1, 0, 1, 0, 0, 0, 0, 0, 0, 0];
    assert body[2..4] == [1, 0] && body[4..6] == [1, 0];
  }

  // ... and the town behind it, but the enter is never left.
  lemma SampleLosesLeave()
    ensures WellFormed(ROOM_BODY)
    ensures var ps := Sample(); Enters(ps, 2) && TownAccepted(ps[4]) && Undisturbed(ps, 2, 4) && !Leaves(ps, 4)
  {
    SampleEnters();
    SampleTown();
    LostBehindInfo(Sample(), 2);
  }
}
