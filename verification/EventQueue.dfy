// The bounded queue of client events and the state it is fed from
// (client-patch/90CN.cpp: QueueLuaClientEventInternal,
// DequeueLuaClientEventInternal and the dungeon globals).  The steps of the
// queue that are atomic, TakeNumber, Store, CountRefusal and Dequeue, keep its
// invariant in whatever order the threads take them.
module EventQueue {
  import opened Bytes
  import opened DungeonLifecycle
  import opened StartMapBody
  import opened Text
  import opened Wrappers

  const CAPACITY := 32

  datatype Queued = Queued(sequence: nat, event: Event)

  const NOTHING := Queued(0, EnterTown)

  // InterlockedIncrement, which wraps around.
  function Increment(x: uint32): uint32 {
    if x == TWO32 - 1 then 0 else x + 1
  }

  lemma IncrementCounts(x: uint32, n: nat)
    requires x == n % TWO32
    ensures Increment(x) == (n + 1) % TWO32
  {
  }

  // The ring's contents, oldest first.
  function InRing(slots: seq<Queued>, head: nat, count: nat): (r: seq<Queued>)
    requires |slots| == CAPACITY && head < CAPACITY && count <= CAPACITY
    ensures |r| == count
  {
    seq(count, i requires 0 <= i < count => slots[(head + i) % CAPACITY])
  }

  lemma RingPut(slots: seq<Queued>, head: nat, count: nat, e: Queued)
    requires |slots| == CAPACITY && head < CAPACITY && count < CAPACITY
    ensures InRing(slots[(head + count) % CAPACITY := e], head, count + 1) == InRing(slots, head, count) + [e]
  {
  }

  lemma RingNext(head: nat, i: nat)
    requires head < CAPACITY && i + 1 < CAPACITY
    ensures ((head + 1) % CAPACITY + i) % CAPACITY == (head + (i + 1)) % CAPACITY != head
  {
  }

  lemma RingTake(slots: seq<Queued>, head: nat, count: nat)
    requires |slots| == CAPACITY && head < CAPACITY && 0 < count <= CAPACITY
    ensures InRing(slots, head, count)[0] == slots[head]
    ensures InRing(slots[head := NOTHING], (head + 1) % CAPACITY, count - 1) == InRing(slots, head, count)[1..]
  {
    var before, after := InRing(slots, head, count), InRing(slots[head := NOTHING], (head + 1) % CAPACITY, count - 1);
    forall i | 0 <= i < count - 1 ensures after[i] == before[1..][i] { RingNext(head, i); }
  }

  class ClientEventQueue {
    var slots: array<Queued>
    var head: nat
    var count: nat
    // The two counters that wrap around.
    var sequence: uint32
    var rejected: uint32

    // Every event ever put in, ever taken out and ever turned away.
    ghost var accepted: seq<Queued>
    ghost var dequeued: seq<Queued>
    ghost var refused: seq<Queued>
    // The events of every attempt, queued or not, in the order of their numbers.
    ghost var log: seq<Event>
    // How many of the refused the counter has been told of.
    ghost var counted: nat

    ghost predicate Valid()
      reads this, slots
    {
      && slots.Length == CAPACITY && head < CAPACITY && count <= CAPACITY
      && accepted == dequeued + InRing(slots[..], head, count)
      && |accepted| + |refused| <= |log| && sequence == |log| % TWO32
      && counted <= |refused| && rejected == counted % TWO32
    }

    // No attempt is under way in any thread.
    ghost predicate Settled()
      reads this
    {
      |log| == |accepted| + |refused| && counted == |refused|
    }

    constructor ()
      ensures Valid() && Settled() && accepted == [] && dequeued == [] && refused == [] && log == [] && fresh(slots)
    {
      slots := new Queued[CAPACITY](_ => NOTHING);
      head, count, sequence, rejected := 0, 0, 0, 0;
      accepted, dequeued, refused, log, counted := [], [], [], [], 0;
    }

    // The first interlocked step of QueueLuaClientEventInternal: a number.
    method TakeNumber(event: Event) returns (pending: Queued)
      requires Valid()
      modifies this`sequence, this`log
      ensures Valid() && log == old(log) + [event]
      ensures pending == Queued(Increment(old(sequence)), event) && sequence == pending.sequence
    {
      IncrementCounts(sequence, |log|);
      log := log + [event];
      sequence := Increment(sequence);
      pending := Queued(sequence, event);
    }

    // The part under the lock: accepted exactly if the ring is not full.
    method Store(pending: Queued) returns (queued: bool)
      requires Valid() && |accepted| + |refused| < |log|
      modifies this`count, this`accepted, this`refused, slots
      ensures Valid()
      ensures queued <==> |old(accepted)| - |dequeued| < 32
      ensures if queued then accepted == old(accepted) + [pending] && refused == old(refused)
              else accepted == old(accepted) && refused == old(refused) + [pending]
    {
      if count >= CAPACITY {
        refused := refused + [pending];
        return false;
      }
      var tail := (head + count) % CAPACITY;
      RingPut(slots[..], head, count, pending);
      slots[tail] := pending;
      count := count + 1;
      accepted := accepted + [pending];
      queued := true;
    }

    // The last interlocked step, only after a refusal.
    method CountRefusal()
      requires Valid() && counted < |refused|
      modifies this`rejected, this`counted
      ensures Valid() && counted == old(counted) + 1
    {
      IncrementCounts(rejected, counted);
      rejected := Increment(rejected);
      counted := counted + 1;
    }

    // QueueLuaClientEventInternal, its three steps with no other thread between
    // them.
    method Enqueue(event: Event) returns (queued: bool)
      requires Valid()
      modifies this, slots
      ensures Valid() && slots == old(slots) && dequeued == old(dequeued)
      ensures old(Settled()) ==> Settled()
      ensures log == old(log) + [event]
      ensures queued <==> |old(accepted)| - |old(dequeued)| < 32
      ensures var q := Queued(Increment(old(sequence)), event);
              if queued then accepted == old(accepted) + [q] && refused == old(refused)
              else accepted == old(accepted) && refused == old(refused) + [q]
    {
      var pending := TakeNumber(event);
      queued := Store(pending);
      if !queued { CountRefusal(); }
    }

    // DequeueLuaClientEventInternal: the oldest event not yet taken.
    method Dequeue() returns (r: Option<Queued>)
      requires Valid()
      modifies this, slots
      ensures Valid() && slots == old(slots) && accepted == old(accepted) && refused == old(refused) && log == old(log)
      ensures |old(dequeued)| == |accepted| ==> r == None && dequeued == old(dequeued)
      ensures |old(dequeued)| < |accepted| ==>
                r == Some(accepted[|old(dequeued)|]) && dequeued == accepted[..|old(dequeued)| + 1]
    {
      if count == 0 { return None; }
      r := Some(slots[head]);
      RingTake(slots[..], head, count);
      ghost var ring := InRing(slots[..], head, count);
      slots[head] := NOTHING;
      head := (head + 1) % CAPACITY;
      count := count - 1;
      dequeued := dequeued + [ring[0]];
      assert accepted == dequeued + ring[1..];
    }
  }

  // The dungeon globals.  The queue belongs to all threads; only what this one
  // publishes is described here.
  class DungeonTracker {
    var stage: Stage
    var dungeonID: nat
    var bossX: byte
    var bossY: byte
    var roomKnown: bool
    var roomX: byte
    var roomY: byte
    var roomLayer: byte
    var mapID: nat
    const queue: ClientEventQueue
    // Every packet dispatched.
    ghost var packets: seq<Packet>

    ghost function Abstract(): Life
      reads this
    {
      Life(stage, dungeonID, bossX, bossY, if roomKnown then Some(Room(roomX, roomY, roomLayer, mapID)) else None)
    }

    ghost predicate Valid()
      reads this, queue, queue.slots
    {
      queue.Valid() && Abstract() == StateAfter(packets)
    }

    constructor (queue: ClientEventQueue)
      requires queue.Valid()
      ensures Valid() && packets == [] && this.queue == queue
    {
      this.queue := queue;
      stage, dungeonID, bossX, bossY, roomKnown := Idle, 0, 0, 0, false;
      roomX, roomY, roomLayer, mapID := 0, 0, 0, 0;
      packets := [];
    }

    // BuildLuaDungeonClientEventContext
    method BuildContext(previous: Option<Room>) returns (c: Context)
      ensures c == ContextOf(Abstract(), previous)
    {
      var known := if dungeonID != 0 then Some(dungeonID) else None;
      if roomKnown {
        c := Context(known, Some(Room(roomX, roomY, roomLayer, mapID)), roomX == bossX && roomY == bossY, previous);
      } else {
        c := Context(known, None, false, previous);
      }
    }

    method SetRoom(room: Room)
      modifies this`roomKnown, this`roomX, this`roomY, this`roomLayer, this`mapID
      ensures Abstract() == old(Abstract()).(room := Some(room))
    {
      roomKnown, roomX, roomY, roomLayer, mapID := true, room.x, room.y, room.layer, room.mapID;
    }

    // A dungeon of which no room is known.
    method SetDungeon(stage: Stage, id: nat, bossX: byte, bossY: byte)
      modifies this`stage, this`dungeonID, this`bossX, this`bossY
      modifies this`roomKnown, this`roomX, this`roomY, this`roomLayer, this`mapID
      ensures Abstract() == Life(stage, id, bossX, bossY, None)
    {
      this.stage, dungeonID, this.bossX, this.bossY, roomKnown := stage, id, bossX, bossY, false;
      roomX, roomY, roomLayer, mapID := 0, 0, 0, 0;
    }

    method StartMap(p: Packet)
      requires queue.Valid() && p.opcode == OP_START_MAP
      modifies this, queue, queue.slots
      ensures queue.Valid() && packets == old(packets) && queue.slots == old(queue.slots)
      ensures (Abstract(), queue.log) == (Update(old(Abstract()), p).0, old(queue.log) + Update(old(Abstract()), p).1)
    {
      assert queue.log + [] == queue.log;
      var initialRoom, changedRoom := stage == AwaitStartMap, stage == Active;
      if (!initialRoom && !changedRoom) || p.body.None? { return; }
      var parsed := ParseStartMapBody(p.body.value, initialRoom);
      if parsed.None? { return; }
      var room := parsed.value;
      if initialRoom {
        SetRoom(room);
        stage := AwaitUserState;
        return;
      }
      if roomKnown && roomX == room.x && roomY == room.y && roomLayer == room.layer && mapID == room.mapID { return; }
      var previous := if roomKnown then Some(Room(roomX, roomY, roomLayer, mapID)) else None;
      SetRoom(room);
      var context := BuildContext(previous);
      var queued := queue.Enqueue(RoomChanged(context));
    }

    // UpdateLuaDungeonEntryStateAfterDispatch
    method UpdateAfterDispatch(p: Packet)
      requires queue.Valid()
      modifies this, queue, queue.slots
      ensures queue.Valid() && packets == old(packets) && queue.slots == old(queue.slots)
      ensures (Abstract(), queue.log) == (Update(old(Abstract()), p).0, old(queue.log) + Update(old(Abstract()), p).1)
    {
      assert queue.log + [] == queue.log;
      if p.opcode != OP_DUNGEON_INFO && p.opcode != OP_START_MAP && p.opcode != OP_USER_STATE { return; }
      if p.opcode == OP_START_MAP {
        StartMap(p);
        return;
      }
      if p.body.None? { return; }
      var body := p.body.value;
      if p.opcode == OP_DUNGEON_INFO {
        if |body| < 36 { return; }
        var id := FromLE(body[..4]);
        if id == 0 { return; }
        SetDungeon(AwaitStartMap, id, body[8], body[9]);
        return;
      }
      if stage != AwaitUserState || |body| != 4 || body[0] != 1 || body[3] != 1 { return; }
      if FromLE(body[1..3]) == 0 || !p.selected { return; }
      stage := Active;
      var context := BuildContext(None);
      var queued := queue.Enqueue(EnterDungeon(context));
    }

    // The checks of QueueLuaEnterTownEventIfAccepted.
    static method CheckTown(p: Packet) returns (accepted: bool)
      requires p.opcode == OP_TOWN
      ensures accepted == TownAccepted(p)
    {
      if p.refused || p.body.None? { return false; }
      var body := p.body.value;
      if |body| < 4 { return false; }
      var rows := FromLE(body[2..4]);
      if rows == 0 || rows > (|body| - 4) / 8 { return false; }
      var at := 4 + (rows - 1) * 8;
      accepted := FromLE(body[at..at + 2]) != 0 && p.selected;
    }

    // QueueLuaEnterTownEventIfAccepted
    method EnterTownIfAccepted(p: Packet)
      requires queue.Valid() && p.opcode == OP_TOWN
      modifies this, queue, queue.slots
      ensures queue.Valid() && packets == old(packets) && queue.slots == old(queue.slots)
      ensures (Abstract(), queue.log) == (Town(old(Abstract()), p).0, old(queue.log) + Town(old(Abstract()), p).1)
    {
      assert queue.log + [] == queue.log;
      var accepted := CheckTown(p);
      if !accepted { return; }
      var previousStage := stage;
      var context := BuildContext(None);
      SetDungeon(Idle, 0, 0, 0);
      if previousStage == Active {
        var leaveQueued := queue.Enqueue(LeaveDungeon(context));
      }
      var townQueued := queue.Enqueue(EnterTown);
      ghost var first := if previousStage == Active then [LeaveDungeon(context)] else [];
      assert queue.log == old(queue.log) + (first + [EnterTown]);
    }

    // What one packet publishes, by its opcode.
    method Publish(p: Packet)
      requires queue.Valid()
      modifies this, queue, queue.slots
      ensures queue.Valid() && packets == old(packets) && queue.slots == old(queue.slots)
      ensures (Abstract(), queue.log) == (Step(old(Abstract()), p).0, old(queue.log) + Step(old(Abstract()), p).1)
    {
      StepByOpcode(Abstract(), p);
      assert queue.log + [] == queue.log;
      UpdateAfterDispatch(p);
      if p.opcode == OP_TOWN { EnterTownIfAccepted(p); }
    }

    // One dispatched packet: what is published is what the state machine says.
    method Dispatch(p: Packet)
      requires Valid()
      modifies this, queue, queue.slots
      ensures Valid() && packets == old(packets) + [p] && queue.slots == old(queue.slots)
      ensures queue.log == old(queue.log) + EventsAt(packets, |packets| - 1)
    {
      Publish(p);
      packets := packets + [p];
      assert packets[..|packets| - 1] == old(packets);
    }
  }
}
