// The worn-equipment rows of a character packet, as ParseCurrentEquipmentSnapshot
// reads them (client-patch/90CN.cpp).
module EquipmentSnapshot {
  import opened BitMask
  import opened Bytes
  import opened KeyedRows
  import opened Sequences
  import opened Text
  import opened WireShapes
  import opened Wrappers

  const MAX_ITEMS := 33
  const MAX_SLOT := 32
  const STAT_BYTES := 92
  const HEAD := 16
  const AMPLIFY := 8

  datatype Head = Head(slot: byte, itemID: uint32, qualitySeed: uint32, ext: byte, durability: uint16,
                       linkedItemID: uint32)

  datatype Amplify = Amplify(auxiliary: Text, kind: byte, value: uint16)

  datatype Row = Row(head: Head, linked: seq<Text>, amplify: Amplify, more: seq<Text>)

  datatype Item = Item(itemID: uint32, qualitySeed: uint32, durability: uint16, amplifyValue: uint16,
                       actorSlot: byte, upgradeLevel: byte, amplifyType: byte)

  datatype Snapshot = Snapshot(sourceStatGeneration: uint32, itemCount: nat, items: seq<Item>)

  const NO_ITEM := Item(0, 0, 0, 0, 0, 0, 0)

  // ---- The grammar of a row ----

  function LinkedLayout(h: Head): Layout {
    if h.linkedItemID != 0 && h.slot == 9 then Then(Block, End) else End
  }

  const LAST_BLOCKS := Then(Block, Then(Fixed(1), Then(Block, End)))

  const TAIL := Then(Fixed(10), Then(Block, LAST_BLOCKS))

  const INDEXED := Then(Fixed(2), Then(Indexed, TAIL))

  const DWORDS := Then(Fixed(4), Then(Counted(2, 4), INDEXED))

  const VECTORS := Then(Counted(2, 8), DWORDS)

  function OverrideLayout(slot: byte): Layout {
    if slot == 26 then Then(Fixed(4), VECTORS) else VECTORS
  }

  // Avatar slots carry two blocks, slot 26 an override value.
  function MoreLayout(slot: byte): Layout {
    if slot <= 11 then Then(Block, Then(Block, OverrideLayout(slot))) else OverrideLayout(slot)
  }

  function HeadBytes(h: Head): (b: Text)
    ensures |b| == HEAD
  {
    [h.slot] + LE(h.itemID, 4) + LE(h.qualitySeed, 4) + [h.ext] + LE(h.durability, 2) + LE(h.linkedItemID, 4)
  }

  function AmplifyBytes(a: Amplify): Text {
    a.auxiliary + [a.kind] + LE(a.value, 2)
  }

  predicate WellFormed(r: Row) {
    r.head.slot <= 32 && r.head.itemID != 0 && RestFits(r)
  }

  predicate RestFits(r: Row) {
    PartsFit(LinkedLayout(r.head), MoreLayout(r.head.slot), r)
  }

  predicate PartsFit(linked: Layout, more: Layout, r: Row) {
    |r.amplify.auxiliary| == 5 && Fits(linked, r.linked) && Fits(more, r.more)
  }

  function RestBytes(r: Row): Text {
    Concat(r.linked) + (AmplifyBytes(r.amplify) + Concat(r.more))
  }

  function RowBytes(r: Row): Text {
    HeadBytes(r.head) + RestBytes(r)
  }

  function ItemOf(r: Row): Item {
    Item(r.head.itemID, r.head.qualitySeed, r.head.durability, r.amplify.value, r.head.slot, r.head.ext % 32,
         r.amplify.kind)
  }

  function ItemsOf(rows: seq<Row>): (items: seq<Item>)
    ensures |items| == |rows|
  {
    seq(|rows|, i requires 0 <= i < |rows| => ItemOf(rows[i]))
  }

  // The items of the rows, and empty entries up to the fixed capacity.
  function Stored(rows: seq<Row>): seq<Item> {
    ItemsOf(rows) + seq(if |rows| <= 33 then 33 - |rows| else 0, i => NO_ITEM)
  }

  function SnapshotOf(rows: seq<Row>, generation: uint32): Snapshot {
    Snapshot(generation, |rows|, Stored(rows))
  }

  // ---- Reading it ----

  function HeadAt(body: Text, at: nat): Head
    requires at + HEAD <= |body|
  {
    Pow256Bounds(body, at);
    Head(body[at], FromLE(body[at + 1..at + 5]), FromLE(body[at + 5..at + 9]), body[at + 9],
         FromLE(body[at + 10..at + 12]), FromLE(body[at + 12..at + 16]))
  }

  function AmplifyAt(body: Text, at: nat): Amplify
    requires at + AMPLIFY <= |body|
  {
    Pow256Values();
    FromLEBound(body[at + 6..at + 8]);
    Amplify(body[at..at + 5], body[at + 5], FromLE(body[at + 6..at + 8]))
  }

  lemma Pow256Bounds(body: Text, at: nat)
    requires at + HEAD <= |body|
    ensures FromLE(body[at + 1..at + 5]) < TWO32 && FromLE(body[at + 5..at + 9]) < TWO32
    ensures FromLE(body[at + 10..at + 12]) < TWO16 && FromLE(body[at + 12..at + 16]) < TWO32
  {
    Pow256Values();
    FromLEBound(body[at + 1..at + 5]);
    FromLEBound(body[at + 5..at + 9]);
    FromLEBound(body[at + 10..at + 12]);
    FromLEBound(body[at + 12..at + 16]);
  }

  // What follows a row's head: the linked part, the amplification, the rest.
  function PartsAt(linked: Layout, more: Layout, body: Text, head: Head, start: nat): (r: Option<(Row, nat)>)
    requires start <= |body|
    ensures r.Some? ==> start < r.value.1 <= |body| && r.value.0.head == head
  {
    match LayoutEnd(linked, body, start)
    case None => None
    case Some(mid) =>
      if |body| - mid < AMPLIFY then None
      else match LayoutEnd(more, body, mid + AMPLIFY)
        case None => None
        case Some(end) =>
          Some((Row(head, Pieces(linked, body, start), AmplifyAt(body, mid), Pieces(more, body, mid + AMPLIFY)), end))
  }

  function RestAt(body: Text, head: Head, start: nat): (r: Option<(Row, nat)>)
    requires start <= |body|
    ensures r.Some? ==> start < r.value.1 <= |body| && r.value.0.head == head
  {
    PartsAt(LinkedLayout(head), MoreLayout(head.slot), body, head, start)
  }

  // The row at an offset and where it ends.
  function RowAt(body: Text, at: nat): (r: Option<(Row, nat)>)
    ensures r.Some? ==> at < r.value.1 <= |body|
  {
    if at > |body| || |body| - at < HEAD then None
    else
      var head := HeadAt(body, at);
      if head.slot > MAX_SLOT || head.itemID == 0 then None else RestAt(body, head, at + HEAD)
  }

  const ROWS := Format(RowAt, RowBytes, WellFormed, (r: Row) => r.head.slot)

  // The count byte's offset, in the 32-bit arithmetic of the client.
  function CountOffset(statDataOffset: uint32): nat {
    (statDataOffset + STAT_BYTES + 1) % TWO32
  }

  // The entries to store for that many rows.
  function EntriesAt(body: Text, at: nat, count: nat): Option<seq<Item>>
    requires at <= |body|
  {
    match RowsAt(ROWS, body, at, count, {})
    case None => None
    case Some((rows, _)) => Some(Stored(rows))
  }

  function Parse(body: Text, statDataOffset: uint32, generation: uint32): Option<Snapshot> {
    var at := CountOffset(statDataOffset);
    if at >= |body| || body[at] > MAX_ITEMS then None
    else TakeSnapshot(EntriesAt(body, at + 1, body[at]), body[at], generation)
  }

  function TakeSnapshot(items: Option<seq<Item>>, count: nat, generation: uint32): Option<Snapshot> {
    match items
    case None => None
    case Some(entries) => Some(Snapshot(generation, count, entries))
  }

  // ---- Rows are read back exactly ----

  lemma HeadIff(body: Text, at: nat, h: Head)
    requires at + HEAD <= |body|
    ensures HeadAt(body, at) == h <==> body[at..at + HEAD] == HeadBytes(h)
  {
    var b := body[at..at + HEAD];
    SubSlice(body, at, HEAD, 1, 5);
    SubSlice(body, at, HEAD, 5, 9);
    SubSlice(body, at, HEAD, 10, 12);
    SubSlice(body, at, HEAD, 12, 16);
    if b == HeadBytes(h) { HeadOfBytes(h); }
    if HeadAt(body, at) == h {
      LEOfFromLE(b[1..5]);
      LEOfFromLE(b[5..9]);
      LEOfFromLE(b[10..12]);
      LEOfFromLE(b[12..16]);
      HeadCut(b);
    }
  }

  lemma HeadCut(b: Text)
    requires |b| == HEAD
    ensures b == [b[0]] + b[1..5] + b[5..9] + [b[9]] + b[10..12] + b[12..16]
  {
  }

  lemma HeadFields(slot: byte, item: Text, seed: Text, ext: byte, wear: Text, linked: Text)
    requires |item| == |seed| == |linked| == 4 && |wear| == 2
    ensures var b := [slot] + item + seed + [ext] + wear + linked;
            b[0] == slot && b[1..5] == item && b[5..9] == seed && b[9] == ext && b[10..12] == wear
              && b[12..16] == linked
  {
  }

  lemma HeadOfBytes(h: Head)
    ensures HeadAt(HeadBytes(h), 0) == h
  {
    HeadFields(h.slot, LE(h.itemID, 4), LE(h.qualitySeed, 4), h.ext, LE(h.durability, 2), LE(h.linkedItemID, 4));
    Pow256Values();
    FromLEOfLE(h.itemID, 4);
    FromLEOfLE(h.qualitySeed, 4);
    FromLEOfLE(h.durability, 2);
    FromLEOfLE(h.linkedItemID, 4);
  }

  lemma AmplifyIff(body: Text, at: nat, a: Amplify)
    requires at + AMPLIFY <= |body| && |a.auxiliary| == 5
    ensures AmplifyAt(body, at) == a <==> body[at..at + AMPLIFY] == AmplifyBytes(a)
  {
    var b, c := body[at..at + AMPLIFY], AmplifyBytes(a);
    assert b[..5] == body[at..at + 5] && b[6..8] == body[at + 6..at + 8];
    assert c[..5] == a.auxiliary && c[6..8] == LE(a.value, 2);
    Pow256Values();
    FromLEOfLE(a.value, 2);
    LEOfFromLE(b[6..8]);
    assert b == b[..5] + [b[5]] + b[6..8];
  }

  lemma Cut(s: Text, a: nat, b: nat, c: nat, d: nat)
    requires a <= b <= c <= d <= |s|
    ensures s[a..d] == s[a..b] + (s[b..c] + s[c..d])
  {
  }

  lemma PartsSound(linked: Layout, more: Layout, body: Text, head: Head, start: nat)
    requires start <= |body| && PartsAt(linked, more, body, head, start).Some?
    ensures var (r, end) := PartsAt(linked, more, body, head, start).value;
            PartsFit(linked, more, r) && body[start..end] == RestBytes(r)
  {
    var (r, end) := PartsAt(linked, more, body, head, start).value;
    var mid := LayoutEnd(linked, body, start).value;
    PiecesFit(linked, body, start);
    AmplifyIff(body, mid, r.amplify);
    PiecesFit(more, body, mid + AMPLIFY);
    Cut(body, start, mid, mid + AMPLIFY, end);
  }

  lemma PrefixThere(a: Text, s: Text, at: nat)
    requires at + |a| <= |s| && s[at..at + |a|] == a
    ensures a <= s[at..]
  {
    assert s[at..][..|a|] == s[at..at + |a|];
  }

  lemma ThreeParts(a: Text, b: Text, c: Text, s: Text, at: nat)
    requires at <= |s| && a + (b + c) <= s[at..]
    ensures at + |a| + |b| <= |s| && a <= s[at..] && c <= s[at + |a| + |b|..]
    ensures s[at + |a|..at + |a| + |b|] == b
  {
    Prefixes(a, b + c, s, at);
    Prefixes(b, c, s, at + |a|);
    PrefixThere(a, s, at);
  }

  // The pieces in front of two other parts, and those behind them.
  lemma FirstReads(layout: Layout, pieces: seq<Text>, b: Text, c: Text, body: Text, start: nat)
    requires start <= |body| && Fits(layout, pieces) && Concat(pieces) + (b + c) <= body[start..]
    ensures LayoutEnd(layout, body, start) == Some(start + |Concat(pieces)|) && Pieces(layout, body, start) == pieces
  {
    ThreeParts(Concat(pieces), b, c, body, start);
    FittingPiecesRead(layout, pieces, body, start);
  }

  lemma LastReads(a: Text, b: Text, layout: Layout, pieces: seq<Text>, body: Text, start: nat)
    requires start <= |body| && Fits(layout, pieces) && a + (b + Concat(pieces)) <= body[start..]
    ensures var at := start + |a| + |b|;
            && at <= |body| && LayoutEnd(layout, body, at) == Some(at + |Concat(pieces)|)
            && Pieces(layout, body, at) == pieces
  {
    ThreeParts(a, b, Concat(pieces), body, start);
    FittingPiecesRead(layout, pieces, body, start + |a| + |b|);
  }

  lemma MiddleReads(a: Text, amplify: Amplify, c: Text, body: Text, start: nat)
    requires start <= |body| && |amplify.auxiliary| == 5 && a + (AmplifyBytes(amplify) + c) <= body[start..]
    ensures |AmplifyBytes(amplify)| == AMPLIFY && start + |a| + AMPLIFY <= |body|
    ensures AmplifyAt(body, start + |a|) == amplify
  {
    ThreeParts(a, AmplifyBytes(amplify), c, body, start);
    AmplifyIff(body, start + |a|, amplify);
  }

  lemma PartsAre(linked: Layout, more: Layout, body: Text, r: Row, start: nat, mid: nat, end: nat)
    requires start <= |body| && LayoutEnd(linked, body, start) == Some(mid) && mid + AMPLIFY <= |body|
    requires LayoutEnd(more, body, mid + AMPLIFY) == Some(end) && AmplifyAt(body, mid) == r.amplify
    requires Pieces(linked, body, start) == r.linked && Pieces(more, body, mid + AMPLIFY) == r.more
    ensures PartsAt(linked, more, body, r.head, start) == Some((r, end))
  {
  }

  lemma PartsComplete(linked: Layout, more: Layout, body: Text, r: Row, start: nat)
    requires start <= |body| && PartsFit(linked, more, r) && RestBytes(r) <= body[start..]
    ensures PartsAt(linked, more, body, r.head, start) == Some((r, start + |RestBytes(r)|))
  {
    var front, amplify, back := Concat(r.linked), AmplifyBytes(r.amplify), Concat(r.more);
    MiddleReads(front, r.amplify, back, body, start);
    FirstReads(linked, r.linked, amplify, back, body, start);
    LastReads(front, amplify, more, r.more, body, start);
    PartsAre(linked, more, body, r, start, start + |front|, start + |RestBytes(r)|);
  }

  lemma RowSound(body: Text, at: nat)
    requires RowAt(body, at).Some?
    ensures var (r, end) := RowAt(body, at).value;
            WellFormed(r) && body[at..end] == RowBytes(r)
  {
    var (r, end) := RowAt(body, at).value;
    HeadIff(body, at, r.head);
    PartsSound(LinkedLayout(r.head), MoreLayout(r.head.slot), body, r.head, at + HEAD);
    assert body[at..end] == body[at..at + HEAD] + body[at + HEAD..end];
  }

  lemma RowComplete(body: Text, at: nat, r: Row)
    requires at <= |body| && WellFormed(r) && RowBytes(r) <= body[at..]
    ensures RowAt(body, at) == Some((r, at + |RowBytes(r)|))
  {
    Prefixes(HeadBytes(r.head), RestBytes(r), body, at);
    HeadIff(body, at, r.head);
    PartsComplete(LinkedLayout(r.head), MoreLayout(r.head.slot), body, r, at + HEAD);
  }

  // A row is read exactly where the bytes of a well-formed one stand.
  lemma RowsLawful()
    ensures Lawful(ROWS)
  {
    forall body: Text, at: nat, r: Row, end: nat ensures ReadsAt(ROWS, body, at, r, end) {
      RowIff(body, at, r, end);
    }
  }

  lemma RowIff(body: Text, at: nat, r: Row, end: nat)
    ensures RowAt(body, at) == Some((r, end)) <==>
              at <= end <= |body| && WellFormed(r) && body[at..end] == RowBytes(r)
  {
    if RowAt(body, at).Some? { RowSound(body, at); }
    if at <= end <= |body| && WellFormed(r) && body[at..end] == RowBytes(r) {
      assert body[at..][..end - at] == body[at..end];
      RowComplete(body, at, r);
    }
  }

  // ---- The parser accepts exactly the grammar ----

  // Slots lie in 0..32, so distinct ones are never more than the snapshot has
  // room for: the capacity check refuses nothing the others let through.
  lemma CarriedRowsFit(body: Text, at: nat, rows: seq<Row>)
    requires Carries(ROWS, body, at, rows)
    ensures |rows| <= MAX_ITEMS
  {
    FreshRowsMeans(ROWS, rows, {});
    SlotsBelow(rows);
    FreshRowsAreFew(ROWS, rows, {}, MAX_SLOT + 1);
  }

  lemma SlotsBelow(rows: seq<Row>)
    ensures KeysBelow(ROWS, rows, MAX_SLOT + 1)
  {
  }

  // Main result: a snapshot is accepted exactly when it is that of rows the
  // body carries.
  lemma ParsedIff(body: Text, statDataOffset: uint32, generation: uint32, snapshot: Snapshot)
    ensures Parse(body, statDataOffset, generation) == Some(snapshot) <==>
              exists rows :: Carries(ROWS, body, (statDataOffset + 93) % 0x1_0000_0000, rows)
                             && snapshot == SnapshotOf(rows, generation)
  {
    var at := CountOffset(statDataOffset);
    RowsLawful();
    if Parse(body, statDataOffset, generation) == Some(snapshot) {
      CarriedIff(ROWS, body, at, RowsAt(ROWS, body, at + 1, body[at], {}).value.0);
    }
    forall rows | Carries(ROWS, body, at, rows)
      ensures Parse(body, statDataOffset, generation) == Some(SnapshotOf(rows, generation))
    {
      CarriedIff(ROWS, body, at, rows);
      CarriedRowsFit(body, at, rows);
    }
  }

  // A body carries at most one list of rows.
  lemma CarriedRowsUnique(body: Text, at: nat, a: seq<Row>, b: seq<Row>)
    requires Carries(ROWS, body, at, a) && Carries(ROWS, body, at, b)
    ensures a == b
  {
    RowsLawful();
    CarriedIff(ROWS, body, at, a);
    CarriedIff(ROWS, body, at, b);
  }

  // ---- The program ----

  method Skip(body: Text, cursor: nat, size: nat) returns (ok: bool, next: nat)
    requires cursor <= |body|
    ensures BytesEnd(body, cursor, size) == if ok then Some(next) else None
    ensures next <= |body| && (!ok ==> next == cursor)
  {
    if size > |body| - cursor { return false, cursor; }
    return true, cursor + size;
  }

  method SkipRawBlock(body: Text, cursor: nat) returns (ok: bool, next: nat)
    requires cursor <= |body|
    ensures BlockEnd(body, cursor) == if ok then Some(next) else None
    ensures next <= |body|
  {
    next := cursor;
    ok, next := Skip(body, next, 4);
    if !ok { return; }
    var length := FromLE(body[cursor..next]);
    if length > 1024 { return false, next; }
    ok, next := Skip(body, next, length);
  }

  // A count byte of at most limit and that many records.
  method SkipCounted(body: Text, cursor: nat, limit: nat, width: nat) returns (ok: bool, next: nat)
    requires cursor <= |body|
    ensures CountedEnd(body, cursor, limit, width) == if ok then Some(next) else None
    ensures next <= |body|
  {
    ok, next := Skip(body, cursor, 1);
    if !ok { return; }
    if body[cursor] > limit { return false, next; }
    var count: int := body[cursor];
    ok, next := Skip(body, next, count * width);
  }

  method SkipIndexed(body: Text, cursor: nat) returns (ok: bool, next: nat)
    requires cursor <= |body|
    ensures IndexedEnd(body, cursor) == if ok then Some(next) else None
    ensures next <= |body|
  {
    ok, next := SkipCounted(body, cursor, 3, 3);
    if !ok || body[cursor] == 0 { return; }
    var selection := next;
    ok, next := Skip(body, selection, 2);
    if ok && body[selection + 1] != 0xFF { ok, next := Skip(body, next, 4); }
  }

  lemma OneLeft(shape: Shape, body: Text, at: nat)
    requires at <= |body|
    ensures LayoutEnd(Then(shape, End), body, at) == ShapeEnd(shape, body, at)
  {
  }

  method SkipLastBlocks(body: Text, cursor: nat) returns (ok: bool, next: nat)
    requires cursor <= |body|
    ensures LayoutEnd(LAST_BLOCKS, body, cursor) == if ok then Some(next) else None
    ensures next <= |body|
  {
    ok, next := SkipRawBlock(body, cursor);
    if !ok { return; }
    assert LayoutEnd(LAST_BLOCKS, body, cursor) == LayoutEnd(LAST_BLOCKS.rest, body, next);
    ok, next := Skip(body, next, 1);
    if !ok { return; }
    OneLeft(Block, body, next);
    ok, next := SkipRawBlock(body, next);
  }

  method SkipTail(body: Text, cursor: nat) returns (ok: bool, next: nat)
    requires cursor <= |body|
    ensures LayoutEnd(TAIL, body, cursor) == if ok then Some(next) else None
    ensures next <= |body|
  {
    ok, next := Skip(body, cursor, 10);
    if !ok { return; }
    ok, next := SkipRawBlock(body, next);
    if !ok { return; }
    ok, next := SkipLastBlocks(body, next);
  }

  method SkipIndexedOn(body: Text, cursor: nat) returns (ok: bool, next: nat)
    requires cursor <= |body|
    ensures LayoutEnd(INDEXED, body, cursor) == if ok then Some(next) else None
    ensures next <= |body|
  {
    ok, next := Skip(body, cursor, 2);
    if !ok { return; }
    ok, next := SkipIndexed(body, next);
    if !ok { return; }
    ok, next := SkipTail(body, next);
  }

  method SkipDwordsOn(body: Text, cursor: nat) returns (ok: bool, next: nat)
    requires cursor <= |body|
    ensures LayoutEnd(DWORDS, body, cursor) == if ok then Some(next) else None
    ensures next <= |body|
  {
    ok, next := Skip(body, cursor, 4);
    if !ok { return; }
    ok, next := SkipCounted(body, next, 2, 4);
    if !ok { return; }
    ok, next := SkipIndexedOn(body, next);
  }

  method SkipVectors(body: Text, cursor: nat) returns (ok: bool, next: nat)
    requires cursor <= |body|
    ensures LayoutEnd(VECTORS, body, cursor) == if ok then Some(next) else None
    ensures next <= |body|
  {
    ok, next := SkipCounted(body, cursor, 2, 8);
    if !ok { return; }
    ok, next := SkipDwordsOn(body, next);
  }

  method SkipMore(body: Text, cursor: nat, slot: byte) returns (ok: bool, next: nat)
    requires cursor <= |body|
    ensures LayoutEnd(MoreLayout(slot), body, cursor) == if ok then Some(next) else None
    ensures next <= |body|
  {
    ok, next := true, cursor;
    if slot <= 0x0B {
      ok, next := SkipRawBlock(body, next);
      if !ok { return; }
      ok, next := SkipRawBlock(body, next);
      if !ok { return; }
    }
    if slot == 26 {
      ok, next := Skip(body, next, 4);
      if !ok { return; }
    }
    ok, next := SkipVectors(body, next);
  }

  // The mask holds exactly the slots seen.
  predicate Represents(mask: nat, seen: set<byte>) {
    && mask < Pow2(64)
    && forall slot: byte :: HasBit(mask, slot) <==> slot in seen
  }

  lemma MarkSeen(mask: nat, seen: set<byte>, slot: byte)
    requires Represents(mask, seen) && slot <= MAX_SLOT
    ensures Represents(SetBit(mask, slot), seen + {slot})
  {
    SetBitFits(mask, slot, 64);
    forall s: byte { SetBitSets(mask, slot, s); }
  }

  lemma NothingSeen()
    ensures Represents(0, {})
  {
    forall s: byte { NoBits(s); }
  }

  // The part of a row behind its head.
  method ParseRest(body: Text, head: Head, start: nat) returns (ok: bool, next: nat, amplify: Amplify)
    requires start <= |body|
    ensures ok <==> RestAt(body, head, start).Some?
    ensures ok ==> var (row, end) := RestAt(body, head, start).value; amplify == row.amplify && next == end
  {
    ok, next, amplify := true, start, Amplify([], 0, 0);
    if head.linkedItemID != 0 && head.slot == 9 {
      OneLeft(Block, body, start);
      ok, next := SkipRawBlock(body, next);
      if !ok { return; }
    }
    var mid := next;
    ok, next := Skip(body, mid, 8);
    if !ok { return; }
    amplify := AmplifyAt(body, mid);
    ok, next := SkipMore(body, next, head.slot);
  }

  // One turn of the row loop.
  method ParseRow(body: Text, start: nat, seenSlots: nat, ghost seen: set<byte>)
    returns (ok: bool, next: nat, marked: nat, item: Item)
    requires start <= |body| && Represents(seenSlots, seen)
    ensures ok <==> RowAt(body, start).Some? && RowAt(body, start).value.0.head.slot !in seen
    ensures ok ==> var (row, end) := RowAt(body, start).value;
                   item == ItemOf(row) && next == end && Represents(marked, seen + {row.head.slot})
  {
    item, marked := NO_ITEM, seenSlots;
    ok, next := Skip(body, start, 16);
    if !ok { return; }
    var head := HeadAt(body, start);
    if head.slot > 32 || head.itemID == 0 || HasBit(seenSlots, head.slot) { ok := false; return; }
    MarkSeen(seenSlots, seen, head.slot);
    marked := SetBit(seenSlots, head.slot);
    var amplify;
    ok, next, amplify := ParseRest(body, head, next);
    item := Item(head.itemID, head.qualitySeed, head.durability, amplify.value, head.slot, head.ext % 32, amplify.kind);
  }

  lemma StoreItem(rows: seq<Row>, row: Row)
    requires |rows| < MAX_ITEMS
    ensures Stored(rows + [row]) == Stored(rows)[|rows| := ItemOf(row)]
  {
  }

  method ParseRows(body: Text, start: nat, rowCount: nat) returns (items: Option<seq<Item>>)
    requires start <= |body| && rowCount <= MAX_ITEMS
    ensures items == EntriesAt(body, start, rowCount)
  {
    var cursor: nat := start;
    var stored := seq(MAX_ITEMS, i => NO_ITEM);
    var seenSlots := 0;
    ghost var rows: seq<Row>, seen: set<byte> := [], {};
    NothingSeen();
    ReadingStarts(ROWS, body, start, rowCount);
    for index := 0 to rowCount
      invariant cursor <= |body| && |rows| == index
      invariant Represents(seenSlots, seen) && stored == Stored(rows)
      invariant Reading(ROWS, body, start, rowCount, rows, cursor, seen)
    {
      ReadingStep(ROWS, body, start, rowCount, rows, cursor, seen);
      var ok, next, marked, item := ParseRow(body, cursor, seenSlots, seen);
      if !ok { return None; }
      ghost var row := RowAt(body, cursor).value.0;
      StoreItem(rows, row);
      stored := stored[index := item];
      rows, seen := rows + [row], seen + {row.head.slot};
      cursor, seenSlots := next, marked;
    }
    ReadingEnds(ROWS, body, start, rows, cursor, seen);
    items := Some(stored);
  }

  method ParseCurrentEquipmentSnapshot(body: Text, statDataOffset: uint32, generation: uint32)
    returns (snapshot: Option<Snapshot>)
    ensures snapshot == Parse(body, statDataOffset, generation)
  {
    var countOffset := CountOffset(statDataOffset);
    if countOffset >= |body| { return None; }
    var rowCount: int := body[countOffset];
    if rowCount > 33 { return None; }
    var items := ParseRows(body, countOffset + 1, rowCount);
    snapshot := TakeSnapshot(items, rowCount, generation);
  }

  // ---- What the layouts and the summary say ----

  // Ten pieces: a counted list of 8-byte records, four bytes, a counted list
  // of 4-byte records, two bytes, an indexed list, ten bytes, two blocks, a byte
  // and a block.
  predicate CommonPieces(pieces: seq<Text>) {
    && |pieces| == 10
    && IsCounted(pieces[0], 2, 8) && |pieces[1]| == 4 && IsCounted(pieces[2], 2, 4) && |pieces[3]| == 2
    && IsIndexed(pieces[4]) && |pieces[5]| == 10 && IsBlock(pieces[6]) && IsBlock(pieces[7]) && |pieces[8]| == 1
    && IsBlock(pieces[9])
  }

  lemma FitsNext(shape: Shape, rest: Layout, pieces: seq<Text>)
    ensures Fits(Then(shape, rest), pieces) <==> pieces != [] && Has(shape, pieces[0]) && Fits(rest, pieces[1..])
  {
  }

  lemma LastBlocksIff(pieces: seq<Text>)
    ensures Fits(LAST_BLOCKS, pieces) <==>
              |pieces| == 3 && IsBlock(pieces[0]) && |pieces[1]| == 1 && IsBlock(pieces[2])
  {
    FitsNext(Block, Then(Fixed(1), Then(Block, End)), pieces);
    if pieces != [] {
      var more := pieces[1..];
      FitsNext(Fixed(1), Then(Block, End), more);
      if more != [] {
        FitsNext(Block, End, more[1..]);
        assert more[1..] == pieces[2..];
      }
    }
  }

  lemma TailIff(pieces: seq<Text>)
    ensures Fits(TAIL, pieces) <==>
              && |pieces| == 5 && |pieces[0]| == 10 && IsBlock(pieces[1]) && IsBlock(pieces[2]) && |pieces[3]| == 1
              && IsBlock(pieces[4])
  {
    FitsNext(Fixed(10), Then(Block, LAST_BLOCKS), pieces);
    if pieces != [] {
      FitsNext(Block, LAST_BLOCKS, pieces[1..]);
      if |pieces| > 1 {
        assert pieces[1..][1..] == pieces[2..];
        LastBlocksIff(pieces[2..]);
      }
    }
  }

  lemma IndexedIff(pieces: seq<Text>)
    ensures Fits(INDEXED, pieces) <==>
              && |pieces| == 7 && |pieces[0]| == 2 && IsIndexed(pieces[1]) && |pieces[2]| == 10 && IsBlock(pieces[3])
              && IsBlock(pieces[4]) && |pieces[5]| == 1 && IsBlock(pieces[6])
  {
    FitsNext(Fixed(2), Then(Indexed, TAIL), pieces);
    if pieces != [] {
      FitsNext(Indexed, TAIL, pieces[1..]);
      if |pieces| > 1 {
        assert pieces[1..][1..] == pieces[2..];
        TailIff(pieces[2..]);
      }
    }
  }

  lemma VectorsIff(pieces: seq<Text>)
    ensures Fits(VECTORS, pieces) <==> CommonPieces(pieces)
  {
    FitsNext(Counted(2, 8), DWORDS, pieces);
    if pieces != [] {
      FitsNext(Fixed(4), Then(Counted(2, 4), INDEXED), pieces[1..]);
      if |pieces| > 1 {
        assert pieces[1..][1..] == pieces[2..];
        FitsNext(Counted(2, 4), INDEXED, pieces[2..]);
        if |pieces| > 2 {
          assert pieces[2..][1..] == pieces[3..];
          IndexedIff(pieces[3..]);
        }
      }
    }
  }

  // Main result: behind the amplification avatar slots have two blocks, slot 26
  // has four bytes, and then every slot has the same ten pieces.
  lemma MoreFitsIff(slot: byte, pieces: seq<Text>)
    ensures Fits(MoreLayout(slot), pieces) <==>
              if slot <= 11 then
                |pieces| == 12 && IsBlock(pieces[0]) && IsBlock(pieces[1]) && CommonPieces(pieces[2..])
              else if slot == 26 then |pieces| == 11 && |pieces[0]| == 4 && CommonPieces(pieces[1..])
              else CommonPieces(pieces)
  {
    if slot <= 11 {
      FitsNext(Block, Then(Block, VECTORS), pieces);
      if pieces != [] {
        FitsNext(Block, VECTORS, pieces[1..]);
        if |pieces| > 1 {
          assert pieces[1..][1..] == pieces[2..];
          VectorsIff(pieces[2..]);
        }
      }
    } else if slot == 26 {
      FitsNext(Fixed(4), VECTORS, pieces);
      if pieces != [] { VectorsIff(pieces[1..]); }
    } else {
      VectorsIff(pieces);
    }
  }

  // Only slot 9 with a linked item has a block before its amplification.
  lemma LinkedFitsIff(head: Head, pieces: seq<Text>)
    ensures Fits(LinkedLayout(head), pieces) <==>
              if head.linkedItemID != 0 && head.slot == 9 then |pieces| == 1 && IsBlock(pieces[0]) else pieces == []
  {
    if head.linkedItemID != 0 && head.slot == 9 { FitsNext(Block, End, pieces); }
  }

  // Where a row's amplification begins: eight bytes, kind and value last.
  function AmplifyOffset(r: Row, at: nat): nat {
    at + 16 + |Concat(r.linked)|
  }

  lemma SummaryHead(body: Text, at: nat, r: Row, end: nat)
    requires RowAt(body, at) == Some((r, end))
    ensures at + 16 <= |body| && r.head == HeadAt(body, at)
  {
  }

  // Main result: which bytes of a row its summary shows.
  lemma SummaryIs(body: Text, at: nat, r: Row, end: nat)
    requires RowAt(body, at) == Some((r, end))
    ensures var item := ItemOf(r);
            && at + 16 <= |body| && item.actorSlot == body[at] && item.itemID == FromLE(body[at + 1..at + 5])
            && item.qualitySeed == FromLE(body[at + 5..at + 9]) && item.upgradeLevel == body[at + 9] % 32
            && item.durability == FromLE(body[at + 10..at + 12])
    ensures var item, mid := ItemOf(r), AmplifyOffset(r, at);
            && mid + 8 <= |body| && item.amplifyType == body[mid + 5]
            && item.amplifyValue == FromLE(body[mid + 6..mid + 8])
  {
    SummaryHead(body, at, r, end);
    RowSound(body, at);
    RestBegins(body, at, r, end);
    AmplifyBegins(body, at + 16, r);
  }

  lemma RestBegins(body: Text, at: nat, r: Row, end: nat)
    requires at + 16 <= end <= |body| && body[at..end] == RowBytes(r)
    ensures RestBytes(r) <= body[at + 16..]
  {
    SubSlice(body, at, end - at, 16, end - at);
    assert RowBytes(r)[16..] == RestBytes(r);
    PrefixThere(RestBytes(r), body, at + 16);
  }

  lemma AmplifyBegins(body: Text, start: nat, r: Row)
    requires start <= |body| && |r.amplify.auxiliary| == 5 && RestBytes(r) <= body[start..]
    ensures var mid := start + |Concat(r.linked)|;
            mid + 8 <= |body| && r.amplify.kind == body[mid + 5] && r.amplify.value == FromLE(body[mid + 6..mid + 8])
  {
    MiddleReads(Concat(r.linked), r.amplify, Concat(r.more), body, start);
  }
}
