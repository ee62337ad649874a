// Rows of the shop's package section: encoding, reading back and checking
// (go-server/cmd/scratch/pvfshopgift/main.go).
module PackageRows {
  import opened Arithmetic
  import opened Bytes
  import opened CommodityIds
  import opened Sequences
  import opened Text
  import opened TokenStream
  import opened Wrappers

  const ROW := 11

  datatype PackageRow = PackageRow(commodityID: uint32, itemID: uint32, price: uint32, nameMagic: int32, jobCode: int32)

  // ---- Encoding ----

  function IntToken(u: uint32): Token {
    Token(INT_KIND, ToSigned(u))
  }

  function RowTokens(r: PackageRow): (ts: seq<Token>)
    ensures |ts| == ROW
  {
    [IntToken(r.commodityID), IntToken(r.itemID), Token(INT_KIND, 0), Token(INT_KIND, 0), IntToken(r.price),
     Token(STRING_KIND, r.nameMagic), Token(INT_KIND, 1), Token(INT_KIND, 0), Token(INT_KIND, -1),
     Token(INT_KIND, -1), Token(INT_KIND, r.jobCode)]
  }

  function RowsTokens(rows: seq<PackageRow>): (ts: seq<Token>)
    ensures |ts| == ROW * |rows|
  {
    if rows == [] then [] else RowsTokens(rows[..|rows| - 1]) + RowTokens(rows[|rows| - 1])
  }

  lemma {:induction false} EncodeConcat(a: seq<Token>, b: seq<Token>)
    ensures Encode(a + b) == Encode(a) + Encode(b)
  {
    if a == [] {
      assert a + b == b;
    } else {
      EncodeConcat(a[1..], b);
      assert (a + b)[0] == a[0] && (a + b)[1..] == a[1..] + b;
      Associative(TokenBytes(a[0]), Encode(a[1..]), Encode(b));
    }
  }

  method AppendToken(out: Text, kind: byte, value: int32, ghost ts: seq<Token>) returns (next: Text)
    requires out == Encode(ts)
    ensures next == Encode(ts + [Token(kind, value)])
  {
    EncodeConcat(ts, [Token(kind, value)]);
    OneToken(Token(kind, value));
    next := out + ([kind] + LE(ToUnsigned(value), 4));
  }

  lemma OneToken(t: Token)
    ensures Encode([t]) == TokenBytes(t)
  {
    assert Encode([t]) == TokenBytes(t) + Encode([t][1..]);
  }

  method AppendRow(start: Text, row: PackageRow, ghost ts: seq<Token>) returns (out: Text)
    requires start == Encode(ts)
    ensures out == Encode(ts + RowTokens(row))
  {
    var values := [ToSigned(row.commodityID), ToSigned(row.itemID), 0, 0, ToSigned(row.price), row.nameMagic, 1, 0,
                   -1, -1, row.jobCode];
    ghost var tokens := RowTokens(row);
    out := start;
    assert ts + tokens[..0] == ts;
    for i := 0 to 11
      invariant out == Encode(ts + tokens[..i])
    {
      OneTokenMore(ts, tokens, i);
      out := AppendToken(out, if i == 5 then 6 else 0, values[i], ts + tokens[..i]);
    }
    assert tokens[..11] == tokens;
  }

  lemma OneTokenMore(ts: seq<Token>, tokens: seq<Token>, i: nat)
    requires i < |tokens|
    ensures ts + tokens[..i] + [tokens[i]] == ts + tokens[..i + 1]
  {
  }

  method EncodePackageRows(rows: seq<PackageRow>) returns (out: Text)
    ensures out == Encode(RowsTokens(rows))
  {
    out := [];
    for i := 0 to |rows|
      invariant out == Encode(RowsTokens(rows[..i]))
    {
      assert rows[..i + 1][..i] == rows[..i];
      out := AppendRow(out, rows[i], RowsTokens(rows[..i]));
    }
    assert rows[..|rows|] == rows;
  }

  // Encoded rows hold no section marker.
  lemma {:induction false} RowsHoldNoMarker(rows: seq<PackageRow>)
    ensures forall i :: 0 <= i < |RowsTokens(rows)| ==> RowsTokens(rows)[i].kind != SECTION_KIND
  {
    if rows != [] { RowsHoldNoMarker(rows[..|rows| - 1]); }
  }

  // ---- The published rows ----

  function Cell(tokens: seq<Token>, row: nat, column: nat): Token
    requires column < ROW && ROW * row + ROW <= |tokens|
  {
    tokens[ROW * row + column]
  }

  predicate Positive(t: Token) {
    t.kind == INT_KIND && t.value > 0
  }

  predicate ValidRow(tokens: seq<Token>, row: nat)
    requires ROW * row + ROW <= |tokens|
  {
    Positive(Cell(tokens, row, 0)) && Positive(Cell(tokens, row, 1))
  }

  // The ids in one column of the first rows.
  function Column(tokens: seq<Token>, rows: nat, column: nat): (ids: set<uint32>)
    requires column < ROW && ROW * rows <= |tokens|
  {
    if rows == 0 then {} else Column(tokens, rows - 1, column) + {ToUnsigned(Cell(tokens, rows - 1, column).value)}
  }

  predicate AllValid(tokens: seq<Token>, rows: nat)
    requires ROW * rows <= |tokens|
  {
    rows == 0 || (AllValid(tokens, rows - 1) && ValidRow(tokens, rows - 1))
  }

  lemma {:induction false} InvalidRow(tokens: seq<Token>, rows: nat, r: nat)
    requires ROW * rows <= |tokens| && r < rows && ROW * r + ROW <= |tokens| && !ValidRow(tokens, r)
    ensures !AllValid(tokens, rows)
    decreases rows
  {
    if r < rows - 1 { InvalidRow(tokens, rows - 1, r); }
  }

  // The section's length in tokens.
  lemma WholeRows(interior: Text)
    requires |interior| % (ROW * WIDTH) == 0
    ensures |Tokens(interior)| == ROW * (|interior| / (ROW * WIDTH))
  {
    SameQuotient(|interior|, ROW * (|interior| / (ROW * WIDTH)), 0, WIDTH);
  }

  method ReadCell(interior: Text, row: nat, column: nat) returns (t: Token)
    requires column < ROW && ROW * row + ROW <= |Tokens(interior)|
    ensures t == Cell(Tokens(interior), row, column)
  {
    MultipleIndex(ROW * row + column, |interior|);
    t := TokenAt(interior, 11 * row + column);
  }

  datatype Ids = Ids(items: set<uint32>, commodities: set<uint32>)

  // The ids of a section's rows, if in every row both are positive integers.
  function ExistingIds(interior: Text): Option<Ids>
    requires |interior| % (ROW * WIDTH) == 0
  {
    WholeRows(interior);
    var tokens := Tokens(interior);
    var rows := |interior| / (ROW * WIDTH);
    if AllValid(tokens, rows) then Some(Ids(Column(tokens, rows, 1), Column(tokens, rows, 0))) else None
  }

  method ParseExistingPackageRows(interior: Text) returns (ids: Option<Ids>)
    requires |interior| % (ROW * WIDTH) == 0
    ensures ids == ExistingIds(interior)
  {
    var items: set<uint32>, commodities: set<uint32> := {}, {};
    var rows := |interior| / 55;
    WholeRows(interior);
    ghost var tokens := Tokens(interior);
    for r := 0 to rows
      invariant AllValid(tokens, r)
      invariant items == Column(tokens, r, 1) && commodities == Column(tokens, r, 0)
    {
      var commodity := ReadCell(interior, r, 0);
      if commodity.kind != 0 || commodity.value <= 0 { InvalidRow(tokens, rows, r); return None; }
      var item := ReadCell(interior, r, 1);
      if item.kind != 0 || item.value <= 0 { InvalidRow(tokens, rows, r); return None; }
      commodities := commodities + {ToUnsigned(commodity.value)};
      items := items + {ToUnsigned(item.value)};
    }
    ids := Some(Ids(items, commodities));
  }

  // ---- The check of the result ----

  datatype Seen = Seen(item: uint32, price: uint32, job: int32)

  function SeenOf(r: PackageRow): Seen {
    Seen(r.itemID, r.price, r.jobCode)
  }

  // What the check has collected from the first rows, by commodity; a later
  // row replaces an earlier one.
  function Collected(tokens: seq<Token>, rows: nat): (m: map<uint32, Seen>)
    requires ROW * rows <= |tokens|
    ensures forall id :: id in m ==> 0 < id < TWO31
  {
    if rows == 0 then map[]
    else
      var m := Collected(tokens, rows - 1);
      var r := rows - 1;
      if Positive(Cell(tokens, r, 0)) && Cell(tokens, r, 1).kind == INT_KIND && Cell(tokens, r, 4).kind == INT_KIND
         && Cell(tokens, r, 10).kind == INT_KIND
      then m[ToUnsigned(Cell(tokens, r, 0).value) :=
             Seen(ToUnsigned(Cell(tokens, r, 1).value), ToUnsigned(Cell(tokens, r, 4).value),
                  Cell(tokens, r, 10).value)]
      else m
  }

  predicate AllCollected(m: map<uint32, Seen>, rows: seq<PackageRow>) {
    forall i :: 0 <= i < |rows| ==> rows[i].commodityID in m && m[rows[i].commodityID] == SeenOf(rows[i])
  }

  method CollectRows(interior: Text) returns (byCommodity: map<uint32, Seen>)
    requires |interior| % (ROW * WIDTH) == 0
    ensures |Tokens(interior)| == ROW * (|interior| / (ROW * WIDTH))
    ensures byCommodity == Collected(Tokens(interior), |interior| / (ROW * WIDTH))
  {
    byCommodity := map[];
    var rows := |interior| / 55;
    WholeRows(interior);
    ghost var tokens := Tokens(interior);
    for r := 0 to rows
      invariant byCommodity == Collected(tokens, r)
    {
      var commodity := ReadCell(interior, r, 0);
      if commodity.kind == 0 && commodity.value > 0 {
        var item := ReadCell(interior, r, 1);
        var price := ReadCell(interior, r, 4);
        var job := ReadCell(interior, r, 10);
        if item.kind == 0 && price.kind == 0 && job.kind == 0 {
          byCommodity := byCommodity[ToUnsigned(commodity.value) :=
                           Seen(ToUnsigned(item.value), ToUnsigned(price.value), job.value)];
        }
      }
    }
  }

  method MatchRows(byCommodity: map<uint32, Seen>, rows: seq<PackageRow>) returns (ok: bool)
    ensures ok <==> AllCollected(byCommodity, rows)
  {
    for i := 0 to |rows|
      invariant AllCollected(byCommodity, rows[..i])
    {
      var want := rows[i];
      if want.commodityID !in byCommodity || byCommodity[want.commodityID] != SeenOf(want) { return false; }
    }
    assert rows[..|rows|] == rows;
    ok := true;
  }

  predicate DistinctCommodities(rows: seq<PackageRow>) {
    forall i, j :: 0 <= i < j < |rows| ==> rows[i].commodityID != rows[j].commodityID
  }

  // The cells of an appended row.
  lemma AppendedCells(published: seq<Token>, count: nat, rows: seq<PackageRow>, k: nat)
    requires |published| == ROW * count && k < |rows|
    ensures var all := published + RowsTokens(rows);
            && ROW * (count + k) + ROW <= |all|
            && Cell(all, count + k, 0) == IntToken(rows[k].commodityID)
            && Cell(all, count + k, 1) == IntToken(rows[k].itemID)
            && Cell(all, count + k, 4) == IntToken(rows[k].price)
            && Cell(all, count + k, 10) == Token(INT_KIND, rows[k].jobCode)
  {
    RowsTokensAt(rows, k);
    var all := published + RowsTokens(rows);
    TailSlice(published, RowsTokens(rows), ROW * k, ROW * k + ROW);
    CellsOfRow(all, count + k, RowTokens(rows[k]));
  }

  lemma CellsOfRow(tokens: seq<Token>, r: nat, row: seq<Token>)
    requires |row| == ROW && ROW * r + ROW <= |tokens| && tokens[ROW * r..ROW * r + ROW] == row
    ensures Cell(tokens, r, 0) == row[0] && Cell(tokens, r, 1) == row[1]
    ensures Cell(tokens, r, 4) == row[4] && Cell(tokens, r, 10) == row[10]
  {
    var slice := tokens[ROW * r..ROW * r + ROW];
    assert slice[0] == row[0] && slice[1] == row[1] && slice[4] == row[4] && slice[10] == row[10];
  }

  lemma {:induction false} RowsTokensAt(rows: seq<PackageRow>, k: nat)
    requires k < |rows|
    ensures ROW * k + ROW <= |RowsTokens(rows)| && RowsTokens(rows)[ROW * k..ROW * k + ROW] == RowTokens(rows[k])
    decreases |rows|
  {
    var last := |rows| - 1;
    var front, row := RowsTokens(rows[..last]), RowTokens(rows[last]);
    assert RowsTokens(rows) == front + row;
    if k < last {
      RowsTokensAt(rows[..last], k);
      HeadSlice(front, row, ROW * k, ROW * k + ROW);
    } else {
      TailSlice(front, row, 0, ROW);
      assert row[0..ROW] == row;
    }
  }

  lemma {:induction false} CollectedAppended(published: seq<Token>, count: nat, rows: seq<PackageRow>, k: nat)
    requires |published| == ROW * count && k <= |rows| && DistinctCommodities(rows)
    ensures ROW * (count + k) <= |published + RowsTokens(rows)|
    ensures var m := Collected(published + RowsTokens(rows), count + k);
            forall i :: 0 <= i < k && 0 < rows[i].commodityID < TWO31 ==>
              rows[i].commodityID in m && m[rows[i].commodityID] == SeenOf(rows[i])
    decreases k
  {
    if k > 0 {
      CollectedAppended(published, count, rows, k - 1);
      AppendedCells(published, count, rows, k - 1);
      var row := rows[k - 1];
      UnsignedOfSigned(row.commodityID);
      UnsignedOfSigned(row.itemID);
      UnsignedOfSigned(row.price);
    }
  }

  // Main result: rows of distinct ids that were appended are found by the check
  // exactly when every commodity id is positive as a script integer.
  lemma AppendedVerified(published: seq<Token>, count: nat, rows: seq<PackageRow>)
    requires |published| == ROW * count && DistinctCommodities(rows)
    ensures AllCollected(Collected(published + RowsTokens(rows), count + |rows|), rows) <==>
              forall i :: 0 <= i < |rows| ==> 0 < rows[i].commodityID < TWO31
  {
    CollectedAppended(published, count, rows, |rows|);
  }

  // ---- The rows as they are read from a stream ----

  // The eleven tokens of a row, in order.
  predicate IsRow(ts: seq<Token>, r: PackageRow) {
    && |ts| == 11
    && ts[0] == Token(0, ToSigned(r.commodityID)) && ts[1] == Token(0, ToSigned(r.itemID))
    && ts[2] == Token(0, 0) && ts[3] == Token(0, 0) && ts[4] == Token(0, ToSigned(r.price))
    && ts[5] == Token(6, r.nameMagic) && ts[6] == Token(0, 1) && ts[7] == Token(0, 0)
    && ts[8] == Token(0, -1) && ts[9] == Token(0, -1) && ts[10] == Token(0, r.jobCode)
  }

  // Row k of those that begin at a token.
  predicate ShowsRow(raw: Text, at: nat, rows: seq<PackageRow>, k: nat) {
    && k < |rows| && at + 11 * k + 11 <= |Tokens(raw)|
    && IsRow(Tokens(raw)[at + 11 * k..at + 11 * k + 11], rows[k])
  }

  ghost predicate ShowsRows(raw: Text, at: nat, rows: seq<PackageRow>) {
    forall k :: 0 <= k < |rows| ==> ShowsRow(raw, at, rows, k)
  }

  lemma RowTokensAreRow(r: PackageRow)
    ensures IsRow(RowTokens(r), r)
  {
  }

  lemma RowShown(raw: Text, at: nat, rows: seq<PackageRow>, k: nat, all: seq<Token>, part: seq<Token>)
    requires k < |rows| && |all| == ROW * |rows| && at + |all| <= |Tokens(raw)|
    requires Tokens(raw)[at..at + |all|] == all && all[ROW * k..ROW * k + ROW] == part && IsRow(part, rows[k])
    ensures ShowsRow(raw, at, rows, k)
  {
    SubSlice(Tokens(raw), at, |all|, ROW * k, ROW * k + ROW);
  }

  // Main result: encoded rows are read back as eleven tokens each, in order.
  lemma EncodedRowsShow(raw: Text, at: nat, rows: seq<PackageRow>)
    requires at + ROW * |rows| <= |Tokens(raw)| && Tokens(raw)[at..at + ROW * |rows|] == RowsTokens(rows)
    ensures ShowsRows(raw, at, rows)
  {
    forall k | 0 <= k < |rows| ensures ShowsRow(raw, at, rows, k) {
      RowsTokensAt(rows, k);
      RowTokensAreRow(rows[k]);
      RowShown(raw, at, rows, k, RowsTokens(rows), RowTokens(rows[k]));
    }
  }

  // ---- The published ids as they are read from a section ----

  lemma {:induction false} ColumnIff(tokens: seq<Token>, rows: nat, column: nat, id: uint32)
    requires column < ROW && ROW * rows <= |tokens|
    ensures id in Column(tokens, rows, column) <==>
              exists r :: 0 <= r < rows && CellIs(tokens, r, column, id)
    decreases rows
  {
    if rows > 0 {
      ColumnIff(tokens, rows - 1, column, id);
      if id == ToUnsigned(Cell(tokens, rows - 1, column).value) { assert CellIs(tokens, rows - 1, column, id); }
    }
  }

  predicate CellIs(tokens: seq<Token>, r: nat, column: nat, id: uint32) {
    column < ROW && ROW * r + ROW <= |tokens| && ToUnsigned(tokens[11 * r + column].value) == id
  }

  lemma {:induction false} AllValidIff(tokens: seq<Token>, rows: nat)
    requires ROW * rows <= |tokens|
    ensures AllValid(tokens, rows) <==> forall r :: 0 <= r < rows ==> PositiveIds(tokens, r)
    decreases rows
  {
    if rows > 0 {
      AllValidIff(tokens, rows - 1);
      assert ValidRow(tokens, rows - 1) <==> PositiveIds(tokens, rows - 1);
    }
  }

  predicate PositiveIds(tokens: seq<Token>, r: nat) {
    && ROW * r + ROW <= |tokens|
    && tokens[11 * r].kind == 0 && tokens[11 * r].value > 0
    && tokens[11 * r + 1].kind == 0 && tokens[11 * r + 1].value > 0
  }

  // Main result: the ids of a section are the first tokens of its rows, the
  // items the second; it has them exactly if all of these are positive integers.
  lemma ExistingIdsIff(interior: Text)
    requires |interior| % 55 == 0
    ensures var tokens, rows := Tokens(interior), |interior| / 55;
            && (ExistingIds(interior).Some? <==> forall r :: 0 <= r < rows ==> PositiveIds(tokens, r))
            && (ExistingIds(interior).Some? ==> forall id: uint32 ::
                 && (id in ExistingIds(interior).value.commodities <==>
                     exists r :: 0 <= r < rows && CellIs(tokens, r, 0, id))
                 && (id in ExistingIds(interior).value.items <==>
                     exists r :: 0 <= r < rows && CellIs(tokens, r, 1, id)))
  {
    var tokens, rows := Tokens(interior), |interior| / 55;
    WholeRows(interior);
    AllValidIff(tokens, rows);
    forall id: uint32
      ensures id in Column(tokens, rows, 0) <==> exists r :: 0 <= r < rows && CellIs(tokens, r, 0, id)
      ensures id in Column(tokens, rows, 1) <==> exists r :: 0 <= r < rows && CellIs(tokens, r, 1, id)
    {
      ColumnIff(tokens, rows, 0, id);
      ColumnIff(tokens, rows, 1, id);
    }
  }

  // ---- What the check has collected ----

  // Row r counts for a commodity: its id is that positive integer, and its item,
  // price and job are integers.
  predicate RowCounts(tokens: seq<Token>, r: nat, id: uint32) {
    && ROW * r + ROW <= |tokens|
    && tokens[11 * r].kind == 0 && tokens[11 * r].value > 0 && ToUnsigned(tokens[11 * r].value) == id
    && tokens[11 * r + 1].kind == 0 && tokens[11 * r + 4].kind == 0 && tokens[11 * r + 10].kind == 0
  }

  // It is the last of the first rows that does, and says this.
  predicate LastCounts(tokens: seq<Token>, rows: nat, r: nat, id: uint32, s: Seen) {
    && r < rows && RowCounts(tokens, r, id)
    && s == Seen(ToUnsigned(tokens[11 * r + 1].value), ToUnsigned(tokens[11 * r + 4].value), tokens[11 * r + 10].value)
    && forall q :: r < q < rows ==> !RowCounts(tokens, q, id)
  }

  ghost predicate SeenAs(tokens: seq<Token>, rows: nat, id: uint32, s: Seen) {
    exists r :: LastCounts(tokens, rows, r, id, s)
  }

  lemma SeenNext(tokens: seq<Token>, rows: nat, id: uint32, s: Seen)
    requires rows > 0 && ROW * rows <= |tokens|
    ensures SeenAs(tokens, rows, id, s) <==>
            if RowCounts(tokens, rows - 1, id) then LastCounts(tokens, rows, rows - 1, id, s)
            else SeenAs(tokens, rows - 1, id, s)
  {
    var last := rows - 1;
    if RowCounts(tokens, last, id) {
      forall r: nat | LastCounts(tokens, rows, r, id, s) ensures r == last {
      }
    } else {
      if r: nat :| LastCounts(tokens, rows, r, id, s) { assert LastCounts(tokens, last, r, id, s); }
      if r: nat :| LastCounts(tokens, last, r, id, s) { assert LastCounts(tokens, rows, r, id, s); }
    }
  }

  // Main result: the check knows of a commodity what the last row that counts
  // for it says.
  lemma {:induction false} CollectedIff(tokens: seq<Token>, rows: nat, id: uint32, s: Seen)
    requires ROW * rows <= |tokens|
    ensures (id in Collected(tokens, rows) && Collected(tokens, rows)[id] == s) <==> SeenAs(tokens, rows, id, s)
    decreases rows
  {
    if rows > 0 {
      CollectedIff(tokens, rows - 1, id, s);
      SeenNext(tokens, rows, id, s);
      CollectedNext(tokens, rows, id, s);
    }
  }

  lemma CollectedNext(tokens: seq<Token>, rows: nat, id: uint32, s: Seen)
    requires rows > 0 && ROW * rows <= |tokens|
    ensures (id in Collected(tokens, rows) && Collected(tokens, rows)[id] == s) <==>
            if RowCounts(tokens, rows - 1, id) then LastCounts(tokens, rows, rows - 1, id, s)
            else id in Collected(tokens, rows - 1) && Collected(tokens, rows - 1)[id] == s
  {
  }
}
