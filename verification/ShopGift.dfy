// Appending packages to the shop's section of a token stream and checking the
// result (go-server/cmd/scratch/pvfshopgift/main.go, run and verifyOutput).
module ShopGift {
  import opened Arithmetic
  import opened Bytes
  import opened CommodityIds
  import opened PackageRows
  import opened RawSection
  import opened Text
  import opened TokenStream
  import opened Wrappers

  // An item to publish, with the name and job code its documents give.
  datatype Desired = Desired(itemID: uint32, price: uint32, nameMagic: int32, jobCode: int32)

  datatype Failure =
    | NoSection(search: Search)
    | Ragged
    | BadRow
    | AlreadyPresent(itemID: uint32)
    | BadMaximum(maximum: uint32)
    | Exhausted
    | Unverified

  const ROW_BYTES := 55

  // ---- The section's interior and the splice ----

  function Interior(raw: Text, start: nat, end: nat): Text
    requires start < end && WIDTH * end <= |raw|
  {
    raw[WIDTH * (start + 1)..WIDTH * end]
  }

  function Splice(raw: Text, rows: seq<PackageRow>, end: nat): Text
    requires WIDTH * end <= |raw|
  {
    raw[..WIDTH * end] + (Encode(RowsTokens(rows)) + raw[WIDTH * end..])
  }

  lemma TokensOfSlice(raw: Text, a: nat, b: nat)
    requires a <= b && WIDTH * b <= |raw|
    ensures b <= |Tokens(raw)| && Tokens(raw[WIDTH * a..WIDTH * b]) == Tokens(raw)[a..b]
    ensures Tokens(raw[WIDTH * b..]) == Tokens(raw)[b..]
  {
    ExactQuotient(b - a, WIDTH);
    assert |raw[WIDTH * a..WIDTH * b]| == (b - a) * WIDTH;
    SameQuotient(|raw|, b + |raw[WIDTH * b..]| / WIDTH, |raw[WIDTH * b..]| % WIDTH, WIDTH);
    ExactQuotient(a, WIDTH);
    ExactQuotient(b, WIDTH);
    assert raw == raw[..WIDTH * b] + raw[WIDTH * b..];
    assert raw[..WIDTH * b] == raw[..WIDTH * a] + raw[WIDTH * a..WIDTH * b];
    TokensOfConcat(raw[..WIDTH * b], raw[WIDTH * b..]);
    TokensOfConcat(raw[..WIDTH * a], raw[WIDTH * a..WIDTH * b]);
  }

  lemma TokensOfSplice(raw: Text, rows: seq<PackageRow>, end: nat)
    requires WIDTH * end <= |raw|
    ensures end <= |Tokens(raw)|
    ensures Tokens(Splice(raw, rows, end)) == Tokens(raw)[..end] + RowsTokens(rows) + Tokens(raw)[end..]
  {
    TokensOfSlice(raw, 0, end);
    ExactQuotient(end, WIDTH);
    ExactQuotient(|RowsTokens(rows)|, WIDTH);
    TokensOfConcat(raw[..WIDTH * end], Encode(RowsTokens(rows)) + raw[WIDTH * end..]);
    TokensOfConcat(Encode(RowsTokens(rows)), raw[WIDTH * end..]);
    TokensOfEncode(RowsTokens(rows));
  }

  // What is spliced in is read back token by token.
  lemma SplicedRowsShow(raw: Text, rows: seq<PackageRow>, end: nat)
    requires WIDTH * end <= |raw|
    ensures ShowsRows(Splice(raw, rows, end), end, rows)
  {
    TokensOfSplice(raw, rows, end);
    var tokens, more := Tokens(raw), RowsTokens(rows);
    assert (tokens[..end] + more + tokens[end..])[end..end + |more|] == more;
    EncodedRowsShow(Splice(raw, rows, end), end, rows);
  }

  lemma FoundWithin(raw: Text, m: Markers)
    ensures match Find(raw, m)
            case Found(start, end) => start < end < |Tokens(raw)| && WIDTH * end <= |raw|
            case _ => true
  {
    FindIff(raw, m);
    if Find(raw, m).Found? { assert Section(Tokens(raw), m, Find(raw, m).start, Find(raw, m).end); }
  }

  // Main result: the spliced stream has its section where it was, longer by
  // eleven tokens a row, ...
  lemma SpliceGrowsSection(raw: Text, m: Markers, start: nat, end: nat, rows: seq<PackageRow>)
    requires WIDTH * end <= |raw|
    requires Find(raw, m) == Found(start, end)
    ensures Find(Splice(raw, rows, end), m) == Found(start, end + ROW * |rows|)
  {
    FoundIff(raw, m, start, end);
    RowsHoldNoMarker(rows);
    TokensOfSplice(raw, rows, end);
    SectionGrows(Tokens(raw), RowsTokens(rows), m, start, end);
    FoundIff(Splice(raw, rows, end), m, start, end + ROW * |rows|);
  }

  // ... and it holds the old rows followed by the new.
  lemma SpliceKeepsRows(raw: Text, start: nat, end: nat, rows: seq<PackageRow>)
    requires start < end && WIDTH * end <= |raw|
    ensures var grown := end + ROW * |rows|;
            && WIDTH * grown <= |Splice(raw, rows, end)|
            && Tokens(Interior(Splice(raw, rows, end), start, grown)) ==
               Tokens(Interior(raw, start, end)) + RowsTokens(rows)
            && Splice(raw, rows, end)[..WIDTH * end] == raw[..WIDTH * end]
            && Splice(raw, rows, end)[WIDTH * grown..] == raw[WIDTH * end..]
  {
    var spliced, grown := Splice(raw, rows, end), end + ROW * |rows|;
    TokensOfSplice(raw, rows, end);
    TokensOfSlice(raw, start + 1, end);
    TokensOfSlice(spliced, start + 1, grown);
    MiddleGrows(Tokens(raw), RowsTokens(rows), start + 1, end);
  }

  lemma MiddleGrows(tokens: seq<Token>, more: seq<Token>, from: nat, end: nat)
    requires from <= end <= |tokens|
    ensures (tokens[..end] + more + tokens[end..])[from..end + |more|] == tokens[from..end] + more
  {
  }

  // ---- The check of the output ----

  predicate InteriorVerified(interior: Text, rows: seq<PackageRow>, originalRows: nat) {
    && |interior| % ROW_BYTES == 0 && |interior| / ROW_BYTES == originalRows + |rows|
    && (WholeRows(interior); AllCollected(Collected(Tokens(interior), |interior| / ROW_BYTES), rows))
  }

  predicate Verified(raw: Text, m: Markers, rows: seq<PackageRow>, originalRows: nat) {
    FoundWithin(raw, m);
    match Find(raw, m)
    case Found(start, end) => InteriorVerified(Interior(raw, start, end), rows, originalRows)
    case _ => false
  }

  method VerifyOutput(raw: Text, m: Markers, rows: seq<PackageRow>, originalRows: nat) returns (ok: bool)
    ensures ok <==> Verified(raw, m, rows, originalRows)
  {
    var found := FindRawSection(raw, m);
    if !found.Found? { return false; }
    FoundWithin(raw, m);
    ok := VerifyInterior(Interior(raw, found.start, found.end), rows, originalRows);
  }

  method VerifyInterior(interior: Text, rows: seq<PackageRow>, originalRows: nat) returns (ok: bool)
    ensures ok <==> InteriorVerified(interior, rows, originalRows)
  {
    if |interior| % 55 != 0 { return false; }
    if |interior| / 55 != originalRows + |rows| { return false; }
    var byCommodity := CollectRows(interior);
    ok := MatchRows(byCommodity, rows);
  }

  lemma VerifiedIs(raw: Text, m: Markers, rows: seq<PackageRow>, originalRows: nat, start: nat, end: nat)
    requires start < end && WIDTH * end <= |raw| && Find(raw, m) == Found(start, end)
    ensures Verified(raw, m, rows, originalRows) <==> InteriorVerified(Interior(raw, start, end), rows, originalRows)
  {
  }

  predicate ScriptIds(rows: seq<PackageRow>) {
    forall i :: 0 <= i < |rows| ==> 0 < rows[i].commodityID < TWO31
  }

  lemma InteriorVerifiedIff(interior: Text, rows: seq<PackageRow>, originalRows: nat)
    requires |interior| == ROW_BYTES * (originalRows + |rows|)
    ensures |Tokens(interior)| == ROW * (originalRows + |rows|)
    ensures InteriorVerified(interior, rows, originalRows) <==>
            AllCollected(Collected(Tokens(interior), originalRows + |rows|), rows)
  {
    SameQuotient(|interior|, originalRows + |rows|, 0, ROW_BYTES);
    WholeRows(interior);
  }

  lemma GrownVerified(interior: Text, grown: Text, rows: seq<PackageRow>)
    requires |interior| % ROW_BYTES == 0 && DistinctCommodities(rows)
    requires Tokens(grown) == Tokens(interior) + RowsTokens(rows) && |grown| == |interior| + ROW_BYTES * |rows|
    ensures InteriorVerified(grown, rows, |interior| / ROW_BYTES) <==> ScriptIds(rows)
  {
    var count := |interior| / ROW_BYTES;
    WholeRows(interior);
    InteriorVerifiedIff(grown, rows, count);
    AppendedVerified(Tokens(interior), count, rows);
  }

  // Main result: the check accepts the spliced stream exactly when every new
  // commodity id is a positive script integer.
  lemma SpliceVerified(raw: Text, m: Markers, start: nat, end: nat, rows: seq<PackageRow>)
    requires start < end && WIDTH * end <= |raw| && |Interior(raw, start, end)| % ROW_BYTES == 0
    requires Find(raw, m) == Found(start, end) && DistinctCommodities(rows)
    ensures Verified(Splice(raw, rows, end), m, rows, |Interior(raw, start, end)| / ROW_BYTES) <==> ScriptIds(rows)
  {
    var grown, interior := end + ROW * |rows|, Interior(raw, start, end);
    SpliceGrowsSection(raw, m, start, end, rows);
    SpliceKeepsRows(raw, start, end, rows);
    VerifiedIs(Splice(raw, rows, end), m, rows, |interior| / ROW_BYTES, start, grown);
    GrownVerified(interior, Interior(Splice(raw, rows, end), start, grown), rows);
  }

  // ---- The program ----

  // Every positive integer of the stream.
  function IntegerValues(tokens: seq<Token>): (values: set<uint32>)
    ensures forall v :: v in values ==> v < TWO31
  {
    set i | 0 <= i < |tokens| && Positive(tokens[i]) :: ToUnsigned(tokens[i].value)
  }

  method AllRawIntegerValues(raw: Text) returns (values: set<uint32>)
    ensures values == IntegerValues(Tokens(raw))
  {
    values := {};
    var count := |raw| / 5;
    for i := 0 to count
      invariant values == IntegerValues(Tokens(raw)[..i])
    {
      var token := TokenAt(raw, i);
      assert Tokens(raw)[i] == token;
      AddValue(Tokens(raw), i);
      if token.kind == 0 && token.value > 0 { values := values + {ToUnsigned(token.value)}; }
    }
    assert Tokens(raw)[..count] == Tokens(raw);
  }

  lemma AddValue(tokens: seq<Token>, i: nat)
    requires i < |tokens|
    ensures IntegerValues(tokens[..i + 1]) ==
            IntegerValues(tokens[..i]) + if Positive(tokens[i]) then {ToUnsigned(tokens[i].value)} else {}
  {
    var before, after := tokens[..i], tokens[..i + 1];
    forall v | v in IntegerValues(before) ensures v in IntegerValues(after) {
      var j :| 0 <= j < |before| && Positive(before[j]) && ToUnsigned(before[j].value) == v;
      assert after[j] == before[j];
    }
    forall v | v in IntegerValues(after)
      ensures v in IntegerValues(before) || (Positive(tokens[i]) && v == ToUnsigned(tokens[i].value))
    {
      var j :| 0 <= j < |after| && Positive(after[j]) && ToUnsigned(after[j].value) == v;
      if j < i { assert before[j] == after[j]; }
    }
    if Positive(tokens[i]) { assert after[i] == tokens[i]; }
  }

  method MaximumOf(ids: set<uint32>) returns (maximum: uint32)
    ensures AllAtMost(ids, maximum)
    ensures if ids == {} then maximum == 0 else maximum in ids || maximum == 0
  {
    maximum := 0;
    var rest := ids;
    while rest != {}
      invariant rest <= ids && forall id :: id in ids ==> id in rest || id <= maximum
      invariant maximum == 0 || maximum in ids
      decreases rest
    {
      var id :| id in rest;
      if id > maximum { maximum := id; }
      rest := rest - {id};
    }
  }

  // A row's ids are positive script integers.
  lemma {:induction false} ColumnBounds(tokens: seq<Token>, rows: nat, column: nat)
    requires column < 2 && ROW * rows <= |tokens| && AllValid(tokens, rows)
    ensures forall id :: id in Column(tokens, rows, column) ==> 0 < id < TWO31
    ensures Column(tokens, rows, column) == {} <==> rows == 0
    decreases rows
  {
    if rows > 0 { ColumnBounds(tokens, rows - 1, column); }
  }

  function CommodityIdsOf(rows: seq<PackageRow>): (ids: seq<uint32>)
    ensures |ids| == |rows|
  {
    seq(|rows|, i requires 0 <= i < |rows| => rows[i].commodityID)
  }

  // The rows carry what was asked for, and the first free ids.
  predicate RowsFor(rows: seq<PackageRow>, desired: seq<Desired>) {
    && |rows| == |desired|
    && forall i :: 0 <= i < |rows| ==>
         rows[i].itemID == desired[i].itemID && rows[i].price == desired[i].price &&
         rows[i].nameMagic == desired[i].nameMagic && rows[i].jobCode == desired[i].jobCode
  }

  method BuildRows(desired: seq<Desired>, ids: seq<uint32>) returns (rows: seq<PackageRow>)
    requires |ids| == |desired|
    ensures RowsFor(rows, desired) && CommodityIdsOf(rows) == ids
  {
    rows := [];
    for i := 0 to |desired|
      invariant |rows| == i && RowsFor(rows, desired[..i])
      invariant forall j :: 0 <= j < i ==> rows[j].commodityID == ids[j]
    {
      var item := desired[i];
      rows := rows + [PackageRow(ids[i], item.itemID, item.price, item.nameMagic, item.jobCode)];
    }
    assert desired[..|desired|] == desired;
  }

  ghost predicate AllAtMost(ids: set<uint32>, maximum: uint32) {
    forall id :: id in ids ==> id <= maximum
  }

  ghost predicate IsMaximum(ids: set<uint32>, maximum: uint32) {
    maximum in ids && AllAtMost(ids, maximum)
  }

  predicate NoneExists(desired: seq<Desired>, items: set<uint32>) {
    forall i :: 0 <= i < |desired| ==> desired[i].itemID !in items
  }

  ghost predicate FirstFreeIds(ids: seq<uint32>, raw: Text, maximum: uint32) {
    exists limit :: FirstFree(ids, IntegerValues(Tokens(raw)), maximum, limit)
  }

  // The stream with the rows asked for appended, under the first free ids above
  // a maximum, as the check accepts it.
  ghost predicate Appended(raw: Text, m: Markers, start: nat, end: nat, maximum: uint32, desired: seq<Desired>,
                           out: Text, rows: seq<PackageRow>)
    requires start < end && WIDTH * end <= |raw|
  {
    && RowsFor(rows, desired) && FirstFreeIds(CommodityIdsOf(rows), raw, maximum)
    && out == Splice(raw, rows, end) && ShowsRows(out, end, rows)
    && Verified(out, m, rows, |Interior(raw, start, end)| / ROW_BYTES)
  }

  // The section is whole and not empty, its rows carry positive ids, and none
  // of the items is published yet.
  predicate Publishable(raw: Text, m: Markers, desired: seq<Desired>) {
    FoundWithin(raw, m);
    match Find(raw, m)
    case Found(start, end) => Extensible(Interior(raw, start, end), desired)
    case _ => false
  }

  predicate Extensible(interior: Text, desired: seq<Desired>) {
    && interior != [] && |interior| % ROW_BYTES == 0 && ExistingIds(interior).Some?
    && NoneExists(desired, ExistingIds(interior).value.items)
  }

  // What a successful run has done: the new ids are above every published one
  // and in use nowhere in the file.
  ghost predicate Published(raw: Text, m: Markers, desired: seq<Desired>, out: Text, rows: seq<PackageRow>)
    requires Publishable(raw, m, desired)
  {
    FoundWithin(raw, m);
    PublishedAt(raw, m, Find(raw, m).start, Find(raw, m).end, desired, out, rows)
  }

  ghost predicate PublishedAt(raw: Text, m: Markers, start: nat, end: nat, desired: seq<Desired>, out: Text,
                              rows: seq<PackageRow>)
    requires start < end && WIDTH * end <= |raw| && Extensible(Interior(raw, start, end), desired)
  {
    exists maximum :: IsMaximum(ExistingIds(Interior(raw, start, end)).value.commodities, maximum)
                      && Appended(raw, m, start, end, maximum, desired, out, rows)
  }

  // The ids a row can hold as positive integers, above a maximum and in use
  // nowhere in the file.
  function FreeScriptIds(raw: Text, maximum: uint32): set<uint32> {
    FreeBetween(IntegerValues(Tokens(raw)), maximum, TWO31)
  }

  // Above the published ids there are as many of them as there are items.
  ghost predicate EnoughScriptIds(raw: Text, m: Markers, desired: seq<Desired>)
    requires Publishable(raw, m, desired)
  {
    FoundWithin(raw, m);
    EnoughFor(raw, Interior(raw, Find(raw, m).start, Find(raw, m).end), desired)
  }

  ghost predicate EnoughFor(raw: Text, interior: Text, desired: seq<Desired>)
    requires Extensible(interior, desired)
  {
    exists maximum :: IsMaximum(ExistingIds(interior).value.commodities, maximum)
                      && |desired| <= |FreeScriptIds(raw, maximum)|
  }

  lemma IncreasingDistinct(rows: seq<PackageRow>)
    requires Increasing(CommodityIdsOf(rows))
    ensures DistinctCommodities(rows)
  {
    var ids := CommodityIdsOf(rows);
    forall i, j | 0 <= i < j < |rows| ensures rows[i].commodityID != rows[j].commodityID {
      assert ids[i] < ids[j];
    }
  }

  lemma ScriptIdsIff(rows: seq<PackageRow>, used: set<uint32>, maximum: uint32, limit: nat)
    requires FirstFree(CommodityIdsOf(rows), used, maximum, limit)
    ensures ScriptIds(rows) <==> |rows| <= |FreeBetween(used, maximum, TWO31)|
  {
    var ids := CommodityIdsOf(rows);
    FitIff(ids, used, maximum, limit, TWO31);
    assert ScriptIds(rows) <==> AllBelow(ids, TWO31) by {
      forall i | 0 <= i < |rows| ensures ids[i] == rows[i].commodityID > 0 {
      }
    }
  }

  // The first free ids are accepted exactly if there are enough positive ones.
  lemma RowsAccepted(raw: Text, m: Markers, start: nat, end: nat, maximum: uint32, rows: seq<PackageRow>)
    requires start < end && WIDTH * end <= |raw| && |Interior(raw, start, end)| % ROW_BYTES == 0
    requires Find(raw, m) == Found(start, end) && FirstFreeIds(CommodityIdsOf(rows), raw, maximum)
    ensures Verified(Splice(raw, rows, end), m, rows, |Interior(raw, start, end)| / ROW_BYTES) <==>
            |rows| <= |FreeScriptIds(raw, maximum)|
  {
    var limit :| FirstFree(CommodityIdsOf(rows), IntegerValues(Tokens(raw)), maximum, limit);
    IncreasingDistinct(rows);
    SpliceVerified(raw, m, start, end, rows);
    ScriptIdsIff(rows, IntegerValues(Tokens(raw)), maximum, limit);
  }

  // The splice and its check.
  method AppendRows(raw: Text, m: Markers, start: nat, end: nat, maximum: uint32, rows: seq<PackageRow>)
    returns (r: Result<(Text, seq<PackageRow>), Failure>)
    requires start < end && WIDTH * end <= |raw| && |Interior(raw, start, end)| % ROW_BYTES == 0
    requires Find(raw, m) == Found(start, end) && FirstFreeIds(CommodityIdsOf(rows), raw, maximum)
    ensures r.Ok? <==> |rows| <= |FreeScriptIds(raw, maximum)|
    ensures r.Ok? ==> r.value == (Splice(raw, rows, end), rows)
                      && Verified(r.value.0, m, rows, |Interior(raw, start, end)| / ROW_BYTES)
    ensures r.Err? ==> r.error == Unverified
  {
    var appended := EncodePackageRows(rows);
    var out := raw[..end * 5] + (appended + raw[end * 5..]);
    RowsAccepted(raw, m, start, end, maximum, rows);
    var ok := VerifyOutput(out, m, rows, (end * 5 - (start + 1) * 5) / 55);
    r := if ok then Ok((out, rows)) else Err(Unverified);
  }

  // From the maximum of the published ids on: allocation, splice and check.
  method AppendPackages(raw: Text, m: Markers, start: nat, end: nat, maximum: uint32, desired: seq<Desired>)
    returns (r: Result<(Text, seq<PackageRow>), Failure>)
    requires start < end && WIDTH * end <= |raw| && |Interior(raw, start, end)| % ROW_BYTES == 0
    requires Find(raw, m) == Found(start, end) && 0 < maximum < TWO31
    ensures r.Ok? ==> Appended(raw, m, start, end, maximum, desired, r.value.0, r.value.1)
    ensures r.Ok? <==> |desired| <= |FreeScriptIds(raw, maximum)|
    ensures r.Err? ==> r.error == Unverified || (r.error == Exhausted && |desired| > TWO31)
  {
    var used := AllRawIntegerValues(raw);
    var ids := Allocate(used, maximum, |desired|);
    if ids.None? {
      ghost var taken :| |taken| < |desired| && FirstFree(taken, used, maximum, TWO32);
      ExhaustionNeedsMany(taken, used, maximum);
      ExhaustedIsFewer(taken, used, maximum, TWO31);
      return Err(Exhausted);
    }
    var rows := BuildRows(desired, ids.value);
    r := AppendRows(raw, m, start, end, maximum, rows);
    SplicedRowsShow(raw, rows, end);
  }

  // The checks of one section before anything is built. Its maximum is refused
  // only when the section is empty; it is never the largest 32-bit id.
  method CheckInterior(interior: Text, desired: seq<Desired>) returns (r: Result<uint32, Failure>)
    ensures r.Ok? <==> Extensible(interior, desired)
    ensures r.Ok? ==> 0 < r.value < TWO31 && IsMaximum(ExistingIds(interior).value.commodities, r.value)
    ensures r.Err? ==> !r.error.NoSection? && r.error != Exhausted && r.error != Unverified
    ensures r.Err? && r.error.BadMaximum? ==> interior == []
    ensures r == Err(Ragged) <==> |interior| % 55 != 0
    ensures r == Err(BadRow) <==> |interior| % 55 == 0 && ExistingIds(interior).None?
    ensures r.Err? && r.error.AlreadyPresent? ==>
              && |interior| % 55 == 0 && ExistingIds(interior).Some?
              && r.error.itemID in ExistingIds(interior).value.items
              && exists i :: 0 <= i < |desired| && desired[i].itemID == r.error.itemID
  {
    if |interior| % 55 != 0 { return Err(Ragged); }
    var existing := ParseExistingPackageRows(interior);
    if existing.None? { return Err(BadRow); }
    for i := 0 to |desired|
      invariant NoneExists(desired[..i], existing.value.items)
    {
      if desired[i].itemID in existing.value.items { return Err(AlreadyPresent(desired[i].itemID)); }
    }
    assert desired[..|desired|] == desired;
    var maximum := MaximumOf(existing.value.commodities);
    ExistingBounds(interior);
    if maximum == 0 || maximum == TWO32 - 1 { return Err(BadMaximum(maximum)); }
    r := Ok(maximum);
  }

  // Main result: it succeeds exactly on a section that can be extended and leaves
  // enough free positive integers above its greatest id.
  method AddPackages(raw: Text, m: Markers, desired: seq<Desired>)
    returns (r: Result<(Text, seq<PackageRow>), Failure>)
    ensures r == Err(NoSection(Find(raw, m))) <==> !Find(raw, m).Found?
    ensures Publishable(raw, m, desired) <==> r.Ok? || r.error == Exhausted || r.error == Unverified
    ensures r.Ok? ==> Published(raw, m, desired, r.value.0, r.value.1)
    ensures r == Err(Exhausted) ==> |desired| > TWO31
    ensures r.Ok? <==> Publishable(raw, m, desired) && EnoughScriptIds(raw, m, desired)
  {
    var found := FindRawSection(raw, m);
    if !found.Found? { return Err(NoSection(found)); }
    FoundWithin(raw, m);
    r := AddToSection(raw, m, found.start, found.end, desired);
  }

  method AddToSection(raw: Text, m: Markers, start: nat, end: nat, desired: seq<Desired>)
    returns (r: Result<(Text, seq<PackageRow>), Failure>)
    requires start < end && WIDTH * end <= |raw| && Find(raw, m) == Found(start, end)
    ensures Extensible(Interior(raw, start, end), desired) <==> r.Ok? || r.error == Exhausted || r.error == Unverified
    ensures r.Ok? ==> PublishedAt(raw, m, start, end, desired, r.value.0, r.value.1)
    ensures r.Err? ==> !r.error.NoSection? && (r.error == Exhausted ==> |desired| > TWO31)
    ensures r.Ok? <==>
            Extensible(Interior(raw, start, end), desired) && EnoughFor(raw, Interior(raw, start, end), desired)
  {
    var maximum := CheckInterior(Interior(raw, start, end), desired);
    if maximum.Err? { return Err(maximum.error); }
    r := AppendPackages(raw, m, start, end, maximum.value, desired);
  }

  lemma ExistingBounds(interior: Text)
    requires |interior| % ROW_BYTES == 0 && ExistingIds(interior).Some?
    ensures var ids := ExistingIds(interior).value.commodities;
            (forall id :: id in ids ==> 0 < id < TWO31) && (ids == {} <==> interior == [])
  {
    WholeRows(interior);
    ColumnBounds(Tokens(interior), |interior| / ROW_BYTES, 0);
  }

  // ---- What is publishable and what is verified ----

  // Row r has this item.
  predicate HasItem(tokens: seq<Token>, r: nat, item: uint32) {
    11 * r + 11 <= |tokens| && ToUnsigned(tokens[11 * r + 1].value) == item
  }

  // Whole rows, at least one, of positive ids, none of them for a wanted item.
  lemma ExtensibleIff(interior: Text, desired: seq<Desired>)
    ensures Extensible(interior, desired) <==>
              && interior != [] && |interior| % 55 == 0
              && var tokens, rows := Tokens(interior), |interior| / 55;
                 && (forall r :: 0 <= r < rows ==> PositiveIds(tokens, r))
                 && forall i, r :: 0 <= i < |desired| && 0 <= r < rows ==> !HasItem(tokens, r, desired[i].itemID)
  {
    if |interior| % 55 == 0 {
      var tokens, rows := Tokens(interior), |interior| / 55;
      ExistingIdsIff(interior);
      WholeRows(interior);
      forall i, r | 0 <= i < |desired| && 0 <= r < rows
        ensures HasItem(tokens, r, desired[i].itemID) <==> CellIs(tokens, r, 1, desired[i].itemID)
      {
      }
    }
  }

  // The first rows say of every new commodity what was asked for.
  ghost predicate AllSeen(tokens: seq<Token>, count: nat, rows: seq<PackageRow>) {
    forall i :: 0 <= i < |rows| ==>
      SeenAs(tokens, count, rows[i].commodityID, Seen(rows[i].itemID, rows[i].price, rows[i].jobCode))
  }

  // The output is accepted exactly if its section has as many rows as it should
  // and they say that.
  lemma InteriorVerifiedMeans(interior: Text, rows: seq<PackageRow>, originalRows: nat)
    ensures InteriorVerified(interior, rows, originalRows) <==>
              |interior| == 55 * (originalRows + |rows|) && AllSeen(Tokens(interior), originalRows + |rows|, rows)
  {
    if |interior| == 55 * (originalRows + |rows|) {
      InteriorVerifiedIff(interior, rows, originalRows);
      AllCollectedMeans(Tokens(interior), originalRows + |rows|, rows, InteriorVerified(interior, rows, originalRows));
    } else {
      WrongSizeRefused(interior, rows, originalRows);
    }
  }

  lemma WrongSizeRefused(interior: Text, rows: seq<PackageRow>, originalRows: nat)
    requires |interior| != 55 * (originalRows + |rows|)
    ensures !InteriorVerified(interior, rows, originalRows)
  {
    WholeSize(|interior|);
  }

  lemma WholeSize(n: nat)
    ensures n % ROW_BYTES == 0 ==> n == 55 * (n / ROW_BYTES)
  {
  }

  lemma AllCollectedMeans(tokens: seq<Token>, count: nat, rows: seq<PackageRow>, accepted: bool)
    requires ROW * count <= |tokens| && accepted == AllCollected(Collected(tokens, count), rows)
    ensures accepted == AllSeen(tokens, count, rows)
  {
    forall i | 0 <= i < |rows|
      ensures SeenAs(tokens, count, rows[i].commodityID, SeenOf(rows[i])) <==>
                rows[i].commodityID in Collected(tokens, count)
                && Collected(tokens, count)[rows[i].commodityID] == SeenOf(rows[i])
    {
      CollectedIff(tokens, count, rows[i].commodityID, SeenOf(rows[i]));
    }
  }
}
