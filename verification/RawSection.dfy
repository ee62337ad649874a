// Looking for a bracketed section of a token stream
// (go-server/cmd/scratch/pvfshopgift/main.go, findRawSection).
module RawSection {
  import opened Text
  import opened TokenStream

  datatype Search = Found(start: nat, end: nat) | Duplicate | NotFound | Panics

  // The strings of the archive that are the opening and the closing marker.
  datatype Markers = Markers(opens: Names, closes: Names)

  // The search as written: the guard compares the token index, not the byte
  // offset, with the length, so it runs on past the last token and indexing
  // fails there.
  function FindFrom(raw: Text, m: Markers, index: nat, start: int): Search
    decreases |raw| - index
  {
    if index + WIDTH > |raw| then NotFound
    else if WIDTH * index >= |raw| then Panics
    else if raw[WIDTH * index] != SECTION_KIND then FindFrom(raw, m, index + 1, start)
    else if WIDTH * index + WIDTH > |raw| then Panics
    else
      var magic := TokenAt(raw, index).value;
      if m.opens(magic) then if start >= 0 then Duplicate else FindFrom(raw, m, index + 1, index)
      else if start >= 0 && m.closes(magic) then Found(start, index)
      else FindFrom(raw, m, index + 1, start)
  }

  function Find(raw: Text, m: Markers): Search {
    FindFrom(raw, m, 0, -1)
  }

  method FindRawSection(raw: Text, m: Markers) returns (found: Search)
    ensures found == Find(raw, m)
  {
    var start: int := -1;
    var index := 0;
    while index + 5 <= |raw|
      invariant FindFrom(raw, m, index, start) == Find(raw, m)
      invariant -1 <= start
      decreases |raw| - index
    {
      var offset := index * 5;
      if offset >= |raw| { return Panics; }
      if raw[offset] == 3 {
        if offset + 5 > |raw| { return Panics; }
        var magic := TokenAt(raw, index).value;
        if m.opens(magic) {
          if start >= 0 { return Duplicate; }
          start := index;
        } else if start >= 0 && m.closes(magic) {
          return Found(start, index);
        }
      }
      index := index + 1;
    }
    found := NotFound;
  }

  // ---- What it finds ----

  predicate Opens(tokens: seq<Token>, m: Markers, i: nat) {
    i < |tokens| && tokens[i].kind == 3 && m.opens(tokens[i].value)
  }

  predicate Closes(tokens: seq<Token>, m: Markers, i: nat) {
    i < |tokens| && tokens[i].kind == 3 && m.closes(tokens[i].value)
  }

  predicate NoneOpens(tokens: seq<Token>, m: Markers, from: nat, to: int) {
    forall j :: from <= j < to ==> !Opens(tokens, m, j)
  }

  predicate NoneCloses(tokens: seq<Token>, m: Markers, from: nat, to: int) {
    forall j :: from <= j < to ==> !Closes(tokens, m, j)
  }

  // The first opening marker, and the first marker behind it is a closing one.
  predicate Section(tokens: seq<Token>, m: Markers, start: nat, end: nat) {
    && start < end && Opens(tokens, m, start) && Closes(tokens, m, end)
    && NoneOpens(tokens, m, 0, start) && NoneOpens(tokens, m, start + 1, end + 1)
    && NoneCloses(tokens, m, start + 1, end)
  }

  // A second opening marker comes before any closing one.
  predicate Reopened(tokens: seq<Token>, m: Markers, start: nat, again: nat) {
    && start < again && Opens(tokens, m, start) && Opens(tokens, m, again)
    && NoneOpens(tokens, m, 0, start) && NoneOpens(tokens, m, start + 1, again)
    && NoneCloses(tokens, m, start + 1, again)
  }

  // Where the search stands before a token.
  predicate Searching(tokens: seq<Token>, m: Markers, index: nat, start: int) {
    if start < 0 then NoneOpens(tokens, m, 0, index)
    else start < index && Opens(tokens, m, start) && NoneOpens(tokens, m, 0, start)
         && NoneOpens(tokens, m, start + 1, index) && NoneCloses(tokens, m, start + 1, index)
  }

  // How the search ends once no token is left.
  function RunsOut(raw: Text): Search {
    if |raw| >= 7 || (|raw| == 6 && raw[5] == 3) then Panics else NotFound
  }

  ghost predicate Agrees(raw: Text, m: Markers, found: Search) {
    match found
    case Found(start, end) => Section(Tokens(raw), m, start, end)
    case Duplicate => exists start, again :: Reopened(Tokens(raw), m, start, again)
    case _ => found == RunsOut(raw) && Unclosed(Tokens(raw), m)
  }

  // No marker opens a section, or one does and no marker follows it.
  ghost predicate Unclosed(tokens: seq<Token>, m: Markers) {
    exists start :: start >= -1 && Searching(tokens, m, |tokens|, start)
  }

  lemma PastTheEnd(raw: Text, m: Markers, start: int)
    ensures FindFrom(raw, m, |raw| / WIDTH, start) == RunsOut(raw)
  {
    var n := |raw| / WIDTH;
    if n + WIDTH <= |raw| && WIDTH * n < |raw| && raw[WIDTH * n] != SECTION_KIND {
      assert FindFrom(raw, m, n, start) == FindFrom(raw, m, n + 1, start);
    }
  }

  // One turn of the search, told by the token it looks at.
  lemma FindStep(raw: Text, m: Markers, index: nat, start: int)
    requires index < |raw| / WIDTH
    ensures FindFrom(raw, m, index, start) ==
            if Opens(Tokens(raw), m, index) then
              if start >= 0 then Duplicate else FindFrom(raw, m, index + 1, index)
            else if start >= 0 && Closes(Tokens(raw), m, index) then Found(start, index)
            else FindFrom(raw, m, index + 1, start)
  {
  }

  lemma SearchStep(tokens: seq<Token>, m: Markers, index: nat, start: int)
    requires index < |tokens| && start >= -1 && Searching(tokens, m, index, start)
    ensures Opens(tokens, m, index) ==>
              if start >= 0 then Reopened(tokens, m, start, index) else Searching(tokens, m, index + 1, index)
    ensures !Opens(tokens, m, index) ==>
              if start >= 0 && Closes(tokens, m, index) then Section(tokens, m, start, index)
              else Searching(tokens, m, index + 1, start)
  {
  }

  lemma {:induction false} FindAgrees(raw: Text, m: Markers, index: nat, start: int)
    requires index <= |raw| / WIDTH && start >= -1 && Searching(Tokens(raw), m, index, start)
    ensures Agrees(raw, m, FindFrom(raw, m, index, start))
    decreases |raw| / WIDTH - index
  {
    var tokens := Tokens(raw);
    if index == |tokens| {
      PastTheEnd(raw, m, start);
      assert Unclosed(tokens, m);
    } else {
      FindStep(raw, m, index, start);
      SearchStep(tokens, m, index, start);
      if Opens(tokens, m, index) {
        if start < 0 { FindAgrees(raw, m, index + 1, index); }
      } else if start < 0 || !Closes(tokens, m, index) {
        FindAgrees(raw, m, index + 1, start);
      }
    }
  }

  // A stream has one section, or reopens one, or leaves none closed.
  lemma OneOutcome(tokens: seq<Token>, m: Markers, start: nat, end: nat)
    requires Section(tokens, m, start, end)
    ensures forall s, e :: Section(tokens, m, s, e) ==> s == start && e == end
    ensures forall s, again :: !Reopened(tokens, m, s, again)
    ensures !Unclosed(tokens, m)
  {
    forall s, e | Section(tokens, m, s, e) ensures s == start && e == end {
      assert s == start;
    }
    forall s, again ensures !Reopened(tokens, m, s, again) {
    }
  }

  lemma ReopenedIsNotUnclosed(tokens: seq<Token>, m: Markers, start: nat, again: nat)
    requires Reopened(tokens, m, start, again)
    ensures !Unclosed(tokens, m)
  {
  }

  // Main result: what the search returns, for every stream and all markers.
  lemma FindIff(raw: Text, m: Markers)
    ensures forall s, e :: Find(raw, m) == Found(s, e) <==> Section(Tokens(raw), m, s, e)
    ensures Find(raw, m) == Duplicate <==> exists s, again :: Reopened(Tokens(raw), m, s, again)
    ensures Find(raw, m) == NotFound <==> Unclosed(Tokens(raw), m) && RunsOut(raw) == NotFound
    ensures Find(raw, m) == Panics <==> Unclosed(Tokens(raw), m) && RunsOut(raw) == Panics
  {
    var tokens := Tokens(raw);
    FindAgrees(raw, m, 0, -1);
    forall s, e | Section(tokens, m, s, e) ensures Find(raw, m) == Found(s, e) {
      OneOutcome(tokens, m, s, e);
    }
    forall s, again | Reopened(tokens, m, s, again) ensures Find(raw, m) == Duplicate {
      ReopenedIsNotUnclosed(tokens, m, s, again);
      if Find(raw, m).Found? { OneOutcome(tokens, m, Find(raw, m).start, Find(raw, m).end); }
    }
    if Find(raw, m).Found? { OneOutcome(tokens, m, Find(raw, m).start, Find(raw, m).end); }
  }

  lemma FoundIff(raw: Text, m: Markers, start: nat, end: nat)
    ensures Find(raw, m) == Found(start, end) <==> Section(Tokens(raw), m, start, end)
  {
    FindIff(raw, m);
  }

  // A missing marker is reported only in a stream of at most six bytes: in any
  // longer one the search indexes beyond the end.
  lemma MissingMarkerPanics(raw: Text, m: Markers)
    requires Unclosed(Tokens(raw), m) && |raw| > 6
    ensures Find(raw, m) == Panics
  {
    FindIff(raw, m);
  }

  // Tokens that are no section markers, inserted before the closing marker,
  // move it by their number and nothing else.
  lemma SectionGrows(tokens: seq<Token>, more: seq<Token>, m: Markers, start: nat, end: nat)
    requires Section(tokens, m, start, end)
    requires forall i :: 0 <= i < |more| ==> more[i].kind != SECTION_KIND
    ensures Section(tokens[..end] + more + tokens[end..], m, start, end + |more|)
  {
    var grown := tokens[..end] + more + tokens[end..];
    forall j | 0 <= j < end
      ensures (Opens(grown, m, j) <==> Opens(tokens, m, j)) && (Closes(grown, m, j) <==> Closes(tokens, m, j))
    {
      assert grown[j] == tokens[j];
    }
    forall j | end <= j < end + |more| ensures !Opens(grown, m, j) && !Closes(grown, m, j) {
      assert grown[j] == more[j - end];
    }
    assert grown[end + |more|] == tokens[end];
    assert !Opens(tokens, m, end);
  }
}
