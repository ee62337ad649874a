// In-place edits of a script's token stream and the check that re-reads it
// (go-server/cmd/scratch/pvfjoustentry/main.go).
module JoustEntry {
  import opened Bytes
  import opened Text
  import opened TokenStream
  import opened Wrappers

  datatype Failure = Misaligned | Mismatch | WrongCount(matches: nat)

  // The archive's string pool.
  type Resolver = int32 -> Text

  // ---- Labels ----

  predicate IsBracket(b: byte) {
    b == 91 || b == 93
  }

  function TrimBracketsLeft(t: Text): Text {
    if t != [] && IsBracket(t[0]) then TrimBracketsLeft(t[1..]) else t
  }

  function TrimBracketsRight(t: Text): Text {
    if t != [] && IsBracket(t[|t| - 1]) then TrimBracketsRight(t[..|t| - 1]) else t
  }

  function NormalizedLabel(value: Text): Text {
    Lower(TrimBracketsRight(TrimBracketsLeft(Trim(value))))
  }

  function Labelled(resolve: Resolver, name: Text): Names {
    (v: int32) => NormalizedLabel(resolve(v)) == name
  }

  const NPC: Text := [110, 112, 99]
  const LEFT: Text := [108, 101, 102, 116]

  // ---- The value behind a section label ----

  // A token that names the section and has a token behind it.
  predicate Site(tokens: seq<Token>, names: Names, i: nat) {
    i + 1 < |tokens| && (tokens[i].kind == SECTION_KIND || tokens[i].kind == STRING_KIND) && names(tokens[i].value)
  }

  predicate Holds(t: Token, value: int) {
    t.kind == INT_KIND && t.value == value
  }

  function ReplaceFrom(tokens: seq<Token>, names: Names, oldValue: int, newValue: int, i: nat, matches: nat)
    : (r: Result<seq<Token>, Failure>)
    decreases |tokens| - i
  {
    if i + 1 >= |tokens| then if matches == 1 then Ok(tokens) else Err(WrongCount(matches))
    else if !Site(tokens, names, i) then ReplaceFrom(tokens, names, oldValue, newValue, i + 1, matches)
    else if !Holds(tokens[i + 1], oldValue) then Err(Mismatch)
    else ReplaceFrom(Replaced(tokens, i, newValue), names, oldValue, newValue, i + 1, matches + 1)
  }

  function Replaced(tokens: seq<Token>, i: nat, newValue: int): (r: seq<Token>)
    requires i + 1 < |tokens|
    ensures |r| == |tokens|
  {
    tokens[i + 1 := tokens[i + 1].(value := Wrap32(newValue))]
  }

  function RequireFrom(tokens: seq<Token>, names: Names, want: int, i: nat, matches: nat): Option<Failure>
    decreases |tokens| - i
  {
    if i + 1 >= |tokens| then if matches == 1 then None else Some(WrongCount(matches))
    else if !Site(tokens, names, i) then RequireFrom(tokens, names, want, i + 1, matches)
    else if !Holds(tokens[i + 1], want) then Some(Mismatch)
    else RequireFrom(tokens, names, want, i + 1, matches + 1)
  }

  predicate NoSite(tokens: seq<Token>, names: Names, from: nat) {
    forall j :: from <= j < |tokens| ==> !Site(tokens, names, j)
  }

  // From an index on k is the only site, and this value stands behind it.
  predicate OnlySite(tokens: seq<Token>, names: Names, from: nat, k: nat, value: int) {
    && from <= k && Site(tokens, names, k) && Holds(tokens[k + 1], value)
    && forall j :: from <= j < |tokens| && Site(tokens, names, j) ==> j == k
  }

  ghost predicate OnlyOneHolds(tokens: seq<Token>, names: Names, from: nat, value: int) {
    exists k :: OnlySite(tokens, names, from, k, value)
  }

  lemma {:induction false} ReplaceFinds(tokens: seq<Token>, names: Names, oldValue: int, newValue: int, i: nat,
                                        matches: nat, out: seq<Token>)
    ensures ReplaceFrom(tokens, names, oldValue, newValue, i, matches) == Ok(out) <==>
              || (matches == 1 && NoSite(tokens, names, i) && out == tokens)
              || (matches == 0
                  && exists k :: OnlySite(tokens, names, i, k, oldValue) && out == Replaced(tokens, k, newValue))
    decreases |tokens| - i
  {
    if i + 1 >= |tokens| {
    } else if !Site(tokens, names, i) {
      ReplaceFinds(tokens, names, oldValue, newValue, i + 1, matches, out);
      OneFurther(tokens, names, oldValue, i);
    } else if Holds(tokens[i + 1], oldValue) {
      var edited := Replaced(tokens, i, newValue);
      ReplaceFinds(edited, names, oldValue, newValue, i + 1, matches + 1, out);
      SitesKept(tokens, names, i, newValue);
      if matches == 0 && NoSite(tokens, names, i + 1) { assert OnlySite(tokens, names, i, i, oldValue); }
    }
  }

  lemma OneFurther(tokens: seq<Token>, names: Names, value: int, i: nat)
    requires !Site(tokens, names, i)
    ensures NoSite(tokens, names, i) <==> NoSite(tokens, names, i + 1)
    ensures forall k :: OnlySite(tokens, names, i, k, value) <==> OnlySite(tokens, names, i + 1, k, value)
    ensures OnlyOneHolds(tokens, names, i, value) <==> OnlyOneHolds(tokens, names, i + 1, value)
  {
    var next := i + 1;
    forall k ensures OnlySite(tokens, names, i, k, value) <==> OnlySite(tokens, names, next, k, value) {
    }
  }

  // Overwriting an integer's value moves no site.
  lemma SitesKept(tokens: seq<Token>, names: Names, i: nat, newValue: int)
    requires i + 1 < |tokens| && tokens[i + 1].kind == INT_KIND
    ensures forall j :: Site(Replaced(tokens, i, newValue), names, j) <==> Site(tokens, names, j)
    ensures forall from :: NoSite(Replaced(tokens, i, newValue), names, from) <==> NoSite(tokens, names, from)
  {
    forall from ensures NoSite(Replaced(tokens, i, newValue), names, from) <==> NoSite(tokens, names, from) {
      assert forall j :: Site(Replaced(tokens, i, newValue), names, j) <==> Site(tokens, names, j);
    }
  }

  lemma {:induction false} RequireFinds(tokens: seq<Token>, names: Names, want: int, i: nat, matches: nat)
    ensures RequireFrom(tokens, names, want, i, matches) == None <==>
              || (matches == 1 && NoSite(tokens, names, i))
              || (matches == 0 && OnlyOneHolds(tokens, names, i, want))
    decreases |tokens| - i
  {
    if i + 1 >= |tokens| {
    } else if !Site(tokens, names, i) {
      RequireFinds(tokens, names, want, i + 1, matches);
      OneFurther(tokens, names, want, i);
    } else if Holds(tokens[i + 1], want) {
      RequireFinds(tokens, names, want, i + 1, matches + 1);
      if matches == 0 && NoSite(tokens, names, i + 1) { assert OnlySite(tokens, names, i, i, want); }
    }
  }

  function Replace(tokens: seq<Token>, names: Names, oldValue: int, newValue: int): Result<seq<Token>, Failure> {
    ReplaceFrom(tokens, names, oldValue, newValue, 0, 0)
  }

  function Require(tokens: seq<Token>, names: Names, want: int): Option<Failure> {
    RequireFrom(tokens, names, want, 0, 0)
  }

  // Main result: an edit succeeds exactly when the section is named once and
  // holds the old value, and it changes that value's token and nothing else.
  lemma ReplaceIff(tokens: seq<Token>, names: Names, oldValue: int, newValue: int, out: seq<Token>)
    ensures Replace(tokens, names, oldValue, newValue) == Ok(out) <==>
              exists k :: OnlySite(tokens, names, 0, k, oldValue)
                          && out == tokens[k + 1 := Token(INT_KIND, Wrap32(newValue))]
  {
    ReplaceFinds(tokens, names, oldValue, newValue, 0, 0, out);
    forall k | OnlySite(tokens, names, 0, k, oldValue)
      ensures Replaced(tokens, k, newValue) == tokens[k + 1 := Token(INT_KIND, Wrap32(newValue))]
    {
    }
  }

  lemma RequireIff(tokens: seq<Token>, names: Names, want: int)
    ensures Require(tokens, names, want) == None <==> exists k :: OnlySite(tokens, names, 0, k, want)
  {
    RequireFinds(tokens, names, want, 0, 0);
  }

  // The check accepts an edited stream for one value only: the one written,
  // which is the one asked for exactly when that fits the token.
  lemma EditedIsRequired(tokens: seq<Token>, names: Names, oldValue: int, newValue: int, want: int)
    requires Replace(tokens, names, oldValue, newValue).Ok?
    ensures var out := Replace(tokens, names, oldValue, newValue).value;
            && (Require(out, names, want) == None <==> want == Wrap32(newValue))
            && (Require(out, names, newValue) == None <==> -TWO31 <= newValue < TWO31)
  {
    var out := Replace(tokens, names, oldValue, newValue).value;
    var k := EditedSite(tokens, names, oldValue, newValue);
    RequireIff(out, names, want);
    RequireIff(out, names, newValue);
    if want == Wrap32(newValue) { assert OnlySite(out, names, 0, k, want); }
    if newValue == Wrap32(newValue) { assert OnlySite(out, names, 0, k, newValue); }
  }

  lemma EditedSite(tokens: seq<Token>, names: Names, oldValue: int, newValue: int) returns (k: nat)
    requires Replace(tokens, names, oldValue, newValue).Ok?
    ensures OnlySite(tokens, names, 0, k, oldValue)
    ensures var out := Replace(tokens, names, oldValue, newValue).value;
            out == Replaced(tokens, k, newValue) && OnlySite(out, names, 0, k, Wrap32(newValue))
  {
    var out := Replace(tokens, names, oldValue, newValue).value;
    ReplaceFinds(tokens, names, oldValue, newValue, 0, 0, out);
    k :| OnlySite(tokens, names, 0, k, oldValue) && out == Replaced(tokens, k, newValue);
    SitesKept(tokens, names, k, newValue);
  }

  // Editing back restores the stream.
  lemma EditUndone(tokens: seq<Token>, names: Names, oldValue: int, newValue: int)
    requires Replace(tokens, names, oldValue, newValue).Ok? && -TWO31 <= newValue < TWO31
    ensures Replace(Replace(tokens, names, oldValue, newValue).value, names, newValue, oldValue) == Ok(tokens)
  {
    var out := Replace(tokens, names, oldValue, newValue).value;
    var k := EditedSite(tokens, names, oldValue, newValue);
    assert Replaced(out, k, oldValue) == tokens;
    assert OnlySite(out, names, 0, k, newValue);
    ReplaceFinds(out, names, newValue, oldValue, 0, 0, tokens);
  }

  // ---- The program ----

  // The copied buffer of the source, edited in place.
  method ReplaceSectionIntValue(resolve: Resolver, raw: Text, section: Text, oldValue: int, newValue: int)
    returns (r: Result<Text, Failure>)
    ensures r == if |raw| % WIDTH != 0 then Err(Misaligned)
                 else match Replace(Tokens(raw), Labelled(resolve, NormalizedLabel(section)), oldValue, newValue)
                   case Ok(tokens) => Ok(Encode(tokens))
                   case Err(failure) => Err(failure)
  {
    if |raw| % 5 != 0 { return Err(Misaligned); }
    var names := Labelled(resolve, NormalizedLabel(section));
    r := ReplaceInCopy(names, raw, oldValue, newValue);
  }

  // The check and the write behind one label.
  method ReplaceBehind(out: array<byte>, i: nat, oldValue: int, newValue: int) returns (ok: bool)
    requires i + 1 < |Tokens(out[..])|
    modifies out
    ensures ok == Holds(Tokens(old(out[..]))[i + 1], oldValue)
    ensures ok ==> Tokens(out[..]) == Replaced(Tokens(old(out[..])), i, newValue)
  {
    var valueToken := TokenAt(out[..], i + 1);
    assert Tokens(out[..])[i + 1] == valueToken;
    if valueToken.kind != 0 || valueToken.value != oldValue { return false; }
    TokensOfPut(out[..], i + 1, Wrap32(newValue));
    PutValue(out, i + 1, Wrap32(newValue));
    ok := true;
  }

  method ReplaceInCopy(names: Names, raw: Text, oldValue: int, newValue: int) returns (r: Result<Text, Failure>)
    requires |raw| % WIDTH == 0
    ensures r == match Replace(Tokens(raw), names, oldValue, newValue)
                 case Ok(tokens) => Ok(Encode(tokens))
                 case Err(failure) => Err(failure)
  {
    var out := new byte[|raw|](i requires 0 <= i < |raw| => raw[i]);
    assert out[..] == raw;
    var matches := 0;
    var count := |raw| / 5;
    for i := 0 to if count == 0 then 0 else count - 1
      invariant out.Length == |raw| && fresh(out)
      invariant Replace(Tokens(raw), names, oldValue, newValue) ==
                ReplaceFrom(Tokens(out[..]), names, oldValue, newValue, i, matches)
    {
      var token := TokenAt(out[..], i);
      assert Tokens(out[..])[i] == token;
      if (token.kind == 3 || token.kind == 6) && names(token.value) {
        var ok := ReplaceBehind(out, i, oldValue, newValue);
        if !ok { return Err(Mismatch); }
        matches := matches + 1;
      }
    }
    if matches != 1 { return Err(WrongCount(matches)); }
    EncodeOfTokens(out[..]);
    r := Ok(out[..]);
  }

  method RequireSectionIntValue(resolve: Resolver, raw: Text, section: Text, want: int)
    returns (failure: Option<Failure>)
    ensures failure == Require(Tokens(raw), Labelled(resolve, NormalizedLabel(section)), want)
  {
    var names := Labelled(resolve, NormalizedLabel(section));
    failure := RequireInStream(names, raw, want);
  }

  method RequireInStream(names: Names, raw: Text, want: int) returns (failure: Option<Failure>)
    ensures failure == Require(Tokens(raw), names, want)
  {
    var matches := 0;
    var count := |raw| / 5;
    for i := 0 to if count == 0 then 0 else count - 1
      invariant Require(Tokens(raw), names, want) == RequireFrom(Tokens(raw), names, want, i, matches)
    {
      var token := TokenAt(raw, i);
      assert Tokens(raw)[i] == token;
      if (token.kind == 3 || token.kind == 6) && names(token.value) {
        var valueToken := TokenAt(raw, i + 1);
        assert Tokens(raw)[i + 1] == valueToken;
        if valueToken.kind != 0 || valueToken.value != want { return Some(Mismatch); }
        matches := matches + 1;
      }
    }
    if matches != 1 { return Some(WrongCount(matches)); }
    failure := None;
  }

  // ---- What the labels and sites are ----

  predicate Brackets(t: Text) {
    forall i :: 0 <= i < |t| ==> t[i] == 91 || t[i] == 93
  }

  // Nothing to trim at either end.
  predicate Bare(t: Text) {
    t == [] || (!IsBracket(t[0]) && !IsBracket(t[|t| - 1]))
  }

  lemma {:induction false} BracketsLeftOf(before: Text, t: Text)
    requires Brackets(before) && (t == [] || !IsBracket(t[0]))
    ensures TrimBracketsLeft(before + t) == t
  {
    if before == [] {
      assert before + t == t;
    } else {
      BracketsLeftOf(before[1..], t);
      assert (before + t)[1..] == before[1..] + t;
    }
  }

  lemma {:induction false} BracketsRightOf(t: Text, after: Text)
    requires Brackets(after) && (t == [] || !IsBracket(t[|t| - 1]))
    ensures TrimBracketsRight(t + after) == t
    decreases |after|
  {
    if after == [] {
      assert t + after == t;
    } else {
      BracketsRightOf(t, after[..|after| - 1]);
      assert (t + after)[..|t + after| - 1] == t + after[..|after| - 1];
    }
  }

  // A label is the text between white space and brackets, folded: "[npc]" is npc.
  lemma LabelOf(a: Text, open: Text, core: Text, close: Text, b: Text)
    requires Spaces(a) && Spaces(b) && Brackets(open) && Brackets(close) && Bare(core) && Trimmed(open + core + close)
    ensures NormalizedLabel(a + (open + core + close) + b) == Lower(core)
  {
    TrimOf(a, open + core + close, b);
    BracketsOf(open, core, close);
  }

  lemma BracketsOf(open: Text, core: Text, close: Text)
    requires Brackets(open) && Brackets(close) && Bare(core)
    ensures TrimBracketsRight(TrimBracketsLeft(open + core + close)) == core
  {
    if core == [] {
      BracketsLeftOf(open + close, []);
      assert open + core + close == open + close + [];
    } else {
      BracketsLeftOf(open, core + close);
      assert open + core + close == open + (core + close);
      BracketsRightOf(core, close);
    }
  }

  // The only site holds a value: it is the one section or string token with that
  // name and a token behind it, and that token is the integer.
  lemma OnlySiteIff(tokens: seq<Token>, names: Names, k: nat, value: int)
    ensures OnlySite(tokens, names, 0, k, value) <==>
              && k + 1 < |tokens| && tokens[k + 1].kind == 0 && tokens[k + 1].value == value
              && forall j: nat :: j < |tokens| ==>
                   (j == k <==>
                    j < |tokens| - 1 && (tokens[j].kind == 3 || tokens[j].kind == 6) && names(tokens[j].value))
  {
    forall j: nat | j < |tokens|
      ensures Site(tokens, names, j) <==>
              j < |tokens| - 1 && (tokens[j].kind == 3 || tokens[j].kind == 6) && names(tokens[j].value)
    {
    }
  }
}
