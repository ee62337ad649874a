// Moving one townsman of a map's token stream
// (go-server/cmd/scratch/pvfjoustentry/main.go, ensureTownNPCPlacement).
module TownPlacement {
  import opened JoustEntry
  import opened Text
  import opened TokenStream
  import opened Wrappers

  datatype Move = Move(npcID: int, oldX: int, oldY: int, newX: int, newY: int)

  // Which strings open the section of townsmen, and which mean left.
  datatype Labels = Labels(npc: Names, left: Names)

  // Whether the last section token before an index opens the townsmen's section.
  predicate InSection(tokens: seq<Token>, npc: Names, i: nat)
    requires i <= |tokens|
  {
    i > 0 && if tokens[i - 1].kind == SECTION_KIND then npc(tokens[i - 1].value) else InSection(tokens, npc, i - 1)
  }

  predicate Candidate(tokens: seq<Token>, l: Labels, m: Move, i: nat) {
    i + 5 <= |tokens| && Holds(tokens[i], m.npcID) && InSection(tokens, l.npc, i)
  }

  // The direction, two coordinates and a zero behind a candidate.
  predicate Tuple(tokens: seq<Token>, l: Labels, i: nat) {
    && i + 5 <= |tokens|
    && tokens[i + 1].kind == STRING_KIND && l.left(tokens[i + 1].value)
    && tokens[i + 2].kind == INT_KIND && tokens[i + 3].kind == INT_KIND && Holds(tokens[i + 4], 0)
  }

  predicate StandsAt(tokens: seq<Token>, i: nat, x: int, y: int) {
    i + 5 <= |tokens| && tokens[i + 2].value == x && tokens[i + 3].value == y
  }

  function Moved(tokens: seq<Token>, m: Move, i: nat): (r: seq<Token>)
    requires i + 5 <= |tokens|
    ensures |r| == |tokens|
  {
    tokens[i + 2 := tokens[i + 2].(value := Wrap32(m.newX))][i + 3 := tokens[i + 3].(value := Wrap32(m.newY))]
  }

  function EnsureFrom(tokens: seq<Token>, l: Labels, m: Move, i: nat, inSection: bool, matches: nat)
    : (r: Result<seq<Token>, Failure>)
    decreases |tokens| - i
  {
    if i >= |tokens| then if matches == 1 then Ok(tokens) else Err(WrongCount(matches))
    else if tokens[i].kind == SECTION_KIND then EnsureFrom(tokens, l, m, i + 1, l.npc(tokens[i].value), matches)
    else if !inSection || !Holds(tokens[i], m.npcID) || i + 5 > |tokens|
    then EnsureFrom(tokens, l, m, i + 1, inSection, matches)
    else if !Tuple(tokens, l, i) then Err(Mismatch)
    else if StandsAt(tokens, i, m.oldX, m.oldY)
    then EnsureFrom(Moved(tokens, m, i), l, m, i + 1, inSection, matches + 1)
    else if StandsAt(tokens, i, m.newX, m.newY) then EnsureFrom(tokens, l, m, i + 1, inSection, matches + 1)
    else Err(Mismatch)
  }

  function Ensure(tokens: seq<Token>, l: Labels, m: Move): Result<seq<Token>, Failure> {
    EnsureFrom(tokens, l, m, 0, false, 0)
  }

  // ---- What it finds ----

  predicate NoCandidate(tokens: seq<Token>, l: Labels, m: Move, from: nat, to: nat) {
    forall j :: from <= j < to ==> !Candidate(tokens, l, m, j)
  }

  // The candidate at k becomes what is there in out.
  predicate Settles(tokens: seq<Token>, l: Labels, m: Move, k: nat, out: seq<Token>) {
    && Candidate(tokens, l, m, k) && Tuple(tokens, l, k)
    && if StandsAt(tokens, k, m.oldX, m.oldY) then out == Moved(tokens, m, k)
       else StandsAt(tokens, k, m.newX, m.newY) && out == tokens
  }

  // The candidate at k is the only one from an index on. Those before it are
  // looked for in the given stream, those behind it in the edited one.
  predicate OnlyPlacement(tokens: seq<Token>, l: Labels, m: Move, from: nat, k: nat, out: seq<Token>) {
    && from <= k && NoCandidate(tokens, l, m, from, k)
    && Settles(tokens, l, m, k, out) && NoCandidate(out, l, m, k + 1, |out|)
  }

  ghost predicate HasOnlyPlacement(tokens: seq<Token>, l: Labels, m: Move, from: nat, out: seq<Token>) {
    exists k :: OnlyPlacement(tokens, l, m, from, k, out)
  }

  // Rewriting coordinates opens and closes no section.
  lemma {:induction false} SectionsKept(tokens: seq<Token>, npc: Names, m: Move, k: nat, i: nat)
    requires k + 5 <= |tokens| && tokens[k + 2].kind == INT_KIND && tokens[k + 3].kind == INT_KIND
    requires i <= |tokens|
    ensures InSection(Moved(tokens, m, k), npc, i) <==> InSection(tokens, npc, i)
    decreases i
  {
    if i > 0 { SectionsKept(tokens, npc, m, k, i - 1); }
  }

  lemma OneFurther(tokens: seq<Token>, l: Labels, m: Move, i: nat, out: seq<Token>)
    requires i < |tokens| && !Candidate(tokens, l, m, i)
    ensures NoCandidate(tokens, l, m, i, |tokens|) <==> NoCandidate(tokens, l, m, i + 1, |tokens|)
    ensures HasOnlyPlacement(tokens, l, m, i, out) <==> HasOnlyPlacement(tokens, l, m, i + 1, out)
  {
    var next := i + 1;
    forall k ensures OnlyPlacement(tokens, l, m, i, k, out) <==> OnlyPlacement(tokens, l, m, next, k, out) {
    }
  }

  // From a candidate on, the only placement is the candidate itself.
  lemma AtCandidate(tokens: seq<Token>, l: Labels, m: Move, i: nat, out: seq<Token>)
    requires Candidate(tokens, l, m, i)
    ensures HasOnlyPlacement(tokens, l, m, i, out) <==> OnlyPlacement(tokens, l, m, i, i, out)
  {
    forall k | OnlyPlacement(tokens, l, m, i, k, out) ensures k == i {
    }
  }

  lemma {:induction false} EnsureFinds(tokens: seq<Token>, l: Labels, m: Move, i: nat, inSection: bool, matches: nat,
                     out: seq<Token>)
    requires i <= |tokens| && inSection == InSection(tokens, l.npc, i)
    ensures EnsureFrom(tokens, l, m, i, inSection, matches) == Ok(out) <==>
              || (matches == 1 && NoCandidate(tokens, l, m, i, |tokens|) && out == tokens)
              || (matches == 0 && HasOnlyPlacement(tokens, l, m, i, out))
    decreases |tokens| - i
  {
    if i == |tokens| {
    } else if !Candidate(tokens, l, m, i) {
      var next := if tokens[i].kind == SECTION_KIND then l.npc(tokens[i].value) else inSection;
      EnsureFinds(tokens, l, m, i + 1, next, matches, out);
      OneFurther(tokens, l, m, i, out);
    } else {
      AtCandidate(tokens, l, m, i, out);
      if Tuple(tokens, l, i) {
        var edited := if StandsAt(tokens, i, m.oldX, m.oldY) then Moved(tokens, m, i) else tokens;
        SectionsKept(tokens, l.npc, m, i, i + 1);
        EnsureFinds(edited, l, m, i + 1, inSection, matches + 1, out);
      }
    }
  }

  // Main result: the placement succeeds exactly when one candidate is found and
  // it stands at the old or at the new place; then only the two coordinates of
  // that candidate can have changed.
  lemma EnsureIff(tokens: seq<Token>, l: Labels, m: Move, out: seq<Token>)
    ensures Ensure(tokens, l, m) == Ok(out) <==> exists k :: OnlyPlacement(tokens, l, m, 0, k, out)
  {
    EnsureFinds(tokens, l, m, 0, false, 0, out);
  }

  // A second run on the result changes nothing and succeeds exactly when the
  // place written is one the tool recognises, ...
  lemma EnsureTwice(tokens: seq<Token>, l: Labels, m: Move, out: seq<Token>)
    requires Ensure(tokens, l, m) == Ok(out)
    ensures Ensure(out, l, m) == Ok(out) <==>
              (Wrap32(m.newX) == m.newX && Wrap32(m.newY) == m.newY)
              || (Wrap32(m.newX) == m.oldX && Wrap32(m.newY) == m.oldY)
    ensures Ensure(out, l, m).Ok? ==> Ensure(out, l, m) == Ok(out)
  {
    EnsureIff(tokens, l, m, out);
    var k :| OnlyPlacement(tokens, l, m, 0, k, out);
    SectionsKept(tokens, l.npc, m, k, k);
    CandidatesBefore(tokens, l, m, k);
    assert Candidate(out, l, m, k) && Tuple(out, l, k) && NoCandidate(out, l, m, 0, k);
    if StandsAt(out, k, m.oldX, m.oldY) { assert Moved(out, m, k) == out; }
    if StandsAt(out, k, m.oldX, m.oldY) || StandsAt(out, k, m.newX, m.newY) {
      assert OnlyPlacement(out, l, m, 0, k, out);
      EnsureIff(out, l, m, out);
    }
    if Ensure(out, l, m).Ok? {
      var again := Ensure(out, l, m).value;
      EnsureIff(out, l, m, again);
      var k2 :| OnlyPlacement(out, l, m, 0, k2, again);
      assert k2 == k;
    }
  }

  lemma CandidatesBefore(tokens: seq<Token>, l: Labels, m: Move, k: nat)
    requires Candidate(tokens, l, m, k) && Tuple(tokens, l, k)
    ensures forall j :: 0 <= j <= k ==> (Candidate(Moved(tokens, m, k), l, m, j) <==> Candidate(tokens, l, m, j))
  {
    forall j | 0 <= j <= k ensures Candidate(Moved(tokens, m, k), l, m, j) <==> Candidate(tokens, l, m, j) {
      SectionsKept(tokens, l.npc, m, k, j);
    }
  }

  // ---- The program ----

  method EnsureTownNPCPlacement(resolve: Resolver, raw: Text, m: Move) returns (r: Result<Text, Failure>)
    ensures r == if |raw| % WIDTH != 0 then Err(Misaligned)
                 else match Ensure(Tokens(raw), Labels(Labelled(resolve, [110, 112, 99]),
                                                       Labelled(resolve, [108, 101, 102, 116])), m)
                   case Ok(tokens) => Ok(Encode(tokens))
                   case Err(failure) => Err(failure)
  {
    if |raw| % 5 != 0 { return Err(Misaligned); }
    r := EnsureInCopy(Labels(Labelled(resolve, NPC), Labelled(resolve, LEFT)), raw, m);
  }

  method EnsureInCopy(l: Labels, raw: Text, m: Move) returns (r: Result<Text, Failure>)
    requires |raw| % WIDTH == 0
    ensures r == match Ensure(Tokens(raw), l, m)
                 case Ok(tokens) => Ok(Encode(tokens))
                 case Err(failure) => Err(failure)
  {
    var out := new byte[|raw|](i requires 0 <= i < |raw| => raw[i]);
    assert out[..] == raw;
    var inSection := false;
    var matches := 0;
    for i := 0 to |raw| / 5
      invariant out.Length == |raw| && fresh(out)
      invariant Ensure(Tokens(raw), l, m) == EnsureFrom(Tokens(out[..]), l, m, i, inSection, matches)
    {
      var token := TokenAt(out[..], i);
      assert Tokens(out[..])[i] == token;
      if token.kind == 3 {
        inSection := l.npc(token.value);
      } else if inSection && token.kind == 0 && token.value == m.npcID && 5 * i + 25 <= out.Length {
        var ok := PlaceAt(l, out, i, m);
        if !ok { return Err(Mismatch); }
        matches := matches + 1;
      }
    }
    if matches != 1 { return Err(WrongCount(matches)); }
    EncodeOfTokens(out[..]);
    r := Ok(out[..]);
  }

  // The checks and the two writes at one candidate.
  method PlaceAt(l: Labels, out: array<byte>, i: nat, m: Move) returns (ok: bool)
    requires WIDTH * i + 5 * WIDTH <= out.Length
    modifies out
    ensures |Tokens(out[..])| == |Tokens(old(out[..]))| >= i + 5
    ensures var before := Tokens(old(out[..]));
            ok <==> Tuple(before, l, i) && (StandsAt(before, i, m.oldX, m.oldY) || StandsAt(before, i, m.newX, m.newY))
    ensures var before := Tokens(old(out[..]));
            ok ==> Tokens(out[..]) == if StandsAt(before, i, m.oldX, m.oldY) then Moved(before, m, i) else before
  {
    MultipleIndex(i + 4, out.Length);
    var direction, xToken := TokenAt(out[..], i + 1), TokenAt(out[..], i + 2);
    var yToken, zToken := TokenAt(out[..], i + 3), TokenAt(out[..], i + 4);
    ghost var before := Tokens(out[..]);
    assert before[i + 1] == direction && before[i + 2] == xToken && before[i + 3] == yToken && before[i + 4] == zToken;
    if direction.kind != 6 || !l.left(direction.value) ||
       xToken.kind != 0 || yToken.kind != 0 || zToken.kind != 0 || zToken.value != 0
    {
      return false;
    }
    if xToken.value == m.oldX && yToken.value == m.oldY {
      TokensOfPut(out[..], i + 2, Wrap32(m.newX));
      PutValue(out, i + 2, Wrap32(m.newX));
      TokensOfPut(out[..], i + 3, Wrap32(m.newY));
      PutValue(out, i + 3, Wrap32(m.newY));
      return true;
    }
    return xToken.value == m.newX && yToken.value == m.newY;
  }

  // ---- What a placement is ----

  // The section token before an index that has no other behind it opens the
  // townsmen's section.
  predicate OpenedAt(tokens: seq<Token>, npc: Names, s: nat, i: nat) {
    && s < i <= |tokens| && tokens[s].kind == 3 && npc(tokens[s].value)
    && forall j :: s < j < i ==> tokens[j].kind != 3
  }

  lemma {:induction false} InSectionIff(tokens: seq<Token>, npc: Names, i: nat)
    requires i <= |tokens|
    ensures InSection(tokens, npc, i) <==> exists s :: OpenedAt(tokens, npc, s, i)
    decreases i
  {
    if i > 0 {
      var last := i - 1;
      InSectionIff(tokens, npc, last);
      if tokens[last].kind == 3 {
        if npc(tokens[last].value) { assert OpenedAt(tokens, npc, last, i); }
      } else {
        if s: nat :| OpenedAt(tokens, npc, s, last) { assert OpenedAt(tokens, npc, s, i); }
        if s: nat :| OpenedAt(tokens, npc, s, i) { assert OpenedAt(tokens, npc, s, last); }
      }
    }
  }

  // A townsman, the direction, a place and a zero.
  predicate StandsThere(tokens: seq<Token>, l: Labels, m: Move, k: nat, x: int, y: int) {
    && k + 5 <= |tokens|
    && tokens[k].kind == 0 && tokens[k].value == m.npcID
    && tokens[k + 1].kind == 6 && l.left(tokens[k + 1].value)
    && tokens[k + 2].kind == 0 && tokens[k + 2].value == x
    && tokens[k + 3].kind == 0 && tokens[k + 3].value == y
    && tokens[k + 4].kind == 0 && tokens[k + 4].value == 0
  }

  // Main result: a candidate settles exactly if it stands at the old place, where
  // its two coordinates are overwritten, or at the new one.
  lemma SettlesIff(tokens: seq<Token>, l: Labels, m: Move, k: nat, out: seq<Token>)
    requires k <= |tokens|
    ensures Settles(tokens, l, m, k, out) <==>
              && (exists s :: OpenedAt(tokens, l.npc, s, k))
              && (|| (StandsThere(tokens, l, m, k, m.oldX, m.oldY)
                      && out == tokens[..k + 2] + [Token(0, Wrap32(m.newX)), Token(0, Wrap32(m.newY))]
                                + tokens[k + 4..])
                  || (!StandsAt(tokens, k, m.oldX, m.oldY) && StandsThere(tokens, l, m, k, m.newX, m.newY)
                      && out == tokens))
  {
    InSectionIff(tokens, l.npc, k);
    if k + 5 <= |tokens| && tokens[k + 2].kind == 0 && tokens[k + 3].kind == 0 { MovedIs(tokens, m, k); }
  }

  lemma MovedIs(tokens: seq<Token>, m: Move, k: nat)
    requires k + 5 <= |tokens| && tokens[k + 2].kind == 0 && tokens[k + 3].kind == 0
    ensures Moved(tokens, m, k) ==
            tokens[..k + 2] + [Token(0, Wrap32(m.newX)), Token(0, Wrap32(m.newY))] + tokens[k + 4..]
  {
  }
}
