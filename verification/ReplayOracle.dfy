// What the replay guard is for, with unlimited memory: every nonce ever
// accepted is remembered, beside the highest sequence ever presented.
module ReplayOracle {
  import opened Bytes
  import opened Text
  import opened Wrappers

  const NONCE_SIZE := 12

  // A nonce: its first eight bytes as a number, most significant first, and the
  // other four.
  datatype Nonce = Nonce(sequence: nat, suffix: Text)

  function KeyOf(bytes: Text): Nonce
    requires |bytes| == NONCE_SIZE
  {
    Nonce(FromBE(bytes[..8]), bytes[8..])
  }

  lemma KeyBound(bytes: Text)
    requires |bytes| == NONCE_SIZE
    ensures KeyOf(bytes).sequence < TWO64
  {
    FromBEBound(bytes[..8]);
    Pow256Values();
  }

  // Different nonces have different keys.
  lemma KeyInjective(a: Text, b: Text)
    requires |a| == NONCE_SIZE && |b| == NONCE_SIZE && KeyOf(a) == KeyOf(b)
    ensures a == b
  {
    BEOfFromBE(a[..8]);
    BEOfFromBE(b[..8]);
    assert a == a[..8] + a[8..] && b == b[..8] + b[8..];
  }

  datatype Verdict = Accepted | Replay | Full | Malformed

  datatype Oracle = Oracle(accepted: set<Nonce>, highest: Option<nat>, window: nat)

  // Not yet behind the window that ends at `highest`.
  predicate InWindow(n: Nonce, highest: nat, window: nat) {
    n.sequence + window > highest
  }

  function Live(accepted: set<Nonce>, highest: nat, window: nat): set<Nonce> {
    set n | n in accepted && InWindow(n, highest, window)
  }

  function Raise(highest: Option<nat>, s: nat): nat {
    if highest.Some? && s <= highest.value then highest.value else s
  }

  function PresentKey(o: Oracle, key: Nonce): (Oracle, Verdict) {
    var h := Raise(o.highest, key.sequence);
    var raised := o.(highest := Some(h));
    if !InWindow(key, h, o.window) then (o, Replay)
    else if key in o.accepted then (raised, Replay)
    else if |Live(o.accepted, h, o.window)| >= o.window then (raised, Full)
    else (raised.(accepted := o.accepted + {key}), Accepted)
  }

  function Present(o: Oracle, nonce: Text): (Oracle, Verdict) {
    if |nonce| != NONCE_SIZE then (o, Malformed) else PresentKey(o, KeyOf(nonce))
  }

  function Start(window: nat): Oracle {
    Oracle({}, None, window)
  }

  // The state after a history of calls, and the verdict of each call.
  function After(window: nat, calls: seq<Text>): Oracle {
    if calls == [] then Start(window)
    else Present(After(window, calls[..|calls| - 1]), calls[|calls| - 1]).0
  }

  function VerdictAt(window: nat, calls: seq<Text>, j: nat): Verdict
    requires j < |calls|
  {
    Present(After(window, calls[..j]), calls[j]).1
  }

  // ---- The same, read off the history ----

  predicate AcceptedBefore(window: nat, calls: seq<Text>, j: nat, n: Nonce)
    requires j <= |calls|
  {
    exists i :: 0 <= i < j && |calls[i]| == NONCE_SIZE && KeyOf(calls[i]) == n
      && VerdictAt(window, calls, i) == Accepted
  }

  // The highest sequence presented, whatever became of the call.
  function HighestOf(calls: seq<Text>): Option<nat> {
    if calls == [] then None
    else
      var before := HighestOf(calls[..|calls| - 1]);
      var last := calls[|calls| - 1];
      if |last| != NONCE_SIZE then before else Some(Raise(before, KeyOf(last).sequence))
  }

  predicate Presents(calls: seq<Text>, i: nat, sequence: nat)
    requires i < |calls|
  {
    |calls[i]| == NONCE_SIZE && KeyOf(calls[i]).sequence == sequence
  }

  lemma {:induction false} HighestOfIsHighest(calls: seq<Text>, i: nat)
    requires i < |calls| && |calls[i]| == NONCE_SIZE
    ensures HighestOf(calls).Some? && KeyOf(calls[i]).sequence <= HighestOf(calls).value
    decreases |calls|
  {
    if i < |calls| - 1 { HighestOfIsHighest(calls[..|calls| - 1], i); }
  }

  lemma {:induction false} HighestOfIsPresented(calls: seq<Text>)
    ensures HighestOf(calls).Some? ==> exists i :: 0 <= i < |calls| && Presents(calls, i, HighestOf(calls).value)
    decreases |calls|
  {
    if calls != [] {
      var front, last := calls[..|calls| - 1], |calls| - 1;
      HighestOfIsPresented(front);
      if HighestOf(front) == HighestOf(calls) && HighestOf(calls).Some? {
        var i :| 0 <= i < |front| && Presents(front, i, HighestOf(front).value);
        assert Presents(calls, i, HighestOf(calls).value);
      } else if HighestOf(calls).Some? {
        assert Presents(calls, last, HighestOf(calls).value);
      }
    }
  }

  lemma {:induction false} AfterHighest(window: nat, calls: seq<Text>)
    requires window > 0
    ensures After(window, calls).highest == HighestOf(calls) && After(window, calls).window == window
    decreases |calls|
  {
    if calls != [] { AfterHighest(window, calls[..|calls| - 1]); }
  }

  // The mark is the greatest sequence of all the nonces presented, accepted or
  // not, and there is none while there was no nonce.
  lemma StateHighest(window: nat, calls: seq<Text>)
    requires window > 0
    ensures After(window, calls).highest == HighestOf(calls) && After(window, calls).window == window
    ensures forall h: nat :: HighestOf(calls) == Some(h) <==>
              && (exists i :: 0 <= i < |calls| && Presents(calls, i, h))
              && (forall i :: 0 <= i < |calls| && |calls[i]| == NONCE_SIZE ==> KeyOf(calls[i]).sequence <= h)
  {
    AfterHighest(window, calls);
    HighestOfIsPresented(calls);
    forall i | 0 <= i < |calls| && |calls[i]| == NONCE_SIZE
      ensures HighestOf(calls).Some? && KeyOf(calls[i]).sequence <= HighestOf(calls).value
    {
      HighestOfIsHighest(calls, i);
    }
  }

  lemma AcceptedBeforePrefix(window: nat, calls: seq<Text>, j: nat, n: Nonce)
    requires j <= |calls|
    ensures AcceptedBefore(window, calls, j, n) <==> AcceptedBefore(window, calls[..j], j, n)
  {
    forall i | 0 <= i < j
      ensures VerdictAt(window, calls, i) == VerdictAt(window, calls[..j], i) && calls[i] == calls[..j][i]
    {
      assert calls[..i] == calls[..j][..i];
    }
    if AcceptedBefore(window, calls, j, n) {
      var i :| 0 <= i < j && |calls[i]| == NONCE_SIZE && KeyOf(calls[i]) == n
        && VerdictAt(window, calls, i) == Accepted;
      assert calls[..j][i] == calls[i];
    }
  }

  lemma AcceptedBeforeNext(window: nat, calls: seq<Text>, j: nat, n: Nonce)
    requires j < |calls|
    ensures AcceptedBefore(window, calls, j + 1, n) <==>
              AcceptedBefore(window, calls, j, n)
              || (|calls[j]| == NONCE_SIZE && KeyOf(calls[j]) == n && VerdictAt(window, calls, j) == Accepted)
  {
  }

  lemma {:induction false} StateAccepted(window: nat, calls: seq<Text>, n: Nonce)
    ensures n in After(window, calls).accepted <==> AcceptedBefore(window, calls, |calls|, n)
    decreases |calls|
  {
    if calls != [] {
      var last := |calls| - 1;
      StateAccepted(window, calls[..last], n);
      AcceptedBeforePrefix(window, calls, last, n);
      AcceptedBeforeNext(window, calls, last, n);
    }
  }

  lemma StateAcceptedAt(window: nat, calls: seq<Text>, j: nat, n: Nonce)
    requires j <= |calls|
    ensures n in After(window, calls[..j]).accepted <==> AcceptedBefore(window, calls, j, n)
  {
    StateAccepted(window, calls[..j], n);
    AcceptedBeforePrefix(window, calls, j, n);
  }

  // Nothing is accepted twice.
  lemma NeverAcceptedTwice(window: nat, calls: seq<Text>, i: nat, j: nat)
    requires i < j < |calls| && calls[i] == calls[j] && VerdictAt(window, calls, i) == Accepted
    ensures VerdictAt(window, calls, j) == Replay
  {
    StateAcceptedAt(window, calls, j, KeyOf(calls[i]));
    assert AcceptedBefore(window, calls, j, KeyOf(calls[i]));
  }

  // Exactly which calls are accepted, over any history.
  lemma AcceptedIff(window: nat, calls: seq<Text>, j: nat, live: set<Nonce>)
    requires window > 0 && j < |calls| && |calls[j]| == NONCE_SIZE
    requires HighestOf(calls[..j + 1]).Some?
    requires forall n :: n in live <==>
               AcceptedBefore(window, calls, j, n) && InWindow(n, HighestOf(calls[..j + 1]).value, window)
    ensures VerdictAt(window, calls, j) == Accepted <==>
              && InWindow(KeyOf(calls[j]), HighestOf(calls[..j + 1]).value, window)
              && !AcceptedBefore(window, calls, j, KeyOf(calls[j]))
              && |live| < window
    ensures VerdictAt(window, calls, j) == Replay <==>
              || !InWindow(KeyOf(calls[j]), HighestOf(calls[..j + 1]).value, window)
              || AcceptedBefore(window, calls, j, KeyOf(calls[j]))
    ensures VerdictAt(window, calls, j) != Malformed
  {
    var o := After(window, calls[..j]);
    AfterHighest(window, calls[..j]);
    assert calls[..j + 1][..j] == calls[..j];
    var h := Raise(o.highest, KeyOf(calls[j]).sequence);
    assert HighestOf(calls[..j + 1]) == Some(h);
    forall n: Nonce ensures n in o.accepted <==> AcceptedBefore(window, calls, j, n) {
      StateAcceptedAt(window, calls, j, n);
    }
    assert live == Live(o.accepted, h, window);
  }

  lemma {:induction false} HighestOfGrows(calls: seq<Text>, j: nat)
    requires j <= |calls| && HighestOf(calls[..j]).Some?
    ensures HighestOf(calls).Some? && HighestOf(calls[..j]).value <= HighestOf(calls).value
    decreases |calls|
  {
    if j < |calls| {
      assert calls[..|calls| - 1][..j] == calls[..j];
      HighestOfGrows(calls[..|calls| - 1], j);
    } else {
      assert calls[..j] == calls;
    }
  }

  // Once out of the window, refused as a replay for ever.
  lemma OutForever(window: nat, calls: seq<Text>, i: nat, j: nat)
    requires window > 0 && i <= j < |calls| && |calls[j]| == NONCE_SIZE
    requires HighestOf(calls[..i]).Some? && !InWindow(KeyOf(calls[j]), HighestOf(calls[..i]).value, window)
    ensures VerdictAt(window, calls, j) == Replay
  {
    AfterHighest(window, calls[..j]);
    assert calls[..j][..i] == calls[..i];
    HighestOfGrows(calls[..j], i);
  }
}
