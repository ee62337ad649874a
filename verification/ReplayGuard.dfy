// FrameReplayGuard (protocol/frame_crypto.go): a ring of slots, one for each
// sequence in the window, a set and a counter, refining the oracle that
// remembers everything.
module ReplayGuard {
  import opened Arithmetic
  import opened Bytes
  import opened ReplayOracle
  import opened Sequences
  import opened Text
  import opened Wrappers

  const DEFAULT_ENTRIES := 4096

  function Add64(a: nat, b: nat): nat {
    (a + b) % TWO64
  }

  function Sub64(a: nat, b: nat): nat {
    (a - b) % TWO64
  }

  // replayWindow
  function Window(maxEntries: int): nat {
    if maxEntries <= 0 then DEFAULT_ENTRIES else maxEntries
  }

  datatype Slot = Slot(sequence: nat, active: bool, nonces: seq<Nonce>)

  const EMPTY := Slot(0, false, [])

  // The sequence whose slot is `step` past the highest is the one that many
  // steps into the oldest part of the window.
  lemma ExpiringSlot(q: nat, h: nat, step: nat, w: nat)
    requires 0 < step < w && q <= h < q + w
    ensures q % w == (h + step) % w <==> q + w == h + step
  {
    if q % w == (h + step) % w {
      ShiftedResidue(q, w);
      if q + w <= h + step { SameResidue(h + step, q + w, w); } else { SameResidue(q + w, h + step, w); }
    }
    if q + w == h + step { ShiftedResidue(q, w); }
  }

  // ---- The ring ----

  ghost predicate SlotFits(s: Slot, i: nat, w: nat, h: nat)
    requires w > 0
  {
    if s.active then
      && s.nonces != [] && s.sequence % w == i && s.sequence <= h < s.sequence + w
      && (forall k :: 0 <= k < |s.nonces| ==> s.nonces[k].sequence == s.sequence)
      && (forall j, k :: 0 <= j < k < |s.nonces| ==> s.nonces[j] != s.nonces[k])
    else s == EMPTY
  }

  ghost predicate AllFit(slots: seq<Slot>, h: nat)
    requires |slots| > 0
  {
    forall i :: 0 <= i < |slots| ==> SlotFits(slots[i], i, |slots|, h)
  }

  // The set holds exactly what the slots hold, each nonce in its own slot.
  ghost predicate Agrees(slots: seq<Slot>, seen: set<Nonce>)
    requires |slots| > 0
  {
    && (forall n :: n in seen ==> n in slots[n.sequence % |slots|].nonces)
    && (forall i, n :: 0 <= i < |slots| && n in slots[i].nonces ==> n in seen && n.sequence % |slots| == i)
  }

  // The set once the slots of the first `step` sequences past h are cleared.
  ghost predicate Expired(before: set<Nonce>, after: set<Nonce>, h: nat, step: nat, w: nat) {
    forall n :: n in after <==> n in before && InWindow(n, h + step, w)
  }

  lemma ClearedExpires(slots: seq<Slot>, before: set<Nonce>, seen: set<Nonce>, h: nat, step: nat, i: nat)
    requires |slots| > 0 && AllFit(slots, h) && Agrees(slots, seen)
    requires 0 < step < |slots| && i == (h + step) % |slots|
    requires Expired(before, seen, h, step - 1, |slots|)
    ensures var cleared := seen - NonceSet(slots[i].nonces);
            && Expired(before, cleared, h, step, |slots|)
            && Agrees(slots[i := EMPTY], cleared) && AllFit(slots[i := EMPTY], h)
  {
    var w := |slots|;
    var cleared := seen - NonceSet(slots[i].nonces);
    forall n: Nonce | n in seen
      ensures n in slots[i].nonces <==> n.sequence + w == h + step
    {
      var own := slots[n.sequence % w];
      assert n in own.nonces && SlotFits(own, n.sequence % w, w, h);
      ExpiringSlot(n.sequence, h, step, w);
    }
  }

  // What every ready guard satisfies.
  ghost predicate Ring(slots: seq<Slot>, seen: set<Nonce>, total: int, initialized: bool, highest: nat,
                       accepted: set<Nonce>) {
    && 0 < |slots| < TWO63 && highest < TWO64
    && AllFit(slots, highest) && Agrees(slots, seen)
    && total == |seen| <= |slots|
    && seen == Live(accepted, highest, |slots|)
    && (forall n :: n in accepted ==> n.sequence <= highest)
    && (!initialized ==> accepted == {} && highest == 0)
  }

  lemma EmptyRing(slots: seq<Slot>)
    requires |slots| > 0 && forall i :: 0 <= i < |slots| ==> slots[i] == EMPTY
    ensures forall h :: AllFit(slots, h)
    ensures Agrees(slots, {})
  {
  }

  // A nonce in the window finds its own slot empty or holding its sequence.
  lemma NoCollision(slots: seq<Slot>, highest: nat, sequence: nat)
    requires |slots| > 0 && AllFit(slots, highest)
    requires sequence <= highest && sequence + |slots| > highest
    ensures var s := slots[sequence % |slots|]; s.active ==> s.sequence == sequence
  {
    var i := sequence % |slots|;
    var s := slots[i];
    assert SlotFits(s, i, |slots|, highest);
    if s.active {
      if s.sequence <= sequence { SameResidue(sequence, s.sequence, |slots|); }
      else { SameResidue(s.sequence, sequence, |slots|); }
    }
  }

  // Adding a fresh nonce to its slot.
  lemma Stored(slots: seq<Slot>, seen: set<Nonce>, highest: nat, n: Nonce)
    requires |slots| > 0 && AllFit(slots, highest) && Agrees(slots, seen)
    requires n.sequence <= highest && InWindow(n, highest, |slots|) && n !in seen
    ensures var i := n.sequence % |slots|;
            var next := slots[i := Slot(n.sequence, true, slots[i].nonces + [n])];
            AllFit(next, highest) && Agrees(next, seen + {n})
  {
    var i := n.sequence % |slots|;
    var old_ := slots[i];
    var s := Slot(n.sequence, true, old_.nonces + [n]);
    NoCollision(slots, highest, n.sequence);
    assert SlotFits(old_, i, |slots|, highest);
    forall k | 0 <= k < |old_.nonces| ensures old_.nonces[k] != n {
      assert old_.nonces[k] in old_.nonces;
    }
    assert SlotFits(s, i, |slots|, highest);
  }

  // Raising the mark by less than the window, once the expired slots are clear.
  lemma Advanced(slots: seq<Slot>, before: set<Nonce>, seen: set<Nonce>, h: nat, delta: nat, accepted: set<Nonce>)
    requires |slots| > 0 && AllFit(slots, h) && Agrees(slots, seen) && delta < |slots|
    requires before == Live(accepted, h, |slots|) && Expired(before, seen, h, delta, |slots|)
    ensures AllFit(slots, h + delta) && seen == Live(accepted, h + delta, |slots|)
  {
    forall i | 0 <= i < |slots| ensures SlotFits(slots[i], i, |slots|, h + delta) {
      assert SlotFits(slots[i], i, |slots|, h);
      if slots[i].active {
        var n := slots[i].nonces[0];
        assert n in slots[i].nonces && n in seen;
        assert n.sequence == slots[i].sequence;
      }
    }
  }

  // The slots and the set once `delta` expired sequences are cleared.
  ghost predicate Cleared(before: set<Nonce>, slots: seq<Slot>, seen: set<Nonce>, total: int, h: nat, delta: nat)
    requires |slots| > 0
  {
    AllFit(slots, h) && Agrees(slots, seen) && total == |seen| && Expired(before, seen, h, delta, |slots|)
  }

  lemma AdvanceKeepsRing(was: seq<Slot>, before: set<Nonce>, beforeTotal: int, h: nat, accepted: set<Nonce>,
                         slots: seq<Slot>, seen: set<Nonce>, total: int, delta: nat)
    requires Ring(was, before, beforeTotal, true, h, accepted) && |slots| == |was| && delta < |slots|
    requires h + delta < TWO64 && Cleared(before, slots, seen, total, h, delta)
    ensures Ring(slots, seen, total, true, h + delta, accepted)
  {
    Advanced(slots, before, seen, h, delta, accepted);
    LiveBound(accepted, h, delta, |slots|);
  }

  lemma ResetKeepsRing(was: seq<Slot>, before: set<Nonce>, total: int, h: nat, accepted: set<Nonce>,
                       slots: seq<Slot>, sequence: nat)
    requires Ring(was, before, total, true, h, accepted) && |slots| == |was|
    requires h + |slots| <= sequence < TWO64 && forall i :: 0 <= i < |slots| ==> slots[i] == EMPTY
    ensures Ring(slots, {}, 0, true, sequence, accepted)
  {
    EmptyRing(slots);
    assert Live(accepted, sequence, |slots|) == {};
  }

  function Recorded(slots: seq<Slot>, n: Nonce): (next: seq<Slot>)
    requires |slots| > 0
    ensures |next| == |slots|
  {
    var i := n.sequence % |slots|;
    slots[i := Slot(n.sequence, true, slots[i].nonces + [n])]
  }

  lemma RecordKeepsRing(slots: seq<Slot>, seen: set<Nonce>, total: int, h: nat, accepted: set<Nonce>, n: Nonce)
    requires Ring(slots, seen, total, true, h, accepted) && total < |slots|
    requires n.sequence <= h && InWindow(n, h, |slots|) && n !in seen
    ensures Ring(Recorded(slots, n), seen + {n}, total + 1, true, h, accepted + {n})
    ensures var s := slots[n.sequence % |slots|]; s.active ==> s.sequence == n.sequence
  {
    Stored(slots, seen, h, n);
    NoCollision(slots, h, n.sequence);
    assert Live(accepted + {n}, h, |slots|) == Live(accepted, h, |slots|) + {n};
  }

  lemma StartKeepsRing(slots: seq<Slot>, seen: set<Nonce>, total: int, accepted: set<Nonce>, sequence: nat)
    requires Ring(slots, seen, total, false, 0, accepted) && sequence < TWO64
    ensures Ring(slots, seen, total, true, sequence, accepted)
  {
    assert seen == {};
    EmptySeenFits(slots, seen, sequence);
  }

  // The bounded set answers as the unbounded one would.
  lemma SeenIsAccepted(slots: seq<Slot>, seen: set<Nonce>, total: int, h: nat, accepted: set<Nonce>, n: Nonce)
    requires Ring(slots, seen, total, true, h, accepted) && InWindow(n, h, |slots|)
    ensures n in seen <==> n in accepted
    ensures total == |Live(accepted, h, |slots|)|
  {
  }

  lemma PresentStale(o: Oracle, key: Nonce)
    requires !InWindow(key, Raise(o.highest, key.sequence), o.window)
    ensures PresentKey(o, key) == (o, Replay)
  {
  }

  lemma PresentAdmits(o: Oracle, key: Nonce, h: nat, accepted: set<Nonce>, v: Verdict)
    requires h == Raise(o.highest, key.sequence) && InWindow(key, h, o.window)
    requires v == if key in o.accepted then Replay
                  else if |Live(o.accepted, h, o.window)| >= o.window then Full else Accepted
    requires accepted == if v == Accepted then o.accepted + {key} else o.accepted
    ensures PresentKey(o, key) == (Oracle(accepted, Some(h), o.window), v)
  {
  }

  class FrameReplayGuard {
    var max: int
    var initialized: bool
    var highest: nat
    var total: int
    var seen: set<Nonce>
    var slots: array<Slot>
    // Every nonce ever accepted.
    ghost var accepted: set<Nonce>
    // The contents of the slots.
    ghost var ring: seq<Slot>

    // The zero value of the type, before its first use.
    ghost predicate Unused()
      reads this, slots
    {
      slots.Length == 0 && !initialized && highest == 0 && total == 0 && seen == {} && accepted == {} && max < TWO63
    }

    ghost predicate Ready()
      reads this, slots
    {
      max == slots.Length && ring == slots[..] && Ring(ring, seen, total, initialized, highest, accepted)
    }

    ghost predicate Valid()
      reads this, slots
    {
      Unused() || Ready()
    }

    // The guard as the oracle sees it.
    ghost function Abstract(): Oracle
      reads this
    {
      Oracle(accepted, if initialized then Some(highest) else None, Window(max))
    }

    // A guard that was never given a size.
    constructor Zero()
      ensures Valid() && Abstract() == Start(4096) && fresh(slots)
    {
      max, initialized, highest, total, seen, accepted := 0, false, 0, 0, {}, {};
      slots := new Slot[0];
    }

    // NewFrameReplayGuard
    constructor (maxEntries: int)
      requires maxEntries < TWO63
      ensures Ready() && Abstract() == Start(if maxEntries <= 0 then 4096 else maxEntries) && fresh(slots)
    {
      var size := if maxEntries <= 0 then DEFAULT_ENTRIES else maxEntries;
      max, initialized, highest, total, seen, accepted := size, false, 0, 0, {}, {};
      slots := new Slot[size](_ => EMPTY);
      new;
      ring := slots[..];
      EmptyRing(ring);
    }

    method EnsureReady()
      requires Valid()
      modifies this
      ensures Ready() && Abstract() == old(Abstract())
      ensures slots == old(slots) || fresh(slots)
    {
      if max <= 0 { max := DEFAULT_ENTRIES; }
      if slots.Length != max {
        slots := new Slot[max](_ => EMPTY);
        seen, initialized, highest, total := {}, false, 0, 0;
        ring := slots[..];
        EmptyRing(ring);
      }
    }

    // The loop of clearSlot.
    method Forget(nonces: seq<Nonce>)
      requires total == |seen| && NonceSet(nonces) <= seen
      requires forall j, k :: 0 <= j < k < |nonces| ==> nonces[j] != nonces[k]
      modifies this`seen, this`total
      ensures seen == old(seen) - NonceSet(nonces) && total == |seen|
    {
      for k := 0 to |nonces|
        invariant seen == old(seen) - NonceSet(nonces[..k])
        invariant total == |seen|
      {
        assert nonces[k] in NonceSet(nonces) && nonces[k] !in NonceSet(nonces[..k]);
        assert NonceSet(nonces[..k + 1]) == NonceSet(nonces[..k]) + {nonces[k]};
        seen := seen - {nonces[k]};
        total := total - 1;
      }
      assert nonces[..|nonces|] == nonces;
    }

    // clearSlot, on the slot at index i.  The counter never goes negative, so
    // the clamp in FrameReplayGuard.clearSlot never acts.
    method ClearSlot(i: nat, ghost h: nat)
      requires ring == slots[..] && i < |ring| && total == |seen|
      requires SlotFits(ring[i], i, |ring|, h) && NonceSet(ring[i].nonces) <= seen
      modifies this`seen, this`total, this`ring, slots
      ensures ring == slots[..] == old(ring)[i := EMPTY]
      ensures seen == old(seen) - NonceSet(old(ring)[i].nonces)
      ensures total == |seen|
    {
      if slots[i].active {
        Forget(slots[i].nonces);
        if total < 0 {
          // Each nonce forgotten was in the set the counter counts.
          assert false;
        }
        slots[i] := EMPTY;
      }
      ring := ring[i := EMPTY];
    }

    // The turn of the loop in advance that clears the slot `step` past the mark.
    method ClearStep(step: nat, ghost before: set<Nonce>)
      requires ring == slots[..] && 0 < |ring| == max < TWO63 && highest < TWO64 && 0 < step < max
      requires Cleared(before, ring, seen, total, highest, step - 1)
      modifies this`seen, this`total, this`ring, slots
      ensures ring == slots[..] && |ring| == old(|ring|) && Cleared(before, ring, seen, total, highest, step)
    {
      var window := Window(max);
      var start := highest % window;
      SumResidue(highest, step, window);
      NoOverflow(start, step);
      var i := Add64(start, step) % window;
      ClearedExpires(ring, before, seen, highest, step, i);
      SlotAgrees(ring, seen, highest, i);
      ClearSlot(i, highest);
    }

    // The part of advance for a jump past the whole window.
    method Reset(sequence: nat)
      requires Ready() && initialized && highest + max <= sequence < TWO64
      modifies this`slots, this`seen, this`total, this`highest, this`ring
      ensures Ready() && highest == sequence && fresh(slots)
    {
      slots := new Slot[max](_ => EMPTY);
      ResetKeepsRing(ring, seen, total, highest, accepted, slots[..], sequence);
      ring := slots[..];
      seen, total, highest := {}, 0, sequence;
    }

    // The loop of advance.
    method ClearExpired(delta: nat)
      requires ring == slots[..] && 0 < |ring| == max < TWO63 && highest < TWO64 && delta < max
      requires Cleared(seen, ring, seen, total, highest, 0)
      modifies this`seen, this`total, this`ring, slots
      ensures ring == slots[..] && |ring| == old(|ring|) && Cleared(old(seen), ring, seen, total, highest, delta)
    {
      ghost var before := seen;
      var step := 1;
      while step <= delta
        invariant 1 <= step <= delta + 1
        invariant ring == slots[..] && |ring| == max
        invariant Cleared(before, ring, seen, total, highest, step - 1)
      {
        ClearStep(step, before);
        step := step + 1;
      }
    }

    method Advance(sequence: nat)
      requires Ready() && initialized && highest < sequence < TWO64
      modifies this, slots
      ensures Ready() && initialized && highest == sequence
      ensures max == old(max) && accepted == old(accepted)
      ensures slots == old(slots) || fresh(slots)
    {
      var delta := Sub64(sequence, highest);
      var window := Window(max);
      if delta >= window {
        Reset(sequence);
        return;
      }
      Slide(sequence, delta);
    }

    // The part of advance that keeps what is still in the window.
    method Slide(sequence: nat, delta: nat)
      requires Ready() && initialized && highest < sequence < TWO64 && delta == sequence - highest < max
      modifies this`seen, this`total, this`ring, this`highest, slots
      ensures Ready() && highest == sequence
    {
      ghost var was, before, count := ring, seen, total;
      ClearExpired(delta);
      AdvanceKeepsRing(was, before, count, highest, accepted, ring, seen, total, delta);
      highest := sequence;
    }

    // The store at the end of Seen.
    method StoreNonce(key: Nonce)
      requires ring == slots[..] && 0 < |ring| == max
      requires var s := ring[key.sequence % |ring|]; s.active ==> s.sequence == key.sequence
      modifies this`ring, slots
      ensures ring == slots[..] == Recorded(old(ring), key)
    {
      var sequence := key.sequence;
      var i := sequence % max;
      if slots[i].active && slots[i].sequence != sequence {
        // Two sequences of one window never share a slot.
        assert false;
      }
      slots[i] := Slot(sequence, true, slots[i].nonces + [key]);
      ring := Recorded(ring, key);
    }

    // The end of Seen, given that it keeps the ring.
    method Record(key: Nonce)
      requires max == slots.Length && initialized && ring == slots[..] && max > 0
      requires Ring(Recorded(ring, key), seen + {key}, total + 1, true, highest, accepted + {key})
      requires var s := ring[key.sequence % |ring|]; s.active ==> s.sequence == key.sequence
      modifies this`seen, this`total, this`accepted, this`ring, slots
      ensures Ready() && accepted == old(accepted) + {key}
    {
      StoreNonce(key);
      seen, total, accepted := seen + {key}, total + 1, accepted + {key};
    }

    // The part of Seen that moves the mark.
    method MoveMark(sequence: nat)
      requires Ready() && sequence < TWO64
      modifies this, slots
      ensures Ready() && initialized && highest == Raise(old(Abstract()).highest, sequence)
      ensures max == old(max) && accepted == old(accepted)
      ensures slots == old(slots) || fresh(slots)
    {
      if !initialized {
        StartKeepsRing(ring, seen, total, accepted, sequence);
        initialized, highest := true, sequence;
      } else if sequence > highest {
        Advance(sequence);
      }
    }

    // The part of Seen that decides on a nonce in the window.
    method Admit(key: Nonce) returns (v: Verdict)
      requires Ready() && initialized && key.sequence <= highest && InWindow(key, highest, max)
      modifies this`seen, this`total, this`accepted, this`ring, slots
      ensures Ready()
      ensures v == if key in old(accepted) then Replay
                   else if |Live(old(accepted), highest, max)| >= max then Full else Accepted
      ensures accepted == if v == Accepted then old(accepted) + {key} else old(accepted)
    {
      SeenIsAccepted(ring, seen, total, highest, accepted, key);
      if key in seen { return Replay; }
      if total >= max { return Full; }
      AdmitFresh(key);
      v := Accepted;
    }

    method AdmitFresh(key: Nonce)
      requires Ready() && initialized && key.sequence <= highest && InWindow(key, highest, max)
      requires key !in seen && total < max
      modifies this`seen, this`total, this`accepted, this`ring, slots
      ensures Ready() && accepted == old(accepted) + {key}
    {
      RecordKeepsRing(ring, seen, total, highest, accepted, key);
      Record(key);
    }

    method SeenReady(key: Nonce) returns (v: Verdict)
      requires Ready() && key.sequence < TWO64
      modifies this, slots
      ensures Ready() && (Abstract(), v) == PresentKey(old(Abstract()), key)
      ensures slots == old(slots) || fresh(slots)
    {
      ghost var o := Abstract();
      var stale := IsStale(key.sequence);
      if stale {
        PresentStale(o, key);
        return Replay;
      }
      v := SeenInWindow(key);
    }

    // The check of the window, before anything changes.
    method IsStale(sequence: nat) returns (stale: bool)
      requires Ready() && sequence < TWO64
      ensures stale <==> sequence + Abstract().window <= Raise(Abstract().highest, sequence)
    {
      assert highest < TWO64;
      var window := Window(max);
      stale := initialized && sequence <= highest && Sub64(highest, sequence) >= window;
    }

    method SeenInWindow(key: Nonce) returns (v: Verdict)
      requires Ready() && key.sequence < TWO64
      requires InWindow(key, Raise(Abstract().highest, key.sequence), Abstract().window)
      modifies this, slots
      ensures Ready() && (Abstract(), v) == PresentKey(old(Abstract()), key)
      ensures slots == old(slots) || fresh(slots)
    {
      ghost var o := Abstract();
      MoveMark(key.sequence);
      v := Admit(key);
      PresentAdmits(o, key, highest, accepted, v);
    }

    // Seen: the guard's answer and its new state are the oracle's.
    method Seen(nonce: Text) returns (v: Verdict)
      requires Valid()
      modifies this, slots
      ensures Valid() && (Abstract(), v) == Present(old(Abstract()), nonce)
      ensures slots == old(slots) || fresh(slots)
    {
      if |nonce| != NONCE_SIZE { return Malformed; }
      KeyBound(nonce);
      EnsureReady();
      v := SeenReady(KeyOf(nonce));
    }
  }

  ghost function NonceSet(nonces: seq<Nonce>): set<Nonce> {
    set n | n in nonces
  }

  lemma NoOverflow(start: nat, step: nat)
    requires start < TWO63 && step < TWO63
    ensures Add64(start, step) == start + step
  {
  }

  lemma SlotAgrees(slots: seq<Slot>, seen: set<Nonce>, h: nat, i: nat)
    requires 0 < |slots| && i < |slots| && AllFit(slots, h) && Agrees(slots, seen)
    ensures SlotFits(slots[i], i, |slots|, h) && NonceSet(slots[i].nonces) <= seen
  {
  }

  lemma LiveBound(accepted: set<Nonce>, h: nat, delta: nat, w: nat)
    ensures Live(accepted, h + delta, w) <= Live(accepted, h, w)
    ensures |Live(accepted, h + delta, w)| <= |Live(accepted, h, w)|
  {
    SubsetSize(Live(accepted, h + delta, w), Live(accepted, h, w));
  }

  lemma EmptySeenFits(slots: seq<Slot>, seen: set<Nonce>, h: nat)
    requires |slots| > 0 && AllFit(slots, 0) && Agrees(slots, seen) && seen == {}
    ensures AllFit(slots, h)
  {
    forall i | 0 <= i < |slots| ensures SlotFits(slots[i], i, |slots|, h) {
      assert SlotFits(slots[i], i, |slots|, 0);
      NonEmptyHolds(slots[i].nonces);
    }
  }
}
