// The write loops of protocol/packet.go, over a writer that may accept any part
// of what it is given, or fail, at any time.
module Writers {
  import opened Sequences
  import opened Text

  lemma {:induction false} ConcatSplit(parts: seq<Text>, i: nat)
    requires i <= |parts|
    ensures Concat(parts) == Concat(parts[..i]) + Concat(parts[i..])
  {
    if i > 0 {
      ConcatSplit(parts[1..], i - 1);
      assert parts[..i][1..] == parts[1..][..i - 1] && parts[1..][i - 1..] == parts[i..];
    }
  }

  lemma ConcatNext(parts: seq<Text>, i: nat)
    requires i < |parts|
    ensures Concat(parts[i..]) == parts[i] + Concat(parts[i + 1..])
    ensures Concat(parts[..i + 1]) == Concat(parts[..i]) + parts[i]
  {
    assert parts[i..][1..] == parts[i + 1..];
    ConcatSplit(parts[..i + 1], i);
    assert parts[..i + 1][..i] == parts[..i] && parts[..i + 1][i..] == [parts[i]];
  }

  // What a write of `data` may leave behind: a prefix of it was delivered after
  // what was there before, and on success all of it.
  ghost predicate Delivers(before: Text, data: Text, after: Text, ok: bool) {
    && |before| <= |after| <= |before| + |data|
    && after == before + data[..|after| - |before|]
    && (ok ==> after == before + data)
  }

  lemma DeliversThen(a: Text, x: Text, b: Text, y: Text, c: Text, ok: bool)
    requires Delivers(a, x, b, true) && Delivers(b, y, c, ok)
    ensures Delivers(a, x + y, c, ok)
  {
  }

  lemma DeliversStop(a: Text, x: Text, b: Text, y: Text)
    requires Delivers(a, x, b, false)
    ensures Delivers(a, x + y, b, false)
  {
  }

  class Writer {
    // Everything the other side has received.
    var delivered: Text
    // Whether this is a connection that writes several buffers at once.
    const connection: bool
    // Whether every write accepts something and reports what.
    const reliable: bool
    // Whether some write has not.
    ghost var broken: bool

    constructor (connection: bool, reliable: bool)
      ensures delivered == [] && this.connection == connection && this.reliable == reliable && !broken
    {
      delivered, this.connection, this.reliable, broken := [], connection, reliable, false;
    }

    // Accepts the first n bytes; may also report an error, or nothing sensible.
    method Write(data: Text) returns (n: int, failed: bool)
      modifies this
      ensures n <= |data|
      ensures delivered == old(delivered) + data[..if n < 0 then 0 else n]
      ensures broken == (old(broken) || failed || n <= 0)
      ensures reliable && data != [] ==> !failed && n > 0
    {
      n :| n <= |data| && (reliable && data != [] ==> n > 0);
      failed := *;
      if reliable { failed := false; }
      delivered := delivered + data[..if n < 0 then 0 else n];
      broken := broken || failed || n <= 0;
    }

    // net.Buffers.WriteTo: accepts the first `taken` bytes of all the buffers,
    // and reports that number unless it fails or reports an impossible one.
    method WriteBuffers(parts: seq<Text>) returns (written: int, failed: bool, ghost taken: nat)
      modifies this
      ensures taken <= |Concat(parts)| && delivered == old(delivered) + Concat(parts)[..taken]
      ensures !failed && 0 <= written <= |Concat(parts)| ==> written == taken
      ensures broken == (old(broken) || failed || written < 0 || written > |Concat(parts)|)
      ensures reliable ==> !failed && 0 <= written <= |Concat(parts)|
    {
      var all := Concat(parts);
      var t: nat :| t <= |all|;
      taken := t;
      delivered := delivered + all[..t];
      failed := *;
      written := *;
      if reliable { failed, written := false, t; }
      if 0 <= written <= |all| { written := t; }
      broken := broken || failed || written < 0 || written > |all|;
    }
  }

  // A procedure fails exactly when a write has.
  twostate predicate Reports(w: Writer, ok: bool)
    reads w
  {
    w.broken == (old(w.broken) || !ok) && (w.reliable ==> ok)
  }

  // The first m bytes of what was left to write have been delivered.
  lemma PartWritten(before: Text, all: Text, done: Text, data: Text, m: nat)
    requires all == done + data && m <= |data|
    ensures Delivers(before, all, before + done + data[..m], false)
    ensures all == (done + data[..m]) + data[m..] && before + done + data[..m] == before + (done + data[..m])
  {
    assert all[..|done| + m] == done + data[..m];
  }

  method WriteFull(w: Writer, all: Text) returns (ok: bool)
    modifies w
    ensures Delivers(old(w.delivered), all, w.delivered, ok) && Reports(w, ok)
  {
    var data := all;
    ghost var done: Text := [];
    while |data| > 0
      invariant all == done + data && w.delivered == old(w.delivered) + done && w.broken == old(w.broken)
      decreases |data|
    {
      var n, failed := w.Write(data);
      PartWritten(old(w.delivered), all, done, data, if n < 0 then 0 else n);
      if failed { return false; }
      if n <= 0 { return false; }
      done := done + data[..n];
      data := data[n..];
    }
    ok := true;
  }

  // One part in full, after what was done since from, and with rest to follow.
  method WriteNext(w: Writer, part: Text, ghost from: Text, ghost done: Text, ghost rest: Text) returns (ok: bool)
    requires w.delivered == from + done
    modifies w
    ensures ok ==> w.delivered == from + (done + part)
    ensures !ok ==> Delivers(from, done + (part + rest), w.delivered, false)
    ensures Reports(w, ok)
  {
    ghost var before := w.delivered;
    ok := WriteFull(w, part);
    if ok {
      assert from + done + part == from + (done + part);
    } else {
      DeliversStop(before, part, w.delivered, rest);
      DeliversThen(from, done, before, part + rest, w.delivered, false);
    }
  }

  method WriteFullParts(w: Writer, parts: seq<Text>) returns (ok: bool)
    modifies w
    ensures Delivers(old(w.delivered), Concat(parts), w.delivered, ok) && Reports(w, ok)
  {
    ghost var done: Text := [];
    ok := true;
    for i := 0 to |parts|
      invariant ok && Concat(parts) == done + Concat(parts[i..])
      invariant w.delivered == old(w.delivered) + done && w.broken == old(w.broken)
    {
      ConcatNext(parts, i);
      ghost var rest := Concat(parts[i + 1..]);
      if |parts[i]| == 0 { continue; }
      ok := WriteNext(w, parts[i], old(w.delivered), done, rest);
      if !ok { return; }
      assert done + (parts[i] + rest) == (done + parts[i]) + rest;
      done := done + parts[i];
    }
  }

  // Resumes after `taken` bytes of all the parts were delivered, possibly in the
  // middle of one.
  method WriteBufRemainder(w: Writer, taken: nat, parts: seq<Text>) returns (ok: bool)
    requires taken <= |Concat(parts)|
    modifies w
    ensures Delivers(old(w.delivered), Concat(parts)[taken..], w.delivered, ok) && Reports(w, ok)
  {
    var written := taken;
    ghost var all := Concat(parts)[taken..];
    ghost var done: Text := [];
    ok := true;
    for i := 0 to |parts|
      invariant 0 <= written <= |Concat(parts[i..])| && all == done + Concat(parts[i..])[written..]
      invariant w.delivered == old(w.delivered) + done && w.broken == old(w.broken)
      invariant ok
    {
      ConcatNext(parts, i);
      var part := parts[i];
      ghost var rest := Concat(parts[i + 1..]);
      DropPart(part, rest, written);
      if |part| == 0 { continue; }
      if written >= |part| {
        written := written - |part|;
        continue;
      }
      if written > 0 {
        part := part[written..];
        written := 0;
      }
      ok := WriteNext(w, part, old(w.delivered), done, rest);
      if !ok { return; }
      NextDone(done, part, rest);
      done := done + part;
    }
  }

  lemma NextDone(done: Text, part: Text, rest: Text)
    ensures done + (part + rest) == (done + part) + rest[0..]
  {
  }

  lemma DropPart(part: Text, rest: Text, n: nat)
    requires n <= |part| + |rest|
    ensures (part + rest)[n..] == if n < |part| then part[n..] + rest else rest[n - |part|..]
    ensures part[0..] == part
  {
  }

  // writeFullBuffers: on success exactly the parts, each byte once and in order.
  method WriteFullBuffers(w: Writer, parts: seq<Text>) returns (ok: bool)
    modifies w
    ensures Delivers(old(w.delivered), Concat(parts), w.delivered, ok) && Reports(w, ok)
  {
    var total := |Concat(parts)|;
    if total == 0 { return true; }
    if !w.connection {
      ok := WriteFullParts(w, parts);
      return;
    }
    ghost var all := Concat(parts);
    var written, failed, taken := w.WriteBuffers(parts);
    if failed { return false; }
    if written == total { return true; }
    if written < 0 || written > total { return false; }
    ghost var before := w.delivered;
    ok := WriteBufRemainder(w, written, parts);
    DeliversThen(old(w.delivered), all[..taken], before, all[taken..], w.delivered, ok);
    assert all == all[..taken] + all[taken..];
  }
}
