// Go strings as byte sequences, with the ASCII part of strings.ToLower and
// strings.TrimSpace.
module Text {

  type byte = x: int | 0 <= x < 256 witness 0

  type Text = seq<byte>

  predicate IsSpace(b: byte) {
    b == 32 || 9 <= b <= 13
  }

  function LowerByte(b: byte): byte {
    if 65 <= b <= 90 then b + 32 else b
  }

  function Lower(t: Text): (r: Text)
    ensures |r| == |t|
    ensures forall i :: 0 <= i < |t| ==> r[i] == LowerByte(t[i])
  {
    seq(|t|, i requires 0 <= i < |t| => LowerByte(t[i]))
  }

  function TrimLeft(t: Text): (r: Text)
    ensures r == [] || !IsSpace(r[0])
    ensures |r| <= |t|
  {
    if t != [] && IsSpace(t[0]) then TrimLeft(t[1..]) else t
  }

  function TrimRight(t: Text): (r: Text)
    ensures r == [] || !IsSpace(r[|r| - 1])
    ensures |r| <= |t| && (r != [] ==> r[0] == t[0])
  {
    if t != [] && IsSpace(t[|t| - 1]) then TrimRight(t[..|t| - 1]) else t
  }

  function Trim(t: Text): (r: Text)
    ensures Trimmed(r)
    ensures Trimmed(t) ==> r == t
  {
    TrimRight(TrimLeft(t))
  }

  // No white space at either end.
  predicate Trimmed(t: Text) {
    t == [] || (!IsSpace(t[0]) && !IsSpace(t[|t| - 1]))
  }

  lemma TrimTrimmed(t: Text)
    requires Trimmed(t)
    ensures Trim(t) == t
  {
  }

  predicate Blank(t: Text) {
    Trim(t) == []
  }

  lemma LowerIdempotent(t: Text)
    ensures Lower(Lower(t)) == Lower(t)
  {
  }

  lemma LowerKeepsTrimmed(t: Text)
    requires Trimmed(t)
    ensures Trimmed(Lower(t))
  {
  }

  predicate Spaces(t: Text) {
    forall i :: 0 <= i < |t| ==> t[i] == 32 || 9 <= t[i] <= 13
  }

  lemma {:induction false} TrimLeftOf(before: Text, t: Text)
    requires Spaces(before) && (t == [] || !IsSpace(t[0]))
    ensures TrimLeft(before + t) == t
  {
    if before == [] {
      assert before + t == t;
    } else {
      TrimLeftOf(before[1..], t);
      assert (before + t)[1..] == before[1..] + t;
    }
  }

  lemma {:induction false} TrimRightOf(t: Text, after: Text)
    requires Spaces(after) && (t == [] || !IsSpace(t[|t| - 1]))
    ensures TrimRight(t + after) == t
    decreases |after|
  {
    if after == [] {
      assert t + after == t;
    } else {
      TrimRightOf(t, after[..|after| - 1]);
      assert (t + after)[..|t + after| - 1] == t + after[..|after| - 1];
    }
  }

  // Trimming takes away the white space at both ends and nothing else.
  lemma TrimOf(before: Text, t: Text, after: Text)
    requires Spaces(before) && Spaces(after) && Trimmed(t)
    ensures Trim(before + t + after) == t
  {
    if t == [] {
      TrimLeftOf(before + after, []);
      assert before + t + after == before + after + [];
    } else {
      TrimLeftOf(before, t + after);
      assert before + t + after == before + (t + after);
      TrimRightOf(t, after);
    }
  }
}
