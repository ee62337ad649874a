// A counted list of rows in a byte string, each row with a key no other has.
module KeyedRows {
  import opened Sequences
  import opened Text
  import opened Wrappers

  // How one row is read, what its bytes are, which rows are legal and what a
  // row's key is.
  datatype Format<!R> = Format(read: (Text, nat) -> Option<(R, nat)>, bytes: R -> Text, legal: R -> bool,
                               key: R -> byte)

  // Between two offsets a row is read exactly where its bytes stand.
  ghost predicate ReadsAt<R(!new)>(f: Format<R>, body: Text, at: nat, row: R, end: nat) {
    f.read(body, at) == Some((row, end)) <==>
      at <= end <= |body| && f.legal(row) && body[at..end] == f.bytes(row)
  }

  ghost predicate Lawful<R(!new)>(f: Format<R>) {
    forall body, at, row, end :: ReadsAt(f, body, at, row, end)
  }

  function RowsBytes<R>(f: Format<R>, rows: seq<R>): Text {
    if rows == [] then [] else f.bytes(rows[0]) + RowsBytes(f, rows[1..])
  }

  // Every row is legal and its key is neither in seen nor an earlier row's.
  predicate FreshRows<R>(f: Format<R>, rows: seq<R>, seen: set<byte>) {
    rows == [] || (f.legal(rows[0]) && f.key(rows[0]) !in seen
                   && FreshRows(f, rows[1..], seen + {f.key(rows[0])}))
  }

  function RowsAt<R>(f: Format<R>, body: Text, at: nat, count: nat, seen: set<byte>): (r: Option<(seq<R>, nat)>)
    ensures r.Some? ==> |r.value.0| == count
    decreases count
  {
    if count == 0 then Some(([], at))
    else match f.read(body, at)
      case None => None
      case Some((row, next)) =>
        if f.key(row) in seen then None
        else match RowsAt(f, body, next, count - 1, seen + {f.key(row)})
          case None => None
          case Some((rows, end)) => Some(([row] + rows, end))
  }

  lemma {:induction false} RowsSound<R(!new)>(f: Format<R>, body: Text, at: nat, count: nat, seen: set<byte>)
    requires at <= |body| && Lawful(f) && RowsAt(f, body, at, count, seen).Some?
    ensures var (rows, end) := RowsAt(f, body, at, count, seen).value;
            at <= end <= |body| && FreshRows(f, rows, seen) && body[at..end] == RowsBytes(f, rows)
    decreases count
  {
    if count > 0 {
      var (row, next) := f.read(body, at).value;
      assert ReadsAt(f, body, at, row, next);
      RowsSound(f, body, next, count - 1, seen + {f.key(row)});
      var (rows, end) := RowsAt(f, body, next, count - 1, seen + {f.key(row)}).value;
      assert ([row] + rows)[1..] == rows;
      assert body[at..end] == body[at..next] + body[next..end];
    }
  }

  lemma Prefixes(a: Text, b: Text, s: Text, at: nat)
    requires at <= |s| && a + b <= s[at..]
    ensures at + |a| <= |s| && s[at..at + |a|] == a && b <= s[at + |a|..]
  {
    var all := s[at..][..|a + b|];
    assert s[at..at + |a|] == all[..|a|];
    assert s[at + |a|..][..|b|] == all[|a|..];
  }

  lemma {:induction false} RowsComplete<R(!new)>(f: Format<R>, body: Text, at: nat, rows: seq<R>, seen: set<byte>)
    requires at <= |body| && Lawful(f) && FreshRows(f, rows, seen) && RowsBytes(f, rows) <= body[at..]
    ensures RowsAt(f, body, at, |rows|, seen) == Some((rows, at + |RowsBytes(f, rows)|))
    decreases |rows|
  {
    if rows != [] {
      var row, more := rows[0], RowsBytes(f, rows[1..]);
      var next := at + |f.bytes(row)|;
      Prefixes(f.bytes(row), more, body, at);
      assert ReadsAt(f, body, at, row, next);
      RowsComplete(f, body, next, rows[1..], seen + {f.key(row)});
      assert rows == [row] + rows[1..];
    }
  }

  predicate DistinctKeys<R>(f: Format<R>, rows: seq<R>) {
    forall i, j :: 0 <= i < j < |rows| ==> f.key(rows[i]) != f.key(rows[j])
  }

  predicate AllLegal<R>(f: Format<R>, rows: seq<R>) {
    forall i :: 0 <= i < |rows| ==> f.legal(rows[i])
  }

  predicate NoKeyIn<R>(f: Format<R>, rows: seq<R>, seen: set<byte>) {
    forall i :: 0 <= i < |rows| ==> f.key(rows[i]) !in seen
  }

  // Fresh rows are legal rows of pairwise distinct, unseen keys.
  lemma {:induction false} FreshRowsMeans<R>(f: Format<R>, rows: seq<R>, seen: set<byte>)
    ensures FreshRows(f, rows, seen) <==> AllLegal(f, rows) && NoKeyIn(f, rows, seen) && DistinctKeys(f, rows)
    decreases |rows|
  {
    if rows != [] {
      var key := f.key(rows[0]);
      FreshRowsMeans(f, rows[1..], seen + {key});
      assert rows == [rows[0]] + rows[1..];
      assert NoKeyIn(f, rows[1..], seen + {key}) <==>
             NoKeyIn(f, rows[1..], seen) && forall i :: 0 <= i < |rows[1..]| ==> f.key(rows[1..][i]) != key;
    }
  }

  // The numbers below n.
  function Below(n: nat): (s: set<byte>)
    requires n <= 256
    ensures |s| == n && forall b: byte :: b in s <==> b < n
  {
    if n == 0 then {} else
      var last: byte := n - 1;
      Below(n - 1) + {last}
  }

  predicate KeysBelow<R>(f: Format<R>, rows: seq<R>, n: nat) {
    forall i :: 0 <= i < |rows| && f.legal(rows[i]) ==> f.key(rows[i]) < n
  }

  // Fresh rows of keys below n are at most n.
  lemma {:induction false} FreshRowsAreFew<R>(f: Format<R>, rows: seq<R>, seen: set<byte>, n: nat)
    requires n <= 256 && FreshRows(f, rows, seen) && seen <= Below(n) && KeysBelow(f, rows, n)
    ensures |rows| + |seen| <= n
    decreases |rows|
  {
    if rows == [] {
      SubsetSize(seen, Below(n));
    } else {
      assert f.key(rows[0]) in Below(n);
      FreshRowsAreFew(f, rows[1..], seen + {f.key(rows[0])}, n);
    }
  }

  // From an offset on the body holds a count byte and that many legal rows of
  // pairwise distinct keys, whatever follows them.
  predicate Carries<R>(f: Format<R>, body: Text, at: nat, rows: seq<R>) {
    && at < |body| && body[at] == |rows| && AllLegal(f, rows) && DistinctKeys(f, rows)
    && RowsBytes(f, rows) <= body[at + 1..]
  }

  // Rows are read exactly where they are carried.
  lemma CarriedIff<R(!new)>(f: Format<R>, body: Text, at: nat, rows: seq<R>)
    requires at < |body| && Lawful(f)
    ensures Carries(f, body, at, rows) <==>
              var read := RowsAt(f, body, at + 1, body[at], {});
              read.Some? && read.value.0 == rows
  {
    FreshRowsMeans(f, rows, {});
    if RowsAt(f, body, at + 1, body[at], {}).Some? {
      var (found, end) := RowsAt(f, body, at + 1, body[at], {}).value;
      RowsSound(f, body, at + 1, body[at], {});
      assert body[at + 1..][..end - at - 1] == body[at + 1..end];
    }
    if Carries(f, body, at, rows) {
      RowsComplete(f, body, at + 1, rows, {});
    }
  }

  // The rows read so far in front of those read from here on.
  ghost function Prepended<R>(rows: seq<R>, rest: Option<(seq<R>, nat)>): Option<(seq<R>, nat)> {
    match rest
    case None => None
    case Some((more, end)) => Some((rows + more, end))
  }

  // A reader that started at start and is now at cursor, behind these rows.
  ghost predicate Reading<R>(f: Format<R>, body: Text, start: nat, count: nat, rows: seq<R>, cursor: nat,
                             seen: set<byte>)
  {
    && |rows| <= count
    && RowsAt(f, body, start, count, {}) == Prepended(rows, RowsAt(f, body, cursor, count - |rows|, seen))
  }

  lemma ReadingStarts<R>(f: Format<R>, body: Text, start: nat, count: nat)
    ensures Reading(f, body, start, count, [], start, {})
  {
    var rest := RowsAt(f, body, start, count, {});
    if rest.Some? { assert [] + rest.value.0 == rest.value.0; }
  }

  lemma ReadingStep<R>(f: Format<R>, body: Text, start: nat, count: nat, rows: seq<R>, cursor: nat, seen: set<byte>)
    requires Reading(f, body, start, count, rows, cursor, seen) && |rows| < count
    ensures match f.read(body, cursor)
            case None => RowsAt(f, body, start, count, {}) == None
            case Some((row, next)) =>
              if f.key(row) in seen then RowsAt(f, body, start, count, {}) == None
              else Reading(f, body, start, count, rows + [row], next, seen + {f.key(row)})
  {
    match f.read(body, cursor)
    case None =>
    case Some((row, next)) =>
      var rest := RowsAt(f, body, next, count - |rows| - 1, seen + {f.key(row)});
      if rest.Some? { assert rows + ([row] + rest.value.0) == rows + [row] + rest.value.0; }
  }

  lemma ReadingEnds<R>(f: Format<R>, body: Text, start: nat, rows: seq<R>, cursor: nat, seen: set<byte>)
    requires Reading(f, body, start, |rows|, rows, cursor, seen)
    ensures RowsAt(f, body, start, |rows|, {}) == Some((rows, cursor))
  {
    assert rows + [] == rows;
  }
}
