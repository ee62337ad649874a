// The shapes of byte strings the equipment parser skips over, and how far each
// one reaches (client-patch/90CN.cpp, the Skip helpers).
module WireShapes {
  import opened Bytes
  import opened Sequences
  import opened Text
  import opened Wrappers

  const MAX_BLOCK := 1024

  // Block is a length and that many bytes; Counted a byte and that many
  // records; Indexed up to three records and, after any, a selection whose
  // index 255 has no value behind it.
  datatype Shape =
    | Fixed(size: nat)
    | Block
    | Counted(limit: nat, width: nat)
    | Indexed

  datatype Layout = End | Then(first: Shape, rest: Layout)

  // ---- What has a shape ----

  predicate IsBlock(t: Text) {
    |t| >= 4 && FromLE(t[..4]) <= 1024 && |t| == 4 + FromLE(t[..4])
  }

  predicate IsCounted(t: Text, limit: nat, width: nat) {
    |t| >= 1 && t[0] <= limit && |t| == 1 + t[0] * width
  }

  predicate IsIndexed(t: Text) {
    && |t| >= 1 && t[0] <= 3
    && if t[0] == 0 then |t| == 1
       else |t| >= 3 + 3 * t[0] && |t| == 3 + 3 * t[0] + (if t[2 + 3 * t[0]] == 255 then 0 else 4)
  }

  predicate Has(shape: Shape, t: Text) {
    match shape
    case Fixed(n) => |t| == n
    case Block => IsBlock(t)
    case Counted(limit, width) => IsCounted(t, limit, width)
    case Indexed => IsIndexed(t)
  }

  // One piece for every shape of the layout, in order.
  predicate Fits(layout: Layout, pieces: seq<Text>) {
    match layout
    case End => pieces == []
    case Then(shape, rest) => pieces != [] && Has(shape, pieces[0]) && Fits(rest, pieces[1..])
  }

  // ---- Where a shape that starts at an offset ends ----

  function BytesEnd(body: Text, at: nat, n: nat): (r: Option<nat>)
    requires at <= |body|
  {
    if n > |body| - at then None else Some(at + n)
  }

  function BlockEnd(body: Text, at: nat): (r: Option<nat>)
    requires at <= |body|
  {
    if |body| - at < 4 || FromLE(body[at..at + 4]) > MAX_BLOCK then None
    else BytesEnd(body, at + 4, FromLE(body[at..at + 4]))
  }

  function CountedEnd(body: Text, at: nat, limit: nat, width: nat): (r: Option<nat>)
    requires at <= |body|
  {
    if at == |body| || body[at] > limit then None
    else
      var count: int := body[at];
      BytesEnd(body, at + 1, count * width)
  }

  function SelectionEnd(body: Text, at: nat): (r: Option<nat>)
    requires at <= |body|
  {
    if |body| - at < 2 then None
    else if body[at + 1] == 255 then Some(at + 2)
    else BytesEnd(body, at + 2, 4)
  }

  function IndexedEnd(body: Text, at: nat): (r: Option<nat>)
    requires at <= |body|
  {
    var records := CountedEnd(body, at, 3, 3);
    if records.None? || body[at] == 0 then records else SelectionEnd(body, records.value)
  }

  function ShapeEnd(shape: Shape, body: Text, at: nat): (r: Option<nat>)
    requires at <= |body|
    ensures r.Some? ==> at <= r.value <= |body|
  {
    match shape
    case Fixed(n) => BytesEnd(body, at, n)
    case Block => BlockEnd(body, at)
    case Counted(limit, width) => CountedEnd(body, at, limit, width)
    case Indexed => IndexedEnd(body, at)
  }

  function LayoutEnd(layout: Layout, body: Text, at: nat): (r: Option<nat>)
    requires at <= |body|
    ensures r.Some? ==> at <= r.value <= |body|
  {
    match layout
    case End => Some(at)
    case Then(shape, rest) =>
      match ShapeEnd(shape, body, at)
      case None => None
      case Some(next) => LayoutEnd(rest, body, next)
  }

  // The pieces a layout cuts a body into.
  function Pieces(layout: Layout, body: Text, at: nat): (pieces: seq<Text>)
    requires at <= |body| && LayoutEnd(layout, body, at).Some?
  {
    match layout
    case End => []
    case Then(shape, rest) =>
      var next := ShapeEnd(shape, body, at).value;
      [body[at..next]] + Pieces(rest, body, next)
  }

  // ---- It ends exactly where the shape is complete ----

  lemma TakeBlockIff(body: Text, at: nat, end: nat)
    requires at <= |body|
    ensures BlockEnd(body, at) == Some(end) <==> at <= end <= |body| && IsBlock(body[at..end])
  {
    if at <= end <= |body| && |body[at..end]| >= 4 {
      assert body[at..end][..4] == body[at..at + 4];
    }
  }

  lemma TakeIndexedIff(body: Text, at: nat, end: nat)
    requires at <= |body|
    ensures IndexedEnd(body, at) == Some(end) <==> at <= end <= |body| && IsIndexed(body[at..end])
  {
    if at < end <= |body| {
      var t := body[at..end];
      assert t[0] == body[at];
      var records := 1 + 3 * t[0] as int;
      if t[0] != 0 && |t| >= records + 2 {
        assert t[records + 1] == body[at + records + 1];
      }
    }
  }

  lemma ShapeEndIff(shape: Shape, body: Text, at: nat, end: nat)
    requires at <= |body|
    ensures ShapeEnd(shape, body, at) == Some(end) <==> at <= end <= |body| && Has(shape, body[at..end])
  {
    TakeBlockIff(body, at, end);
    TakeIndexedIff(body, at, end);
    if at < end <= |body| { assert body[at..end][0] == body[at]; }
  }

  // Reading a layout cuts out pieces that fit it.
  lemma {:induction false} PiecesFit(layout: Layout, body: Text, at: nat)
    requires at <= |body| && LayoutEnd(layout, body, at).Some?
    ensures Fits(layout, Pieces(layout, body, at))
    ensures Concat(Pieces(layout, body, at)) == body[at..LayoutEnd(layout, body, at).value]
  {
    if layout.Then? {
      var next := ShapeEnd(layout.first, body, at).value;
      ShapeEndIff(layout.first, body, at, next);
      PiecesFit(layout.rest, body, next);
      var more := Pieces(layout.rest, body, next);
      assert ([body[at..next]] + more)[1..] == more;
    }
  }

  // Pieces that fit, wherever they stand, are what is read there.
  lemma {:induction false} FittingPiecesRead(layout: Layout, pieces: seq<Text>, body: Text, at: nat)
    requires at <= |body| && Fits(layout, pieces) && Concat(pieces) <= body[at..]
    ensures LayoutEnd(layout, body, at) == Some(at + |Concat(pieces)|) && Pieces(layout, body, at) == pieces
  {
    if layout.Then? {
      var first, more := pieces[0], Concat(pieces[1..]);
      var next := at + |first|;
      assert body[at..][..|first| + |more|] == first + more;
      assert body[at..next] == body[at..][..|first| + |more|][..|first|] == first;
      ShapeEndIff(layout.first, body, at, next);
      assert body[next..][..|more|] == body[at..][..|first| + |more|][|first|..] == more;
      FittingPiecesRead(layout.rest, pieces[1..], body, next);
      assert pieces == [first] + pieces[1..];
    }
  }
}
