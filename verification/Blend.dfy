// Blending a premultiplied icon onto a premultiplied overlay, in place
// (client-patch/90CN.cpp, BlendPremultipliedPixels).
module Blend {
  import opened Arithmetic
  import opened Text
  import RankIcons

  // The sizes a call is given, in pixels.
  datatype Area = Area(destinationWidth: int, destinationHeight: int, destinationX: int, destinationY: int,
                       sourceWidth: int, sourceHeight: int, copyWidth: int, copyHeight: int)

  // What the guard at the top lets through: a rectangle inside both images.
  predicate Inside(g: Area) {
    && g.destinationWidth > 0 && g.destinationHeight > 0 && g.sourceWidth > 0 && g.sourceHeight > 0
    && g.copyWidth > 0 && g.copyHeight > 0 && g.destinationX >= 0 && g.destinationY >= 0
    && g.destinationX + g.copyWidth <= g.destinationWidth && g.destinationY + g.copyHeight <= g.destinationHeight
    && g.copyWidth <= g.sourceWidth && g.copyHeight <= g.sourceHeight
  }

  predicate Sized(g: Area, destination: nat, source: nat) {
    Inside(g) ==> && destination == 4 * (g.destinationWidth * g.destinationHeight)
                  && source == 4 * (g.sourceWidth * g.sourceHeight)
  }

  // How a source channel, a destination channel and the source's alpha combine.
  type Mixer = (byte, byte, byte) -> byte

  // ---- One channel ----

  // A destination channel under a source of this alpha, before the clamp.
  function Covered(s: byte, d: byte, alpha: byte): int {
    var product: int := d as int * (255 - alpha as int);
    s + (product + 127) / 255
  }

  function Mix(s: byte, d: byte, alpha: byte): byte {
    var value := Covered(s, d, alpha);
    RankIcons.ScaleBound(d, 255 - alpha);
    if value > 255 then 255 else value
  }

  lemma QuotientMonotone(a: nat, b: nat, w: nat)
    requires w > 0 && a <= b
    ensures a / w <= b / w
  {
    var q := b / w - a / w;
    assert b - a == w * q + (b % w - a % w);
    MultipleBound(w, q);
  }

  // A premultiplied source never reaches the clamp, so the channel is the
  // exact sum, and the nearest integer to the exact blend.
  lemma ClampUnreached(s: byte, d: byte, alpha: byte)
    requires s <= alpha
    ensures Mix(s, d, alpha) as int == Covered(s, d, alpha) <= 255
    ensures -254 <= 2 * (255 * Mix(s, d, alpha) as int - (255 * s as int + d as int * (255 - alpha as int))) <= 254
  {
    RankIcons.ScaleBound(d, 255 - alpha);
  }

  // A colour channel stays within its pixel's alpha.
  lemma MixKeepsPremultiplied(s: byte, d: byte, sourceAlpha: byte, alpha: byte)
    requires s <= sourceAlpha && d <= alpha
    ensures Mix(s, d, sourceAlpha) <= Mix(sourceAlpha, alpha, sourceAlpha)
  {
    var inverse: nat := 255 - sourceAlpha as int;
    MulMonotone(d, alpha, inverse);
    QuotientMonotone(d as int * inverse + 127, alpha as int * inverse + 127, 255);
  }

  // An opaque destination stays opaque; an opaque source replaces, an empty
  // one changes nothing.
  lemma MixExtremes(s: byte, d: byte, alpha: byte)
    ensures Mix(alpha, 255, alpha) == 255
    ensures Mix(s, d, 255) == s && Mix(0, d, 0) == d
  {
    SameQuotient(255 * (255 - alpha as int) + 127, 255 - alpha as int, 127, 255);
    SameQuotient(d as int * 255 + 127, d, 127, 255);
  }

  // Colour stays within alpha.
  ghost predicate KeepsPremultiplied(mix: Mixer) {
    forall s, d, sourceAlpha, alpha :: Keeps(mix, s, d, sourceAlpha, alpha)
  }

  predicate Keeps(mix: Mixer, s: byte, d: byte, sourceAlpha: byte, alpha: byte) {
    s <= sourceAlpha && d <= alpha ==> mix(s, d, sourceAlpha) <= mix(sourceAlpha, alpha, sourceAlpha)
  }

  lemma MixKeeps()
    ensures KeepsPremultiplied(Mix)
  {
    forall s, d, sourceAlpha, alpha ensures Keeps(Mix, s, d, sourceAlpha, alpha) {
      if s <= sourceAlpha && d <= alpha { MixKeepsPremultiplied(s, d, sourceAlpha, alpha); }
    }
  }

  // ---- Rows of pixels ----

  function BlendedRow(mix: Mixer, destination: Text, at: nat, source: Text, from: nat, width: nat): (r: Text)
    requires at + 4 * width <= |destination| && from + 4 * width <= |source|
    requires at % 4 == 0 && from % 4 == 0
    ensures |r| == |destination|
  {
    seq(|destination|, k requires 0 <= k < |destination| =>
      if at <= k < at + 4 * width
      then
        RankIcons.AlphaWithin(k - at, 4 * width);
        mix(source[from + (k - at)], destination[k], source[from + RankIcons.AlphaOf(k - at)])
      else destination[k])
  }

  // A byte of a blended row: channel c of its pixel x, or any other byte.
  lemma RowByte(mix: Mixer, destination: Text, at: nat, source: Text, from: nat, width: nat, x: int, c: nat, k: nat)
    requires at + 4 * width <= |destination| && from + 4 * width <= |source| && at % 4 == 0 && from % 4 == 0
    requires k < |destination| && c < 4
    requires at <= k < at + 4 * width ==> k == at + 4 * x + c && 0 <= x < width
    ensures BlendedRow(mix, destination, at, source, from, width)[k] ==
            if at <= k < at + 4 * width
            then mix(source[from + 4 * x + c], destination[k], source[from + 4 * x + 3])
            else destination[k]
  {
  }

  lemma OnePixelMore(mix: Mixer, destination: Text, at: nat, source: Text, from: nat, x: nat, partly: Text)
    requires at + 4 * x + 4 <= |destination| && from + 4 * x + 4 <= |source| && at % 4 == 0 && from % 4 == 0
    requires partly == BlendedRow(mix, destination, at, source, from, x)
    ensures BlendedRow(mix, partly, at + 4 * x, source, from + 4 * x, 1) ==
            BlendedRow(mix, destination, at, source, from, x + 1)
  {
  }

  lemma NoPixels(mix: Mixer, destination: Text, at: nat, source: Text, from: nat)
    requires at <= |destination| && from <= |source| && at % 4 == 0 && from % 4 == 0
    ensures BlendedRow(mix, destination, at, source, from, 0) == destination
  {
  }

  lemma RowKeepsPremultiplied(mix: Mixer, destination: Text, at: nat, source: Text, from: nat, width: nat)
    requires at + 4 * width <= |destination| && from + 4 * width <= |source| && at % 4 == 0 && from % 4 == 0
    requires KeepsPremultiplied(mix) && RankIcons.Premultiplied(destination) && RankIcons.Premultiplied(source)
    ensures RankIcons.Premultiplied(BlendedRow(mix, destination, at, source, from, width))
  {
    var r := BlendedRow(mix, destination, at, source, from, width);
    forall k | 0 <= k < |r| ensures RankIcons.WithinAlpha(r, k) {
      assert RankIcons.WithinAlpha(destination, k);
      if at <= k < at + 4 * width { InsideKeepsPremultiplied(mix, destination, at, source, from, width, k); }
    }
  }

  // Byte k is channel c of pixel p of the row at `at`.
  lemma PixelOf(k: nat, at: nat, from: nat, p: nat, c: nat)
    requires at <= k && at % 4 == 0 && from % 4 == 0 && p == (k - at) / 4 && c == (k - at) % 4
    ensures k == at + 4 * p + c && RankIcons.AlphaOf(k) == at + 4 * p + 3
    ensures RankIcons.AlphaOf(from + 4 * p + c) == from + 4 * p + 3
  {
    SameQuotient(k, at / 4 + p, c, 4);
    SameQuotient(from + 4 * p + c, from / 4 + p, c, 4);
  }

  lemma InsideKeepsPremultiplied(mix: Mixer, destination: Text, at: nat, source: Text, from: nat, width: nat, k: nat)
    requires at + 4 * width <= |destination| && from + 4 * width <= |source| && at % 4 == 0 && from % 4 == 0
    requires KeepsPremultiplied(mix) && RankIcons.Premultiplied(destination) && RankIcons.Premultiplied(source)
    requires at <= k < at + 4 * width
    ensures var r := BlendedRow(mix, destination, at, source, from, width);
            RankIcons.AlphaOf(k) < |r| && r[k] <= r[RankIcons.AlphaOf(k)]
  {
    var p, c := (k - at) / 4, (k - at) % 4;
    PixelOf(k, at, from, p, c);
    RowByte(mix, destination, at, source, from, width, p, c, k);
    RowByte(mix, destination, at, source, from, width, p, 3, at + 4 * p + 3);
    assert RankIcons.WithinAlpha(destination, k);
    assert RankIcons.WithinAlpha(source, from + 4 * p + c);
    assert Keeps(mix, source[from + 4 * p + c], destination[k], source[from + 4 * p + 3], destination[at + 4 * p + 3]);
  }

  // ---- The rectangle ----

  function PixelAt(width: int, x: int, y: int): int {
    (y * width + x) * 4
  }

  function DestinationRow(g: Area, y: int): int {
    PixelAt(g.destinationWidth, g.destinationX, g.destinationY + y)
  }

  function SourceRow(g: Area, y: int): int {
    PixelAt(g.sourceWidth, 0, y)
  }

  // A row of an image stays within the image.
  lemma RowWithin(width: int, height: int, x: int, y: int, n: int)
    requires 0 <= x && 0 <= n && x + n <= width && 0 <= y < height
    ensures 0 <= PixelAt(width, x, y) && PixelAt(width, x, y) + 4 * n <= 4 * (width * height)
    ensures PixelAt(width, x, y) % 4 == 0
  {
    MulMonotone(y + 1, height, width);
    assert (y + 1) * width == y * width + width;
  }

  lemma RowsWithin(g: Area, y: int)
    requires Inside(g) && 0 <= y < g.copyHeight
    ensures 0 <= DestinationRow(g, y) && 0 <= SourceRow(g, y)
    ensures DestinationRow(g, y) + 4 * g.copyWidth <= 4 * (g.destinationWidth * g.destinationHeight)
    ensures SourceRow(g, y) + 4 * g.copyWidth <= 4 * (g.sourceWidth * g.sourceHeight)
    ensures DestinationRow(g, y) % 4 == 0 && SourceRow(g, y) % 4 == 0
  {
    RowWithin(g.destinationWidth, g.destinationHeight, g.destinationX, g.destinationY + y, g.copyWidth);
    RowWithin(g.sourceWidth, g.sourceHeight, 0, y, g.copyWidth);
  }

  function WithRow(mix: Mixer, destination: Text, source: Text, g: Area, row: nat): (r: Text)
    requires Inside(g) && Sized(g, |destination|, |source|) && row < g.copyHeight
    ensures |r| == |destination|
  {
    RowsWithin(g, row);
    BlendedRow(mix, destination, DestinationRow(g, row), source, SourceRow(g, row), g.copyWidth)
  }

  // The destination after the first rows of the rectangle.
  function BlendedRows(mix: Mixer, destination: Text, source: Text, g: Area, rows: nat): (r: Text)
    requires Inside(g) && Sized(g, |destination|, |source|) && rows <= g.copyHeight
    ensures |r| == |destination|
  {
    if rows == 0 then destination
    else WithRow(mix, BlendedRows(mix, destination, source, g, rows - 1), source, g, rows - 1)
  }

  // The bytes of a rectangle's row are exactly those of its pixels.
  lemma InRow(width: int, x: int, y: int, left: int, row: int, n: int, c: int)
    requires 0 <= x < width && 0 <= left && 0 <= n && left + n <= width && 0 <= c < 4
    ensures PixelAt(width, left, row) <= PixelAt(width, x, y) + c < PixelAt(width, left, row) + 4 * n <==>
            y == row && left <= x < left + n
  {
    assert y * width - row * width == width * (y - row);
    MultipleBound(width, y - row);
  }

  predicate InRectangle(g: Area, x: int, y: int, rows: nat) {
    && g.destinationX <= x < g.destinationX + g.copyWidth
    && g.destinationY <= y < g.destinationY + rows
  }

  lemma AlongRow(width: int, x: int, y: int)
    ensures PixelAt(width, x, y) == PixelAt(width, 0, y) + 4 * x
  {
  }

  // What one row of the rectangle does to a pixel.
  lemma RowPixel(mix: Mixer, destination: Text, source: Text, g: Area, row: nat, x: int, y: int, c: int)
    requires Inside(g) && Sized(g, |destination|, |source|) && row < g.copyHeight
    requires 0 <= x < g.destinationWidth && 0 <= y < g.destinationHeight && 0 <= c < 4
    ensures 0 <= DestinationRow(g, row) <= |destination| - 4 * g.copyWidth && DestinationRow(g, row) % 4 == 0
    ensures 0 <= SourceRow(g, row) <= |source| - 4 * g.copyWidth && SourceRow(g, row) % 4 == 0
    ensures 0 <= PixelAt(g.destinationWidth, x, y) <= |destination| - 4
    ensures g.destinationX <= x < g.destinationX + g.copyWidth ==>
              0 <= PixelAt(g.sourceWidth, x - g.destinationX, row) <= |source| - 4
    ensures var k := PixelAt(g.destinationWidth, x, y);
            var i := PixelAt(g.sourceWidth, x - g.destinationX, row);
            BlendedRow(mix, destination, DestinationRow(g, row), source, SourceRow(g, row), g.copyWidth)[k + c] ==
            if y == g.destinationY + row && g.destinationX <= x < g.destinationX + g.copyWidth
            then mix(source[i + c], destination[k + c], source[i + 3])
            else destination[k + c]
  {
    RowsWithin(g, row);
    RowWithin(g.destinationWidth, g.destinationHeight, x, y, 1);
    AlongRow(g.sourceWidth, x - g.destinationX, row);
    InRow(g.destinationWidth, x, y, g.destinationX, g.destinationY + row, g.copyWidth, c);
    RowByte(mix, destination, DestinationRow(g, row), source, SourceRow(g, row), g.copyWidth, x - g.destinationX, c,
            PixelAt(g.destinationWidth, x, y) + c);
  }

  lemma PixelsWithin(g: Area, x: int, y: int, rows: nat)
    requires Inside(g) && rows <= g.copyHeight && 0 <= x < g.destinationWidth && 0 <= y < g.destinationHeight
    ensures 0 <= PixelAt(g.destinationWidth, x, y) <= 4 * (g.destinationWidth * g.destinationHeight) - 4
    ensures InRectangle(g, x, y, rows) ==>
              0 <= PixelAt(g.sourceWidth, x - g.destinationX, y - g.destinationY)
                <= 4 * (g.sourceWidth * g.sourceHeight) - 4
  {
    RowWithin(g.destinationWidth, g.destinationHeight, x, y, 1);
    if InRectangle(g, x, y, rows) {
      RowWithin(g.sourceWidth, g.sourceHeight, x - g.destinationX, y - g.destinationY, 1);
    }
  }

  // Main result: channel c of every pixel of the destination. Inside the
  // rectangle it is the source pixel over it, outside nothing changed.
  lemma {:induction false} BlendedPixel(mix: Mixer, destination: Text, source: Text, g: Area, rows: nat, x: int,
                                        y: int, c: int)
    requires Inside(g) && Sized(g, |destination|, |source|) && rows <= g.copyHeight
    requires 0 <= x < g.destinationWidth && 0 <= y < g.destinationHeight && 0 <= c < 4
    ensures 0 <= PixelAt(g.destinationWidth, x, y) <= |destination| - 4
    ensures InRectangle(g, x, y, rows) ==>
              0 <= PixelAt(g.sourceWidth, x - g.destinationX, y - g.destinationY) <= |source| - 4
    ensures var k := PixelAt(g.destinationWidth, x, y);
            BlendedRows(mix, destination, source, g, rows)[k + c] ==
            if InRectangle(g, x, y, rows)
            then var i := PixelAt(g.sourceWidth, x - g.destinationX, y - g.destinationY);
                 mix(source[i + c], destination[k + c], source[i + 3])
            else destination[k + c]
    decreases rows
  {
    PixelsWithin(g, x, y, rows);
    if rows > 0 {
      BlendedPixel(mix, destination, source, g, rows - 1, x, y, c);
      NextRowPixel(mix, destination, BlendedRows(mix, destination, source, g, rows - 1), source, g, rows - 1, x, y, c);
    }
  }

  // The byte of a pixel once the first rows are done.
  function PixelByte(mix: Mixer, destination: Text, source: Text, g: Area, rows: nat, x: int, y: int, c: int): byte
    requires Inside(g) && Sized(g, |destination|, |source|) && rows <= g.copyHeight
    requires 0 <= x < g.destinationWidth && 0 <= y < g.destinationHeight && 0 <= c < 4
  {
    PixelsWithin(g, x, y, rows);
    var k := PixelAt(g.destinationWidth, x, y);
    if InRectangle(g, x, y, rows) then
      var i := PixelAt(g.sourceWidth, x - g.destinationX, y - g.destinationY);
      mix(source[i + c], destination[k + c], source[i + 3])
    else destination[k + c]
  }

  lemma NextRowPixel(mix: Mixer, destination: Text, before: Text, source: Text, g: Area, row: nat, x: int, y: int,
                     c: int)
    requires Inside(g) && Sized(g, |destination|, |source|) && |before| == |destination| && row < g.copyHeight
    requires 0 <= x < g.destinationWidth && 0 <= y < g.destinationHeight && 0 <= c < 4
    requires 0 <= PixelAt(g.destinationWidth, x, y) <= |destination| - 4
    requires before[PixelAt(g.destinationWidth, x, y) + c] == PixelByte(mix, destination, source, g, row, x, y, c)
    ensures WithRow(mix, before, source, g, row)[PixelAt(g.destinationWidth, x, y) + c] ==
            PixelByte(mix, destination, source, g, row + 1, x, y, c)
  {
    RowPixel(mix, before, source, g, row, x, y, c);
  }

  lemma NextRowKeeps(mix: Mixer, destination: Text, source: Text, g: Area, row: nat)
    requires Inside(g) && Sized(g, |destination|, |source|) && row < g.copyHeight
    requires KeepsPremultiplied(mix) && RankIcons.Premultiplied(destination) && RankIcons.Premultiplied(source)
    ensures RankIcons.Premultiplied(WithRow(mix, destination, source, g, row))
  {
    RowsWithin(g, row);
    RowKeepsPremultiplied(mix, destination, DestinationRow(g, row), source, SourceRow(g, row), g.copyWidth);
  }

  // ... and a premultiplied destination stays premultiplied.
  lemma {:induction false} BlendKeepsPremultiplied(mix: Mixer, destination: Text, source: Text, g: Area, rows: nat)
    requires Inside(g) && Sized(g, |destination|, |source|) && rows <= g.copyHeight
    requires KeepsPremultiplied(mix) && RankIcons.Premultiplied(destination) && RankIcons.Premultiplied(source)
    ensures RankIcons.Premultiplied(BlendedRows(mix, destination, source, g, rows))
    decreases rows
  {
    if rows > 0 {
      BlendKeepsPremultiplied(mix, destination, source, g, rows - 1);
      NextRowKeeps(mix, BlendedRows(mix, destination, source, g, rows - 1), source, g, rows - 1);
    }
  }

  predicate Opaque(t: Text) {
    forall k :: 0 <= k < |t| && k % 4 == 3 ==> t[k] == 255
  }

  ghost predicate KeepsOpaque(mix: Mixer) {
    forall alpha :: mix(alpha, 255, alpha) == 255
  }

  lemma MixKeepsOpaque()
    ensures KeepsOpaque(Mix)
  {
    forall alpha ensures Mix(alpha, 255, alpha) == 255 { MixExtremes(alpha, 255, alpha); }
  }

  // ... and an opaque one opaque.
  lemma {:induction false} BlendKeepsOpaque(mix: Mixer, destination: Text, source: Text, g: Area, rows: nat)
    requires Inside(g) && Sized(g, |destination|, |source|) && rows <= g.copyHeight
    requires KeepsOpaque(mix) && Opaque(destination)
    ensures Opaque(BlendedRows(mix, destination, source, g, rows))
    decreases rows
  {
    if rows > 0 {
      BlendKeepsOpaque(mix, destination, source, g, rows - 1);
      RowsWithin(g, rows - 1);
      RowKeepsOpaque(mix, BlendedRows(mix, destination, source, g, rows - 1), DestinationRow(g, rows - 1), source,
                     SourceRow(g, rows - 1), g.copyWidth);
    }
  }

  lemma RowKeepsOpaque(mix: Mixer, destination: Text, at: nat, source: Text, from: nat, width: nat)
    requires at + 4 * width <= |destination| && from + 4 * width <= |source| && at % 4 == 0 && from % 4 == 0
    requires KeepsOpaque(mix) && Opaque(destination)
    ensures Opaque(BlendedRow(mix, destination, at, source, from, width))
  {
    var r := BlendedRow(mix, destination, at, source, from, width);
    forall k | 0 <= k < |r| && k % 4 == 3 ensures r[k] == 255 {
      if at <= k < at + 4 * width {
        assert RankIcons.AlphaOf(k - at) == k - at;
        assert mix(source[from + (k - at)], 255, source[from + (k - at)]) == 255;
      }
    }
  }

  // ---- The program ----

  // The first channels of the pixel at an offset done.
  function Channels(mix: Mixer, destination: Text, at: nat, source: Text, from: nat, channels: nat): (r: Text)
    requires at + 4 <= |destination| && from + 4 <= |source| && channels <= 4
    ensures |r| == |destination|
  {
    seq(|destination|, k requires 0 <= k < |destination| =>
      if at <= k < at + channels then mix(source[from + (k - at)], destination[k], source[from + 3])
      else destination[k])
  }

  lemma AllChannels(mix: Mixer, destination: Text, at: nat, source: Text, from: nat)
    requires at + 4 <= |destination| && from + 4 <= |source| && at % 4 == 0 && from % 4 == 0
    ensures Channels(mix, destination, at, source, from, 0) == destination
    ensures Channels(mix, destination, at, source, from, 4) == BlendedRow(mix, destination, at, source, from, 1)
  {
  }

  lemma NextChannel(mix: Mixer, destination: Text, at: nat, source: Text, from: nat, c: nat)
    requires at + 4 <= |destination| && from + 4 <= |source| && c < 4
    ensures Channels(mix, destination, at, source, from, c + 1) ==
            Channels(mix, destination, at, source, from, c)[at + c :=
              mix(source[from + c], destination[at + c], source[from + 3])]
    ensures Channels(mix, destination, at, source, from, c)[at + c] == destination[at + c]
  {
  }

  method BlendPixel(mix: Mixer, destination: array<byte>, at: nat, source: Text, from: nat)
    requires at + 4 <= destination.Length && from + 4 <= |source| && at % 4 == 0 && from % 4 == 0
    modifies destination
    ensures destination[..] == BlendedRow(mix, old(destination[..]), at, source, from, 1)
  {
    ghost var before := destination[..];
    AllChannels(mix, before, at, source, from);
    var sourceAlpha := source[from + 3];
    for channel := 0 to 3
      invariant destination[..] == Channels(mix, before, at, source, from, channel)
    {
      NextChannel(mix, before, at, source, from, channel);
      assert destination[at + channel] == destination[..][at + channel];
      destination[at + channel] := mix(source[from + channel], destination[at + channel], sourceAlpha);
    }
    NextChannel(mix, before, at, source, from, 3);
    assert destination[at + 3] == destination[..][at + 3];
    destination[at + 3] := mix(sourceAlpha, destination[at + 3], sourceAlpha);
  }

  lemma Aligned(at: nat, x: nat)
    requires at % 4 == 0
    ensures (at + 4 * x) % 4 == 0
  {
    SameQuotient(at + 4 * x, at / 4 + x, 0, 4);
  }

  // One turn of the column loop.
  method BlendNextPixel(mix: Mixer, destination: array<byte>, at: nat, source: Text, from: nat, x: nat,
                        ghost before: Text)
    requires |before| == destination.Length
    requires at + 4 * x + 4 <= |before| && from + 4 * x + 4 <= |source| && at % 4 == 0 && from % 4 == 0
    requires destination[..] == BlendedRow(mix, before, at, source, from, x)
    modifies destination
    ensures destination[..] == BlendedRow(mix, before, at, source, from, x + 1)
  {
    OnePixelMore(mix, before, at, source, from, x, destination[..]);
    Aligned(at, x);
    Aligned(from, x);
    BlendPixel(mix, destination, at + 4 * x, source, from + 4 * x);
  }

  method BlendOneRow(mix: Mixer, destination: array<byte>, at: nat, source: Text, from: nat, width: nat)
    requires at + 4 * width <= destination.Length && from + 4 * width <= |source| && at % 4 == 0 && from % 4 == 0
    modifies destination
    ensures destination[..] == BlendedRow(mix, old(destination[..]), at, source, from, width)
  {
    ghost var before := destination[..];
    NoPixels(mix, before, at, source, from);
    for x := 0 to width
      invariant destination[..] == BlendedRow(mix, before, at, source, from, x)
    {
      BlendNextPixel(mix, destination, at, source, from, x, before);
    }
  }

  // The destination's new contents, whatever the sizes.
  function Blended(destination: Text, source: Text, g: Area): Text
    requires Sized(g, |destination|, |source|)
  {
    if Inside(g) then BlendedRows(Mix, destination, source, g, g.copyHeight) else destination
  }

  // Main result: an icon stored by the tool leaves the overlay premultiplied,
  // and opaque where it was, ...
  lemma BlendedStaysValid(destination: Text, source: Text, g: Area)
    requires Sized(g, |destination|, |source|) && RankIcons.Premultiplied(source)
    ensures RankIcons.Premultiplied(destination) ==> RankIcons.Premultiplied(Blended(destination, source, g))
    ensures Opaque(destination) ==> Opaque(Blended(destination, source, g))
  {
    if Inside(g) {
      MixKeeps();
      MixKeepsOpaque();
      if RankIcons.Premultiplied(destination) { BlendKeepsPremultiplied(Mix, destination, source, g, g.copyHeight); }
      if Opaque(destination) { BlendKeepsOpaque(Mix, destination, source, g, g.copyHeight); }
    }
  }

  // ... and inside the rectangle every byte is the sum itself: no clamp cut it.
  lemma BlendedIsExact(destination: Text, source: Text, g: Area, x: int, y: int, c: int)
    requires Inside(g) && Sized(g, |destination|, |source|) && RankIcons.Premultiplied(source)
    requires 0 <= x < g.copyWidth && 0 <= y < g.copyHeight && 0 <= c < 4
    ensures var k := PixelAt(g.destinationWidth, g.destinationX + x, g.destinationY + y);
            var i := PixelAt(g.sourceWidth, x, y);
            0 <= k <= |destination| - 4 && 0 <= i <= |source| - 4 &&
            Blended(destination, source, g)[k + c] as int == Covered(source[i + c], destination[k + c], source[i + 3])
  {
    BlendedPixel(Mix, destination, source, g, g.copyHeight, g.destinationX + x, g.destinationY + y, c);
    var k := PixelAt(g.destinationWidth, g.destinationX + x, g.destinationY + y);
    var i := PixelAt(g.sourceWidth, x, y);
    RowWithin(g.sourceWidth, g.sourceHeight, x, y, 1);
    ExactMix(source, i, c, destination[k + c]);
  }

  lemma ExactMix(source: Text, i: nat, c: nat, d: byte)
    requires RankIcons.Premultiplied(source) && i % 4 == 0 && c < 4 && i + 4 <= |source|
    ensures Mix(source[i + c], d, source[i + 3]) as int == Covered(source[i + c], d, source[i + 3])
  {
    RankIcons.PixelAlphaIndex(i, c);
    assert RankIcons.WithinAlpha(source, i + c);
    ClampUnreached(source[i + c], d, source[i + 3]);
  }

  // One turn of the row loop.
  method BlendRowAt(destination: array<byte>, source: Text, g: Area, y: nat, ghost before: Text)
    requires Inside(g) && Sized(g, |before|, |source|) && y < g.copyHeight
    requires destination[..] == BlendedRows(Mix, before, source, g, y)
    modifies destination
    ensures destination[..] == BlendedRows(Mix, before, source, g, y + 1)
  {
    RowsWithin(g, y);
    BlendOneRow(Mix, destination, DestinationRow(g, y), source, SourceRow(g, y), g.copyWidth);
  }

  method BlendPremultipliedPixels(destination: array<byte>, source: Text, g: Area)
    requires Sized(g, destination.Length, |source|)
    modifies destination
    ensures destination[..] == Blended(old(destination[..]), source, g)
    ensures !Inside(g) ==> destination[..] == old(destination[..])
  {
    if g.destinationWidth <= 0 || g.destinationHeight <= 0 || g.sourceWidth <= 0 || g.sourceHeight <= 0 ||
       g.copyWidth <= 0 || g.copyHeight <= 0 || g.destinationX < 0 || g.destinationY < 0 ||
       g.destinationX + g.copyWidth > g.destinationWidth || g.destinationY + g.copyHeight > g.destinationHeight ||
       g.copyWidth > g.sourceWidth || g.copyHeight > g.sourceHeight
    {
      return;
    }
    for y := 0 to g.copyHeight
      invariant destination[..] == BlendedRows(Mix, old(destination[..]), source, g, y)
    {
      BlendRowAt(destination, source, g, y, old(destination[..]));
    }
  }

  // ---- What the guard and a channel are ----

  // The rectangle has a pixel, and every pixel of it lies in both images.
  lemma InsideIff(g: Area)
    ensures Inside(g) <==>
              && g.copyWidth > 0 && g.copyHeight > 0
              && forall x: int, y: int :: OnRectangle(g, x, y) ==> OnBoth(g, x, y)
  {
    if g.copyWidth > 0 && g.copyHeight > 0 {
      assert OnRectangle(g, 0, 0) && OnRectangle(g, g.copyWidth - 1, g.copyHeight - 1);
      if forall x: int, y: int :: OnRectangle(g, x, y) ==> OnBoth(g, x, y) {
        assert OnBoth(g, 0, 0) && OnBoth(g, g.copyWidth - 1, g.copyHeight - 1);
      }
    }
  }

  predicate OnRectangle(g: Area, x: int, y: int) {
    0 <= x < g.copyWidth && 0 <= y < g.copyHeight
  }

  predicate OnBoth(g: Area, x: int, y: int) {
    && x < g.sourceWidth && y < g.sourceHeight
    && 0 <= g.destinationX + x < g.destinationWidth && 0 <= g.destinationY + y < g.destinationHeight
  }

  // Under any source: the source channel and the nearest to what shines through
  // of the destination, but 255 at most.
  lemma MixIs(s: byte, d: byte, alpha: byte) returns (through: int)
    ensures -127 <= 255 * through - d as int * (255 - alpha as int) <= 127
    ensures Mix(s, d, alpha) as int == if s as int + through > 255 then 255 else s as int + through
  {
    through := (d as int * (255 - alpha as int) + 127) / 255;
    RankIcons.ScaleBound(d, 255 - alpha);
  }
}
