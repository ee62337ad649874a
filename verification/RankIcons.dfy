// The icon tool: splitting a sheet into runs of occupied columns and storing
// pixels premultiplied (client-patch/tools/build_combat_rank_icons.py).
module RankIcons {
  import opened Arithmetic
  import opened Text

  const MIN_RUN := 24

  datatype Pixel = Pixel(red: byte, green: byte, blue: byte, alpha: byte)

  // ---- Runs of occupied columns ----

  datatype Run = Run(left: nat, right: nat)

  predicate AllOccupied(occupied: seq<bool>, r: Run) {
    r.left < r.right <= |occupied| && forall i :: r.left <= i < r.right ==> occupied[i]
  }

  // Occupied throughout, and not beyond either end.
  predicate MaximalRun(occupied: seq<bool>, r: Run) {
    && AllOccupied(occupied, r)
    && (r.left == 0 || !occupied[r.left - 1])
    && (r.right == |occupied| || !occupied[r.right])
  }

  predicate WideRun(occupied: seq<bool>, r: Run) {
    MaximalRun(occupied, r) && r.right - r.left > 24
  }

  predicate LeftToRight(runs: seq<Run>) {
    forall i, j :: 0 <= i < j < |runs| ==> runs[i].right < runs[j].left
  }

  // The wide runs that end before column x have been found.
  ghost predicate FoundBefore(occupied: seq<bool>, runs: seq<Run>, x: nat) {
    && LeftToRight(runs)
    && forall r :: r in runs <==> WideRun(occupied, r) && r.right < x
  }

  // The columns just before x that belong to one run still open there.
  predicate OpenRun(occupied: seq<bool>, start: int, x: nat) {
    && x <= |occupied| && start <= x
    && (start < 0 ==> x == 0 || !occupied[x - 1])
    && (start >= 0 ==> AllOccupied(occupied, Run(start, x)) && (start == 0 || !occupied[start - 1]))
  }

  lemma OccupiedInside(occupied: seq<bool>, r: Run, i: int)
    requires AllOccupied(occupied, r)
    ensures r.left <= i < r.right ==> occupied[i]
  {
  }

  lemma RunsAreApart(occupied: seq<bool>, a: Run, b: Run)
    requires MaximalRun(occupied, a) && MaximalRun(occupied, b) && a.right < b.right
    ensures a.right < b.left
  {
    OccupiedInside(occupied, b, a.right);
  }

  lemma RunsEndingTogether(occupied: seq<bool>, a: Run, b: Run)
    requires MaximalRun(occupied, a) && MaximalRun(occupied, b) && a.right == b.right
    ensures a == b
  {
    OccupiedInside(occupied, a, b.left - 1);
    OccupiedInside(occupied, b, a.left - 1);
  }

  // A run is complete exactly at the first free column behind it.
  lemma CloseRun(occupied: seq<bool>, runs: seq<Run>, start: int, x: nat)
    requires FoundBefore(occupied, runs, x) && OpenRun(occupied, start, x)
    requires x == |occupied| || !occupied[x]
    ensures var run := if start >= 0 && x - start > MIN_RUN then [Run(start, x)] else [];
            FoundBefore(occupied, runs + run, x + 1)
  {
    var run := if start >= 0 && x - start > MIN_RUN then [Run(start, x)] else [];
    forall r ensures r in runs + run <==> WideRun(occupied, r) && r.right < x + 1 {
      if WideRun(occupied, r) && r.right == x {
        assert occupied[x - 1];
        RunsEndingTogether(occupied, r, Run(start, x));
      }
    }
    if run != [] {
      forall i | 0 <= i < |runs| ensures runs[i].right < start {
        assert runs[i] in runs;
        RunsAreApart(occupied, runs[i], run[0]);
      }
    }
  }

  lemma NoRunEnds(occupied: seq<bool>, runs: seq<Run>, x: nat)
    requires FoundBefore(occupied, runs, x) && x < |occupied| && occupied[x]
    ensures FoundBefore(occupied, runs, x + 1)
  {
  }

  // The runs found are exactly the maximal runs of more than 24 occupied
  // columns, from left to right.
  method AlphaXRuns(occupied: seq<bool>) returns (runs: seq<Run>)
    ensures forall r :: r in runs <==> WideRun(occupied, r)
    ensures LeftToRight(runs)
  {
    runs := [];
    var start: int := -1;
    for x := 0 to |occupied| + 1
      invariant FoundBefore(occupied, runs, x)
      invariant x <= |occupied| ==> OpenRun(occupied, start, x)
    {
      var value := x < |occupied| && occupied[x];
      if value {
        NoRunEnds(occupied, runs, x);
        if start < 0 { start := x; }
      } else {
        CloseRun(occupied, runs, start, x);
        if start >= 0 {
          if x - start > 24 { runs := runs + [Run(start, x)]; }
          start := -1;
        }
        assert runs + [] == runs;
      }
    }
  }

  // ---- Premultiplied pixels ----

  function Scaled(c: byte, a: byte): (v: byte)
    ensures v <= a
  {
    var product: int := c as int * a as int;
    ScaleBound(c, a);
    (product + 127) / 255
  }

  lemma ScaleBound(c: nat, a: nat)
    requires c <= 255
    ensures 0 <= (c * a + 127) / 255 <= a
  {
    MulMonotone(c, 255, a);
  }

  function BGRA(p: Pixel): (t: Text)
    ensures |t| == 4
  {
    [Scaled(p.blue, p.alpha), Scaled(p.green, p.alpha), Scaled(p.red, p.alpha), p.alpha]
  }

  // Blue, green and red, each scaled by alpha, and alpha.
  predicate ShowsPixel(t: Text, p: Pixel) {
    && |t| == 4 && t[3] == p.alpha
    && t[0] == (p.blue * p.alpha + 127) / 255 && t[1] == (p.green * p.alpha + 127) / 255
    && t[2] == (p.red * p.alpha + 127) / 255
  }

  // Every colour channel of every pixel is at most the pixel's alpha.
  predicate Premultiplied(t: Text) {
    |t| % 4 == 0 && forall k :: 0 <= k < |t| ==> WithinAlpha(t, k)
  }

  predicate WithinAlpha(t: Text, k: nat)
    requires |t| % 4 == 0 && k < |t|
  {
    AlphaWithin(k, |t|);
    t[k] <= t[AlphaOf(k)]
  }

  // The index of the alpha byte of the pixel that index k lies in.
  function AlphaOf(k: nat): (j: nat)
    ensures k <= j <= k + 3 && j % 4 == 3
  {
    k / 4 * 4 + 3
  }

  lemma AlphaWithin(k: nat, n: nat)
    requires n % 4 == 0 && k < n
    ensures AlphaOf(k) < n
  {
  }

  lemma PixelAlphaIndex(i: nat, c: nat)
    requires i % 4 == 0 && c < 4
    ensures AlphaOf(i + c) == i + 3
  {
    SameQuotient(i + c, i / 4, c, 4);
  }

  method PremultipliedBGRA(pixels: seq<Pixel>) returns (output: Text)
    ensures |output| == 4 * |pixels| && Premultiplied(output)
    ensures forall i :: 0 <= i < |pixels| ==> ShowsPixel(output[4 * i..4 * i + 4], pixels[i])
  {
    output := [];
    for i := 0 to |pixels|
      invariant |output| == 4 * i && Premultiplied(output)
      invariant forall j :: 0 <= j < i ==> output[4 * j..4 * j + 4] == BGRA(pixels[j])
    {
      AppendPixel(output, BGRA(pixels[i]));
      output := output + BGRA(pixels[i]);
    }
  }

  lemma AppendPixel(t: Text, pixel: Text)
    requires Premultiplied(t) && |pixel| == 4
    requires pixel[0] <= pixel[3] && pixel[1] <= pixel[3] && pixel[2] <= pixel[3]
    ensures Premultiplied(t + pixel)
  {
    var s := t + pixel;
    forall k | 0 <= k < |s| ensures WithinAlpha(s, k) {
      if k < |t| {
        AlphaWithin(k, |t|);
        assert WithinAlpha(t, k) && s[k] == t[k] && s[AlphaOf(k)] == t[AlphaOf(k)];
      } else {
        PixelAlphaIndex(|t|, k - |t|);
        assert s[k] == pixel[k - |t|] && s[|t| + 3] == pixel[3];
      }
    }
  }

  // Scaling rounds to the nearest: the error is at most half a unit.
  lemma ScaledIsNearest(c: byte, a: byte)
    ensures -254 <= 2 * (255 * Scaled(c, a) as int - c as int * a as int) <= 254
  {
  }
}
