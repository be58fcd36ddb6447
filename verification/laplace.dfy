/** The Laplacian edge filter: every pixel at least PixelClip away from the
    frame becomes the clamped difference between the sum of its eight
    neighbours and eight times its own value; the frame band keeps the black
    fill of the new RGB image. */
module LaplaceTransform {
  import opened Raster

  /** The sum and count of the neighbours of (x, y) that exist, read in the
      order and under the bound checks of the source. */
  function NeighbourTally(g: seq<seq<int>>, w: int, h: int, x: int, y: int): (t: Tally)
    requires IsGrid(g, w, h) && 0 <= x < w && 0 <= y < h
    ensures 0 <= t.count <= 8
    ensures 0 < x < w - 1 && 0 < y < h - 1 ==> t.count == 8
  {
    var t0 := Tally(0, 0);
    var t1 := if x > 0 then t0.Add(g[y][x - 1]) else t0;
    var t2 := if x < w - 1 then t1.Add(g[y][x + 1]) else t1;
    var t3 := if y > 0 then t2.Add(g[y - 1][x]) else t2;
    var t4 := if y > 0 && x > 0 then t3.Add(g[y - 1][x - 1]) else t3;
    var t5 := if y > 0 && x < w - 1 then t4.Add(g[y - 1][x + 1]) else t4;
    var t6 := if y < h - 1 then t5.Add(g[y + 1][x]) else t5;
    var t7 := if y < h - 1 && x > 0 then t6.Add(g[y + 1][x - 1]) else t6;
    var t8 := if y < h - 1 && x < w - 1 then t7.Add(g[y + 1][x + 1]) else t7;
    t8
  }

  /** How many of the coordinates c - 1, c, c + 1 lie in [0, n). */
  function Span(c: int, n: int): int {
    (if c > 0 then 1 else 0) + 1 + (if c < n - 1 then 1 else 0)
  }

  /** The counter is the number of in-bounds cells of the 3 x 3 block around
      (x, y) other than (x, y) itself: 3 at a corner, 5 on an edge, 8 inside. */
  lemma NeighbourCount(g: seq<seq<int>>, w: int, h: int, x: int, y: int)
    requires IsGrid(g, w, h) && 0 <= x < w && 0 <= y < h
    ensures NeighbourTally(g, w, h, x, y).count == Span(x, w) * Span(y, h) - 1
  {
  }

  /** The filter response of one pixel, clamped to a byte. */
  function Response(g: seq<seq<int>>, w: int, h: int, x: int, y: int): (v: int)
    requires IsGrid(g, w, h) && 0 <= x < w && 0 <= y < h
    ensures InByteRange(v)
  {
    var t := NeighbourTally(g, w, h, x, y);
    var pixel := g[y][x];
    var newVal := if t.count > 0 then t.sum - t.count * pixel else pixel;
    Clamp(newVal, 0, MaxSample)
  }

  /** Reference definition: the sum of the eight neighbours of an inner pixel. */
  function EightNeighbourSum(g: seq<seq<int>>, w: int, h: int, x: int, y: int): int
    requires IsGrid(g, w, h) && 0 < x < w - 1 && 0 < y < h - 1
  {
    g[y - 1][x - 1] + g[y - 1][x] + g[y - 1][x + 1]
    + g[y][x - 1] + g[y][x + 1]
    + g[y + 1][x - 1] + g[y + 1][x] + g[y + 1][x + 1]
  }

  /** Inside the clip band every bound check succeeds, so the counter is 8
      and the response is the clamped discrete Laplacian. */
  lemma CoreResponse(g: seq<seq<int>>, w: int, h: int, x: int, y: int)
    requires IsGrid(g, w, h) && InCore(x, y, w, h)
    ensures NeighbourTally(g, w, h, x, y).count == 8
    ensures Response(g, w, h, x, y) == Clamp(EightNeighbourSum(g, w, h, x, y) - 8 * g[y][x], 0, MaxSample)
  {
  }

  /** The output pixel at (x, y): a gray response inside the clip band, the black fill outside. */
  function Pixel(g: seq<seq<int>>, w: int, h: int, x: int, y: int): (p: Rgb)
    requires IsGrid(g, w, h) && 0 <= x < w && 0 <= y < h
    ensures IsByteRgb(p) && p == Gray(p.red)
    ensures !InCore(x, y, w, h) ==> p == Black
    ensures InCore(x, y, w, h) ==> p == Gray(Clamp(EightNeighbourSum(g, w, h, x, y) - 8 * g[y][x], 0, MaxSample))
  {
    if InCore(x, y, w, h) then
      CoreResponse(g, w, h, x, y);
      Gray(Response(g, w, h, x, y))
    else Black
  }

  /** The transformed image: gray bytes everywhere, the clamped Laplacian
      inside the clip band and black in the frame band. */
  function Laplace(g: seq<seq<int>>, w: int, h: int): (out: seq<seq<Rgb>>)
    requires IsGrid(g, w, h)
    ensures IsGrid(out, w, h)
    ensures forall y, x :: 0 <= y < h && 0 <= x < w ==>
      IsByteRgb(out[y][x]) && out[y][x] == Gray(out[y][x].red)
    ensures forall y, x :: 0 <= y < h && 0 <= x < w && !InCore(x, y, w, h) ==> out[y][x] == Black
    ensures forall y, x :: 0 <= y < h && 0 <= x < w && InCore(x, y, w, h) ==>
      out[y][x] == Gray(Clamp(EightNeighbourSum(g, w, h, x, y) - 8 * g[y][x], 0, MaxSample))
  {
    seq(h, y requires 0 <= y < h => seq(w, x requires 0 <= x < w => Pixel(g, w, h, x, y)))
  }

  /** The loop of `run`: visiting the clip-band interior row by row and
      writing each response into a black-filled image yields `Laplace`. */
  method Run(g: seq<seq<int>>, w: int, h: int) returns (out: seq<seq<Rgb>>)
    requires IsGrid(g, w, h)
    ensures out == Laplace(g, w, h)
  {
    out := Filled(w, h, Black);
    var y := PixelClip;
    while y < h - PixelClip
      invariant PixelClip <= y
      invariant IsGrid(out, w, h)
      invariant forall yy, xx :: 0 <= yy < h && 0 <= xx < w ==>
        out[yy][xx] == (if yy < y then Pixel(g, w, h, xx, yy) else Black)
    {
      var x := PixelClip;
      while x < w - PixelClip
        invariant PixelClip <= x
        invariant IsGrid(out, w, h)
        invariant forall yy, xx :: 0 <= yy < h && 0 <= xx < w ==>
          out[yy][xx] == (if yy < y || (yy == y && xx < x) then Pixel(g, w, h, xx, yy) else Black)
      {
        out := out[y := out[y][x := Gray(Response(g, w, h, x, y))]];
        x := x + 1;
      }
      y := y + 1;
    }
    var expected := Laplace(g, w, h);
    forall yy | 0 <= yy < h
      ensures out[yy] == expected[yy]
    {
    }
  }

  /** A constant image has no edges: the whole output is black. */
  lemma ConstantImageIsBlack(g: seq<seq<int>>, w: int, h: int, c: int)
    requires IsGrid(g, w, h)
    requires forall y, x :: 0 <= y < h && 0 <= x < w ==> g[y][x] == c
    ensures Laplace(g, w, h) == Filled(w, h, Black)
  {
    var out, black := Laplace(g, w, h), Filled(w, h, Black);
    forall y | 0 <= y < h
      ensures out[y] == black[y]
    {
    }
  }

  /** An image at most 2 * PixelClip wide or high has an empty interior: the output is all fill. */
  lemma SmallImageIsBlack(g: seq<seq<int>>, w: int, h: int)
    requires IsGrid(g, w, h)
    requires w <= 2 * PixelClip || h <= 2 * PixelClip
    ensures Laplace(g, w, h) == Filled(w, h, Black)
  {
    var out, black := Laplace(g, w, h), Filled(w, h, Black);
    forall y | 0 <= y < h
      ensures out[y] == black[y]
    {
    }
  }
}
