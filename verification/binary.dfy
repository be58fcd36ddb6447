/** The fixed-threshold binarizer: every pixel at least PixelClip away from
    the frame becomes 255 when its value exceeds the threshold and 0
    otherwise; the frame band keeps the black fill of the new byte image. */
module BinaryTransform {
  import opened Raster

  /** The output byte at (x, y). */
  function Pixel(g: seq<seq<int>>, w: int, h: int, threshold: int, x: int, y: int): (p: int)
    requires IsGrid(g, w, h) && 0 <= x < w && 0 <= y < h
    ensures p == 0 || p == MaxSample
    ensures p == MaxSample <==> InCore(x, y, w, h) && g[y][x] > threshold
  {
    if InCore(x, y, w, h) then (if g[y][x] > threshold then MaxSample else 0) else 0
  }

  /** The binary image: two-level, 255 exactly at the interior pixels above
      the threshold, 0 everywhere else. */
  function Binarize(g: seq<seq<int>>, w: int, h: int, threshold: int): (out: seq<seq<int>>)
    requires IsGrid(g, w, h)
    ensures IsGrid(out, w, h)
    ensures forall y, x :: 0 <= y < h && 0 <= x < w ==> out[y][x] == 0 || out[y][x] == MaxSample
    ensures forall y, x :: 0 <= y < h && 0 <= x < w ==>
      (out[y][x] == MaxSample <==> InCore(x, y, w, h) && g[y][x] > threshold)
  {
    seq(h, y requires 0 <= y < h => seq(w, x requires 0 <= x < w => Pixel(g, w, h, threshold, x, y)))
  }

  /** The loop of `run`: visiting the clip-band interior row by row and
      writing each thresholded value into a black-filled image yields `Binarize`. */
  method Run(g: seq<seq<int>>, w: int, h: int, threshold: int) returns (out: seq<seq<int>>)
    requires IsGrid(g, w, h)
    ensures out == Binarize(g, w, h, threshold)
  {
    out := Filled(w, h, 0);
    var y := PixelClip;
    while y < h - PixelClip
      invariant PixelClip <= y
      invariant IsGrid(out, w, h)
      invariant forall yy, xx :: 0 <= yy < h && 0 <= xx < w ==>
        out[yy][xx] == (if yy < y then Pixel(g, w, h, threshold, xx, yy) else 0)
    {
      var x := PixelClip;
      while x < w - PixelClip
        invariant PixelClip <= x
        invariant IsGrid(out, w, h)
        invariant forall yy, xx :: 0 <= yy < h && 0 <= xx < w ==>
          out[yy][xx] == (if yy < y || (yy == y && xx < x) then Pixel(g, w, h, threshold, xx, yy) else 0)
      {
        var newVal := if g[y][x] > threshold then MaxSample else 0;
        out := out[y := out[y][x := newVal]];
        x := x + 1;
      }
      y := y + 1;
    }
    var expected := Binarize(g, w, h, threshold);
    forall yy | 0 <= yy < h
      ensures out[yy] == expected[yy]
    {
    }
  }

  /** Raising the threshold can only turn pixels off. */
  lemma AntitoneInThreshold(g: seq<seq<int>>, w: int, h: int, t1: int, t2: int)
    requires IsGrid(g, w, h) && t1 <= t2
    ensures forall y, x :: 0 <= y < h && 0 <= x < w ==>
      Binarize(g, w, h, t2)[y][x] <= Binarize(g, w, h, t1)[y][x]
  {
  }

  /** Binarizing a binary image again with any threshold in [0, 255) changes nothing. */
  lemma Idempotent(g: seq<seq<int>>, w: int, h: int, t: int, t': int)
    requires IsGrid(g, w, h) && 0 <= t' < MaxSample
    ensures Binarize(Binarize(g, w, h, t), w, h, t') == Binarize(g, w, h, t)
  {
    var once := Binarize(g, w, h, t);
    var twice := Binarize(once, w, h, t');
    forall y | 0 <= y < h
      ensures twice[y] == once[y]
    {
    }
  }
}
