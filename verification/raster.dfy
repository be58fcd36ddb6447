/** Vocabulary shared by the pixel-grid transforms: rectangular grids of
    integer samples, RGB triples, clamping, sums and the clip band that the
    edge and binary steps leave at the image frame. */
module Raster {

  /** Largest value of an unsigned 8-bit sample. */
  const MaxSample: int := 255

  /** Width of the frame band the Laplace and binary transforms never write. */
  const PixelClip: int := 2

  datatype Rgb = Rgb(red: int, green: int, blue: int)

  /** The fill colour of a freshly created image. */
  const Black: Rgb := Rgb(0, 0, 0)

  /** A gray RGB pixel: all three channels carry the same value. */
  function Gray(v: int): Rgb {
    Rgb(v, v, v)
  }

  predicate InByteRange(v: int) {
    0 <= v <= MaxSample
  }

  predicate IsByteRgb(c: Rgb) {
    InByteRange(c.red) && InByteRange(c.green) && InByteRange(c.blue)
  }

  /** `g` has `h` rows of `w` samples each; the sample at column x, row y is g[y][x]. */
  predicate IsGrid<T>(g: seq<seq<T>>, w: int, h: int) {
    0 <= w && |g| == h && forall y :: 0 <= y < |g| ==> |g[y]| == w
  }

  /** (x, y) lies at least PixelClip pixels away from every edge of a w x h image. */
  predicate InCore(x: int, y: int, w: int, h: int) {
    PixelClip <= x < w - PixelClip && PixelClip <= y < h - PixelClip
  }

  /** A w x h grid with every cell equal to v, as a freshly filled image. */
  function Filled<T>(w: nat, h: nat, v: T): (g: seq<seq<T>>)
    ensures IsGrid(g, w, h)
    ensures forall y, x :: 0 <= y < h && 0 <= x < w ==> g[y][x] == v
  {
    seq(h, _ => seq(w, _ => v))
  }

  /** Running sum and count of the neighbour samples added so far. */
  datatype Tally = Tally(sum: int, count: int) {
    function Add(sample: int): Tally {
      Tally(sum + sample, count + 1)
    }
  }

  function Min(a: int, b: int): int {
    if a <= b then a else b
  }

  function Max(a: int, b: int): int {
    if a >= b then a else b
  }

  /** `Math.min(hi, Math.max(lo, v))`. */
  function Clamp(v: int, lo: int, hi: int): (r: int)
    requires lo <= hi
    ensures lo <= r <= hi
    ensures lo <= v <= hi ==> r == v
    ensures v < lo ==> r == lo
    ensures hi < v ==> r == hi
  {
    Min(hi, Max(lo, v))
  }

  function Sum(s: seq<int>): int {
    if s == [] then 0 else s[0] + Sum(s[1..])
  }

  /** The sum over all cells of a grid. */
  function GridSum(g: seq<seq<int>>): int {
    if g == [] then 0 else Sum(g[0]) + GridSum(g[1..])
  }

  lemma {:induction false} SumAppend(a: seq<int>, b: seq<int>)
    ensures Sum(a + b) == Sum(a) + Sum(b)
  {
    if a == [] {
      assert a + b == b;
    } else {
      assert (a + b)[1..] == a[1..] + b;
      SumAppend(a[1..], b);
    }
  }

  /** Adding d to one element adds d to the sum. */
  lemma {:induction false} SumUpdate(s: seq<int>, i: int, d: int)
    requires 0 <= i < |s|
    ensures Sum(s[i := s[i] + d]) == Sum(s) + d
  {
    if i > 0 {
      assert s[i := s[i] + d][1..] == s[1..][i - 1 := s[i] + d];
      SumUpdate(s[1..], i - 1, d);
    }
  }

  /** Replacing one row changes the grid sum by the change of that row's sum. */
  lemma {:induction false} GridSumUpdate(g: seq<seq<int>>, a: int, row: seq<int>)
    requires 0 <= a < |g|
    ensures GridSum(g[a := row]) == GridSum(g) - Sum(g[a]) + Sum(row)
  {
    if a > 0 {
      assert g[a := row][1..] == g[1..][a - 1 := row];
      GridSumUpdate(g[1..], a - 1, row);
    }
  }

  /** A sequence of n copies of v sums to n * v. */
  lemma {:induction false} SumConstant(s: seq<int>, v: int)
    requires forall i :: 0 <= i < |s| ==> s[i] == v
    ensures Sum(s) == |s| * v
  {
    if s != [] {
      SumConstant(s[1..], v);
    }
  }
}
