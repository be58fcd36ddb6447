/** Bayer demosaicing: every site of a single-channel mosaic records one
    colour, chosen by the parities of its coordinates; the two missing
    colours are integer means of the in-bounds neighbours that carry them. */
module BayerProcessor {
  import opened Raster
  import opened Results

  /** A Java `byte`: the mosaic keeps its unsigned 8-bit samples in signed bytes. */
  type JavaByte = b: int | -128 <= b < 128

  datatype PixelType = GreenA | GreenB | Red | Blue

  /** The `ArithmeticException` of an integer division by a zero neighbour count. */
  datatype BayerError = DivisionByZero

  datatype Mosaic = Mosaic(pixels: seq<JavaByte>, width: nat, height: nat)

  /** The pixel array holds exactly one byte per site, row by row. */
  predicate Valid(m: Mosaic) {
    |m.pixels| == m.width * m.height
  }

  predicate InImage(m: Mosaic, x: int, y: int) {
    0 <= x < m.width && 0 <= y < m.height
  }

  /** `rawValue & 0xff`: the unsigned reading of a signed byte. */
  function Unsigned(b: JavaByte): (v: int)
    ensures InByteRange(v)
    ensures (v - b) % 256 == 0
  {
    if b < 0 then b + 256 else b
  }

  lemma IndexInImage(m: Mosaic, x: int, y: int)
    requires InImage(m, x, y)
    ensures 0 <= y * m.width + x < m.width * m.height
  {
    assert y * m.width <= (m.height - 1) * m.width;
  }

  /** `getUnsignedValue`: the sample at column x, row y. */
  function UnsignedAt(m: Mosaic, x: int, y: int): (v: int)
    requires Valid(m) && InImage(m, x, y)
    ensures InByteRange(v)
  {
    IndexInImage(m, x, y);
    Unsigned(m.pixels[y * m.width + x])
  }

  /** The site (x, y) = (index % width, index / width) of a linear index. */
  function SiteOf(m: Mosaic, index: int): (site: (int, int))
    requires Valid(m) && 0 <= index < |m.pixels|
    ensures InImage(m, site.0, site.1)
    ensures site.1 * m.width + site.0 == index
  {
    assert m.width != 0;
    var x, y := index % m.width, index / m.width;
    assert y < m.height by {
      assert y * m.width + x == index;
      assert (m.height - y) * m.width == m.width * m.height - y * m.width;
      assert (m.height - y) * m.width > 0;
    }
    (x, y)
  }

  /** The sample read at the site of an index is the byte stored at that index. */
  lemma SampleAtSite(m: Mosaic, index: int)
    requires Valid(m) && 0 <= index < |m.pixels|
    ensures UnsignedAt(m, SiteOf(m, index).0, SiteOf(m, index).1) == Unsigned(m.pixels[index])
  {
  }

  /** `getPixelType`: even rows alternate GreenA, Blue; odd rows alternate Red, GreenB. */
  function PixelTypeOf(x: int, y: int): (p: PixelType)
    ensures p == GreenA || p == GreenB <==> x % 2 == y % 2
    ensures p == Red || p == GreenB <==> y % 2 == 1
  {
    if y % 2 == 0 then
      if x % 2 == 0 then GreenA else Blue
    else
      if x % 2 == 0 then Red else GreenB
  }

  /** The site type depends on the coordinates only through their parities,
      and every 2 x 2 tile anchored at even coordinates holds all four types. */
  lemma PixelTypeByParity(x: int, y: int)
    requires 0 <= x && 0 <= y
    ensures PixelTypeOf(x, y) == PixelTypeOf(x % 2, y % 2)
    ensures PixelTypeOf(x, y) == GreenA <==> x % 2 == 0 && y % 2 == 0
    ensures PixelTypeOf(x, y) == Blue <==> x % 2 == 1 && y % 2 == 0
    ensures PixelTypeOf(x, y) == Red <==> x % 2 == 0 && y % 2 == 1
    ensures PixelTypeOf(x, y) == GreenB <==> x % 2 == 1 && y % 2 == 1
    ensures x % 2 == 0 && y % 2 == 0 ==>
      {PixelTypeOf(x, y), PixelTypeOf(x + 1, y), PixelTypeOf(x, y + 1), PixelTypeOf(x + 1, y + 1)}
        == {GreenA, Blue, Red, GreenB}
  {
  }

  /** `Math.min(value / counter, MAX_VALUE)`, or the division by zero when no neighbour was counted. */
  function MeanOf(t: Tally): (r: Result<int, BayerError>)
    requires 0 <= t.sum && 0 <= t.count
    ensures r.Failure? <==> t.count == 0
    ensures r.Success? ==> InByteRange(r.value)
  {
    if t.count == 0 then Failure(DivisionByZero) else Success(Min(t.sum / t.count, MaxSample))
  }

  /** `getMeanValueHorizontal`: the left and right neighbours that exist. */
  function MeanHorizontal(m: Mosaic, x: int, y: int): (r: Result<int, BayerError>)
    requires Valid(m) && InImage(m, x, y)
    ensures r.Failure? <==> m.width < 2
    ensures r.Success? ==> InByteRange(r.value)
  {
    var t0 := Tally(0, 0);
    var t1 := if x > 0 then t0.Add(UnsignedAt(m, x - 1, y)) else t0;
    var t2 := if x < m.width - 1 then t1.Add(UnsignedAt(m, x + 1, y)) else t1;
    MeanOf(t2)
  }

  /** `getMeanValueVertical`: the upper and lower neighbours that exist. */
  function MeanVertical(m: Mosaic, x: int, y: int): (r: Result<int, BayerError>)
    requires Valid(m) && InImage(m, x, y)
    ensures r.Failure? <==> m.height < 2
    ensures r.Success? ==> InByteRange(r.value)
  {
    var t0 := Tally(0, 0);
    var t1 := if y > 0 then t0.Add(UnsignedAt(m, x, y - 1)) else t0;
    var t2 := if y < m.height - 1 then t1.Add(UnsignedAt(m, x, y + 1)) else t1;
    MeanOf(t2)
  }

  /** The sum and count of the (up to four) diagonal neighbours that exist,
      read in the order and under the bound checks of `getMeanValueDiagonal`. */
  function DiagonalTally(m: Mosaic, x: int, y: int): (t: Tally)
    requires Valid(m) && InImage(m, x, y)
    ensures 0 <= t.sum && 0 <= t.count
    ensures t.count == 0 <==> m.width < 2 || m.height < 2
  {
    var t0 := Tally(0, 0);
    var t1 := if y > 0 && x > 0 then t0.Add(UnsignedAt(m, x - 1, y - 1)) else t0;
    var t2 := if y > 0 && x < m.width - 1 then t1.Add(UnsignedAt(m, x + 1, y - 1)) else t1;
    var t3 := if y < m.height - 1 && x > 0 then t2.Add(UnsignedAt(m, x - 1, y + 1)) else t2;
    var t4 := if y < m.height - 1 && x < m.width - 1 then t3.Add(UnsignedAt(m, x + 1, y + 1)) else t3;
    assert t4.count == 0 <==> m.width < 2 || m.height < 2 by {
      var up, down := if y > 0 then 1 else 0, if y < m.height - 1 then 1 else 0;
      var left, right := if x > 0 then 1 else 0, if x < m.width - 1 then 1 else 0;
      assert t4.count == (up + down) * (left + right);
      assert up + down == 0 <==> m.height < 2;
      assert left + right == 0 <==> m.width < 2;
    }
    t4
  }

  /** `getMeanValueDiagonal`: the mean of the diagonal neighbours that exist. */
  function MeanDiagonal(m: Mosaic, x: int, y: int): (r: Result<int, BayerError>)
    requires Valid(m) && InImage(m, x, y)
    ensures r.Failure? <==> m.width < 2 || m.height < 2
    ensures r.Success? ==> InByteRange(r.value)
  {
    MeanOf(DiagonalTally(m, x, y))
  }

  const HorizontalOffsets: seq<(int, int)> := [(-1, 0), (1, 0)]
  const VerticalOffsets: seq<(int, int)> := [(0, -1), (0, 1)]
  const DiagonalOffsets: seq<(int, int)> := [(-1, -1), (1, -1), (-1, 1), (1, 1)]

  /** The samples at those sites (x + dx, y + dy) that lie inside the image, in offset order. */
  function Neighbours(m: Mosaic, x: int, y: int, offsets: seq<(int, int)>): seq<int>
    requires Valid(m)
  {
    if offsets == [] then []
    else
      var nx, ny := x + offsets[0].0, y + offsets[0].1;
      (if InImage(m, nx, ny) then [UnsignedAt(m, nx, ny)] else []) + Neighbours(m, x, y, offsets[1..])
  }

  /** Reference definition of a neighbour mean over an offset set: the
      integer mean of the in-bounds samples, failing when there are none. */
  function NeighbourMean(m: Mosaic, x: int, y: int, offsets: seq<(int, int)>): Result<int, BayerError>
    requires Valid(m)
  {
    var s := Neighbours(m, x, y, offsets);
    if |s| == 0 then Failure(DivisionByZero) else Success(Min(Sum(s) / |s|, MaxSample))
  }

  /** Every site the offsets reach from (x, y) has one of the given types. */
  predicate OffsetsLandOn(x: int, y: int, offsets: seq<(int, int)>, types: set<PixelType>) {
    forall o :: o in offsets ==> PixelTypeOf(x + o.0, y + o.1) in types
  }

  /** Every offset a mean reads lands on a site of the colour that mean fills
      in `Interpolated`: around a GreenA site the horizontal neighbours are
      blue and the vertical ones red, around a GreenB site the reverse;
      around a red or blue site the diagonal neighbours carry the opposite
      colour and the horizontal and vertical ones are green. */
  lemma NeighbourSitesCarryMissingColour(x: int, y: int)
    ensures PixelTypeOf(x, y) == GreenA ==>
      OffsetsLandOn(x, y, HorizontalOffsets, {Blue}) && OffsetsLandOn(x, y, VerticalOffsets, {Red})
    ensures PixelTypeOf(x, y) == GreenB ==>
      OffsetsLandOn(x, y, HorizontalOffsets, {Red}) && OffsetsLandOn(x, y, VerticalOffsets, {Blue})
    ensures PixelTypeOf(x, y) == Red ==>
      && OffsetsLandOn(x, y, DiagonalOffsets, {Blue})
      && OffsetsLandOn(x, y, HorizontalOffsets, {GreenA, GreenB}) && OffsetsLandOn(x, y, VerticalOffsets, {GreenA, GreenB})
    ensures PixelTypeOf(x, y) == Blue ==>
      && OffsetsLandOn(x, y, DiagonalOffsets, {Red})
      && OffsetsLandOn(x, y, HorizontalOffsets, {GreenA, GreenB}) && OffsetsLandOn(x, y, VerticalOffsets, {GreenA, GreenB})
  {
    // one step in either direction flips the parity of that coordinate
    assert (x - 1) % 2 == 1 - x % 2 && (x + 1) % 2 == 1 - x % 2;
    assert (y - 1) % 2 == 1 - y % 2 && (y + 1) % 2 == 1 - y % 2;
    var horizontal := {PixelTypeOf(x - 1, y), PixelTypeOf(x + 1, y)};
    var vertical := {PixelTypeOf(x, y - 1), PixelTypeOf(x, y + 1)};
    var diagonal := {PixelTypeOf(x - 1, y - 1), PixelTypeOf(x + 1, y - 1), PixelTypeOf(x - 1, y + 1), PixelTypeOf(x + 1, y + 1)};
    match PixelTypeOf(x, y)
    case GreenA =>
      assert horizontal == {Blue} && vertical == {Red};
    case GreenB =>
      assert horizontal == {Red} && vertical == {Blue};
    case Red =>
      assert horizontal == {GreenB} && vertical == {GreenA} && diagonal == {Blue};
    case Blue =>
      assert horizontal == {GreenA} && vertical == {GreenB} && diagonal == {Red};
  }

  /** The border-aware horizontal mean is the parametrised mean over the left and right offsets. */
  lemma MeanHorizontalIsNeighbourMean(m: Mosaic, x: int, y: int)
    requires Valid(m) && InImage(m, x, y)
    ensures MeanHorizontal(m, x, y) == NeighbourMean(m, x, y, HorizontalOffsets)
  {
    NeighboursOfPair(m, x, y, -1, 0, 1, 0);
  }

  /** The border-aware vertical mean is the parametrised mean over the upper and lower offsets. */
  lemma MeanVerticalIsNeighbourMean(m: Mosaic, x: int, y: int)
    requires Valid(m) && InImage(m, x, y)
    ensures MeanVertical(m, x, y) == NeighbourMean(m, x, y, VerticalOffsets)
  {
    NeighboursOfPair(m, x, y, 0, -1, 0, 1);
  }

  /** The border-aware diagonal mean is the parametrised mean over the four diagonal offsets. */
  lemma MeanDiagonalIsNeighbourMean(m: Mosaic, x: int, y: int)
    requires Valid(m) && InImage(m, x, y)
    ensures MeanDiagonal(m, x, y) == NeighbourMean(m, x, y, DiagonalOffsets)
  {
    var d := DiagonalOffsets;
    assert d[..2] == [(-1, -1), (1, -1)];
    assert d[2..] == [(-1, 1), (1, 1)];
    var above, below := Neighbours(m, x, y, d[..2]), Neighbours(m, x, y, d[2..]);
    NeighboursOfPair(m, x, y, -1, -1, 1, -1);
    NeighboursOfPair(m, x, y, -1, 1, 1, 1);
    NeighboursSplit(m, x, y, d, 2);
    SumAppend(above, below);
    var t := DiagonalTally(m, x, y);
    assert t.sum == Sum(above) + Sum(below) && t.count == |above| + |below|;
    assert Neighbours(m, x, y, d) == above + below;
    assert MeanDiagonal(m, x, y) == MeanOf(t);
  }

  /** The three border-aware means are one parametrised mean over their offset sets. */
  lemma MeansAverageInBoundsNeighbours(m: Mosaic, x: int, y: int)
    requires Valid(m) && InImage(m, x, y)
    ensures MeanHorizontal(m, x, y) == NeighbourMean(m, x, y, HorizontalOffsets)
    ensures MeanVertical(m, x, y) == NeighbourMean(m, x, y, VerticalOffsets)
    ensures MeanDiagonal(m, x, y) == NeighbourMean(m, x, y, DiagonalOffsets)
  {
    MeanHorizontalIsNeighbourMean(m, x, y);
    MeanVerticalIsNeighbourMean(m, x, y);
    MeanDiagonalIsNeighbourMean(m, x, y);
  }

  /** The in-bounds samples of two offsets and their sum. */
  lemma NeighboursOfPair(m: Mosaic, x: int, y: int, dx0: int, dy0: int, dx1: int, dy1: int)
    requires Valid(m)
    ensures var s := Neighbours(m, x, y, [(dx0, dy0), (dx1, dy1)]);
      && |s| == (if InImage(m, x + dx0, y + dy0) then 1 else 0) + (if InImage(m, x + dx1, y + dy1) then 1 else 0)
      && Sum(s) == (if InImage(m, x + dx0, y + dy0) then UnsignedAt(m, x + dx0, y + dy0) else 0)
                 + (if InImage(m, x + dx1, y + dy1) then UnsignedAt(m, x + dx1, y + dy1) else 0)
  {
    var offs := [(dx0, dy0), (dx1, dy1)];
    assert offs[1..] == [(dx1, dy1)];
    assert offs[1..][1..] == [];
    var second := if InImage(m, x + dx1, y + dy1) then [UnsignedAt(m, x + dx1, y + dy1)] else [];
    assert Neighbours(m, x, y, offs[1..]) == second + [];
    var first := if InImage(m, x + dx0, y + dy0) then [UnsignedAt(m, x + dx0, y + dy0)] else [];
    SumAppend(first, second + []);
    SumAppend(second, []);
  }

  /** The neighbours of a concatenated offset list are the concatenated neighbours. */
  lemma {:induction false} NeighboursSplit(m: Mosaic, x: int, y: int, offsets: seq<(int, int)>, k: int)
    requires Valid(m) && 0 <= k <= |offsets|
    ensures Neighbours(m, x, y, offsets) == Neighbours(m, x, y, offsets[..k]) + Neighbours(m, x, y, offsets[k..])
  {
    if k > 0 {
      assert offsets[..k][1..] == offsets[1..][..k - 1];
      assert offsets[k..] == offsets[1..][k - 1..];
      NeighboursSplit(m, x, y, offsets[1..], k - 1);
    } else {
      assert offsets[..0] == [];
      assert offsets[0..] == offsets;
    }
  }

  /** The channel a site records natively. */
  function NativeChannel(p: PixelType, c: Rgb): int {
    match p
    case GreenA => c.green
    case GreenB => c.green
    case Red => c.red
    case Blue => c.blue
  }

  /** Reference rule for the two missing channels of the site (x, y): at a
      GreenA site the horizontal neighbour mean is blue and the vertical one
      red, at a GreenB site the reverse; at a red or blue site the diagonal
      mean is the opposite colour and green is the halved sum of the
      horizontal and vertical means. */
  predicate Interpolated(m: Mosaic, x: int, y: int, c: Rgb)
    requires Valid(m)
  {
    var h := NeighbourMean(m, x, y, HorizontalOffsets);
    var v := NeighbourMean(m, x, y, VerticalOffsets);
    var d := NeighbourMean(m, x, y, DiagonalOffsets);
    match PixelTypeOf(x, y)
    case GreenA => h == Success(c.blue) && v == Success(c.red)
    case GreenB => v == Success(c.blue) && h == Success(c.red)
    case Red => d == Success(c.blue) && h.Success? && v.Success? && c.green == (h.value + v.value) / 2
    case Blue => d == Success(c.red) && h.Success? && v.Success? && c.green == (h.value + v.value) / 2
  }

  /** `calculateRGB`: the native channel is the raw sample, the two missing
      channels are the neighbour means `Interpolated` assigns them; it fails exactly when the image is one
      pixel wide or one pixel high, since some mean then has no neighbour. */
  function CalculateRgb(m: Mosaic, index: int): (r: Result<Rgb, BayerError>)
    requires Valid(m) && 0 <= index < |m.pixels|
    ensures r.Failure? <==> m.width < 2 || m.height < 2
    ensures r.Success? ==> IsByteRgb(r.value)
    ensures r.Success? ==>
      NativeChannel(PixelTypeOf(SiteOf(m, index).0, SiteOf(m, index).1), r.value) == Unsigned(m.pixels[index])
    ensures r.Success? ==> Interpolated(m, SiteOf(m, index).0, SiteOf(m, index).1, r.value)
  {
    var (x, y) := SiteOf(m, index);
    MeansAverageInBoundsNeighbours(m, x, y);
    match PixelTypeOf(x, y)
    case GreenA =>
      var blue :- MeanHorizontal(m, x, y);
      var red :- MeanVertical(m, x, y);
      Success(Rgb(red, UnsignedAt(m, x, y), blue))
    case GreenB =>
      var blue :- MeanVertical(m, x, y);
      var red :- MeanHorizontal(m, x, y);
      Success(Rgb(red, UnsignedAt(m, x, y), blue))
    case Red =>
      // once the diagonal mean exists, so do the horizontal and vertical ones
      var blue :- MeanDiagonal(m, x, y);
      var green := (MeanHorizontal(m, x, y).value + MeanVertical(m, x, y).value) / 2;
      Success(Rgb(UnsignedAt(m, x, y), green, blue))
    case Blue =>
      var red :- MeanDiagonal(m, x, y);
      var green := (MeanHorizontal(m, x, y).value + MeanVertical(m, x, y).value) / 2;
      Success(Rgb(red, green, UnsignedAt(m, x, y)))
  }

  /** The mean of n >= 1 copies of a byte is that byte. */
  lemma MeanOfConstant(m: Mosaic, x: int, y: int, offsets: seq<(int, int)>, u: int)
    requires Valid(m) && InByteRange(u)
    requires forall i :: 0 <= i < |m.pixels| ==> Unsigned(m.pixels[i]) == u
    requires Neighbours(m, x, y, offsets) != []
    ensures NeighbourMean(m, x, y, offsets) == Success(u)
  {
    var s := Neighbours(m, x, y, offsets);
    NeighboursOfConstant(m, x, y, offsets, u);
    SumConstant(s, u);
    DivCancel(|s|, u);
  }

  lemma DivCancel(k: int, u: int)
    requires 0 < k
    ensures (k * u) / k == u
  {
    var q, r := (k * u) / k, (k * u) % k;
    assert k * (u - q) == r && 0 <= r < k;
    if u - q >= 1 {
      assert false;
    } else if u - q <= -1 {
      assert false;
    }
  }

  lemma {:induction false} NeighboursOfConstant(m: Mosaic, x: int, y: int, offsets: seq<(int, int)>, u: int)
    requires Valid(m)
    requires forall i :: 0 <= i < |m.pixels| ==> Unsigned(m.pixels[i]) == u
    ensures forall i :: 0 <= i < |Neighbours(m, x, y, offsets)| ==> Neighbours(m, x, y, offsets)[i] == u
  {
    if offsets != [] {
      var nx, ny := x + offsets[0].0, y + offsets[0].1;
      if InImage(m, nx, ny) {
        IndexInImage(m, nx, ny);
      }
      NeighboursOfConstant(m, x, y, offsets[1..], u);
    }
  }

  /** Over a constant mosaic at least two pixels wide, the horizontal mean is the constant. */
  lemma HorizontalMeanOfConstant(m: Mosaic, x: int, y: int, u: int)
    requires Valid(m) && InImage(m, x, y) && m.width >= 2 && InByteRange(u)
    requires forall i :: 0 <= i < |m.pixels| ==> Unsigned(m.pixels[i]) == u
    ensures MeanHorizontal(m, x, y) == Success(u)
  {
    MeanHorizontalIsNeighbourMean(m, x, y);
    MeanOfConstant(m, x, y, HorizontalOffsets, u);
  }

  /** Over a constant mosaic at least two pixels high, the vertical mean is the constant. */
  lemma VerticalMeanOfConstant(m: Mosaic, x: int, y: int, u: int)
    requires Valid(m) && InImage(m, x, y) && m.height >= 2 && InByteRange(u)
    requires forall i :: 0 <= i < |m.pixels| ==> Unsigned(m.pixels[i]) == u
    ensures MeanVertical(m, x, y) == Success(u)
  {
    MeanVerticalIsNeighbourMean(m, x, y);
    MeanOfConstant(m, x, y, VerticalOffsets, u);
  }

  /** Over a constant mosaic at least two pixels wide and high, the diagonal mean is the constant. */
  lemma DiagonalMeanOfConstant(m: Mosaic, x: int, y: int, u: int)
    requires Valid(m) && InImage(m, x, y) && m.width >= 2 && m.height >= 2 && InByteRange(u)
    requires forall i :: 0 <= i < |m.pixels| ==> Unsigned(m.pixels[i]) == u
    ensures MeanDiagonal(m, x, y) == Success(u)
  {
    MeanDiagonalIsNeighbourMean(m, x, y);
    MeanOfConstant(m, x, y, DiagonalOffsets, u);
  }

  /** A mosaic whose every byte reads as u demosaics to the gray (u, u, u) at every index. */
  lemma ConstantMosaicIsGray(m: Mosaic, index: int, u: int)
    requires Valid(m) && 0 <= index < |m.pixels|
    requires m.width >= 2 && m.height >= 2
    requires forall i :: 0 <= i < |m.pixels| ==> Unsigned(m.pixels[i]) == u
    ensures CalculateRgb(m, index) == Success(Gray(u))
  {
    var (x, y) := SiteOf(m, index);
    assert UnsignedAt(m, x, y) == u;
    HorizontalMeanOfConstant(m, x, y, u);
    VerticalMeanOfConstant(m, x, y, u);
    DiagonalMeanOfConstant(m, x, y, u);
    DivCancel(2, u);
    assert (u + u) / 2 == u;
  }

  /** `getRGB`'s packing `B + (G << 8) + (R << 16)`, the shifts written as products. */
  function Pack(c: Rgb): (p: int)
    ensures IsByteRgb(c) ==> 0 <= p < 0x100_0000
  {
    c.blue + c.green * 0x100 + c.red * 0x1_0000
  }

  /** The red, green and blue bytes of a packed pixel. */
  function Unpack(p: int): (c: Rgb)
    ensures IsByteRgb(c)
  {
    Rgb(p / 0x1_0000 % 0x100, p / 0x100 % 0x100, p % 0x100)
  }

  /** Integer division by d is unique: q = a * d + b with 0 <= b < d fixes q / d and q % d. */
  lemma DivModUnique(q: int, d: int, a: int, b: int)
    requires 0 < d && 0 <= b < d && q == a * d + b
    ensures q / d == a && q % d == b
  {
    var a', b' := q / d, q % d;
    assert d * (a - a') == b' - b && -d < b' - b < d;
    if a - a' >= 1 {
      assert false;
    } else if a - a' <= -1 {
      assert false;
    }
  }

  /** Packing three bytes stays below 2^24 and unpacking recovers them. */
  lemma PackedBytes(c: Rgb)
    requires IsByteRgb(c)
    ensures 0 <= Pack(c) < 0x100_0000 && Unpack(Pack(c)) == c
  {
    var q := Pack(c);
    DivModUnique(q, 0x100, c.green + c.red * 0x100, c.blue);
    DivModUnique(q / 0x100, 0x100, c.red, c.green);
    DivModUnique(q, 0x1_0000, c.red, c.blue + c.green * 0x100);
    DivModUnique(c.red, 0x100, 0, c.red);
  }

  /** Every value below 2^24 is the packing of its three unpacked bytes. */
  lemma UnpackedPacks(p: int)
    requires 0 <= p < 0x100_0000
    ensures IsByteRgb(Unpack(p)) && Pack(Unpack(p)) == p
  {
    var lo, mid := p / 0x100, p % 0x100;
    var hi, gm := lo / 0x100, lo % 0x100;
    assert p == lo * 0x100 + mid;
    assert lo == hi * 0x100 + gm;
    assert p == hi * 0x1_0000 + gm * 0x100 + mid;
    DivModUnique(p, 0x1_0000, hi, gm * 0x100 + mid);
    assert hi < 0x100;
    DivModUnique(hi, 0x100, 0, hi);
  }

  /** `getRGB`: the packed pixel, a 24-bit value whose bytes are the demosaiced channels. */
  function GetRgb(m: Mosaic, index: int): (r: Result<int, BayerError>)
    requires Valid(m) && 0 <= index < |m.pixels|
    ensures r.Failure? <==> m.width < 2 || m.height < 2
    ensures r.Success? ==> 0 <= r.value < 0x100_0000 && Unpack(r.value) == CalculateRgb(m, index).value
  {
    var c := CalculateRgb(m, index);
    if c.Failure? then Failure(c.error)
    else
      PackedBytes(c.value);
      Success(Pack(c.value))
  }

  /** `getValue` with the weighted luminance `luma` left abstract (it is
      floating point): the result is `luma` capped at 255. */
  function GetValue(m: Mosaic, index: int, luma: Rgb -> int): (r: Result<int, BayerError>)
    requires Valid(m) && 0 <= index < |m.pixels|
    ensures r.Failure? <==> m.width < 2 || m.height < 2
    ensures r.Success? ==> r.value <= MaxSample && r.value <= luma(CalculateRgb(m, index).value)
    ensures r.Success? && luma(CalculateRgb(m, index).value) <= MaxSample ==>
      r.value == luma(CalculateRgb(m, index).value)
    ensures r.Success? && luma(CalculateRgb(m, index).value) > MaxSample ==> r.value == MaxSample
  {
    var c :- CalculateRgb(m, index);
    Success(Min(luma(c), MaxSample))
  }
}
