# cpvr pixel-grid core in Dafny

This project models the four integer pixel-grid algorithms of the cpvr ImageJ
vision pipeline, and proves properties about them:

- **Bayer demosaicing** (`BayerProcessor`). Each site of a single-channel
  mosaic is classified by the parities of its coordinates. Its native channel
  is the raw unsigned sample. The two missing channels are integer means of
  the in-bounds horizontal, vertical or diagonal neighbours. `getRGB` packs the
  result into a 24-bit integer, and `getValue` caps a luminance at 255.
- **Laplacian edge filter** (`LaplaceTransform.run`). Every pixel at least
  `pixelClip = 2` away from the border becomes the gray value
  `clamp(sum of 8 neighbours - 8 * centre, 0, 255)`. Every other pixel keeps
  the black fill.
- **Fixed-threshold binarizer** (`BinaryTransform.run`). An interior pixel
  becomes 255 when it exceeds the threshold and 0 otherwise. The border band
  stays 0.
- **Hough line detector** (`HoughTransform.run`), in four steps:
  1. vote accumulation with a running `maxAccum`;
  2. 3 x 3 non-maximum suppression;
  3. a histogram of the suppressed accumulator;
  4. a descending scan over vote levels that extracts the `nLines` strongest
     cells.

Images are `seq<seq<int>>` grids addressed `g[y][x]`. The Hough accumulator is
addressed `votes[ang][rad]`. The Bayer mosaic keeps the flat signed-byte array
and the linear index of the source. Java's failure modes become `Result` values:

- `BayerError.DivisionByZero` is the `ArithmeticException` of a neighbour mean
  with no neighbour.
- `ExtractError.LinesOverrun` is the write `lines[found]` past the end of the
  array.
- `ExtractError.HistogramUnderrun` is the read of `hist[-1]`.

Modules: `Results` (the `Result` type), `Raster` (grids, RGB triples, the clip
band, clamping, sums), `BayerProcessor`, `LaplaceTransform`, `BinaryTransform`,
`HoughAccumulator`, `HoughSuppression`, `HoughExtraction` and `HoughTransform`
(the whole `run` pipeline).

The model follows the code in these places:

- The Hough accumulation loop runs over the whole image, not only outside the
  2-pixel border band.
- In angle column 0 the suppression compares a cell only with column 1. The
  cells directly above and below it in column 0 are not compared.
- When a vote level holds more cells than there are free slots, the code does
  not cap at `nLines`. It writes past the end of `lines`, and the model
  reports this as `LinesOverrun`.
- `HoughTransform.run` has no angle window and no configurable `nLines`. The bin
  counts and the number of lines are the constants 256, 256 and 4.
- The Bayer means are not total. A mosaic one pixel wide or one pixel high
  divides by zero.

## Model

| member | source | states |
|---|---|---|
| BayerProcessor.Unsigned | src/imagej_billard/BayerProcessor.java:167-171 | `rawValue & 0xff` lies in [0, 255] and agrees with the signed byte modulo 256 |
| BayerProcessor.SiteOf | src/imagej_billard/BayerProcessor.java:56-57 | the site `(index % width, index / width)` lies inside the image and `y * width + x` gives back the index |
| BayerProcessor.UnsignedAt | src/imagej_billard/BayerProcessor.java:167-171 | the unsigned sample at an in-image site lies in [0, 255] |
| BayerProcessor.SampleAtSite | src/imagej_billard/BayerProcessor.java:167-170 | the sample read at the site of an index is the byte stored at that index |
| BayerProcessor.MeanOf | src/imagej_billard/BayerProcessor.java:106 | `Math.min(value / counter, MAX_VALUE)` fails exactly when no neighbour was counted; otherwise it is a byte |
| BayerProcessor.PixelTypeOf | src/imagej_billard/BayerProcessor.java:151-165 | a site is green (GreenA or GreenB) iff its coordinates have equal parity, and lies on a red-and-green row (Red or GreenB) iff its row is odd |
| BayerProcessor.PixelTypeByParity | src/imagej_billard/BayerProcessor.java:151-165 | the site type depends only on the coordinate parities: GreenA iff (even, even), Blue iff (odd, even), Red iff (even, odd), GreenB iff (odd, odd); every 2 x 2 tile holds all four types |
| BayerProcessor.NeighbourSitesCarryMissingColour | src/imagej_billard/BayerProcessor.java:64-88 | every offset that a mean reads in the reference rule `Interpolated` lands on a site of the colour that mean fills: around GreenA the horizontal neighbours are blue and the vertical ones red, around GreenB the reverse; around Red (Blue) the diagonal neighbours are blue (red) and the horizontal and vertical ones green |
| BayerProcessor.MeanHorizontal | src/imagej_billard/BayerProcessor.java:96-107 | fails with division by zero exactly when the width is below 2; otherwise the mean is a byte |
| BayerProcessor.MeanVertical | src/imagej_billard/BayerProcessor.java:109-120 | fails exactly when the height is below 2; otherwise the mean is a byte |
| BayerProcessor.DiagonalTally | src/imagej_billard/BayerProcessor.java:122-143 | the diagonal sum and counter are non-negative, and the counter is 0 exactly when the image is narrower or lower than 2 pixels |
| BayerProcessor.MeanDiagonal | src/imagej_billard/BayerProcessor.java:122-145 | fails exactly when the width or the height is below 2; otherwise the mean is a byte |
| BayerProcessor.MeanHorizontalIsNeighbourMean | src/imagej_billard/BayerProcessor.java:96-107 | the horizontal mean is the integer mean, capped at 255, of the in-bounds samples at offsets (-1, 0) and (1, 0) |
| BayerProcessor.MeanVerticalIsNeighbourMean | src/imagej_billard/BayerProcessor.java:109-120 | the vertical mean is the same parametrised mean over offsets (0, -1) and (0, 1) |
| BayerProcessor.MeanDiagonalIsNeighbourMean | src/imagej_billard/BayerProcessor.java:122-145 | the diagonal mean is the same parametrised mean over the four diagonal offsets |
| BayerProcessor.CalculateRgb | src/imagej_billard/BayerProcessor.java:54-94 | fails exactly for one-pixel-wide or one-pixel-high mosaics; otherwise all three channels are bytes, the site's native channel is its raw unsigned sample, and the missing channels are the neighbour means over the offset sets `Interpolated` assigns to the site type: at GreenA blue is the horizontal and red the vertical mean, at GreenB the reverse, at Red (Blue) blue (red) is the diagonal mean and green is half the sum of the horizontal and vertical means |
| BayerProcessor.ConstantMosaicIsGray | src/imagej_billard/BayerProcessor.java:54-145 | a constant mosaic of at least 2 x 2 pixels whose every sample is u demosaics to (u, u, u) at every index |
| BayerProcessor.HorizontalMeanOfConstant | src/imagej_billard/BayerProcessor.java:96-107 | over a constant mosaic at least two pixels wide, the horizontal mean is the constant |
| BayerProcessor.VerticalMeanOfConstant | src/imagej_billard/BayerProcessor.java:109-120 | over a constant mosaic at least two pixels high, the vertical mean is the constant |
| BayerProcessor.DiagonalMeanOfConstant | src/imagej_billard/BayerProcessor.java:122-145 | over a constant mosaic at least two pixels wide and high, the diagonal mean is the constant |
| BayerProcessor.Pack | src/imagej_billard/BayerProcessor.java:29-36 | packing three bytes as `B + (G << 8) + (R << 16)` gives a value in [0, 2^24); PackedBytes and UnpackedPacks state that it inverts Unpack |
| BayerProcessor.Unpack | src/imagej_billard/BayerProcessor.java:29-36 | the inverse of the packing always yields three bytes |
| BayerProcessor.PackedBytes | src/imagej_billard/BayerProcessor.java:29-36 | the packing of three bytes is below 2^24 and unpacks to the same three bytes |
| BayerProcessor.UnpackedPacks | src/imagej_billard/BayerProcessor.java:29-36 | every value below 2^24 unpacks to three bytes that pack back to it |
| BayerProcessor.GetRgb | src/imagej_billard/BayerProcessor.java:29-36 | fails exactly when `calculateRGB` fails; otherwise a 24-bit value whose unpacked bytes are the demosaiced channels |
| BayerProcessor.GetValue | src/imagej_billard/BayerProcessor.java:22-27 | fails exactly when `calculateRGB` fails; otherwise at most 255 and at most the luminance, equal to the luminance when that is at most 255, and equal to 255 when the luminance exceeds 255 |
| Raster.Clamp | src/imagej_hough/LaplaceTransform.java:100-101 | the clamped value lies in [lo, hi] and equals the input when the input is already in range |
| LaplaceTransform.NeighbourTally | src/imagej_hough/LaplaceTransform.java:56-97 | the counter of the neighbour loop lies in [0, 8] and is 8 for a pixel with all eight neighbours |
| LaplaceTransform.NeighbourCount | src/imagej_hough/LaplaceTransform.java:58-97 | `counter` is the number of in-bounds cells of the 3 x 3 block around the pixel, minus the pixel itself |
| LaplaceTransform.Response | src/imagej_hough/LaplaceTransform.java:99-101 | the new value of a pixel is a byte |
| LaplaceTransform.CoreResponse | src/imagej_hough/LaplaceTransform.java:58-101 | inside the clip band `counter` is 8 and the new value is `clamp(sum of 8 neighbours - 8 * centre, 0, 255)` |
| LaplaceTransform.Pixel | src/imagej_hough/LaplaceTransform.java:99-104 | the written pixel has three equal byte channels; it is black outside the clip band and the clamped eight-neighbour Laplacian inside |
| LaplaceTransform.Laplace | src/imagej_hough/LaplaceTransform.java:46-105 | the output has the input's size; every pixel is gray with a byte value; pixels outside the clip band are black; pixels inside are the clamped eight-neighbour Laplacian |
| LaplaceTransform.Run | src/imagej_hough/LaplaceTransform.java:46-105 | the loop over the clip-band interior, writing into a black image, produces exactly that output |
| LaplaceTransform.ConstantImageIsBlack | src/imagej_hough/LaplaceTransform.java:52-101 | a constant image has no edges, so the whole output is black |
| LaplaceTransform.SmallImageIsBlack | src/imagej_hough/LaplaceTransform.java:52-53 | an image at most 4 wide or 4 high gets no pixel written, so the output is all fill |
| BinaryTransform.Pixel | src/imagej_hough/BinaryTransform.java:53-58 | the written byte is 0 or 255, and 255 iff the pixel is inside the clip band and above the threshold |
| BinaryTransform.Binarize | src/imagej_hough/BinaryTransform.java:48-61 | the output has the input's size; every pixel is 0 or 255; a pixel is 255 iff it is inside the clip band and above the threshold |
| BinaryTransform.Run | src/imagej_hough/BinaryTransform.java:48-61 | the loop over the clip-band interior, writing into a black image, produces exactly that output |
| BinaryTransform.AntitoneInThreshold | src/imagej_hough/BinaryTransform.java:57 | raising the threshold can only turn pixels from 255 to 0 |
| BinaryTransform.Idempotent | src/imagej_hough/BinaryTransform.java:53-60 | binarizing a binary output again, with any threshold in [0, 255), gives it back unchanged |
| HoughAccumulator.Empty | src/imagej_hough/HoughTransform.java:51-55 | the fresh accumulator is nAng x nRad, all zero, with `maxAccum` 0 |
| HoughAccumulator.Vote | src/imagej_hough/HoughTransform.java:79-82 | one cell grows by one, all others are unchanged, the vote total grows by one, and `maxAccum` stays the maximum |
| HoughAccumulator.CastVotes | src/imagej_hough/HoughTransform.java:76-84 | the angle loop keeps the shape and keeps `maxAccum` the maximum |
| HoughAccumulator.ScanRow | src/imagej_hough/HoughTransform.java:69-86 | the column loop keeps the shape and keeps `maxAccum` the maximum |
| HoughAccumulator.ScanRows | src/imagej_hough/HoughTransform.java:68-87 | the row loop keeps the shape and keeps `maxAccum` the maximum |
| HoughAccumulator.Accumulate | src/imagej_hough/HoughTransform.java:55-87 | `hough1` is nAng x nRad with non-negative cells; `maxAccum` bounds every cell and is either 0 or the value of some cell |
| HoughAccumulator.CastVotesCell | src/imagej_hough/HoughTransform.java:76-84 | one pixel adds to cell (t, r) exactly one vote per angle bin t whose radius bin is r |
| HoughAccumulator.ScanRowCell | src/imagej_hough/HoughTransform.java:69-86 | a row adds to cell (t, r) the number of its foreground pixels that vote there |
| HoughAccumulator.ScanRowsCell | src/imagej_hough/HoughTransform.java:68-87 | the rows add to cell (t, r) the number of their foreground pixels that vote there |
| HoughAccumulator.AccumulateCountsVotes | src/imagej_hough/HoughTransform.java:68-87 | every cell counts exactly the foreground pixels whose angle-t line falls in radius bin r; zero pixels add nothing |
| HoughAccumulator.CastVotesTotal | src/imagej_hough/HoughTransform.java:76-84 | one pixel adds one vote per angle bin with an in-range radius bin |
| HoughAccumulator.ScanRowTotal | src/imagej_hough/HoughTransform.java:69-86 | a row adds one vote per (foreground pixel, angle bin) pair with an in-range radius bin |
| HoughAccumulator.ScanRowsTotal | src/imagej_hough/HoughTransform.java:68-87 | the rows add one vote per such pair |
| HoughAccumulator.AccumulateTotal | src/imagej_hough/HoughTransform.java:68-87 | the total vote count is the number of (foreground pixel, angle bin) pairs whose radius bin is in range |
| HoughAccumulator.VoteConservation | src/imagej_hough/HoughTransform.java:68-87 | when no radius bin falls out of range, the total is the foreground pixel count times nAng |
| HoughSuppression.NeighbourMax | src/imagej_hough/HoughTransform.java:96-116 | the running `max` starts at 0 and stays non-negative; NeighbourMaxIsMaximum states that it is the maximum of the compared neighbours |
| HoughSuppression.NeighbourMaxIsMaximum | src/imagej_hough/HoughTransform.java:96-116 | the running `max` bounds every neighbour the code compares with, and is 0 or one of their values; in column 0 only column 1 is compared |
| HoughSuppression.SuppressedCell | src/imagej_hough/HoughTransform.java:118-122 | a cell of `hough2` is its `hough1` count when that count is non-negative and no compared neighbour is larger, and 0 otherwise |
| HoughSuppression.Suppress | src/imagej_hough/HoughTransform.java:94-125 | `hough2` has the accumulator's shape and that value in every cell |
| HoughSuppression.SuppressionKeepsPeaks | src/imagej_hough/HoughTransform.java:118-122 | pointwise 0 <= `hough2` <= `hough1` <= `maxAccum`; every cell equal to `maxAccum` survives; `maxAccum` is still the maximum of `hough2` |
| HoughSuppression.SuppressIdempotent | src/imagej_hough/HoughTransform.java:94-125 | suppressing `hough2` again gives `hough2` |
| HoughExtraction.RowLevel | src/imagej_hough/HoughTransform.java:147-152 | every cell the inner loop emits from column r on lies in row a, at column r or later, and holds the level's count; RowLevelSpec adds that none is missed |
| HoughExtraction.LevelFrom | src/imagej_hough/HoughTransform.java:146-153 | every cell the double loop emits from row a on lies in the accumulator at row a or later and holds the level's count |
| HoughExtraction.Level | src/imagej_hough/HoughTransform.java:146-153 | every cell one level scan emits lies in the accumulator and holds the level's count; LevelSpec adds completeness and order |
| HoughExtraction.RowLevelMembers | src/imagej_hough/HoughTransform.java:147-152 | the inner loop over one row from column r on emits exactly the row's cells from r on that hold the level's count |
| HoughExtraction.RowLevelSpec | src/imagej_hough/HoughTransform.java:147-152 | the inner loop over one row emits exactly the row's cells holding the level's count, in column order |
| HoughExtraction.LevelFromSpec | src/imagej_hough/HoughTransform.java:146-153 | the double loop from a row on emits exactly those rows' cells holding the level's count, in row-major order |
| HoughExtraction.LevelFromMembers | src/imagej_hough/HoughTransform.java:146-153 | the double loop from row a on emits exactly the cells of those rows holding the level's count |
| HoughExtraction.LevelFromRanked | src/imagej_hough/HoughTransform.java:146-153 | the double loop emits its cells in row-major order |
| HoughExtraction.LevelSpec | src/imagej_hough/HoughTransform.java:146-153 | one level scan emits every cell holding the level's count exactly once, in row-major order |
| HoughExtraction.HistRow | src/imagej_hough/HoughTransform.java:130-132 | the inner histogram loop keeps the histogram's length; HistRowCounts gives its counts |
| HoughExtraction.HistRows | src/imagej_hough/HoughTransform.java:129-133 | the outer histogram loop keeps the histogram's length; HistRowsCounts gives its counts |
| HoughExtraction.HistRowCounts | src/imagej_hough/HoughTransform.java:130-132 | the inner loop over row a from column r on raises `hist[u]` by the number of that row's cells from r on that hold u |
| HoughExtraction.HistRowsCounts | src/imagej_hough/HoughTransform.java:129-133 | the loops from row a on raise `hist[u]` by the number of cells in those rows that hold u |
| HoughExtraction.Histogram | src/imagej_hough/HoughTransform.java:128-133 | `hist` has `maxAccum + 1` entries; HistogramSpec gives its counts |
| HoughExtraction.HistogramSpec | src/imagej_hough/HoughTransform.java:128-133 | `hist[u]` is the number of cells of `hough2` holding u; the histogram sums to nAng * nRad |
| HoughExtraction.NextLevel | src/imagej_hough/HoughTransform.java:141-144 | the do-while loop steps strictly down to the next level with a non-zero count, skipping only empty levels, and reaches -1 (`hist[-1]`) when none is left |
| HoughExtraction.ExtractFrom | src/imagej_hough/HoughTransform.java:140-155 | on success exactly nLines cells come out, extending the lines already found |
| HoughExtraction.Extract | src/imagej_hough/HoughTransform.java:136-155 | on success exactly nLines cells come out |
| HoughExtraction.BandSize | src/imagej_hough/HoughTransform.java:128-153 | the cells emitted down to a level number the histogram's counts from that level up |
| HoughExtraction.ExtractFromSpec | src/imagej_hough/HoughTransform.java:140-155 | from any level, the scan succeeds iff a level boundary falls at nLines; its result is a whole band of levels; it reads `hist[-1]` iff there are fewer cells than lines |
| HoughExtraction.ExtractSpec | src/imagej_hough/HoughTransform.java:136-155 | on success the lines come in non-increasing count, row-major within a count, without repetition, and include every cell at least as strong as the last one; success iff nLines is 0 or a level boundary falls at nLines; `hist[-1]` is read iff nLines exceeds nAng * nRad; otherwise `lines` overruns |
| HoughExtraction.BandEndsAtLevel | src/imagej_hough/HoughTransform.java:146-153 | the cells emitted down to an occupied level end with a cell of that level |
| HoughExtraction.ExtractLeadsWithTop | src/imagej_hough/HoughTransform.java:136-155 | when some cell reaches the top level, the first extracted line is at that level |
| HoughTransform.Suppressed | src/imagej_hough/HoughTransform.java:94-133 | `hough2` is nAng x nRad with every cell in [0, `maxAccum`], so every histogram index is in range |
| HoughTransform.DetectWith | src/imagej_hough/HoughTransform.java:55-155 | the whole pipeline returns exactly nLines lines on success |
| HoughTransform.Detect | src/imagej_hough/HoughTransform.java:41-58 | with the source's constants, success yields exactly 4 lines |
| HoughTransform.DetectLeadsWithMax | src/imagej_hough/HoughTransform.java:55-155 | on success the first line is a cell of the suppressed accumulator holding `maxAccum` votes |
| HoughTransform.DetectWithoutVotes | src/imagej_hough/HoughTransform.java:127-155 | an image that casts no vote leaves all nAng * nRad cells at level 0, so fewer lines than cells overrun `lines` |
| HoughTransform.DetectSpec | src/imagej_hough/HoughTransform.java:55-155 | end to end: the lines are ranked by suppressed count, the first holds `maxAccum` votes, no cell at least as strong as the last is missing, `hist[-1]` is read iff nLines > nAng * nRad, and an image that casts no vote overruns `lines` |
| HoughTransform.DetectFourLines | src/imagej_hough/HoughTransform.java:41-155 | with 256 x 256 bins and 4 lines, `hist[-1]` is never read; success yields 4 ranked lines led by a `maxAccum` cell; an image casting no vote overruns `lines` |

## Left out

- `getHue` and `getBrightness` (`BayerProcessor.java:38-52`) are not modelled. They use floating point and `java.awt.Color.RGBtoHSB`.
- BayerProcessor.GetValue: the floating-point weights 0.299, 0.587 and 0.114 and the float-to-int truncation are the abstract parameter `luma`. Only the cap at 255 is modelled.
- HoughAccumulator.Accumulate: the radius bin `round((cx * cos[t] + cy * sin[t]) / dRad) + nRad / 2` is floating point. It is the abstract parameter `bin(x, y, t)`, so the contracts hold for every binning function.
- Extracted lines are kept as their (angle bin, radius bin) cells. The `double` angle `dAng * ang` and radius `dRad * rad - rMax` of `HoughLine` are not modelled.
- The accumulator image, line drawing, PNG writing, timing and printing of `HoughTransform.run` (`HoughTransform.java:157-196`) are not modelled. They are display and I/O.
- `process()`, `setup`, grayscale conversion, image display and PNG saving in the Laplace and binary filters are not modelled. They are ImageJ library calls.
- Both `BillardTracker` files and `HoughSolver.java` are not part of this model. They are plugin glue and a driver.
- `HoughTransform.run` has no angle window. After extraction it uses (angle, radius) only to draw a segment from the image centre to each line's foot point (`HoughTransform.java:185-190`). That is display code and is left out with the other drawing.
- The "source image is never modified" property is not stated as a lemma. Images are immutable sequences, so it holds by construction.
- Java's 32-bit `int` overflow is not modelled. Every count is bounded by the image size times 256, and every sample sum by 8 * 255.
- `getRGB`'s left shifts are written as multiplications by 2^8 and 2^16. These agree because every channel is a byte.
