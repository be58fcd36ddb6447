/** The Hough line detector of `run`: accumulate, suppress non-maxima,
    histogram the suppressed accumulator and extract the strongest cells.
    The bin counts and the number of lines are constants of the source; the
    general form takes them as parameters. */
module HoughTransform {
  import opened Raster
  import opened Results
  import opened HoughAccumulator
  import opened HoughSuppression
  import opened HoughExtraction

  /** Number of angle bins. */
  const NAng: nat := 256
  /** Number of radius bins. */
  const NRad: nat := 256
  /** Number of lines to search. */
  const NLines: nat := 4

  /** The suppressed accumulator `hough2` of an image. */
  function Suppressed(g: seq<seq<int>>, w: int, h: int, nAng: nat, nRad: nat, bin: BinFn): (s: seq<seq<int>>)
    requires IsGrid(g, w, h)
    ensures IsGrid(s, nRad, nAng)
    ensures InLevels(s, Accumulate(g, w, h, nAng, nRad, bin).maxAccum)
  {
    var space := Accumulate(g, w, h, nAng, nRad, bin);
    SuppressionKeepsPeaks(space.votes, nAng, nRad, space.maxAccum);
    Suppress(space.votes, nAng, nRad)
  }

  /** Steps 1 to 4 of `run` (accumulate, suppress, histogram, extract), with
      the bin counts and the number of lines as parameters. */
  function DetectWith(g: seq<seq<int>>, w: int, h: int, nAng: nat, nRad: nat, nLines: nat, bin: BinFn)
    : (r: Result<seq<Line>, ExtractError>)
    requires IsGrid(g, w, h)
    ensures r.Success? ==> |r.value| == nLines
  {
    var space := Accumulate(g, w, h, nAng, nRad, bin);
    var hough2 := Suppressed(g, w, h, nAng, nRad, bin);
    var hist := Histogram(hough2, space.maxAccum);
    Extract(hough2, hist, nLines)
  }

  /** `run` itself: 256 angle bins, 256 radius bins, 4 lines. */
  function Detect(g: seq<seq<int>>, w: int, h: int, bin: BinFn): (r: Result<seq<Line>, ExtractError>)
    requires IsGrid(g, w, h)
    ensures r.Success? ==> |r.value| == NLines
  {
    DetectWith(g, w, h, NAng, NRad, NLines, bin)
  }

  /** The pipeline's result is the extraction from the suppressed accumulator. */
  lemma {:induction false} DetectIsExtraction(g: seq<seq<int>>, w: int, h: int, nAng: nat, nRad: nat, nLines: nat, bin: BinFn)
    requires IsGrid(g, w, h)
    ensures var m := Accumulate(g, w, h, nAng, nRad, bin).maxAccum;
            var hough2 := Suppressed(g, w, h, nAng, nRad, bin);
      DetectWith(g, w, h, nAng, nRad, nLines, bin) == Extract(hough2, Histogram(hough2, m), nLines)
  {
  }

  /** On success the first line holds `maxAccum` votes: a cell reaching the
      maximum survives suppression and nothing ranks above it. */
  lemma {:induction false} DetectLeadsWithMax(g: seq<seq<int>>, w: int, h: int, nAng: nat, nRad: nat, nLines: nat, bin: BinFn)
    requires IsGrid(g, w, h)
    ensures var r := DetectWith(g, w, h, nAng, nRad, nLines, bin);
      r.Success? && nLines > 0 ==>
        && InGridCell(Suppressed(g, w, h, nAng, nRad, bin), r.value[0])
        && VoteAt(Suppressed(g, w, h, nAng, nRad, bin), r.value[0]) == Accumulate(g, w, h, nAng, nRad, bin).maxAccum
  {
    var space := Accumulate(g, w, h, nAng, nRad, bin);
    var m := space.maxAccum;
    var hough2 := Suppressed(g, w, h, nAng, nRad, bin);
    DetectIsExtraction(g, w, h, nAng, nRad, nLines, bin);
    if m > 0 {
      SuppressionKeepsPeaks(space.votes, nAng, nRad, m);
      var a, q :| 0 <= a < |space.votes| && 0 <= q < |space.votes[a]| && space.votes[a][q] == m;
      ExtractLeadsWithTop(hough2, nAng, nRad, m, nLines, Line(a, q));
    } else {
      ExtractLeadsWithTop(hough2, nAng, nRad, m, nLines, Line(0, 0));
    }
  }

  /** An image that casts no vote leaves every suppressed cell at level 0, so
      the first level scan meets more cells than lines and overruns `lines`. */
  lemma {:induction false} DetectWithoutVotes(g: seq<seq<int>>, w: int, h: int, nAng: nat, nRad: nat, nLines: nat, bin: BinFn)
    requires IsGrid(g, w, h)
    requires Accumulate(g, w, h, nAng, nRad, bin).maxAccum == 0 && 0 < nLines < nAng * nRad
    ensures DetectWith(g, w, h, nAng, nRad, nLines, bin) == Failure(LinesOverrun)
  {
    var hough2 := Suppressed(g, w, h, nAng, nRad, bin);
    var hist := Histogram(hough2, 0);
    var r := Extract(hough2, hist, nLines);
    DetectIsExtraction(g, w, h, nAng, nRad, nLines, bin);
    ExtractSpec(hough2, nAng, nRad, 0, nLines);
    HistogramSpec(hough2, nAng, nRad, 0);
    BandSize(hough2, 0, 0);
    assert hist[0..] == hist;
    assert |Band(hough2, 0, 0)| == nAng * nRad;
    assert !r.Success?;
  }

  /** End to end: the lines come out ranked by suppressed vote count, the
      first one holds `maxAccum` votes, no cell at least as strong as the
      last one is missing; the `hist[-1]` failure needs more lines than
      cells, and an image that casts no vote overruns `lines`. */
  lemma {:induction false} DetectSpec(g: seq<seq<int>>, w: int, h: int, nAng: nat, nRad: nat, nLines: nat, bin: BinFn)
    requires IsGrid(g, w, h)
    ensures var m := Accumulate(g, w, h, nAng, nRad, bin).maxAccum;
            var hough2 := Suppressed(g, w, h, nAng, nRad, bin);
            var r := DetectWith(g, w, h, nAng, nRad, nLines, bin);
      && (r.Success? ==> Ranked(hough2, r.value))
      && (r.Success? && nLines > 0 ==> VoteAt(hough2, r.value[0]) == m)
      && (r.Success? && nLines > 0 ==>
            forall c :: InGridCell(hough2, c) && VoteAt(hough2, c) >= VoteAt(hough2, r.value[nLines - 1]) ==> c in r.value)
      && (r == Failure(HistogramUnderrun) <==> nLines > nAng * nRad)
      && (m == 0 && 0 < nLines < nAng * nRad ==> r == Failure(LinesOverrun))
  {
    var m := Accumulate(g, w, h, nAng, nRad, bin).maxAccum;
    var hough2 := Suppressed(g, w, h, nAng, nRad, bin);
    DetectIsExtraction(g, w, h, nAng, nRad, nLines, bin);
    ExtractSpec(hough2, nAng, nRad, m, nLines);
    DetectLeadsWithMax(g, w, h, nAng, nRad, nLines, bin);
    if m == 0 && 0 < nLines < nAng * nRad {
      DetectWithoutVotes(g, w, h, nAng, nRad, nLines, bin);
    }
  }

  /** With the constants of `run`: the `hist[-1]` failure never happens, four
      ranked lines led by a `maxAccum` cell come out on success, and an image
      that casts no vote fails with the overrun of `lines`. */
  lemma {:induction false} DetectFourLines(g: seq<seq<int>>, w: int, h: int, bin: BinFn)
    requires IsGrid(g, w, h)
    ensures var r := Detect(g, w, h, bin);
      && r != Failure(HistogramUnderrun)
      && (r.Success? ==>
            && |r.value| == 4
            && Ranked(Suppressed(g, w, h, NAng, NRad, bin), r.value)
            && VoteAt(Suppressed(g, w, h, NAng, NRad, bin), r.value[0]) == Accumulate(g, w, h, NAng, NRad, bin).maxAccum)
      && (Accumulate(g, w, h, NAng, NRad, bin).maxAccum == 0 ==> r == Failure(LinesOverrun))
  {
    DetectSpec(g, w, h, NAng, NRad, NLines, bin);
  }
}
