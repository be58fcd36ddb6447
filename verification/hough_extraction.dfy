/** Steps 3 and 4 of the Hough line detector: a histogram of the suppressed
    accumulator, then a scan of the vote levels from the top down that emits,
    level by level and in row-major order, every cell holding the level's
    count until nLines cells were emitted. The scan fails when a level holds
    more cells than slots remain (`lines[found]` past the end of the array)
    and when it steps below level 0 (`hist[-1]`). */
module HoughExtraction {
  import opened Raster
  import opened Results

  /** An extracted line, as its (angle bin, radius bin) cell of the accumulator. */
  datatype Line = Line(ang: int, rad: int)

  datatype ExtractError =
    | LinesOverrun        // a level held more cells than `lines` had slots left
    | HistogramUnderrun   // the level scan read `hist[-1]`

  predicate InGridCell(v: seq<seq<int>>, c: Line) {
    0 <= c.ang < |v| && 0 <= c.rad < |v[c.ang]|
  }

  function VoteAt(v: seq<seq<int>>, c: Line): int
    requires InGridCell(v, c)
  {
    v[c.ang][c.rad]
  }

  /** Every cell holds a count in [0, top]. */
  predicate InLevels(v: seq<seq<int>>, top: int) {
    forall a, r :: 0 <= a < |v| && 0 <= r < |v[a]| ==> 0 <= v[a][r] <= top
  }

  // ---- the cells of one level --------------------------------------------

  predicate RowMajorBefore(p: Line, q: Line) {
    p.ang < q.ang || (p.ang == q.ang && p.rad < q.rad)
  }

  /** p precedes q in extraction order: more votes, or as many and earlier in row-major order. */
  predicate Before(v: seq<seq<int>>, p: Line, q: Line)
    requires InGridCell(v, p) && InGridCell(v, q)
  {
    VoteAt(v, p) > VoteAt(v, q) || (VoteAt(v, p) == VoteAt(v, q) && RowMajorBefore(p, q))
  }

  /** A list of accumulator cells in strictly decreasing extraction order (hence without repetition). */
  predicate Ranked(v: seq<seq<int>>, ls: seq<Line>) {
    && (forall i :: 0 <= i < |ls| ==> InGridCell(v, ls[i]))
    && (forall i, j :: 0 <= i < j < |ls| ==> Before(v, ls[i], ls[j]))
  }

  /** The cells of row a from column r on that hold `value`, in column order. */
  function RowLevel(v: seq<seq<int>>, a: int, r: int, value: int): (cells: seq<Line>)
    requires 0 <= a < |v| && 0 <= r <= |v[a]|
    ensures forall i :: 0 <= i < |cells| ==>
      cells[i].ang == a && r <= cells[i].rad < |v[a]| && v[a][cells[i].rad] == value
    decreases |v[a]| - r
  {
    if r == |v[a]| then []
    else (if v[a][r] == value then [Line(a, r)] else []) + RowLevel(v, a, r + 1, value)
  }

  /** The cells of rows a, a + 1, ... that hold `value`, in row-major order. */
  function LevelFrom(v: seq<seq<int>>, a: int, value: int): (cells: seq<Line>)
    requires 0 <= a <= |v|
    ensures forall i :: 0 <= i < |cells| ==>
      a <= cells[i].ang && InGridCell(v, cells[i]) && VoteAt(v, cells[i]) == value
    decreases |v| - a
  {
    if a == |v| then [] else RowLevel(v, a, 0, value) + LevelFrom(v, a + 1, value)
  }

  /** The cells the inner double loop emits at level `value`. */
  function Level(v: seq<seq<int>>, value: int): (cells: seq<Line>)
    ensures forall i :: 0 <= i < |cells| ==> InGridCell(v, cells[i]) && VoteAt(v, cells[i]) == value
  {
    LevelFrom(v, 0, value)
  }

  lemma RankedConcat(v: seq<seq<int>>, s: seq<Line>, t: seq<Line>)
    requires Ranked(v, s) && Ranked(v, t)
    requires forall i, j :: 0 <= i < |s| && 0 <= j < |t| ==> Before(v, s[i], t[j])
    ensures Ranked(v, s + t)
  {
    var st := s + t;
    forall i, j | 0 <= i < j < |st|
      ensures Before(v, st[i], st[j])
    {
      if j < |s| {
        assert st[i] == s[i] && st[j] == s[j];
      } else if i >= |s| {
        assert st[i] == t[i - |s|] && st[j] == t[j - |s|];
      } else {
        assert st[i] == s[i] && st[j] == t[j - |s|];
      }
    }
  }

  lemma {:induction false} RowLevelMembers(v: seq<seq<int>>, a: int, r: int, value: int)
    requires 0 <= a < |v| && 0 <= r <= |v[a]|
    ensures forall c :: c in RowLevel(v, a, r, value) <==> c.ang == a && r <= c.rad < |v[a]| && v[a][c.rad] == value
    decreases |v[a]| - r
  {
    if r < |v[a]| {
      RowLevelMembers(v, a, r + 1, value);
      var head := if v[a][r] == value then [Line(a, r)] else [];
      var rest := RowLevel(v, a, r + 1, value);
      assert RowLevel(v, a, r, value) == head + rest;
      forall c: Line
        ensures c in head + rest <==> c.ang == a && r <= c.rad < |v[a]| && v[a][c.rad] == value
      {
        assert c in head + rest <==> c in head || c in rest;
      }
    }
  }

  lemma {:induction false} RowLevelSpec(v: seq<seq<int>>, a: int, r: int, value: int)
    requires 0 <= a < |v| && 0 <= r <= |v[a]|
    ensures forall c :: c in RowLevel(v, a, r, value) <==> c.ang == a && r <= c.rad < |v[a]| && v[a][c.rad] == value
    ensures Ranked(v, RowLevel(v, a, r, value))
    decreases |v[a]| - r
  {
    RowLevelMembers(v, a, r, value);
    if r < |v[a]| {
      RowLevelSpec(v, a, r + 1, value);
      var head := if v[a][r] == value then [Line(a, r)] else [];
      var rest := RowLevel(v, a, r + 1, value);
      assert RowLevel(v, a, r, value) == head + rest;
      forall i, j | 0 <= i < |head| && 0 <= j < |rest|
        ensures Before(v, head[i], rest[j])
      {
        assert rest[j] in rest;
      }
      RankedConcat(v, head, rest);
    }
  }

  lemma {:induction false} LevelFromMembers(v: seq<seq<int>>, a: int, value: int)
    requires 0 <= a <= |v|
    ensures forall c :: c in LevelFrom(v, a, value) <==> a <= c.ang && InGridCell(v, c) && VoteAt(v, c) == value
    decreases |v| - a
  {
    if a < |v| {
      RowLevelSpec(v, a, 0, value);
      LevelFromMembers(v, a + 1, value);
      var row, rest := RowLevel(v, a, 0, value), LevelFrom(v, a + 1, value);
      forall c: Line
        ensures c in row + rest <==> a <= c.ang && InGridCell(v, c) && VoteAt(v, c) == value
      {
        assert c in row + rest <==> c in row || c in rest;
      }
    }
  }

  lemma {:induction false} LevelFromRanked(v: seq<seq<int>>, a: int, value: int)
    requires 0 <= a <= |v|
    ensures Ranked(v, LevelFrom(v, a, value))
    decreases |v| - a
  {
    if a < |v| {
      RowLevelSpec(v, a, 0, value);
      LevelFromRanked(v, a + 1, value);
      var row, rest := RowLevel(v, a, 0, value), LevelFrom(v, a + 1, value);
      forall i, j | 0 <= i < |row| && 0 <= j < |rest|
        ensures Before(v, row[i], rest[j])
      {
        assert RowMajorBefore(row[i], rest[j]);
      }
      RankedConcat(v, row, rest);
    }
  }

  lemma LevelFromSpec(v: seq<seq<int>>, a: int, value: int)
    requires 0 <= a <= |v|
    ensures forall c :: c in LevelFrom(v, a, value) <==> a <= c.ang && InGridCell(v, c) && VoteAt(v, c) == value
    ensures Ranked(v, LevelFrom(v, a, value))
  {
    LevelFromMembers(v, a, value);
    LevelFromRanked(v, a, value);
  }

  /** Level(v, value) lists exactly the cells holding `value`, each once, in row-major order. */
  lemma LevelSpec(v: seq<seq<int>>, value: int)
    ensures forall c :: c in Level(v, value) <==> InGridCell(v, c) && VoteAt(v, c) == value
    ensures Ranked(v, Level(v, value))
  {
    LevelFromSpec(v, 0, value);
  }

  // ---- histogram (the loop filling `hist`) -------------------------------

  function HistRow(v: seq<seq<int>>, hist: seq<int>, a: int, r: int): (h: seq<int>)
    requires 0 <= a < |v| && 0 <= r <= |v[a]| && InLevels(v, |hist| - 1)
    ensures |h| == |hist|
    decreases |v[a]| - r
  {
    if r == |v[a]| then hist
    else HistRow(v, hist[v[a][r] := hist[v[a][r]] + 1], a, r + 1)
  }

  function HistRows(v: seq<seq<int>>, hist: seq<int>, a: int): (h: seq<int>)
    requires 0 <= a <= |v| && InLevels(v, |hist| - 1)
    ensures |h| == |hist|
    decreases |v| - a
  {
    if a == |v| then hist else HistRows(v, HistRow(v, hist, a, 0), a + 1)
  }

  /** `hist`: one counter per level 0 .. top, counting the cells at that level. */
  function Histogram(v: seq<seq<int>>, top: nat): (hist: seq<int>)
    requires InLevels(v, top)
    ensures |hist| == top + 1
  {
    HistRows(v, seq(top + 1, _ => 0), 0)
  }

  lemma {:induction false} HistRowCounts(v: seq<seq<int>>, hist: seq<int>, a: int, r: int, u: int)
    requires 0 <= a < |v| && 0 <= r <= |v[a]| && InLevels(v, |hist| - 1) && 0 <= u < |hist|
    ensures HistRow(v, hist, a, r)[u] == hist[u] + |RowLevel(v, a, r, u)|
    decreases |v[a]| - r
  {
    if r < |v[a]| {
      var hist' := hist[v[a][r] := hist[v[a][r]] + 1];
      HistRowCounts(v, hist', a, r + 1, u);
      assert |RowLevel(v, a, r, u)| == (if v[a][r] == u then 1 else 0) + |RowLevel(v, a, r + 1, u)|;
    }
  }

  lemma {:induction false} HistRowSum(v: seq<seq<int>>, hist: seq<int>, a: int, r: int)
    requires 0 <= a < |v| && 0 <= r <= |v[a]| && InLevels(v, |hist| - 1)
    ensures Sum(HistRow(v, hist, a, r)) == Sum(hist) + |v[a]| - r
    decreases |v[a]| - r
  {
    if r < |v[a]| {
      var hist' := hist[v[a][r] := hist[v[a][r]] + 1];
      SumUpdate(hist, v[a][r], 1);
      HistRowSum(v, hist', a, r + 1);
    }
  }

  lemma {:induction false} HistRowsCounts(v: seq<seq<int>>, hist: seq<int>, a: int, u: int)
    requires 0 <= a <= |v| && InLevels(v, |hist| - 1) && 0 <= u < |hist|
    ensures HistRows(v, hist, a)[u] == hist[u] + |LevelFrom(v, a, u)|
    decreases |v| - a
  {
    if a < |v| {
      HistRowCounts(v, hist, a, 0, u);
      HistRowsCounts(v, HistRow(v, hist, a, 0), a + 1, u);
    }
  }

  lemma {:induction false} HistRowsSum(v: seq<seq<int>>, hist: seq<int>, a: int, nRad: int)
    requires 0 <= a <= |v| && InLevels(v, |hist| - 1) && IsGrid(v, nRad, |v|)
    ensures Sum(HistRows(v, hist, a)) == Sum(hist) + (|v| - a) * nRad
    decreases |v| - a
  {
    if a < |v| {
      var row := HistRow(v, hist, a, 0);
      HistRowSum(v, hist, a, 0);
      HistRowsSum(v, row, a + 1, nRad);
      assert Sum(row) == Sum(hist) + nRad;
      assert (|v| - a) * nRad == nRad + (|v| - (a + 1)) * nRad;
    }
  }

  /** `hist[u]` is the number of suppressed cells holding u, and the
      histogram accounts for every one of the nAng * nRad cells. */
  lemma HistogramSpec(v: seq<seq<int>>, nAng: int, nRad: int, top: nat)
    requires IsGrid(v, nRad, nAng) && InLevels(v, top)
    ensures forall u :: 0 <= u <= top ==> Histogram(v, top)[u] == |Level(v, u)|
    ensures Sum(Histogram(v, top)) == nAng * nRad
  {
    var zero := seq(top + 1, _ => 0);
    SumConstant(zero, 0);
    HistRowsSum(v, zero, 0, nRad);
    forall u | 0 <= u <= top
      ensures Histogram(v, top)[u] == |Level(v, u)|
    {
      HistRowsCounts(v, zero, 0, u);
    }
  }

  // ---- the level scan ----------------------------------------------------

  /** The do-while loop: from `value`, step down to the next level whose
      histogram entry is non-zero; -1 stands for the read of `hist[-1]`. */
  function NextLevel(hist: seq<int>, value: int): (next: int)
    requires 0 <= value <= |hist|
    ensures -1 <= next < value
    ensures 0 <= next ==> hist[next] != 0
    ensures forall u :: next < u < value ==> hist[u] == 0
    decreases value
  {
    if value == 0 then -1
    else if hist[value - 1] != 0 then value - 1
    else NextLevel(hist, value - 1)
  }

  /** The `while (found < nLines)` loop, with `found` the lines emitted so far
      and `value` the last level scanned. */
  function ExtractFrom(v: seq<seq<int>>, hist: seq<int>, nLines: nat, found: seq<Line>, value: int)
    : (r: Result<seq<Line>, ExtractError>)
    requires 0 <= value <= |hist| && |found| <= nLines
    ensures r.Success? ==> |r.value| == nLines && found <= r.value
    decreases value
  {
    if |found| >= nLines then Success(found)
    else
      var next := NextLevel(hist, value);
      if next < 0 then Failure(HistogramUnderrun)
      else
        var cells := Level(v, next);
        if |found| + |cells| > nLines then Failure(LinesOverrun)
        else ExtractFrom(v, hist, nLines, found + cells, next)
  }

  /** The n strongest lines: the scan starts above the top level `|hist| - 1`
      (`maxAccum`) with no line found; on success exactly nLines cells come out. */
  function Extract(v: seq<seq<int>>, hist: seq<int>, nLines: nat): (r: Result<seq<Line>, ExtractError>)
    ensures r.Success? ==> |r.value| == nLines
  {
    ExtractFrom(v, hist, nLines, [], |hist|)
  }

  // ---- reference: the cells from the top level down to a level -----------

  /** Levels hi, hi - 1, ..., lo, each in row-major order: what a scan from
      level hi down to level lo emits. */
  function Band(v: seq<seq<int>>, hi: int, lo: int): seq<Line>
    decreases hi - lo + 1
  {
    if hi < lo then [] else Level(v, hi) + Band(v, hi - 1, lo)
  }

  /** A band holds exactly the cells whose counts lie in [lo, hi], in extraction order. */
  lemma {:induction false} BandSpec(v: seq<seq<int>>, hi: int, lo: int)
    ensures forall c :: c in Band(v, hi, lo) <==> InGridCell(v, c) && lo <= VoteAt(v, c) <= hi
    ensures Ranked(v, Band(v, hi, lo))
    decreases hi - lo + 1
  {
    if lo <= hi {
      LevelSpec(v, hi);
      BandSpec(v, hi - 1, lo);
      var level, rest := Level(v, hi), Band(v, hi - 1, lo);
      forall i, j | 0 <= i < |level| && 0 <= j < |rest|
        ensures Before(v, level[i], rest[j])
      {
        assert level[i] in level && rest[j] in rest;
      }
      RankedConcat(v, level, rest);
    }
  }

  /** Extending a band by one level at its low end appends that level. */
  lemma {:induction false} BandExtendDown(v: seq<seq<int>>, hi: int, lo: int)
    requires lo <= hi
    ensures Band(v, hi, lo) == Band(v, hi, lo + 1) + Level(v, lo)
    decreases hi - lo
  {
    if lo < hi {
      BandExtendDown(v, hi - 1, lo);
    } else {
      assert Band(v, hi - 1, lo) == [];
    }
  }

  /** The band sizes are the tail sums of the histogram; they never grow as the low end rises. */
  lemma {:induction false} BandSize(v: seq<seq<int>>, top: nat, lo: int)
    requires InLevels(v, top) && 0 <= lo <= top + 1
    requires forall u :: 0 <= u <= top ==> Histogram(v, top)[u] == |Level(v, u)|
    ensures |Band(v, top, lo)| == Sum(Histogram(v, top)[lo..])
    ensures forall l :: lo <= l <= top + 1 ==> |Band(v, top, l)| <= |Band(v, top, lo)|
    decreases top + 1 - lo
  {
    var hist := Histogram(v, top);
    if lo == top + 1 {
      assert hist[lo..] == [];
    } else {
      BandExtendDown(v, top, lo);
      BandSize(v, top, lo + 1);
      assert hist[lo..][1..] == hist[lo + 1..];
    }
  }

  /** Skipping levels whose histogram entry is 0 adds nothing to the band. */
  lemma {:induction false} BandSkip(v: seq<seq<int>>, top: nat, value: int, next: int)
    requires InLevels(v, top) && 0 <= next < value <= top + 1
    requires forall u :: 0 <= u <= top ==> Histogram(v, top)[u] == |Level(v, u)|
    requires forall u :: next < u < value ==> Histogram(v, top)[u] == 0
    ensures Band(v, top, next) == Band(v, top, value) + Level(v, next)
  {
    BandExtendDown(v, top, next);
    BandSkipAll(v, top, value, next + 1);
  }

  /** The scan from level `value`, having emitted the band above it. */
  lemma {:induction false} ExtractFromSpec(v: seq<seq<int>>, nAng: int, nRad: int, top: nat, nLines: nat, value: int)
    requires IsGrid(v, nRad, nAng) && InLevels(v, top)
    requires 0 <= value <= top + 1 && |Band(v, top, value)| <= nLines
    ensures var r := ExtractFrom(v, Histogram(v, top), nLines, Band(v, top, value), value);
      && (r.Success? <==> |Band(v, top, value)| == nLines || exists lo :: 0 <= lo < value && |Band(v, top, lo)| == nLines)
      && (r.Success? ==> exists lo :: 0 <= lo <= value && r.value == Band(v, top, lo)
                                      && (lo < value ==> Histogram(v, top)[lo] != 0))
      && (r == Failure(HistogramUnderrun) <==> nLines > nAng * nRad)
    decreases value
  {
    var hist := Histogram(v, top);
    HistogramSpec(v, nAng, nRad, top);
    BandSize(v, top, 0);
    assert hist[0..] == hist;
    var found := Band(v, top, value);
    BandSize(v, top, value);
    if |found| < nLines {
      var next := NextLevel(hist, value);
      if next < 0 {
        forall lo | 0 <= lo < value
          ensures |Band(v, top, lo)| == |found|
        {
          BandSkipAll(v, top, value, lo);
        }
        BandSkipAll(v, top, value, 0);
      } else {
        BandSkip(v, top, value, next);
        BandSize(v, top, next);
        forall lo | next < lo < value
          ensures |Band(v, top, lo)| == |found|
        {
          BandSkipAll(v, top, value, lo);
        }
        if |found| + |Level(v, next)| <= nLines {
          ExtractFromSpec(v, nAng, nRad, top, nLines, next);
        } else {
          forall lo | 0 <= lo <= next
            ensures |Band(v, top, lo)| >= |Band(v, top, next)|
          {
            BandSize(v, top, lo);
          }
        }
      }
    }
  }

  /** With every histogram entry in [lo, value) zero, the band down to lo equals the band down to value. */
  lemma {:induction false} BandSkipAll(v: seq<seq<int>>, top: nat, value: int, lo: int)
    requires InLevels(v, top) && 0 <= lo <= value <= top + 1
    requires forall u :: 0 <= u <= top ==> Histogram(v, top)[u] == |Level(v, u)|
    requires forall u :: lo <= u < value ==> Histogram(v, top)[u] == 0
    ensures Band(v, top, lo) == Band(v, top, value)
    decreases value - lo
  {
    if lo < value {
      BandExtendDown(v, top, lo);
      assert Level(v, lo) == [];
      BandSkipAll(v, top, value, lo + 1);
    }
  }

  /** The extraction contract. On success the result is the ranked list of
      all cells whose count is at least that of the last one, i.e. the top
      nLines cells with whole levels; success happens exactly when some level
      boundary falls at nLines, the `hist[-1]` failure exactly when there are
      fewer cells than lines requested, and the overrun in every other case. */
  lemma ExtractSpec(v: seq<seq<int>>, nAng: int, nRad: int, top: nat, nLines: nat)
    requires IsGrid(v, nRad, nAng) && InLevels(v, top)
    ensures var r := Extract(v, Histogram(v, top), nLines);
      && (r.Success? ==> Ranked(v, r.value))
      && (r.Success? && nLines > 0 ==> forall c :: InGridCell(v, c) && VoteAt(v, c) >= VoteAt(v, r.value[nLines - 1]) ==> c in r.value)
      && (r.Success? <==> nLines == 0 || exists lo :: 0 <= lo <= top && |Band(v, top, lo)| == nLines)
      && (r == Failure(HistogramUnderrun) <==> nLines > nAng * nRad)
  {
    var hist := Histogram(v, top);
    assert Band(v, top, top + 1) == [];
    ExtractFromSpec(v, nAng, nRad, top, nLines, top + 1);
    var r := Extract(v, hist, nLines);
    if r.Success? {
      var lo :| 0 <= lo <= top + 1 && r.value == Band(v, top, lo) && (lo < top + 1 ==> hist[lo] != 0);
      BandSpec(v, top, lo);
      if nLines > 0 {
        BandEndsAtLevel(v, nAng, nRad, top, lo);
      }
    }
  }

  /** A non-empty band whose lowest level is occupied ends with a cell of that level. */
  lemma {:induction false} BandEndsAtLevel(v: seq<seq<int>>, nAng: int, nRad: int, top: nat, lo: int)
    requires IsGrid(v, nRad, nAng) && InLevels(v, top)
    requires 0 <= lo <= top && Histogram(v, top)[lo] != 0
    ensures var b := Band(v, top, lo);
      |b| > 0 && InGridCell(v, b[|b| - 1]) && VoteAt(v, b[|b| - 1]) == lo
  {
    HistogramSpec(v, nAng, nRad, top);
    BandExtendDown(v, top, lo);
    LevelSpec(v, lo);
    var level := Level(v, lo);
    assert |level| > 0;
    assert Band(v, top, lo)[|Band(v, top, lo)| - 1] == level[|level| - 1];
    assert level[|level| - 1] in level;
  }

  /** When some cell reaches the top level, the first extracted line is at that level. */
  lemma {:induction false} ExtractLeadsWithTop(v: seq<seq<int>>, nAng: int, nRad: int, top: nat, nLines: nat, peak: Line)
    requires IsGrid(v, nRad, nAng) && InLevels(v, top)
    requires top == 0 || (InGridCell(v, peak) && VoteAt(v, peak) == top)
    ensures var r := Extract(v, Histogram(v, top), nLines);
      r.Success? && nLines > 0 ==> InGridCell(v, r.value[0]) && VoteAt(v, r.value[0]) == top
  {
    var r := Extract(v, Histogram(v, top), nLines);
    ExtractSpec(v, nAng, nRad, top, nLines);
    if r.Success? && nLines > 0 && top > 0 {
      assert peak in r.value;
      var k :| 0 <= k < |r.value| && r.value[k] == peak;
      if k > 0 {
        assert Before(v, r.value[0], r.value[k]);
      }
    }
  }
}
