/** Step 1 of the Hough line detector: every foreground pixel casts one
    vote per angle bin into the radius bin its line falls in, and the
    largest vote count is tracked on the way. The radius bin comes from
    floating-point trigonometry and rounding; it is the abstract function
    `bin(x, y, t)` here. */
module HoughAccumulator {
  import opened Raster

  /** `(int) Math.round((cx * cos[t] + cy * sin[t]) / dRad) + nRad / 2` for pixel (x, y) and angle bin t. */
  type BinFn = (int, int, int) -> int

  /** The accumulator `hough1`, indexed votes[ang][rad], and the running maximum `maxAccum`. */
  datatype Space = Space(votes: seq<seq<int>>, maxAccum: int)

  predicate Shaped(s: Space, nAng: int, nRad: int) {
    IsGrid(s.votes, nRad, nAng)
  }

  /** All cells are non-negative and at most m, and m is 0 or the value of some cell. */
  predicate TracksMax(v: seq<seq<int>>, m: int) {
    && 0 <= m
    && (forall a, r :: 0 <= a < |v| && 0 <= r < |v[a]| ==> 0 <= v[a][r] <= m)
    && (m > 0 ==> exists a, r :: 0 <= a < |v| && 0 <= r < |v[a]| && v[a][r] == m)
  }

  /** The freshly allocated accumulator. */
  function Empty(nAng: nat, nRad: nat): (s: Space)
    ensures Shaped(s, nAng, nRad) && TracksMax(s.votes, s.maxAccum) && GridSum(s.votes) == 0
  {
    var v := Filled(nRad, nAng, 0);
    ZeroGridSum(v);
    Space(v, 0)
  }

  lemma {:induction false} ZeroGridSum(v: seq<seq<int>>)
    requires forall a, r :: 0 <= a < |v| && 0 <= r < |v[a]| ==> v[a][r] == 0
    ensures GridSum(v) == 0
  {
    if v != [] {
      SumConstant(v[0], 0);
      ZeroGridSum(v[1..]);
    }
  }

  /** `hough1[t][r]++` followed by the update of `maxAccum`: one cell grows by
      one, nothing else changes, and the maximum stays exact. */
  function Vote(s: Space, t: int, r: int, nAng: int, nRad: int): (s': Space)
    requires Shaped(s, nAng, nRad) && 0 <= t < nAng && 0 <= r < nRad
    ensures Shaped(s', nAng, nRad)
    ensures s'.votes[t][r] == s.votes[t][r] + 1
    ensures forall a, q :: 0 <= a < nAng && 0 <= q < nRad && (a != t || q != r) ==> s'.votes[a][q] == s.votes[a][q]
    ensures GridSum(s'.votes) == GridSum(s.votes) + 1
    ensures TracksMax(s.votes, s.maxAccum) ==> TracksMax(s'.votes, s'.maxAccum)
  {
    var row := s.votes[t][r := s.votes[t][r] + 1];
    var v := s.votes[t := row];
    SumUpdate(s.votes[t], r, 1);
    GridSumUpdate(s.votes, t, row);
    Space(v, if v[t][r] > s.maxAccum then v[t][r] else s.maxAccum)
  }

  /** The angle loop for one foreground pixel: for t = t0 .. nAng - 1 it votes
      for radius bin bin(x, y, t) whenever that lies in [0, nRad). */
  function CastVotes(s: Space, x: int, y: int, t0: int, nAng: int, nRad: int, bin: BinFn): (s': Space)
    requires Shaped(s, nAng, nRad) && 0 <= t0 <= nAng
    ensures Shaped(s', nAng, nRad)
    ensures TracksMax(s.votes, s.maxAccum) ==> TracksMax(s'.votes, s'.maxAccum)
    decreases nAng - t0
  {
    if t0 == nAng then s
    else
      var r := bin(x, y, t0);
      var s1 := if 0 <= r < nRad then Vote(s, t0, r, nAng, nRad) else s;
      CastVotes(s1, x, y, t0 + 1, nAng, nRad, bin)
  }

  /** The column loop over row y from column x on; zero pixels cast nothing. */
  function ScanRow(s: Space, g: seq<seq<int>>, w: int, h: int, y: int, x: int,
                   nAng: int, nRad: int, bin: BinFn): (s': Space)
    requires IsGrid(g, w, h) && 0 <= y < h && 0 <= x <= w && Shaped(s, nAng, nRad)
    ensures Shaped(s', nAng, nRad)
    ensures TracksMax(s.votes, s.maxAccum) ==> TracksMax(s'.votes, s'.maxAccum)
    decreases w - x
  {
    if x == w then s
    else
      var s1 := if g[y][x] > 0 then CastVotes(s, x, y, 0, nAng, nRad, bin) else s;
      ScanRow(s1, g, w, h, y, x + 1, nAng, nRad, bin)
  }

  /** The row loop from row y on. */
  function ScanRows(s: Space, g: seq<seq<int>>, w: int, h: int, y: int,
                    nAng: int, nRad: int, bin: BinFn): (s': Space)
    requires IsGrid(g, w, h) && 0 <= y <= h && Shaped(s, nAng, nRad)
    ensures Shaped(s', nAng, nRad)
    ensures TracksMax(s.votes, s.maxAccum) ==> TracksMax(s'.votes, s'.maxAccum)
    decreases h - y
  {
    if y == h then s
    else ScanRows(ScanRow(s, g, w, h, y, 0, nAng, nRad, bin), g, w, h, y + 1, nAng, nRad, bin)
  }

  /** The filled accumulator of the whole image, with `maxAccum` the largest
      cell (0 when no vote was cast). */
  function Accumulate(g: seq<seq<int>>, w: int, h: int, nAng: nat, nRad: nat, bin: BinFn): (s: Space)
    requires IsGrid(g, w, h)
    ensures Shaped(s, nAng, nRad) && TracksMax(s.votes, s.maxAccum)
  {
    ScanRows(Empty(nAng, nRad), g, w, h, 0, nAng, nRad, bin)
  }

  // ---- reference counts --------------------------------------------------

  /** 1 when pixel (x, y) is foreground and its angle-t line falls in radius bin r. */
  function VoteOf(g: seq<seq<int>>, w: int, h: int, x: int, y: int, bin: BinFn, t: int, r: int): int
    requires IsGrid(g, w, h) && 0 <= x < w && 0 <= y < h
  {
    if g[y][x] > 0 && bin(x, y, t) == r then 1 else 0
  }

  function RowVotes(g: seq<seq<int>>, w: int, h: int, y: int, x: int, bin: BinFn, t: int, r: int): int
    requires IsGrid(g, w, h) && 0 <= y < h && 0 <= x <= w
    decreases w - x
  {
    if x == w then 0 else VoteOf(g, w, h, x, y, bin, t, r) + RowVotes(g, w, h, y, x + 1, bin, t, r)
  }

  function RowsVotes(g: seq<seq<int>>, w: int, h: int, y: int, bin: BinFn, t: int, r: int): int
    requires IsGrid(g, w, h) && 0 <= y <= h
    decreases h - y
  {
    if y == h then 0 else RowVotes(g, w, h, y, 0, bin, t, r) + RowsVotes(g, w, h, y + 1, bin, t, r)
  }

  /** The number of foreground pixels of the image whose angle-t line falls in radius bin r. */
  function Votes(g: seq<seq<int>>, w: int, h: int, bin: BinFn, t: int, r: int): int
    requires IsGrid(g, w, h)
  {
    RowsVotes(g, w, h, 0, bin, t, r)
  }

  lemma {:induction false} CastVotesCell(s: Space, x: int, y: int, t0: int, nAng: int, nRad: int, bin: BinFn, t: int, r: int)
    requires Shaped(s, nAng, nRad) && 0 <= t0 <= nAng && 0 <= t < nAng && 0 <= r < nRad
    ensures CastVotes(s, x, y, t0, nAng, nRad, bin).votes[t][r]
         == s.votes[t][r] + (if t0 <= t && bin(x, y, t) == r then 1 else 0)
    decreases nAng - t0
  {
    if t0 < nAng {
      var rr := bin(x, y, t0);
      var s1 := if 0 <= rr < nRad then Vote(s, t0, rr, nAng, nRad) else s;
      CastVotesCell(s1, x, y, t0 + 1, nAng, nRad, bin, t, r);
    }
  }

  lemma {:induction false} ScanRowCell(s: Space, g: seq<seq<int>>, w: int, h: int, y: int, x: int,
                                       nAng: int, nRad: int, bin: BinFn, t: int, r: int)
    requires IsGrid(g, w, h) && 0 <= y < h && 0 <= x <= w && Shaped(s, nAng, nRad)
    requires 0 <= t < nAng && 0 <= r < nRad
    ensures ScanRow(s, g, w, h, y, x, nAng, nRad, bin).votes[t][r] == s.votes[t][r] + RowVotes(g, w, h, y, x, bin, t, r)
    decreases w - x
  {
    if x < w {
      var s1 := if g[y][x] > 0 then CastVotes(s, x, y, 0, nAng, nRad, bin) else s;
      if g[y][x] > 0 {
        CastVotesCell(s, x, y, 0, nAng, nRad, bin, t, r);
      }
      ScanRowCell(s1, g, w, h, y, x + 1, nAng, nRad, bin, t, r);
    }
  }

  lemma {:induction false} ScanRowsCell(s: Space, g: seq<seq<int>>, w: int, h: int, y: int,
                                        nAng: int, nRad: int, bin: BinFn, t: int, r: int)
    requires IsGrid(g, w, h) && 0 <= y <= h && Shaped(s, nAng, nRad)
    requires 0 <= t < nAng && 0 <= r < nRad
    ensures ScanRows(s, g, w, h, y, nAng, nRad, bin).votes[t][r] == s.votes[t][r] + RowsVotes(g, w, h, y, bin, t, r)
    decreases h - y
  {
    if y < h {
      ScanRowCell(s, g, w, h, y, 0, nAng, nRad, bin, t, r);
      ScanRowsCell(ScanRow(s, g, w, h, y, 0, nAng, nRad, bin), g, w, h, y + 1, nAng, nRad, bin, t, r);
    }
  }

  /** Each cell of the accumulator counts exactly the foreground pixels whose
      line at that angle falls in that radius bin. */
  lemma AccumulateCountsVotes(g: seq<seq<int>>, w: int, h: int, nAng: nat, nRad: nat, bin: BinFn)
    requires IsGrid(g, w, h)
    ensures forall t, r :: 0 <= t < nAng && 0 <= r < nRad ==>
      Accumulate(g, w, h, nAng, nRad, bin).votes[t][r] == Votes(g, w, h, bin, t, r)
  {
    forall t, r | 0 <= t < nAng && 0 <= r < nRad
      ensures Accumulate(g, w, h, nAng, nRad, bin).votes[t][r] == Votes(g, w, h, bin, t, r)
    {
      ScanRowsCell(Empty(nAng, nRad), g, w, h, 0, nAng, nRad, bin, t, r);
    }
  }

  // ---- total number of votes ---------------------------------------------

  /** The number of angle bins t in [t0, nAng) whose radius bin for (x, y) lies in [0, nRad). */
  function InRangeAngles(x: int, y: int, t0: int, nAng: int, nRad: int, bin: BinFn): int
    requires 0 <= t0 <= nAng
    decreases nAng - t0
  {
    if t0 == nAng then 0
    else (if 0 <= bin(x, y, t0) < nRad then 1 else 0) + InRangeAngles(x, y, t0 + 1, nAng, nRad, bin)
  }

  /** The (foreground pixel, angle bin) pairs with an in-range radius bin, in row y from column x on. */
  function RowPairs(g: seq<seq<int>>, w: int, h: int, y: int, x: int, nAng: int, nRad: int, bin: BinFn): int
    requires IsGrid(g, w, h) && 0 <= y < h && 0 <= x <= w && 0 <= nAng
    decreases w - x
  {
    if x == w then 0
    else (if g[y][x] > 0 then InRangeAngles(x, y, 0, nAng, nRad, bin) else 0)
         + RowPairs(g, w, h, y, x + 1, nAng, nRad, bin)
  }

  function RowsPairs(g: seq<seq<int>>, w: int, h: int, y: int, nAng: int, nRad: int, bin: BinFn): int
    requires IsGrid(g, w, h) && 0 <= y <= h && 0 <= nAng
    decreases h - y
  {
    if y == h then 0 else RowPairs(g, w, h, y, 0, nAng, nRad, bin) + RowsPairs(g, w, h, y + 1, nAng, nRad, bin)
  }

  lemma {:induction false} CastVotesTotal(s: Space, x: int, y: int, t0: int, nAng: int, nRad: int, bin: BinFn)
    requires Shaped(s, nAng, nRad) && 0 <= t0 <= nAng
    ensures GridSum(CastVotes(s, x, y, t0, nAng, nRad, bin).votes)
         == GridSum(s.votes) + InRangeAngles(x, y, t0, nAng, nRad, bin)
    decreases nAng - t0
  {
    if t0 < nAng {
      var r := bin(x, y, t0);
      var s1 := if 0 <= r < nRad then Vote(s, t0, r, nAng, nRad) else s;
      CastVotesTotal(s1, x, y, t0 + 1, nAng, nRad, bin);
    }
  }

  lemma {:induction false} ScanRowTotal(s: Space, g: seq<seq<int>>, w: int, h: int, y: int, x: int,
                                        nAng: int, nRad: int, bin: BinFn)
    requires IsGrid(g, w, h) && 0 <= y < h && 0 <= x <= w && Shaped(s, nAng, nRad)
    ensures GridSum(ScanRow(s, g, w, h, y, x, nAng, nRad, bin).votes)
         == GridSum(s.votes) + RowPairs(g, w, h, y, x, nAng, nRad, bin)
    decreases w - x
  {
    if x < w {
      var s1 := if g[y][x] > 0 then CastVotes(s, x, y, 0, nAng, nRad, bin) else s;
      if g[y][x] > 0 {
        CastVotesTotal(s, x, y, 0, nAng, nRad, bin);
      }
      ScanRowTotal(s1, g, w, h, y, x + 1, nAng, nRad, bin);
    }
  }

  lemma {:induction false} ScanRowsTotal(s: Space, g: seq<seq<int>>, w: int, h: int, y: int,
                                         nAng: int, nRad: int, bin: BinFn)
    requires IsGrid(g, w, h) && 0 <= y <= h && Shaped(s, nAng, nRad)
    ensures GridSum(ScanRows(s, g, w, h, y, nAng, nRad, bin).votes)
         == GridSum(s.votes) + RowsPairs(g, w, h, y, nAng, nRad, bin)
    decreases h - y
  {
    if y < h {
      ScanRowTotal(s, g, w, h, y, 0, nAng, nRad, bin);
      ScanRowsTotal(ScanRow(s, g, w, h, y, 0, nAng, nRad, bin), g, w, h, y + 1, nAng, nRad, bin);
    }
  }

  /** The votes in the accumulator add up to the number of (foreground pixel,
      angle bin) pairs whose radius bin is in range. */
  lemma AccumulateTotal(g: seq<seq<int>>, w: int, h: int, nAng: nat, nRad: nat, bin: BinFn)
    requires IsGrid(g, w, h)
    ensures GridSum(Accumulate(g, w, h, nAng, nRad, bin).votes) == RowsPairs(g, w, h, 0, nAng, nRad, bin)
  {
    ScanRowsTotal(Empty(nAng, nRad), g, w, h, 0, nAng, nRad, bin);
  }

  /** The number of foreground pixels in row y from column x on. */
  function RowForeground(g: seq<seq<int>>, w: int, h: int, y: int, x: int): int
    requires IsGrid(g, w, h) && 0 <= y < h && 0 <= x <= w
    decreases w - x
  {
    if x == w then 0 else (if g[y][x] > 0 then 1 else 0) + RowForeground(g, w, h, y, x + 1)
  }

  function RowsForeground(g: seq<seq<int>>, w: int, h: int, y: int): int
    requires IsGrid(g, w, h) && 0 <= y <= h
    decreases h - y
  {
    if y == h then 0 else RowForeground(g, w, h, y, 0) + RowsForeground(g, w, h, y + 1)
  }

  lemma {:induction false} AllAnglesInRange(x: int, y: int, t0: int, nAng: int, nRad: int, bin: BinFn)
    requires 0 <= t0 <= nAng
    requires forall t :: 0 <= t < nAng ==> 0 <= bin(x, y, t) < nRad
    ensures InRangeAngles(x, y, t0, nAng, nRad, bin) == nAng - t0
    decreases nAng - t0
  {
    if t0 < nAng {
      AllAnglesInRange(x, y, t0 + 1, nAng, nRad, bin);
    }
  }

  lemma {:induction false} RowPairsAllInRange(g: seq<seq<int>>, w: int, h: int, y: int, x: int, nAng: int, nRad: int, bin: BinFn)
    requires IsGrid(g, w, h) && 0 <= y < h && 0 <= x <= w && 0 <= nAng
    requires forall xx, yy, t :: 0 <= t < nAng ==> 0 <= bin(xx, yy, t) < nRad
    ensures RowPairs(g, w, h, y, x, nAng, nRad, bin) == RowForeground(g, w, h, y, x) * nAng
    decreases w - x
  {
    if x < w {
      AllAnglesInRange(x, y, 0, nAng, nRad, bin);
      RowPairsAllInRange(g, w, h, y, x + 1, nAng, nRad, bin);
    }
  }

  lemma {:induction false} RowsPairsAllInRange(g: seq<seq<int>>, w: int, h: int, y: int, nAng: int, nRad: int, bin: BinFn)
    requires IsGrid(g, w, h) && 0 <= y <= h && 0 <= nAng
    requires forall xx, yy, t :: 0 <= t < nAng ==> 0 <= bin(xx, yy, t) < nRad
    ensures RowsPairs(g, w, h, y, nAng, nRad, bin) == RowsForeground(g, w, h, y) * nAng
    decreases h - y
  {
    if y < h {
      RowPairsAllInRange(g, w, h, y, 0, nAng, nRad, bin);
      RowsPairsAllInRange(g, w, h, y + 1, nAng, nRad, bin);
    }
  }

  /** Vote conservation: when no radius bin falls out of range, the
      accumulator holds nAng votes per foreground pixel. */
  lemma VoteConservation(g: seq<seq<int>>, w: int, h: int, nAng: nat, nRad: nat, bin: BinFn)
    requires IsGrid(g, w, h)
    requires forall x, y, t :: 0 <= t < nAng ==> 0 <= bin(x, y, t) < nRad
    ensures GridSum(Accumulate(g, w, h, nAng, nRad, bin).votes) == RowsForeground(g, w, h, 0) * nAng
  {
    AccumulateTotal(g, w, h, nAng, nRad, bin);
    RowsPairsAllInRange(g, w, h, 0, nAng, nRad, bin);
  }
}
