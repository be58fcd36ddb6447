/** Step 2 of the Hough line detector: 3 x 3 non-maximum suppression. A cell
    keeps its count when no neighbour the code compares against is larger,
    and becomes 0 otherwise. In angle column 0 the code compares only with
    column 1, so the cells directly above and below in column 0 are ignored. */
module HoughSuppression {
  import opened Raster
  import opened HoughAccumulator

  /** The running `max` of the source, starting at 0 and folding in the
      neighbours in the order and under the bound checks of the code. */
  function NeighbourMax(v: seq<seq<int>>, nAng: int, nRad: int, ang: int, rad: int): (mx: int)
    requires IsGrid(v, nRad, nAng) && 0 <= ang < nAng && 0 <= rad < nRad
    ensures 0 <= mx
  {
    var m0 := 0;
    var m1 := if ang > 0 then Max(m0, v[ang - 1][rad]) else m0;
    var m2 := if ang > 0 && rad > 0 then Max(Max(m1, v[ang - 1][rad - 1]), v[ang][rad - 1]) else m1;
    var m3 := if ang > 0 && rad < nRad - 1 then Max(Max(m2, v[ang - 1][rad + 1]), v[ang][rad + 1]) else m2;
    var m4 := if ang < nAng - 1 then Max(m3, v[ang + 1][rad]) else m3;
    var m5 := if ang < nAng - 1 && rad > 0 then Max(m4, v[ang + 1][rad - 1]) else m4;
    var m6 := if ang < nAng - 1 && rad < nRad - 1 then Max(m5, v[ang + 1][rad + 1]) else m5;
    m6
  }

  /** The cells (a, r) the code compares (ang, rad) with: the in-bounds cells
      of the surrounding 3 x 3 block other than the centre, except the two
      cells of column 0 itself when ang is 0. */
  predicate Checked(nAng: int, nRad: int, ang: int, rad: int, a: int, r: int) {
    && 0 <= a < nAng && 0 <= r < nRad
    && -1 <= a - ang <= 1 && -1 <= r - rad <= 1
    && (a != ang || r != rad)
    && !(ang == 0 && a == 0)
  }

  /** No checked neighbour holds more votes than (ang, rad). */
  predicate IsLocalMax(v: seq<seq<int>>, nAng: int, nRad: int, ang: int, rad: int)
    requires IsGrid(v, nRad, nAng) && 0 <= ang < nAng && 0 <= rad < nRad
  {
    forall a, r :: 0 <= a < nAng && 0 <= r < nRad && Checked(nAng, nRad, ang, rad, a, r) ==> v[a][r] <= v[ang][rad]
  }

  /** The running max is 0 or a checked neighbour's value, and bounds every checked neighbour. */
  lemma NeighbourMaxIsMaximum(v: seq<seq<int>>, nAng: int, nRad: int, ang: int, rad: int)
    requires IsGrid(v, nRad, nAng) && 0 <= ang < nAng && 0 <= rad < nRad
    ensures forall a, r :: Checked(nAng, nRad, ang, rad, a, r) ==> v[a][r] <= NeighbourMax(v, nAng, nRad, ang, rad)
    ensures NeighbourMax(v, nAng, nRad, ang, rad) == 0
         || exists a, r :: Checked(nAng, nRad, ang, rad, a, r) && v[a][r] == NeighbourMax(v, nAng, nRad, ang, rad)
  {
  }

  /** `hough2[ang][rad]`. */
  function SuppressedCell(v: seq<seq<int>>, nAng: int, nRad: int, ang: int, rad: int): (c: int)
    requires IsGrid(v, nRad, nAng) && 0 <= ang < nAng && 0 <= rad < nRad
    ensures c == (if 0 <= v[ang][rad] && IsLocalMax(v, nAng, nRad, ang, rad) then v[ang][rad] else 0)
  {
    NeighbourMaxIsMaximum(v, nAng, nRad, ang, rad);
    if v[ang][rad] < NeighbourMax(v, nAng, nRad, ang, rad) then 0 else v[ang][rad]
  }

  /** The suppressed accumulator `hough2`: a cell keeps its (non-negative)
      count exactly when it is a local maximum among the checked neighbours. */
  function Suppress(v: seq<seq<int>>, nAng: int, nRad: int): (s: seq<seq<int>>)
    requires IsGrid(v, nRad, nAng)
    ensures IsGrid(s, nRad, nAng)
    ensures forall a, r :: 0 <= a < nAng && 0 <= r < nRad ==>
      s[a][r] == (if 0 <= v[a][r] && IsLocalMax(v, nAng, nRad, a, r) then v[a][r] else 0)
  {
    seq(nAng, a requires 0 <= a < nAng =>
      seq(nRad, r requires 0 <= r < nRad => SuppressedCell(v, nAng, nRad, a, r)))
  }

  /** Against an accumulator whose maximum is m: pointwise 0 <= hough2 <= hough1 <= m,
      every cell holding m survives, and m is still the maximum of hough2. */
  lemma SuppressionKeepsPeaks(v: seq<seq<int>>, nAng: int, nRad: int, m: int)
    requires IsGrid(v, nRad, nAng) && TracksMax(v, m)
    ensures forall a, r :: 0 <= a < nAng && 0 <= r < nRad ==>
      0 <= Suppress(v, nAng, nRad)[a][r] <= v[a][r] <= m
    ensures forall a, r :: 0 <= a < nAng && 0 <= r < nRad && v[a][r] == m ==>
      Suppress(v, nAng, nRad)[a][r] == m
    ensures TracksMax(Suppress(v, nAng, nRad), m)
  {
    var s := Suppress(v, nAng, nRad);
    if m > 0 {
      var a, r :| 0 <= a < |v| && 0 <= r < |v[a]| && v[a][r] == m;
      assert s[a][r] == m;
    }
  }

  /** Suppressing an already suppressed accumulator changes nothing. */
  lemma SuppressIdempotent(v: seq<seq<int>>, nAng: int, nRad: int)
    requires IsGrid(v, nRad, nAng)
    ensures Suppress(Suppress(v, nAng, nRad), nAng, nRad) == Suppress(v, nAng, nRad)
  {
    var s := Suppress(v, nAng, nRad);
    var s2 := Suppress(s, nAng, nRad);
    forall a, r | 0 <= a < nAng && 0 <= r < nRad
      ensures s2[a][r] == s[a][r]
    {
      if s[a][r] != 0 {
        assert IsLocalMax(v, nAng, nRad, a, r);
        forall a', r' | Checked(nAng, nRad, a, r, a', r')
          ensures s[a'][r'] <= s[a][r]
        {
        }
        assert IsLocalMax(s, nAng, nRad, a, r);
      }
    }
    forall a | 0 <= a < nAng
      ensures s2[a] == s[a]
    {
    }
  }
}
