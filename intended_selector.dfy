/** The corrected seam selector: from column c of the row below, the
    cheapest of the in-range columns c - 1, c and c + 1 of the row above,
    with the list ordered top row first. Over the cumulative-cost map
    this selector yields a seam of least total energy, which is the property
    the source's own rule misses. */
module IntendedSelector {
  import opened Grids
  import opened CumulativeCost
  import opened SeamSelector

  /** The cheapest in-range column among last - 1, last and last + 1; ties
      prefer last, then last - 1. */
  function IntendedStep(row: seq<int>, last: int): (next: int)
    requires 0 <= last < |row|
    ensures 0 <= next < |row| && Adjacent(last, next)
    ensures forall k :: 0 <= k < |row| && Adjacent(last, k) ==> row[next] <= row[k]
  {
    var best := if last - 1 >= 0 && row[last - 1] < row[last] then last - 1 else last;
    if last + 1 < |row| && row[last + 1] < row[best] then last + 1 else best
  }

  /** The intended column for row i: the first minimum of the last row at
      the bottom, and in each row above, the cheapest neighbour of the
      column below it. */
  function IntendedCol(cum: seq<seq<int>>, i: nat): (c: nat)
    requires IsGrid(cum) && Cols(cum) >= 1 && i < |cum|
    ensures c < Cols(cum)
    decreases |cum| - i
  {
    if i == |cum| - 1 then ArgMin(cum[|cum| - 1])
    else IntendedStep(cum[i], IntendedCol(cum, i + 1))
  }

  /** The intended seam, top row first: entry i is the column removed from
      row i. */
  function IntendedSeam(cum: seq<seq<int>>): (s: seq<int>)
    requires IsGrid(cum) && Cols(cum) >= 1
    ensures |s| == |cum|
    ensures forall i :: 0 <= i < |s| ==> s[i] == IntendedCol(cum, i)
  {
    seq(|cum|, i requires 0 <= i < |cum| => IntendedCol(cum, i))
  }

  /** The intended seam has one entry per row, top row first: the bottom
      entry is the first minimum of the last row and each row's column is the
      cheapest neighbour, in that row, of the column below it. */
  lemma IntendedSeamEntries(cum: seq<seq<int>>)
    requires IsGrid(cum) && Cols(cum) >= 1
    ensures |IntendedSeam(cum)| == |cum|
    ensures IntendedSeam(cum)[|cum| - 1] == ArgMin(cum[|cum| - 1])
    ensures forall i :: 0 <= i < |cum| - 1 ==>
              IntendedSeam(cum)[i] == IntendedStep(cum[i], IntendedSeam(cum)[i + 1])
    ensures forall i :: 0 <= i < |cum| - 1 ==>
              forall k :: 0 <= k < Cols(cum) && Adjacent(IntendedSeam(cum)[i + 1], k) ==>
                cum[i][IntendedSeam(cum)[i]] <= cum[i][k]
  {
  }

  /** The intended seam is a vertical 8-connected path whose entries are in
      range. */
  lemma IntendedSeamIsSeam(cum: seq<seq<int>>)
    requires IsGrid(cum) && Cols(cum) >= 1
    ensures IsPath(IntendedSeam(cum), Cols(cum))
  {
    var s := IntendedSeam(cum);
    forall k | 0 <= k < |s| - 1
      ensures AdjacentAt(s, k)
    {
      assert s[k] == IntendedStep(cum[k], s[k + 1]);
    }
  }

  /** The minimum of the clamped triple above column j equals prev[k] when k
      is an in-range neighbour of j cheaper than every other one. */
  lemma ClampedMinIsAttained(prev: seq<int>, j: nat, k: int)
    requires j < |prev| && 0 <= k < |prev| && Adjacent(j, k)
    requires forall m :: 0 <= m < |prev| && Adjacent(j, m) ==> prev[k] <= prev[m]
    ensures Min3(prev[LeftOf(j)], prev[j], prev[RightOf(j, |prev|)]) == prev[k]
  {
    ClampedMinIsNeighbourMin(prev, j, k);
    assert prev[k] <= prev[LeftOf(j)] && prev[k] <= prev[RightOf(j, |prev|)];
  }

  /** Along the intended seam the cumulative cost grows by one cell's energy
      per row. */
  lemma IntendedCumStep(e: seq<seq<int>>, i: nat)
    requires IsGrid(e) && Cols(e) >= 1 && 1 <= i < |e|
    ensures Cum(e, i, IntendedSeam(Cumulative(e))[i])
            == e[i][IntendedSeam(Cumulative(e))[i]] + Cum(e, i - 1, IntendedSeam(Cumulative(e))[i - 1])
  {
    var cum := Cumulative(e);
    var t := IntendedSeam(cum);
    var prev := CumRow(e, i - 1);
    assert prev == cum[i - 1];
    ClampedMinIsAttained(prev, t[i], t[i - 1]);
    CumStep(e, i, t[i], prev[LeftOf(t[i])], prev[t[i]], prev[RightOf(t[i], Cols(e))]);
  }

  /** Row k of path t adds its cell's energy to the cumulative cost of the
      path's cell in row k - 1. */
  predicate FollowsCumAt(e: seq<seq<int>>, t: seq<int>, k: nat)
    requires IsGrid(e) && |t| == |e| && IsPath(t, Cols(e)) && 1 <= k < |e|
  {
    Cum(e, k, t[k]) == e[k][t[k]] + Cum(e, k - 1, t[k - 1])
  }

  /** A path that, row by row, adds the cell's energy to the cumulative cost
      of the cell above it costs, over its first i + 1 rows, exactly the
      cumulative cost of its cell in row i. */
  lemma {:induction false} FollowingPathCost(e: seq<seq<int>>, t: seq<int>, i: nat)
    requires IsGrid(e) && |t| == |e| && IsPath(t, Cols(e)) && i < |e|
    requires forall k :: 1 <= k <= i ==> FollowsCumAt(e, t, k)
    ensures IsPath(t[..i + 1], Cols(e))
    ensures PathCost(e, t[..i + 1]) == Cum(e, i, t[i])
  {
    PathPrefix(t, i + 1, Cols(e));
    if i == 0 {
      assert t[..1] == [] + [t[0]];
      PathCostAppend(e, [], t[0]);
    } else {
      FollowingPathCost(e, t, i - 1);
      assert FollowsCumAt(e, t, i);
      assert t[..i + 1] == t[..i] + [t[i]];
      PathCostAppend(e, t[..i], t[i]);
    }
  }

  /** Every row of the intended seam below row 0 follows the cumulative
      map. */
  lemma IntendedSeamFollowsCum(e: seq<seq<int>>)
    requires IsGrid(e) && Cols(e) >= 1
    ensures IsPath(IntendedSeam(Cumulative(e)), Cols(e))
    ensures forall k :: 1 <= k < |e| ==> FollowsCumAt(e, IntendedSeam(Cumulative(e)), k)
  {
    var t := IntendedSeam(Cumulative(e));
    IntendedSeamIsSeam(Cumulative(e));
    forall k | 1 <= k < |e|
      ensures FollowsCumAt(e, t, k)
    {
      IntendedCumStep(e, k);
    }
  }

  /** The intended seam is a path whose cost is the least value of the last
      row of the cumulative map. */
  lemma IntendedSeamCost(e: seq<seq<int>>)
    requires IsGrid(e) && Cols(e) >= 1
    ensures IsPath(IntendedSeam(Cumulative(e)), Cols(e))
    ensures |IntendedSeam(Cumulative(e))| == |e|
    ensures PathCost(e, IntendedSeam(Cumulative(e))) == Cumulative(e)[|e| - 1][ArgMin(Cumulative(e)[|e| - 1])]
  {
    var cum := Cumulative(e);
    var t := IntendedSeam(cum);
    var n := |e| - 1;
    IntendedSeamFollowsCum(e);
    FollowingPathCost(e, t, n);
    assert t[..n + 1] == t;
    assert t[n] == IntendedCol(cum, n) == ArgMin(cum[n]);
    assert cum[n] == CumRow(e, n);
    assert cum[n][t[n]] == Cum(e, n, t[n]);
  }

  /** The intended seam costs no more than the full-height path p. */
  lemma IntendedSeamNoCostlierThan(e: seq<seq<int>>, p: seq<int>)
    requires IsGrid(e) && Cols(e) >= 1 && |p| == |e| && IsPath(p, Cols(e))
    ensures IsPath(IntendedSeam(Cumulative(e)), Cols(e))
    ensures PathCost(e, IntendedSeam(Cumulative(e))) <= PathCost(e, p)
  {
    var n := |e| - 1;
    var last := Cumulative(e)[n];
    IntendedSeamCost(e);
    CumulativeIsLowerBound(e, p);
    assert last == CumRow(e, n);
    assert last[p[n]] == Cum(e, n, p[n]);
    assert last[ArgMin(last)] <= last[p[n]];
  }

  /** The intended seam is a seam of least total energy: no vertical
      8-connected path through every row costs less. */
  lemma IntendedSeamIsOptimal(e: seq<seq<int>>)
    requires IsGrid(e) && Cols(e) >= 1
    ensures IsPath(IntendedSeam(Cumulative(e)), Cols(e))
    ensures forall p :: |p| == |e| && IsPath(p, Cols(e)) ==>
              PathCost(e, IntendedSeam(Cumulative(e))) <= PathCost(e, p)
  {
    IntendedSeamIsSeam(Cumulative(e));
    forall p | |p| == |e| && IsPath(p, Cols(e))
      ensures PathCost(e, IntendedSeam(Cumulative(e))) <= PathCost(e, p)
    {
      IntendedSeamNoCostlierThan(e, p);
    }
  }

  /** The carve as intended: row i of the image loses the pixel at column
      IntendedSeam(Cumulative(g))[i]. */
  function IntendedCarvedImage<P>(img: seq<seq<P>>, g: seq<seq<int>>): (out: seq<seq<P>>)
    requires IsGrid(g) && Cols(g) >= 1 && |img| == |g|
    requires forall i :: 0 <= i < |img| ==> |img[i]| == Cols(g)
    ensures |out| == |img|
    ensures forall i :: 0 <= i < |out| ==> |out[i]| == Cols(g) - 1
  {
    var t := IntendedSeam(Cumulative(g));
    IntendedSeamIsSeam(Cumulative(g));
    seq(|img|, i requires 0 <= i < |img| => RemoveAt(img[i], t[i]))
  }

  /** The intended carve deletes exactly one pixel from each row, and the
      deleted cells form a seam of least total energy. */
  lemma IntendedCarveRemovesCheapestSeam<P>(img: seq<seq<P>>, g: seq<seq<int>>)
    requires IsGrid(g) && Cols(g) >= 1 && |img| == |g|
    requires forall i :: 0 <= i < |img| ==> |img[i]| == Cols(g)
    ensures |IntendedCarvedImage(img, g)| == |img|
    ensures forall i :: 0 <= i < |img| ==>
              var k := IntendedSeam(Cumulative(g))[i];
              |IntendedCarvedImage(img, g)[i]| == Cols(g) - 1 &&
              multiset(IntendedCarvedImage(img, g)[i]) + multiset{img[i][k]} == multiset(img[i])
    ensures IsPath(IntendedSeam(Cumulative(g)), Cols(g))
    ensures forall p :: |p| == |g| && IsPath(p, Cols(g)) ==>
              PathCost(g, IntendedSeam(Cumulative(g))) <= PathCost(g, p)
  {
    var t := IntendedSeam(Cumulative(g));
    IntendedSeamIsOptimal(g);
    IntendedSeamIsSeam(Cumulative(g));
    forall i | 0 <= i < |img|
      ensures |IntendedCarvedImage(img, g)[i]| == Cols(g) - 1
      ensures multiset(IntendedCarvedImage(img, g)[i]) + multiset{img[i][t[i]]} == multiset(img[i])
    {
      RemoveAtRoundTrip(img[i], t[i]);
    }
  }
}
