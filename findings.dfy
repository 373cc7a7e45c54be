/** Small grids on which the backtrace of seam_carver.py and the corrected
    selector part ways, and three worked scenarios: an all-zero gradient
    grid, the gradient grid of a uniform grey image under 8-bit storage, and
    a single-row image. */
module Findings {
  import opened Grids
  import opened CumulativeCost
  import opened SeamSelector
  import opened Carver
  import opened IntendedSelector

  /** A two-row path costs its two cells' energies. */
  lemma TwoRowPathCost(e: seq<seq<int>>, a: int, b: int)
    requires IsGrid(e) && |e| >= 2 && 0 <= a < Cols(e) && 0 <= b < Cols(e) && Adjacent(a, b)
    ensures IsPath([a, b], Cols(e)) && PathCost(e, [a, b]) == e[0][a] + e[1][b]
  {
    assert [a, b] == [a] + [b];
    assert [a] == [] + [a];
    PathExtend([], a, Cols(e));
    PathExtend([a], b, Cols(e));
    PathCostAppend(e, [a], b);
    PathCostAppend(e, [], a);
  }

  /** The seam list of a two-row cumulative map. */
  lemma TwoRowBacktrace(cum: seq<seq<int>>)
    requires IsGrid(cum) && Cols(cum) >= 1 && |cum| == 2
    ensures Backtrace(cum) == [ArgMin(cum[1]), Step(cum[0], ArgMin(cum[1]))]
  {
    TraceNext(cum, 1);
  }

  /** The intended seam of a two-row cumulative map. */
  lemma TwoRowIntendedSeam(cum: seq<seq<int>>)
    requires IsGrid(cum) && Cols(cum) >= 1 && |cum| == 2
    ensures IntendedSeam(cum) == [IntendedStep(cum[0], ArgMin(cum[1])), ArgMin(cum[1])]
  {
    assert IntendedCol(cum, 1) == ArgMin(cum[1]);
    assert IntendedCol(cum, 0) == IntendedStep(cum[0], ArgMin(cum[1]));
  }

  lemma CumulativeLeftGuardGrid()
    ensures Cumulative([[0, 5, 5], [5, 0, 5]]) == [[0, 5, 5], [5, 0, 10]]
  {
    var e := [[0, 5, 5], [5, 0, 5]];
    var cum := Cumulative(e);
    CumulativeTopRow(e);
    assert Cum(e, 1, 0) == 5 && Cum(e, 1, 1) == 0 && Cum(e, 1, 2) == 10;
    assert cum[1] == [5, 0, 10];
  }

  /** The left guard `last - 1 > 0`: from column 1 the rule never steps to
      column 0, even when that column is cheaper. On the gradient grid
      [[0, 5, 5], [5, 0, 5]] the carve removes cells of total energy 5 while
      the path [0, 1] costs 0, and the intended seam is that path. */
  lemma LeftGuardSkipsColumnZero()
    ensures Step([0, 5, 5], 1) == 1 && IntendedStep([0, 5, 5], 1) == 0
    ensures CarvedSeam([[0, 5, 5], [5, 0, 5]]) == [1, 1]
    ensures PathCost([[0, 5, 5], [5, 0, 5]], [1, 1]) == 5
    ensures PathCost([[0, 5, 5], [5, 0, 5]], [0, 1]) == 0
    ensures IntendedSeam(Cumulative([[0, 5, 5], [5, 0, 5]])) == [0, 1]
  {
    var e := [[0, 5, 5], [5, 0, 5]];
    var cum := [[0, 5, 5], [5, 0, 10]];
    CumulativeLeftGuardGrid();
    assert ArgMin(cum[1]) == 1;
    TwoRowBacktrace(cum);
    TwoRowIntendedSeam(cum);
    TwoRowPathCost(e, 1, 1);
    TwoRowPathCost(e, 0, 1);
  }

  /** The right candidate taken from the updated choice: from column 2 of
      the row [9, 5, 9, 0] the rule adopts column 1 and never looks at
      column 3, the cheapest neighbour. */
  lemma RightCandidateFromBest()
    ensures Step([9, 5, 9, 0], 2) == 1
    ensures IntendedStep([9, 5, 9, 0], 2) == 3
    ensures Adjacent(2, 3) && [9, 5, 9, 0][3] < [9, 5, 9, 0][1]
  {
  }

  lemma CumulativeMirrorGrid()
    ensures Cumulative([[9, 9, 0], [9, 0, 9]]) == [[9, 9, 0], [18, 0, 9]]
  {
    var e := [[9, 9, 0], [9, 0, 9]];
    var cum := Cumulative(e);
    CumulativeTopRow(e);
    assert Cum(e, 1, 0) == 18 && Cum(e, 1, 1) == 0 && Cum(e, 1, 2) == 9;
    assert cum[1] == [18, 0, 9];
  }

  /** The list is built bottom row first but removal reads entry i as the
      column of row i. On the gradient grid [[9, 9, 0], [9, 0, 9]] the walk
      chooses column 1 in row 1 and column 2 in row 0, yet the carve deletes
      cells (0, 1) and (1, 2), of total energy 18; the mirrored list, which is
      the intended seam, costs 0. */
  lemma SeamNotReversed()
    ensures CarvedSeam([[9, 9, 0], [9, 0, 9]]) == [1, 2]
    ensures PathCost([[9, 9, 0], [9, 0, 9]], [1, 2]) == 18
    ensures IntendedSeam(Cumulative([[9, 9, 0], [9, 0, 9]])) == [2, 1]
    ensures PathCost([[9, 9, 0], [9, 0, 9]], [2, 1]) == 0
  {
    var e := [[9, 9, 0], [9, 0, 9]];
    var cum := [[9, 9, 0], [18, 0, 9]];
    CumulativeMirrorGrid();
    assert ArgMin(cum[1]) == 1;
    TwoRowBacktrace(cum);
    TwoRowIntendedSeam(cum);
    TwoRowPathCost(e, 1, 2);
    TwoRowPathCost(e, 2, 1);
  }

  /** Every cumulative cost of an all-zero 3 x 3 grid is 0. */
  lemma {:induction false} CumIsZero(e: seq<seq<int>>, i: nat, j: nat)
    requires e == [[0, 0, 0], [0, 0, 0], [0, 0, 0]] && i < 3 && j < 3
    ensures Cum(e, i, j) == 0
  {
    if i > 0 {
      CumIsZero(e, i - 1, LeftOf(j));
      CumIsZero(e, i - 1, j);
      CumIsZero(e, i - 1, RightOf(j, 3));
    }
  }

  lemma CumulativeUniformGrid()
    ensures Cumulative([[0, 0, 0], [0, 0, 0], [0, 0, 0]]) == [[0, 0, 0], [0, 0, 0], [0, 0, 0]]
  {
    var e := [[0, 0, 0], [0, 0, 0], [0, 0, 0]];
    var cum := Cumulative(e);
    forall i | 0 <= i < 3
      ensures cum[i] == e[i]
    {
      forall j | 0 <= j < 3
        ensures cum[i][j] == e[i][j]
      {
        CumIsZero(e, i, j);
      }
    }
  }

  /** Ties keep the column, so on an all-zero map the walk stays in column 0. */
  lemma UniformSeam()
    ensures CarvedSeam([[0, 0, 0], [0, 0, 0], [0, 0, 0]]) == [0, 0, 0]
  {
    var cum := [[0, 0, 0], [0, 0, 0], [0, 0, 0]];
    CumulativeUniformGrid();
    assert ArgMin([0, 0, 0]) == 0;
    assert Trace(cum, 1) == [0];
    TraceNext(cum, 1);
    TraceNext(cum, 2);
  }

  /** An image whose gradient grid is all zero loses column 0 from every
      row: every tie keeps the column, so the seam is [0, 0, 0]. With the
      zero-padded Sobel filters of seam_carver.py:99-100 a black image has
      that gradient, and so does the greyscale image
      [[a, 0, a], [0, 0, 0], [a, 0, a]] for every a. A uniform image of any
      other grey value has a non-zero gradient along its border and is carved
      differently (GreyImageSeam). */
  lemma UniformImageDropsFirstColumn<P>(img: seq<seq<P>>)
    requires |img| == 3 && forall i :: 0 <= i < 3 ==> |img[i]| == 3
    ensures CarvedSeam([[0, 0, 0], [0, 0, 0], [0, 0, 0]]) == [0, 0, 0]
    ensures CarvedImage(img, [[0, 0, 0], [0, 0, 0], [0, 0, 0]]) == [img[0][1..], img[1][1..], img[2][1..]]
  {
    UniformSeam();
    var out := CarvedImage(img, [[0, 0, 0], [0, 0, 0], [0, 0, 0]]);
    forall i | 0 <= i < 3
      ensures out[i] == img[i][1..]
    {
      assert out[i] == RemoveAt(img[i], 0);
      assert img[i][..0] + img[i][1..] == img[i][1..];
    }
  }

  /** The first minimum of [5, 1, 3, 0, 2] is at index 3. */
  lemma ArgMinSingleRow()
    ensures ArgMin([5, 1, 3, 0, 2]) == 3
  {
    var s := [5, 1, 3, 0, 2];
    assert s[..4] == [5, 1, 3, 0];
    assert s[..4][..3] == [5, 1, 3];
    assert ArgMin([5, 1, 3]) == 1;
    assert ArgMin([5, 1, 3, 0]) == 3;
  }

  lemma SingleRowSeam()
    ensures CarvedSeam([[5, 1, 3, 0, 2]]) == [3]
  {
    var e := [[5, 1, 3, 0, 2]];
    assert Cumulative(e) == e by { CumulativeTopRow(e); }
    ArgMinSingleRow();
  }

  /** A single-row image with energies [5, 1, 3, 0, 2]: the seam is the
      unique minimum [3], and the carve removes column 3, shifting column 4
      one place left. */
  lemma SingleRowRemovesMinimum<P>(img: seq<seq<P>>)
    requires |img| == 1 && |img[0]| == 5
    ensures CarvedSeam([[5, 1, 3, 0, 2]]) == [3]
    ensures CarvedImage(img, [[5, 1, 3, 0, 2]]) == [[img[0][0], img[0][1], img[0][2], img[0][4]]]
  {
    var e := [[5, 1, 3, 0, 2]];
    SingleRowSeam();
    var r := CarvedImage(img, e)[0];
    assert r == RemoveAt(img[0], 3);
    assert r == [img[0][0], img[0][1], img[0][2], img[0][4]];
  }

  /** The cumulative map of the gradient grid of a uniform grey image when
      negative Sobel intermediates wrap around modulo 256. */
  lemma CumulativeGreyWrappedGrid()
    ensures Cumulative([[212, 200, 184], [200, 0, 56], [184, 56, 150]])
            == [[212, 200, 184], [400, 184, 240], [368, 240, 334]]
  {
    var e := [[212, 200, 184], [200, 0, 56], [184, 56, 150]];
    var cum := Cumulative(e);
    CumulativeTopRow(e);
    assert Cum(e, 1, 0) == 400 && Cum(e, 1, 1) == 184 && Cum(e, 1, 2) == 240;
    assert cum[1] == [400, 184, 240];
    assert Cum(e, 2, 0) == 368 && Cum(e, 2, 1) == 240 && Cum(e, 2, 2) == 334;
    assert cum[2] == [368, 240, 334];
  }

  /** The cumulative map of the gradient grid of a uniform grey image when
      negative Sobel intermediates saturate at 0. */
  lemma CumulativeGreySaturatedGrid()
    ensures Cumulative([[212, 200, 150], [200, 0, 0], [150, 0, 0]])
            == [[212, 200, 150], [400, 150, 150], [300, 150, 150]]
  {
    var e := [[212, 200, 150], [200, 0, 0], [150, 0, 0]];
    var cum := Cumulative(e);
    CumulativeTopRow(e);
    assert Cum(e, 1, 0) == 400 && Cum(e, 1, 1) == 150 && Cum(e, 1, 2) == 150;
    assert cum[1] == [400, 150, 150];
    assert Cum(e, 2, 0) == 300 && Cum(e, 2, 1) == 150 && Cum(e, 2, 2) == 150;
    assert cum[2] == [300, 150, 150];
  }

  /** A uniform 3 x 3 image of grey value 50. The Sobel filters of
      seam_carver.py:99-100 run on the 8-bit greyscale array and store their
      passes in it, so the negative responses along the bottom row and the
      right column (-50, then -150 and -200) do not survive. Wrapped modulo
      256 they give, after `np.hypot` and rounding to integers,
      [[212, 200, 184], [200, 0, 56], [184, 56, 150]]; saturated at 0 they
      give [[212, 200, 150], [200, 0, 0], [150, 0, 0]]. In both cases the
      walk starts at column 1, keeps it in row 1 and moves right in row 0,
      so the carve deletes cells (0, 1), (1, 1) and (2, 2): column 1 of the
      top two rows and column 2 of the bottom row, not column 0. */
  lemma GreyImageSeam()
    ensures CarvedSeam([[212, 200, 184], [200, 0, 56], [184, 56, 150]]) == [1, 1, 2]
    ensures CarvedSeam([[212, 200, 150], [200, 0, 0], [150, 0, 0]]) == [1, 1, 2]
  {
    var wrapped := [[212, 200, 184], [400, 184, 240], [368, 240, 334]];
    CumulativeGreyWrappedGrid();
    assert ArgMin([368, 240, 334]) == 1;
    assert Trace(wrapped, 1) == [1];
    TraceNext(wrapped, 1);
    TraceNext(wrapped, 2);
    var saturated := [[212, 200, 150], [400, 150, 150], [300, 150, 150]];
    CumulativeGreySaturatedGrid();
    assert ArgMin([300, 150, 150]) == 1;
    assert Trace(saturated, 1) == [1];
    TraceNext(saturated, 1);
    TraceNext(saturated, 2);
  }
}
