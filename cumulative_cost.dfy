/** The cumulative-cost map of `vertical_energy_map`: each cell holds its own
    gradient energy plus the least cumulative cost among its clamped upper
    neighbours. The gradient grid is an input; energies are exact integers. */
module CumulativeCost {
  import opened Grids

  /** The cumulative cost of cell (i, j) of the gradient grid e: the cell's
      energy in row 0, and below it the cell's energy plus the least of the
      three clamped cells above (see CumulativeRecurrence). */
  function Cum(e: seq<seq<int>>, i: nat, j: nat): (c: int)
    requires IsGrid(e) && i < |e| && j < Cols(e)
    ensures i == 0 ==> c == e[0][j]
  {
    if i == 0 then e[0][j]
    else e[i][j] + Min3(Cum(e, i - 1, LeftOf(j)), Cum(e, i - 1, j), Cum(e, i - 1, RightOf(j, Cols(e))))
  }

  /** Row i of the cumulative-cost map. */
  function CumRow(e: seq<seq<int>>, i: nat): (r: seq<int>)
    requires IsGrid(e) && i < |e|
    ensures |r| == Cols(e) && forall j :: 0 <= j < |r| ==> r[j] == Cum(e, i, j)
  {
    seq(Cols(e), j requires 0 <= j < Cols(e) => Cum(e, i, j))
  }

  /** The whole cumulative-cost map. */
  function Cumulative(e: seq<seq<int>>): (c: seq<seq<int>>)
    requires IsGrid(e)
    ensures |c| == |e| && IsGrid(c) && Cols(c) == Cols(e)
    ensures forall i :: 0 <= i < |c| ==> c[i] == CumRow(e, i)
  {
    seq(|e|, i requires 0 <= i < |e| => CumRow(e, i))
  }

  /** One cell of a row below row 0 from the three clamped cells above it. */
  lemma CumStep(e: seq<seq<int>>, i: nat, j: nat, l: int, m: int, r: int)
    requires IsGrid(e) && 1 <= i < |e| && j < Cols(e)
    requires l == Cum(e, i - 1, LeftOf(j)) && m == Cum(e, i - 1, j) && r == Cum(e, i - 1, RightOf(j, Cols(e)))
    ensures e[i][j] + Min3(l, m, r) == Cum(e, i, j)
  {
  }

  /** Row 0 of the map is row 0 of the gradient grid. */
  lemma CumulativeTopRow(e: seq<seq<int>>)
    requires IsGrid(e)
    ensures Cumulative(e)[0] == e[0]
  {
    assert forall j :: 0 <= j < Cols(e) ==> Cumulative(e)[0][j] == e[0][j];
  }

  /** The recurrence: below row 0 each cell adds the least of its three
      clamped upper neighbours. */
  lemma CumulativeRecurrence(e: seq<seq<int>>, i: nat, j: nat)
    requires IsGrid(e) && 1 <= i < |e| && j < Cols(e)
    ensures Cumulative(e)[i][j] == e[i][j] + Min3(Cumulative(e)[i - 1][LeftOf(j)],
                                                  Cumulative(e)[i - 1][j],
                                                  Cumulative(e)[i - 1][RightOf(j, Cols(e))])
  {
  }

  /** The clamped triple (LeftOf(j), j, RightOf(j)) is exactly the in-range
      neighbourhood of j, so its minimum is below every adjacent column. */
  lemma ClampedMinIsNeighbourMin(prev: seq<int>, j: nat, k: int)
    requires j < |prev| && 0 <= k < |prev| && Adjacent(j, k)
    ensures Min3(prev[LeftOf(j)], prev[j], prev[RightOf(j, |prev|)]) <= prev[k]
  {
    if k == j - 1 {
      assert LeftOf(j) == k;
    } else if k == j + 1 {
      assert RightOf(j, |prev|) == k;
    }
  }

  lemma {:induction false} PathCostAppend(e: seq<seq<int>>, p: seq<int>, j: int)
    requires IsGrid(e) && |p| < |e| && 0 <= j < Cols(e) && IsPath(p + [j], Cols(e))
    ensures IsPath(p, Cols(e))
    ensures PathCost(e, p + [j]) == PathCost(e, p) + e[|p|][j]
  {
    var q := p + [j];
    assert forall k :: 0 <= k < |p| ==> p[k] == q[k];
    assert forall k :: 0 <= k < |p| - 1 ==> AdjacentAt(q, k) ==> AdjacentAt(p, k);
    assert q[..|q| - 1] == p;
  }

  /** No 8-connected path from row 0 to cell (|p| - 1, last of p) costs less
      than the map's value at that cell. */
  lemma {:induction false} CumulativeIsLowerBound(e: seq<seq<int>>, p: seq<int>)
    requires IsGrid(e) && 1 <= |p| <= |e| && IsPath(p, Cols(e))
    ensures PathCost(e, p) >= Cum(e, |p| - 1, p[|p| - 1])
  {
    var n := |p|;
    var j := p[n - 1];
    if n == 1 {
      assert p == [] + [j];
      PathCostAppend(e, [], j);
    } else {
      var q := p[..n - 1];
      assert p == q + [j];
      PathCostAppend(e, q, j);
      CumulativeIsLowerBound(e, q);
      var prev := CumRow(e, n - 2);
      assert AdjacentAt(p, n - 2);
      ClampedMinIsNeighbourMin(prev, j, q[n - 2]);
    }
  }

  /** An upper neighbour of cell (i, j) of least cumulative cost; the cell's
      cumulative cost is its energy plus that neighbour's. */
  function BestAbove(e: seq<seq<int>>, i: nat, j: nat): (k: nat)
    requires IsGrid(e) && 1 <= i < |e| && j < Cols(e)
    ensures k < Cols(e) && Adjacent(j, k)
    ensures Cum(e, i, j) == e[i][j] + Cum(e, i - 1, k)
  {
    var l, r := LeftOf(j), RightOf(j, Cols(e));
    var cl, cj, cr := Cum(e, i - 1, l), Cum(e, i - 1, j), Cum(e, i - 1, r);
    CumStep(e, i, j, cl, cj, cr);
    if cl <= cj && cl <= cr then l
    else if cj <= cr then j
    else r
  }

  /** A path from row 0 to cell (i, j) that steps, row by row, to an upper
      neighbour of least cumulative cost. */
  function CheapestPath(e: seq<seq<int>>, i: nat, j: nat): (p: seq<int>)
    requires IsGrid(e) && i < |e| && j < Cols(e)
    ensures |p| == i + 1 && IsPath(p, Cols(e)) && p[i] == j
    decreases i
  {
    if i == 0 then
      PathExtend([], j, Cols(e));
      [] + [j]
    else
      var q := CheapestPath(e, i - 1, BestAbove(e, i, j));
      PathExtend(q, j, Cols(e));
      q + [j]
  }

  /** The cheapest path costs exactly the map's value at its end. */
  lemma {:induction false} CheapestPathCost(e: seq<seq<int>>, i: nat, j: nat)
    requires IsGrid(e) && i < |e| && j < Cols(e)
    ensures PathCost(e, CheapestPath(e, i, j)) == Cum(e, i, j)
    decreases i
  {
    var p := CheapestPath(e, i, j);
    if i == 0 {
      assert p == [] + [j];
      PathCostAppend(e, [], j);
    } else {
      var k := BestAbove(e, i, j);
      var q := CheapestPath(e, i - 1, k);
      assert p == q + [j];
      CheapestPathCost(e, i - 1, k);
      PathCostAppend(e, q, j);
    }
  }

  /** The map's value at (i, j) is the least total energy of an 8-connected
      path from row 0 to (i, j): it is attained, and nothing is cheaper. */
  lemma CumulativeIsMinimalPathCost(e: seq<seq<int>>, i: nat, j: nat)
    requires IsGrid(e) && i < |e| && j < Cols(e)
    ensures exists p :: |p| == i + 1 && IsPath(p, Cols(e)) && p[i] == j
                        && PathCost(e, p) == Cumulative(e)[i][j]
    ensures forall p :: |p| == i + 1 && IsPath(p, Cols(e)) && p[i] == j
                        ==> PathCost(e, p) >= Cumulative(e)[i][j]
  {
    var w := CheapestPath(e, i, j);
    CheapestPathCost(e, i, j);
    assert |w| == i + 1 && IsPath(w, Cols(e)) && w[i] == j && PathCost(e, w) == Cumulative(e)[i][j];
    forall p | |p| == i + 1 && IsPath(p, Cols(e)) && p[i] == j
      ensures PathCost(e, p) >= Cumulative(e)[i][j]
    {
      CumulativeIsLowerBound(e, p);
    }
  }

  /** `vertical_energy_map` with the gradient grid as input: a fresh copy of
      the grid, then, row by row from row 1, each cell increased in place by
      the least of its three clamped upper neighbours. */
  method VerticalEnergyMap(grad: array2<int>) returns (energy: array2<int>)
    requires grad.Length0 >= 1
    ensures fresh(energy) && unchanged(grad)
    ensures energy.Length0 == grad.Length0 && energy.Length1 == grad.Length1
    ensures ToRows(energy) == Cumulative(ToRows(grad))
  {
    var rows, cols := grad.Length0, grad.Length1;
    ghost var g := ToRows(grad);
    ToRowsIsGrid(grad);
    energy := new int[rows, cols]((i, j) reads grad =>
      if 0 <= i < rows && 0 <= j < cols then grad[i, j] else 0);
    var i := 1;
    while i < rows
      invariant 1 <= i <= rows
      invariant forall r, k :: 0 <= r < i && 0 <= k < cols ==> energy[r, k] == Cum(g, r, k)
      invariant forall r, k :: i <= r < rows && 0 <= k < cols ==> energy[r, k] == g[r][k]
    {
      AccumulateRow(energy, i, g);
      i := i + 1;
    }
    ToRowsFromCells(energy, Cumulative(g));
  }

  /** The inner loop of `vertical_energy_map`: row i, still holding its
      gradient energies, receives in each cell the least of the three clamped
      cells above it, which already hold cumulative costs. */
  method AccumulateRow(energy: array2<int>, i: nat, ghost g: seq<seq<int>>)
    requires IsGrid(g) && |g| == energy.Length0 && Cols(g) == energy.Length1
    requires 1 <= i < energy.Length0
    requires forall r, k :: 0 <= r < i && 0 <= k < energy.Length1 ==> energy[r, k] == Cum(g, r, k)
    requires forall k :: 0 <= k < energy.Length1 ==> energy[i, k] == g[i][k]
    modifies energy
    ensures forall k :: 0 <= k < energy.Length1 ==> energy[i, k] == Cum(g, i, k)
    ensures forall r, k :: 0 <= r < energy.Length0 && r != i && 0 <= k < energy.Length1 ==>
              energy[r, k] == old(energy[r, k])
  {
    var cols := energy.Length1;
    var j := 0;
    while j < cols
      invariant 0 <= j <= cols
      invariant forall k :: 0 <= k < j ==> energy[i, k] == Cum(g, i, k)
      invariant forall k :: j <= k < cols ==> energy[i, k] == g[i][k]
      invariant forall r, k :: 0 <= r < energy.Length0 && r != i && 0 <= k < cols ==>
                  energy[r, k] == old(energy[r, k])
    {
      var topRowNeighbors := (energy[i - 1, if j > 0 then j - 1 else j],
                              energy[i - 1, j],
                              energy[i - 1, if j < cols - 1 then j + 1 else j]);
      CumStep(g, i, j, topRowNeighbors.0, topRowNeighbors.1, topRowNeighbors.2);
      energy[i, j] := energy[i, j] + Min3(topRowNeighbors.0, topRowNeighbors.1, topRowNeighbors.2);
      j := j + 1;
    }
  }
}
