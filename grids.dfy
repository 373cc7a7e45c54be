/** Rectangular grids, the clamped neighbour indices shared by the
    cumulative-cost builder and the seam selector, vertical paths through a
    grid and their cost, and deletion of one element from a row. */
module Grids {

  /** A grid of at least one row whose rows all have the same length. */
  predicate IsGrid<T>(g: seq<seq<T>>)
  {
    |g| >= 1 && forall i :: 0 <= i < |g| ==> |g[i]| == |g[0]|
  }

  function Cols<T>(g: seq<seq<T>>): nat
    requires |g| >= 1
  {
    |g[0]|
  }

  /** Row i of a two-dimensional array, as a value. */
  function RowOf<T>(a: array2<T>, i: nat): (r: seq<T>)
    requires i < a.Length0
    reads a
    ensures |r| == a.Length1 && forall j :: 0 <= j < a.Length1 ==> r[j] == a[i, j]
  {
    seq(a.Length1, j requires 0 <= j < a.Length1 reads a => a[i, j])
  }

  /** The first n rows of a two-dimensional array. */
  function RowsUpTo<T>(a: array2<T>, n: nat): (g: seq<seq<T>>)
    requires n <= a.Length0
    reads a
    ensures |g| == n && forall i :: 0 <= i < n ==> g[i] == RowOf(a, i)
  {
    if n == 0 then [] else RowsUpTo(a, n - 1) + [RowOf(a, n - 1)]
  }

  /** The rows of a two-dimensional array, as values. */
  function ToRows<T>(a: array2<T>): (g: seq<seq<T>>)
    reads a
    ensures |g| == a.Length0
    ensures forall i :: 0 <= i < a.Length0 ==> |g[i]| == a.Length1
    ensures forall i, j :: 0 <= i < a.Length0 && 0 <= j < a.Length1 ==> g[i][j] == a[i, j]
  {
    RowsUpTo(a, a.Length0)
  }

  lemma ToRowsIsGrid<T>(a: array2<T>)
    requires a.Length0 >= 1
    ensures IsGrid(ToRows(a)) && Cols(ToRows(a)) == a.Length1
  {
  }

  /** An array holds the grid c when it agrees with c cell by cell. */
  lemma ToRowsFromCells<T>(a: array2<T>, c: seq<seq<T>>)
    requires |c| == a.Length0
    requires forall i :: 0 <= i < |c| ==> |c[i]| == a.Length1
    requires forall i, j :: 0 <= i < a.Length0 && 0 <= j < a.Length1 ==> a[i, j] == c[i][j]
    ensures ToRows(a) == c
  {
    var g := ToRows(a);
    forall i | 0 <= i < |c|
      ensures g[i] == c[i]
    {
      assert forall j :: 0 <= j < a.Length1 ==> g[i][j] == c[i][j];
    }
  }

  /** The left upper neighbour of column j, clamped to column 0. */
  function LeftOf(j: nat): (k: nat)
    ensures k <= j && j - k <= 1
    ensures k == j <==> j == 0
  {
    if j > 0 then j - 1 else j
  }

  /** The right upper neighbour of column j in a row of `cols` columns,
      clamped to the last column. */
  function RightOf(j: nat, cols: nat): (k: nat)
    requires j < cols
    ensures j <= k < cols && k - j <= 1
    ensures k == j <==> j == cols - 1
  {
    if j < cols - 1 then j + 1 else j
  }

  /** Python's `min` of a three-element list: one of the three, and no
      larger than any of them. */
  function Min3(a: int, b: int, c: int): (m: int)
    ensures m <= a && m <= b && m <= c
    ensures m == a || m == b || m == c
  {
    if a <= b && a <= c then a else if b <= c then b else c
  }

  /** Column k is one of the (at most three) columns above-or-beside column j. */
  predicate Adjacent(j: int, k: int)
  {
    -1 <= k - j <= 1
  }

  /** A vertical 8-connected path: one in-range column per row, consecutive
      columns at most one apart. The order of rows is not part of the notion:
      the same sequence read backwards is a path too. */
  predicate IsPath(p: seq<int>, cols: nat)
  {
    (forall k :: 0 <= k < |p| ==> 0 <= p[k] < cols) &&
    (forall k :: 0 <= k < |p| - 1 ==> AdjacentAt(p, k))
  }

  /** Entries k and k + 1 of p are adjacent columns. */
  predicate AdjacentAt(p: seq<int>, k: nat)
    requires k + 1 < |p|
  {
    Adjacent(p[k], p[k + 1])
  }

  /** The total energy of the cells (k, p[k]) of a path that starts at row 0. */
  function PathCost(e: seq<seq<int>>, p: seq<int>): int
    requires IsGrid(e) && |p| <= |e| && IsPath(p, Cols(e))
  {
    if p == [] then 0
    else
      PathPrefix(p, |p| - 1, Cols(e));
      PathCost(e, p[..|p| - 1]) + e[|p| - 1][p[|p| - 1]]
  }

  /** Every prefix of a path is a path. */
  lemma PathPrefix(p: seq<int>, m: nat, cols: nat)
    requires IsPath(p, cols) && m <= |p|
    ensures IsPath(p[..m], cols)
  {
    var q := p[..m];
    forall k | 0 <= k < |q| - 1
      ensures AdjacentAt(q, k)
    {
      assert AdjacentAt(p, k);
    }
  }

  function Reverse<T>(s: seq<T>): (r: seq<T>)
    ensures |r| == |s|
    ensures forall k :: 0 <= k < |s| ==> r[k] == s[|s| - 1 - k]
  {
    if s == [] then [] else Reverse(s[1..]) + [s[0]]
  }

  /** A path extended by an in-range column adjacent to its last one. */
  lemma PathExtend(q: seq<int>, j: int, cols: nat)
    requires IsPath(q, cols) && 0 <= j < cols
    requires |q| >= 1 ==> Adjacent(q[|q| - 1], j)
    ensures IsPath(q + [j], cols)
  {
    var p := q + [j];
    assert forall k :: 0 <= k < |q| ==> p[k] == q[k];
    forall k | 0 <= k < |p| - 1
      ensures AdjacentAt(p, k)
    {
      if k < |q| - 1 {
        assert AdjacentAt(q, k);
      }
    }
  }

  lemma {:induction false} ReversedPathIsPath(p: seq<int>, cols: nat)
    requires IsPath(p, cols)
    ensures IsPath(Reverse(p), cols)
  {
    var r := Reverse(p);
    forall k | 0 <= k < |r| - 1
      ensures AdjacentAt(r, k)
    {
      assert r[k] == p[|p| - 1 - k] && r[k + 1] == p[|p| - 2 - k];
      assert AdjacentAt(p, |p| - 2 - k);
    }
  }

  /** Clamps a column to [0, hi]. */
  function Clamp(k: int, hi: nat): (c: nat)
    ensures c <= hi
    ensures 0 <= k <= hi ==> c == k
    ensures k < 0 ==> c == 0
    ensures k > hi ==> c == hi
  {
    if k < 0 then 0 else if k > hi then hi else k
  }

  /** The row s with its element at index k deleted: one element shorter,
      the elements before k kept in place and the ones after k shifted one
      place to the left. */
  function RemoveAt<T>(s: seq<T>, k: nat): (r: seq<T>)
    requires k < |s|
    ensures |r| == |s| - 1
    ensures forall j :: 0 <= j < k ==> r[j] == s[j]
    ensures forall j :: k <= j < |s| - 1 ==> r[j] == s[j + 1]
  {
    s[..k] + s[k + 1..]
  }

  /** Exactly one element is deleted: the row is recovered by putting s[k]
      back at index k, and the multiset loses exactly s[k]. */
  lemma RemoveAtRoundTrip<T>(s: seq<T>, k: nat)
    requires k < |s|
    ensures RemoveAt(s, k)[..k] + [s[k]] + RemoveAt(s, k)[k..] == s
    ensures multiset(RemoveAt(s, k)) + multiset{s[k]} == multiset(s)
  {
    var r := RemoveAt(s, k);
    assert r[..k] == s[..k];
    assert r[k..] == s[k + 1..];
    assert s == s[..k] + [s[k]] + s[k + 1..];
  }

  /** A row that agrees with s below index k and with s shifted left from
      index k on is s with index k deleted. */
  lemma ShiftedRowIsRemoveAt<T>(s: seq<T>, r: seq<T>, k: nat)
    requires k < |s| && |r| == |s| - 1
    requires forall j :: 0 <= j < k ==> r[j] == s[j]
    requires forall j :: k <= j < |r| ==> r[j] == s[j + 1]
    ensures r == RemoveAt(s, k)
  {
    var d := RemoveAt(s, k);
    forall j | 0 <= j < |r|
      ensures r[j] == d[j]
    {
      if j < k {
        assert r[j] == s[j];
      } else {
        assert r[j] == s[j + 1];
      }
    }
  }
}
