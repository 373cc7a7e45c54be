/** The backtrace of `vertical_find_seam`: start at the first minimum of the
    last cumulative row and walk upwards with the source's own neighbour rule,
    appending one column per row. The list is built bottom row first and is
    returned in that order. */
module SeamSelector {
  import opened Grids

  /** `np.argmin`: the lowest index holding the least value of a non-empty row. */
  function ArgMin(s: seq<int>): (k: nat)
    requires |s| >= 1
    ensures k < |s|
    ensures forall j :: 0 <= j < |s| ==> s[k] <= s[j]
    ensures forall j :: 0 <= j < k ==> s[k] < s[j]
  {
    if |s| == 1 then 0
    else
      var k := ArgMin(s[..|s| - 1]);
      assert forall j :: 0 <= j < |s| - 1 ==> s[..|s| - 1][j] == s[j];
      if s[|s| - 1] < s[k] then |s| - 1 else k
  }

  /** The column chosen in the row above when the seam is at column `last`
      (seam_carver.py:64-77). The left neighbour is admitted only from
      column 2 on, and the right neighbour is taken relative to the column
      already chosen, so once the left one is adopted column last + 1 is not
      examined. Ties keep the current column. */
  function Step(row: seq<int>, last: int): (next: int)
    requires 0 <= last < |row|
    ensures next == if last >= 2 && row[last - 1] < row[last] then last - 1
                    else if last + 1 < |row| && row[last + 1] < row[last] then last + 1
                    else last
    ensures 0 <= next < |row| && Adjacent(last, next) && row[next] <= row[last]
    ensures last >= 1 ==> next >= 1
  {
    var best := if last - 1 > 0 && row[last - 1] < row[last] then last - 1 else last;
    if best + 1 < |row| && row[best + 1] < row[best] then best + 1 else best
  }

  /** The first n entries of the seam list for the cumulative grid cum,
      bottom row first: entry k is the column chosen for row |cum| - 1 - k. */
  function Trace(cum: seq<seq<int>>, n: nat): (s: seq<int>)
    requires IsGrid(cum) && Cols(cum) >= 1 && 1 <= n <= |cum|
    ensures |s| == n
    ensures forall k :: 0 <= k < n ==> 0 <= s[k] < Cols(cum)
  {
    if n == 1 then [ArgMin(cum[|cum| - 1])]
    else
      var s := Trace(cum, n - 1);
      s + [Step(cum[|cum| - n], s[n - 2])]
  }

  /** One more row of the walk: the rule applied to the last entry. */
  lemma TraceNext(cum: seq<seq<int>>, n: nat)
    requires IsGrid(cum) && Cols(cum) >= 1 && 1 <= n < |cum|
    ensures Trace(cum, n + 1) == Trace(cum, n) + [Step(cum[|cum| - 1 - n], Trace(cum, n)[n - 1])]
  {
  }

  /** The seam list `vertical_find_seam` returns: one entry per row, the
      first being the first minimum of the last row. */
  function Backtrace(cum: seq<seq<int>>): (s: seq<int>)
    requires IsGrid(cum) && Cols(cum) >= 1
    ensures |s| == |cum| && s[0] == ArgMin(cum[|cum| - 1])
  {
    TracePrefix(cum, 1, |cum|);
    assert Trace(cum, |cum|)[0] == Trace(cum, |cum|)[..1][0];
    Trace(cum, |cum|)
  }

  /** A shorter trace is a prefix of a longer one. */
  lemma {:induction false} TracePrefix(cum: seq<seq<int>>, m: nat, n: nat)
    requires IsGrid(cum) && Cols(cum) >= 1 && 1 <= m <= n <= |cum|
    ensures Trace(cum, n)[..m] == Trace(cum, m)
    decreases n
  {
    if m < n {
      TracePrefix(cum, m, n - 1);
      assert Trace(cum, n)[..n - 1] == Trace(cum, n - 1);
      assert Trace(cum, n)[..m] == Trace(cum, n)[..n - 1][..m];
    }
  }

  /** The seam list has one entry per row; its first entry is the first
      minimum of the last row, and entry k + 1 is the neighbour rule applied
      to entry k in row |cum| - 2 - k. */
  lemma BacktraceEntries(cum: seq<seq<int>>)
    requires IsGrid(cum) && Cols(cum) >= 1
    ensures |Backtrace(cum)| == |cum|
    ensures Backtrace(cum)[0] == ArgMin(cum[|cum| - 1])
    ensures forall k :: 0 <= k < |cum| - 1 ==>
              Backtrace(cum)[k + 1] == Step(cum[|cum| - 2 - k], Backtrace(cum)[k])
  {
    var s := Backtrace(cum);
    TracePrefix(cum, 1, |cum|);
    assert s[0] == s[..1][0];
    forall k | 0 <= k < |cum| - 1
      ensures s[k + 1] == Step(cum[|cum| - 2 - k], s[k])
    {
      TracePrefix(cum, k + 2, |cum|);
      var t := Trace(cum, k + 2);
      assert s[k + 1] == t[k + 1] && s[k] == t[k];
    }
  }

  /** Every trace is a vertical 8-connected path. */
  lemma {:induction false} TraceIsPath(cum: seq<seq<int>>, n: nat)
    requires IsGrid(cum) && Cols(cum) >= 1 && 1 <= n <= |cum|
    ensures IsPath(Trace(cum, n), Cols(cum))
  {
    if n > 1 {
      var s := Trace(cum, n - 1);
      TraceIsPath(cum, n - 1);
      PathExtend(s, Step(cum[|cum| - n], s[n - 2]), Cols(cum));
    }
  }

  /** Seam validity: one in-range column per row, consecutive columns at most
      one apart. */
  lemma BacktraceIsSeam(cum: seq<seq<int>>)
    requires IsGrid(cum) && Cols(cum) >= 1
    ensures |Backtrace(cum)| == |cum| && IsPath(Backtrace(cum), Cols(cum))
  {
    TraceIsPath(cum, |cum|);
  }

  /** Column 0 is never re-entered: once an entry is at least 1, so are all
      later ones, so the zero entries form a prefix of the list. */
  lemma {:induction false} TraceLeavesColumnZero(cum: seq<seq<int>>, n: nat)
    requires IsGrid(cum) && Cols(cum) >= 1 && 1 <= n <= |cum|
    ensures forall a, b :: 0 <= a <= b < n && Trace(cum, n)[a] >= 1 ==> Trace(cum, n)[b] >= 1
  {
    if n > 1 {
      TraceLeavesColumnZero(cum, n - 1);
      var s := Trace(cum, n - 1);
      var t := Trace(cum, n);
      assert t == s + [Step(cum[|cum| - n], s[n - 2])];
      forall a, b | 0 <= a <= b < n && t[a] >= 1
        ensures t[b] >= 1
      {
        if b < n - 1 {
          assert t[a] == s[a] && t[b] == s[b];
        } else if a < n - 1 {
          assert t[a] == s[a];
          assert s[n - 2] >= 1;
        }
      }
    }
  }

  lemma BacktraceLeavesColumnZero(cum: seq<seq<int>>)
    requires IsGrid(cum) && Cols(cum) >= 1
    ensures forall a, b :: 0 <= a <= b < |Backtrace(cum)| && Backtrace(cum)[a] >= 1 ==> Backtrace(cum)[b] >= 1
  {
    TraceLeavesColumnZero(cum, |cum|);
  }

  /** The list is bottom row first, but the cells (i, s[i]) that removal
      deletes still form a vertical seam, and reading the list backwards
      gives, in top-row order, the column the rule chose for each row: the
      last entry for row |cum| - 1 is the first minimum, and each row's column
      is the rule applied to the column of the row below it. */
  lemma BacktraceMirrored(cum: seq<seq<int>>)
    requires IsGrid(cum) && Cols(cum) >= 1
    ensures IsPath(Reverse(Backtrace(cum)), Cols(cum))
    ensures |Reverse(Backtrace(cum))| == |cum|
    ensures Reverse(Backtrace(cum))[|cum| - 1] == ArgMin(cum[|cum| - 1])
    ensures forall i :: 0 <= i < |cum| - 1 ==>
              Reverse(Backtrace(cum))[i] == Step(cum[i], Reverse(Backtrace(cum))[i + 1])
  {
    var s := Backtrace(cum);
    var r := Reverse(s);
    BacktraceEntries(cum);
    BacktraceIsSeam(cum);
    ReversedPathIsPath(s, Cols(cum));
    forall i | 0 <= i < |cum| - 1
      ensures r[i] == Step(cum[i], r[i + 1])
    {
      var k := |cum| - 2 - i;
      assert r[i] == s[k + 1] && r[i + 1] == s[k];
    }
  }

  /** The seam list obtained by continuing the walk from the partial list s
      up to the top row. */
  function TraceFrom(cum: seq<seq<int>>, s: seq<int>): (r: seq<int>)
    requires IsGrid(cum) && Cols(cum) >= 1 && 1 <= |s| <= |cum|
    requires forall k :: 0 <= k < |s| ==> 0 <= s[k] < Cols(cum)
    decreases |cum| - |s|
  {
    if |s| == |cum| then s
    else TraceFrom(cum, s + [Step(cum[|cum| - 1 - |s|], s[|s| - 1])])
  }

  /** Continuing a trace of n rows to the top gives the whole seam list. */
  lemma {:induction false} TraceFromTrace(cum: seq<seq<int>>, n: nat)
    requires IsGrid(cum) && Cols(cum) >= 1 && 1 <= n <= |cum|
    ensures TraceFrom(cum, Trace(cum, n)) == Backtrace(cum)
    decreases |cum| - n
  {
    if n < |cum| {
      TraceNext(cum, n);
      TraceFromTrace(cum, n + 1);
    }
  }

  /** One iteration of the loop of `vertical_find_seam`: from column `last`
      of the row below, the column chosen in row i, reassigning the candidate
      pair (column, cost) as the source does. */
  method NextColumn(energy: array2<int>, i: nat, last: int) returns (next: int)
    requires i < energy.Length0 && 0 <= last < energy.Length1
    ensures next == Step(RowOf(energy, i), last)
  {
    ghost var row := RowOf(energy, i);
    var potentialNext := (last, energy[i, last]);
    if potentialNext.0 - 1 > 0 {
      var potentialNext2 := (potentialNext.0 - 1, energy[i, potentialNext.0 - 1]);
      if potentialNext2.1 < potentialNext.1 {
        potentialNext := potentialNext2;
      }
    }
    assert potentialNext.1 == row[potentialNext.0];
    if potentialNext.0 + 1 < energy.Length1 {
      var potentialNext2 := (potentialNext.0 + 1, energy[i, potentialNext.0 + 1]);
      if potentialNext2.1 < potentialNext.1 {
        potentialNext := potentialNext2;
      }
    }
    next := potentialNext.0;
  }

  /** `vertical_find_seam` over the cumulative map. */
  method VerticalFindSeam(energy: array2<int>) returns (seam: seq<int>)
    requires energy.Length0 >= 1 && energy.Length1 >= 1
    ensures seam == Backtrace(ToRows(energy))
    ensures |seam| == energy.Length0 && IsPath(seam, energy.Length1)
  {
    ghost var cum := ToRows(energy);
    ToRowsIsGrid(energy);
    var rows, cols := energy.Length0, energy.Length1;
    seam := [ArgMin(ToRows(energy)[rows - 1])];
    TraceFromTrace(cum, 1);
    var i := rows - 2;
    while i >= 0
      invariant -1 <= i <= rows - 2
      invariant |seam| == rows - 1 - i
      invariant forall k :: 0 <= k < |seam| ==> 0 <= seam[k] < cols
      invariant TraceFrom(cum, seam) == Backtrace(cum)
    {
      var next := NextColumn(energy, i, seam[|seam| - 1]);
      seam := seam + [next];
      i := i - 1;
    }
    BacktraceIsSeam(cum);
  }
}
