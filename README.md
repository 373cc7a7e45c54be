# Seam carving: one vertical seam, verified

This project models the seam-carving engine of `seam_carver.py`. Each call
to `vertical_seam_carve` removes one vertical seam from an image. A seam is
one pixel per row, and the pixels of consecutive rows lie in the same or
neighbouring columns. One call runs three stages:

- `vertical_energy_map` copies the gradient grid. Then, row by row from row
  1, it adds to every cell the least cumulative cost among its three upper
  neighbours. The left and right neighbours are clamped at the edges.
- `vertical_find_seam` starts at the first minimum of the last cumulative
  row and walks upwards with its own greedy neighbour rule, appending one
  column per row.
- The removal loop of `vertical_seam_carve` builds an image one column
  narrower. Row i is the input row with the pixel at column `seam[i]` deleted.

Grids that the source mutates in place are `array2` values in the methods:
the copied energy map and the fresh output image. The same grids are
`seq<seq<_>>` values in the specification functions, and `Grids.ToRows`
bridges the two. Energies are exact integers. Pixels have an opaque type,
because removal only moves them. The gradient grid is an input of the
carve, since `compute_grad` is not part of this model.

The neighbour rule is modelled exactly as the code has it:

- the left neighbour is admitted only from column 2 on (line 68 tests
  `potential_next[0] - 1 > 0`);
- the right neighbour is taken relative to the column already chosen
  (line 73), so once the left neighbour is adopted, column `c + 1` is never
  examined;
- ties keep the current column;
- the seam list is built bottom row first and returned unreversed.

The removal loop still reads entry i as the column of row i. The deleted
cells form a seam anyway, mirrored vertically.

A seam carver deletes a seam of least total energy, and the cumulative map
of lines 81-93 is built for that: each cell adds the cheapest of its three
clamped neighbours above, column 0 included (line 89). The comment at lines
53-54 says the loop deletes the pixel on the seam. The rule of lines 64-77
departs from that cheapest-neighbour choice, and the unreversed list departs
from a top-first seam, so the carve can delete a costlier seam than the map
describes. The test `j < seam[i]` at line 55 never fails: it acts as if the
entry were clamped to `[0, cols - 1]`, and `SeamRemover.RemoveSeam` states
exactly that. The model follows the code throughout. The cheapest-neighbour,
top-first selector is modelled separately in `IntendedSelector`, and the
mismatches are under "Findings".

Modules: `Grids` (grids, clamped neighbours, paths and their cost, row
deletion), `CumulativeCost`, `SeamSelector`, `SeamRemover`, `Carver` (the
composition), `IntendedSelector` (the corrected selector) and `Findings`
(counterexamples and worked scenarios).

## Model

| member | source | states |
|---|---|---|
| Grids.LeftOf | seam_carver.py:89 | The clamped left neighbour: `j - 1` when `j > 0`, otherwise `j`, so it is at most one column left and equals `j` exactly at column 0. |
| Grids.RightOf | seam_carver.py:91 | The clamped right neighbour: in range, at most one column right, and equal to `j` exactly at the last column. |
| Grids.PathPrefix | seam_carver.py:62-78 | Every prefix of a vertical 8-connected path is a path. |
| Grids.PathExtend | seam_carver.py:78 | Appending an in-range column adjacent to the last one keeps a list a path, which is how the seam grows. |
| Grids.ReversedPathIsPath | seam_carver.py:55 | A path read backwards is still a path, so the unreversed list still describes a seam. |
| Grids.Clamp | seam_carver.py:55 | Clamping to `[0, hi]` leaves in-range values unchanged and sends values below to 0 and values above to `hi`. |
| Grids.Min3 | seam_carver.py:92 | Python's `min` of the three neighbours: it is one of them and no larger than any of them. |
| Grids.RemoveAt | seam_carver.py:55-58 | Deleting index k shortens the row by one, keeps every element before k, and shifts every element after k one place left. |
| Grids.RemoveAtRoundTrip | seam_carver.py:50-58 | Exactly one element is deleted: putting `s[k]` back at k gives the row again, and the multiset loses exactly `s[k]`. |
| Grids.ShiftedRowIsRemoveAt | seam_carver.py:55-58 | A row that copies cells left of k and copies shifted cells from k on is the input row with index k deleted. |
| Grids.ToRowsIsGrid | seam_carver.py:44 | The rows of a two-dimensional array form a rectangular grid with the array's width. |
| Grids.ToRowsFromCells | seam_carver.py:85-92 | An array that agrees with a grid cell by cell has that grid as its rows. |
| CumulativeCost.Cum | seam_carver.py:85-92 | The cumulative cost of a cell: in row 0 exactly the cell's gradient energy (the copy of line 85). Below row 0 the value follows the recurrence of lines 86-92, stated in `CumulativeRecurrence` and proved minimal in `CumulativeIsMinimalPathCost`. |
| CumulativeCost.CumRow | seam_carver.py:87-92 | A row of the map has the grid's width, and each cell is that cell's cumulative cost. |
| CumulativeCost.Cumulative | seam_carver.py:83-86 | The map has the input's rows and columns, and row i is the i-th row of cumulative costs. |
| CumulativeCost.CumulativeTopRow | seam_carver.py:85-86 | Row 0 of the map is row 0 of the gradient grid exactly. |
| CumulativeCost.CumulativeRecurrence | seam_carver.py:86-92 | For i ≥ 1, `cum[i][j] = e[i][j] + min(cum[i-1][max(j-1,0)], cum[i-1][j], cum[i-1][min(j+1,cols-1)])`. |
| CumulativeCost.CumStep | seam_carver.py:88-92 | A cell's energy plus the minimum of the three clamped cells above it, once those hold their cumulative costs, is the cell's cumulative cost. |
| CumulativeCost.ClampedMinIsNeighbourMin | seam_carver.py:88-92 | The minimum of the clamped triple is at most the value at every in-range adjacent column. |
| CumulativeCost.PathCostAppend | seam_carver.py:92 | The cost of a path grows by the energy of each appended cell. |
| CumulativeCost.CumulativeIsLowerBound | seam_carver.py:86-92 | No 8-connected path from row 0 to a cell costs less than the map's value there. |
| CumulativeCost.BestAbove | seam_carver.py:88-92 | Each cell below row 0 has an adjacent upper neighbour whose cumulative cost, plus the cell's energy, is the cell's value. |
| CumulativeCost.CheapestPath | seam_carver.py:86-92 | Following such neighbours upwards gives a path from row 0 that ends at the given cell. |
| CumulativeCost.CheapestPathCost | seam_carver.py:86-92 | That path's cost is exactly the map's value at its end. |
| CumulativeCost.CumulativeIsMinimalPathCost | seam_carver.py:86-92 | `cum[i][j]` is the least total energy of an 8-connected path from row 0 to (i, j): some path attains it and none costs less. |
| CumulativeCost.VerticalEnergyMap | seam_carver.py:81-93 | Returns a fresh grid of the input's rows and columns, leaves the input untouched, and the result's rows are the cumulative-cost map. |
| CumulativeCost.AccumulateRow | seam_carver.py:87-92 | One pass over row i turns its gradient energies into cumulative costs and changes no other row. |
| SeamSelector.ArgMin | seam_carver.py:62 | `np.argmin` returns an in-range index of the least value, and every earlier index holds a strictly larger value. |
| SeamSelector.Step | seam_carver.py:64-77 | From column c the walk picks `c-1` if `c ≥ 2` and it is strictly cheaper. Otherwise it picks `c+1` if that is in range and strictly cheaper, and otherwise it keeps `c`. The result is in range, adjacent, never costlier than c, and never column 0 when c ≥ 1. |
| SeamSelector.Trace | seam_carver.py:62-78 | The first n entries of the list are n columns, each in range. |
| SeamSelector.TraceNext | seam_carver.py:63-78 | Each loop iteration appends the rule's choice for the next row up. |
| SeamSelector.Backtrace | seam_carver.py:61-79 | The list `vertical_find_seam` returns has one entry per row, and its first entry is the first argmin of the last row. |
| SeamSelector.TracePrefix | seam_carver.py:78 | The list only ever grows at its end. |
| SeamSelector.BacktraceEntries | seam_carver.py:62-78 | The seam has `rows` entries. Entry 0 is the first argmin of the last row, and entry k + 1 is the rule applied to entry k in row `rows - 2 - k`. |
| SeamSelector.TraceIsPath | seam_carver.py:62-78 | Every partial list is an 8-connected path. |
| SeamSelector.BacktraceIsSeam | seam_carver.py:62-78 | Seam validity: every entry is in `[0, cols)`, and consecutive entries differ by at most one. |
| SeamSelector.TraceLeavesColumnZero | seam_carver.py:68 | Once a partial list has an entry ≥ 1, every later entry is ≥ 1. |
| SeamSelector.BacktraceLeavesColumnZero | seam_carver.py:68 | Column 0 is never re-entered, so the zero entries of the seam form a prefix. |
| SeamSelector.BacktraceMirrored | seam_carver.py:62-78 | Read backwards, the list is a path in top-row order. Its last entry is the argmin, and each row's column is the rule applied to the column of the row below. |
| SeamSelector.TraceFromTrace | seam_carver.py:63-78 | Continuing the walk from any partial list to the top row gives the whole seam list; this is the loop invariant. |
| SeamSelector.NextColumn | seam_carver.py:64-77 | The reassignments of `potential_next` compute exactly the rule's choice for the row. |
| SeamSelector.VerticalFindSeam | seam_carver.py:61-79 | Returns the seam list of the map: `rows` entries, bottom row first, forming a valid path. |
| SeamRemover.RemoveSeam | seam_carver.py:50-58 | Returns a fresh image of the same height and one column narrower. Row i is input row i with the pixel at `seam[i]` (clamped to the row) deleted. |
| Carver.CarvedSeam | seam_carver.py:46-47 | The seam the carve computes has one entry per row and is a valid path. |
| Carver.CarvedImage | seam_carver.py:42-59 | The image `vertical_seam_carve` returns has the input's height, and every row is one pixel shorter. |
| Carver.CarveDeletesOnePixelPerRow | seam_carver.py:42-59 | The height is unchanged and each row is one pixel shorter. Each row loses exactly its pixel at `seam[i]`, and the deleted cells form a seam. |
| Carver.CarvedSeamMirrored | seam_carver.py:47-58 | Read backwards, the carved seam is in top-row order what the walk chose for each row. |
| Carver.VerticalSeamCarve | seam_carver.py:42-59 | Runs the map, the walk and the removal in turn, and returns a fresh image one column narrower equal to the carve of the input. |
| IntendedSelector.IntendedStep | seam_carver.py:64-77 | The corrected rule: an in-range adjacent column that costs no more than any other in-range adjacent column. |
| IntendedSelector.IntendedCol | seam_carver.py:62-78 | The corrected column for each row is in range. |
| IntendedSelector.IntendedSeam | seam_carver.py:62-78 | The corrected seam has one entry per row, and entry i is the corrected column for row i. |
| IntendedSelector.IntendedSeamEntries | seam_carver.py:62-78 | The corrected seam is top row first. Each row's column is the cheapest neighbour of the column below, and the bottom entry is the argmin. |
| IntendedSelector.IntendedSeamIsSeam | seam_carver.py:62-78 | The corrected seam is an 8-connected path. |
| IntendedSelector.ClampedMinIsAttained | seam_carver.py:88-92 | The clamped minimum equals the value of the cheapest in-range adjacent column. |
| IntendedSelector.IntendedCumStep | seam_carver.py:85-92 | Along the corrected seam the cumulative cost grows by exactly one cell's energy per row. |
| IntendedSelector.FollowingPathCost | seam_carver.py:85-92 | A path that adds each cell's energy to the cumulative cost of the cell above costs, over its first i + 1 rows, the cumulative cost of its row-i cell. |
| IntendedSelector.IntendedSeamFollowsCum | seam_carver.py:85-92 | The corrected seam is a path, and every row of it below row 0 adds its cell's energy to the cumulative cost of the seam's cell above. |
| IntendedSelector.IntendedSeamCost | seam_carver.py:62-92 | The corrected seam costs the least value of the last cumulative row. |
| IntendedSelector.IntendedSeamNoCostlierThan | seam_carver.py:61-93 | The corrected seam costs no more than any given full-height path. |
| IntendedSelector.IntendedSeamIsOptimal | seam_carver.py:61-93 | No 8-connected path through every row costs less than the corrected seam. |
| IntendedSelector.IntendedCarvedImage | seam_carver.py:42-59 | The corrected carve keeps the height and makes every row one pixel shorter. |
| IntendedSelector.IntendedCarveRemovesCheapestSeam | seam_carver.py:42-59 | The corrected carve deletes exactly one pixel per row, along a seam of least total energy. |
| Findings.TwoRowPathCost | seam_carver.py:92 | A two-row path costs the energies of its two cells. |
| Findings.TwoRowBacktrace | seam_carver.py:62-78 | On two rows the list is the argmin of the last row followed by the rule's choice in row 0. |
| Findings.TwoRowIntendedSeam | seam_carver.py:62-78 | On two rows the corrected seam is the corrected choice in row 0 followed by the argmin. |
| Findings.CumulativeLeftGuardGrid | seam_carver.py:81-93 | The map of `[[0,5,5],[5,0,5]]` is `[[0,5,5],[5,0,10]]`. |
| Findings.LeftGuardSkipsColumnZero | seam_carver.py:68 | From column 1 of `[0,5,5]`, the rule stays in column 1. Its carve costs 5, while the corrected seam `[0,1]` costs 0. |
| Findings.RightCandidateFromBest | seam_carver.py:73 | From column 2 of `[9,5,9,0]`, the rule takes column 1 although adjacent column 3 is cheaper. |
| Findings.CumulativeMirrorGrid | seam_carver.py:81-93 | The map of `[[9,9,0],[9,0,9]]` is `[[9,9,0],[18,0,9]]`. |
| Findings.SeamNotReversed | seam_carver.py:55 | On `[[9,9,0],[9,0,9]]` the unreversed list `[1,2]` deletes cells costing 18. The mirrored list `[2,1]` is the corrected seam and costs 0. |
| Findings.CumIsZero | seam_carver.py:86-92 | Every cumulative cost of an all-zero 3 × 3 grid is 0. |
| Findings.CumulativeUniformGrid | seam_carver.py:81-93 | The map of an all-zero 3 × 3 grid is all zeros. |
| Findings.UniformSeam | seam_carver.py:61-79 | Ties keep the column, so the seam of the all-zero map is `[0,0,0]`. |
| Findings.UniformImageDropsFirstColumn | seam_carver.py:42-59 | A 3 × 3 image whose gradient grid is all zero loses column 0 from every row. With the zero-padded Sobel filters of lines 99-100, a black image has that gradient, and so does the greyscale image `[[a,0,a],[0,0,0],[a,0,a]]` for every a. |
| Findings.CumulativeGreyWrappedGrid | seam_carver.py:81-93 | The map of `[[212,200,184],[200,0,56],[184,56,150]]` is `[[212,200,184],[400,184,240],[368,240,334]]`. |
| Findings.CumulativeGreySaturatedGrid | seam_carver.py:81-93 | The map of `[[212,200,150],[200,0,0],[150,0,0]]` is `[[212,200,150],[400,150,150],[300,150,150]]`. |
| Findings.GreyImageSeam | seam_carver.py:61-79 | A uniform grey image (value 50) has, rounded, the gradient `[[212,200,184],[200,0,56],[184,56,150]]` when the 8-bit Sobel passes wrap negatives modulo 256, and `[[212,200,150],[200,0,0],[150,0,0]]` when they saturate at 0. Both give the seam `[1,1,2]`, so the carve deletes column 1 from the top two rows and column 2 from the bottom row. |
| Findings.ArgMinSingleRow | seam_carver.py:62 | The first minimum of `[5,1,3,0,2]` is at index 3. |
| Findings.SingleRowSeam | seam_carver.py:61-79 | The seam of the single-row grid `[[5,1,3,0,2]]` is `[3]`. |
| Findings.SingleRowRemovesMinimum | seam_carver.py:42-59 | Carving that single row removes column 3 and shifts column 4 one place left. |

## Left out

- `main` and `parse_args` (seam_carver.py:10-40): argument parsing, the progress bar, opening and saving files, and printing are I/O. The loop that carves once per requested column is not modelled.
- The row-removal pass (seam_carver.py:22, 26) relies on the image library's `rotate`, a foreign call. Row removal is column removal on the image rotated by 90 degrees.
- `compute_grad` (seam_carver.py:95-101): the greyscale conversion, the Sobel filters and `np.hypot` are foreign library calls. The gradient grid is an input of `Carver.VerticalSeamCarve` and `CumulativeCost.VerticalEnergyMap`.
- CumulativeCost.VerticalEnergyMap: energies and sums are exact integers. In the source, `ndimage.sobel` stores its passes in the uint8 type of the greyscale image, so negative responses are not kept: they wrap around modulo 256 or are clipped to 0, depending on the platform's conversion (`Findings.GreyImageSeam` works through both). `np.hypot` of two uint8 arrays is float16, so the sums at seam_carver.py:92 are float16: they round, and past 65504 they become infinite on tall, busy images. Once the whole last row is infinite, `argmin` picks column 0, and where a row's candidates are all infinite the `<` tests at lines 70 and 75 fail and the seam keeps its column; a finite neighbour still wins them. None of this (wrap-around, float16 rounding, overflow to infinity) is modelled.
- CumulativeCost.VerticalEnergyMap: requires at least one row. On an image with no rows the source raises an IndexError at `grad[0]` (seam_carver.py:83); this error path is not modelled.
- SeamSelector.VerticalFindSeam: requires at least one row and one column. An empty grid fails at `energy[-1]` and an empty row fails in `np.argmin` (seam_carver.py:62); these error paths are not modelled.
- SeamRemover.RemoveSeam: requires a seam entry for every row. A shorter seam makes the source raise an IndexError at `seam[i]` (seam_carver.py:55); this error path is not modelled.
- Carver.VerticalSeamCarve: requires at least one row. On an image with no rows the source raises an IndexError at `img_arr[0]` (seam_carver.py:44); this error path is not modelled.
- Grids.IsGrid: grids have at least one row, so the specification functions (Cumulative, Backtrace, CarvedImage) do not describe the empty image, on which the source fails as above.
- Carver.VerticalSeamCarve: treats `np.asarray`, `np.resize` and `Image.fromarray` (seam_carver.py:43, 50, 59) as a freshly allocated rows × (cols − 1) buffer whose every cell the loop overwrites. Their other behaviour is not modelled.
- Carver.VerticalSeamCarve: requires at least two columns. With one column the source hands a zero-width array to the image library.
- No global optimality is claimed for the source's seam: `Findings.LeftGuardSkipsColumnZero` and `Findings.SeamNotReversed` show that it can cost more than a seam of least energy. The path-cost lemmas need no non-negativity of the energies.

## Findings

| source | as written | input that shows it | evidently intended | confidence | as-written member | corrected member |
|---|---|---|---|---|---|---|
| seam_carver.py:68 | The left neighbour is admitted only when `potential_next[0] - 1 > 0`, so the walk never steps from column 1 to column 0. | Gradient grid `[[0,5,5],[5,0,5]]`: the walk keeps column 1 in row 0 and removes cells costing 5, while path `[0,1]` costs 0. | Admit the left neighbour whenever it is a column (`>= 0`). | not executed | Findings.LeftGuardSkipsColumnZero | IntendedSelector.IntendedStep |
| seam_carver.py:73 | The right candidate is taken relative to the column already chosen, so after a step left, column `c + 1` is never examined. | Row `[9,5,9,0]` from column 2: the rule takes column 1 (cost 5) although column 3 (cost 0) is adjacent. | The cheapest of the in-range columns `c - 1`, `c` and `c + 1`. | not executed | Findings.RightCandidateFromBest | IntendedSelector.IntendedStep |
| seam_carver.py:62-79 | The list is built bottom row first and never reversed, yet line 55 reads entry i as the column of row i. | Gradient grid `[[9,9,0],[9,0,9]]`: the list `[1,2]` deletes cells (0,1) and (1,2), costing 18, while the walk's own cells cost 0. | Reverse the list so that entry i is the column chosen for row i. | not executed | Findings.SeamNotReversed | IntendedSelector.IntendedSeamIsOptimal |
