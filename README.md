# Row reducer: elementary row operations and pivot searches

This project models the core of a small C++ row-reduction program, `reducer/reducer/main.cpp`:

- the three elementary row operations on a dense matrix of doubles:
  - `rowInterchange` swaps two rows through a temporary copy of the second one;
  - `addMultiple` adds a multiple of one row to another;
  - `scaleRow` multiplies one row by a factor;
- the two pivot searches:
  - `getLeftMostCol` finds the left-most nonzero column. It scans one column, sets a by-reference `found` flag, and recurses on the next column while the flag is clear;
  - `getRowLarEnInCol` is meant to find the row whose entry in a column has the largest absolute value.

The matrix (a uBLAS `matrix<double>` in the source) is an `array2<real>` (module `Matrices`). `Length0` is the row count and `Length1` the column count. Its abstract value `Entries(m)` is the list of its rows. Each row operation is a method that changes the array in place, column by column, with a `for` loop, exactly as the source does. Each one promises three things:
- the new entries of the row it writes;
- that every other row is unchanged (`array2` extents cannot change, so the dimensions are kept too);
- that `Entries(m)` afterwards equals a specification function (`Interchanged`, `MultipleAdded`, `RowScaled`) applied to the rows before.

Lemmas about those functions state what the operations undo and when they change nothing. Further lemmas are about the solutions of the homogeneous system `row . x = 0` that the rows stand for. Every solution before an operation is still one afterwards, for every factor and every pair of rows. The set of solutions is kept exactly, with both directions proved, in three cases: an interchange, adding a multiple of a different row, and scaling by a nonzero factor. Adding a multiple of a row to itself and scaling by zero can gain solutions (adding -1 times a row to itself zeroes it), so for those only the one direction holds.

`getLeftMostCol` is a recursive method. `found` is the flag on entry; `found'` is the flag on return. `getRowLarEnInCol` is a loop method proved equal to the function `PivotScan`, which gives the value its `row` variable holds after scanning a column. It is modelled as written: it compares each absolute entry with the running row index, not with a running maximum (see Findings).

Decisions:
- Entries are `real` with exact arithmetic. So the source's `!= 0` tests are exact.
- The `abs` at main.cpp:63 is read as the real absolute value of the entry.
- The source checks no bounds. Row indices therefore carry in-range preconditions. A column is required to be in range only where the source reads it: with no rows, neither search reads any entry.
- `getLeftMostCol` has no upper bound on the column. With its flag clear, it runs past the last column when every column from `col` on is zero. `GetLeftMostCol` therefore requires, when the flag starts clear, that some column at or after `col` holds a nonzero entry.
- The source has no reduction loop. Its only trace is the commented-out call at main.cpp:112-113, so no loop is modelled. main.cpp has no scaled partial pivoting, no row scale factors, no pivot search that starts below a given row, no zeroing pass and no fall-back to the last column; none of these is modelled.

## Model

| member | source | states |
|---|---|---|
| Reducer.RowInterchange | reducer/reducer/main.cpp:12-26 | row `row1` ends up holding the old row `row2` and row `row2` the old row `row1`; every other row is unchanged; the rows are `Interchanged(old rows)` |
| Reducer.Interchanged | reducer/reducer/main.cpp:15-22 | an interchange keeps the row count and only reorders rows (same multiset of rows) |
| Reducer.InterchangeSelf | reducer/reducer/main.cpp:15-22 | interchanging a row with itself leaves the matrix unchanged |
| Reducer.InterchangeTwice | reducer/reducer/main.cpp:15-22 | interchanging the same two rows twice restores the original matrix |
| Reducer.InterchangeKeepsSolutions | reducer/reducer/main.cpp:12-26 | a vector solves every row equation after an interchange if and only if it did before |
| Reducer.AddMultiple | reducer/reducer/main.cpp:29-33 | each entry of row `row2` becomes old `row1` entry times `factor` plus old `row2` entry; all other rows, including `row1` when it differs, are unchanged; the rows are `MultipleAdded(old rows)` |
| Reducer.MultipleAdded | reducer/reducer/main.cpp:30-32 | adding a multiple of a row keeps the row count and the length of every row |
| Reducer.AddMultipleZero | reducer/reducer/main.cpp:31 | adding zero times a row leaves the matrix unchanged |
| Reducer.AddMultipleUndo | reducer/reducer/main.cpp:29-33 | for different rows, adding `f` times a row and then `-f` times it restores the matrix |
| Reducer.AddMultipleSameRow | reducer/reducer/main.cpp:30-32 | adding a multiple of a row to itself is scaling that row by `1 + factor` |
| Reducer.AddMultipleKeepsOldSolutions | reducer/reducer/main.cpp:29-33 | for every factor and every pair of rows, the same row included, a vector that solves every row equation before the addition still does after it |
| Reducer.AddMultipleKeepsSolutions | reducer/reducer/main.cpp:29-33 | for different rows, a vector solves every row equation after the addition if and only if it did before |
| Reducer.ScaleRow | reducer/reducer/main.cpp:36-40 | each entry of row `row` becomes its old value times `factor`; other rows are unchanged; the rows are `RowScaled(old rows)` |
| Reducer.RowScaled | reducer/reducer/main.cpp:37-39 | scaling a row keeps the row count and the length of every row |
| Reducer.ScaleRowOne | reducer/reducer/main.cpp:36-40 | scaling by 1 leaves the matrix unchanged |
| Reducer.ScaleRowZero | reducer/reducer/main.cpp:36-40 | scaling by 0 makes every entry of the row zero and leaves the other rows alone |
| Reducer.ScaleRowUndo | reducer/reducer/main.cpp:36-40 | scaling by a nonzero `k` and then by `1/k` restores the matrix |
| Reducer.ScaleRowKeepsOldSolutions | reducer/reducer/main.cpp:36-40 | for every factor, zero included, a vector that solves every row equation before scaling still does after it |
| Reducer.ScaleRowKeepsSolutions | reducer/reducer/main.cpp:36-40 | for a nonzero factor, a vector solves every row equation after scaling if and only if it did before |
| Reducer.GetLeftMostCol | reducer/reducer/main.cpp:43-55 | the flag is set on return; with the flag set on entry the result is `col` itself; with it clear the result is the least column at or after `col` holding a nonzero entry, and no column in between holds one |
| Reducer.PivotScan | reducer/reducer/main.cpp:60-68 | the scanned row index is 0 for an empty column and otherwise a row of the column |
| Reducer.PivotScanLater | reducer/reducer/main.cpp:62-66 | every entry in a row after the chosen row has absolute value at most the chosen row's index |
| Reducer.PivotScanChosen | reducer/reducer/main.cpp:62-66 | a chosen row other than row 0 holds a nonzero entry |
| Reducer.PivotScanZero | reducer/reducer/main.cpp:60-68 | row 0 is chosen if and only if every entry below row 0 is zero |
| Reducer.GetRowLarEnInCol | reducer/reducer/main.cpp:59-69 | the loop returns exactly `PivotScan` of the column: 0 with no rows, otherwise a row index; 0 exactly when all entries below row 0 are zero; a chosen row above 0 holds a nonzero entry; later rows have absolute entries at most the chosen index |
| Reducer.PivotScanMissesLargest | reducer/reducer/main.cpp:57-66 | on the column [3, 2] the search as written returns row 1 although row 0 holds the larger absolute entry |
| Reducer.RowLargestEntryInCol | reducer/reducer/main.cpp:57-69 | the search the comment describes: the first row whose entry has the largest absolute value in the column (0 with no rows) |

## Left out

- `main` (reducer/reducer/main.cpp:82-128): reads a matrix, a row and a factor from the terminal, calls `scaleRow` once (main.cpp:123) and prints. Only that call is modelled (`ScaleRow`); the terminal input and output are not.
- `printMatrix` (reducer/reducer/main.cpp:71-80): output formatting only.
- reducer/reducer/matrix.h declares a matrix class with three private data members (`mRows`, `mCols`, `mData`) and a constructor and destructor that have no definitions; it has no accessor or mutator functions. It is not part of this model.
- uBLAS internals (`insert_element`, `operator()`, `size1`, `size2`) are abstracted as indexed access to a two-dimensional array with fixed extents.
- IEEE-754 double rounding, NaN, infinities and negative zero are not modelled; entries are exact reals. So the scale-then-unscale round trip holds exactly here, where doubles only approximate it.
- The allocation and release of the temporary row buffer in `rowInterchange` is a local array. Memory management is not modelled.
- If the `abs` at main.cpp:63 resolved to the integer C `abs`, entries would be truncated to integers before the comparison. This model assumes the floating-point absolute value.
- ScaleRow, RowInterchange, AddMultiple, GetLeftMostCol, GetRowLarEnInCol: indices are naturals and the model requires them in range. The source does not ensure this: main.cpp:117-123 passes the row read from the terminal to `scaleRow` unchecked, and the source's indices are `int`, so they can also be negative. A negative or too-large index is then undefined behaviour, or a uBLAS `bad_index` in a checked build; the model does not describe what happens then. `getLeftMostCol` can run past the last column, as described under Decisions. Integer widths of the `int` and `unsigned` indices are not modelled either.

## Findings

| source | as written | input that shows it | evidently intended | confidence | as-written member | corrected member |
|---|---|---|---|---|---|---|
| reducer/reducer/main.cpp:63 | compares the absolute entry with the running row index `row` | a column [3, 2]: the scan returns row 1 (with either the double or the integer `abs`) | the row whose entry has the largest absolute value (row 0) | high; not executed | Reducer.GetRowLarEnInCol, Reducer.PivotScanMissesLargest | Reducer.RowLargestEntryInCol |
