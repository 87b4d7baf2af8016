# Sudoku grid model

A Dafny model of the `Sudoku` class of `sudoku.py`: a mutable 9x9 puzzle whose
cells hold the digits 0..9, 0 meaning an empty cell. The puzzle writes and clears
single cells, reads a cell, lists a row, a column or a 3x3 block, computes the
candidate digits of a cell, scans row-major for the first empty cell, reports
whether the grid is completely filled, and renders itself as nine lines of digits.

Two files:

- `grids.dfy`, module `Grids`: the value-level description. A grid is a
  `seq<seq<int>>` of nine rows of nine digits (`IsGrid`). It defines the row,
  column and block views (`Row`, `Column`, `Block`), the block geometry (block
  origins `(b % 3) * 3` and `(b / 3) * 3`, the containing block
  `(y / 3) * 3 + x / 3`), the candidate set `Options`, the "no empty cell"
  predicate `NoZero`, the row-major order `Precedes` and a single-cell write
  `Placed`, with lemmas relating them: the nine blocks partition the grid, a
  value is in a block exactly when a cell of the block holds it, candidates are
  characterised cell by cell, and so on.
- `puzzle.dfy`, module `Puzzle`: class `Sudoku`, whose field `grid` is reassigned
  by `Place` and `Unplace` (row `y` is rebuilt as `row[..x] + [v] + row[x + 1..]`,
  as the source rebuilds its row string) and read by the query methods, each a
  loop as in the source and each proved against the `Grids` functions. Module
  `PuzzleClient` holds two callers that use only the contracts (the all-zero
  grid; a grid empty only at (3, 2) and (0, 5)).

All coordinates are `(x, y)` with `x` the column and `y` the row. Since every
coordinate and block number is in 0..8, Dafny's `/` and `%` agree with Python's
`//` and `%` wherever the model uses them.

The constructor does not check its input; the model states "nine rows of nine
digits" as its precondition. `place` accepts any value in the source, but only a
single digit keeps a row nine characters wide, so `Place` requires 0..9.

## Model

| member | source | states |
|---|---|---|
| `Puzzle.Sudoku.constructor` | sudoku.py:8-17 | the grid built by the nested append loops is exactly the given 9x9 layout |
| `Puzzle.Sudoku.Place` | sudoku.py:19-23 | afterwards cell (x, y) reads `value`, every other cell reads what it held before, and the grid is still nine rows of nine digits |
| `Puzzle.Sudoku.Unplace` | sudoku.py:25-29 | afterwards cell (x, y) reads 0, every other cell is unchanged, and the grid stays 9x9 |
| `Puzzle.Sudoku.ValueAt` | sudoku.py:31-36 | reading any cell of a valid grid yields a digit 0..9 |
| `Puzzle.DigitChar` | sudoku.py:22 | the character written for a digit is '0'..'9' and converts back to the same digit, as `int(str(v)) == v` |
| `Puzzle.Sudoku.RowValues` | sudoku.py:71-78 | exactly nine values, element j being the value at (j, i) |
| `Puzzle.Sudoku.ColumnValues` | sudoku.py:80-87 | exactly nine values, element j being the value at (i, j) |
| `Puzzle.Sudoku.BlockValues` | sudoku.py:89-106 | exactly nine values; element k is the cell at column `(i % 3) * 3 + k / 3`, row `(i / 3) * 3 + k % 3` (x outer, y inner), and that cell lies in block i's coordinate range |
| `Puzzle.Sudoku.OptionsAt` | sudoku.py:38-58 | the result is a subset of 1..9, and d is in it exactly when d is in 1..9 and occurs neither in row y, nor in column x, nor in block `(y / 3) * 3 + x / 3` |
| `Puzzle.Sudoku.NextEmptyIndex` | sudoku.py:60-69 | returns (-1, -1) if and only if no cell is 0; otherwise a cell holding 0 such that every cell before it in row-major order (y outer, x inner) is non-zero |
| `Puzzle.Sudoku.IsSolved` | sudoku.py:108-125 | true if and only if no cell holds 0 (checking every column, row and block for 0 amounts to that) |
| `Puzzle.Sudoku.Render` | sudoku.py:127-133 | an 89-character text: line ry holds the nine digits of row ry at positions 10*ry..10*ry+8, a newline follows each of the first eight lines, and there is no trailing newline |
| `Grids.Placed` | sudoku.py:21-23 | the grid with one cell overwritten: that cell holds the new digit, all other cells are unchanged, and it is still a 9x9 digit grid |
| `Grids.PlacedTwice` | sudoku.py:19-29 | a second write to a cell overrides the first, and writing back the old value (a place followed by an unplace of a formerly empty cell) restores the grid |
| `Grids.BlockIndexContains` | sudoku.py:52 | the block index `(y / 3) * 3 + x / 3` of any cell is in 0..8 and that block's coordinate range contains the cell |
| `Grids.InBlockUnique` | sudoku.py:99-103 | if block b's coordinate range contains (x, y), then b is `(y / 3) * 3 + x / 3`: no cell lies in two blocks |
| `Grids.BlockCellInBlock` | sudoku.py:99-104 | the k-th cell listed for block b is a grid cell inside b's range, listed at offset `(x % 3) * 3 + y % 3` |
| `Grids.BlocksPartitionGrid` | sudoku.py:89-106 | every cell is listed by its own block at its own offset, and by no other block and offset: the nine block listings cover the 81 cells without overlap |
| `Grids.InBlockValues` | sudoku.py:99-104 | a value occurs in block b's listing exactly when some cell in b's range holds it |
| `Grids.OptionsCells` | sudoku.py:38-58 | candidates are a subset of 1..9, and d is a candidate of (x, y) exactly when d is in 1..9 and no cell of row y, of column x or of the containing block holds d |
| `Grids.OptionsExcludeOwnValue` | sudoku.py:44-58 | a cell's own value is never among its candidates, since its row contains it |
| `Grids.EmptyGridOptions` | sudoku.py:40-58 | on the all-zero grid every cell's candidates are all of 1..9 |
| `Grids.NoZeroViews` | sudoku.py:113-125 | a grid has no 0 exactly when no row, no column and no block among 0..8 contains 0 |
| `Grids.NoZeroIgnoresDuplicates` | sudoku.py:108-125 | a grid of nothing but 5s repeats digits in a row and still has no empty cell, so it counts as solved |

## Left out

- `load_from_file` (sudoku.py:136-148): file I/O; its per-line cleaning (strip whitespace, drop commas) is not modelled either.
- The row-as-string representation: rows are sequences of integers, and the `str`/`int` conversions of single digits are covered by `DigitChar` only.
- Python's negative indexing and out-of-range faults: every coordinate and block number is required to be in 0..8.
- `Puzzle.Sudoku.Place`: values outside 0..9 are excluded by the precondition; in the source `str(value)` would then widen or corrupt the row string.
- `Puzzle.Sudoku.constructor`: accepts only nine rows of nine digits; the source takes any iterable of iterables without checking.
- `Puzzle.Sudoku.Render`: `strip()` is modelled as dropping the final newline, which is all it removes from lines of digits.
- `Puzzle.Sudoku.OptionsAt` returns a `set<int>`; the source's iterable type and iteration order of the set are not modelled.
