/** The mutable puzzle object: a 9x9 grid stored row by row, written one cell at a
    time and queried through row, column and block views, candidate sets, a
    row-major scan for the next empty cell and a "completely filled" check. */
module Puzzle {
  import opened Grids

  /** The character that renders digit d. */
  function DigitChar(d: int): (c: char)
    requires IsDigit(d)
    ensures '0' <= c <= '9'
    ensures c as int - '0' as int == d
  {
    ('0' as int + d) as char
  }

  /** Where line ry starts in the rendered text: every line is nine digits and a newline. */
  function LineStart(ry: int): int { ry * (Size + 1) }

  class Sudoku {
    /** Row y of the puzzle is grid[y]; cell (x, y) is grid[y][x]. */
    var grid: Grid

    ghost predicate Valid()
      reads this
    {
      IsGrid(grid)
    }

    /** Builds the grid row by row from the given layout, which is taken as is. */
    constructor (puzzle: Grid)
      requires IsGrid(puzzle)
      ensures Valid()
      ensures grid == puzzle
    {
      grid := [];
      new;
      var y := 0;
      while y < |puzzle|
        invariant 0 <= y <= |puzzle|
        invariant grid == puzzle[..y]
      {
        var puzzleRow := puzzle[y];
        var row := [];
        var x := 0;
        while x < |puzzleRow|
          invariant 0 <= x <= |puzzleRow|
          invariant row == puzzleRow[..x]
          invariant grid == puzzle[..y]
        {
          row := row + [puzzleRow[x]];
          x := x + 1;
        }
        assert row == puzzle[y];
        assert puzzle[..y + 1] == puzzle[..y] + [puzzle[y]];
        grid := grid + [row];
        y := y + 1;
      }
      assert puzzle[..|puzzle|] == puzzle;
    }

    /** Writes value into cell (x, y) by rebuilding row y around it. */
    method Place(value: int, x: int, y: int)
      requires Valid()
      requires IsDigit(value) && InRange(x) && InRange(y)
      modifies this
      ensures Valid()
      ensures grid == Placed(old(grid), value, x, y)
      ensures ValueAt(x, y) == value
      ensures forall cy, cx :: InRange(cy) && InRange(cx) && (cx != x || cy != y) ==>
                ValueAt(cx, cy) == old(grid)[cy][cx]
    {
      var row := grid[y];
      var newRow := row[..x] + [value] + row[x + 1..];
      assert newRow == row[x := value];
      grid := grid[y := newRow];
    }

    /** Empties cell (x, y). */
    method Unplace(x: int, y: int)
      requires Valid()
      requires InRange(x) && InRange(y)
      modifies this
      ensures Valid()
      ensures grid == Placed(old(grid), 0, x, y)
      ensures ValueAt(x, y) == 0
      ensures forall cy, cx :: InRange(cy) && InRange(cx) && (cx != x || cy != y) ==>
                ValueAt(cx, cy) == old(grid)[cy][cx]
    {
      var row := grid[y];
      var newRow := row[..x] + [0] + row[x + 1..];
      assert newRow == row[x := 0];
      grid := grid[y := newRow];
    }

    /** The digit held by cell (x, y). */
    function ValueAt(x: int, y: int): (v: int)
      reads this
      requires Valid()
      requires InRange(x) && InRange(y)
      ensures IsDigit(v)
    {
      grid[y][x]
    }

    /** The nine values of row i, in column order. */
    method RowValues(i: int) returns (values: seq<int>)
      requires Valid()
      requires InRange(i)
      ensures |values| == Size
      ensures forall j :: 0 <= j < Size ==> values[j] == ValueAt(j, i)
      ensures values == Row(grid, i)
    {
      values := [];
      for j := 0 to Size
        invariant |values| == j
        invariant forall k :: 0 <= k < j ==> values[k] == grid[i][k]
      {
        values := values + [ValueAt(j, i)];
      }
    }

    /** The nine values of column i, in row order. */
    method ColumnValues(i: int) returns (values: seq<int>)
      requires Valid()
      requires InRange(i)
      ensures |values| == Size
      ensures forall j :: 0 <= j < Size ==> values[j] == ValueAt(i, j)
      ensures values == Column(grid, i)
    {
      values := [];
      for j := 0 to Size
        invariant |values| == j
        invariant forall k :: 0 <= k < j ==> values[k] == grid[k][i]
      {
        values := values + [ValueAt(i, j)];
      }
    }

    /** The nine values of block i (blocks numbered 0 1 2 / 3 4 5 / 6 7 8), taken column by
        column from the block's left edge, top to bottom within each column. */
    method BlockValues(i: int) returns (values: seq<int>)
      requires Valid()
      requires InRange(i)
      ensures |values| == Size
      ensures forall k :: 0 <= k < Size ==>
                InBlock(i, BlockCellX(i, k), BlockCellY(i, k)) &&
                values[k] == ValueAt(BlockCellX(i, k), BlockCellY(i, k))
      ensures values == Block(grid, i)
    {
      values := [];
      var xStart := (i % 3) * 3;
      var yStart := (i / 3) * 3;
      for x := xStart to xStart + 3
        invariant |values| == (x - xStart) * 3
        invariant forall k :: 0 <= k < |values| ==> values[k] == grid[yStart + k % 3][xStart + k / 3]
      {
        for y := yStart to yStart + 3
          invariant |values| == (x - xStart) * 3 + (y - yStart)
          invariant forall k :: 0 <= k < |values| ==> values[k] == grid[yStart + k % 3][xStart + k / 3]
        {
          ghost var k := |values|;
          DivModSide(k, x - xStart, y - yStart);
          values := values + [ValueAt(x, y)];
        }
      }
      forall k | 0 <= k < Size
        ensures InBlock(i, BlockCellX(i, k), BlockCellY(i, k))
      {
        BlockCellInBlock(i, k);
      }
    }

    /** The candidates for cell (x, y): the digits 1..9 minus every value present in its row,
        its column and its block. */
    method OptionsAt(x: int, y: int) returns (options: set<int>)
      requires Valid()
      requires InRange(x) && InRange(y)
      ensures options <= Digits()
      ensures forall d :: d in options <==>
                1 <= d <= 9 && d !in Row(grid, y) && d !in Column(grid, x) &&
                d !in Block(grid, BlockIndex(x, y))
      ensures options == Options(grid, x, y)
    {
      var all := {1, 2, 3, 4, 5, 6, 7, 8, 9};
      var present: set<int> := {};

      var rowValues := RowValues(y);
      for j := 0 to |rowValues|
        invariant present == Elems(rowValues[..j])
      {
        present := present + {rowValues[j]};
        assert rowValues[..j + 1] == rowValues[..j] + [rowValues[j]];
      }
      assert rowValues[..|rowValues|] == rowValues;
      ghost var fromRow := present;

      var columnValues := ColumnValues(x);
      for j := 0 to |columnValues|
        invariant present == fromRow + Elems(columnValues[..j])
      {
        present := present + {columnValues[j]};
        assert columnValues[..j + 1] == columnValues[..j] + [columnValues[j]];
      }
      assert columnValues[..|columnValues|] == columnValues;
      ghost var fromColumn := present;

      var blockIndex := (y / 3) * 3 + x / 3;
      BlockIndexContains(x, y);
      var blockValues := BlockValues(blockIndex);
      for j := 0 to |blockValues|
        invariant present == fromColumn + Elems(blockValues[..j])
      {
        present := present + {blockValues[j]};
        assert blockValues[..j + 1] == blockValues[..j] + [blockValues[j]];
      }
      assert blockValues[..|blockValues|] == blockValues;

      options := all - present;
    }

    /** The first empty cell in row-major order (y outer, x inner), or (-1, -1) when every
        cell is filled. */
    method NextEmptyIndex() returns (x: int, y: int)
      requires Valid()
      ensures (x == -1 && y == -1) <==> NoZero(grid)
      ensures x != -1 || y != -1 ==>
                InRange(x) && InRange(y) && ValueAt(x, y) == 0 &&
                forall cy, cx :: InRange(cy) && InRange(cx) && Precedes(cx, cy, x, y) ==>
                  ValueAt(cx, cy) != 0
    {
      for cy := 0 to Size
        invariant forall py, px :: 0 <= py < cy && 0 <= px < Size ==> grid[py][px] != 0
      {
        for cx := 0 to Size
          invariant forall py, px :: 0 <= py < cy && 0 <= px < Size ==> grid[py][px] != 0
          invariant forall px :: 0 <= px < cx ==> grid[cy][px] != 0
        {
          if ValueAt(cx, cy) == 0 {
            return cx, cy;
          }
        }
      }
      return -1, -1;
    }

    /** Whether every row, every column and every block is free of 0, that is whether the
        grid is completely filled; repeated digits are not looked for. */
    method IsSolved() returns (result: bool)
      requires Valid()
      ensures result <==> NoZero(grid)
    {
      result := true;
      for i := 0 to Size
        invariant result <==> forall j :: 0 <= j < i ==>
                    0 !in Row(grid, j) && 0 !in Column(grid, j) && 0 !in Block(grid, j)
      {
        var columnValues := ColumnValues(i);
        if 0 in columnValues {
          result := false;
        }
        var rowValues := RowValues(i);
        if 0 in rowValues {
          result := false;
        }
        var blockValues := BlockValues(i);
        if 0 in blockValues {
          result := false;
        }
      }
      NoZeroViews(grid);
    }

    /** The nine rows as lines of digits joined by newlines, with no trailing newline. */
    method Render() returns (text: string)
      requires Valid()
      ensures |text| == Size * (Size + 1) - 1
      ensures forall ry, rx :: InRange(ry) && InRange(rx) ==>
                text[LineStart(ry) + rx] == DigitChar(ValueAt(rx, ry))
      ensures forall ry :: 0 <= ry < Size - 1 ==> text[LineStart(ry) + Size] == '\n'
    {
      var representation := "";
      for ry := 0 to Size
        invariant |representation| == LineStart(ry)
        invariant forall py, px :: 0 <= py < ry && 0 <= px < Size ==>
                    representation[LineStart(py) + px] == DigitChar(grid[py][px])
        invariant forall py :: 0 <= py < ry ==> representation[LineStart(py) + Size] == '\n'
      {
        var line := "";
        for rx := 0 to Size
          invariant |line| == rx
          invariant forall px :: 0 <= px < rx ==> line[px] == DigitChar(grid[ry][px])
        {
          line := line + [DigitChar(ValueAt(rx, ry))];
        }
        representation := representation + line + "\n";
      }
      // The lines hold only digits, so stripping whitespace drops just the final newline.
      text := representation[..|representation| - 1];
    }
  }
}

/** A caller's view of the puzzle, using nothing but the contracts above. */
module PuzzleClient {
  import opened Grids
  import opened Puzzle

  /** On an empty puzzle the first empty cell is (0, 0), every digit is a candidate there,
      and the puzzle is not solved; placing a digit and removing it gives back the grid. */
  method EmptyPuzzle() {
    var s := new Sudoku(EmptyGrid());
    var x, y := s.NextEmptyIndex();
    assert s.ValueAt(0, 0) == 0;
    assert InRange(x) && InRange(y);
    assert !Precedes(0, 0, x, y);
    assert x == 0 && y == 0;
    var options := s.OptionsAt(0, 0);
    EmptyGridOptions(0, 0);
    assert options == Digits();
    var solved := s.IsSolved();
    assert !solved;
    s.Place(5, 4, 4);
    assert s.ValueAt(4, 4) == 5;
    s.Unplace(4, 4);
    PlacedTwice(EmptyGrid(), 5, 0, 4, 4);
    assert s.grid == EmptyGrid();
  }

  /** With the only empty cells at (3, 2) and (0, 5), the row-major scan stops at (3, 2). */
  method TwoEmptyCells() {
    var full := seq(Size, _ => seq(Size, _ => 1));
    assert IsGrid(full);
    var g := Placed(Placed(full, 0, 3, 2), 0, 0, 5);
    var s := new Sudoku(g);
    var x, y := s.NextEmptyIndex();
    assert s.ValueAt(3, 2) == 0;
    assert InRange(x) && InRange(y);
    assert !Precedes(3, 2, x, y);
    assert (x, y) == (3, 2);
  }
}
