/** Value-level model of a 9x9 Sudoku grid: cells, the row, column and block
    views, the candidate set of a cell and the "no empty cell" predicate,
    with the lemmas that relate them. Coordinates are (x, y): x is the
    column, y is the row, and a grid is a sequence of rows, so cell (x, y)
    is g[y][x]. The digit 0 marks an empty cell. */
module Grids {

  type Grid = seq<seq<int>>

  /** The side of the grid and of the block grid. */
  const Size: int := 9
  const BlockSide: int := 3

  predicate InRange(i: int) { 0 <= i < Size }

  predicate IsDigit(v: int) { 0 <= v <= 9 }

  /** Nine rows of nine cells, every cell a digit 0..9. */
  predicate IsGrid(g: Grid) {
    |g| == Size &&
    (forall y :: 0 <= y < |g| ==> |g[y]| == Size) &&
    (forall y, x :: 0 <= y < |g| && 0 <= x < |g[y]| ==> IsDigit(g[y][x]))
  }

  /** The digits a placed value may take. */
  function Digits(): set<int> { {1, 2, 3, 4, 5, 6, 7, 8, 9} }

  /** The set of values occurring in a sequence. */
  function Elems(s: seq<int>): set<int> { set v | v in s }

  // ---------------------------------------------------------------------
  // Block geometry

  /** Column of the top-left cell of block b (blocks are numbered 0 1 2 / 3 4 5 / 6 7 8). */
  function BlockOriginX(b: int): int { (b % BlockSide) * BlockSide }

  /** Row of the top-left cell of block b. */
  function BlockOriginY(b: int): int { (b / BlockSide) * BlockSide }

  /** The block containing cell (x, y). */
  function BlockIndex(x: int, y: int): int { (y / BlockSide) * BlockSide + x / BlockSide }

  /** Cell (x, y) lies in the 3x3 coordinate range of block b. */
  predicate InBlock(b: int, x: int, y: int) {
    BlockOriginX(b) <= x < BlockOriginX(b) + BlockSide &&
    BlockOriginY(b) <= y < BlockOriginY(b) + BlockSide
  }

  /** Column of the k-th cell listed for block b: x-outer, y-inner order. */
  function BlockCellX(b: int, k: int): int { BlockOriginX(b) + k / BlockSide }

  /** Row of the k-th cell listed for block b. */
  function BlockCellY(b: int, k: int): int { BlockOriginY(b) + k % BlockSide }

  /** The position a cell takes in the listing of its block. */
  function BlockOffset(x: int, y: int): int { (x % BlockSide) * BlockSide + y % BlockSide }

  /** Division and remainder by the block side, stated by their defining equation. */
  lemma DivModSide(n: int, q: int, r: int)
    requires 0 <= r < BlockSide && n == q * BlockSide + r
    ensures n / BlockSide == q && n % BlockSide == r
  {
  }

  /** Every cell has a block in 0..8 whose range contains it. */
  lemma BlockIndexContains(x: int, y: int)
    requires InRange(x) && InRange(y)
    ensures InRange(BlockIndex(x, y))
    ensures InBlock(BlockIndex(x, y), x, y)
  {
    DivModSide(BlockIndex(x, y), y / 3, x / 3);
  }

  /** No cell lies in two blocks: the block whose range contains a cell is its BlockIndex. */
  lemma InBlockUnique(b: int, x: int, y: int)
    requires InRange(b)
    requires InBlock(b, x, y)
    ensures b == BlockIndex(x, y)
  {
    DivModSide(x, b % 3, x - BlockOriginX(b));
    DivModSide(y, b / 3, y - BlockOriginY(b));
  }

  /** The nine cells listed for a block are grid cells of that block, and each sits at its
      own offset. */
  lemma BlockCellInBlock(b: int, k: int)
    requires InRange(b) && InRange(k)
    ensures InRange(BlockCellX(b, k)) && InRange(BlockCellY(b, k))
    ensures InBlock(b, BlockCellX(b, k), BlockCellY(b, k))
    ensures BlockOffset(BlockCellX(b, k), BlockCellY(b, k)) == k
  {
    DivModSide(BlockCellX(b, k), b % 3, k / 3);
    DivModSide(BlockCellY(b, k), b / 3, k % 3);
  }

  /** Each grid cell is listed exactly once over all blocks: at its own block and offset,
      and any listing position naming it is that one. */
  lemma BlocksPartitionGrid(x: int, y: int)
    requires InRange(x) && InRange(y)
    ensures InRange(BlockOffset(x, y))
    ensures BlockCellX(BlockIndex(x, y), BlockOffset(x, y)) == x
    ensures BlockCellY(BlockIndex(x, y), BlockOffset(x, y)) == y
    ensures forall b, k :: InRange(b) && InRange(k) && BlockCellX(b, k) == x && BlockCellY(b, k) == y
              ==> b == BlockIndex(x, y) && k == BlockOffset(x, y)
  {
    BlockIndexContains(x, y);
    DivModSide(BlockOffset(x, y), x % 3, y % 3);
    forall b, k | InRange(b) && InRange(k) && BlockCellX(b, k) == x && BlockCellY(b, k) == y
      ensures b == BlockIndex(x, y) && k == BlockOffset(x, y)
    {
      BlockCellInBlock(b, k);
      InBlockUnique(b, x, y);
    }
  }

  // ---------------------------------------------------------------------
  // Views of a grid

  /** Row y, in column order. */
  function Row(g: Grid, y: int): (r: seq<int>)
    requires IsGrid(g) && InRange(y)
    ensures |r| == Size
    ensures forall j :: 0 <= j < Size ==> r[j] == g[y][j]
  {
    seq(Size, j requires 0 <= j < Size => g[y][j])
  }

  /** Column x, in row order. */
  function Column(g: Grid, x: int): (r: seq<int>)
    requires IsGrid(g) && InRange(x)
    ensures |r| == Size
    ensures forall j :: 0 <= j < Size ==> r[j] == g[j][x]
  {
    seq(Size, j requires 0 <= j < Size => g[j][x])
  }

  /** The nine cells of block b, column by column and top to bottom within a column. */
  function Block(g: Grid, b: int): (r: seq<int>)
    requires IsGrid(g) && InRange(b)
    ensures |r| == Size
    ensures forall k :: 0 <= k < Size ==> r[k] == g[BlockCellY(b, k)][BlockCellX(b, k)]
  {
    seq(Size, k requires 0 <= k < Size => BlockCellInBlock(b, k); g[BlockCellY(b, k)][BlockCellX(b, k)])
  }

  /** A value occurs in block b exactly when some cell in the block's range holds it. */
  lemma InBlockValues(g: Grid, b: int, v: int)
    requires IsGrid(g) && InRange(b)
    ensures v in Block(g, b) <==>
      exists x, y :: InRange(x) && InRange(y) && InBlock(b, x, y) && g[y][x] == v
  {
    var blk := Block(g, b);
    if v in blk {
      var k :| 0 <= k < Size && blk[k] == v;
      BlockCellInBlock(b, k);
      assert InBlock(b, BlockCellX(b, k), BlockCellY(b, k)) && g[BlockCellY(b, k)][BlockCellX(b, k)] == v;
    }
    if exists x, y :: InRange(x) && InRange(y) && InBlock(b, x, y) && g[y][x] == v {
      var x, y :| InRange(x) && InRange(y) && InBlock(b, x, y) && g[y][x] == v;
      InBlockUnique(b, x, y);
      BlocksPartitionGrid(x, y);
      assert blk[BlockOffset(x, y)] == v;
    }
  }

  // ---------------------------------------------------------------------
  // Candidates

  /** The digits 1..9 that occur neither in row y, nor in column x, nor in the block
      containing (x, y). */
  function Options(g: Grid, x: int, y: int): set<int>
    requires IsGrid(g) && InRange(x) && InRange(y)
  {
    BlockIndexContains(x, y);
    Digits() - (Elems(Row(g, y)) + Elems(Column(g, x)) + Elems(Block(g, BlockIndex(x, y))))
  }

  /** Candidates are digits 1..9, and d is a candidate of (x, y) exactly when no cell of the
      row, the column or the block of (x, y) holds d. */
  lemma OptionsCells(g: Grid, x: int, y: int, d: int)
    requires IsGrid(g) && InRange(x) && InRange(y)
    ensures Options(g, x, y) <= Digits()
    ensures d in Options(g, x, y) <==>
      1 <= d <= 9 &&
      (forall j :: 0 <= j < Size ==> g[y][j] != d) &&
      (forall j :: 0 <= j < Size ==> g[j][x] != d) &&
      (forall cx, cy :: InRange(cx) && InRange(cy) && InBlock(BlockIndex(x, y), cx, cy) ==> g[cy][cx] != d)
  {
    BlockIndexContains(x, y);
    InBlockValues(g, BlockIndex(x, y), d);
    var row, col := Row(g, y), Column(g, x);
    if d in row {
      var j :| 0 <= j < Size && row[j] == d;
      assert g[y][j] == d;
    }
    if d in col {
      var j :| 0 <= j < Size && col[j] == d;
      assert g[j][x] == d;
    }
    if exists j :: 0 <= j < Size && g[y][j] == d {
      var j :| 0 <= j < Size && g[y][j] == d;
      assert row[j] == d;
    }
    if exists j :: 0 <= j < Size && g[j][x] == d {
      var j :| 0 <= j < Size && g[j][x] == d;
      assert col[j] == d;
    }
  }

  /** A filled cell never lists its own value as a candidate: its row contains it. */
  lemma OptionsExcludeOwnValue(g: Grid, x: int, y: int)
    requires IsGrid(g) && InRange(x) && InRange(y)
    ensures g[y][x] !in Options(g, x, y)
  {
    assert Row(g, y)[x] == g[y][x];
  }

  /** The all-zero grid. */
  function EmptyGrid(): (g: Grid)
    ensures IsGrid(g)
    ensures forall y, x :: InRange(y) && InRange(x) ==> g[y][x] == 0
  {
    seq(Size, _ => seq(Size, _ => 0))
  }

  /** On the empty grid every digit is a candidate everywhere. */
  lemma EmptyGridOptions(x: int, y: int)
    requires InRange(x) && InRange(y)
    ensures Options(EmptyGrid(), x, y) == Digits()
  {
    var g := EmptyGrid();
    forall d | d in Digits() ensures d in Options(g, x, y) {
      OptionsCells(g, x, y, d);
    }
  }

  // ---------------------------------------------------------------------
  // Filled grids and the row-major scan

  /** No cell of the grid is empty. */
  predicate NoZero(g: Grid)
    requires IsGrid(g)
  {
    forall y, x :: 0 <= y < Size && 0 <= x < Size ==> g[y][x] != 0
  }

  /** Cell (cx, cy) comes before cell (x, y) in row-major order (y outer, x inner). */
  predicate Precedes(cx: int, cy: int, x: int, y: int) {
    cy < y || (cy == y && cx < x)
  }

  /** The grid is filled exactly when no row, no column and no block contains 0. */
  lemma NoZeroViews(g: Grid)
    requires IsGrid(g)
    ensures NoZero(g) <==>
      forall i :: InRange(i) ==> 0 !in Row(g, i) && 0 !in Column(g, i) && 0 !in Block(g, i)
  {
    if NoZero(g) {
      forall i | InRange(i) ensures 0 !in Row(g, i) && 0 !in Column(g, i) && 0 !in Block(g, i) {
        InBlockValues(g, i, 0);
      }
    } else {
      var y, x :| 0 <= y < Size && 0 <= x < Size && g[y][x] == 0;
      assert Row(g, y)[x] == 0;
    }
  }

  /** Filling every cell is all it takes: a grid of 5s repeats digits in every row and is
      still a filled grid. */
  lemma NoZeroIgnoresDuplicates()
    ensures var g := seq(Size, _ => seq(Size, _ => 5));
      IsGrid(g) && NoZero(g) && Row(g, 0)[0] == Row(g, 0)[1]
  {
  }

  // ---------------------------------------------------------------------
  // Writing a cell

  /** The grid with cell (x, y) overwritten by v. */
  function Placed(g: Grid, v: int, x: int, y: int): (h: Grid)
    requires IsGrid(g) && IsDigit(v) && InRange(x) && InRange(y)
    ensures IsGrid(h)
    ensures h[y][x] == v
    ensures forall cy, cx :: InRange(cy) && InRange(cx) && (cx != x || cy != y) ==> h[cy][cx] == g[cy][cx]
  {
    g[y := g[y][x := v]]
  }

  /** Two grids that agree on every cell are equal. */
  lemma GridsEqual(g: Grid, h: Grid)
    requires IsGrid(g) && IsGrid(h)
    requires forall cy, cx :: 0 <= cy < Size && 0 <= cx < Size ==> g[cy][cx] == h[cy][cx]
    ensures g == h
  {
    forall cy | 0 <= cy < Size ensures g[cy] == h[cy] {
      assert |g[cy]| == |h[cy]|;
    }
  }

  /** Writing a cell twice keeps the second value; writing back the old value restores
      the grid (what a backtracking place/unplace pair relies on). */
  lemma PlacedTwice(g: Grid, v: int, w: int, x: int, y: int)
    requires IsGrid(g) && IsDigit(v) && IsDigit(w) && InRange(x) && InRange(y)
    ensures Placed(Placed(g, v, x, y), w, x, y) == Placed(g, w, x, y)
    ensures Placed(Placed(g, v, x, y), g[y][x], x, y) == g
  {
    GridsEqual(Placed(Placed(g, v, x, y), w, x, y), Placed(g, w, x, y));
    GridsEqual(Placed(Placed(g, v, x, y), g[y][x], x, y), g);
  }
}
