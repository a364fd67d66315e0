/** Character grids, as the solvers hold their puzzle input: a sequence of
    rows, not necessarily all of one length. */
module Grids {

  type Grid = seq<seq<char>>

  predicate InGrid(grid: Grid, row: int, col: int)
  {
    0 <= row < |grid| && 0 <= col < |grid[row]|
  }

  predicate SameShape(a: Grid, b: Grid)
  {
    |a| == |b| && forall k :: 0 <= k < |a| ==> |a[k]| == |b[k]|
  }

  function CountInRow(line: seq<char>, tile: char): (r: nat)
    ensures r <= |line|
  {
    if |line| == 0 then 0 else CountInRow(line[..|line| - 1], tile) + (if line[|line| - 1] == tile then 1 else 0)
  }

  /** The number of cells holding `tile`, row by row. */
  function CountTiles(grid: Grid, tile: char): nat
  {
    if |grid| == 0 then 0 else CountTiles(grid[..|grid| - 1], tile) + CountInRow(grid[|grid| - 1], tile)
  }

  function SetCell(grid: Grid, row: nat, col: nat, c: char): (r: Grid)
    requires InGrid(grid, row, col)
    ensures SameShape(grid, r)
    ensures r[row][col] == c
    ensures forall i, j :: InGrid(grid, i, j) && (i != row || j != col) ==> r[i][j] == grid[i][j]
  {
    grid[row := grid[row][col := c]]
  }

  function Indicator(b: bool): nat
  {
    if b then 1 else 0
  }

  lemma {:induction false} RowSetCount(line: seq<char>, col: nat, c: char, tile: char)
    requires col < |line|
    ensures CountInRow(line[col := c], tile) + Indicator(line[col] == tile)
         == CountInRow(line, tile) + Indicator(c == tile)
    decreases |line|
  {
    var n := |line| - 1;
    if col < n {
      assert line[col := c][..n] == line[..n][col := c];
      RowSetCount(line[..n], col, c, tile);
    } else {
      assert line[col := c][..n] == line[..n];
    }
  }

  /** Overwriting one cell changes the count of a tile by what left and
      what arrived. */
  lemma {:induction false} SetCellCount(grid: Grid, row: nat, col: nat, c: char, tile: char)
    requires InGrid(grid, row, col)
    ensures CountTiles(SetCell(grid, row, col, c), tile) + Indicator(grid[row][col] == tile)
         == CountTiles(grid, tile) + Indicator(c == tile)
    decreases |grid|
  {
    var n := |grid| - 1;
    var g := SetCell(grid, row, col, c);
    if row < n {
      assert g[..n] == SetCell(grid[..n], row, col, c);
      assert g[n] == grid[n];
      SetCellCount(grid[..n], row, col, c, tile);
    } else {
      assert g[..n] == grid[..n];
      RowSetCount(grid[n], col, c, tile);
    }
  }
}
