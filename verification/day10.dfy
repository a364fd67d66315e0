/** Pipe maze: a grid of pipe glyphs, each connecting two of the four
    directions, is walked from the start tile; tiles off the loop are
    cleared and the inside is flood-filled. */
module Day10 {
  import opened Common
  import opened Grids

  datatype Direction = Up | Down | Left | Right

  function Opposite(d: Direction): (r: Direction)
    ensures r != d
  {
    match d
    case Up => Down
    case Down => Up
    case Left => Right
    case Right => Left
  }

  /** The quarter turn to the right, as seen on a map with up at the top. */
  function Clockwise(d: Direction): (r: Direction)
    ensures r != d && r != Opposite(d)
  {
    match d
    case Up => Right
    case Right => Down
    case Down => Left
    case Left => Up
  }

  predicate IsLeftTurn(d: Direction, next: Direction)
  {
    match d
    case Up => next == Left
    case Left => next == Down
    case Down => next == Right
    case Right => next == Up
  }

  predicate IsRightTurn(d: Direction, next: Direction)
  {
    match d
    case Up => next == Right
    case Right => next == Down
    case Down => next == Left
    case Left => next == Up
  }

  /** A right turn is the clockwise quarter turn and a left turn the one
      that the clockwise turn undoes, so each direction has exactly one of
      each, the two differ, and going straight or back is neither. */
  lemma TurnsAreQuarterTurns(d: Direction, next: Direction)
    ensures IsRightTurn(d, next) <==> next == Clockwise(d)
    ensures IsLeftTurn(d, next) <==> Clockwise(next) == d
    ensures !(IsLeftTurn(d, next) && IsRightTurn(d, next))
    ensures IsLeftTurn(d, next) || IsRightTurn(d, next) <==> next != d && next != Opposite(d)
    ensures Opposite(Opposite(d)) == d && Clockwise(Clockwise(d)) == Opposite(d)
  {
  }

  predicate CanGoUp(c: char)
  {
    c == '|' || c == 'L' || c == 'J'
  }

  predicate CanGoDown(c: char)
  {
    c == '|' || c == '7' || c == 'F'
  }

  predicate CanGoLeft(c: char)
  {
    c == '-' || c == 'J' || c == '7'
  }

  predicate CanGoRight(c: char)
  {
    c == '-' || c == 'L' || c == 'F'
  }

  predicate CanGo(c: char, d: Direction)
  {
    match d
    case Up => CanGoUp(c)
    case Down => CanGoDown(c)
    case Left => CanGoLeft(c)
    case Right => CanGoRight(c)
  }

  /** The directions a glyph connects. */
  function Exits(c: char): set<Direction>
  {
    set d: Direction | d in {Up, Down, Left, Right} && CanGo(c, d)
  }

  predicate IsPipe(c: char)
  {
    c == '|' || c == '-' || c == 'L' || c == 'J' || c == '7' || c == 'F'
  }

  /** Each of the six pipe glyphs connects exactly two directions, and every
      other character (ground, the start, anything else) connects none. */
  lemma PipesHaveTwoExits(c: char)
    ensures IsPipe(c) ==> |Exits(c)| == 2
    ensures !IsPipe(c) ==> Exits(c) == {}
  {
    if c == '|' {
      assert Exits(c) == {Up, Down};
    } else if c == '-' {
      assert Exits(c) == {Left, Right};
    } else if c == 'L' {
      assert Exits(c) == {Up, Right};
    } else if c == 'J' {
      assert Exits(c) == {Up, Left};
    } else if c == '7' {
      assert Exits(c) == {Down, Left};
    } else if c == 'F' {
      assert Exits(c) == {Down, Right};
    }
  }

  predicate RowMajorBefore(r1: int, c1: int, r2: int, c2: int)
  {
    r1 < r2 || (r1 == r2 && c1 < c2)
  }

  /** The first cell holding `tile` in row-major order. */
  method FindFirstTile(grid: Grid, tile: char) returns (r: Option<(nat, nat)>)
    ensures r.None? <==> forall row, col :: InGrid(grid, row, col) ==> grid[row][col] != tile
    ensures r.Some? ==> InGrid(grid, r.value.0, r.value.1) && grid[r.value.0][r.value.1] == tile
    ensures r.Some? ==> forall row, col ::
      InGrid(grid, row, col) && RowMajorBefore(row, col, r.value.0, r.value.1) ==> grid[row][col] != tile
  {
    for row := 0 to |grid|
      invariant forall i, j :: 0 <= i < row && 0 <= j < |grid[i]| ==> grid[i][j] != tile
    {
      for col := 0 to |grid[row]|
        invariant forall i, j :: 0 <= i < row && 0 <= j < |grid[i]| ==> grid[i][j] != tile
        invariant forall j :: 0 <= j < col ==> grid[row][j] != tile
      {
        if grid[row][col] == tile {
          return Some((row, col));
        }
      }
    }
    return None;
  }

  /** One move: the cell reached and the direction it was entered by. */
  datatype Step = Step(row: int, col: int, dir: Direction)

  function Move(row: int, col: int, d: Direction): Step
  {
    match d
    case Up => Step(row - 1, col, d)
    case Down => Step(row + 1, col, d)
    case Left => Step(row, col - 1, d)
    case Right => Step(row, col + 1, d)
  }

  /** Reading a cell, as an index does in the original: off the grid it
      aborts (that includes a coordinate decremented below 0, an unsigned
      underflow there). */
  function CellAt(grid: Grid, row: int, col: int): (r: Result<char>)
    ensures r.Ok? <==> InGrid(grid, row, col)
    ensures r.Ok? ==> r.value == grid[row][col]
  {
    if InGrid(grid, row, col) then Ok(grid[row][col]) else Err("index out of bounds")
  }

  /** The neighbour in direction `d` is a pipe leading back to the cell. */
  predicate ConnectsBack(grid: Grid, row: int, col: int, d: Direction)
  {
    var s := Move(row, col, d);
    InGrid(grid, s.row, s.col) && CanGo(grid[s.row][s.col], Opposite(d))
  }

  /** The order in which both step functions try the directions. */
  function Rank(d: Direction): nat
  {
    match d
    case Up => 0
    case Down => 1
    case Left => 2
    case Right => 3
  }

  /** The first tile after the start: the first of up, down, left and right
      whose neighbour leads back.  Each test reads the neighbour only when it
      is on the grid's row range or column range, as the original checks;
      a neighbour row too short for the column aborts. */
  function GetNextTileFromStart(grid: Grid, row: nat, col: nat): (r: Result<Option<Step>>)
    requires row < |grid|
    ensures r.Ok? && r.value.Some? ==>
      r.value.value == Move(row, col, r.value.value.dir) && ConnectsBack(grid, row, col, r.value.value.dir)
    ensures r.Ok? && r.value.Some? ==>
      forall d :: Rank(d) < Rank(r.value.value.dir) ==> !ConnectsBack(grid, row, col, d)
    ensures r.Ok? && r.value.None? ==> forall d :: !ConnectsBack(grid, row, col, d)
    ensures (forall k :: 0 <= k < |grid| ==> |grid[k]| == |grid[row]|) && col < |grid[row]| ==> r.Ok?
  {
    var up := if row > 0 then CellAt(grid, row - 1, col) else Ok('.');
    if up.Err? then Err(up.reason)
    else if row > 0 && CanGoDown(up.value) then Ok(Some(Step(row - 1, col, Up)))
    else
      var down := if row < |grid| - 1 then CellAt(grid, row + 1, col) else Ok('.');
      if down.Err? then Err(down.reason)
      else if row < |grid| - 1 && CanGoUp(down.value) then Ok(Some(Step(row + 1, col, Down)))
      else
        var left := if col > 0 then CellAt(grid, row, col - 1) else Ok('.');
        if left.Err? then Err(left.reason)
        else if col > 0 && CanGoRight(left.value) then Ok(Some(Step(row, col - 1, Left)))
        else if col < |grid[row]| - 1 && CanGoLeft(grid[row][col + 1]) then
          Ok(Some(Step(row, col + 1, Right)))
        else Ok(None)
  }

  /** The next tile along the loop: the first exit of the current glyph,
      in the order up, down, left, right, that does not lead straight back
      the way the walk came in.  Leaving the grid across row or column 0
      aborts, as the unsigned decrement does in the original. */
  function GetNextTile(grid: Grid, row: nat, col: nat, dir: Direction): (r: Result<Option<Step>>)
    ensures r.Ok? ==> InGrid(grid, row, col)
    ensures r.Ok? && r.value.Some? ==>
      var s := r.value.value;
      s == Move(row, col, s.dir) && s.dir != Opposite(dir) && CanGo(grid[row][col], s.dir)
      && s.row >= 0 && s.col >= 0
    ensures r.Ok? && r.value.Some? ==>
      forall d :: Rank(d) < Rank(r.value.value.dir) && d != Opposite(dir) ==> !CanGo(grid[row][col], d)
    ensures r == Ok(None) ==> forall d :: d != Opposite(dir) ==> !CanGo(grid[row][col], d)
    ensures InGrid(grid, row, col) && (forall d :: d != Opposite(dir) ==> !CanGo(grid[row][col], d)) ==>
      r == Ok(None)
  {
    var current := CellAt(grid, row, col);
    if current.Err? then Err(current.reason)
    else if dir != Down && CanGo(current.value, Up) then
      if row == 0 then Err("attempt to subtract with overflow") else Ok(Some(Step(row - 1, col, Up)))
    else if dir != Up && CanGo(current.value, Down) then Ok(Some(Step(row + 1, col, Down)))
    else if dir != Right && CanGo(current.value, Left) then
      if col == 0 then Err("attempt to subtract with overflow") else Ok(Some(Step(row, col - 1, Left)))
    else if dir != Left && CanGo(current.value, Right) then Ok(Some(Step(row, col + 1, Right)))
    else Ok(None)
  }

  /** Entering a pipe through one of its ends leaves it through the other:
      the step taken is the glyph's second exit, unless that exit crosses
      row or column 0. */
  lemma FollowPipe(grid: Grid, row: nat, col: nat, dir: Direction)
    requires InGrid(grid, row, col)
    requires IsPipe(grid[row][col])
    requires CanGo(grid[row][col], Opposite(dir))
    ensures GetNextTile(grid, row, col, dir).Ok? ==>
      var r := GetNextTile(grid, row, col, dir);
      r.value.Some? && Exits(grid[row][col]) == {Opposite(dir), r.value.value.dir}
    ensures GetNextTile(grid, row, col, dir).Err? ==>
      (row == 0 && Up in Exits(grid[row][col])) || (col == 0 && Left in Exits(grid[row][col]))
  {
    var c := grid[row][col];
    PipesHaveTwoExits(c);
    var r := GetNextTile(grid, row, col, dir);
    if r.Ok? {
      var exits := Exits(c);
      if r.value.None? {
        assert false;
      } else {
        var s := r.value.value;
        assert s.dir in exits && Opposite(dir) in exits && s.dir != Opposite(dir);
        SubsetCard({Opposite(dir), s.dir}, exits);
      }
    }
  }

  /** Every cell not on the loop becomes `tile`. */
  function ReplaceNoneLoopTiles(grid: Grid, loopTiles: set<(int, int)>, tile: char): (r: Grid)
    ensures |r| == |grid|
    ensures forall row :: 0 <= row < |grid| ==> |r[row]| == |grid[row]|
  {
    seq(|grid|, row requires 0 <= row < |grid| =>
      seq(|grid[row]|, col requires 0 <= col < |grid[row]| =>
        if (row, col) in loopTiles then grid[row][col] else tile))
  }

  /** The loop cells keep their glyphs, every other cell holds `tile`, and
      replacing again changes nothing. */
  lemma ReplaceKeepsOnlyLoop(grid: Grid, loopTiles: set<(int, int)>, tile: char, row: int, col: int)
    requires InGrid(grid, row, col)
    ensures (row, col) in loopTiles ==> ReplaceNoneLoopTiles(grid, loopTiles, tile)[row][col] == grid[row][col]
    ensures (row, col) !in loopTiles ==> ReplaceNoneLoopTiles(grid, loopTiles, tile)[row][col] == tile
  {
  }

  lemma ReplaceIsIdempotent(grid: Grid, loopTiles: set<(int, int)>, tile: char)
    ensures var once := ReplaceNoneLoopTiles(grid, loopTiles, tile);
            ReplaceNoneLoopTiles(once, loopTiles, tile) == once
  {
    var once := ReplaceNoneLoopTiles(grid, loopTiles, tile);
    var twice := ReplaceNoneLoopTiles(once, loopTiles, tile);
    forall row | 0 <= row < |once|
      ensures twice[row] == once[row]
    {
      forall col | 0 <= col < |once[row]|
        ensures twice[row][col] == once[row][col]
      {
        ReplaceKeepsOnlyLoop(grid, loopTiles, tile, row, col);
        ReplaceKeepsOnlyLoop(once, loopTiles, tile, row, col);
      }
    }
  }

  /** `b` differs from `a` only where `a` held `oldTile` and `b` holds `newTile`. */
  ghost predicate OnlyOldToNew(a: Grid, b: Grid, oldTile: char, newTile: char)
  {
    SameShape(a, b)
    && forall row, col :: InGrid(a, row, col) ==>
      b[row][col] == a[row][col] || (a[row][col] == oldTile && b[row][col] == newTile)
  }

  predicate RowOnlyOldToNew(a: seq<char>, b: seq<char>, oldTile: char, newTile: char)
  {
    |a| == |b| && forall k :: 0 <= k < |a| ==> b[k] == a[k] || (a[k] == oldTile && b[k] == newTile)
  }

  lemma {:induction false} RowCountDrops(a: seq<char>, b: seq<char>, oldTile: char, newTile: char)
    requires oldTile != newTile
    requires RowOnlyOldToNew(a, b, oldTile, newTile)
    ensures CountInRow(b, oldTile) <= CountInRow(a, oldTile)
    decreases |a|
  {
    if |a| > 0 {
      RowCountDrops(a[..|a| - 1], b[..|b| - 1], oldTile, newTile);
    }
  }

  /** Turning `oldTile` cells into `newTile` never adds an `oldTile` cell. */
  lemma {:induction false} CountDrops(a: Grid, b: Grid, oldTile: char, newTile: char)
    requires oldTile != newTile
    requires OnlyOldToNew(a, b, oldTile, newTile)
    ensures CountTiles(b, oldTile) <= CountTiles(a, oldTile)
    decreases |a|
  {
    if |a| > 0 {
      var n := |a| - 1;
      assert OnlyOldToNew(a[..n], b[..n], oldTile, newTile) by {
        forall row, col | InGrid(a[..n], row, col)
          ensures b[..n][row][col] == a[..n][row][col]
               || (a[..n][row][col] == oldTile && b[..n][row][col] == newTile)
        {
          assert InGrid(a, row, col);
        }
      }
      CountDrops(a[..n], b[..n], oldTile, newTile);
      assert RowOnlyOldToNew(a[n], b[n], oldTile, newTile) by {
        forall k | 0 <= k < |a[n]|
          ensures b[n][k] == a[n][k] || (a[n][k] == oldTile && b[n][k] == newTile)
        {
          assert InGrid(a, n, k);
        }
      }
      RowCountDrops(a[n], b[n], oldTile, newTile);
    }
  }

  /** The four neighbours of a cell lie on the grid and none holds `oldTile`. */
  predicate Settled(grid: Grid, row: int, col: int, oldTile: char)
  {
    InGrid(grid, row - 1, col) && grid[row - 1][col] != oldTile
    && InGrid(grid, row + 1, col) && grid[row + 1][col] != oldTile
    && InGrid(grid, row, col - 1) && grid[row][col - 1] != oldTile
    && InGrid(grid, row, col + 1) && grid[row][col + 1] != oldTile
  }

  /** Every cell that changed between `a` and `b` is settled in `b`: the
      fill reached each of its neighbours. */
  ghost predicate Closed(a: Grid, b: Grid, oldTile: char)
    requires SameShape(a, b)
  {
    forall row, col :: InGrid(a, row, col) && b[row][col] != a[row][col] ==> Settled(b, row, col, oldTile)
  }

  lemma OnlyOldToNewTrans(a: Grid, b: Grid, c: Grid, oldTile: char, newTile: char)
    requires oldTile != newTile
    requires OnlyOldToNew(a, b, oldTile, newTile) && OnlyOldToNew(b, c, oldTile, newTile)
    ensures OnlyOldToNew(a, c, oldTile, newTile)
  {
    forall row, col | InGrid(a, row, col)
      ensures c[row][col] == a[row][col] || (a[row][col] == oldTile && c[row][col] == newTile)
    {
      assert InGrid(b, row, col);
    }
  }

  lemma SettledStays(b: Grid, c: Grid, row: int, col: int, oldTile: char, newTile: char)
    requires oldTile != newTile
    requires OnlyOldToNew(b, c, oldTile, newTile)
    requires Settled(b, row, col, oldTile)
    ensures Settled(c, row, col, oldTile)
  {
    assert InGrid(b, row - 1, col) && InGrid(b, row + 1, col);
    assert InGrid(b, row, col - 1) && InGrid(b, row, col + 1);
  }

  lemma ClosedTrans(a: Grid, b: Grid, c: Grid, oldTile: char, newTile: char)
    requires oldTile != newTile
    requires OnlyOldToNew(a, b, oldTile, newTile) && OnlyOldToNew(b, c, oldTile, newTile)
    requires Closed(a, b, oldTile) && Closed(b, c, oldTile)
    ensures SameShape(a, c) && Closed(a, c, oldTile)
  {
    forall row, col | InGrid(a, row, col) && c[row][col] != a[row][col]
      ensures Settled(c, row, col, oldTile)
    {
      assert InGrid(b, row, col);
      if b[row][col] != a[row][col] {
        SettledStays(b, c, row, col, oldTile, newTile);
      }
    }
  }

  /** Flood fill from one cell: an `oldTile` cell becomes `newTile` and the
      fill continues up, down, left and right; any other cell stops it.
      Each filled cell removes one `oldTile` cell, so the recursion ends when
      the two tiles differ.  Stepping off the grid aborts, so a fill that
      succeeds was bordered: every filled cell's neighbours are on the grid
      and none of them is left holding `oldTile`. */
  method MarkBlob(grid: Grid, row: int, col: int, oldTile: char, newTile: char) returns (r: Result<Grid>)
    requires oldTile != newTile
    ensures r.Ok? ==> InGrid(grid, row, col) && OnlyOldToNew(grid, r.value, oldTile, newTile)
    ensures r.Ok? ==> Closed(grid, r.value, oldTile)
    ensures r.Ok? ==> r.value[row][col] != oldTile
    ensures r.Ok? && grid[row][col] != oldTile ==> r.value == grid
    decreases CountTiles(grid, oldTile), 0, 0
  {
    if !InGrid(grid, row, col) {
      return Err("index out of bounds");
    }
    if grid[row][col] != oldTile {
      return Ok(grid);
    }
    var g0 := SetCell(grid, row, col, newTile);
    SetCellCount(grid, row, col, newTile, oldTile);
    var neighbours := [(row - 1, col), (row + 1, col), (row, col - 1), (row, col + 1)];
    r := MarkEach(g0, neighbours, oldTile, newTile);
    if r.Ok? {
      FillCloses(grid, g0, r.value, row, col, oldTile, newTile);
    }
  }

  /** The cells have all been filled from, in order. */
  ghost predicate AllReached(grid: Grid, cells: seq<(int, int)>, oldTile: char)
  {
    forall k :: 0 <= k < |cells| ==>
      InGrid(grid, cells[k].0, cells[k].1) && grid[cells[k].0][cells[k].1] != oldTile
  }

  /** `MarkBlob` from each cell in turn, each fill starting on the grid the
      previous one left. */
  method MarkEach(grid: Grid, cells: seq<(int, int)>, oldTile: char, newTile: char) returns (r: Result<Grid>)
    requires oldTile != newTile
    ensures r.Ok? ==> OnlyOldToNew(grid, r.value, oldTile, newTile) && Closed(grid, r.value, oldTile)
    ensures r.Ok? ==> AllReached(r.value, cells, oldTile)
    decreases CountTiles(grid, oldTile), 1, |cells|
  {
    if |cells| == 0 {
      return Ok(grid);
    }
    var first := MarkBlob(grid, cells[0].0, cells[0].1, oldTile, newTile);
    if first.Err? {
      return first;
    }
    var g1 := first.value;
    CountDrops(grid, g1, oldTile, newTile);
    r := MarkEach(g1, cells[1..], oldTile, newTile);
    if r.Ok? {
      EachCloses(grid, g1, r.value, cells, oldTile, newTile);
    }
  }

  lemma EachCloses(grid: Grid, g1: Grid, g2: Grid, cells: seq<(int, int)>, oldTile: char, newTile: char)
    requires oldTile != newTile && |cells| > 0
    requires OnlyOldToNew(grid, g1, oldTile, newTile) && Closed(grid, g1, oldTile)
    requires OnlyOldToNew(g1, g2, oldTile, newTile) && Closed(g1, g2, oldTile)
    requires InGrid(grid, cells[0].0, cells[0].1) && g1[cells[0].0][cells[0].1] != oldTile
    requires AllReached(g2, cells[1..], oldTile)
    ensures OnlyOldToNew(grid, g2, oldTile, newTile) && Closed(grid, g2, oldTile)
    ensures AllReached(g2, cells, oldTile)
  {
    OnlyOldToNewTrans(grid, g1, g2, oldTile, newTile);
    ClosedTrans(grid, g1, g2, oldTile, newTile);
    assert InGrid(g1, cells[0].0, cells[0].1);
    forall k | 0 <= k < |cells|
      ensures InGrid(g2, cells[k].0, cells[k].1) && g2[cells[k].0][cells[k].1] != oldTile
    {
      if k > 0 {
        assert cells[1..][k - 1] == cells[k];
      }
    }
  }

  /** Filling the cell itself and then from its four neighbours is one
      closed fill. */
  lemma FillCloses(grid: Grid, g0: Grid, g: Grid, row: int, col: int, oldTile: char, newTile: char)
    requires oldTile != newTile
    requires InGrid(grid, row, col) && grid[row][col] == oldTile
    requires g0 == SetCell(grid, row, col, newTile)
    requires OnlyOldToNew(g0, g, oldTile, newTile) && Closed(g0, g, oldTile)
    requires AllReached(g, [(row - 1, col), (row + 1, col), (row, col - 1), (row, col + 1)], oldTile)
    ensures OnlyOldToNew(grid, g, oldTile, newTile)
    ensures Closed(grid, g, oldTile)
    ensures g[row][col] != oldTile
  {
    var cells := [(row - 1, col), (row + 1, col), (row, col - 1), (row, col + 1)];
    assert OnlyOldToNew(grid, g0, oldTile, newTile);
    OnlyOldToNewTrans(grid, g0, g, oldTile, newTile);
    assert Settled(g, row, col, oldTile) by {
      assert cells[0] == (row - 1, col) && cells[1] == (row + 1, col);
      assert cells[2] == (row, col - 1) && cells[3] == (row, col + 1);
    }
    assert g[row][col] != oldTile by {
      assert InGrid(g0, row, col) && g0[row][col] == newTile;
    }
    forall i, j | InGrid(grid, i, j) && g[i][j] != grid[i][j]
      ensures Settled(g, i, j, oldTile)
    {
      assert InGrid(g0, i, j);
      if i != row || j != col {
        assert g0[i][j] == grid[i][j];
      }
    }
  }
}
