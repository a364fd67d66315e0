/** Parabolic reflector dish: round rocks 'O' roll on a platform until a
    cube rock '#', another round rock or the edge stops them; the platform
    is tilted north, west, south and east, and the load on the north beams
    is weighed. */
module Day14 {
  import opened Common
  import opened Grids

  /** The four tilts. */
  datatype Tilt = North | West | South | East

  /** The platform's width as the tilts see it: the first row's length.
      A longer row is not visited past it, and reading a shorter row past
      its end gives no cell at all, which is not '.'. */
  function Width(grid: Grid): nat
  {
    if |grid| == 0 then 0 else |grid[0]|
  }

  predicate IsAt(grid: Grid, row: int, col: int, c: char)
  {
    InGrid(grid, row, col) && grid[row][col] == c
  }

  /** The neighbour a rock rolls to, or `None` at the edge the tilt faces. */
  function Next(grid: Grid, t: Tilt, row: int, col: int): Option<(int, int)>
  {
    match t
    case North => if row > 0 then Some((row - 1, col)) else None
    case South => if row < |grid| - 1 then Some((row + 1, col)) else None
    case West => if col > 0 then Some((row, col - 1)) else None
    case East => if col < Width(grid) - 1 then Some((row, col + 1)) else None
  }

  /** How far the edge the tilt faces is from `(row, col)`. */
  function ToEdge(grid: Grid, t: Tilt, row: int, col: int): int
  {
    match t
    case North => row
    case South => |grid| - row
    case West => col
    case East => Width(grid) - col
  }

  /** Where a rock starting at `(row, col)` stops: it moves on while the
      next cell is '.', and stays put at the edge or before anything else. */
  function Slide(grid: Grid, t: Tilt, row: int, col: int): (r: (int, int))
    requires InGrid(grid, row, col)
    ensures InGrid(grid, r.0, r.1)
    ensures r == (row, col) || IsAt(grid, r.0, r.1, '.')
    ensures var n := Next(grid, t, r.0, r.1); n.None? || !IsAt(grid, n.value.0, n.value.1, '.')
    decreases ToEdge(grid, t, row, col)
  {
    var n := Next(grid, t, row, col);
    if n.None? || !IsAt(grid, n.value.0, n.value.1, '.') then (row, col)
    else Slide(grid, t, n.value.0, n.value.1)
  }

  /** The rock at `(row, col)` is lifted, leaving '.', and set down where
      it stops rolling. */
  function MoveRock(grid: Grid, t: Tilt, row: int, col: int): Grid
    requires IsAt(grid, row, col, 'O')
  {
    var cleared := SetCell(grid, row, col, '.');
    var stop := Slide(cleared, t, row, col);
    SetCell(cleared, stop.0, stop.1, 'O')
  }

  /** `b` differs from `a` only in cells that are '.' or 'O' in both: cube
      rocks and every other character stay where they were. */
  ghost predicate OnlyRocksMoved(a: Grid, b: Grid)
  {
    SameShape(a, b)
    && forall row, col :: InGrid(a, row, col) && b[row][col] != a[row][col] ==>
      (a[row][col] == '.' || a[row][col] == 'O') && (b[row][col] == '.' || b[row][col] == 'O')
  }

  lemma OnlyRocksMovedTrans(a: Grid, b: Grid, c: Grid)
    requires OnlyRocksMoved(a, b) && OnlyRocksMoved(b, c)
    ensures OnlyRocksMoved(a, c)
  {
    forall row, col | InGrid(a, row, col) && c[row][col] != a[row][col]
      ensures (a[row][col] == '.' || a[row][col] == 'O') && (c[row][col] == '.' || c[row][col] == 'O')
    {
      assert InGrid(b, row, col);
    }
  }

  /** Writing `a` and then `b` onto two cells of a grid, where `a` and `b`
      are each '.' or 'O' and the first cell held 'O' and the second '.'
      (or is the first), moves only rocks. */
  lemma TwoRockWritesOnlyRocks(grid: Grid, row: nat, col: nat, sr: nat, sc: nat)
    requires IsAt(grid, row, col, 'O')
    requires InGrid(grid, sr, sc)
    requires (sr, sc) == (row, col) || grid[sr][sc] == '.'
    ensures OnlyRocksMoved(grid, SetCell(SetCell(grid, row, col, '.'), sr, sc, 'O'))
  {
    var cleared := SetCell(grid, row, col, '.');
    var moved := SetCell(cleared, sr, sc, 'O');
    forall i, j | InGrid(grid, i, j) && moved[i][j] != grid[i][j]
      ensures (grid[i][j] == '.' || grid[i][j] == 'O') && (moved[i][j] == '.' || moved[i][j] == 'O')
    {
      assert (i, j) == (row, col) || (i, j) == (sr, sc);
    }
  }

  /** Moving a rock changes only its start cell and the cell it stops on,
      which now holds it; the number of rocks is the same. */
  lemma MoveRockFacts(grid: Grid, t: Tilt, row: int, col: int)
    requires IsAt(grid, row, col, 'O')
    ensures var cleared := SetCell(grid, row, col, '.');
            var stop := Slide(cleared, t, row, col);
            var moved := MoveRock(grid, t, row, col);
            OnlyRocksMoved(grid, moved)
            && CountTiles(moved, 'O') == CountTiles(grid, 'O')
            && moved[stop.0][stop.1] == 'O'
            && (stop != (row, col) ==> moved[row][col] == '.')
            && forall i, j :: InGrid(grid, i, j) && (i, j) != (row, col) && (i, j) != stop ==>
                 moved[i][j] == grid[i][j]
  {
    var cleared := SetCell(grid, row, col, '.');
    var stop := Slide(cleared, t, row, col);
    var moved := SetCell(cleared, stop.0, stop.1, 'O');
    assert moved == MoveRock(grid, t, row, col);
    assert stop == (row, col) || grid[stop.0][stop.1] == '.';
    TwoRockWritesOnlyRocks(grid, row, col, stop.0, stop.1);
    SetCellCount(grid, row, col, '.', 'O');
    SetCellCount(cleared, stop.0, stop.1, 'O', 'O');
  }

  /** A tilt visits every cell of the first row's width, rows and columns
      ascending for north and west and descending for south and east, and
      rolls each rock it finds.  Rocks are neither made nor lost and cube
      rocks stay put. */
  method TiltPlatform(grid: Grid, t: Tilt) returns (g: Grid)
    ensures OnlyRocksMoved(grid, g)
    ensures CountTiles(g, 'O') == CountTiles(grid, 'O')
  {
    g := grid;
    var width := Width(grid);
    var rows := |grid|;
    for k := 0 to rows
      invariant OnlyRocksMoved(grid, g)
      invariant CountTiles(g, 'O') == CountTiles(grid, 'O')
    {
      var row := if t == North || t == West then k else rows - 1 - k;
      for m := 0 to width
        invariant OnlyRocksMoved(grid, g)
        invariant CountTiles(g, 'O') == CountTiles(grid, 'O')
      {
        var col := if t == North || t == West then m else width - 1 - m;
        if IsAt(g, row, col, 'O') {
          MoveRockFacts(g, t, row, col);
          OnlyRocksMovedTrans(grid, g, MoveRock(g, t, row, col));
          g := MoveRock(g, t, row, col);
        }
      }
    }
  }

  /** No rock within the first row's width has '.' directly above it. */
  predicate NorthSettled(grid: Grid)
  {
    forall row, col :: 0 < row < |grid| && 0 <= col < Width(grid) && IsAt(grid, row, col, 'O') ==>
      !IsAt(grid, row - 1, col, '.')
  }

  /** Settled up to the cell `(row, col)` in row-major order. */
  ghost predicate SettledBefore(grid: Grid, row: int, col: int)
  {
    forall i, j ::
      0 < i && j < Width(grid) && (i < row || (i == row && j < col)) && IsAt(grid, i, j, 'O')
      ==> !IsAt(grid, i - 1, j, '.')
  }

  /** A rock rolled north from the next unvisited cell keeps every visited
      rock settled and is settled itself. */
  lemma NorthMoveKeepsSettled(g: Grid, row: nat, col: nat)
    requires IsAt(g, row, col, 'O') && col < Width(g)
    requires SettledBefore(g, row, col)
    ensures SettledBefore(MoveRock(g, North, row, col), row, col + 1)
  {
    var cleared := SetCell(g, row, col, '.');
    var stop := Slide(cleared, North, row, col);
    var moved := MoveRock(g, North, row, col);
    MoveRockFacts(g, North, row, col);
    forall i, j |
      0 < i && j < Width(moved) && (i < row || (i == row && j < col + 1)) && IsAt(moved, i, j, 'O')
      ensures !IsAt(moved, i - 1, j, '.')
    {
      if (i, j) == stop {
        assert !IsAt(cleared, i - 1, j, '.');
        assert (i - 1, j) != (row, col);
      } else {
        assert (i, j) != (row, col) || stop == (row, col);
        assert IsAt(g, i, j, 'O');
        assert !IsAt(g, i - 1, j, '.');
      }
    }
  }

  /** Rolling north keeps the column and passes only '.' cells. */
  lemma {:induction false} SlideNorthPath(grid: Grid, row: int, col: int)
    requires InGrid(grid, row, col)
    ensures Slide(grid, North, row, col).1 == col
    ensures Slide(grid, North, row, col).0 <= row
    ensures forall i :: Slide(grid, North, row, col).0 <= i < row ==> IsAt(grid, i, col, '.')
    decreases row
  {
    var n := Next(grid, North, row, col);
    if n.Some? && IsAt(grid, n.value.0, n.value.1, '.') {
      SlideNorthPath(grid, row - 1, col);
    }
  }

  /** A rock that is already settled does not move. */
  lemma SettledRockStays(g: Grid, row: nat, col: nat)
    requires IsAt(g, row, col, 'O')
    requires row == 0 || !IsAt(g, row - 1, col, '.')
    ensures MoveRock(g, North, row, col) == g
  {
    var cleared := SetCell(g, row, col, '.');
    if row > 0 {
      assert !IsAt(cleared, row - 1, col, '.');
    }
    assert Slide(cleared, North, row, col) == (row, col);
    var moved := MoveRock(g, North, row, col);
    assert |moved| == |g|;
    forall i | 0 <= i < |g|
      ensures moved[i] == g[i]
    {
      if i == row {
        assert moved[i] == g[i][col := 'O'];
      }
    }
  }

  /** Tilting north leaves every rock within the first row's width with
      something other than '.' directly above it, and so tilting a tilted
      platform north again changes nothing. */
  method TiltNorth(grid: Grid) returns (g: Grid)
    ensures OnlyRocksMoved(grid, g)
    ensures CountTiles(g, 'O') == CountTiles(grid, 'O')
    ensures NorthSettled(g)
    ensures NorthSettled(grid) ==> g == grid
  {
    g := grid;
    var width := Width(grid);
    for row := 0 to |grid|
      invariant OnlyRocksMoved(grid, g)
      invariant CountTiles(g, 'O') == CountTiles(grid, 'O')
      invariant SettledBefore(g, row, 0)
      invariant NorthSettled(grid) ==> g == grid
    {
      for col := 0 to width
        invariant OnlyRocksMoved(grid, g)
        invariant CountTiles(g, 'O') == CountTiles(grid, 'O')
        invariant SettledBefore(g, row, col)
        invariant NorthSettled(grid) ==> g == grid
      {
        if IsAt(g, row, col, 'O') {
          MoveRockFacts(g, North, row, col);
          NorthMoveKeepsSettled(g, row, col);
          if NorthSettled(grid) {
            SettledRockStays(g, row, col);
          }
          OnlyRocksMovedTrans(grid, g, MoveRock(g, North, row, col));
          g := MoveRock(g, North, row, col);
        }
      }
    }
  }

  /** The rocks a weighing sees in a row: those within the first row's
      width. */
  function RocksInRow(line: seq<char>, width: nat): nat
  {
    CountInRow(if |line| <= width then line else line[..width], 'O')
  }

  /** Each rock weighs the number of rows from its own to the south edge,
      so one in the top row weighs `|grid|` and one in the bottom row 1. */
  function LoadOfRows(grid: Grid, n: nat): nat
    requires n <= |grid|
  {
    if n == 0 then 0 else LoadOfRows(grid, n - 1) + Times(|grid| - (n - 1), RocksInRow(grid[n - 1], Width(grid)))
  }

  function RocksOfRows(grid: Grid, n: nat): nat
    requires n <= |grid|
  {
    if n == 0 then 0 else RocksOfRows(grid, n - 1) + RocksInRow(grid[n - 1], Width(grid))
  }

  /** The rocks of one row within the first row's width, cell by cell. */
  method CountRocks(line: seq<char>, width: nat) returns (seen: nat)
    ensures seen == RocksInRow(line, width)
  {
    seen := 0;
    for col := 0 to width
      invariant seen == CountInRow(if |line| <= col then line else line[..col], 'O')
    {
      if col < |line| {
        assert line[..col + 1][..col] == line[..col];
        if line[col] == 'O' {
          seen := seen + 1;
        }
      }
    }
  }

  /** The load on the north support beams, row by row. */
  method EvalNorthBeamLoad(grid: Grid) returns (load: nat)
    ensures load == LoadOfRows(grid, |grid|)
  {
    var rows := |grid|;
    load := 0;
    for row := 0 to rows
      invariant load == LoadOfRows(grid, row)
    {
      var seen := CountRocks(grid[row], Width(grid));
      var weight: nat := rows - row;
      load := load + weight * seen;
    }
  }

  lemma WeightBounds(weight: nat, rocks: nat, rows: nat)
    requires 1 <= weight <= rows
    ensures rocks <= weight * rocks <= rows * rocks
  {
  }

  lemma Distribute(a: int, x: int, y: int)
    ensures a * (x + y) == a * x + a * y
  {
  }

  /** Every rock weighs between 1 and the number of rows, so the load lies
      between the number of rocks and that many times the number of rows. */
  lemma {:induction false} LoadBounds(grid: Grid, n: nat)
    requires n <= |grid|
    ensures RocksOfRows(grid, n) <= LoadOfRows(grid, n) <= |grid| * RocksOfRows(grid, n)
    decreases n
  {
    if n > 0 {
      LoadBounds(grid, n - 1);
      var rocks := RocksInRow(grid[n - 1], Width(grid));
      var before := RocksOfRows(grid, n - 1);
      var weight := |grid| - (n - 1);
      assert LoadOfRows(grid, n) == LoadOfRows(grid, n - 1) + weight * rocks;
      assert RocksOfRows(grid, n) == before + rocks;
      WeightBounds(weight, rocks, |grid|);
      Distribute(|grid|, before, rocks);
    }
  }

  /** The text of a platform: rows joined by newlines. */
  function Join(lines: seq<seq<char>>): seq<char>
  {
    if |lines| == 0 then []
    else if |lines| == 1 then lines[0]
    else lines[0] + "\n" + Join(lines[1..])
  }

  /** The rows of a text: the pieces between newlines, one more than there
      are newlines. */
  function Split(s: seq<char>): (r: seq<seq<char>>)
    ensures |r| >= 1
  {
    if |s| == 0 then [[]]
    else
      var rest := Split(s[1..]);
      if s[0] == '\n' then [[]] + rest
      else [[s[0]] + rest[0]] + rest[1..]
  }

  predicate NoNewline(line: seq<char>)
  {
    forall k :: 0 <= k < |line| ==> line[k] != '\n'
  }

  lemma {:induction false} JoinConsFirst(c: char, lines: seq<seq<char>>)
    requires |lines| >= 1
    ensures Join([[c] + lines[0]] + lines[1..]) == [c] + Join(lines)
  {
    var l := [[c] + lines[0]] + lines[1..];
    if |lines| > 1 {
      assert l[1..] == lines[1..];
    }
  }

  /** Joining the rows of a text gives the text back. */
  lemma {:induction false} JoinSplit(s: seq<char>)
    ensures Join(Split(s)) == s
    decreases |s|
  {
    if |s| > 0 {
      var rest := Split(s[1..]);
      JoinSplit(s[1..]);
      if s[0] == '\n' {
        assert ([[]] + rest)[1..] == rest;
        assert s == [s[0]] + s[1..];
      } else {
        JoinConsFirst(s[0], rest);
        assert s == [s[0]] + s[1..];
      }
    }
  }

  /** A row without newlines followed by a newline splits off as one row. */
  lemma {:induction false} SplitLine(line: seq<char>, tail: seq<char>, hasTail: bool)
    requires NoNewline(line)
    ensures hasTail ==> Split(line + "\n" + tail) == [line] + Split(tail)
    ensures !hasTail ==> Split(line) == [line]
    decreases |line|
  {
    if |line| > 0 {
      SplitLine(line[1..], tail, hasTail);
      if hasTail {
        assert (line + "\n" + tail)[1..] == line[1..] + "\n" + tail;
        assert [line[0]] + line[1..] == line;
      } else {
        assert [line[0]] + line[1..] == line;
      }
    } else if hasTail {
      assert ("\n" + tail)[1..] == tail;
      assert line + "\n" + tail == "\n" + tail;
    }
  }

  /** Splitting the text of a platform whose cells hold no newline gives
      back its rows; a platform without rows has no such text. */
  lemma {:induction false} SplitJoin(lines: seq<seq<char>>)
    requires |lines| >= 1
    requires forall k :: 0 <= k < |lines| ==> NoNewline(lines[k])
    ensures Split(Join(lines)) == lines
    decreases |lines|
  {
    if |lines| == 1 {
      SplitLine(lines[0], [], false);
    } else {
      SplitJoin(lines[1..]);
      SplitLine(lines[0], Join(lines[1..]), true);
      assert [lines[0]] + lines[1..] == lines;
    }
  }

  /** The spin cycles repeat from cycle `first` with period
      `cycle - first`; the platform after a billion cycles is the one seen
      after this many, which lies in the recorded range. */
  function FirstResultOccurrence(first: int, cycle: int): (r: int)
    requires first < cycle
    ensures first <= 1_000_000_000 ==> first <= r < cycle
  {
    TruncRem(1_000_000_000 - first, cycle - first) + first
  }

  /** The cycle found agrees with the billionth modulo the period, so the
      platforms after both are the same. */
  lemma OccurrenceMatchesBillion(first: int, cycle: int)
    requires first < cycle && first <= 1_000_000_000
    ensures (FirstResultOccurrence(first, cycle) - first) % (cycle - first)
         == (1_000_000_000 - first) % (cycle - first)
  {
    var p := cycle - first;
    var x := 1_000_000_000 - first;
    assert FirstResultOccurrence(first, cycle) - first == x % p;
    ModSmall(x % p, p);
  }
}
