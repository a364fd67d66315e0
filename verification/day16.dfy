/** The floor will be lava: a beam enters a grid of mirrors '/' '\' and
    splitters '|' '-', and every tile some beam passes through is
    energised.  Directions are numbered 0 right, 1 down, 2 left, 3 up. */
module Day16 {
  import opened Common
  import opened Grids

  /** A beam head: the tile it is on and the direction it travels. */
  datatype Beam = Beam(row: int, col: int, dir: int)

  /** One step in a direction, after bringing the direction into range with
      JavaScript's `%`: 0 moves right, 1 down, 2 left, 3 up. */
  function Move(b: Beam, dir: int): (r: Beam)
    ensures -4 <= dir ==> 0 <= r.dir < 4
    ensures -3 <= r.dir <= 3
    ensures r.dir == 0 ==> r == Beam(b.row, b.col + 1, 0)
    ensures r.dir == 1 ==> r == Beam(b.row + 1, b.col, 1)
    ensures r.dir == 2 ==> r == Beam(b.row, b.col - 1, 2)
    ensures r.dir == 3 ==> r == Beam(b.row - 1, b.col, 3)
  {
    var d := TruncRem(dir + 4, 4);
    if TruncRem(d, 2) == 0 then Beam(b.row, if d == 0 then b.col + 1 else b.col - 1, d)
    else Beam(if d == 1 then b.row + 1 else b.row - 1, b.col, d)
  }

  /** The directions a beam leaves a tile by, before normalisation.  A tile
      outside the text (a short row) sends nothing on. */
  function NewDirs(tile: Option<char>, dir: int): seq<int>
  {
    if tile.None? then []
    else
      var t := tile.value;
      if TruncRem(dir, 2) == 0 then
        (if t == '\\' || t == '|' then [dir + 1] else [])
        + (if t == '/' || t == '|' then [dir - 1] else [])
        + (if t == '.' || t == '-' then [dir] else [])
      else
        (if t == '/' || t == '-' then [dir + 1] else [])
        + (if t == '\\' || t == '-' then [dir - 1] else [])
        + (if t == '.' || t == '|' then [dir] else [])
  }

  predicate IsTile(t: char)
  {
    t == '.' || t == '/' || t == '\\' || t == '|' || t == '-'
  }

  /** A splitter hit across its line splits the beam in two; every other
      known tile passes the beam on in one direction, and '.' keeps the
      direction. */
  lemma NewDirsCount(t: char, dir: int)
    ensures IsTile(t) && ((t == '|' && TruncRem(dir, 2) == 0) || (t == '-' && TruncRem(dir, 2) != 0))
            ==> |NewDirs(Some(t), dir)| == 2
    ensures IsTile(t) && !((t == '|' && TruncRem(dir, 2) == 0) || (t == '-' && TruncRem(dir, 2) != 0))
            ==> |NewDirs(Some(t), dir)| == 1
    ensures !IsTile(t) ==> NewDirs(Some(t), dir) == []
    ensures t == '.' ==> NewDirs(Some(t), dir) == [dir]
  {
  }

  /** The mirror '/' turns right into up and down into left, and back. */
  function SlashTurn(d: int): int
  {
    if d == 0 then 3 else if d == 3 then 0 else if d == 1 then 2 else 1
  }

  /** The mirror '\' turns right into down and left into up, and back. */
  function BackslashTurn(d: int): int
  {
    if d == 0 then 1 else if d == 1 then 0 else if d == 2 then 3 else 2
  }

  /** The `dir + 1` / `dir - 1` arithmetic is the reflection a mirror
      makes. */
  lemma MirrorsReflect(b: Beam)
    requires 0 <= b.dir < 4
    ensures Move(b, NewDirs(Some('/'), b.dir)[0]).dir == SlashTurn(b.dir)
    ensures Move(b, NewDirs(Some('\\'), b.dir)[0]).dir == BackslashTurn(b.dir)
  {
  }

  function TileAt(grid: Grid, row: int, col: int): Option<char>
  {
    if InGrid(grid, row, col) then Some(grid[row][col]) else None
  }

  /** The grid's height and width as the original takes them: the number
      of rows and the first row's length. */
  function Rows(grid: Grid): nat
  {
    |grid|
  }

  function Cols(grid: Grid): nat
  {
    if |grid| == 0 then 0 else |grid[0]|
  }

  predicate OnGrid(grid: Grid, b: Beam)
  {
    0 <= b.row < Rows(grid) && 0 <= b.col < Cols(grid)
  }

  /** The heads a processed beam head pushes. */
  function Successors(grid: Grid, b: Beam): seq<Beam>
  {
    var dirs := NewDirs(TileAt(grid, b.row, b.col), b.dir);
    seq(|dirs|, k requires 0 <= k < |dirs| => Move(b, dirs[k]))
  }

  /** Every state a beam can be in: a tile and a direction that `Move` can
      produce or the one the start has. */
  function States(grid: Grid, start: Beam): set<Beam>
  {
    set r, c, d | 0 <= r < Rows(grid) && 0 <= c < Cols(grid) && d in {-3, -2, -1, 0, 1, 2, 3, start.dir}
      :: Beam(r, c, d)
  }

  /** Each marked state's successors on the grid are marked or still
      waiting among the heads. */
  ghost predicate ClosedBut(grid: Grid, marks: set<Beam>, heads: seq<Beam>)
  {
    forall b, k :: b in marks && 0 <= k < |Successors(grid, b)| && OnGrid(grid, Successors(grid, b)[k])
      ==> Successors(grid, b)[k] in marks || Successors(grid, b)[k] in heads
  }

  /** A run of beam states on the grid, each a successor of the one
      before. */
  ghost predicate IsWalk(grid: Grid, p: seq<Beam>)
  {
    (forall i :: 0 <= i < |p| ==> OnGrid(grid, p[i]))
    && forall i :: 0 < i < |p| ==> p[i] in Successors(grid, p[i - 1])
  }

  /** Some beam from `start` passes through state `b` without leaving the
      grid. */
  ghost predicate Reachable(grid: Grid, start: Beam, b: Beam)
  {
    exists p :: IsWalk(grid, p) && |p| > 0 && p[0] == start && p[|p| - 1] == b
  }

  /** A reachable state's successor on the grid is reachable. */
  lemma ReachableStep(grid: Grid, start: Beam, b: Beam, n: Beam)
    requires Reachable(grid, start, b) && n in Successors(grid, b) && OnGrid(grid, n)
    ensures Reachable(grid, start, n)
  {
    var p :| IsWalk(grid, p) && |p| > 0 && p[0] == start && p[|p| - 1] == b;
    var q := p + [n];
    assert q[|q| - 1] == n && q[|q| - 2] == b;
    assert IsWalk(grid, q);
  }

  /** A walk that starts in a closed set of marks stays in it. */
  lemma {:induction false} WalkStaysMarked(grid: Grid, marks: set<Beam>, p: seq<Beam>)
    requires ClosedBut(grid, marks, []) && IsWalk(grid, p) && |p| > 0 && p[0] in marks
    ensures p[|p| - 1] in marks
    decreases |p|
  {
    if |p| > 1 {
      var q := p[..|p| - 1];
      assert IsWalk(grid, q);
      WalkStaysMarked(grid, marks, q);
      var b := p[|p| - 2];
      var succ := Successors(grid, b);
      var k :| 0 <= k < |succ| && succ[k] == p[|p| - 1];
    }
  }

  /** Propagation with a stack of beam heads: a head off the grid or in a
      state already marked is dropped; otherwise its state is marked and
      its successors pushed.  Each state is marked once, so the loop ends,
      and then the marks are exactly the states a beam from the start
      reaches on the grid. */
  method Propagate(grid: Grid, start: Beam) returns (marks: set<Beam>)
    ensures forall b :: b in marks <==> Reachable(grid, start, b)
  {
    marks := PropagateClosed(grid, start);
    forall b | Reachable(grid, start, b)
      ensures b in marks
    {
      var p :| IsWalk(grid, p) && |p| > 0 && p[0] == start && p[|p| - 1] == b;
      WalkStaysMarked(grid, marks, p);
    }
  }

  /** What the stack loop keeps: marks within the states, heads with
      directions `Move` produces (or the start's), the start marked or
      pending, closure up to the pending heads, and everything marked or
      pending on the grid reachable. */
  ghost predicate PropagateInv(grid: Grid, start: Beam, all: set<Beam>, marks: set<Beam>, heads: seq<Beam>)
  {
    && marks <= all
    && (forall k :: 0 <= k < |heads| ==> -3 <= heads[k].dir <= 3 || heads[k].dir == start.dir)
    && (OnGrid(grid, start) ==> start in marks || start in heads)
    && ClosedBut(grid, marks, heads)
    && (forall b :: b in marks ==> Reachable(grid, start, b))
    && (forall k :: 0 <= k < |heads| && OnGrid(grid, heads[k]) ==> Reachable(grid, start, heads[k]))
  }

  /** The stack loop itself: the marks are reachable, hold the start when
      it is on the grid, and are closed under the beam's moves. */
  method PropagateClosed(grid: Grid, start: Beam) returns (marks: set<Beam>)
    ensures OnGrid(grid, start) ==> start in marks
    ensures forall b :: b in marks ==> Reachable(grid, start, b)
    ensures ClosedBut(grid, marks, [])
  {
    var all := States(grid, start);
    marks := {};
    var heads := [start];
    if OnGrid(grid, start) {
      assert IsWalk(grid, [start]);
    }
    while |heads| > 0
      invariant PropagateInv(grid, start, all, marks, heads)
      decreases |all - marks|, |heads|
    {
      marks, heads := PropagateStep(grid, start, all, marks, heads);
    }
  }

  /** One pop of the stack: a head off the grid or already marked is
      dropped, any other is marked and its successors pushed. */
  method PropagateStep(grid: Grid, start: Beam, all: set<Beam>, marks: set<Beam>, heads: seq<Beam>)
    returns (marks': set<Beam>, heads': seq<Beam>)
    requires all == States(grid, start) && |heads| > 0
    requires PropagateInv(grid, start, all, marks, heads)
    ensures PropagateInv(grid, start, all, marks', heads')
    ensures |all - marks'| < |all - marks| || (marks' == marks && |heads'| < |heads|)
  {
    var head := heads[|heads| - 1];
    var rest := heads[..|heads| - 1];
    assert heads == rest + [head];
    if !OnGrid(grid, head) || head in marks {
      DropHeadInv(grid, start, all, marks, rest, head);
      return marks, rest;
    }
    MarkHeadInv(grid, start, all, marks, rest, head);
    ShrinkingRemainder(all, marks, marks + {head});
    return marks + {head}, rest + Successors(grid, head);
  }

  lemma DropHeadInv(grid: Grid, start: Beam, all: set<Beam>, marks: set<Beam>, rest: seq<Beam>, head: Beam)
    requires PropagateInv(grid, start, all, marks, rest + [head])
    requires !OnGrid(grid, head) || head in marks
    ensures PropagateInv(grid, start, all, marks, rest)
  {
    var heads := rest + [head];
    DropKeepsClosed(grid, marks, rest, head);
    forall k | 0 <= k < |rest|
      ensures rest[k] == heads[k]
    {
    }
  }

  lemma MarkHeadInv(grid: Grid, start: Beam, all: set<Beam>, marks: set<Beam>, rest: seq<Beam>, head: Beam)
    requires all == States(grid, start)
    requires PropagateInv(grid, start, all, marks, rest + [head])
    requires OnGrid(grid, head) && head !in marks
    ensures head in all
    ensures PropagateInv(grid, start, all, marks + {head}, rest + Successors(grid, head))
  {
    var heads := rest + [head];
    var next := Successors(grid, head);
    assert heads[|heads| - 1] == head;
    forall k | 0 <= k < |rest|
      ensures rest[k] == heads[k]
    {
    }
    MarkKeepsClosed(grid, marks, rest, head);
    forall k | 0 <= k < |next| && OnGrid(grid, next[k])
      ensures Reachable(grid, start, next[k])
    {
      ReachableStep(grid, start, head, next[k]);
    }
    ReachableHeads(grid, start, rest, next);
    var heads' := rest + next;
    forall k | 0 <= k < |heads'|
      ensures -3 <= heads'[k].dir <= 3 || heads'[k].dir == start.dir
    {
      if k < |rest| { assert heads'[k] == heads[k]; }
      else { assert heads'[k] == next[k - |rest|]; }
    }
  }

  lemma ReachableHeads(grid: Grid, start: Beam, rest: seq<Beam>, next: seq<Beam>)
    requires forall k :: 0 <= k < |rest| && OnGrid(grid, rest[k]) ==> Reachable(grid, start, rest[k])
    requires forall k :: 0 <= k < |next| && OnGrid(grid, next[k]) ==> Reachable(grid, start, next[k])
    ensures forall k :: 0 <= k < |rest + next| && OnGrid(grid, (rest + next)[k]) ==> Reachable(grid, start, (rest + next)[k])
  {
    forall k | 0 <= k < |rest + next| && OnGrid(grid, (rest + next)[k])
      ensures Reachable(grid, start, (rest + next)[k])
    {
      if k < |rest| { assert (rest + next)[k] == rest[k]; }
      else { assert (rest + next)[k] == next[k - |rest|]; }
    }
  }

  lemma DropKeepsClosed(grid: Grid, marks: set<Beam>, rest: seq<Beam>, head: Beam)
    requires ClosedBut(grid, marks, rest + [head])
    requires !OnGrid(grid, head) || head in marks
    ensures ClosedBut(grid, marks, rest)
  {
    forall b, k | b in marks && 0 <= k < |Successors(grid, b)| && OnGrid(grid, Successors(grid, b)[k])
      ensures Successors(grid, b)[k] in marks || Successors(grid, b)[k] in rest
    {
      var n := Successors(grid, b)[k];
      assert n in marks || n in rest + [head];
    }
  }

  lemma MarkKeepsClosed(grid: Grid, marks: set<Beam>, rest: seq<Beam>, head: Beam)
    requires ClosedBut(grid, marks, rest + [head])
    ensures ClosedBut(grid, marks + {head}, rest + Successors(grid, head))
  {
    var next := Successors(grid, head);
    forall b, k | b in marks + {head} && 0 <= k < |Successors(grid, b)| && OnGrid(grid, Successors(grid, b)[k])
      ensures Successors(grid, b)[k] in marks + {head} || Successors(grid, b)[k] in rest + next
    {
      var n := Successors(grid, b)[k];
      if b == head {
        assert n == (rest + next)[|rest| + k];
      } else {
        assert n in marks || n in rest + [head];
      }
    }
  }

  /** The tiles with at least one mark. */
  function Energized(grid: Grid, marks: set<Beam>): set<(int, int)>
  {
    set r, c | 0 <= r < Rows(grid) && 0 <= c < Cols(grid) && IsMarked(marks, r, c) :: (r, c)
  }

  predicate IsMarked(marks: set<Beam>, r: int, c: int)
  {
    exists b :: b in marks && b.row == r && b.col == c
  }

  /** The marked tiles in the first `cols` columns, before `(r, c)` in
      row-major order. */
  function MarkedBefore(marks: set<Beam>, cols: nat, r: int, c: int): set<(int, int)>
  {
    set i, j | 0 <= i <= r && 0 <= j < cols && (i < r || j < c) && IsMarked(marks, i, j) :: (i, j)
  }

  /** One more tile in row-major order adds it when it is marked. */
  lemma MarkedStep(marks: set<Beam>, cols: nat, r: int, c: int)
    requires 0 <= r && 0 <= c < cols
    ensures IsMarked(marks, r, c) ==>
      MarkedBefore(marks, cols, r, c + 1) == MarkedBefore(marks, cols, r, c) + {(r, c)}
    ensures !IsMarked(marks, r, c) ==>
      MarkedBefore(marks, cols, r, c + 1) == MarkedBefore(marks, cols, r, c)
    ensures (r, c) !in MarkedBefore(marks, cols, r, c)
  {
  }

  lemma MarkedRowEnd(marks: set<Beam>, cols: nat, r: int)
    requires 0 <= r
    ensures MarkedBefore(marks, cols, r, cols) == MarkedBefore(marks, cols, r + 1, 0)
  {
  }

  lemma RowsTimesCols(r: int, cols: int)
    ensures r * cols + cols == (r + 1) * cols
  {
  }

  /** Counting, tile by tile, the tiles with at least one mark. */
  method CountEnergized(grid: Grid, marks: set<Beam>) returns (count: nat)
    ensures count == |Energized(grid, marks)|
    ensures count <= Rows(grid) * Cols(grid)
  {
    count := 0;
    var rows := Rows(grid);
    var cols := Cols(grid);
    for r := 0 to rows
      invariant count == |MarkedBefore(marks, cols, r, 0)|
      invariant count <= r * cols
    {
      for c := 0 to cols
        invariant count == |MarkedBefore(marks, cols, r, c)|
        invariant count <= r * cols + c
      {
        MarkedStep(marks, cols, r, c);
        if IsMarked(marks, r, c) {
          count := count + 1;
        }
      }
      MarkedRowEnd(marks, cols, r);
      RowsTimesCols(r, cols);
    }
    assert MarkedBefore(marks, cols, rows, 0) == Energized(grid, marks);
  }

  /** The tiles some beam from `start` passes through. */
  ghost function ReachedTiles(grid: Grid, start: Beam): set<(int, int)>
  {
    set r, c | 0 <= r < Rows(grid) && 0 <= c < Cols(grid) && TileReached(grid, start, r, c) :: (r, c)
  }

  /** Some beam from `start` passes through the tile at row `r`, column `c`. */
  ghost predicate TileReached(grid: Grid, start: Beam, r: int, c: int)
  {
    exists b :: Reachable(grid, start, b) && b.row == r && b.col == c
  }

  /** The number of energised tiles for a beam entering at `start`: the
      tiles some beam from the start passes through, at least the start's
      tile when it is on the grid, and never more tiles than the grid has. */
  method GetEnergizedTileCount(grid: Grid, start: Beam) returns (count: nat)
    ensures count == |ReachedTiles(grid, start)|
    ensures OnGrid(grid, start) ==> 1 <= count
    ensures count <= Rows(grid) * Cols(grid)
  {
    var marks := Propagate(grid, start);
    count := CountEnergized(grid, marks);
    assert Energized(grid, marks) == ReachedTiles(grid, start) by {
      forall t | t in ReachedTiles(grid, start)
        ensures t in Energized(grid, marks)
      {
        var b :| Reachable(grid, start, b) && b.row == t.0 && b.col == t.1;
        assert IsMarked(marks, t.0, t.1);
      }
    }
    if OnGrid(grid, start) {
      assert IsWalk(grid, [start]);
      assert (start.row, start.col) in Energized(grid, marks);
    }
  }

  /** The part-2 entry beams: for each row one entering from the left and
      one from the right, then for each column one entering from the top
      and one from the bottom, each heading into the grid. */
  function BeamStarts(rows: nat, cols: nat): (r: seq<Beam>)
    ensures |r| == 2 * rows + 2 * cols
    ensures forall k :: 0 <= k < |r| && k < 2 * rows ==> r[k].row == k / 2
    ensures forall k :: 0 <= k < |r| && k < 2 * rows ==>
              (r[k].col == 0 && r[k].dir == 0) || (r[k].col == cols - 1 && r[k].dir == 2)
    ensures forall k :: 0 <= k < |r| && 2 * rows <= k ==> r[k].col == (k - 2 * rows) / 2
    ensures forall k :: 0 <= k < |r| && 2 * rows <= k ==>
              (r[k].row == 0 && r[k].dir == 1) || (r[k].row == rows - 1 && r[k].dir == 3)
  {
    seq(2 * rows, k requires 0 <= k < 2 * rows =>
          if k % 2 == 0 then Beam(k / 2, 0, 0) else Beam(k / 2, cols - 1, 2))
    + seq(2 * cols, k requires 0 <= k < 2 * cols =>
          if k % 2 == 0 then Beam(0, k / 2, 1) else Beam(rows - 1, k / 2, 3))
  }

  /** `best` is the largest of `values`, found at index `arg`. */
  predicate IsMaxAt(values: seq<nat>, best: nat, arg: nat)
  {
    && arg < |values| && values[arg] == best
    && forall k :: 0 <= k < |values| ==> values[k] <= best
  }

  /** Taking one more value into account keeps the running maximum. */
  lemma IsMaxAtStep(values: seq<nat>, best: nat, arg: nat, c: nat)
    requires IsMaxAt(values, best, arg)
    ensures c > best ==> IsMaxAt(values + [c], c, |values|)
    ensures c <= best ==> IsMaxAt(values + [c], best, arg)
  {
    var v := values + [c];
    assert forall k :: 0 <= k < |values| ==> v[k] == values[k];
  }

  /** The most tiles any of the beams energises, and the beam that does. */
  method MaxEnergized(grid: Grid, starts: seq<Beam>) returns (best: nat, ghost arg: nat)
    requires |starts| > 0
    ensures arg < |starts| && best == |ReachedTiles(grid, starts[arg])|
    ensures forall k :: 0 <= k < |starts| ==> |ReachedTiles(grid, starts[k])| <= best
  {
    best := GetEnergizedTileCount(grid, starts[0]);
    arg := 0;
    ghost var values := [best];
    var i := 1;
    while i < |starts|
      invariant 1 <= i <= |starts| && |values| == i
      invariant forall k :: 0 <= k < i ==> values[k] == |ReachedTiles(grid, starts[k])|
      invariant IsMaxAt(values, best, arg)
    {
      var c := GetEnergizedTileCount(grid, starts[i]);
      IsMaxAtStep(values, best, arg, c);
      values := values + [c];
      if c > best {
        best := c;
        arg := i;
      }
      i := i + 1;
    }
  }

  /** Part 2: the most tiles any entry beam energises. */
  method Part2(grid: Grid) returns (best: nat)
    requires |grid| > 0
    ensures var starts := BeamStarts(Rows(grid), Cols(grid));
            (exists k :: 0 <= k < |starts| && best == |ReachedTiles(grid, starts[k])|)
            && forall k :: 0 <= k < |starts| ==> |ReachedTiles(grid, starts[k])| <= best
  {
    var starts := BeamStarts(Rows(grid), Cols(grid));
    ghost var arg;
    best, arg := MaxEnergized(grid, starts);
  }
}
