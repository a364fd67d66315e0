/** Longest hike through a maze of paths, forests ('#') and slopes
    ('^', 'v', '<', '>'): the maze is compressed into a weighted graph over its
    junctions, entrance and exit, and the longest simple path is found by
    exhaustive backtracking. */
module Day23 {
  import opened Common

  /** The maze, one string per row. */
  type Map = seq<string>

  datatype Pos = Pos(row: int, col: int)

  /** A search frontier entry: a cell and the number of steps taken to reach it. */
  datatype PositionState = PositionState(pos: Pos, steps: nat)

  /** Edges of one vertex: target vertex to corridor length. */
  type Edges = map<Pos, nat>

  type Graph = map<Pos, Edges>

  /** The four unit moves in the order the solver tries them: up, down, left, right. */
  const Deltas: seq<Pos> := [Pos(-1, 0), Pos(1, 0), Pos(0, -1), Pos(0, 1)]

  predicate Rectangular(m: Map)
  {
    |m| > 0 && forall r :: 0 <= r < |m| ==> |m[r]| == |m[0]|
  }

  function Add(p: Pos, d: Pos): Pos
  {
    Pos(p.row + d.row, p.col + d.col)
  }

  /** Row-major order on positions. */
  predicate Before(a: Pos, b: Pos)
  {
    a.row < b.row || (a.row == b.row && a.col < b.col)
  }

  /** A cell one may stand on: inside the maze and not forest.  Positions
      outside the maze are simply not legal; asking about them is no fault. */
  predicate IsLegalWaypoint(m: Map, p: Pos)
    requires Rectangular(m)
  {
    0 <= p.row < |m| && 0 <= p.col < |m[0]| && m[p.row][p.col] != '#'
  }

  /** Every legal waypoint of the maze. */
  function Walkable(m: Map): set<Pos>
    requires Rectangular(m)
  {
    set r, c | 0 <= r < |m| && 0 <= c < |m[0]| && m[r][c] != '#' :: Pos(r, c)
  }

  lemma WalkableIsLegal(m: Map, p: Pos)
    requires Rectangular(m)
    ensures p in Walkable(m) <==> IsLegalWaypoint(m, p)
  {
    if IsLegalWaypoint(m, p) {
      assert p == Pos(p.row, p.col);
    }
  }

  /** Index of the first '.' of a row; the original asserts that there is one. */
  function FindFirstPathField(line: string): (r: Option<nat>)
    ensures r.Some? ==> r.value < |line| && line[r.value] == '.'
    ensures r.Some? ==> forall j :: 0 <= j < r.value ==> line[j] != '.'
    ensures r.None? <==> forall j :: 0 <= j < |line| ==> line[j] != '.'
  {
    FirstPathFieldFrom(line, 0)
  }

  function FirstPathFieldFrom(line: string, i: nat): (r: Option<nat>)
    requires i <= |line|
    ensures r.Some? ==> i <= r.value < |line| && line[r.value] == '.'
    ensures r.Some? ==> forall j :: i <= j < r.value ==> line[j] != '.'
    ensures r.None? <==> forall j :: i <= j < |line| ==> line[j] != '.'
    decreases |line| - i
  {
    if i == |line| then None
    else if line[i] == '.' then Some(i)
    else FirstPathFieldFrom(line, i + 1)
  }

  /** Number of the first `k` unit moves from `p` that land on a legal waypoint. */
  function LegalAmong(m: Map, p: Pos, k: nat): nat
    requires Rectangular(m)
    requires k <= 4
  {
    if k == 0 then 0
    else LegalAmong(m, p, k - 1) + (if IsLegalWaypoint(m, Add(p, Deltas[k - 1])) then 1 else 0)
  }

  /** A junction: a walkable cell with more than two walkable neighbours. */
  predicate IsBranch(m: Map, p: Pos)
    requires Rectangular(m)
  {
    IsLegalWaypoint(m, p) && LegalAmong(m, p, 4) > 2
  }

  /** The neighbour count of the original: how many of the four unit
      moves from `here` land on a legal waypoint. */
  method CountLegalNeighbours(m: Map, here: Pos) returns (numNeighbors: nat)
    requires Rectangular(m)
    ensures numNeighbors == LegalAmong(m, here, 4)
  {
    numNeighbors := 0;
    var k := 0;
    while k < 4
      invariant 0 <= k <= 4
      invariant numNeighbors == LegalAmong(m, here, k)
    {
      if IsLegalWaypoint(m, Add(here, Deltas[k])) {
        numNeighbors := numNeighbors + 1;
      }
      k := k + 1;
    }
  }

  /** `r` is `vertices` followed by the junctions before `(row, col)` in
      row-major order, in that order. */
  ghost predicate CollectedUpTo(m: Map, vertices: seq<Pos>, r: seq<Pos>, row: int, col: int)
    requires Rectangular(m)
  {
    && |r| >= |vertices| && r[..|vertices|] == vertices
    && (forall p :: p in r[|vertices|..] <==>
          IsBranch(m, p) && (p.row < row || (p.row == row && p.col < col)))
    && (forall i, j :: |vertices| <= i < j < |r| ==> Before(r[i], r[j]))
    && (forall i :: |vertices| <= i < |r| ==> Before(r[i], Pos(row, col)))
  }

  lemma CollectedSkip(m: Map, vertices: seq<Pos>, r: seq<Pos>, row: nat, col: nat)
    requires Rectangular(m) && row < |m| && col < |m[0]|
    requires CollectedUpTo(m, vertices, r, row, col) && !IsBranch(m, Pos(row, col))
    ensures CollectedUpTo(m, vertices, r, row, col + 1)
  {
  }

  lemma CollectedAppend(m: Map, vertices: seq<Pos>, r: seq<Pos>, row: nat, col: nat)
    requires Rectangular(m) && row < |m| && col < |m[0]|
    requires CollectedUpTo(m, vertices, r, row, col) && IsBranch(m, Pos(row, col))
    ensures CollectedUpTo(m, vertices, r + [Pos(row, col)], row, col + 1)
  {
    var here := Pos(row, col);
    assert r[|vertices|..] + [here] == (r + [here])[|vertices|..];
    assert (r + [here])[..|vertices|] == r[..|vertices|];
  }

  /** One cell of the scan: a junction is appended, anything else is
      passed over. */
  method VisitCell(m: Map, vertices: seq<Pos>, r: seq<Pos>, row: nat, col: nat) returns (r': seq<Pos>)
    requires Rectangular(m) && row < |m| && col < |m[0]|
    requires CollectedUpTo(m, vertices, r, row, col)
    ensures CollectedUpTo(m, vertices, r', row, col + 1)
  {
    var here := Pos(row, col);
    if m[row][col] != '#' {
      var numNeighbors := CountLegalNeighbours(m, here);
      if numNeighbors > 2 {
        CollectedAppend(m, vertices, r, row, col);
        return r + [here];
      }
    }
    CollectedSkip(m, vertices, r, row, col);
    r' := r;
  }

  /** One row of the scan. */
  method ScanRow(m: Map, vertices: seq<Pos>, r: seq<Pos>, row: nat) returns (r': seq<Pos>)
    requires Rectangular(m) && row < |m|
    requires CollectedUpTo(m, vertices, r, row, 0)
    ensures CollectedUpTo(m, vertices, r', row + 1, 0)
  {
    r' := r;
    var col := 0;
    while col < |m[0]|
      invariant 0 <= col <= |m[0]|
      invariant CollectedUpTo(m, vertices, r', row, col)
    {
      r' := VisitCell(m, vertices, r', row, col);
      col := col + 1;
    }
  }

  /** Appends every junction of the maze, in row-major order, to `vertices`. */
  method CollectBranchPositions(m: Map, vertices: seq<Pos>) returns (r: seq<Pos>)
    requires Rectangular(m)
    ensures |r| >= |vertices| && r[..|vertices|] == vertices
    ensures forall p :: p in r[|vertices|..] <==> IsBranch(m, p)
    ensures forall i, j :: |vertices| <= i < j < |r| ==> Before(r[i], r[j])
  {
    r := vertices;
    var row := 0;
    while row < |m|
      invariant 0 <= row <= |m|
      invariant CollectedUpTo(m, vertices, r, row, 0)
    {
      r := ScanRow(m, vertices, r, row);
      row := row + 1;
    }
  }

  /** The unit moves allowed out of a cell: all four on plain path or when
      slopes are ignored (part 2), only the downhill one on a slope, none
      otherwise. */
  function GetLegalDeltas(field: char, isPart2: bool): (r: seq<Pos>)
    ensures field == '.' || isPart2 ==> r == Deltas
    ensures !isPart2 && field == '^' ==> r == [Pos(-1, 0)]
    ensures !isPart2 && field == 'v' ==> r == [Pos(1, 0)]
    ensures !isPart2 && field == '<' ==> r == [Pos(0, -1)]
    ensures !isPart2 && field == '>' ==> r == [Pos(0, 1)]
    ensures !isPart2 && field !in {'.', '^', 'v', '<', '>'} ==> r == []
    ensures forall d :: d in r ==> d in Deltas
  {
    (if field == '^' || field == '.' || isPart2 then [Pos(-1, 0)] else [])
    + (if field == 'v' || field == '.' || isPart2 then [Pos(1, 0)] else [])
    + (if field == '<' || field == '.' || isPart2 then [Pos(0, -1)] else [])
    + (if field == '>' || field == '.' || isPart2 then [Pos(0, 1)] else [])
  }

  /** Ignoring slopes never removes a move: the part-2 moves of every cell
      include its part-1 moves. */
  lemma Part2DeltasIncludePart1(field: char)
    ensures forall d :: d in GetLegalDeltas(field, false) ==> d in GetLegalDeltas(field, true)
  {
  }

  /** `stack'` is `stack` followed by the cells of `seen' - seen`, each
      once, legal and one step further than `current`. */
  ghost predicate PushedFrom(m: Map, current: PositionState, seen: set<Pos>, stack: seq<PositionState>,
                             seen': set<Pos>, stack': seq<PositionState>)
    requires Rectangular(m)
  {
    && seen <= seen' && |stack'| == |stack| + |seen' - seen|
    && stack'[..|stack|] == stack
    && (forall i :: |stack| <= i < |stack'| ==>
          stack'[i].pos in seen' - seen && IsLegalWaypoint(m, stack'[i].pos)
          && stack'[i].steps == current.steps + 1)
    && (forall i, j :: |stack| <= i < j < |stack'| ==> stack'[i].pos != stack'[j].pos)
    && (forall p :: p in seen' - seen ==> IsLegalWaypoint(m, p))
  }

  /** Pushing one legal, unseen cell keeps the record. */
  method PushOne(m: Map, current: PositionState, next: Pos, seen: set<Pos>, stack: seq<PositionState>,
                 seen': set<Pos>, stack': seq<PositionState>)
    returns (seen'': set<Pos>, stack'': seq<PositionState>)
    requires Rectangular(m)
    requires PushedFrom(m, current, seen, stack, seen', stack')
    requires IsLegalWaypoint(m, next) && next !in seen'
    ensures PushedFrom(m, current, seen, stack, seen'', stack'')
    ensures seen'' == seen' + {next}
  {
    assert (seen' + {next}) - seen == (seen' - seen) + {next};
    stack'' := stack' + [PositionState(next, current.steps + 1)];
    seen'' := seen' + {next};
    assert stack''[..|stack|] == stack'[..|stack|];
    forall i | |stack| <= i < |stack''|
      ensures stack''[i].pos in seen'' - seen && IsLegalWaypoint(m, stack''[i].pos)
      ensures stack''[i].steps == current.steps + 1
    {
      if i < |stack'| {
        assert stack''[i] == stack'[i];
      }
    }
    forall i, j | |stack| <= i < j < |stack''|
      ensures stack''[i].pos != stack''[j].pos
    {
      assert stack''[i] == stack'[i];
      if j < |stack'| {
        assert stack''[j] == stack'[j];
      }
    }
  }

  /** The cells the moves `deltas` lead to from `p`. */
  function Targets(p: Pos, deltas: seq<Pos>): set<Pos>
  {
    set d | d in deltas :: Add(p, d)
  }

  /** One expansion step of the corridor walk: every legal, not yet seen
      neighbour reachable by an allowed move is pushed with one more step and
      marked as seen at once; afterwards every legal such neighbour is seen,
      and only such neighbours were added. */
  method PushNeighbours(m: Map, current: PositionState, deltas: seq<Pos>, seen: set<Pos>,
                        stack: seq<PositionState>)
    returns (seen': set<Pos>, stack': seq<PositionState>)
    requires Rectangular(m)
    ensures seen <= seen' && |stack'| == |stack| + |seen' - seen|
    ensures stack'[..|stack|] == stack
    ensures forall i :: |stack| <= i < |stack'| ==>
              stack'[i].pos in seen' - seen && IsLegalWaypoint(m, stack'[i].pos)
              && stack'[i].steps == current.steps + 1
    ensures forall i, j :: |stack| <= i < j < |stack'| ==> stack'[i].pos != stack'[j].pos
    ensures forall p :: p in seen' - seen ==> IsLegalWaypoint(m, p)
    ensures forall p :: p in seen' - seen ==> p in Targets(current.pos, deltas)
    ensures forall k :: 0 <= k < |deltas| && IsLegalWaypoint(m, Add(current.pos, deltas[k])) ==>
              Add(current.pos, deltas[k]) in seen'
  {
    seen', stack' := seen, stack;
    var k := 0;
    while k < |deltas|
      invariant 0 <= k <= |deltas|
      invariant PushedFrom(m, current, seen, stack, seen', stack')
      invariant forall p :: p in seen' - seen ==> p in Targets(current.pos, deltas)
      invariant forall j :: 0 <= j < k && IsLegalWaypoint(m, Add(current.pos, deltas[j])) ==>
                  Add(current.pos, deltas[j]) in seen'
    {
      var next := Add(current.pos, deltas[k]);
      if IsLegalWaypoint(m, next) && next !in seen' {
        seen', stack' := PushOne(m, current, next, seen, stack, seen', stack');
      }
      k := k + 1;
    }
  }

  /** What holds of the corridor walk between two iterations: every stacked
      cell is seen, walkable, stacked once and reached in fewer steps than
      there are seen cells; only the starting vertex has zero steps; every
      recorded edge targets another vertex, has been popped for good and
      weighs at least one step. */
  ghost predicate WalkState(m: Map, vertices: seq<Pos>, vertex: Pos, seen: set<Pos>,
                            stack: seq<PositionState>, edges: Edges)
    requires Rectangular(m)
  {
    && seen <= Walkable(m)
    && vertex in seen
    && (forall i :: 0 <= i < |stack| ==> stack[i].pos in seen && stack[i].steps < |seen|)
    && (forall i :: 0 <= i < |stack| ==> stack[i].pos == vertex ==> stack[i].steps == 0)
    && (forall i, j :: 0 <= i < j < |stack| ==> stack[i].pos != stack[j].pos)
    && (forall t :: t in edges ==> t in seen && t in vertices && t != vertex)
    && (forall t :: t in edges ==> 1 <= edges[t] < |seen|)
    && (forall t, i :: t in edges && 0 <= i < |stack| ==> stack[i].pos != t)
  }

  lemma RecordEdgeKeepsState(m: Map, vertices: seq<Pos>, vertex: Pos, seen: set<Pos>,
                             stack: seq<PositionState>, edges: Edges)
    requires Rectangular(m) && |stack| > 0
    requires WalkState(m, vertices, vertex, seen, stack, edges)
    requires stack[|stack| - 1].steps != 0 && stack[|stack| - 1].pos in vertices
    ensures stack[|stack| - 1].pos !in edges
    ensures WalkState(m, vertices, vertex, seen, stack[..|stack| - 1],
                      edges[stack[|stack| - 1].pos := stack[|stack| - 1].steps])
  {
  }

  /** `stack'` is `stack` with its top popped and the newly seen cells
      `seen' - seen` pushed, each once, one step further than the top. */
  ghost predicate Expanded(m: Map, seen: set<Pos>, stack: seq<PositionState>,
                           seen': set<Pos>, stack': seq<PositionState>)
    requires Rectangular(m)
  {
    && |stack| > 0
    && seen <= seen' && |stack'| == |stack| - 1 + |seen' - seen|
    && stack'[..|stack| - 1] == stack[..|stack| - 1]
    && (forall i :: |stack| - 1 <= i < |stack'| ==>
          stack'[i].pos in seen' - seen && IsLegalWaypoint(m, stack'[i].pos)
          && stack'[i].steps == stack[|stack| - 1].steps + 1)
    && (forall i, j :: |stack| - 1 <= i < j < |stack'| ==> stack'[i].pos != stack'[j].pos)
  }

  lemma ExpandedSeen(m: Map, vertices: seq<Pos>, vertex: Pos, seen: set<Pos>,
                     stack: seq<PositionState>, edges: Edges,
                     seen': set<Pos>, stack': seq<PositionState>)
    requires Rectangular(m)
    requires WalkState(m, vertices, vertex, seen, stack, edges)
    requires Expanded(m, seen, stack, seen', stack')
    ensures forall i :: 0 <= i < |stack'| ==> stack'[i].pos in seen' && stack'[i].steps < |seen'|
  {
    SubsetCard(seen, seen');
    var n := |stack| - 1;
    forall i | 0 <= i < |stack'|
      ensures stack'[i].pos in seen' && stack'[i].steps < |seen'|
    {
      if i >= n {
        assert |seen' - seen| >= 1;
      } else {
        assert stack'[i] == stack[i];
      }
    }
  }

  lemma ExpandedDistinct(m: Map, vertices: seq<Pos>, vertex: Pos, seen: set<Pos>,
                         stack: seq<PositionState>, edges: Edges,
                         seen': set<Pos>, stack': seq<PositionState>)
    requires Rectangular(m)
    requires WalkState(m, vertices, vertex, seen, stack, edges)
    requires Expanded(m, seen, stack, seen', stack')
    ensures forall i, j :: 0 <= i < j < |stack'| ==> stack'[i].pos != stack'[j].pos
  {
    var n := |stack| - 1;
    forall i, j | 0 <= i < j < |stack'|
      ensures stack'[i].pos != stack'[j].pos
    {
      if j < n {
        assert stack'[i] == stack[i] && stack'[j] == stack[j];
      } else if i < n {
        assert stack'[i] == stack[i];
      }
    }
  }

  lemma ExpandedKeepsApart(m: Map, vertices: seq<Pos>, vertex: Pos, seen: set<Pos>,
                           stack: seq<PositionState>, edges: Edges,
                           seen': set<Pos>, stack': seq<PositionState>)
    requires Rectangular(m)
    requires WalkState(m, vertices, vertex, seen, stack, edges)
    requires Expanded(m, seen, stack, seen', stack')
    ensures forall t, i :: t in edges && 0 <= i < |stack'| ==> stack'[i].pos != t
    ensures forall i :: 0 <= i < |stack'| ==> stack'[i].pos == vertex ==> stack'[i].steps == 0
  {
    var n := |stack| - 1;
    forall t, i | t in edges && 0 <= i < |stack'|
      ensures stack'[i].pos != t
    {
      if i < n {
        assert stack'[i] == stack[i];
      }
    }
    forall i | 0 <= i < |stack'| && stack'[i].pos == vertex
      ensures stack'[i].steps == 0
    {
      if i < n {
        assert stack'[i] == stack[i];
      }
    }
  }

  lemma ExpandKeepsState(m: Map, vertices: seq<Pos>, vertex: Pos, seen: set<Pos>,
                         stack: seq<PositionState>, edges: Edges,
                         seen': set<Pos>, stack': seq<PositionState>)
    requires Rectangular(m) && |stack| > 0
    requires WalkState(m, vertices, vertex, seen, stack, edges)
    requires seen <= seen' && |stack'| == |stack| - 1 + |seen' - seen|
    requires stack'[..|stack| - 1] == stack[..|stack| - 1]
    requires forall i :: |stack| - 1 <= i < |stack'| ==>
               stack'[i].pos in seen' - seen && IsLegalWaypoint(m, stack'[i].pos)
               && stack'[i].steps == stack[|stack| - 1].steps + 1
    requires forall i, j :: |stack| - 1 <= i < j < |stack'| ==> stack'[i].pos != stack'[j].pos
    requires forall p :: p in seen' - seen ==> IsLegalWaypoint(m, p)
    ensures WalkState(m, vertices, vertex, seen', stack', edges)
    ensures seen' == seen || |Walkable(m) - seen'| < |Walkable(m) - seen|
  {
    forall p | p in seen' - seen
      ensures p in Walkable(m)
    {
      WalkableIsLegal(m, p);
    }
    if seen' != seen {
      ShrinkingRemainder(Walkable(m), seen, seen');
    }
    assert Expanded(m, seen, stack, seen', stack');
    ExpandedSeen(m, vertices, vertex, seen, stack, edges, seen', stack');
    ExpandedDistinct(m, vertices, vertex, seen, stack, edges, seen', stack');
    ExpandedKeepsApart(m, vertices, vertex, seen, stack, edges, seen', stack');
    SubsetCard(seen, seen');
  }

  /** The corridor walk out of one vertex: a depth-first search that marks
      cells as seen when it pushes them and stops at every other vertex it
      reaches, recording an edge weighted by the steps taken. */
  method WalkFrom(m: Map, vertices: seq<Pos>, vertex: Pos, isPart2: bool) returns (edges: Edges)
    requires Rectangular(m)
    requires forall v :: v in vertices ==> IsLegalWaypoint(m, v)
    requires vertex in vertices
    ensures forall t :: t in edges ==> t in vertices && t != vertex
    ensures forall t :: t in edges ==> 1 <= edges[t] < |Walkable(m)|
  {
    WalkableIsLegal(m, vertex);
    var seen: set<Pos> := {vertex};
    var stack := [PositionState(vertex, 0)];
    edges := map[];
    while |stack| > 0
      invariant WalkState(m, vertices, vertex, seen, stack, edges)
      decreases |Walkable(m) - seen|, |stack|
    {
      var current := stack[|stack| - 1];

      if current.steps != 0 && current.pos in vertices {
        // every cell is pushed at most once, so a target is reached once
        RecordEdgeKeepsState(m, vertices, vertex, seen, stack, edges);
        stack := stack[..|stack| - 1];
        edges := edges[current.pos := current.steps];
        continue;
      }

      WalkableIsLegal(m, current.pos);
      var deltas := GetLegalDeltas(m[current.pos.row][current.pos.col], isPart2);
      var seen', stack' := PushNeighbours(m, current, deltas, seen, stack[..|stack| - 1]);
      ExpandKeepsState(m, vertices, vertex, seen, stack, edges, seen', stack');
      seen, stack := seen', stack';
    }
    SubsetCard(seen, Walkable(m));
  }

  /** The compressed graph: one entry per vertex, holding the corridors that
      leave it.  A repeated vertex keeps its first entry (map insertion does
      not overwrite). */
  method BuildDensedGraph(m: Map, vertices: seq<Pos>, isPart2: bool) returns (graph: Graph)
    requires Rectangular(m)
    requires forall v :: v in vertices ==> IsLegalWaypoint(m, v)
    ensures graph.Keys == set v | v in vertices
    ensures forall v, t :: v in graph && t in graph[v] ==> t in vertices && t != v
    ensures forall v, t :: v in graph && t in graph[v] ==> 1 <= graph[v][t] < |Walkable(m)|
  {
    graph := map[];
    var i := 0;
    while i < |vertices|
      invariant 0 <= i <= |vertices|
      invariant graph.Keys == set v | v in vertices[..i]
      invariant forall v, t :: v in graph && t in graph[v] ==> t in vertices && t != v
      invariant forall v, t :: v in graph && t in graph[v] ==> 1 <= graph[v][t] < |Walkable(m)|
    {
      var vertex := vertices[i];
      var edges := WalkFrom(m, vertices, vertex, isPart2);
      if vertex !in graph {
        graph := graph[vertex := edges];
      }
      assert vertices[..i + 1] == vertices[..i] + [vertex];
      i := i + 1;
    }
    assert vertices[..i] == vertices;
  }

  /** Every edge of the graph leads to a vertex of the graph. */
  predicate Closed(g: Graph)
  {
    forall v, t :: v in g && t in g[v] ==> t in g
  }

  /** A sequence of vertices following edges of the graph. */
  ghost predicate IsWalk(g: Graph, p: seq<Pos>)
  {
    |p| >= 1 && forall i :: 0 <= i < |p| - 1 ==> p[i] in g && p[i + 1] in g[p[i]]
  }

  ghost function Weight(g: Graph, p: seq<Pos>): nat
    requires IsWalk(g, p)
  {
    if |p| == 1 then 0 else g[p[0]][p[1]] + Weight(g, p[1..])
  }

  /** A path the search may follow: a walk that reaches `end` only at its
      last vertex and that, after its first vertex, never repeats a vertex
      nor enters one of `seen`. */
  ghost predicate IsSearchPath(g: Graph, seen: set<Pos>, end: Pos, p: seq<Pos>)
  {
    && IsWalk(g, p)
    && p[|p| - 1] == end
    && (forall i :: 0 <= i < |p| - 1 ==> p[i] != end)
    && (forall i :: 1 <= i < |p| ==> p[i] !in seen)
    && (forall i, j :: 1 <= i < j < |p| ==> p[i] != p[j])
  }

  lemma ExtendSearchPath(g: Graph, seen: set<Pos>, end: Pos, current: Pos, q: seq<Pos>)
    requires current in g && current != end
    requires |q| >= 1 && IsSearchPath(g, seen + {q[0]}, end, q) && q[0] in g[current] && q[0] !in seen
    ensures IsSearchPath(g, seen, end, [current] + q)
    ensures Weight(g, [current] + q) == g[current][q[0]] + Weight(g, q)
  {
    var p := [current] + q;
    assert p[1..] == q;
    forall i | 0 <= i < |p| - 1
      ensures p[i] in g && p[i + 1] in g[p[i]]
    {
      if i > 0 {
        assert p[i] == q[i - 1] && p[i + 1] == q[i];
      }
    }
    forall i, j | 1 <= i < j < |p|
      ensures p[i] != p[j]
    {
      assert p[i] == q[i - 1] && p[j] == q[j - 1];
    }
  }

  lemma RestrictSearchPath(g: Graph, seen: set<Pos>, end: Pos, p: seq<Pos>)
    requires IsSearchPath(g, seen, end, p) && |p| >= 2
    ensures IsSearchPath(g, seen + {p[1]}, end, p[1..])
    ensures p[1] in g[p[0]] && p[1] !in seen
    ensures Weight(g, p) == g[p[0]][p[1]] + Weight(g, p[1..])
  {
    var q := p[1..];
    forall i | 0 <= i < |q| - 1
      ensures q[i] in g && q[i + 1] in g[q[i]]
    {
      assert q[i] == p[i + 1] && q[i + 1] == p[i + 2];
    }
    forall i | 1 <= i < |q|
      ensures q[i] !in seen + {p[1]}
    {
      assert q[i] == p[i + 1];
      assert p[1] != p[i + 1];
    }
  }

  /** A path the search may follow out of `current`. */
  ghost predicate PathFrom(g: Graph, seen: set<Pos>, end: Pos, current: Pos, p: seq<Pos>)
  {
    IsSearchPath(g, seen, end, p) && p[0] == current
  }

  /** What the recursive call on `target` says about the paths out of
      `current` whose first step goes to `target`. */
  lemma PathsThroughTarget(g: Graph, seen: set<Pos>, end: Pos, current: Pos, target: Pos,
                           targetResult: nat, targetValid: bool)
    requires current in g && current != end && target in g[current] && target !in seen
    requires targetValid <==> exists q :: PathFrom(g, seen + {target}, end, target, q)
    requires forall q :: PathFrom(g, seen + {target}, end, target, q) ==> Weight(g, q) <= targetResult
    requires targetValid ==> exists q :: PathFrom(g, seen + {target}, end, target, q)
                                        && Weight(g, q) == targetResult
    ensures targetValid <==> exists p :: PathFrom(g, seen, end, current, p) && p[1] == target
    ensures forall p :: PathFrom(g, seen, end, current, p) && p[1] == target
                        ==> Weight(g, p) <= g[current][target] + targetResult
    ensures targetValid ==> exists p :: PathFrom(g, seen, end, current, p) && p[1] == target
                                        && Weight(g, p) == g[current][target] + targetResult
  {
    forall p | PathFrom(g, seen, end, current, p) && p[1] == target
      ensures PathFrom(g, seen + {target}, end, target, p[1..])
      ensures Weight(g, p) == g[current][target] + Weight(g, p[1..])
    {
      RestrictSearchPath(g, seen, end, p);
    }
    if targetValid {
      var q :| PathFrom(g, seen + {target}, end, target, q) && Weight(g, q) == targetResult;
      ExtendSearchPath(g, seen, end, current, q);
      assert ([current] + q)[1] == target;
      assert PathFrom(g, seen, end, current, [current] + q);
    }
  }

  /** The backtracking search.  `seen` is handed back as `seenOut`, modelling
      the set the original mutates in place: every branch inserts its target
      before descending and erases it afterwards, so the set comes back
      exactly as it went in.  `valid` tells whether some path reached `end`;
      `result` is the largest weight among those paths. */
  method FindLongestPathRec(g: Graph, current: Pos, seen: set<Pos>, end: Pos)
    returns (result: nat, valid: bool, seenOut: set<Pos>)
    requires Closed(g)
    requires current in g && current in seen && seen <= g.Keys
    ensures seenOut == seen
    ensures valid <==> exists p :: PathFrom(g, seen, end, current, p)
    ensures forall p :: PathFrom(g, seen, end, current, p) ==> Weight(g, p) <= result
    ensures valid ==> exists p :: PathFrom(g, seen, end, current, p) && Weight(g, p) == result
    ensures !valid ==> result == 0
    decreases |g.Keys - seen|
  {
    seenOut := seen;
    if current == end {
      assert PathFrom(g, seen, end, current, [current]);
      forall p | PathFrom(g, seen, end, current, p)
        ensures Weight(g, p) <= 0
      {
        assert |p| == 1;
      }
      return 0, true, seenOut;
    }

    forall p | PathFrom(g, seen, end, current, p)
      ensures |p| >= 2 && p[1] in g[current]
    {
    }
    result := 0;
    valid := false;
    var remaining := g[current].Keys;
    while remaining != {}
      invariant remaining <= g[current].Keys
      invariant seenOut == seen
      invariant valid <==> exists p :: PathFrom(g, seen, end, current, p) && p[1] !in remaining
      invariant forall p :: PathFrom(g, seen, end, current, p) && p[1] !in remaining
                            ==> Weight(g, p) <= result
      invariant valid ==> exists p :: PathFrom(g, seen, end, current, p) && p[1] !in remaining
                                      && Weight(g, p) == result
      invariant !valid ==> result == 0
      decreases remaining
    {
      var target :| target in remaining;
      var cost := g[current][target];
      remaining := remaining - {target};

      if target in seenOut {
        continue;
      }

      seenOut := seenOut + {target};
      ShrinkingRemainder(g.Keys, seen, seenOut);
      var targetResult, targetValid, seenBack := FindLongestPathRec(g, target, seenOut, end);
      seenOut := seenBack - {target};
      PathsThroughTarget(g, seen, end, current, target, targetResult, targetValid);

      if targetValid {
        if !valid || cost + targetResult > result {
          result := cost + targetResult;
        }
        valid := true;
      }
    }
  }

  /** The longest simple path from `start` to `end`; the original asserts that
      one exists, modelled as an error value. */
  method FindLongestPath(g: Graph, start: Pos, end: Pos) returns (r: Result<nat>)
    requires Closed(g) && start in g
    ensures r.Err? <==> !exists p :: PathFrom(g, {start}, end, start, p)
    ensures r.Ok? ==> forall p :: PathFrom(g, {start}, end, start, p)
                                  ==> Weight(g, p) <= r.value
    ensures r.Ok? ==> exists p :: PathFrom(g, {start}, end, start, p)
                                  && Weight(g, p) == r.value
  {
    var result, valid, _ := FindLongestPathRec(g, start, {start}, end);
    if !valid {
      return Err("no path from start to end");
    }
    return Ok(result);
  }

  /** One part of the puzzle: locate entrance and exit, collect the vertices,
      compress the maze and search it. */
  method Solve(m: Map, isPart2: bool) returns (r: Result<nat>)
    requires Rectangular(m)
    ensures FindFirstPathField(m[0]).None? ==> r.Err?
    ensures FindFirstPathField(m[|m| - 1]).None? ==> r.Err?
  {
    var first := FindFirstPathField(m[0]);
    var last := FindFirstPathField(m[|m| - 1]);
    if first.None? || last.None? {
      return Err("no path field in the first or last row");
    }
    var start := Pos(0, first.value);
    var end := Pos(|m| - 1, last.value);
    var vertices := CollectBranchPositions(m, [start, end]);
    forall v | v in vertices
      ensures IsLegalWaypoint(m, v)
    {
      if v != start && v != end {
        assert v in vertices[2..];
      }
    }
    assert start == vertices[..2][0];
    var graph := BuildDensedGraph(m, vertices, isPart2);
    r := FindLongestPath(graph, start, end);
  }
}
