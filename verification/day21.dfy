/** Step counter: the garden plots an elf can end on after an exact number of
    steps, found by a breadth-first search that keeps every plot whose
    remaining step count is even, and the tile-count arithmetic that extends
    the count to an infinitely repeated garden (part 2). */
module Day21 {
  import opened Common

  /** The garden, one string per row; rows may differ in length. */
  type Map = seq<string>

  datatype Pos = Pos(row: int, col: int)

  /** A frontier entry: a plot and the steps still left when standing on it. */
  datatype PositionState = PositionState(pos: Pos, steps: nat)

  /** Unit moves in the order the solver tries them: down, up, right, left. */
  const Deltas: seq<Pos> := [Pos(1, 0), Pos(-1, 0), Pos(0, 1), Pos(0, -1)]

  /** The step count used for part 2. */
  const Part2Steps: nat := 26501365

  function Add(p: Pos, d: Pos): Pos
  {
    Pos(p.row + d.row, p.col + d.col)
  }

  function Manhattan(a: Pos, b: Pos): nat
  {
    Abs(a.row - b.row) + Abs(a.col - b.col)
  }

  /** Row-major order on positions. */
  predicate Before(a: Pos, b: Pos)
  {
    a.row < b.row || (a.row == b.row && a.col < b.col)
  }

  /** The first 'S' in row-major order, or `None` where the original fails
      its assertion. */
  function FindStart(m: Map): (r: Option<Pos>)
    ensures r.Some? ==> 0 <= r.value.row < |m| && 0 <= r.value.col < |m[r.value.row]|
                        && m[r.value.row][r.value.col] == 'S'
    ensures r.Some? ==> forall row, col :: 0 <= row < |m| && 0 <= col < |m[row]| && m[row][col] == 'S'
                          ==> !Before(Pos(row, col), r.value)
    ensures r.None? <==> forall row, col :: 0 <= row < |m| && 0 <= col < |m[row]| ==> m[row][col] != 'S'
  {
    FindStartFrom(m, 0, 0)
  }

  function FindStartFrom(m: Map, row: nat, col: nat): (r: Option<Pos>)
    requires row <= |m| && (row < |m| ==> col <= |m[row]|)
    ensures r.Some? ==> row <= r.value.row < |m| && 0 <= r.value.col < |m[r.value.row]|
                        && m[r.value.row][r.value.col] == 'S'
    ensures r.Some? ==> forall rw, cl ::
              (0 <= rw < |m| && 0 <= cl < |m[rw]| && m[rw][cl] == 'S' && !Before(Pos(rw, cl), Pos(row, col)))
              ==> !Before(Pos(rw, cl), r.value)
    ensures r.Some? ==> !Before(r.value, Pos(row, col))
    ensures r.None? <==> forall rw, cl ::
              (0 <= rw < |m| && 0 <= cl < |m[rw]| && !Before(Pos(rw, cl), Pos(row, col)))
              ==> m[rw][cl] != 'S'
    decreases |m| - row, if row < |m| then |m[row]| - col else 0
  {
    if row == |m| then None
    else if col == |m[row]| then FindStartFrom(m, row + 1, 0)
    else if m[row][col] == 'S' then Some(Pos(row, col))
    else FindStartFrom(m, row, col + 1)
  }

  /** A plot one may stand on: inside the garden (the row's own length bounds
      the column) and not a rock. */
  predicate IsValidPos(m: Map, p: Pos)
  {
    0 <= p.row < |m| && 0 <= p.col < |m[p.row]| && m[p.row][p.col] != '#'
  }

  /** Every valid plot of the garden. */
  function Valid(m: Map): set<Pos>
  {
    set r, c | 0 <= r < |m| && 0 <= c < |m[r]| && m[r][c] != '#' :: Pos(r, c)
  }

  lemma ValidIsValidPos(m: Map, p: Pos)
    ensures p in Valid(m) <==> IsValidPos(m, p)
  {
    if IsValidPos(m, p) {
      assert p == Pos(p.row, p.col);
    }
  }

  /** A frontier entry is consistent with a start and a step budget: the
      steps already taken bound the distance from the start and share its
      parity (every move changes the distance by exactly one). */
  predicate Reachable(start: Pos, steps: nat, s: PositionState)
  {
    && s.steps <= steps
    && Manhattan(start, s.pos) <= steps - s.steps
    && (steps - s.steps - Manhattan(start, s.pos)) % 2 == 0
  }

  /** A plot that may be counted: the start or a valid plot, within the step
      budget and of the parity of the budget. */
  predicate Countable(m: Map, start: Pos, steps: nat, p: Pos)
  {
    && (p == start || IsValidPos(m, p))
    && Manhattan(start, p) <= steps
    && (steps - Manhattan(start, p)) % 2 == 0
  }

  /** `queue'` is `queue` followed by the cells of `seen' - seen`: valid
      neighbours of `current` with one step fewer. */
  predicate EnqueuedFrom(m: Map, current: PositionState, seen: set<Pos>, queue: seq<PositionState>,
                         seen': set<Pos>, queue': seq<PositionState>)
  {
    && seen <= seen' && |queue'| == |queue| + |seen' - seen|
    && queue'[..|queue|] == queue
    && (forall i :: |queue| <= i < |queue'| ==>
          && queue'[i].pos in seen' && IsValidPos(m, queue'[i].pos)
          && queue'[i].steps == current.steps - 1
          && Manhattan(current.pos, queue'[i].pos) == 1)
    && (forall p :: p in seen' - seen ==> IsValidPos(m, p))
  }

  /** Marking and enqueueing one valid, unseen neighbour keeps the record. */
  method EnqueueOne(m: Map, current: PositionState, pos: Pos, seen: set<Pos>, queue: seq<PositionState>,
                    seen': set<Pos>, queue': seq<PositionState>)
    returns (seen'': set<Pos>, queue'': seq<PositionState>)
    requires current.steps > 0
    requires EnqueuedFrom(m, current, seen, queue, seen', queue')
    requires IsValidPos(m, pos) && pos !in seen' && Manhattan(current.pos, pos) == 1
    ensures EnqueuedFrom(m, current, seen, queue, seen'', queue'')
  {
    assert (seen' + {pos}) - seen == (seen' - seen) + {pos};
    queue'' := queue' + [PositionState(pos, current.steps - 1)];
    seen'' := seen' + {pos};
    assert queue''[..|queue|] == queue'[..|queue|];
    forall i | |queue| <= i < |queue''|
      ensures queue''[i].pos in seen'' && IsValidPos(m, queue''[i].pos)
      ensures queue''[i].steps == current.steps - 1 && Manhattan(current.pos, queue''[i].pos) == 1
    {
      if i < |queue'| {
        assert queue''[i] == queue'[i];
      }
    }
  }

  /** Expands one frontier entry: every valid neighbour not seen before is
      marked and enqueued with one step fewer. */
  method EnqueueNeighbours(m: Map, current: PositionState, seen: set<Pos>, queue: seq<PositionState>)
    returns (seen': set<Pos>, queue': seq<PositionState>)
    requires current.steps > 0
    ensures seen <= seen' && |queue'| == |queue| + |seen' - seen|
    ensures queue'[..|queue|] == queue
    ensures forall i :: |queue| <= i < |queue'| ==>
              && queue'[i].pos in seen' && IsValidPos(m, queue'[i].pos)
              && queue'[i].steps == current.steps - 1
              && Manhattan(current.pos, queue'[i].pos) == 1
    ensures forall p :: p in seen' - seen ==> IsValidPos(m, p)
  {
    seen', queue' := seen, queue;
    var k := 0;
    while k < |Deltas|
      invariant 0 <= k <= |Deltas|
      invariant EnqueuedFrom(m, current, seen, queue, seen', queue')
    {
      var pos := Add(current.pos, Deltas[k]);
      if IsValidPos(m, pos) && pos !in seen' {
        seen', queue' := EnqueueOne(m, current, pos, seen, queue, seen', queue');
      }
      k := k + 1;
    }
  }

  /** What holds between two iterations of the search. */
  predicate SearchState(m: Map, start: Pos, steps: nat, seen: set<Pos>,
                        queue: seq<PositionState>, answer: set<Pos>)
  {
    && seen <= Valid(m)
    && (forall i :: 0 <= i < |queue| ==> Reachable(start, steps, queue[i]))
    && (forall i :: 0 <= i < |queue| ==> queue[i].pos == start || IsValidPos(m, queue[i].pos))
    && (forall p :: p in answer ==> Countable(m, start, steps, p))
  }

  lemma ExpandKeepsSearchState(m: Map, start: Pos, steps: nat, seen: set<Pos>,
                               queue: seq<PositionState>, answer: set<Pos>,
                               current: PositionState, seen': set<Pos>, queue': seq<PositionState>)
    requires SearchState(m, start, steps, seen, queue, answer)
    requires Reachable(start, steps, current) && current.steps > 0
    requires seen <= seen' && |queue| <= |queue'| && queue'[..|queue|] == queue
    requires forall i :: |queue| <= i < |queue'| ==>
               && IsValidPos(m, queue'[i].pos)
               && queue'[i].steps == current.steps - 1
               && Manhattan(current.pos, queue'[i].pos) == 1
    requires forall p :: p in seen' - seen ==> IsValidPos(m, p)
    ensures SearchState(m, start, steps, seen', queue', answer)
    ensures seen' == seen || |Valid(m) - seen'| < |Valid(m) - seen|
  {
    forall p | p in seen' - seen
      ensures p in Valid(m)
    {
      ValidIsValidPos(m, p);
    }
    if seen' != seen {
      ShrinkingRemainder(Valid(m), seen, seen');
    }
    forall i | 0 <= i < |queue'|
      ensures Reachable(start, steps, queue'[i])
      ensures queue'[i].pos == start || IsValidPos(m, queue'[i].pos)
    {
      if i < |queue| {
        assert queue'[i] == queue[i];
      } else {
        NeighbourReachable(start, steps, current, queue'[i]);
      }
    }
  }

  /** One move changes the distance from the start by exactly one, so the
      parity bookkeeping carries over to a neighbour. */
  lemma NeighbourReachable(start: Pos, steps: nat, current: PositionState, next: PositionState)
    requires Reachable(start, steps, current) && current.steps > 0
    requires Manhattan(current.pos, next.pos) == 1 && next.steps == current.steps - 1
    ensures Reachable(start, steps, next)
  {
    var d := Manhattan(start, current.pos);
    var d' := Manhattan(start, next.pos);
    assert d' == d + 1 || d' == d - 1;
    var k := steps - current.steps - d;
    if d' == d + 1 {
      assert steps - next.steps - d' == k;
    } else {
      assert steps - next.steps - d' == k + 2;
    }
  }

  /** A dequeued entry with an even number of steps left is a countable plot. */
  lemma EvenEntryCountable(m: Map, start: Pos, steps: nat, s: PositionState)
    requires Reachable(start, steps, s) && s.steps % 2 == 0
    requires s.pos == start || IsValidPos(m, s.pos)
    ensures Countable(m, start, steps, s.pos)
  {
    var k := steps - s.steps - Manhattan(start, s.pos);
    assert steps - Manhattan(start, s.pos) == k + s.steps;
  }

  /** One iteration of the search: dequeue an entry, record it when its
      steps left are even, and expand it when it has steps left. */
  method DrainStep(m: Map, start: Pos, steps: nat, seen: set<Pos>, queue: seq<PositionState>,
                   answer: set<Pos>)
    returns (seen': set<Pos>, queue': seq<PositionState>, answer': set<Pos>)
    requires SearchState(m, start, steps, seen, queue, answer) && |queue| > 0
    ensures SearchState(m, start, steps, seen', queue', answer') && answer <= answer'
    ensures |Valid(m) - seen'| < |Valid(m) - seen| || (seen' == seen && |queue'| < |queue|)
  {
    var current := queue[0];
    queue' := queue[1..];
    seen' := seen;
    answer' := answer;
    assert SearchState(m, start, steps, seen, queue', answer);
    if current.steps % 2 == 0 {
      EvenEntryCountable(m, start, steps, current);
      answer' := answer' + {current.pos};
    }
    if current.steps == 0 {
      return;
    }
    var rest := queue';
    seen', queue' := EnqueueNeighbours(m, current, seen, rest);
    ExpandKeepsSearchState(m, start, steps, seen, rest, answer', current, seen', queue');
    if seen' == seen {
      assert |queue'| == |rest|;
    }
  }

  /** Drains the queue: an entry with an even number of steps left is
      recorded, and one with steps left is expanded. */
  method Drain(m: Map, start: Pos, steps: nat, seen: set<Pos>, queue: seq<PositionState>,
               answer: set<Pos>)
    returns (answer': set<Pos>)
    requires SearchState(m, start, steps, seen, queue, answer)
    ensures answer <= answer'
    ensures forall p :: p in answer' ==> Countable(m, start, steps, p)
  {
    var seen, queue := seen, queue;
    answer' := answer;
    while |queue| > 0
      invariant SearchState(m, start, steps, seen, queue, answer') && answer <= answer'
      decreases |Valid(m) - seen|, |queue|
    {
      seen, queue, answer' := DrainStep(m, start, steps, seen, queue, answer');
    }
  }

  /** The search proper, once the start has been dequeued with steps
      left: its neighbours are enqueued and the queue is drained. */
  method SearchFromStart(m: Map, start: Pos, steps: nat, answer: set<Pos>) returns (answer': set<Pos>)
    requires steps > 0
    requires forall p :: p in answer ==> Countable(m, start, steps, p)
    ensures answer <= answer'
    ensures forall p :: p in answer' ==> Countable(m, start, steps, p)
  {
    var first := PositionState(start, steps);
    var seen, queue := EnqueueNeighbours(m, first, {}, []);
    assert SearchState(m, start, steps, {}, [], answer);
    ExpandKeepsSearchState(m, start, steps, {}, [], answer, first, seen, queue);
    answer' := Drain(m, start, steps, seen, queue, answer);
  }

  /** The number of plots on which a walk of exactly `steps` steps from
      (row, col) can end, with the set of those plots.  The start itself is
      not marked as seen, so it may be enqueued again through a neighbour. */
  method CountFields(m: Map, row: int, col: int, steps: nat) returns (count: nat, answer: set<Pos>)
    ensures count == |answer|
    ensures steps == 0 ==> answer == {Pos(row, col)}
    ensures forall p :: p in answer ==> Countable(m, Pos(row, col), steps, p)
    ensures Pos(row, col) in answer <==> steps % 2 == 0
    ensures answer <= Valid(m) + {Pos(row, col)}
  {
    var start := Pos(row, col);
    answer := {};
    if steps % 2 == 0 {
      // the start is processed first and is recorded exactly when the budget is even
      answer := {start};
    }
    if steps != 0 {
      var drained := SearchFromStart(m, start, steps, answer);
      StartCountedByParity(m, start, steps, answer, drained);
      answer := drained;
    }
    CountedAreValid(m, start, steps, answer);
    count := |answer|;
  }

  lemma StartCountedByParity(m: Map, start: Pos, steps: nat, answer: set<Pos>, drained: set<Pos>)
    requires answer <= drained && (start in answer <==> steps % 2 == 0)
    requires forall p :: p in drained ==> Countable(m, start, steps, p)
    ensures start in drained <==> steps % 2 == 0
  {
    if start in drained {
      assert Countable(m, start, steps, start);
    }
  }

  lemma CountedAreValid(m: Map, start: Pos, steps: nat, answer: set<Pos>)
    requires forall p :: p in answer ==> Countable(m, start, steps, p)
    ensures answer <= Valid(m) + {start}
  {
    forall p | p in answer
      ensures p in Valid(m) + {start}
    {
      ValidIsValidPos(m, p);
    }
  }

  function Square(x: nat): nat
  {
    x * x
  }

  /** How many whole gardens fit between the centre garden and the edge of
      the reachable diamond. */
  function GridRadius(steps: nat, size: nat): nat
    requires 0 < size <= steps
  {
    steps / size - 1
  }

  /** The number of fully reachable gardens entered with an even number of
      steps left, and with an odd number. */
  function EvenMaps(radius: nat): nat { Square((radius + 1) / 2 * 2) }

  function OddMaps(radius: nat): nat { Square(radius / 2 * 2 + 1) }

  /** The two parities share the squares of the radius and of the radius
      plus one: the even-parity gardens always take the even square. */
  lemma MapCountsShape(radius: nat)
    ensures radius % 2 == 0 ==> EvenMaps(radius) == Square(radius) && OddMaps(radius) == Square(radius + 1)
    ensures radius % 2 == 1 ==> EvenMaps(radius) == Square(radius + 1) && OddMaps(radius) == Square(radius)
  {
    var e := (radius + 1) / 2;
    var o := radius / 2;
    if radius % 2 == 0 {
      assert radius == 2 * o && e == o;
    } else {
      assert radius == 2 * o + 1 && e == o + 1;
    }
  }

  /** The layout the part-2 arithmetic relies on: a square garden, the start
      in its middle, and a step count that ends exactly on a garden edge. */
  predicate InputProperties(m: Map, start: Pos, steps: nat)
    requires |m| > 0
  {
    && |m| == |m[0]|
    && start.row == |m| / 2 && start.col == |m[0]| / 2
    && steps % |m| == |m| / 2
  }

  method Fields(m: Map, row: int, col: int, steps: nat) returns (count: nat)
  {
    var plots;
    count, plots := CountFields(m, row, col, steps);
  }

  /** The part-2 sum over the kinds of garden tiles. */
  method TileTotal(m: Map, s: Pos, size: nat) returns (total: nat)
    requires 2 <= size <= Part2Steps
  {
    var radius := GridRadius(Part2Steps, size);
    total := 0;
    var c;
    c := Fields(m, s.row, s.col, size * 2);
    total := total + Times(EvenMaps(radius), c);
    c := Fields(m, s.row, s.col, size * 2 + 1);
    total := total + Times(OddMaps(radius), c);

    c := Fields(m, size - 1, s.col, size - 1);
    total := total + c;
    c := Fields(m, s.row, 0, size - 1);
    total := total + c;
    c := Fields(m, 0, s.col, size - 1);
    total := total + c;
    c := Fields(m, s.row, size - 1, size - 1);
    total := total + c;

    var outer := size / 2 - 1;
    c := Fields(m, size - 1, 0, outer);
    total := total + Times(radius + 1, c);
    c := Fields(m, 0, 0, outer);
    total := total + Times(radius + 1, c);
    c := Fields(m, 0, size - 1, outer);
    total := total + Times(radius + 1, c);
    c := Fields(m, size - 1, size - 1, outer);
    total := total + Times(radius + 1, c);

    var inner := size * 3 / 2 - 1;
    c := Fields(m, size - 1, 0, inner);
    total := total + Times(radius, c);
    c := Fields(m, 0, 0, inner);
    total := total + Times(radius, c);
    c := Fields(m, 0, size - 1, inner);
    total := total + Times(radius, c);
    c := Fields(m, size - 1, size - 1, inner);
    total := total + Times(radius, c);
  }

  /** Part 2: the fully reachable gardens of both parities, the four corner
      gardens and the outer and inner edge gardens. */
  method Part2(m: Map) returns (r: Result<nat>)
    ensures r.Ok? <==> FindStart(m).Some? && InputProperties(m, FindStart(m).value, Part2Steps)
                       && 2 <= |m| <= Part2Steps
  {
    var start := FindStart(m);
    if start.None? {
      return Err("no start");
    }
    var s := start.value;
    if !InputProperties(m, s, Part2Steps) {
      return Err("input properties");
    }
    var size := |m|;
    if size < 2 || size > Part2Steps {
      return Err("garden too small or too large");
    }
    var total := TileTotal(m, s, size);
    r := Ok(total);
  }
}
