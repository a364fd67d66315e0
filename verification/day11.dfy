/** Cosmic expansion: galaxies are the '#' cells of an image, every row and
    column without a galaxy is `expansion` times as wide, and the distance
    between two galaxies is the Manhattan distance in the expanded image.
    Empty rows and columns are counted once as prefix counts, so one
    distance is a subtraction of two counts. */
module Day11 {
  import opened Common

  type Image = seq<seq<char>>

  /** A row or column index pair `(row, col)`. */
  type Position = (nat, nat)

  predicate IsGalaxy(image: Image, p: Position)
  {
    p.0 < |image| && p.1 < |image[p.0]| && image[p.0][p.1] == '#'
  }

  /** Strict row-major order. */
  predicate RowMajorBefore(p: Position, q: Position)
  {
    p.0 < q.0 || (p.0 == q.0 && p.1 < q.1)
  }

  /** Every galaxy of the image, in row-major order, each exactly once. */
  method FindGalaxies(image: Image) returns (galaxies: seq<Position>)
    ensures forall p: Position :: p in galaxies <==> IsGalaxy(image, p)
    ensures forall i :: 0 < i < |galaxies| ==> RowMajorBefore(galaxies[i - 1], galaxies[i])
  {
    galaxies := [];
    var row := 0;
    while row < |image|
      invariant row <= |image|
      invariant forall p: Position :: p in galaxies <==> IsGalaxy(image, p) && p.0 < row
      invariant forall i :: 0 < i < |galaxies| ==> RowMajorBefore(galaxies[i - 1], galaxies[i])
      invariant forall i :: 0 <= i < |galaxies| ==> galaxies[i].0 < row
    {
      var col := 0;
      while col < |image[row]|
        invariant col <= |image[row]|
        invariant forall p: Position :: p in galaxies <==>
          IsGalaxy(image, p) && (p.0 < row || (p.0 == row && p.1 < col))
        invariant forall i :: 0 < i < |galaxies| ==> RowMajorBefore(galaxies[i - 1], galaxies[i])
        invariant forall i :: 0 <= i < |galaxies| ==> RowMajorBefore(galaxies[i], (row, col))
      {
        if image[row][col] == '#' {
          galaxies := galaxies + [(row, col)];
        }
        col := col + 1;
      }
      row := row + 1;
    }
  }

  /** Row-major order along the whole list, not only between neighbours. */
  lemma {:induction false} GalaxiesSorted(galaxies: seq<Position>, i: nat, j: nat)
    requires forall k :: 0 < k < |galaxies| ==> RowMajorBefore(galaxies[k - 1], galaxies[k])
    requires i < j < |galaxies|
    ensures RowMajorBefore(galaxies[i], galaxies[j])
    decreases j - i
  {
    if i + 1 < j {
      GalaxiesSorted(galaxies, i + 1, j);
      assert RowMajorBefore(galaxies[i], galaxies[i + 1]);
    }
  }

  /** A row or column with nothing but '.' (an empty line is one too). */
  predicate AllDots(line: seq<char>)
  {
    forall k :: 0 <= k < |line| ==> line[k] == '.'
  }

  /** The number of set flags among the first `n`. */
  function PrefixCount(flags: seq<bool>, n: nat): nat
    requires n <= |flags|
  {
    if n == 0 then 0 else PrefixCount(flags, n - 1) + (if flags[n - 1] then 1 else 0)
  }

  /** `counts[i]` is how many flags are set at indices `0..=i`. */
  predicate IsPrefixCount(counts: seq<nat>, flags: seq<bool>)
  {
    |counts| == |flags| && forall i :: 0 <= i < |counts| ==> counts[i] == PrefixCount(flags, i + 1)
  }

  function RowFlags(image: Image): (r: seq<bool>)
    ensures |r| == |image|
    ensures forall i :: 0 <= i < |image| ==> (r[i] <==> AllDots(image[i]))
  {
    seq(|image|, i requires 0 <= i < |image| => AllDots(image[i]))
  }

  /** The running count of all-'.' rows. */
  method FindEmptyRows(image: Image) returns (emptyRows: seq<nat>)
    ensures IsPrefixCount(emptyRows, RowFlags(image))
  {
    var flags := RowFlags(image);
    emptyRows := [];
    var emptyCount := 0;
    for i := 0 to |image|
      invariant |emptyRows| == i
      invariant emptyCount == PrefixCount(flags, i)
      invariant forall k :: 0 <= k < i ==> emptyRows[k] == PrefixCount(flags, k + 1)
    {
      if AllDots(image[i]) {
        emptyCount := emptyCount + 1;
      }
      emptyRows := emptyRows + [emptyCount];
    }
  }

  /** A column that every row reaches with a '.'. */
  predicate ColumnAllDots(image: Image, col: nat)
  {
    forall k :: 0 <= k < |image| ==> col < |image[k]| && image[k][col] == '.'
  }

  /** The short-circuiting check of column `col` from row `row` on: the first
      row without a '.' there ends it with `false`, and a row too short to
      have the column aborts, as an index out of bounds does in the
      original. */
  function ColumnFrom(image: Image, col: nat, row: nat): (r: Result<bool>)
    requires row <= |image|
    ensures r == Ok(true) <==>
      forall k :: row <= k < |image| ==> col < |image[k]| && image[k][col] == '.'
    ensures r.Err? ==> exists k :: row <= k < |image| && col >= |image[k]|
    ensures r == Ok(false) ==>
      exists k :: row <= k < |image| && col < |image[k]| && image[k][col] != '.'
    decreases |image| - row
  {
    if row == |image| then Ok(true)
    else if col >= |image[row]| then Err("index out of bounds")
    else if image[row][col] != '.' then Ok(false)
    else ColumnFrom(image, col, row + 1)
  }

  predicate Rectangular(image: Image)
  {
    |image| > 0 && forall k :: 0 <= k < |image| ==> |image[k]| >= |image[0]|
  }

  function ColumnFlags(image: Image, cols: nat): (r: seq<bool>)
    ensures |r| == cols
    ensures forall i :: 0 <= i < cols ==> (r[i] <==> ColumnAllDots(image, i))
  {
    seq(cols, i requires 0 <= i < cols => ColumnAllDots(image, i))
  }

  /** The running count of all-'.' columns across the first row's width.
      An image without rows aborts, and so does a column that a shorter
      row does not reach before a non-'.' decides it. */
  method FindEmptyCols(image: Image) returns (r: Result<seq<nat>>)
    ensures |image| == 0 ==> r.Err?
    ensures Rectangular(image) ==> r.Ok?
    ensures r.Ok? ==> |image| > 0 && IsPrefixCount(r.value, ColumnFlags(image, |image[0]|))
  {
    if |image| == 0 {
      return Err("No data in image");
    }
    var cols := |image[0]|;
    var flags := ColumnFlags(image, cols);
    var emptyCols := [];
    var emptyCount := 0;
    for i := 0 to cols
      invariant |emptyCols| == i
      invariant emptyCount == PrefixCount(flags, i)
      invariant forall k :: 0 <= k < i ==> emptyCols[k] == PrefixCount(flags, k + 1)
    {
      var column := ColumnFrom(image, i, 0);
      if column.Err? {
        assert !Rectangular(image);
        return Err(column.reason);
      }
      if column.value {
        emptyCount := emptyCount + 1;
      }
      emptyCols := emptyCols + [emptyCount];
    }
    r := Ok(emptyCols);
  }

  /** A prefix count starts at 0 or 1, grows by one exactly at a set flag,
      never decreases, and stays at most one more than its index. */
  lemma {:induction false} PrefixCountShape(counts: seq<nat>, flags: seq<bool>, i: nat)
    requires IsPrefixCount(counts, flags)
    requires i < |counts|
    ensures i == 0 ==> (counts[0] == 1 <==> flags[0]) && counts[0] <= 1
    ensures i > 0 ==> (counts[i] == counts[i - 1] + 1 <==> flags[i])
    ensures i > 0 ==> (counts[i] == counts[i - 1] <==> !flags[i])
    ensures counts[i] <= i + 1
    ensures forall j :: 0 <= j <= i ==> counts[j] <= counts[i]
    decreases i
  {
    if i > 0 {
      PrefixCountShape(counts, flags, i - 1);
    } else {
      assert counts[0] == PrefixCount(flags, 1);
    }
  }

  /** Steps along one axis between `start` and `end`: each step into an
      empty row or column counts `expansion`.  The original subtracts
      unsigned values, so a decreasing count table or an expansion of 0
      aborts, and an index past the table aborts too. */
  function GetStepCount(start: nat, end: nat, empty: seq<nat>, expansion: nat): (r: Result<nat>)
    ensures r.Ok? <==>
      start < |empty| && end < |empty| && expansion >= 1
      && empty[Min(start, end)] <= empty[Max(start, end)]
  {
    var (lower, upper) := if start < end then (start, end) else (end, start);
    if upper >= |empty| then Err("index out of bounds")
    else if empty[upper] < empty[lower] then Err("attempt to subtract with overflow")
    else if expansion == 0 then Err("attempt to subtract with overflow")
    else
      var empties: nat := empty[upper] - empty[lower];
      MulNonnegative(expansion - 1, empties);
      Ok(upper - lower + (expansion - 1) * empties)
  }

  lemma MulNonnegative(a: nat, b: nat)
    ensures a * b >= 0
  {
  }

  /** A galaxy is no steps from itself, and without expansion the count is
      the plain distance between the two lines. */
  lemma StepCountUnexpanded(start: nat, end: nat, empty: seq<nat>, expansion: nat)
    requires GetStepCount(start, end, empty, expansion).Ok?
    ensures start == end ==> GetStepCount(start, end, empty, expansion).value == 0
    ensures expansion == 1 ==> GetStepCount(start, end, empty, expansion).value == Abs(start - end)
  {
    var lower := Min(start, end);
    var upper := Max(start, end);
    if start == end {
      assert empty[upper] - empty[lower] == 0;
    }
  }

  /** Swapping the ends gives the same count. */
  lemma StepCountSymmetric(start: nat, end: nat, empty: seq<nat>, expansion: nat)
    ensures GetStepCount(start, end, empty, expansion) == GetStepCount(end, start, empty, expansion)
  {
  }

  /** The width of the expanded lines `lower+1 ..= upper`: `expansion` for
      a line whose flag is set and 1 for any other. */
  function ExpandedSpan(flags: seq<bool>, lower: nat, upper: nat, expansion: nat): nat
    requires lower <= upper < |flags|
    decreases upper
  {
    if upper == lower then 0
    else ExpandedSpan(flags, lower, upper - 1, expansion) + (if flags[upper] then expansion else 1)
  }

  lemma MulSucc(c: int, x: int)
    ensures c * (x + 1) == c * x + c
  {
  }

  lemma {:induction false} ExpandedSpanCounts(flags: seq<bool>, lower: nat, upper: nat, expansion: nat)
    requires lower <= upper < |flags|
    requires expansion >= 1
    ensures PrefixCount(flags, lower + 1) <= PrefixCount(flags, upper + 1)
    ensures ExpandedSpan(flags, lower, upper, expansion)
         == upper - lower
          + (expansion - 1) * (PrefixCount(flags, upper + 1) - PrefixCount(flags, lower + 1))
    decreases upper
  {
    if upper > lower {
      ExpandedSpanCounts(flags, lower, upper - 1, expansion);
      MulSucc(expansion - 1, PrefixCount(flags, upper) - PrefixCount(flags, lower + 1));
    }
  }

  /** Over a prefix-count table the step count never aborts (for a positive
      expansion) and is the expanded width between the two lines. */
  lemma StepCountIsExpandedSpan(start: nat, end: nat, empty: seq<nat>, flags: seq<bool>, expansion: nat)
    requires IsPrefixCount(empty, flags)
    requires start < |flags| && end < |flags|
    requires expansion >= 1
    ensures GetStepCount(start, end, empty, expansion)
         == Ok(ExpandedSpan(flags, Min(start, end), Max(start, end), expansion))
  {
    ExpandedSpanCounts(flags, Min(start, end), Max(start, end), expansion);
  }

  /** The expanded Manhattan distance: row steps plus column steps. */
  function ShortestPath(start: Position, end: Position, emptyRows: seq<nat>, emptyCols: seq<nat>,
                        expansion: nat): (r: Result<nat>)
    ensures r.Ok? <==>
      GetStepCount(start.0, end.0, emptyRows, expansion).Ok?
      && GetStepCount(start.1, end.1, emptyCols, expansion).Ok?
  {
    var rows := GetStepCount(start.0, end.0, emptyRows, expansion);
    var cols := GetStepCount(start.1, end.1, emptyCols, expansion);
    if rows.Err? then rows
    else if cols.Err? then cols
    else Ok(rows.value + cols.value)
  }

  /** With the tables the two finders build, the distance between two
      positions inside the image is the sum of the expanded widths along
      each axis, and the same both ways round. */
  lemma ShortestPathIsExpandedDistance(image: Image, start: Position, end: Position,
                                       emptyRows: seq<nat>, emptyCols: seq<nat>, expansion: nat)
    requires |image| > 0
    requires IsPrefixCount(emptyRows, RowFlags(image))
    requires IsPrefixCount(emptyCols, ColumnFlags(image, |image[0]|))
    requires start.0 < |image| && end.0 < |image|
    requires start.1 < |image[0]| && end.1 < |image[0]|
    requires expansion >= 1
    ensures ShortestPath(start, end, emptyRows, emptyCols, expansion)
         == Ok(ExpandedSpan(RowFlags(image), Min(start.0, end.0), Max(start.0, end.0), expansion)
             + ExpandedSpan(ColumnFlags(image, |image[0]|), Min(start.1, end.1), Max(start.1, end.1),
                            expansion))
    ensures ShortestPath(start, end, emptyRows, emptyCols, expansion)
         == ShortestPath(end, start, emptyRows, emptyCols, expansion)
  {
    StepCountIsExpandedSpan(start.0, end.0, emptyRows, RowFlags(image), expansion);
    StepCountIsExpandedSpan(start.1, end.1, emptyCols, ColumnFlags(image, |image[0]|), expansion);
    StepCountSymmetric(start.0, end.0, emptyRows, expansion);
    StepCountSymmetric(start.1, end.1, emptyCols, expansion);
  }
}
