/** Point of incidence: a pattern of ash '.' and rocks '#' is searched for a
    line of reflection between two columns or two rows, allowing a given
    number of mismatched cells (none in the first part, exactly one smudge
    in the second). */
module Day13 {
  import opened Common
  import opened Grids

  /** Which way the search runs: across columns (a vertical line) or across
      rows (a horizontal line). */
  datatype Axis = Vertical | Horizontal

  /** The cell at `primary` along the axis and `secondary` across it; a
      cell past the end of a short row is JavaScript's `undefined`. */
  function Access(pattern: Grid, axis: Axis, primary: int, secondary: int): Option<char>
  {
    var row := if axis == Vertical then secondary else primary;
    var col := if axis == Vertical then primary else secondary;
    if InGrid(pattern, row, col) then Some(pattern[row][col]) else None
  }

  /** How many mirrored pairs of lines a line after `primary` compares: as
      many as fit on the shorter side. */
  function Pairs(primary: nat, primaryLimit: int): (r: nat)
    ensures primary + 1 < primaryLimit ==> 1 <= r
    ensures r <= primary + 1
    ensures primary + r < primaryLimit || r == 0
  {
    if primary + 1 < primaryLimit then Min(primary + 1, primaryLimit - primary - 1) else 0
  }

  /** Mismatches among the first `n` cells of two lines. */
  function LineMismatches(pattern: Grid, axis: Axis, lower: int, upper: int, n: nat): (r: nat)
    ensures r <= n
  {
    if n == 0 then 0
    else LineMismatches(pattern, axis, lower, upper, n - 1)
         + Indicator(Access(pattern, axis, lower, n - 1) != Access(pattern, axis, upper, n - 1))
  }

  /** Mismatches over the first `k` mirrored pairs around the line after
      `primary`. */
  function PairMismatches(pattern: Grid, axis: Axis, primary: nat, secondaryLimit: nat, k: nat): nat
  {
    if k == 0 then 0
    else PairMismatches(pattern, axis, primary, secondaryLimit, k - 1)
         + LineMismatches(pattern, axis, primary - (k - 1), primary + k, secondaryLimit)
  }

  /** All mismatches across the line after `primary`. */
  function Mismatches(pattern: Grid, axis: Axis, primary: nat, primaryLimit: int, secondaryLimit: nat): nat
  {
    PairMismatches(pattern, axis, primary, secondaryLimit, Pairs(primary, primaryLimit))
  }

  /** The line after `primary` reflects with exactly `corrections` smudges. */
  predicate Reflects(pattern: Grid, axis: Axis, corrections: nat, primary: nat, primaryLimit: int, secondaryLimit: nat)
  {
    Mismatches(pattern, axis, primary, primaryLimit, secondaryLimit) == corrections
  }

  lemma {:induction false} LineMismatchesGrow(pattern: Grid, axis: Axis, lower: int, upper: int, n: nat, m: nat)
    requires n <= m
    ensures LineMismatches(pattern, axis, lower, upper, n) <= LineMismatches(pattern, axis, lower, upper, m)
    decreases m
  {
    if n < m {
      LineMismatchesGrow(pattern, axis, lower, upper, n, m - 1);
    }
  }

  lemma {:induction false} PairMismatchesGrow(pattern: Grid, axis: Axis, primary: nat, secondaryLimit: nat, j: nat, k: nat)
    requires j <= k
    ensures PairMismatches(pattern, axis, primary, secondaryLimit, j) <= PairMismatches(pattern, axis, primary, secondaryLimit, k)
    decreases k
  {
    if j < k {
      PairMismatchesGrow(pattern, axis, primary, secondaryLimit, j, k - 1);
    }
  }

  lemma PairStep(pattern: Grid, axis: Axis, primary: nat, secondaryLimit: nat, j: nat)
    ensures PairMismatches(pattern, axis, primary, secondaryLimit, j + 1)
            == PairMismatches(pattern, axis, primary, secondaryLimit, j)
               + LineMismatches(pattern, axis, primary - j, primary + 1 + j, secondaryLimit)
  {
  }

  /** One pair of lines compared cell by cell on top of `before`
      mismatches already counted, stopping as soon as the total passes
      `corrections`. */
  method ScanPair(pattern: Grid, axis: Axis, lower: int, upper: int, secondaryLimit: nat, before: nat, corrections: nat)
    returns (errorCount: nat, exceeded: bool)
    requires before <= corrections
    ensures !exceeded ==> errorCount == before + LineMismatches(pattern, axis, lower, upper, secondaryLimit)
    ensures !exceeded ==> errorCount <= corrections
    ensures exceeded ==> before + LineMismatches(pattern, axis, lower, upper, secondaryLimit) > corrections
  {
    errorCount := before;
    for secondary := 0 to secondaryLimit
      invariant errorCount == before + LineMismatches(pattern, axis, lower, upper, secondary)
      invariant errorCount <= corrections
    {
      if Access(pattern, axis, lower, secondary) != Access(pattern, axis, upper, secondary) {
        errorCount := errorCount + 1;
      }
      if errorCount > corrections {
        LineMismatchesGrow(pattern, axis, lower, upper, secondary + 1, secondaryLimit);
        return errorCount, true;
      }
    }
    return errorCount, false;
  }

  /** Walks outwards from the line after `primary`, pair of lines by pair,
      counting mismatches and giving up as soon as there are more than
      `corrections`.  It answers whether the count is exactly
      `corrections`. */
  method IsReflection(pattern: Grid, axis: Axis, corrections: nat, primary: nat, primaryLimit: int, secondaryLimit: nat)
    returns (b: bool)
    ensures b <==> Reflects(pattern, axis, corrections, primary, primaryLimit, secondaryLimit)
  {
    var errorCount: nat := 0;
    var lower: int := primary;
    var upper: int := primary + 1;
    ghost var j: nat := 0;
    while lower >= 0 && upper < primaryLimit
      invariant lower == primary - j && upper == primary + 1 + j
      invariant j <= Pairs(primary, primaryLimit)
      invariant errorCount == PairMismatches(pattern, axis, primary, secondaryLimit, j)
      invariant errorCount <= corrections
      decreases primaryLimit - upper
    {
      var exceeded;
      errorCount, exceeded := ScanPair(pattern, axis, lower, upper, secondaryLimit, errorCount, corrections);
      if exceeded {
        PairMismatchesGrow(pattern, axis, primary, secondaryLimit, j + 1, Pairs(primary, primaryLimit));
        return false;
      }
      PairStep(pattern, axis, primary, secondaryLimit, j);
      lower := lower - 1;
      upper := upper + 1;
      j := j + 1;
    }
    assert j == Pairs(primary, primaryLimit);
    return errorCount == corrections;
  }

  /** `line` is the first line, counted as the number of lines before it,
      that reflects with exactly `corrections` smudges. */
  predicate IsFirstLine(pattern: Grid, axis: Axis, corrections: nat, primaryLimit: int, secondaryLimit: nat, line: nat)
  {
    1 <= line < primaryLimit
    && Reflects(pattern, axis, corrections, line - 1, primaryLimit, secondaryLimit)
    && forall p: nat :: p < line - 1 ==> !Reflects(pattern, axis, corrections, p, primaryLimit, secondaryLimit)
  }

  predicate NoLine(pattern: Grid, axis: Axis, corrections: nat, primaryLimit: int, secondaryLimit: nat)
  {
    forall p: nat :: p + 1 < primaryLimit ==> !Reflects(pattern, axis, corrections, p, primaryLimit, secondaryLimit)
  }

  /** Tries each line from the first on and gives the number of lines before
      the first that reflects, or nothing. */
  method FindReflection(pattern: Grid, axis: Axis, corrections: nat, primaryLimit: int, secondaryLimit: nat)
    returns (r: Option<nat>)
    ensures r.Some? ==> IsFirstLine(pattern, axis, corrections, primaryLimit, secondaryLimit, r.value)
    ensures r.None? ==> NoLine(pattern, axis, corrections, primaryLimit, secondaryLimit)
  {
    var primary: nat := 0;
    while primary + 1 < primaryLimit
      invariant forall p: nat :: p < primary ==> !Reflects(pattern, axis, corrections, p, primaryLimit, secondaryLimit)
      decreases primaryLimit - primary
    {
      var found := IsReflection(pattern, axis, corrections, primary, primaryLimit, secondaryLimit);
      if found {
        return Some(primary + 1);
      }
      primary := primary + 1;
    }
    return None;
  }

  /** A pattern's score: the columns left of the first vertical line, or
      else a hundred times the rows above the first horizontal line, or
      else 0.  A pattern without rows has no first row to measure. */
  method EvalPatternScore(pattern: Grid, corrections: nat) returns (r: Result<nat>)
    ensures r.Ok? <==> |pattern| > 0
    ensures r.Ok? && !NoLine(pattern, Vertical, corrections, |pattern[0]|, |pattern|) ==>
      IsFirstLine(pattern, Vertical, corrections, |pattern[0]|, |pattern|, r.value)
    ensures r.Ok? && NoLine(pattern, Vertical, corrections, |pattern[0]|, |pattern|)
                  && !NoLine(pattern, Horizontal, corrections, |pattern|, |pattern[0]|) ==>
      r.value % 100 == 0 && IsFirstLine(pattern, Horizontal, corrections, |pattern|, |pattern[0]|, r.value / 100)
    ensures r.Ok? && NoLine(pattern, Vertical, corrections, |pattern[0]|, |pattern|)
                  && NoLine(pattern, Horizontal, corrections, |pattern|, |pattern[0]|) ==>
      r.value == 0
  {
    if |pattern| == 0 {
      return Err("TypeError");
    }
    var rows := |pattern|;
    var cols := |pattern[0]|;
    var vertical := FindReflection(pattern, Vertical, corrections, cols, rows);
    if vertical.Some? {
      return Ok(vertical.value);
    }
    var horizontal := FindReflection(pattern, Horizontal, corrections, rows, cols);
    if horizontal.Some? {
      return Ok(horizontal.value * 100);
    }
    return Ok(0);
  }

  lemma {:induction false} NoLineMismatches(pattern: Grid, axis: Axis, lower: int, upper: int, n: nat)
    ensures LineMismatches(pattern, axis, lower, upper, n) == 0
            <==> forall s :: 0 <= s < n ==> Access(pattern, axis, lower, s) == Access(pattern, axis, upper, s)
    decreases n
  {
    if n > 0 {
      NoLineMismatches(pattern, axis, lower, upper, n - 1);
    }
  }

  /** The cells `j` lines either side of the line after `primary`, at
      `secondary` across, agree. */
  predicate Mirrored(pattern: Grid, axis: Axis, primary: nat, j: int, secondary: int)
  {
    Access(pattern, axis, primary - j, secondary) == Access(pattern, axis, primary + 1 + j, secondary)
  }

  lemma {:induction false} NoPairMismatches(pattern: Grid, axis: Axis, primary: nat, secondaryLimit: nat, k: nat)
    ensures PairMismatches(pattern, axis, primary, secondaryLimit, k) == 0
            <==> forall j, s :: 0 <= j < k && 0 <= s < secondaryLimit ==> Mirrored(pattern, axis, primary, j, s)
    decreases k
  {
    if k > 0 {
      NoPairMismatches(pattern, axis, primary, secondaryLimit, k - 1);
      NoLineMismatches(pattern, axis, primary - (k - 1), primary + k, secondaryLimit);
      var last := k - 1;
      var before := PairMismatches(pattern, axis, primary, secondaryLimit, last);
      var line := LineMismatches(pattern, axis, primary - last, primary + k, secondaryLimit);
      if before == 0 && line == 0 {
        forall j, s | 0 <= j < k && 0 <= s < secondaryLimit
          ensures Mirrored(pattern, axis, primary, j, s)
        {
          if j == last {
            assert Access(pattern, axis, primary - last, s) == Access(pattern, axis, primary + k, s);
          }
        }
      }
      if forall j, s :: 0 <= j < k && 0 <= s < secondaryLimit ==> Mirrored(pattern, axis, primary, j, s) {
        var lo, hi := primary - last, primary + k;
        forall s | 0 <= s < secondaryLimit
          ensures Access(pattern, axis, lo, s) == Access(pattern, axis, hi, s)
        {
          assert Mirrored(pattern, axis, primary, last, s);
        }
      }
    }
  }

  /** Without smudges a line reflects exactly when every compared pair of
      lines agrees cell for cell, over the pairs that fit on the shorter
      side and no further. */
  lemma PerfectReflection(pattern: Grid, axis: Axis, primary: nat, primaryLimit: int, secondaryLimit: nat)
    ensures Reflects(pattern, axis, 0, primary, primaryLimit, secondaryLimit)
            <==> forall j, s :: 0 <= j < Pairs(primary, primaryLimit) && 0 <= s < secondaryLimit
                   ==> Mirrored(pattern, axis, primary, j, s)
  {
    NoPairMismatches(pattern, axis, primary, secondaryLimit, Pairs(primary, primaryLimit));
  }
}
