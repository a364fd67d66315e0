/** Mirage maintenance: each history is extended one value to the right and
    one to the left by repeatedly taking differences until they are all
    zero. */
module Day9 {
  import opened Common

  predicate AllZero(values: seq<int>)
  {
    forall k :: 0 <= k < |values| ==> values[k] == 0
  }

  /** The differences of neighbouring values, one fewer than the values. */
  function Diffs(values: seq<int>): (r: seq<int>)
    requires |values| > 0
    ensures |r| == |values| - 1
    ensures forall k :: 0 <= k < |r| ==> r[k] == values[k + 1] - values[k]
  {
    seq(|values| - 1, k requires 0 <= k < |values| - 1 => values[k + 1] - values[k])
  }

  lemma DiffsAppend(values: seq<int>, x: int)
    requires |values| > 0
    ensures Diffs(values + [x]) == Diffs(values) + [x - values[|values| - 1]]
  {
    var l := values + [x];
    var d := Diffs(l);
    var e := Diffs(values) + [x - values[|values| - 1]];
    assert |d| == |e|;
    forall k | 0 <= k < |d|
      ensures d[k] == e[k]
    {
      if k < |values| - 1 {
        assert l[k] == values[k] && l[k + 1] == values[k + 1];
      }
    }
  }

  lemma DiffsPrepend(values: seq<int>, x: int)
    requires |values| > 0
    ensures Diffs([x] + values) == [values[0] - x] + Diffs(values)
  {
    var l := [x] + values;
    var d := Diffs(l);
    var e := [values[0] - x] + Diffs(values);
    assert |d| == |e|;
    forall k | 0 <= k < |d|
      ensures d[k] == e[k]
    {
      if k > 0 {
        assert l[k] == values[k - 1] && l[k + 1] == values[k];
      }
    }
  }

  /** The extrapolated value before the first and after the last.  A
      sequence that is not all zero is not empty, so the original's
      `expect` on the first and last values never fires, and each level
      is one shorter, so the recursion ends. */
  function Predict(values: seq<int>): (r: (int, int))
    ensures AllZero(values) ==> r == (0, 0)
    decreases |values|
  {
    if AllZero(values) then (0, 0)
    else
      var (diffPrev, diffNext) := Predict(Diffs(values));
      (values[0] - diffPrev, values[|values| - 1] + diffNext)
  }

  /** A constant history extends with the constant on both sides. */
  lemma PredictConstant(values: seq<int>, c: int)
    requires |values| > 0
    requires forall k :: 0 <= k < |values| ==> values[k] == c
    ensures Predict(values).0 == c && Predict(values).1 == c
  {
    if c != 0 {
      assert values[0] != 0;
      assert AllZero(Diffs(values));
    }
  }

  lemma StepTimes(k: int, d: int)
    ensures (k + 1) * d == k * d + d
  {
  }

  /** The differences of an arithmetic history are its constant step. */
  lemma ArithmeticDiffs(values: seq<int>, a: int, d: int)
    requires |values| > 0
    requires forall k :: 0 <= k < |values| ==> values[k] == a + k * d
    ensures forall k :: 0 <= k < |Diffs(values)| ==> Diffs(values)[k] == d
  {
    forall k | 0 <= k < |Diffs(values)|
      ensures Diffs(values)[k] == d
    {
      StepTimes(k, d);
    }
  }

  /** One level of the recursion: a history that is not all zero extends by
      its first and last values minus and plus the extension of its
      differences. */
  lemma PredictUnfold(values: seq<int>)
    requires !AllZero(values)
    ensures |values| > 0
    ensures Predict(values).0 == values[0] - Predict(Diffs(values)).0
    ensures Predict(values).1 == values[|values| - 1] + Predict(Diffs(values)).1
  {
  }

  /** The first and last values of an arithmetic history, and what an
      all-zero one says about its start and step. */
  lemma ArithmeticEnds(values: seq<int>, a: int, d: int)
    requires |values| >= 2
    requires forall k :: 0 <= k < |values| ==> values[k] == a + k * d
    ensures values[0] == a
    ensures values[|values| - 1] + d == a + |values| * d
    ensures AllZero(values) ==> a == 0 && d == 0
  {
    var n := |values|;
    assert values[0] == a && values[1] == a + d;
    assert values[n - 1] == a + (n - 1) * d;
    StepTimes(n - 1, d);
  }

  /** An arithmetic history with step `d` extends by one step on each side. */
  lemma PredictArithmetic(values: seq<int>, a: int, d: int)
    requires |values| >= 2
    requires forall k :: 0 <= k < |values| ==> values[k] == a + k * d
    ensures Predict(values).0 == a - d
    ensures Predict(values).1 == a + |values| * d
  {
    ArithmeticEnds(values, a, d);
    if AllZero(values) {
      assert |values| * d == 0;
    } else {
      ArithmeticDiffs(values, a, d);
      PredictConstant(Diffs(values), d);
      PredictUnfold(values);
    }
  }

  /** Appending the predicted next value to a history and predicting again
      gives back the same previous value: the extrapolation on the right
      does not disturb the one on the left. */
  lemma {:induction false} NextKeepsPrevious(values: seq<int>)
    ensures Predict(values + [Predict(values).1]).0 == Predict(values).0
    decreases |values|
  {
    var next := Predict(values).1;
    var longer := values + [next];
    if AllZero(values) {
      assert AllZero(longer);
    } else {
      assert longer[0] == values[0];
      assert !AllZero(longer) by {
        var k :| 0 <= k < |values| && values[k] != 0;
        assert longer[k] == values[k];
      }
      var diffs := Diffs(values);
      NextKeepsPrevious(diffs);
      DiffsAppend(values, next);
      assert next - values[|values| - 1] == Predict(diffs).1;
    }
  }

  /** Prepending the predicted previous value and predicting again gives
      back the same next value. */
  lemma {:induction false} PreviousKeepsNext(values: seq<int>)
    ensures Predict([Predict(values).0] + values).1 == Predict(values).1
    decreases |values|
  {
    var prev := Predict(values).0;
    var longer := [prev] + values;
    if AllZero(values) {
      assert AllZero(longer);
    } else {
      assert longer[|longer| - 1] == values[|values| - 1];
      assert !AllZero(longer) by {
        var k :| 0 <= k < |values| && values[k] != 0;
        assert longer[k + 1] == values[k];
      }
      var diffs := Diffs(values);
      PreviousKeepsNext(diffs);
      DiffsPrepend(values, prev);
      assert values[0] - prev == Predict(diffs).0;
    }
  }

  /** Part 1 sums the next values and part 2 the previous ones, folding
      over the histories from the first line on. */
  function Solve(histories: seq<seq<int>>): (int, int)
  {
    if |histories| == 0 then (0, 0)
    else
      var (p1, p2) := Solve(histories[..|histories| - 1]);
      var (prev, next) := Predict(histories[|histories| - 1]);
      (p1 + next, p2 + prev)
  }

  function Nexts(histories: seq<seq<int>>): seq<int>
  {
    seq(|histories|, i requires 0 <= i < |histories| => Predict(histories[i]).1)
  }

  function Prevs(histories: seq<seq<int>>): seq<int>
  {
    seq(|histories|, i requires 0 <= i < |histories| => Predict(histories[i]).0)
  }

  /** The two answers are the sums of the per-history extrapolations. */
  lemma {:induction false} SolveSumsPredictions(histories: seq<seq<int>>)
    ensures Solve(histories).0 == SumInt(Nexts(histories))
    ensures Solve(histories).1 == SumInt(Prevs(histories))
    decreases |histories|
  {
    if |histories| > 0 {
      var init := histories[..|histories| - 1];
      SolveSumsPredictions(init);
      assert Nexts(histories)[..|histories| - 1] == Nexts(init);
      assert Prevs(histories)[..|histories| - 1] == Prevs(init);
    }
  }
}
