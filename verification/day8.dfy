/** Day 8: walking a left/right network by a repeating instruction string,
    and combining the step counts of several walks by their least common
    multiple. */
module Day8 {
  import opened Common

  /** Each node names its left and its right successor. */
  type Network = map<string, (string, string)>

  /** The two goal conditions the puzzle uses: reaching one named node, or
      reaching any node whose name ends with a given character. */
  datatype Goal = IsNode(target: string) | EndsWith(suffix: char)

  predicate AtGoal(goal: Goal, node: string)
  {
    match goal
    case IsNode(target) => node == target
    case EndsWith(c) => |node| > 0 && node[|node| - 1] == c
  }

  const KeyError := "KeyError"
  const ZeroDivisionError := "ZeroDivisionError"
  const OutOfFuel := "out of fuel"

  /** Step number `k` from `node`: the instruction is chosen by `k` modulo
      the instruction count; 'L' takes the left successor and every other
      instruction the right one. An empty instruction string fails on the
      modulo before the node is looked up. */
  function Next(network: Network, instructions: string, node: string, k: nat): (r: Result<string>)
    ensures |instructions| == 0 ==> r == Err(ZeroDivisionError)
    ensures |instructions| > 0 && node !in network ==> r == Err(KeyError)
    ensures r.Ok? ==> node in network && (r.value == network[node].0 || r.value == network[node].1)
    ensures r.Ok? && instructions[k % |instructions|] == 'L' ==> r.value == network[node].0
    ensures r.Ok? && instructions[k % |instructions|] != 'L' ==> r.value == network[node].1
  {
    if |instructions| == 0 then Err(ZeroDivisionError)
    else if node !in network then Err(KeyError)
    else
      var (left, right) := network[node];
      Ok(if instructions[k % |instructions|] == 'L' then left else right)
  }

  /** Where the walk that starts at `node` before step `first` stands after
      `n` more steps, or why it stopped. */
  function WalkFrom(network: Network, instructions: string, node: string, first: nat, n: nat): Result<string>
    decreases n
  {
    if n == 0 then Ok(node)
    else
      match WalkFrom(network, instructions, node, first, n - 1)
      case Err(e) => Err(e)
      case Ok(here) => Next(network, instructions, here, first + n - 1)
  }

  /** Where the walk from `start` stands after `n` steps. */
  function Position(network: Network, instructions: string, start: string, n: nat): Result<string>
  {
    WalkFrom(network, instructions, start, 0, n)
  }

  /** The walk has run `n` steps without error and without meeting the goal
      before step `n`. */
  predicate MissesGoalBefore(network: Network, instructions: string, start: string, goal: Goal, n: nat)
  {
    forall k: nat :: k < n ==>
      Position(network, instructions, start, k).Ok? && !AtGoal(goal, Position(network, instructions, start, k).value)
  }

  lemma MissesGoalStep(network: Network, instructions: string, start: string, goal: Goal, n: nat, node: string)
    requires MissesGoalBefore(network, instructions, start, goal, n)
    requires Position(network, instructions, start, n) == Ok(node) && !AtGoal(goal, node)
    ensures MissesGoalBefore(network, instructions, start, goal, n + 1)
  {
  }

  /** The loop of the original: count steps until the goal holds. The
      source loop may run forever; `fuel` bounds it and its exhaustion is an
      error of its own. Success names the first step at which the goal
      holds; an error names the step at which the walk broke off. */
  method Solve(network: Network, instructions: string, start: string, goal: Goal, fuel: nat)
    returns (r: Result<nat>)
    ensures AtGoal(goal, start) ==> r == Ok(0)
    ensures r.Ok? ==>
      && Position(network, instructions, start, r.value).Ok?
      && AtGoal(goal, Position(network, instructions, start, r.value).value)
    ensures r.Ok? ==> MissesGoalBefore(network, instructions, start, goal, r.value)
    ensures r == Err(OutOfFuel) ==> MissesGoalBefore(network, instructions, start, goal, fuel + 1)
    ensures r.Err? && r.reason != OutOfFuel ==>
      exists n: nat :: n <= fuel && MissesGoalBefore(network, instructions, start, goal, n)
                    && Position(network, instructions, start, n + 1) == Err(r.reason)
  {
    var numSteps: nat := 0;
    var node := start;
    while !AtGoal(goal, node)
      invariant Position(network, instructions, start, numSteps) == Ok(node)
      invariant MissesGoalBefore(network, instructions, start, goal, numSteps)
      invariant numSteps <= fuel
      decreases fuel - numSteps
    {
      MissesGoalStep(network, instructions, start, goal, numSteps, node);
      if numSteps == fuel {
        return Err(OutOfFuel);
      }
      var next := Next(network, instructions, node, numSteps);
      if next.Err? {
        return Err(next.reason);
      }
      node := next.value;
      numSteps := numSteps + 1;
    }
    r := Ok(numSteps);
  }

  /** A walk of `a + b` steps is a walk of `a` steps followed by one of `b`
      steps that begins at step `first + a`. */
  lemma {:induction false} WalkSplits(network: Network, instructions: string, node: string, first: nat, a: nat, b: nat)
    ensures WalkFrom(network, instructions, node, first, a + b) ==
      match WalkFrom(network, instructions, node, first, a)
      case Err(e) => Err(e)
      case Ok(mid) => WalkFrom(network, instructions, mid, first + a, b)
    decreases b
  {
    if b > 0 {
      WalkSplits(network, instructions, node, first, a, b - 1);
      assert first + (a + b) - 1 == (first + a) + b - 1;
    }
  }

  /** Only the step number modulo the instruction count matters, so a walk
      may be started over at any whole number of passes through the
      instructions. */
  lemma {:induction false} WalkPeriodic(network: Network, instructions: string, node: string, first: nat, m: nat, n: nat)
    requires |instructions| > 0
    ensures WalkFrom(network, instructions, node, first + m * |instructions|, n)
         == WalkFrom(network, instructions, node, first, n)
    decreases n
  {
    if n > 0 {
      WalkPeriodic(network, instructions, node, first, m, n - 1);
      var len := |instructions|;
      var k := first + n - 1;
      assert (k + m * len) % len == k % len by {
        ModAddMultiple(k, m, len);
      }
      assert first + m * len + n - 1 == k + m * len;
    }
  }

  /** After a whole number `m` of passes through the instructions the walk
      continues exactly as a fresh walk from the node it has reached: the
      periodicity part 2 relies on. */
  lemma WholePassesRestart(network: Network, instructions: string, start: string, m: nat, n: nat)
    requires |instructions| > 0
    ensures Position(network, instructions, start, m * |instructions| + n) ==
      match Position(network, instructions, start, m * |instructions|)
      case Err(e) => Err(e)
      case Ok(mid) => Position(network, instructions, mid, n)
  {
    WalkSplits(network, instructions, start, 0, m * |instructions|, n);
    match Position(network, instructions, start, m * |instructions|)
    case Err(_) =>
    case Ok(mid) =>
      WalkPeriodic(network, instructions, mid, 0, m, n);
  }

  /** `d` divides `n`, for a positive `d`. */
  predicate Divides(d: nat, n: nat)
  {
    d > 0 && n % d == 0
  }

  lemma MultipleDivides(d: nat, k: nat)
    requires d > 0
    ensures Divides(d, d * k)
  {
    DivUnique(d * k, d, k, 0);
  }

  /** A divisor of `b` and of `a % b` divides `a`; a divisor of `a` and of
      `b` divides `a % b`. */
  lemma RemainderDivides(a: nat, b: nat, d: nat)
    requires b > 0 && d > 0 && b % d == 0
    ensures a % d == 0 <==> (a % b) % d == 0
  {
    var q := a / b;
    var y := b / d;
    assert b == d * y;
    assert q * b == d * (q * y);
    MultipleDivides(d, q * y);
    assert a == (a % b) + d * (q * y);
    SumMod(a % b, q * y, d);
  }

  lemma SumMod(x: nat, k: nat, d: nat)
    requires d > 0
    ensures (x + d * k) % d == x % d
  {
    ModAddMultiple(x, k, d);
    assert d * k == k * d;
  }

  /** Euclid's algorithm, as Python's `math.gcd` computes it on naturals. */
  function Gcd(a: nat, b: nat): (r: nat)
    ensures r == 0 <==> a == 0 && b == 0
    ensures r > 0 ==> a % r == 0 && b % r == 0
    ensures forall d: nat :: d > 0 && a % d == 0 && b % d == 0 ==> Divides(d, r)
    decreases b
  {
    if b == 0 then a
    else
      var r := Gcd(b, a % b);
      assert r > 0 ==> a % r == 0 by {
        if r > 0 {
          RemainderDivides(a, b, r);
        }
      }
      assert forall d: nat :: d > 0 && a % d == 0 && b % d == 0 ==> (a % b) % d == 0 by {
        forall d: nat | d > 0 && a % d == 0 && b % d == 0
          ensures (a % b) % d == 0
        {
          RemainderDivides(a, b, d);
        }
      }
      r
  }

  /** `lcm(a, b)`: the product over the greatest common divisor; both zero
      divides by zero. */
  function Lcm(a: nat, b: nat): (r: Result<nat>)
    ensures r.Err? <==> a == 0 && b == 0
    ensures r.Err? ==> r.reason == ZeroDivisionError
    ensures r.Ok? ==> r.value * Gcd(a, b) == a * b
    ensures r.Ok? && a > 0 ==> Divides(a, r.value)
    ensures r.Ok? && b > 0 ==> Divides(b, r.value)
    ensures r.Ok? ==> (r.value == 0 <==> a == 0 || b == 0)
  {
    var g := Gcd(a, b);
    if g == 0 then Err(ZeroDivisionError)
    else
      LcmDivides(a, b, g);
      Ok(a * b / g)
  }

  lemma LcmDivides(a: nat, b: nat, g: nat)
    requires g > 0 && a % g == 0 && b % g == 0
    ensures (a * b / g) * g == a * b
    ensures a > 0 ==> Divides(a, a * b / g)
    ensures b > 0 ==> Divides(b, a * b / g)
    ensures a * b / g == 0 <==> a == 0 || b == 0
  {
    var x := a / g;
    var y := b / g;
    assert a == g * x && b == g * y;
    assert a * b == g * (x * b) by {
      assert a * b == (g * x) * b;
    }
    assert a * b / g == x * b by {
      MulDiv(g, x * b);
    }
    assert x * b == a * y by {
      assert x * b == x * (g * y);
      assert a * y == (g * x) * y;
    }
    if a > 0 {
      MultipleDivides(a, y);
    }
    if b > 0 {
      assert x * b == b * x;
      MultipleDivides(b, x);
    }
  }

  lemma MulDiv(g: nat, k: nat)
    requires g > 0
    ensures g * k / g == k
  {
    DivUnique(g * k, g, k, 0);
  }

  /** Part 2 folds `lcm` over the step counts from left to right; folding
      an empty sequence is a type error. */
  function LcmAll(nums: seq<nat>): (r: Result<nat>)
    ensures |nums| == 0 ==> r == Err("TypeError")
    ensures r.Ok? ==> forall k :: 0 <= k < |nums| && nums[k] > 0 ==> Divides(nums[k], r.value)
    ensures |nums| > 0 && (forall k :: 0 <= k < |nums| ==> nums[k] > 0) ==> r.Ok? && r.value > 0
    decreases |nums|
  {
    if |nums| == 0 then Err("TypeError")
    else if |nums| == 1 then Ok(nums[0])
    else
      var init := nums[..|nums| - 1];
      var prefix := LcmAll(init);
      assert forall k :: 0 <= k < |init| ==> init[k] == nums[k];
      if prefix.Err? then prefix
      else
        var r := Lcm(prefix.value, nums[|nums| - 1]);
        assert r.Ok? ==> forall k :: 0 <= k < |init| && init[k] > 0 ==> Divides(init[k], r.value) by {
          if r.Ok? && prefix.value > 0 {
            forall k | 0 <= k < |init| && init[k] > 0
              ensures Divides(init[k], r.value)
            {
              DividesTransitive(init[k], prefix.value, r.value);
            }
          }
        }
        r
  }

  lemma DividesTransitive(a: nat, b: nat, c: nat)
    requires Divides(a, b) && Divides(b, c)
    ensures Divides(a, c)
  {
    var x := b / a;
    var y := c / b;
    assert b == a * x && c == b * y;
    assert c == a * (x * y);
    MultipleDivides(a, x * y);
  }
}
