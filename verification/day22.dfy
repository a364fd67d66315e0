/** Falling sand bricks: bricks are dropped onto the ground in order of their
    lowest z, the resulting support relation is recorded, and from it the
    number of safely removable bricks (part 1) and the sum of chain reactions
    (part 2) are computed. */
module Day22 {
  import opened Common

  datatype Vector3 = Vector3(x: int, y: int, z: int)

  /** A brick spans the box between its two end cubes. */
  datatype Brick = Brick(start: Vector3, end: Vector3)

  function LowestX(b: Brick): int { Min(b.start.x, b.end.x) }
  function HighestX(b: Brick): int { Max(b.start.x, b.end.x) }
  function LowestY(b: Brick): int { Min(b.start.y, b.end.y) }
  function HighestY(b: Brick): int { Max(b.start.y, b.end.y) }
  function LowestZ(b: Brick): int { Min(b.start.z, b.end.z) }
  function HighestZ(b: Brick): int { Max(b.start.z, b.end.z) }

  /** The extents are ordered on every axis and are attained by an end cube. */
  lemma ExtentsOrdered(b: Brick)
    ensures LowestX(b) <= HighestX(b) && LowestY(b) <= HighestY(b) && LowestZ(b) <= HighestZ(b)
    ensures {LowestX(b), HighestX(b)} == {b.start.x, b.end.x}
    ensures {LowestY(b), HighestY(b)} == {b.start.y, b.end.y}
    ensures {LowestZ(b), HighestZ(b)} == {b.start.z, b.end.z}
  {
  }

  /** The two bricks' footprints in the x-y plane intersect. */
  predicate OverlapsWith(a: Brick, b: Brick)
  {
    && Max(LowestX(a), LowestX(b)) <= Min(HighestX(a), HighestX(b))
    && Max(LowestY(a), LowestY(b)) <= Min(HighestY(a), HighestY(b))
  }

  /** `b` moved vertically so that its lowest cube sits at height `z`. */
  function Lowered(b: Brick, z: int): (r: Brick)
  {
    var fall := LowestZ(b) - z;
    Brick(b.start.(z := b.start.z - fall), b.end.(z := b.end.z - fall))
  }

  /** Same x and y coordinates and the same vertical extent. */
  predicate SameShape(a: Brick, b: Brick)
  {
    && a.start.x == b.start.x && a.end.x == b.end.x
    && a.start.y == b.start.y && a.end.y == b.end.y
    && a.end.z - a.start.z == b.end.z - b.start.z
  }

  /** Overlap is symmetric and reflexive, and only looks at x and y. */
  lemma OverlapProperties(a: Brick, b: Brick, a': Brick)
    requires SameShape(a, a')
    ensures OverlapsWith(a, b) <==> OverlapsWith(b, a)
    ensures OverlapsWith(a, a)
    ensures OverlapsWith(a, b) <==> OverlapsWith(a', b)
  {
  }

  /** The height at which `b` comes to rest on the bricks `below`: one above
      the highest overlapping brick, or the ground level 1. */
  function RestingZ(below: seq<Brick>, b: Brick): int
  {
    if |below| == 0 then 1
    else
      var z := RestingZ(below[..|below| - 1], b);
      var last := below[|below| - 1];
      if OverlapsWith(b, last) then Max(z, HighestZ(last) + 1) else z
  }

  /** The resting height is the least height at or above the ground that is
      above every overlapping brick below. */
  lemma {:induction false} RestingZIsLeastFree(below: seq<Brick>, b: Brick)
    ensures RestingZ(below, b) >= 1
    ensures forall j :: 0 <= j < |below| && OverlapsWith(b, below[j]) ==>
              HighestZ(below[j]) < RestingZ(below, b)
    ensures RestingZ(below, b) == 1 ||
            exists j :: 0 <= j < |below| && OverlapsWith(b, below[j]) &&
                        RestingZ(below, b) == HighestZ(below[j]) + 1
  {
    if |below| > 0 {
      var init := below[..|below| - 1];
      RestingZIsLeastFree(init, b);
      forall j | 0 <= j < |init|
        ensures below[j] == init[j]
      {
      }
    }
  }

  lemma LoweredShape(b: Brick, z: int)
    ensures SameShape(Lowered(b, z), b) && LowestZ(Lowered(b, z)) == z
  {
  }

  /** Drops the bricks in order: each comes to rest on the already dropped
      bricks before it.  Only the vertical position changes. */
  method DropBricks(bricks: seq<Brick>) returns (r: seq<Brick>)
    ensures |r| == |bricks|
    ensures forall i :: 0 <= i < |r| ==> SameShape(r[i], bricks[i])
    ensures forall i :: 0 <= i < |r| ==> LowestZ(r[i]) == RestingZ(r[..i], r[i])
  {
    r := bricks;
    var i := 0;
    while i < |r|
      invariant |r| == |bricks| && 0 <= i <= |r|
      invariant forall k :: 0 <= k < |r| ==> SameShape(r[k], bricks[k])
      invariant forall k :: 0 <= k < i ==> LowestZ(r[k]) == RestingZ(r[..k], r[k])
    {
      var z := 1;
      var below := 0;
      while below < i
        invariant 0 <= below <= i
        invariant z == RestingZ(r[..below], r[i])
      {
        assert r[..below + 1][..below] == r[..below];
        if OverlapsWith(r[i], r[below]) {
          z := Max(z, HighestZ(r[below]) + 1);
        }
        below := below + 1;
      }
      var dropped := Lowered(r[i], z);
      LoweredShape(r[i], z);
      OverlapProperties(dropped, r[i], r[i]);
      RestingZSameShape(r[..i], r[i], dropped);
      forall k | 0 <= k < i
        ensures r[i := dropped][..k] == r[..k]
      {
      }
      r := r[i := dropped];
      i := i + 1;
    }
  }

  lemma {:induction false} RestingZSameShape(below: seq<Brick>, b: Brick, b': Brick)
    requires SameShape(b, b')
    ensures RestingZ(below, b) == RestingZ(below, b')
  {
    if |below| > 0 {
      RestingZSameShape(below[..|below| - 1], b, b');
    }
  }

  /** `i` rests directly on `j`: its bottom is one above `j`'s top and their
      footprints overlap. */
  predicate RestsOn(bricks: seq<Brick>, i: nat, j: nat)
    requires i < |bricks| && j < |bricks|
  {
    LowestZ(bricks[i]) == 1 + HighestZ(bricks[j]) && OverlapsWith(bricks[i], bricks[j])
  }

  /** For every brick, the later bricks it holds up and the earlier bricks it
      rests on, by index. */
  datatype SupportMap = SupportMap(supports: seq<seq<nat>>, supportedBy: seq<seq<nat>>)

  predicate WellFormed(m: SupportMap)
  {
    && |m.supports| == |m.supportedBy|
    && (forall i, x :: 0 <= i < |m.supports| && 0 <= x < |m.supports[i]| ==> m.supports[i][x] < |m.supports|)
    && (forall i, x :: 0 <= i < |m.supportedBy| && 0 <= x < |m.supportedBy[i]| ==> m.supportedBy[i][x] < |m.supports|)
  }

  /** Builds the support relation: `j` is recorded under `supportedBy[i]`, and
      `i` under `supports[j]`, exactly when `j` comes before `i` and `i`
      rests on `j`. */
  method BuildSupportMap(bricks: seq<Brick>) returns (m: SupportMap)
    ensures WellFormed(m) && |m.supports| == |bricks|
    ensures forall i, j :: 0 <= i < |bricks| && 0 <= j < |bricks| ==>
              (j in m.supportedBy[i] <==> j < i && RestsOn(bricks, i, j))
    ensures forall i, j :: 0 <= i < |bricks| && 0 <= j < |bricks| ==>
              (i in m.supports[j] <==> j < i && RestsOn(bricks, i, j))
  {
    var n := |bricks|;
    var supports: seq<seq<nat>> := seq(n, _ => []);
    var supportedBy: seq<seq<nat>> := seq(n, _ => []);
    var i := 0;
    while i < n
      invariant 0 <= i <= n && |supports| == n && |supportedBy| == n
      invariant forall a, x :: 0 <= a < n && 0 <= x < |supports[a]| ==> supports[a][x] < i
      invariant forall a, x :: 0 <= a < n && 0 <= x < |supportedBy[a]| ==> supportedBy[a][x] < n
      invariant forall a, b :: 0 <= a < n && 0 <= b < n ==>
                  (b in supportedBy[a] <==> b < a && a < i && RestsOn(bricks, a, b))
      invariant forall a, b :: 0 <= a < n && 0 <= b < n ==>
                  (a in supports[b] <==> b < a && a < i && RestsOn(bricks, a, b))
    {
      var below := 0;
      while below < i
        invariant 0 <= below <= i && |supports| == n && |supportedBy| == n
        invariant forall a, x :: 0 <= a < n && 0 <= x < |supports[a]| ==> supports[a][x] <= i
        invariant forall a, x :: 0 <= a < n && 0 <= x < |supportedBy[a]| ==> supportedBy[a][x] < n
        invariant forall a, b :: 0 <= a < n && 0 <= b < n ==>
                    (b in supportedBy[a] <==> b < a && RestsOn(bricks, a, b) &&
                                              (a < i || (a == i && b < below)))
        invariant forall a, b :: 0 <= a < n && 0 <= b < n ==>
                    (a in supports[b] <==> b < a && RestsOn(bricks, a, b) &&
                                           (a < i || (a == i && b < below)))
      {
        if LowestZ(bricks[i]) == 1 + HighestZ(bricks[below]) && OverlapsWith(bricks[i], bricks[below]) {
          supports := supports[below := supports[below] + [i]];
          supportedBy := supportedBy[i := supportedBy[i] + [below]];
        }
        below := below + 1;
      }
      i := i + 1;
    }
    m := SupportMap(supports, supportedBy);
  }

  /** A map with the characterisation `BuildSupportMap` ensures is ordered. */
  lemma BuiltMapOrdered(bricks: seq<Brick>, m: SupportMap)
    requires WellFormed(m) && |m.supports| == |bricks|
    requires forall i, j :: 0 <= i < |bricks| && 0 <= j < |bricks| ==>
               (j in m.supportedBy[i] <==> j < i && RestsOn(bricks, i, j))
    requires forall i, j :: 0 <= i < |bricks| && 0 <= j < |bricks| ==>
               (i in m.supports[j] <==> j < i && RestsOn(bricks, i, j))
    ensures Ordered(m)
  {
    forall i, x | 0 <= i < |m.supportedBy| && 0 <= x < |m.supportedBy[i]|
      ensures m.supportedBy[i][x] < i
    {
      assert m.supportedBy[i][x] in m.supportedBy[i];
    }
  }

  /** The support relation read from both sides agrees. */
  lemma SupportMapConsistent(bricks: seq<Brick>, m: SupportMap, i: nat, j: nat)
    requires |m.supports| == |m.supportedBy| == |bricks| && i < |bricks| && j < |bricks|
    requires forall i, j :: 0 <= i < |bricks| && 0 <= j < |bricks| ==>
               (j in m.supportedBy[i] <==> j < i && RestsOn(bricks, i, j))
    requires forall i, j :: 0 <= i < |bricks| && 0 <= j < |bricks| ==>
               (i in m.supports[j] <==> j < i && RestsOn(bricks, i, j))
    ensures j in m.supportedBy[i] <==> i in m.supports[j]
    ensures j in m.supportedBy[i] ==> j < i && LowestZ(bricks[i]) == HighestZ(bricks[j]) + 1
  {
  }

  /** A brick can be disintegrated when everything it holds up rests on at
      least one other brick as well. */
  predicate Removable(m: SupportMap, i: nat)
    requires WellFormed(m) && i < |m.supports|
  {
    forall s :: s in m.supports[i] ==> |m.supportedBy[s]| >= 2
  }

  /** The inner loop of part 1: a brick is removable unless something it
      holds up has fewer than two supporters. */
  method CanBeRemoved(m: SupportMap, i: nat) returns (canBeRemoved: bool)
    requires WellFormed(m) && i < |m.supports|
    ensures canBeRemoved <==> Removable(m, i)
  {
    canBeRemoved := true;
    var k := 0;
    while k < |m.supports[i]|
      invariant 0 <= k <= |m.supports[i]|
      invariant canBeRemoved <==> forall x :: 0 <= x < k ==> |m.supportedBy[m.supports[i][x]]| >= 2
    {
      if |m.supportedBy[m.supports[i][k]]| < 2 {
        canBeRemoved := false;
        break;
      }
      k := k + 1;
    }
  }

  function RemovableBelow(m: SupportMap, n: nat): set<nat>
    requires WellFormed(m) && n <= |m.supports|
  {
    set k: nat | k < n && Removable(m, k)
  }

  lemma RemovableBelowStep(m: SupportMap, i: nat)
    requires WellFormed(m) && i < |m.supports|
    ensures |RemovableBelow(m, i + 1)| == |RemovableBelow(m, i)| + (if Removable(m, i) then 1 else 0)
    ensures |RemovableBelow(m, i)| <= i
  {
    if Removable(m, i) {
      assert RemovableBelow(m, i + 1) == RemovableBelow(m, i) + {i};
    } else {
      assert RemovableBelow(m, i + 1) == RemovableBelow(m, i);
    }
    SubsetCard(RemovableBelow(m, i), Range(i));
  }

  /** Part 1: the number of removable bricks. */
  method Part1(m: SupportMap) returns (result: nat)
    requires WellFormed(m)
    ensures result == |set i: nat | i < |m.supports| && Removable(m, i)|
    ensures result <= |m.supports|
  {
    result := 0;
    var i := 0;
    while i < |m.supports|
      invariant 0 <= i <= |m.supports|
      invariant result == |RemovableBelow(m, i)|
      invariant result <= i
    {
      var canBeRemoved := CanBeRemoved(m, i);
      RemovableBelowStep(m, i);
      if canBeRemoved {
        result := result + 1;
      }
      i := i + 1;
    }
  }

  /** A support map as `BuildSupportMap` produces it: every brick rests only on
      earlier bricks, and both directions of the relation agree. */
  predicate Ordered(m: SupportMap)
  {
    && WellFormed(m)
    && (forall i, x :: 0 <= i < |m.supportedBy| && 0 <= x < |m.supportedBy[i]| ==> m.supportedBy[i][x] < i)
    && (forall i, j :: 0 <= i < |m.supports| && 0 <= j < |m.supports| ==>
          (j in m.supportedBy[i] <==> i in m.supports[j]))
  }

  /** Reference chain reaction: once `brick` is gone, `f` falls when it is
      `brick` itself, or rests on at least one brick and every brick it rests
      on falls. */
  predicate Falls(m: SupportMap, brick: nat, f: nat)
    requires Ordered(m) && f < |m.supports|
    decreases f
  {
    f == brick ||
    (|m.supportedBy[f]| > 0 &&
     forall x :: 0 <= x < |m.supportedBy[f]| ==> Falls(m, brick, m.supportedBy[f][x]))
  }

  /** The bricks that fall when `brick` is disintegrated, `brick` included. */
  ghost function FallSet(m: SupportMap, brick: nat): set<nat>
    requires Ordered(m)
  {
    set f: nat | f < |m.supports| && Falls(m, brick, f)
  }

  /** Every brick in `falling` falls in the reference sense. */
  ghost predicate Sound(m: SupportMap, brick: nat, falling: set<nat>)
    requires Ordered(m)
  {
    forall f :: f in falling ==> f < |m.supports| && Falls(m, brick, f)
  }

  /** Every supporter of `y` has fallen and has already been taken off the queue. */
  ghost predicate AllSettled(m: SupportMap, y: nat, falling: set<nat>, queue: seq<nat>)
    requires Ordered(m) && y < |m.supports|
  {
    forall s :: s in m.supportedBy[y] ==> s in falling && s !in queue
  }

  /** Whether every brick that `s` rests on is already falling. */
  method AllSupportersFalling(m: SupportMap, s: nat, falling: set<nat>) returns (all: bool)
    requires WellFormed(m) && s < |m.supports|
    ensures all <==> forall x :: x in m.supportedBy[s] ==> x in falling
  {
    all := true;
    var j := 0;
    while j < |m.supportedBy[s]|
      invariant 0 <= j <= |m.supportedBy[s]|
      invariant all <==> forall x :: 0 <= x < j ==> m.supportedBy[s][x] in falling
    {
      if m.supportedBy[s][j] !in falling {
        all := false;
        break;
      }
      j := j + 1;
    }
  }

  /** Appending a freshly fallen brick to both the falling set and the queue
      keeps an unsettled brick unsettled. */
  lemma UnsettledStays(m: SupportMap, y: nat, falling: set<nat>, queue: seq<nat>, a: nat)
    requires Ordered(m) && y < |m.supports|
    requires !AllSettled(m, y, falling, queue)
    ensures !AllSettled(m, y, falling + {a}, queue + [a])
  {
    var s :| s in m.supportedBy[y] && (s !in falling || s in queue);
    assert s in queue + [a] || s !in falling + {a};
  }

  /** Bookkeeping of `ReleaseSupported`: the falling set only grows, and the
      queue keeps its old entries and gains exactly the newly fallen bricks. */
  ghost predicate QueueBook(falling: set<nat>, queue: seq<nat>, falling': set<nat>, queue': seq<nat>)
  {
    && falling <= falling'
    && |queue'| == |queue| + |falling' - falling|
    && (forall a :: a in queue ==> a in queue')
    && (forall a :: a in falling' && a !in falling ==> a in queue')
  }

  /** The first `k` bricks held up by `current` have fallen or are unsettled. */
  ghost predicate Examined(m: SupportMap, current: nat, k: nat, falling: set<nat>, queue: seq<nat>)
    requires Ordered(m) && current < |m.supports| && k <= |m.supports[current]|
  {
    forall j :: 0 <= j < k ==>
      m.supports[current][j] in falling || !AllSettled(m, m.supports[current][j], falling, queue)
  }

  /** The state of `ReleaseSupported` after the first `k` bricks held up by
      `current` were examined. */
  ghost predicate ReleaseInv(m: SupportMap, brick: nat, current: nat, falling: set<nat>, queue: seq<nat>,
                             k: nat, falling': set<nat>, queue': seq<nat>)
    requires Ordered(m) && current < |m.supports| && k <= |m.supports[current]|
  {
    && Sound(m, brick, falling')
    && (forall i :: 0 <= i < |queue'| ==> queue'[i] in falling')
    && QueueBook(falling, queue, falling', queue')
    && Examined(m, current, k, falling', queue')
  }

  /** Skipping a brick that already falls, or that still has a supporter
      standing, keeps the state. */
  lemma ReleaseSkip(m: SupportMap, brick: nat, current: nat, falling: set<nat>, queue: seq<nat>,
                    k: nat, falling': set<nat>, queue': seq<nat>)
    requires Ordered(m) && current < |m.supports| && k < |m.supports[current]|
    requires ReleaseInv(m, brick, current, falling, queue, k, falling', queue')
    requires m.supports[current][k] in falling' ||
             !(forall x :: x in m.supportedBy[m.supports[current][k]] ==> x in falling')
    ensures ReleaseInv(m, brick, current, falling, queue, k + 1, falling', queue')
  {
  }

  /** Queueing one more fallen brick keeps the bookkeeping. */
  lemma QueueBookAdd(falling: set<nat>, queue: seq<nat>, falling': set<nat>, queue': seq<nat>, a: nat)
    requires QueueBook(falling, queue, falling', queue') && a !in falling'
    ensures QueueBook(falling, queue, falling' + {a}, queue' + [a])
  {
    assert (falling' + {a}) - falling == (falling' - falling) + {a};
  }

  /** The examined bricks stay fallen or unsettled when the next one falls
      and is queued. */
  lemma ExaminedAdd(m: SupportMap, current: nat, k: nat, falling: set<nat>, queue: seq<nat>)
    requires Ordered(m) && current < |m.supports| && k < |m.supports[current]|
    requires Examined(m, current, k, falling, queue)
    ensures Examined(m, current, k + 1, falling + {m.supports[current][k]}, queue + [m.supports[current][k]])
  {
    var a := m.supports[current][k];
    forall j | 0 <= j < k && m.supports[current][j] !in falling
      ensures !AllSettled(m, m.supports[current][j], falling + {a}, queue + [a])
    {
      UnsettledStays(m, m.supports[current][j], falling, queue, a);
    }
  }

  /** A brick held up by `current` whose supporters all fall, falls too. */
  lemma SupportedFalls(m: SupportMap, brick: nat, current: nat, supported: nat, falling: set<nat>)
    requires Ordered(m) && current < |m.supports| && supported in m.supports[current]
    requires Sound(m, brick, falling)
    requires forall x :: x in m.supportedBy[supported] ==> x in falling
    ensures Sound(m, brick, falling + {supported})
  {
    assert current in m.supportedBy[supported];
    assert Falls(m, brick, supported);
  }

  /** Letting a brick fall whose supporters all fall keeps the state. */
  lemma ReleaseAdd(m: SupportMap, brick: nat, current: nat, falling: set<nat>, queue: seq<nat>,
                   k: nat, falling': set<nat>, queue': seq<nat>)
    requires Ordered(m) && current < |m.supports| && k < |m.supports[current]|
    requires ReleaseInv(m, brick, current, falling, queue, k, falling', queue')
    requires m.supports[current][k] !in falling'
    requires forall x :: x in m.supportedBy[m.supports[current][k]] ==> x in falling'
    ensures ReleaseInv(m, brick, current, falling, queue, k + 1,
                       falling' + {m.supports[current][k]}, queue' + [m.supports[current][k]])
  {
    var supported := m.supports[current][k];
    SupportedFalls(m, brick, current, supported, falling');
    QueueBookAdd(falling, queue, falling', queue', supported);
    ExaminedAdd(m, current, k, falling', queue');
  }

  /** Processes one dequeued brick: every brick it holds up whose supporters
      are now all falling starts falling and is enqueued.  Every brick it holds
      up that stays put has a supporter that is not falling or still queued. */
  method ReleaseSupported(m: SupportMap, brick: nat, current: nat, falling: set<nat>, queue: seq<nat>)
    returns (falling': set<nat>, queue': seq<nat>)
    requires Ordered(m) && current < |m.supports|
    requires Sound(m, brick, falling)
    requires forall k :: 0 <= k < |queue| ==> queue[k] in falling
    ensures Sound(m, brick, falling') && falling <= falling'
    ensures forall k :: 0 <= k < |queue'| ==> queue'[k] in falling'
    ensures |queue'| == |queue| + |falling' - falling|
    ensures forall a :: a in queue ==> a in queue'
    ensures forall a :: a in falling' && a !in falling ==> a in queue'
    ensures forall y :: y in m.supports[current] ==> y in falling' || !AllSettled(m, y, falling', queue')
  {
    falling', queue' := falling, queue;
    var k := 0;
    while k < |m.supports[current]|
      invariant 0 <= k <= |m.supports[current]|
      invariant ReleaseInv(m, brick, current, falling, queue, k, falling', queue')
    {
      var supported := m.supports[current][k];
      if supported in falling' {
        ReleaseSkip(m, brick, current, falling, queue, k, falling', queue');
      } else {
        var all := AllSupportersFalling(m, supported, falling');
        if all {
          ReleaseAdd(m, brick, current, falling, queue, k, falling', queue');
          queue' := queue' + [supported];
          falling' := falling' + {supported};
        } else {
          ReleaseSkip(m, brick, current, falling, queue, k, falling', queue');
        }
      }
      k := k + 1;
    }
  }

  /** The breadth-first search state: everything in `falling` falls, the
      queue holds falling bricks, and every brick held up by a processed
      brick has either fallen or still waits on a supporter. */
  ghost predicate SearchInv(m: SupportMap, brick: nat, falling: set<nat>, queue: seq<nat>)
    requires Ordered(m)
  {
    && brick in falling
    && Sound(m, brick, falling)
    && (forall k :: 0 <= k < |queue| ==> queue[k] in falling)
    && (forall x, y :: x in falling && x !in queue && x < |m.supports| && y in m.supports[x] ==>
          y in falling || !AllSettled(m, y, falling, queue))
  }

  /** One dequeue-and-release step keeps the search state. */
  lemma SearchStep(m: SupportMap, brick: nat, falling: set<nat>, queue: seq<nat>,
                   falling': set<nat>, queue': seq<nat>)
    requires Ordered(m) && |queue| > 0 && SearchInv(m, brick, falling, queue)
    requires queue[0] < |m.supports|
    requires Sound(m, brick, falling') && falling <= falling'
    requires forall k :: 0 <= k < |queue'| ==> queue'[k] in falling'
    requires forall a :: a in queue[1..] ==> a in queue'
    requires forall a :: a in falling' && a !in falling ==> a in queue'
    requires forall y :: y in m.supports[queue[0]] ==> y in falling' || !AllSettled(m, y, falling', queue')
    ensures SearchInv(m, brick, falling', queue')
  {
    var current := queue[0];
    assert queue == [current] + queue[1..];
    forall x, y | x in falling' && x !in queue' && x < |m.supports| && y in m.supports[x]
      ensures y in falling' || !AllSettled(m, y, falling', queue')
    {
      if x != current && y !in falling {
        var s :| s in m.supportedBy[y] && (s !in falling || s in queue);
        if s == current {
          assert y in m.supports[current];
        }
      }
    }
  }

  /** Once the queue is empty, every brick that falls in the reference sense
      is in the falling set. */
  lemma {:induction false} FallsAreReached(m: SupportMap, brick: nat, falling: set<nat>, f: nat)
    requires Ordered(m) && SearchInv(m, brick, falling, [])
    requires f < |m.supports| && Falls(m, brick, f)
    ensures f in falling
    decreases f
  {
    if f != brick {
      var below := m.supportedBy[f];
      forall x | 0 <= x < |below|
        ensures below[x] in falling
      {
        FallsAreReached(m, brick, falling, below[x]);
      }
      assert f in m.supports[below[0]];
      if f !in falling {
        var s :| s in below && s !in falling;
      }
    }
  }

  /** The chain reaction of disintegrating `brick`: a breadth-first search that
      lets a brick fall once all of its supporters fall.  Returns the number of
      other bricks that fall, together with the falling set, which is exactly
      the reference chain reaction. */
  method CountBrickFalls(m: SupportMap, brick: nat) returns (count: nat, falling: set<nat>)
    requires Ordered(m) && brick < |m.supports|
    ensures falling == FallSet(m, brick)
    ensures count == |falling| - 1 && count < |m.supports|
  {
    var n := |m.supports|;
    var queue := [brick];
    falling := {brick};
    while |queue| > 0
      invariant SearchInv(m, brick, falling, queue)
      decreases |Range(n) - falling|, |queue|
    {
      var current := queue[0];
      ghost var before, beforeQueue := falling, queue;
      falling, queue := ReleaseSupported(m, brick, current, falling, queue[1..]);
      SearchStep(m, brick, before, beforeQueue, falling, queue);
      if falling != before {
        ShrinkingRemainder(Range(n), before, falling);
      }
    }
    forall f: nat | f < n && Falls(m, brick, f)
      ensures f in falling
    {
      FallsAreReached(m, brick, falling, f);
    }
    SubsetCard(falling, Range(n));
    count := |falling| - 1;
  }

  /** Reference total for part 2: the sizes of the chain reactions of the
      first `k` bricks, each without the disintegrated brick itself. */
  ghost function TotalFalls(m: SupportMap, k: nat): int
    requires Ordered(m) && k <= |m.supports|
  {
    if k == 0 then 0 else TotalFalls(m, k - 1) + |FallSet(m, k - 1)| - 1
  }

  /** Part 2: the total number of other bricks falling, summed over every
      brick disintegrated on its own. */
  method Part2(m: SupportMap) returns (result: nat)
    requires Ordered(m)
    ensures result == TotalFalls(m, |m.supports|)
    ensures result <= |m.supports| * |m.supports|
  {
    result := 0;
    var i := 0;
    while i < |m.supports|
      invariant 0 <= i <= |m.supports|
      invariant result == TotalFalls(m, i)
      invariant result <= i * |m.supports|
    {
      var falls, _ := CountBrickFalls(m, i);
      result := result + falls;
      i := i + 1;
    }
  }
}
