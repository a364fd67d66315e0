/** Snowverload: an undirected graph of components read from lines
    `source: target target ...`, searched breadth first for a path between
    two components and for the size of a connected part. */
module Day25 {
  import opened Common

  type Node = string

  /** Adjacency lists; a node with no list has no neighbours. */
  type Graph = map<Node, seq<Node>>

  type Edge = (Node, Node)

  function Adj(g: Graph, a: Node): seq<Node>
  {
    if a in g then g[a] else []
  }

  /** One connection, recorded in both directions. */
  function AddEdge(g: Graph, source: Node, target: Node): Graph
  {
    var g1 := g[source := Adj(g, source) + [target]];
    g1[target := Adj(g1, target) + [source]]
  }

  /** One input line: the source connected to each of its targets in turn. */
  function AddLine(g: Graph, source: Node, targets: seq<Node>): Graph
    decreases |targets|
  {
    if |targets| == 0 then g else AddLine(AddEdge(g, source, targets[0]), source, targets[1..])
  }

  function BuildGraph(lines: seq<(Node, seq<Node>)>): Graph
  {
    if |lines| == 0 then map[]
    else
      var last := lines[|lines| - 1];
      AddLine(BuildGraph(lines[..|lines| - 1]), last.0, last.1)
  }

  /** Every connection is listed as often from either end. */
  ghost predicate Symmetric(g: Graph)
  {
    forall a, b :: multiset(Adj(g, a))[b] == multiset(Adj(g, b))[a]
  }

  /** Every neighbour has an adjacency list of its own. */
  predicate Closed(g: Graph)
  {
    forall a, b :: a in g && b in g[a] ==> b in g
  }

  lemma AdjAddEdge(g: Graph, source: Node, target: Node, x: Node, y: Node)
    ensures multiset(Adj(AddEdge(g, source, target), x))[y]
            == multiset(Adj(g, x))[y] + (if x == source && y == target then 1 else 0)
               + (if x == target && y == source then 1 else 0)
  {
    var g1 := g[source := Adj(g, source) + [target]];
    assert multiset(Adj(g1, x)) == multiset(Adj(g, x)) + (if x == source then multiset{target} else multiset{});
    assert multiset(Adj(AddEdge(g, source, target), x))
           == multiset(Adj(g1, x)) + (if x == target then multiset{source} else multiset{});
  }

  lemma AddEdgeSymmetric(g: Graph, source: Node, target: Node)
    requires Symmetric(g)
    ensures Symmetric(AddEdge(g, source, target))
  {
    var h := AddEdge(g, source, target);
    forall a, b
      ensures multiset(Adj(h, a))[b] == multiset(Adj(h, b))[a]
    {
      AdjAddEdge(g, source, target, a, b);
      AdjAddEdge(g, source, target, b, a);
    }
  }

  lemma {:induction false} AddLineSymmetric(g: Graph, source: Node, targets: seq<Node>)
    requires Symmetric(g)
    ensures Symmetric(AddLine(g, source, targets))
    decreases |targets|
  {
    if |targets| > 0 {
      AddEdgeSymmetric(g, source, targets[0]);
      AddLineSymmetric(AddEdge(g, source, targets[0]), source, targets[1..]);
    }
  }

  /** The graph read from any lines is undirected: `b` is listed among
      `a`'s neighbours exactly as often as `a` among `b`'s, so every
      neighbour has a list of its own. */
  lemma {:induction false} BuildGraphSymmetric(lines: seq<(Node, seq<Node>)>)
    ensures Symmetric(BuildGraph(lines))
    ensures Closed(BuildGraph(lines))
  {
    if |lines| > 0 {
      var last := lines[|lines| - 1];
      BuildGraphSymmetric(lines[..|lines| - 1]);
      AddLineSymmetric(BuildGraph(lines[..|lines| - 1]), last.0, last.1);
    }
    SymmetricIsClosed(BuildGraph(lines));
  }

  lemma SymmetricIsClosed(g: Graph)
    requires Symmetric(g)
    ensures Closed(g)
  {
    forall a, b | a in g && b in g[a]
      ensures b in g
    {
      assert multiset(Adj(g, a))[b] > 0;
      assert multiset(Adj(g, b))[a] > 0;
    }
  }

  /** `path` is a chain of edges of `g` leading from `start` to `end`; the
      empty chain leads from a node to itself. */
  predicate IsWalk(g: Graph, start: Node, end: Node, path: seq<Edge>)
    decreases |path|
  {
    if |path| == 0 then start == end
    else path[0].0 == start && path[0].1 in Adj(g, start) && IsWalk(g, path[0].1, end, path[1..])
  }

  ghost predicate Connected(g: Graph, start: Node, end: Node)
  {
    exists path :: IsWalk(g, start, end, path)
  }

  lemma {:induction false} WalkExtend(g: Graph, start: Node, current: Node, path: seq<Edge>, target: Node)
    requires IsWalk(g, start, current, path)
    requires target in Adj(g, current)
    ensures IsWalk(g, start, target, path + [(current, target)])
    decreases |path|
  {
    if |path| == 0 {
      assert [(current, target)][1..] == [];
    } else {
      WalkExtend(g, path[0].1, current, path[1..], target);
      assert (path + [(current, target)])[1..] == path[1..] + [(current, target)];
    }
  }

  /** Every node of a set closed under the edges, holding the start, is
      where each walk from the start ends. */
  lemma {:induction false} WalksStayInClosedSet(g: Graph, reached: set<Node>, start: Node, end: Node, path: seq<Edge>)
    requires start in reached
    requires forall a, b :: a in reached && b in Adj(g, a) ==> b in reached
    requires IsWalk(g, start, end, path)
    ensures end in reached
    decreases |path|
  {
    if |path| > 0 {
      WalksStayInClosedSet(g, reached, path[0].1, end, path[1..]);
    }
  }

  function QueueNodes(queue: seq<(Node, seq<Edge>)>): set<Node>
  {
    set i | 0 <= i < |queue| :: queue[i].0
  }

  /** Each queue entry carries a walk from the start to its node. */
  predicate QueueWalks(g: Graph, start: Node, queue: seq<(Node, seq<Edge>)>)
  {
    forall i :: 0 <= i < |queue| ==> IsWalk(g, start, queue[i].0, queue[i].1)
  }

  /** Every neighbour of a node in `seen` is in `seen` or waiting in
      `waiting`. */
  ghost predicate ClosedBut(g: Graph, seen: set<Node>, waiting: set<Node>)
  {
    forall a, b :: a in seen && b in Adj(g, a) ==> b in seen || b in waiting
  }

  /** Breadth-first search from `start` for `end`, carrying the path to
      each queued node.  It gives the empty path when the two are the same,
      a chain of edges from `start` to `end` when it finds `end`, and
      nothing only when no chain exists.  Expanding a node without an
      adjacency list is the original's `KeyError`, which cannot happen in a
      closed graph. */
  method GetShortestPath(g: Graph, start: Node, end: Node) returns (r: Result<Option<seq<Edge>>>)
    ensures start == end ==> r == Ok(Some([]))
    ensures r.Ok? && r.value.Some? ==> IsWalk(g, start, end, r.value.value)
    ensures r.Ok? && r.value.None? ==> !Connected(g, start, end)
    ensures start in g && Closed(g) ==> r.Ok?
  {
    var queue: seq<(Node, seq<Edge>)> := [(start, [])];
    var seen: set<Node> := {};
    assert queue[0].0 in QueueNodes(queue);
    while |queue| > 0
      invariant PathSearch(g, start, end, seen, queue)
      invariant start == end ==> queue == [(start, [])]
      decreases |g.Keys - seen|, |queue|
    {
      if queue[0].0 == end {
        return Ok(Some(queue[0].1));
      }
      var failed;
      seen, queue, failed := PathStep(g, start, end, seen, queue);
      if failed {
        return Err("KeyError");
      }
    }
    WalksAvoidEnd(g, seen, start, end);
    return Ok(None);
  }

  /** What the path search keeps true: queued paths are walks, the seen
      nodes have lists, `end` is never seen, the start is seen or queued,
      and the seen nodes' neighbours are seen or queued. */
  ghost predicate PathSearch(g: Graph, start: Node, end: Node, seen: set<Node>, queue: seq<(Node, seq<Edge>)>)
  {
    QueueWalks(g, start, queue)
    && seen <= g.Keys
    && end !in seen
    && (start in seen || start in QueueNodes(queue))
    && ClosedBut(g, seen, QueueNodes(queue))
    && (start in g && Closed(g) ==> QueueNodes(queue) <= g.Keys)
  }

  /** One pop of the path search when the front is not `end`: a seen node
      is dropped, an unseen one expanded; expanding a node without a list
      fails.  Either the seen set grows or the queue shrinks. */
  method PathStep(g: Graph, start: Node, end: Node, seen: set<Node>, queue: seq<(Node, seq<Edge>)>)
    returns (seen2: set<Node>, queue2: seq<(Node, seq<Edge>)>, failed: bool)
    requires |queue| > 0 && queue[0].0 != end
    requires PathSearch(g, start, end, seen, queue)
    ensures failed <==> queue[0].0 !in seen && queue[0].0 !in g
    ensures !failed ==> PathSearch(g, start, end, seen2, queue2)
    ensures !failed ==> |g.Keys - seen2| < |g.Keys - seen| || (seen2 == seen && |queue2| < |queue|)
    ensures start in g && Closed(g) ==> !failed
  {
    var current := queue[0].0;
    QueuePop(queue);
    if current in seen {
      SkipKeepsQueue(g, start, seen, queue);
      return seen, queue[1..], false;
    }
    if current !in g {
      return seen, queue, true;
    }
    var pushed := Pushed(g, current, queue[0].1);
    ExpandWalks(g, start, queue, pushed);
    ExpandCloses(g, seen, queue, pushed);
    ShrinkingRemainder(g.Keys, seen, seen + {current});
    return seen + {current}, queue[1..] + pushed, false;
  }

  lemma QueuePop(queue: seq<(Node, seq<Edge>)>)
    requires |queue| > 0
    ensures QueueNodes(queue) == {queue[0].0} + QueueNodes(queue[1..])
  {
    assert forall i :: 0 < i < |queue| ==> queue[i] == queue[1..][i - 1];
  }

  lemma QueueNodesAppend(a: seq<(Node, seq<Edge>)>, b: seq<(Node, seq<Edge>)>)
    ensures QueueNodes(a + b) == QueueNodes(a) + QueueNodes(b)
  {
    assert forall i :: 0 <= i < |a| ==> (a + b)[i] == a[i];
    assert forall k :: 0 <= k < |b| ==> (a + b)[|a| + k] == b[k];
  }

  /** Dropping a front node already seen keeps what the queue promises. */
  lemma SkipKeepsQueue(g: Graph, start: Node, seen: set<Node>, queue: seq<(Node, seq<Edge>)>)
    requires |queue| > 0 && queue[0].0 in seen
    requires QueueWalks(g, start, queue)
    requires ClosedBut(g, seen, QueueNodes(queue))
    ensures QueueWalks(g, start, queue[1..])
    ensures ClosedBut(g, seen, QueueNodes(queue[1..]))
    ensures QueueNodes(queue[1..]) <= QueueNodes(queue)
  {
    QueuePop(queue);
    forall i | 0 <= i < |queue| - 1
      ensures IsWalk(g, start, queue[1..][i].0, queue[1..][i].1)
    {
      assert queue[1..][i] == queue[i + 1];
    }
  }

  /** Expanding the front node keeps every queued path a walk. */
  lemma ExpandWalks(g: Graph, start: Node, queue: seq<(Node, seq<Edge>)>, pushed: seq<(Node, seq<Edge>)>)
    requires |queue| > 0 && queue[0].0 in g
    requires pushed == Pushed(g, queue[0].0, queue[0].1)
    requires QueueWalks(g, start, queue)
    ensures QueueWalks(g, start, queue[1..] + pushed)
  {
    var current := queue[0].0;
    var rest := queue[1..];
    var q := rest + pushed;
    forall i | 0 <= i < |q|
      ensures IsWalk(g, start, q[i].0, q[i].1)
    {
      if i >= |rest| {
        var k := i - |rest|;
        assert q[i] == pushed[k];
        WalkExtend(g, start, current, queue[0].1, g[current][k]);
      } else {
        assert q[i] == queue[i + 1];
      }
    }
  }

  /** After expanding the front node, it is seen and its neighbours are
      queued. */
  lemma ExpandCloses(g: Graph, seen: set<Node>, queue: seq<(Node, seq<Edge>)>, pushed: seq<(Node, seq<Edge>)>)
    requires |queue| > 0 && queue[0].0 in g
    requires pushed == Pushed(g, queue[0].0, queue[0].1)
    requires ClosedBut(g, seen, QueueNodes(queue))
    ensures ClosedBut(g, seen + {queue[0].0}, QueueNodes(queue[1..] + pushed))
    ensures Closed(g) && QueueNodes(queue) <= g.Keys ==> QueueNodes(queue[1..] + pushed) <= g.Keys
    ensures QueueNodes(queue[1..]) <= QueueNodes(queue[1..] + pushed)
  {
    var current := queue[0].0;
    QueuePop(queue);
    QueueNodesAppend(queue[1..], pushed);
    forall b | b in Adj(g, current)
      ensures b in QueueNodes(pushed)
    {
      var k :| 0 <= k < |g[current]| && g[current][k] == b;
      assert pushed[k].0 == b;
    }
  }

  /** The queue entries a node's expansion appends: each neighbour with the
      path extended by the edge to it. */
  function Pushed(g: Graph, current: Node, path: seq<Edge>): (r: seq<(Node, seq<Edge>)>)
    requires current in g
    ensures |r| == |g[current]|
    ensures forall k :: 0 <= k < |r| ==> r[k] == (g[current][k], path + [(current, g[current][k])])
  {
    seq(|g[current]|, k requires 0 <= k < |g[current]| => (g[current][k], path + [(current, g[current][k])]))
  }

  lemma WalksAvoidEnd(g: Graph, seen: set<Node>, start: Node, end: Node)
    requires start in seen && end !in seen
    requires ClosedBut(g, seen, {})
    ensures !Connected(g, start, end)
  {
    if Connected(g, start, end) {
      var path :| IsWalk(g, start, end, path);
      WalksStayInClosedSet(g, seen, start, end, path);
    }
  }

  lemma ConnectedStep(g: Graph, start: Node, a: Node, b: Node)
    requires Connected(g, start, a) && b in Adj(g, a)
    ensures Connected(g, start, b)
  {
    var path :| IsWalk(g, start, a, path);
    WalkExtend(g, start, a, path, b);
  }

  /** The nodes with an adjacency list that some walk from `start` reaches. */
  ghost function Reachable(g: Graph, start: Node): set<Node>
  {
    set v | v in g.Keys && Connected(g, start, v)
  }

  ghost function Elems(queue: seq<Node>): set<Node>
  {
    set v | v in queue
  }

  /** Every queued or seen node is reachable from the start. */
  ghost predicate AllConnected(g: Graph, start: Node, nodes: set<Node>)
  {
    forall v :: v in nodes ==> Connected(g, start, v)
  }

  lemma ElemsPop(queue: seq<Node>)
    requires |queue| > 0
    ensures Elems(queue) == {queue[0]} + Elems(queue[1..])
  {
  }

  /** Dropping a front node already seen keeps what the search knows. */
  lemma SkipKeepsSearch(g: Graph, start: Node, seen: set<Node>, queue: seq<Node>)
    requires |queue| > 0 && queue[0] in seen
    requires AllConnected(g, start, seen + Elems(queue))
    requires ClosedBut(g, seen, Elems(queue))
    ensures AllConnected(g, start, seen + Elems(queue[1..]))
    ensures ClosedBut(g, seen, Elems(queue[1..]))
  {
    ElemsPop(queue);
  }

  /** Dropping the front node after expanding it: what the search knows
      still holds with the node seen and its neighbours queued. */
  lemma VisitKeepsSearch(g: Graph, start: Node, seen: set<Node>, queue: seq<Node>)
    requires |queue| > 0 && queue[0] in g
    requires AllConnected(g, start, seen + Elems(queue))
    requires ClosedBut(g, seen, Elems(queue))
    ensures AllConnected(g, start, seen + {queue[0]} + Elems(queue[1..] + g[queue[0]]))
    ensures ClosedBut(g, seen + {queue[0]}, Elems(queue[1..] + g[queue[0]]))
    ensures Elems(queue) <= {queue[0]} + Elems(queue[1..] + g[queue[0]])
    ensures Closed(g) && Elems(queue) <= g.Keys ==> Elems(queue[1..] + g[queue[0]]) <= g.Keys
  {
    var current := queue[0];
    var q := queue[1..] + g[current];
    assert Elems(queue) == {current} + Elems(queue[1..]);
    assert Elems(q) == Elems(queue[1..]) + Elems(g[current]);
    forall v | v in Elems(g[current])
      ensures Connected(g, start, v)
    {
      ConnectedStep(g, start, current, v);
    }
  }

  /** Breadth-first search counting the nodes reachable from `start`.  The
      count is exactly the number of reachable nodes, so at least one (the
      start) and at most the number of nodes; reaching a node without an
      adjacency list is the original's `KeyError`. */
  method CountConnectedNodes(g: Graph, start: Node) returns (r: Result<nat>)
    ensures r.Ok? ==> r.value == |Reachable(g, start)|
    ensures start in g && Closed(g) ==> r.Ok? && 1 <= r.value <= |g.Keys|
  {
    var queue: seq<Node> := [start];
    var seen: set<Node> := {};
    assert Connected(g, start, start) by {
      assert IsWalk(g, start, start, []);
    }
    assert Elems(queue) == {start};
    while |queue| > 0
      invariant CountSearch(g, start, seen, queue)
      decreases |g.Keys - seen|, |queue|
    {
      var failed;
      seen, queue, failed := CountStep(g, start, seen, queue);
      if failed {
        return Err("KeyError");
      }
    }
    SeenIsReachable(g, start, seen);
    if start in g {
      SubsetCard(seen, g.Keys);
    }
    return Ok(|seen|);
  }

  /** What the counting search keeps true: seen nodes have lists, seen and
      queued nodes are reachable, the start is seen or queued, and the
      seen nodes' neighbours are seen or queued. */
  ghost predicate CountSearch(g: Graph, start: Node, seen: set<Node>, queue: seq<Node>)
  {
    seen <= g.Keys
    && AllConnected(g, start, seen + Elems(queue))
    && (start in seen || start in Elems(queue))
    && ClosedBut(g, seen, Elems(queue))
    && (start in g && Closed(g) ==> Elems(queue) <= g.Keys)
  }

  /** One pop of the counting search: a seen node is dropped, an unseen one
      expanded; expanding a node without a list fails.  Either the seen set
      grows or the queue shrinks. */
  method CountStep(g: Graph, start: Node, seen: set<Node>, queue: seq<Node>)
    returns (seen2: set<Node>, queue2: seq<Node>, failed: bool)
    requires |queue| > 0
    requires CountSearch(g, start, seen, queue)
    ensures failed <==> queue[0] !in seen && queue[0] !in g
    ensures !failed ==> CountSearch(g, start, seen2, queue2)
    ensures !failed ==> |g.Keys - seen2| < |g.Keys - seen| || (seen2 == seen && |queue2| < |queue|)
    ensures start in g && Closed(g) ==> !failed
  {
    var current := queue[0];
    ElemsPop(queue);
    if current in seen {
      SkipKeepsSearch(g, start, seen, queue);
      return seen, queue[1..], false;
    }
    if current !in g {
      return seen, queue, true;
    }
    VisitKeepsSearch(g, start, seen, queue);
    ShrinkingRemainder(g.Keys, seen, seen + {current});
    return seen + {current}, queue[1..] + g[current], false;
  }

  /** A closed set of reachable nodes holding the start is everything the
      start reaches. */
  lemma SeenIsReachable(g: Graph, start: Node, seen: set<Node>)
    requires seen <= g.Keys
    requires AllConnected(g, start, seen)
    requires start in seen
    requires ClosedBut(g, seen, {})
    ensures seen == Reachable(g, start)
  {
    forall v | v in Reachable(g, start)
      ensures v in seen
    {
      var path :| IsWalk(g, start, v, path);
      WalksStayInClosedSet(g, seen, start, v, path);
    }
  }
}
