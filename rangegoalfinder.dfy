/** RangeGoalFinder: the dense nodes on a midpoint circle around a cell, split
    into clusters that are connected in the graph. */
module RangeGoalFinding {
  import opened Common
  import opened Graph
  import opened Circle
  import opened Mediator

  ghost function Elems(s: seq<int>): set<int>
  {
    set x | x in s
  }

  /** Every node listed in some cluster. */
  ghost function Union(clusters: seq<seq<int>>): set<int>
  {
    if clusters == [] then {} else Union(clusters[..|clusters| - 1]) + Elems(clusters[|clusters| - 1])
  }

  /** A cluster in the order it was grown: it is not empty and every node
      after the first is a neighbour of a node listed before it. */
  ghost predicate GrownFrom(graph: Adjacency, cluster: seq<int>)
  {
    && |cluster| > 0
    && (forall k :: 0 <= k < |cluster| ==> IsNode(graph, cluster[k]))
    && (forall k :: 0 < k < |cluster| ==> exists j :: 0 <= j < k && cluster[k] in graph[cluster[j]])
  }

  /** No edge leads from a node of `from` to a node of `to`. */
  ghost predicate NoEdge(graph: Adjacency, from: set<int>, to: set<int>)
  {
    forall u, v :: u in from && IsNode(graph, u) && v in graph[u] ==> v !in to
  }

  /** The clusters split `ring` into disjoint connected parts, and no edge
      leads from a cluster to a later one. */
  ghost predicate IsClustering(graph: Adjacency, ring: set<int>, clusters: seq<seq<int>>)
  {
    && Union(clusters) == ring
    && (forall i :: 0 <= i < |clusters| ==> GrownFrom(graph, clusters[i]))
    && (forall i, j :: 0 <= i < j < |clusters| ==> Elems(clusters[i]) !! Elems(clusters[j]))
    && (forall i, j :: 0 <= i < j < |clusters| ==> NoEdge(graph, Elems(clusters[i]), Elems(clusters[j])))
  }

  /** Number of queue entries that have already left the live set. */
  function DeadCount(open: seq<int>, live: set<int>): nat
  {
    if open == [] then 0 else (if open[0] in live then 0 else 1) + DeadCount(open[1..], live)
  }

  lemma {:induction false} DeadCountConcat(a: seq<int>, b: seq<int>, live: set<int>)
    ensures DeadCount(a + b, live) == DeadCount(a, live) + DeadCount(b, live)
  {
    if a == [] {
      assert a + b == b;
    } else {
      assert (a + b)[0] == a[0] && (a + b)[1..] == a[1..] + b;
      DeadCountConcat(a[1..], b, live);
    }
  }

  lemma {:induction false} DeadCountLive(s: seq<int>, live: set<int>)
    requires forall i :: 0 <= i < |s| ==> s[i] in live
    ensures DeadCount(s, live) == 0
  {
    if s != [] {
      DeadCountLive(s[1..], live);
    }
  }

  /** The neighbours in `next` that are still live, in list order. */
  function LiveNeighbours(next: seq<int>, live: set<int>): seq<int>
  {
    if next == [] then []
    else LiveNeighbours(next[..|next| - 1], live) + (if next[|next| - 1] in live then [next[|next| - 1]] else [])
  }

  lemma {:induction false} LiveNeighboursMembers(next: seq<int>, live: set<int>)
    ensures forall w :: w in LiveNeighbours(next, live) <==> w in next && w in live
    ensures forall i :: 0 <= i < |LiveNeighbours(next, live)| ==>
      LiveNeighbours(next, live)[i] in next && LiveNeighbours(next, live)[i] in live
  {
    if next != [] {
      LiveNeighboursMembers(next[..|next| - 1], live);
      assert next == next[..|next| - 1] + [next[|next| - 1]];
    }
  }

  /** Appending neighbours of a listed node keeps a cluster grown. */
  lemma GrownAppend(graph: Adjacency, cluster: seq<int>, added: seq<int>, j: int)
    requires GrownFrom(graph, cluster) && 0 <= j < |cluster|
    requires forall i :: 0 <= i < |added| ==> IsNode(graph, added[i]) && added[i] in graph[cluster[j]]
    ensures GrownFrom(graph, cluster + added)
  {
    var c := cluster + added;
    forall k | 0 <= k < |c| ensures IsNode(graph, c[k]) {
      if k >= |cluster| {
        assert c[k] == added[k - |cluster|];
      }
    }
    forall k | 0 < k < |c| ensures exists i :: 0 <= i < k && c[k] in graph[c[i]] {
      if k < |cluster| {
        var i :| 0 <= i < k && cluster[k] in graph[cluster[i]];
        assert c[k] in graph[c[i]];
      } else {
        assert c[k] == added[k - |cluster|] && c[j] == cluster[j];
        assert 0 <= j < k && c[k] in graph[c[j]];
      }
    }
  }

  lemma UnionAppend(clusters: seq<seq<int>>, c: seq<int>, i: int, n: int)
    requires 0 <= i < |clusters| && n in clusters[i]
    ensures n in Union(clusters + [c])
  {
    assert (clusters + [c])[..|clusters|] == clusters;
    UnionMember(clusters, i, n);
  }

  lemma {:induction false} UnionMember(clusters: seq<seq<int>>, i: int, n: int)
    requires 0 <= i < |clusters| && n in clusters[i]
    ensures n in Union(clusters)
  {
    if i < |clusters| - 1 {
      var init := clusters[..|clusters| - 1];
      UnionMember(init, i, n);
    }
  }

  lemma {:induction false} UnionWitness(clusters: seq<seq<int>>, n: int) returns (i: int)
    requires n in Union(clusters)
    ensures 0 <= i < |clusters| && n in clusters[i]
  {
    var init := clusters[..|clusters| - 1];
    if n in Union(init) {
      i := UnionWitness(init, n);
    } else {
      i := |clusters| - 1;
    }
  }

  /** Every node of a grown cluster is reached from its first node by a walk
      that stays inside the cluster. */
  lemma {:induction false} GrownConnected(graph: Adjacency, cluster: seq<int>, k: int) returns (p: seq<int>)
    requires GrownFrom(graph, cluster) && 0 <= k < |cluster|
    ensures IsWalkBetween(graph, p, cluster[0], cluster[k])
    ensures forall i :: 0 <= i < |p| ==> p[i] in cluster
    decreases k
  {
    if k == 0 {
      p := [cluster[0]];
    } else {
      var j :| 0 <= j < k && cluster[k] in graph[cluster[j]];
      var q := GrownConnected(graph, cluster, j);
      p := q + [cluster[k]];
    }
  }

  /** With a symmetric graph no edge joins two different clusters in either
      direction, so each cluster is a whole connected component of the ring. */
  lemma ClustersSeparated(graph: Adjacency, ring: set<int>, clusters: seq<seq<int>>, i: int, j: int)
    requires IsClustering(graph, ring, clusters) && Symmetric(graph)
    requires 0 <= i < |clusters| && 0 <= j < |clusters| && i != j
    ensures NoEdge(graph, Elems(clusters[i]), Elems(clusters[j]))
  {
    if j < i {
      forall u, v | u in Elems(clusters[i]) && IsNode(graph, u) && v in graph[u]
        ensures v !in Elems(clusters[j])
      {
        if v in Elems(clusters[j]) {
          assert false;
        }
      }
    }
  }

  class RangeGoalFinder {
    const graph: Adjacency
    const mediator: GridGraphMediator

    constructor(graph: Adjacency, mediator: GridGraphMediator)
      ensures this.graph == graph && this.mediator == mediator
    {
      this.graph := graph;
      this.mediator := mediator;
    }

    /** The graph lists the neighbours of the mediator's dense nodes. */
    ghost predicate Valid()
      reads mediator
    {
      mediator.Valid() && ValidGraph(graph) && |graph| == mediator.NodeCount()
    }

    /** The dense nodes whose cells are among the points of S. */
    ghost function Clip(S: set<Pos>): set<int>
      reads mediator
      requires mediator.Valid()
    {
      set n | 0 <= n < mediator.NodeCount() && mediator.GetPos(n) in S
    }

    lemma ClipUnion(A: set<Pos>, B: set<Pos>)
      requires mediator.Valid()
      ensures Clip(A + B) == Clip(A) + Clip(B)
    {
    }

    /** SetCirclePoint: adds the node of (x, y) when that cell is Road; a
        point off the map or on a non-Road cell adds nothing. */
    method SetCirclePoint(circlePoints: set<int>, x: int, y: int, ghost plotted: set<Pos>) returns (r: set<int>)
      requires mediator.Valid() && circlePoints == Clip(plotted)
      ensures r == Clip(plotted + {Pos(x, y)})
    {
      ClipUnion(plotted, {Pos(x, y)});
      var node := mediator.TryGetNode(Pos(x, y));
      if node.Some? {
        forall n | 0 <= n < mediator.NodeCount() && mediator.GetPos(n) == Pos(x, y) ensures n == node.value {
          mediator.GetNodeOfGetPos(n);
          mediator.GetNodeOfGetPos(node.value);
        }
        assert Clip({Pos(x, y)}) == {node.value};
        r := circlePoints + {node.value};
      } else {
        assert Clip({Pos(x, y)}) == {};
        r := circlePoints;
      }
    }

    /** The first four SetCirclePoint calls of one loop step. */
    method PlotUpper(circlePoints: set<int>, c: Pos, x: int, y: int, ghost plotted: set<Pos>) returns (r: set<int>)
      requires mediator.Valid() && circlePoints == Clip(plotted)
      ensures r == Clip(plotted + {Pos(y + c.x, x + c.y), Pos(x + c.x, y + c.y), Pos(-x + c.x, y + c.y), Pos(-y + c.x, x + c.y)})
    {
      ghost var p := plotted;
      r := circlePoints;
      r := SetCirclePoint(r, y + c.x, x + c.y, p);
      p := p + {Pos(y + c.x, x + c.y)};
      r := SetCirclePoint(r, x + c.x, y + c.y, p);
      p := p + {Pos(x + c.x, y + c.y)};
      r := SetCirclePoint(r, -x + c.x, y + c.y, p);
      p := p + {Pos(-x + c.x, y + c.y)};
      r := SetCirclePoint(r, -y + c.x, x + c.y, p);
      p := p + {Pos(-y + c.x, x + c.y)};
      assert p == plotted + {Pos(y + c.x, x + c.y), Pos(x + c.x, y + c.y), Pos(-x + c.x, y + c.y), Pos(-y + c.x, x + c.y)};
    }

    /** The last four SetCirclePoint calls of one loop step. */
    method PlotLower(circlePoints: set<int>, c: Pos, x: int, y: int, ghost plotted: set<Pos>) returns (r: set<int>)
      requires mediator.Valid() && circlePoints == Clip(plotted)
      ensures r == Clip(plotted + {Pos(-y + c.x, -x + c.y), Pos(-x + c.x, -y + c.y), Pos(x + c.x, -y + c.y), Pos(y + c.x, -x + c.y)})
    {
      ghost var p := plotted;
      r := circlePoints;
      r := SetCirclePoint(r, -y + c.x, -x + c.y, p);
      p := p + {Pos(-y + c.x, -x + c.y)};
      r := SetCirclePoint(r, -x + c.x, -y + c.y, p);
      p := p + {Pos(-x + c.x, -y + c.y)};
      r := SetCirclePoint(r, x + c.x, -y + c.y, p);
      p := p + {Pos(x + c.x, -y + c.y)};
      r := SetCirclePoint(r, y + c.x, -x + c.y, p);
      p := p + {Pos(y + c.x, -x + c.y)};
      assert p == plotted + {Pos(-y + c.x, -x + c.y), Pos(-x + c.x, -y + c.y), Pos(x + c.x, -y + c.y), Pos(y + c.x, -x + c.y)};
    }

    /** The four SetCirclePoint calls before the loop. */
    method PlotAxes(center: Pos, radius: int) returns (r: set<int>)
      requires mediator.Valid()
      ensures r == Clip(AxisPoints(center, radius))
    {
      ghost var p: set<Pos> := {};
      assert Clip(p) == {};
      r := SetCirclePoint({}, center.x, radius + center.y, p);
      p := p + {Pos(center.x, radius + center.y)};
      r := SetCirclePoint(r, center.x, -radius + center.y, p);
      p := p + {Pos(center.x, -radius + center.y)};
      r := SetCirclePoint(r, radius + center.x, center.y, p);
      p := p + {Pos(radius + center.x, center.y)};
      r := SetCirclePoint(r, -radius + center.x, center.y, p);
      p := p + {Pos(-radius + center.x, center.y)};
      assert p == AxisPoints(center, radius);
    }

    /** The eight SetCirclePoint calls of one loop step. */
    method PlotStep(circlePoints: set<int>, c: Pos, x: int, y: int, ghost plotted: set<Pos>) returns (r: set<int>)
      requires mediator.Valid() && circlePoints == Clip(plotted)
      ensures r == Clip(plotted + Octants(c, x, y))
    {
      r := PlotUpper(circlePoints, c, x, y, plotted);
      ghost var p := plotted + {Pos(y + c.x, x + c.y), Pos(x + c.x, y + c.y), Pos(-x + c.x, y + c.y), Pos(-y + c.x, x + c.y)};
      r := PlotLower(r, c, x, y, p);
      assert p + {Pos(-y + c.x, -x + c.y), Pos(-x + c.x, -y + c.y), Pos(x + c.x, -y + c.y), Pos(y + c.x, -x + c.y)}
        == plotted + Octants(c, x, y);
    }

    /** One pass of the loop body: the decision-variable update, then the
        eight points of the new offset pair. */
    method CircleStep(circlePoints: set<int>, c: Pos, x: int, y: int, d: int, ghost plotted: set<Pos>)
      returns (r: set<int>, y': int, d': int)
      requires mediator.Valid() && circlePoints == Clip(plotted)
      ensures (y', d') == Step(x, y, d)
      ensures r == Clip(plotted + Octants(c, x, y'))
    {
      y', d' := y, d;
      if d' < 0 {
        d' := d' + 6 + 4 * x;
      } else {
        d' := d' + 10 + 4 * x - 4 * y';
        y' := y' - 1;
      }
      r := PlotStep(circlePoints, c, x, y', plotted);
    }

    /** The state of CalculateCircleNodes's loop at (x, y, d): the offset
        pairs `done` have been plotted and the rest are still to come. */
    ghost predicate CircleLoop(center: Pos, radius: int, done: seq<(int, int)>, x: int, y: int, d: int,
                               circlePoints: set<int>)
      reads mediator
      requires mediator.Valid()
    {
      && MidpointPairs(0, radius, 3 - 2 * radius) == done + MidpointPairs(x, y, d)
      && circlePoints == Clip(AxisPoints(center, radius) + OctantsOf(center, done))
    }

    /** CalculateCircleNodes: the dense nodes of the Road cells the midpoint
        circle plots. */
    method CalculateCircleNodes(center: Pos, radius: int) returns (circlePoints: set<int>)
      requires mediator.Valid()
      ensures circlePoints == Clip(RawCircle(center, radius))
    {
      circlePoints := PlotAxes(center, radius);
      var d := 3 - 2 * radius;
      var y := radius;
      var x := 0;
      ghost var done: seq<(int, int)> := [];
      assert AxisPoints(center, radius) + OctantsOf(center, done) == AxisPoints(center, radius);
      while x <= y
        invariant CircleLoop(center, radius, done, x, y, d, circlePoints)
        decreases y - x + 1
      {
        circlePoints, y, d, done := CircleLoopBody(circlePoints, center, radius, x, y, d, done);
        x := x + 1;
      }
      MidpointPairsDone(x, y, d, done, MidpointPairs(0, radius, 3 - 2 * radius));
    }

    /** One pass of that loop, the pair it plots recorded in `done`. */
    method CircleLoopBody(circlePoints0: set<int>, center: Pos, radius: int, x: int, y0: int, d0: int,
                          ghost done0: seq<(int, int)>)
      returns (circlePoints: set<int>, y: int, d: int, ghost done: seq<(int, int)>)
      requires mediator.Valid() && x <= y0 && CircleLoop(center, radius, done0, x, y0, d0, circlePoints0)
      ensures CircleLoop(center, radius, done, x + 1, y, d, circlePoints) && y <= y0
    {
      ghost var plotted := AxisPoints(center, radius) + OctantsOf(center, done0);
      circlePoints, y, d := CircleStep(circlePoints0, center, x, y0, d0, plotted);
      MidpointPairsStep(x, y0, d0);
      done := done0 + [(x, y)];
      assert done0 + MidpointPairs(x, y0, d0) == done + MidpointPairs(x + 1, y, d);
      PlottedAppend(center, radius, done0, x, y);
    }

    /** The `foreach` over current's neighbours: appends, in list order, those
        still in circleNodes to both the cluster and the queue. */
    method EnqueueNeighbours(rangeGoal0: seq<int>, open0: seq<int>, circleNodes: set<int>, current: int)
      returns (rangeGoal: seq<int>, open: seq<int>)
      requires IsNode(graph, current)
      ensures rangeGoal == rangeGoal0 + LiveNeighbours(graph[current], circleNodes)
      ensures open == open0 + LiveNeighbours(graph[current], circleNodes)
    {
      rangeGoal, open := rangeGoal0, open0;
      var next := graph[current];
      for k := 0 to |next|
        invariant rangeGoal == rangeGoal0 + LiveNeighbours(next[..k], circleNodes)
        invariant open == open0 + LiveNeighbours(next[..k], circleNodes)
      {
        assert next[..k + 1][..k] == next[..k];
        var neighbor := next[k];
        if neighbor in circleNodes {
          rangeGoal := rangeGoal + [neighbor];
          open := open + [neighbor];
        }
      }
      assert next[..|next|] == next;
    }

    /** The state of the growing loop: the cluster so far grew from `first`
        inside circleNodes0; the expanded nodes are the dequeued ones and have
        left circleNodes; every listed node is queued or expanded; and every
        neighbour of an expanded node that is still in circleNodes is queued. */
    ghost predicate FloodState(circleNodes0: set<int>, first: int, rangeGoal: seq<int>, open: seq<int>,
                               circleNodes: set<int>, expanded: set<int>)
    {
      && GrownFrom(graph, rangeGoal) && rangeGoal[0] == first
      && (forall x :: x in rangeGoal ==> x in circleNodes0)
      && (forall x :: x in open ==> x in rangeGoal)
      && circleNodes == circleNodes0 - expanded
      && (forall x :: x in expanded ==> x in rangeGoal)
      && (forall x :: x in rangeGoal ==> x in open || x in expanded)
      && (forall u, w :: u in expanded && IsNode(graph, u) && w in graph[u] && w in circleNodes ==> w in open)
    }

    /** The growing loop for one cluster: a breadth-first flood from `first`
        through the nodes still in circleNodes, removing each node as it is
        dequeued. A node can be listed twice when two dequeued nodes find it
        before it is dequeued itself. */
    method GrowCluster(circleNodes0: set<int>, first: int) returns (rangeGoal: seq<int>, circleNodes: set<int>)
      requires ValidGraph(graph) && first in circleNodes0
      requires forall u :: u in circleNodes0 ==> IsNode(graph, u)
      ensures GrownFrom(graph, rangeGoal) && rangeGoal[0] == first
      ensures Elems(rangeGoal) <= circleNodes0 && circleNodes == circleNodes0 - Elems(rangeGoal)
      ensures NoEdge(graph, Elems(rangeGoal), circleNodes)
    {
      rangeGoal := [first];
      var open := [first];
      circleNodes := circleNodes0;
      ghost var expanded: set<int> := {};
      while |open| > 0
        invariant FloodState(circleNodes0, first, rangeGoal, open, circleNodes, expanded)
        decreases |circleNodes|, DeadCount(open, circleNodes)
      {
        rangeGoal, open, circleNodes, expanded := FloodStep(circleNodes0, first, rangeGoal, open, circleNodes, expanded);
      }
      forall x ensures x in expanded <==> x in Elems(rangeGoal) { }
    }

    /** One pass of the growing loop: dequeue a node, remove it from
        circleNodes and list and queue its neighbours still there. Either
        circleNodes shrinks or it stays and the queue holds one entry fewer
        that has already left it. */
    method FloodStep(ghost circleNodes0: set<int>, ghost first: int, rangeGoal0: seq<int>, open0: seq<int>,
                     live0: set<int>, ghost expanded0: set<int>)
      returns (rangeGoal: seq<int>, open: seq<int>, circleNodes: set<int>, ghost expanded: set<int>)
      requires ValidGraph(graph) && forall u :: u in circleNodes0 ==> IsNode(graph, u)
      requires FloodState(circleNodes0, first, rangeGoal0, open0, live0, expanded0) && |open0| > 0
      ensures FloodState(circleNodes0, first, rangeGoal, open, circleNodes, expanded)
      ensures |circleNodes| < |live0| || (circleNodes == live0 && DeadCount(open, circleNodes) < DeadCount(open0, live0))
    {
      var current := open0[0];
      assert current in open0 && current in rangeGoal0 && current in circleNodes0;
      open := open0[1..];
      circleNodes := live0 - {current};
      expanded := expanded0 + {current};
      rangeGoal, open := EnqueueNeighbours(rangeGoal0, open, circleNodes, current);
      FloodGrows(circleNodes0, first, rangeGoal0, open0, live0, expanded0);
      LiveNeighboursMembers(graph[current], circleNodes);
      FloodShrinks(open0, live0, LiveNeighbours(graph[current], circleNodes));
    }

    /** The pass keeps the loop's state. */
    lemma FloodGrows(circleNodes0: set<int>, first: int, rangeGoal0: seq<int>, open0: seq<int>,
                     live0: set<int>, expanded0: set<int>)
      requires ValidGraph(graph) && forall u :: u in circleNodes0 ==> IsNode(graph, u)
      requires FloodState(circleNodes0, first, rangeGoal0, open0, live0, expanded0) && |open0| > 0
      requires open0[0] in rangeGoal0 && IsNode(graph, open0[0])
      ensures var current := open0[0];
        var added := LiveNeighbours(graph[current], live0 - {current});
        FloodState(circleNodes0, first, rangeGoal0 + added, open0[1..] + added, live0 - {current}, expanded0 + {current})
    {
      var current := open0[0];
      var added := LiveNeighbours(graph[current], live0 - {current});
      LiveNeighboursMembers(graph[current], live0 - {current});
      FloodGrowsCluster(circleNodes0, first, rangeGoal0, current, added);
      FloodGrowsQueue(circleNodes0, rangeGoal0, open0, live0, expanded0, added);
    }

    /** The listed nodes still form a cluster grown from `first`. */
    lemma FloodGrowsCluster(circleNodes0: set<int>, first: int, rangeGoal0: seq<int>, current: int, added: seq<int>)
      requires forall u :: u in circleNodes0 ==> IsNode(graph, u)
      requires GrownFrom(graph, rangeGoal0) && rangeGoal0[0] == first
      requires forall x :: x in rangeGoal0 ==> x in circleNodes0
      requires current in rangeGoal0 && IsNode(graph, current)
      requires forall i :: 0 <= i < |added| ==> added[i] in graph[current] && added[i] in circleNodes0
      ensures GrownFrom(graph, rangeGoal0 + added) && (rangeGoal0 + added)[0] == first
      ensures forall x :: x in rangeGoal0 + added ==> x in circleNodes0
    {
      var j :| 0 <= j < |rangeGoal0| && rangeGoal0[j] == current;
      GrownAppend(graph, rangeGoal0, added, j);
    }

    /** The queue, the expanded set and circleNodes still fit together. */
    lemma FloodGrowsQueue(circleNodes0: set<int>, rangeGoal0: seq<int>, open0: seq<int>, live0: set<int>,
                          expanded0: set<int>, added: seq<int>)
      requires |open0| > 0
      requires forall x :: x in open0 ==> x in rangeGoal0
      requires live0 == circleNodes0 - expanded0
      requires forall x :: x in expanded0 ==> x in rangeGoal0
      requires forall x :: x in rangeGoal0 ==> x in open0 || x in expanded0
      requires forall u, w :: u in expanded0 && IsNode(graph, u) && w in graph[u] && w in live0 ==> w in open0
      requires IsNode(graph, open0[0])
      requires forall w :: w in added <==> w in graph[open0[0]] && w in live0 - {open0[0]}
      ensures var current, rangeGoal, open, expanded := open0[0], rangeGoal0 + added, open0[1..] + added, expanded0 + {open0[0]};
        && (forall x :: x in open ==> x in rangeGoal)
        && live0 - {current} == circleNodes0 - expanded
        && (forall x :: x in expanded ==> x in rangeGoal)
        && (forall x :: x in rangeGoal ==> x in open || x in expanded)
        && (forall u, w :: u in expanded && IsNode(graph, u) && w in graph[u] && w in live0 - {current} ==> w in open)
    {
      assert open0 == [open0[0]] + open0[1..];
    }

    /** The pass lowers the loop's measure. */
    lemma FloodShrinks(open0: seq<int>, live0: set<int>, added: seq<int>)
      requires |open0| > 0
      requires forall i :: 0 <= i < |added| ==> added[i] in live0 - {open0[0]}
      ensures var circleNodes := live0 - {open0[0]};
        |circleNodes| < |live0| || (circleNodes == live0 && DeadCount(open0[1..] + added, circleNodes) < DeadCount(open0, live0))
    {
      var current := open0[0];
      var circleNodes := live0 - {current};
      assert open0 == [current] + open0[1..];
      if current in live0 {
        assert |circleNodes| == |live0| - 1;
      } else {
        assert circleNodes == live0;
        DeadCountConcat(open0[1..], added, circleNodes);
        DeadCountLive(added, circleNodes);
        assert DeadCount(open0, live0) == 1 + DeadCount(open0[1..], live0);
      }
    }

    /** GetRangeGoals: the circle's nodes, split into clusters grown from an
        arbitrary remaining node each (HashSet.First has no specified
        order). */
    method GetRangeGoals(center: Pos, radius: int) returns (rangeGoals: seq<seq<int>>)
      requires Valid()
      ensures IsClustering(graph, Clip(RawCircle(center, radius)), rangeGoals)
    {
      rangeGoals := [];
      var circleNodes := CalculateCircleNodes(center, radius);
      ghost var ring := circleNodes;
      while |circleNodes| > 0
        invariant circleNodes <= ring
        invariant IsClustering(graph, ring - circleNodes, rangeGoals)
        invariant forall i :: 0 <= i < |rangeGoals| ==> NoEdge(graph, Elems(rangeGoals[i]), circleNodes)
        decreases |circleNodes|
      {
        var first :| first in circleNodes;
        ghost var before := circleNodes;
        var rangeGoal;
        rangeGoal, circleNodes := GrowCluster(circleNodes, first);
        AddCluster(ring, before, rangeGoals, rangeGoal, circleNodes);
        rangeGoals := rangeGoals + [rangeGoal];
      }
    }

    lemma AddCluster(ring: set<int>, before: set<int>, clusters: seq<seq<int>>, c: seq<int>, after: set<int>)
      requires before <= ring && IsClustering(graph, ring - before, clusters)
      requires forall i :: 0 <= i < |clusters| ==> NoEdge(graph, Elems(clusters[i]), before)
      requires GrownFrom(graph, c) && Elems(c) <= before && after == before - Elems(c)
      requires NoEdge(graph, Elems(c), after)
      ensures IsClustering(graph, ring - after, clusters + [c])
      ensures forall i :: 0 <= i < |clusters + [c]| ==> NoEdge(graph, Elems((clusters + [c])[i]), after)
    {
      var cs := clusters + [c];
      assert cs[..|clusters|] == clusters;
      assert Union(cs) == Union(clusters) + Elems(c);
      forall i, j | 0 <= i < j < |cs| ensures Elems(cs[i]) !! Elems(cs[j]) {
        if j == |clusters| {
          forall n | n in Elems(cs[i]) ensures n !in Elems(c) {
            UnionMember(clusters, i, n);
          }
        }
      }
    }
  }
}
