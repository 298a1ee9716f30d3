/** ConstrainedAStar: best-first search from one node into a set of goal
    nodes, keyed by Time + H, where H is the squared distance to a caller's
    target point. A node is closed the moment it is first discovered and is
    never reopened; the path is rebuilt by following Parent links.

    Node and PriorityQueue are not part of this model. Node i's mutable
    fields Time, H and Parent are element i of the arrays `time`, `h` and
    `parent` (Parent null is -1), its Position is `positions[i]`, F is
    taken to be Time + H and Reset to set Time 0, H 0 and Parent null. The
    queue is a sequence of (key, node) entries whose Dequeue removes an
    entry with the smallest key; the first such entry is the one taken. */
module AStar {
  import opened Common
  import opened Graph

  /** Heuristic: the squared distance from a node's position to the target,
      with no square root. */
  function Heuristic(position: Pos, target: Pos): (magnitude: int)
    ensures magnitude >= 0
    ensures magnitude == 0 <==> position == target
  {
    SqDist(position, target)
  }

  /** The factor the heuristic of a discovered neighbour is scaled by. */
  const WEIGHT: real := 0.01

  datatype Entry = Entry(f: real, node: int)

  function Nodes(open: seq<Entry>): set<int>
  {
    set e | e in open :: e.node
  }

  lemma NodesAppend(open: seq<Entry>, e: Entry)
    ensures Nodes(open + [e]) == Nodes(open) + {e.node}
  {
    forall x | x in open + [e] ensures x in open || x == e { }
  }

  /** PriorityQueue.Dequeue: removes and returns an entry with the smallest
      key, the first of them when several share it. */
  method Dequeue(open: seq<Entry>) returns (e: Entry, rest: seq<Entry>)
    requires |open| > 0
    ensures e in open && forall x :: x in open ==> e.f <= x.f
    ensures exists i :: 0 <= i < |open| && e == open[i] && rest == open[..i] + open[i + 1..]
  {
    var i := 0;
    for j := 1 to |open|
      invariant 0 <= i < |open| && i < j
      invariant forall k :: 0 <= k < j ==> open[i].f <= open[k].f
    {
      if open[j].f < open[i].f {
        i := j;
      }
    }
    e, rest := open[i], open[..i] + open[i + 1..];
  }

  /** Removing one entry leaves the nodes of the others. */
  lemma DequeueNodes(open: seq<Entry>, e: Entry, rest: seq<Entry>, i: int)
    requires 0 <= i < |open| && e == open[i] && rest == open[..i] + open[i + 1..]
    ensures Nodes(open) == Nodes(rest) + {e.node}
    ensures |rest| == |open| - 1
  {
    assert open == open[..i] + [e] + open[i + 1..];
    forall x | x in open ensures x == e || x in rest { }
  }

  /** A snapshot of every node's Time, H and Parent, indexed by node. */
  datatype Workspace = Workspace(time: seq<int>, h: seq<real>, parent: seq<int>)

  ghost predicate Fits(graph: Adjacency, ws: Workspace)
  {
    |ws.time| == |graph| && |ws.h| == |graph| && |ws.parent| == |graph|
  }

  /** Every node outside `closed` is in its reset state. */
  ghost predicate IsReset(graph: Adjacency, ws: Workspace, closed: set<int>)
    requires Fits(graph, ws)
  {
    forall v :: 0 <= v < |graph| && v !in closed ==> ws.time[v] == 0 && ws.h[v] == 0.0 && ws.parent[v] == -1
  }

  /** The closed nodes form a tree of discoveries rooted at start: the root
      has no parent and Time 0, every other closed node was discovered as a
      graph neighbour of its closed parent, one step later. */
  ghost predicate IsSearchTree(graph: Adjacency, ws: Workspace, start: int, closed: set<int>)
    requires Fits(graph, ws)
  {
    forall v :: v in closed ==>
      && IsNode(graph, v)
      && ws.time[v] >= 0
      && if v == start then ws.parent[v] == -1 && ws.time[v] == 0
         else
           && IsNode(graph, ws.parent[v]) && ws.parent[v] in closed
           && v in graph[ws.parent[v]] && ws.time[v] == ws.time[ws.parent[v]] + 1
  }

  /** The H every closed node was given: unscaled at start, scaled by WEIGHT
      elsewhere. */
  ghost predicate HasHeuristics(graph: Adjacency, positions: seq<Pos>, ws: Workspace, start: int, closed: set<int>, target: Pos)
    requires Fits(graph, ws) && |positions| == |graph|
  {
    forall v :: v in closed && IsNode(graph, v) ==>
      ws.h[v] == if v == start then Heuristic(positions[v], target) as real
                 else WEIGHT * Heuristic(positions[v], target) as real
  }

  /** Queue entries are closed nodes; start is keyed 0, every other node by
      its F = Time + H. */
  ghost predicate IsQueue(graph: Adjacency, ws: Workspace, open: seq<Entry>, start: int, closed: set<int>)
    requires Fits(graph, ws)
  {
    forall e :: e in open ==>
      && e.node in closed && IsNode(graph, e.node)
      && e.f == if e.node == start then 0.0 else ws.time[e.node] as real + ws.h[e.node]
  }

  /** What holds of the search between steps: start is closed, the closed
      nodes form the search tree and carry their heuristics, every other node
      is untouched, and the queue holds closed nodes under their keys. */
  ghost predicate SearchState(graph: Adjacency, positions: seq<Pos>, ws: Workspace, start: int,
                              closed: set<int>, open: seq<Entry>, target: Pos)
  {
    && Fits(graph, ws) && |positions| == |graph|
    && start in closed
    && IsSearchTree(graph, ws, start, closed)
    && HasHeuristics(graph, positions, ws, start, closed, target)
    && IsReset(graph, ws, closed)
    && IsQueue(graph, ws, open, start, closed)
  }

  /** Node v discovered from node: H, Time and Parent set as FindPath sets them. */
  function Discover(ws: Workspace, v: int, node: int, hv: real): Workspace
    requires 0 <= v < |ws.time| && 0 <= v < |ws.h| && 0 <= v < |ws.parent| && 0 <= node < |ws.time|
  {
    Workspace(ws.time[v := ws.time[node] + 1], ws.h[v := hv], ws.parent[v := node])
  }

  /** Discovering an unclosed neighbour of a closed node and enqueueing it
      under its F keeps the search state. */
  lemma DiscoverKeepsSearchState(graph: Adjacency, positions: seq<Pos>, ws: Workspace, start: int,
                                 closed: set<int>, open: seq<Entry>, target: Pos, node: int, v: int)
    requires SearchState(graph, positions, ws, start, closed, open, target)
    requires node in closed && IsNode(graph, v) && v !in closed && v in graph[node]
    ensures var ws2 := Discover(ws, v, node, WEIGHT * Heuristic(positions[v], target) as real);
      SearchState(graph, positions, ws2, start, closed + {v}, open + [Entry(ws2.time[v] as real + ws2.h[v], v)], target)
  {
  }

  /** Every closed node is still queued or has been expanded: it is not a
      goal and all its neighbours are closed. */
  ghost predicate Settled(graph: Adjacency, closed: set<int>, open: seq<Entry>, end: set<int>)
  {
    forall u :: u in closed && IsNode(graph, u) ==>
      u in Nodes(open) || (u !in end && forall w :: w in graph[u] ==> w in closed)
  }

  /** One iteration of FindPath's loop keeps every closed node settled. */
  lemma SettledStep(graph: Adjacency, closed0: set<int>, open0: seq<Entry>, rest: seq<Entry>, node: int,
                    closed: set<int>, open: seq<Entry>, end: set<int>)
    requires Settled(graph, closed0, open0, end) && IsNode(graph, node)
    requires Nodes(open0) == Nodes(rest) + {node} && node !in end
    requires closed0 <= closed && Nodes(rest) <= Nodes(open) && closed - closed0 <= Nodes(open)
    requires forall w :: w in graph[node] ==> w in closed
    ensures Settled(graph, closed, open, end)
  {
  }

  /** When the queue runs dry every closed node has been expanded, so the
      closed set is closed under neighbours and holds no goal: no goal is
      reachable. */
  lemma ExhaustedSearch(graph: Adjacency, start: int, closed: set<int>, open: seq<Entry>, end: set<int>)
    requires Settled(graph, closed, open, end) && open == []
    requires start in closed && forall u :: u in closed ==> IsNode(graph, u)
    ensures !ReachesSet(graph, start, end)
  {
    assert Nodes(open) == {};
    assert ClosedFrom(graph, start, closed);
    forall t | t in end && Reachable(graph, start, t) ensures false {
      ReachableInClosed(graph, start, closed, t);
    }
  }

  /** Times 0, 1, 2, ... along a path mean no node occurs twice on it. */
  lemma TimesDistinct(ws: Workspace, path: seq<int>)
    requires forall i :: 0 <= i < |path| ==> 0 <= path[i] < |ws.time| && ws.time[path[i]] == i
    ensures forall i, j :: 0 <= i < j < |path| ==> path[i] != path[j]
  {
  }

  class ConstrainedAStar {
    const graph: Adjacency
    const positions: seq<Pos>
    const time: array<int>
    const h: array<real>
    const parent: array<int>

    ghost predicate Valid()
    {
      && ValidGraph(graph)
      && |positions| == |graph|
      && time.Length == |graph| && h.Length == |graph| && parent.Length == |graph|
      && time != parent
    }

    ghost function Snapshot(): (ws: Workspace)
      reads time, h, parent
      requires Valid()
      ensures Fits(graph, ws)
    {
      Workspace(time[..], h[..], parent[..])
    }

    /** `new ConstrainedAStar(graph, nodes)` with nodes freshly created by
        CreateNodes: node i at positions[i], every node in its reset state. */
    constructor (graph: Adjacency, positions: seq<Pos>)
      requires ValidGraph(graph) && |positions| == |graph|
      ensures Valid() && this.graph == graph && this.positions == positions
      ensures IsReset(graph, Snapshot(), {})
      ensures fresh(time) && fresh(h) && fresh(parent)
    {
      this.graph := graph;
      this.positions := positions;
      time := new int[|graph|](_ => 0);
      h := new real[|graph|](_ => 0.0);
      parent := new int[|graph|](_ => -1);
    }

    /** ResetNodes */
    method ResetNodes()
      requires Valid()
      modifies time, h, parent
      ensures IsReset(graph, Snapshot(), {})
    {
      for i := 0 to |graph|
        invariant forall v :: 0 <= v < i ==> time[v] == 0 && h[v] == 0.0 && parent[v] == -1
      {
        time[i] := 0;
        h[i] := 0.0;
        parent[i] := -1;
      }
    }

    /** RetracePath: the nodes from the root of the search tree to `current`,
        following Parent links back and then reversing (here: prepending). */
    method RetracePath(current: int, ghost start: int, ghost closed: set<int>) returns (path: seq<int>)
      requires Valid() && IsSearchTree(graph, Snapshot(), start, closed) && current in closed
      ensures IsWalkBetween(graph, path, start, current)
      ensures parent[path[0]] == -1
      ensures forall i :: 0 <= i < |path| ==> time[path[i]] == i
      ensures forall i :: 0 < i < |path| ==> parent[path[i]] == path[i - 1]
    {
      ghost var ws := Snapshot();
      var node := current;
      path := [];
      while node != -1
        invariant node == -1 || node in closed
        invariant path == [] ==> node == current
        invariant path != [] ==> path[|path| - 1] == current && IsWalk(graph, path)
        invariant forall i :: 0 <= i < |path| ==> path[i] in closed
        invariant forall i :: 0 < i < |path| ==> ws.parent[path[i]] == path[i - 1]
        invariant node != -1 && path != [] ==> ws.parent[path[0]] == node && path[0] in graph[node]
        invariant node != -1 ==> forall i :: 0 <= i < |path| ==> ws.time[path[i]] == ws.time[node] + 1 + i
        invariant node == -1 ==>
          path != [] && path[0] == start && forall i :: 0 <= i < |path| ==> ws.time[path[i]] == i
        decreases if node == -1 then 0 else ws.time[node] + 1
      {
        path := [node] + path;
        node := parent[node];
      }
    }

    /** FindPath(start, end, target). The search state of every node is reset
        first, so the result depends only on the arguments. */
    method FindPath(start: int, end: set<int>, target: Pos) returns (path: seq<int>, ghost reached: set<int>)
      requires Valid() && IsNode(graph, start)
      modifies time, h, parent
      ensures path != [] ==> IsWalkBetween(graph, path, start, path[|path| - 1]) && path[|path| - 1] in end
      ensures path == [] <==> !ReachesSet(graph, start, end)
      ensures start in end ==> path == [start]
      ensures forall i :: 0 <= i < |path| ==> time[path[i]] == i
      ensures forall i, j :: 0 <= i < j < |path| ==> path[i] != path[j]
      ensures |path| <= |graph|
      ensures path != [] ==> parent[path[0]] == -1
      ensures forall i :: 0 < i < |path| ==> parent[path[i]] == path[i - 1]
      ensures SearchState(graph, positions, Snapshot(), start, reached, [], target)
    {
      ResetNodes();
      SeedStart(start, target);
      var found;
      found, reached := Search(start, end, target);
      if found.Some? {
        path := RetracePath(found.value, start, reached);
        TimesDistinct(Snapshot(), path);
        DistinctNodesBound(graph, path);
        assert IsWalkBetween(graph, path, start, found.value);
      } else {
        path := [];
      }
    }

    /** The start node's Time and H, set before the loop. */
    method SeedStart(start: int, target: Pos)
      requires Valid() && IsNode(graph, start) && IsReset(graph, Snapshot(), {})
      modifies time, h
      ensures SearchState(graph, positions, Snapshot(), start, {start}, [Entry(0.0, start)], target)
    {
      time[start] := 0;
      h[start] := Heuristic(positions[start], target) as real;
    }

    /** The `while (openList.Count > 0)` loop of FindPath, from the open list
        [(0, start)] and the closed set {start}: the goal node it dequeues
        first, if any, and the closed set at that moment. */
    method Search(start: int, end: set<int>, target: Pos) returns (found: Option<int>, closed: set<int>)
      requires Valid() && SearchState(graph, positions, Snapshot(), start, {start}, [Entry(0.0, start)], target)
      modifies time, h, parent
      ensures SearchState(graph, positions, Snapshot(), start, closed, [], target)
      ensures found.Some? ==> found.value in closed && found.value in end
      ensures found.None? ==> !ReachesSet(graph, start, end)
      ensures start in end ==> found == Some(start)
    {
      var open: seq<Entry> := [Entry(0.0, start)];
      closed := {start};
      while |open| > 0
        invariant SearchState(graph, positions, Snapshot(), start, closed, open, target) && |closed| <= |graph|
        invariant Settled(graph, closed, open, end)
        invariant start in end ==> open == [Entry(0.0, start)]
        decreases |graph| - |closed|, |open|
      {
        ghost var closed0, open0 := closed, open;
        var e, rest := Dequeue(open);
        ghost var i :| 0 <= i < |open| && e == open[i] && rest == open[..i] + open[i + 1..];
        DequeueNodes(open, e, rest, i);
        open := rest;
        var node := e.node;

        if node in end {
          assert IsQueue(graph, Snapshot(), [], start, closed);
          return Some(node), closed;
        }

        closed, open := ExpandNeighbours(node, start, target, closed, open);
        SettledStep(graph, closed0, open0, rest, node, closed, open, end);
        NodeSetBound(graph, closed);
        SubsetSize(closed0, closed);
      }
      found := None;
      ExhaustedSearch(graph, start, closed, open, end);
    }

    /** The `foreach (int neighbourIndex in nextNodes)` loop of FindPath: every
        neighbour of node not yet closed is closed, given its H, Time and
        Parent, and enqueued under its F. */
    method ExpandNeighbours(node: int, ghost start: int, target: Pos, closed0: set<int>, open0: seq<Entry>)
      returns (closed: set<int>, open: seq<Entry>)
      requires Valid() && node in closed0 && SearchState(graph, positions, Snapshot(), start, closed0, open0, target)
      modifies time, h, parent
      ensures SearchState(graph, positions, Snapshot(), start, closed, open, target)
      ensures closed0 <= closed && Nodes(open0) <= Nodes(open) && closed - closed0 <= Nodes(open)
      ensures |open| - |open0| == |closed| - |closed0|
      ensures forall w :: w in graph[node] ==> w in closed
    {
      closed, open := closed0, open0;
      var nextNodes := graph[node];
      for k := 0 to |nextNodes|
        invariant SearchState(graph, positions, Snapshot(), start, closed, open, target)
        invariant closed0 <= closed && Nodes(open0) <= Nodes(open) && closed - closed0 <= Nodes(open)
        invariant |open| - |open0| == |closed| - |closed0|
        invariant forall j :: 0 <= j < k ==> nextNodes[j] in closed
      {
        closed, open := Visit(node, nextNodes[k], start, target, closed, open);
      }
    }

    /** One pass of that loop: `closedList.Add` fails for a node already
        closed, which is skipped; any other is discovered from node. */
    method Visit(node: int, neighbour: int, ghost start: int, target: Pos, closed0: set<int>, open0: seq<Entry>)
      returns (closed: set<int>, open: seq<Entry>)
      requires Valid() && IsNode(graph, node) && node in closed0 && neighbour in graph[node]
      requires SearchState(graph, positions, Snapshot(), start, closed0, open0, target)
      modifies time, h, parent
      ensures SearchState(graph, positions, Snapshot(), start, closed, open, target)
      ensures neighbour in closed0 ==> closed == closed0 && open == open0
      ensures neighbour !in closed0 ==>
        && closed == closed0 + {neighbour} && |closed| == |closed0| + 1
        && |open| == |open0| + 1 && Nodes(open) == Nodes(open0) + {neighbour}
    {
      if neighbour in closed0 {
        closed, open := closed0, open0;
      } else {
        closed, open := DiscoverNeighbour(node, neighbour, start, target, closed0, open0);
      }
    }

    /** The rest of that pass for a neighbour not yet closed: it is closed,
        given its H, Time and Parent, and enqueued under its F. */
    method DiscoverNeighbour(node: int, neighbour: int, ghost start: int, target: Pos, closed0: set<int>, open0: seq<Entry>)
      returns (closed: set<int>, open: seq<Entry>)
      requires Valid() && IsNode(graph, node) && node in closed0 && neighbour in graph[node] && neighbour !in closed0
      requires SearchState(graph, positions, Snapshot(), start, closed0, open0, target)
      modifies time, h, parent
      ensures SearchState(graph, positions, Snapshot(), start, closed, open, target)
      ensures closed == closed0 + {neighbour} && |closed| == |closed0| + 1
      ensures |open| == |open0| + 1 && Nodes(open) == Nodes(open0) + {neighbour}
    {
      DiscoverKeepsSearchState(graph, positions, Snapshot(), start, closed0, open0, target, node, neighbour);
      SetDiscovered(neighbour, node, WEIGHT * Heuristic(positions[neighbour], target) as real);
      var entry := Entry(time[neighbour] as real + h[neighbour], neighbour);
      NodesAppend(open0, entry);
      closed, open := closed0 + {neighbour}, open0 + [entry];
    }

    /** The three assignments FindPath makes to a discovered neighbour. */
    method SetDiscovered(v: int, node: int, hv: real)
      requires Valid() && IsNode(graph, v) && IsNode(graph, node)
      modifies time, h, parent
      ensures Snapshot() == Discover(old(Snapshot()), v, node, hv)
    {
      h[v] := hv;
      time[v] := time[node] + 1;
      parent[v] := node;
    }

    /** The two-argument FindPath(start, goal), which is not part of this
        model, taken to be the goal-set search on {goal} steered towards the
        goal's own position. */
    method FindPathTo(start: int, goal: int) returns (path: seq<int>)
      requires Valid() && IsNode(graph, start) && IsNode(graph, goal)
      modifies time, h, parent
      ensures path != [] ==> IsWalkBetween(graph, path, start, goal)
      ensures path == [] <==> !Reachable(graph, start, goal)
      ensures start == goal ==> path == [start]
      ensures |path| <= |graph| && forall i, j :: 0 <= i < j < |path| ==> path[i] != path[j]
    {
      ghost var closed;
      path, closed := FindPath(start, {goal}, positions[goal]);
    }
  }
}
