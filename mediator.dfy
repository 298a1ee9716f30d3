/** GridGraphMediator: numbers the Road cells of the loaded map densely in
    row-major order, keeps the two lookup tables between dense nodes and
    flat cell indices, validates the start cells and builds the
    four-neighbour graph over the Road cells. */
module Mediator {
  import opened Common
  import opened RowMajor
  import opened PathMapData
  import opened Graph

  /** What the mediator needs of the loaded map: the cell array has the
      recorded dimensions and the recorded passable count is the number of
      cells that are exactly Road (the count Graph is sized with). */
  ghost predicate WellFormed(md: MapData)
  {
    && md.height >= 0 && md.width >= 0
    && IsRect(md.grids, md.height, md.width)
    && md.passableCount == |RoadCells(md.grids, md.width)|
  }

  /** m maps exactly the keys 0 .. |s| - 1, key n to s[n]. */
  ghost predicate IsDenseMap(m: map<int, int>, s: seq<int>)
  {
    && (forall n :: n in m <==> 0 <= n < |s|)
    && (forall n :: 0 <= n < |s| ==> m[n] == s[n])
  }

  /** inv maps exactly the entries of s, each to its position in s. */
  ghost predicate IsInverseMap(inv: map<int, int>, s: seq<int>)
  {
    && (forall f :: f in inv <==> f in s)
    && (forall n :: 0 <= n < |s| ==> inv[s[n]] == n)
  }

  /** CreateNodeIndexList: dense node n is the n-th Road cell of a row-major scan. */
  method CreateNodeIndexList(g: Grid, height: int, width: int) returns (list: map<int, int>)
    requires height >= 0 && width >= 0 && IsRect(g, height, width)
    ensures IsDenseMap(list, RoadCells(g, width))
  {
    list := map[];
    var nodeCount := 0;
    for y := 0 to height
      invariant IsDenseMap(list, RoadCellsUpTo(g, width, y, 0))
      invariant nodeCount == |RoadCellsUpTo(g, width, y, 0)|
    {
      for x := 0 to width
        invariant IsDenseMap(list, RoadCellsUpTo(g, width, y, x))
        invariant nodeCount == |RoadCellsUpTo(g, width, y, x)|
      {
        var gridType := g[y][x];
        if gridType == ROAD {
          list := list[nodeCount := y * width + x];
          nodeCount := nodeCount + 1;
        }
      }
    }
  }

  /** `nodeIndexList.ToDictionary(x => x.Value, x => x.Key)`, enumerating the
      keys in insertion order. The flat indices are distinct, so the duplicate
      key exception of ToDictionary cannot arise. */
  method InvertNodeIndexList(list: map<int, int>, ghost cells: seq<int>) returns (inv: map<int, int>)
    requires IsDenseMap(list, cells) && StrictlyIncreasing(cells)
    ensures IsInverseMap(inv, cells)
  {
    inv := map[];
    var node := 0;
    while node in list
      invariant 0 <= node <= |cells|
      invariant forall f :: f in inv <==> f in cells[..node]
      invariant forall n :: 0 <= n < node ==> inv[cells[n]] == n
      decreases |cells| - node
    {
      assert list[node] !in inv by {
        forall n | 0 <= n < node ensures cells[n] != cells[node] { }
      }
      inv := inv[list[node] := node];
      node := node + 1;
      assert cells[..node] == cells[..node - 1] + [cells[node - 1]];
    }
    assert cells[..node] == cells;
  }

  /** q is one of the first d moves of DIRECTIONS away from p. */
  ghost predicate MovesTo(p: Pos, q: Pos, d: int)
  {
    exists i :: 0 <= i < d && i < |DIRECTIONS| && q == p.Plus(DIRECTIONS[i])
  }

  lemma MovesToStep(p: Pos, q: Pos, d: int)
    requires 0 < d <= |DIRECTIONS|
    ensures MovesTo(p, q, d) <==> MovesTo(p, q, d - 1) || q == p.Plus(DIRECTIONS[d - 1])
  {
    if q == p.Plus(DIRECTIONS[d - 1]) {
      assert MovesTo(p, q, d);
    }
    if MovesTo(p, q, d) {
      var i :| 0 <= i < d && i < |DIRECTIONS| && q == p.Plus(DIRECTIONS[i]);
      if i < d - 1 {
        assert MovesTo(p, q, d - 1);
      }
    }
  }

  class GridGraphMediator {
    var mapData: MapData
    var nodeIndexList: map<int, int>
    var indexNodeList: map<int, int>

    /** The flat indices of the Road cells, in dense-node order. */
    ghost function Cells(): seq<int>
      reads this
      requires WellFormed(mapData)
    {
      RoadCells(mapData.grids, mapData.width)
    }

    /** nodeIndexList numbers the Road cells densely and indexNodeList is its
        inverse. */
    ghost predicate Valid()
      reads this
    {
      && WellFormed(mapData)
      && IsDenseMap(nodeIndexList, Cells())
      && IsInverseMap(indexNodeList, Cells())
    }

    /** Initialize, with the map that Load returns as its argument: builds
        both tables and reports whether the start cells are distinct. */
    method Initialize(md: MapData) returns (isUniqueStarts: bool)
      requires WellFormed(md)
      modifies this
      ensures Valid() && mapData == md
      ensures isUniqueStarts <==> Distinct(md.agents)
    {
      mapData := md;
      RoadCellsUpToSorted(md.grids, md.width, |md.grids|, 0);
      nodeIndexList := CreateNodeIndexList(md.grids, md.height, md.width);
      indexNodeList := InvertNodeIndexList(nodeIndexList, Cells());
      isUniqueStarts := ValidateEndPoints();
    }

    /** ValidateEndPoints: true exactly when no two agents start on the same cell. */
    function ValidateEndPoints(): (isUniqueStarts: bool)
      reads this
      ensures isUniqueStarts <==> Distinct(mapData.agents)
    {
      IsUniqueStarts(mapData.agents)
    }

    function NodeCount(): int
      reads this
    {
      mapData.passableCount
    }

    /** The cell is inside the map and exactly Road. */
    predicate IsRoadCell(p: Pos)
      reads this
    {
      && InGrid(mapData.height, mapData.width, p)
      && IsRect(mapData.grids, mapData.height, mapData.width)
      && mapData.grids[p.y][p.x] == ROAD
    }

    /** GetNode(Vector2Int): the dense node of a cell, defined exactly for the
        cells that are Road. */
    function GetNode(p: Pos): (node: int)
      reads this
      requires Valid() && Flat(mapData.width, p) in indexNodeList
      ensures 0 <= node < NodeCount()
      ensures nodeIndexList[node] == Flat(mapData.width, p)
    {
      indexNodeList[Flat(mapData.width, p)]
    }

    /** GetPos: the cell of a dense node, a Road cell of the map. */
    function GetPos(node: int): (p: Pos)
      reads this
      requires Valid() && 0 <= node < NodeCount()
      ensures IsRoadCell(p)
      ensures Flat(mapData.width, p) == nodeIndexList[node]
    {
      RoadCellsUpToAreRoads(mapData.grids, mapData.width, |mapData.grids|, 0);
      assert IsRoadFlat(mapData.grids, mapData.width, Cells()[node]);
      RoadFlatCell(mapData.grids, mapData.width, Cells()[node]);
      PosOfFlat(mapData.width, nodeIndexList[node])
    }

    /** A cell inside the map has a dense node exactly when it is Road. */
    lemma HasNodeIffRoad(p: Pos)
      requires Valid() && InGrid(mapData.height, mapData.width, p)
      ensures Flat(mapData.width, p) in indexNodeList <==> IsRoadCell(p)
    {
      var g, w := mapData.grids, mapData.width;
      var f := Flat(w, p);
      if IsRoadCell(p) {
        RoadCellsUpToComplete(g, w, |g|, 0, p.y, p.x);
      }
      if f in indexNodeList {
        RoadCellsUpToAreRoads(g, w, |g|, 0);
        var n :| 0 <= n < |Cells()| && Cells()[n] == f;
        assert IsRoadFlat(g, w, f);
        DivModOfFlat(p.y, p.x, w);
      }
    }

    /** GetPos undoes GetNode. */
    lemma GetPosOfGetNode(p: Pos)
      requires Valid() && IsRoadCell(p)
      ensures Flat(mapData.width, p) in indexNodeList
      ensures GetPos(GetNode(p)) == p
    {
      HasNodeIffRoad(p);
      FlatRoundTrip(mapData.width, p);
    }

    /** GetNode undoes GetPos. */
    lemma GetNodeOfGetPos(node: int)
      requires Valid() && 0 <= node < NodeCount()
      ensures Flat(mapData.width, GetPos(node)) in indexNodeList
      ensures GetNode(GetPos(node)) == node
    {
    }

    /** Dense numbering follows row-major order: a higher node has a higher
        flat index. */
    lemma NodeOrderIsScanOrder(n: int, m: int)
      requires Valid() && 0 <= n < m < NodeCount()
      ensures nodeIndexList[n] < nodeIndexList[m]
    {
      RoadCellsUpToSorted(mapData.grids, mapData.width, |mapData.grids|, 0);
    }

    /** `TryGetNode`, as RangeGoalFinder uses it: the node of a cell that is
        inside the map and Road, nothing otherwise. */
    function TryGetNode(p: Pos): (r: Option<int>)
      reads this
      requires Valid()
      ensures r.Some? <==> IsRoadCell(p)
      ensures r.Some? ==> 0 <= r.value < NodeCount() && GetPos(r.value) == p
    {
      if InGrid(mapData.height, mapData.width, p) && Flat(mapData.width, p) in indexNodeList then
        HasNodeIffRoad(p);
        GetPosOfGetNode(p);
        Some(GetNode(p))
      else
        if InGrid(mapData.height, mapData.width, p) then HasNodeIffRoad(p); None else None
    }

    /** The dense nodes of the Road cells next to node u, trying the first d
        directions of DIRECTIONS in order: the list ConstructGraph gives u. */
    ghost function RoadNeighbours(u: int, d: int): seq<int>
      reads this
      requires Valid() && 0 <= u < NodeCount() && 0 <= d <= |DIRECTIONS|
    {
      if d == 0 then []
      else
        var q := GetPos(u).Plus(DIRECTIONS[d - 1]);
        RoadNeighbours(u, d - 1) +
          if InGrid(mapData.height, mapData.width, q) && IsRoadCell(q) then
            HasNodeIffRoad(q);
            [GetNode(q)]
          else []
    }

    /** ConstructGraph for a map whose cells are all exactly Road or exactly
        Obstacle, as Load produces it: node u's list is its Road neighbours in
        direction order. */
    method ConstructGraph() returns (graph: Adjacency)
      requires Valid() && IsPure(mapData.grids)
      ensures |graph| == NodeCount()
      ensures forall u :: 0 <= u < |graph| ==> graph[u] == RoadNeighbours(u, 4)
    {
      var g, h, w := mapData.grids, mapData.height, mapData.width;
      graph := NewGraph(mapData.passableCount);
      for y := 0 to h
        invariant BuiltUpTo(graph, |RoadCellsUpTo(g, w, y, 0)|)
      {
        graph := ConnectRow(graph, y);
      }
    }

    /** One pass of ConstructGraph's `for x` loop: row y's Road cells get their
        lists. */
    method ConnectRow(graph0: Adjacency, y: int) returns (graph: Adjacency)
      requires Valid() && IsPure(mapData.grids) && 0 <= y < mapData.height
      requires BuiltUpTo(graph0, |RoadCellsUpTo(mapData.grids, mapData.width, y, 0)|)
      ensures BuiltUpTo(graph, |RoadCellsUpTo(mapData.grids, mapData.width, y + 1, 0)|)
    {
      var g, w := mapData.grids, mapData.width;
      graph := graph0;
      for x := 0 to w
        invariant BuiltUpTo(graph, |RoadCellsUpTo(g, w, y, x)|)
      {
        var from := g[y][x];
        assert RoadCellsUpTo(g, w, y, x + 1) ==
          RoadCellsUpTo(g, w, y, x) + if from == ROAD then [y * w + x] else [];
        if from == OBSTACLE {
          continue;
        }
        ghost var u := FromNode(y, x);
        ghost var before := graph;
        graph := ConnectNeighbours(graph, y, x, u);
        BuiltStep(before, graph, u);
      }
      assert RoadCellsUpTo(g, w, y + 1, 0) == RoadCellsUpTo(g, w, y, w);
    }

    /** The nodes below c have their full neighbour lists, the others none yet. */
    ghost predicate BuiltUpTo(graph: Adjacency, c: int)
      reads this
      requires Valid()
    {
      && |graph| == NodeCount()
      && forall u :: 0 <= u < |graph| ==> graph[u] == if u < c then RoadNeighbours(u, 4) else []
    }

    lemma BuiltStep(graph0: Adjacency, graph: Adjacency, c: int)
      requires Valid() && BuiltUpTo(graph0, c) && 0 <= c < NodeCount()
      requires |graph| == |graph0| && graph[c] == graph0[c] + RoadNeighbours(c, 4)
      requires forall v :: 0 <= v < |graph| && v != c ==> graph[v] == graph0[v]
      ensures BuiltUpTo(graph, c + 1)
    {
    }

    /** The `foreach (Vector2Int dir in direction)` loop of ConstructGraph
        for the Road cell (x, y), which is node u: appends u's Road
        neighbours to u's list. */
    method ConnectNeighbours(graph0: Adjacency, y: int, x: int, ghost u: int) returns (graph: Adjacency)
      requires Valid() && 0 <= y < mapData.height && 0 <= x < mapData.width
      requires |graph0| == NodeCount() && 0 <= u < NodeCount() && GetPos(u) == Pos(x, y)
      ensures |graph| == |graph0| && graph[u] == graph0[u] + RoadNeighbours(u, 4)
      ensures forall v :: 0 <= v < |graph| && v != u ==> graph[v] == graph0[v]
    {
      var g, h, w := mapData.grids, mapData.height, mapData.width;
      graph := graph0;
      for di := 0 to 4
        invariant |graph| == |graph0| && graph[u] == graph0[u] + RoadNeighbours(u, di)
        invariant forall v :: 0 <= v < |graph| && v != u ==> graph[v] == graph0[v]
      {
        var dir := DIRECTIONS[di];
        var pos := Pos(x, y).Plus(dir);
        var isConnectable := 0 <= pos.x && pos.x < w && 0 <= pos.y && pos.y < h;
        if !isConnectable {
          continue;
        }
        var to := g[pos.y][pos.x];
        if to == ROAD {
          var fromIndex := y * w + x;
          var toIndex := pos.y * w + pos.x;
          HasNodeIffRoad(pos);
          graph := AddEdge(graph, indexNodeList[fromIndex], indexNodeList[toIndex]);
        }
      }
    }

    /** The Road cell (x, y) is dense node |RoadCellsUpTo(y, x)|, the private
        GetNode(int) of its flat index. */
    lemma FromNode(y: int, x: int) returns (u: int)
      requires Valid() && 0 <= y < mapData.height && 0 <= x < mapData.width
      requires mapData.grids[y][x] == ROAD
      ensures u == |RoadCellsUpTo(mapData.grids, mapData.width, y, x)|
      ensures 0 <= u < NodeCount() && y * mapData.width + x in indexNodeList
      ensures indexNodeList[y * mapData.width + x] == u && GetPos(u) == Pos(x, y)
    {
      u := |RoadCellsUpTo(mapData.grids, mapData.width, y, x)|;
      RoadCellIndex(mapData.grids, mapData.width, y, x);
      FlatRoundTrip(mapData.width, Pos(x, y));
    }

    /** Membership in the first d entries of a neighbour list: a node whose
        cell is one of the first d moves away from u's cell. */
    lemma {:induction false} RoadNeighboursMembers(u: int, d: int, v: int)
      requires Valid() && 0 <= u < NodeCount() && 0 <= d <= |DIRECTIONS|
      ensures v in RoadNeighbours(u, d) <==> 0 <= v < NodeCount() && MovesTo(GetPos(u), GetPos(v), d)
    {
      if d > 0 {
        RoadNeighboursMembers(u, d - 1, v);
        RoadNeighboursStep(u, d, v);
        if 0 <= v < NodeCount() {
          MovesToStep(GetPos(u), GetPos(v), d);
        }
      }
    }

    /** The d-th direction adds the node of the cell one move away, if any. */
    lemma RoadNeighboursStep(u: int, d: int, v: int)
      requires Valid() && 0 <= u < NodeCount() && 0 < d <= |DIRECTIONS|
      ensures v in RoadNeighbours(u, d) <==>
        v in RoadNeighbours(u, d - 1) || (0 <= v < NodeCount() && GetPos(v) == GetPos(u).Plus(DIRECTIONS[d - 1]))
    {
      var q := GetPos(u).Plus(DIRECTIONS[d - 1]);
      if InGrid(mapData.height, mapData.width, q) && IsRoadCell(q) {
        GetPosOfGetNode(q);
        if 0 <= v < NodeCount() {
          GetNodeOfGetPos(v);
        }
        assert RoadNeighbours(u, d) == RoadNeighbours(u, d - 1) + [GetNode(q)];
      } else {
        assert RoadNeighbours(u, d) == RoadNeighbours(u, d - 1);
      }
    }

    /** ConstructGraph joins two nodes exactly when their cells are
        orthogonal neighbours; both are Road cells because they are nodes. */
    lemma EdgeIffAdjacent(u: int, v: int)
      requires Valid() && 0 <= u < NodeCount()
      ensures v in RoadNeighbours(u, 4) <==> 0 <= v < NodeCount() && Adjacent(GetPos(u), GetPos(v))
    {
      RoadNeighboursMembers(u, 4, v);
      if 0 <= v < NodeCount() {
        AdjacentIffMove(GetPos(u), GetPos(v));
      }
    }

    /** The constructed graph lists only nodes, never a diagonal or a cell
        two apart, and every edge has its reverse. */
    lemma ConstructedGraphIsSymmetric(graph: Adjacency)
      requires Valid() && |graph| == NodeCount()
      requires forall u :: 0 <= u < |graph| ==> graph[u] == RoadNeighbours(u, 4)
      ensures ValidGraph(graph) && Symmetric(graph)
      ensures forall u, v :: IsNode(graph, u) && v in graph[u] ==> Adjacent(GetPos(u), GetPos(v))
    {
      forall u, i | 0 <= u < |graph| && 0 <= i < |graph[u]|
        ensures 0 <= graph[u][i] < |graph|
      {
        EdgeIffAdjacent(u, graph[u][i]);
      }
      forall u, v | IsNode(graph, u) && v in graph[u]
        ensures Adjacent(GetPos(u), GetPos(v)) && u in graph[v]
      {
        EdgeIffAdjacent(u, v);
        EdgeIffAdjacent(v, u);
      }
    }
  }
}
