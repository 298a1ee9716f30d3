/** PathFinding.Algorithm.SampleAlgorithm: the agent heads for the midpoint
    of its start and its goal, or, when that cell is blocked, for the nearest
    free cell around it, and the constrained search finds the path there. */
module HalfGoal {
  import opened Common
  import opened Graph
  import opened Mediator
  import opened AStar
  import opened Rounding
  import opened NearestGoal
  import NodeList

  /** The rounded midpoint `agent + (goal - agent) * 0.5`, each coordinate
      rounded by Math.Round. It lies in the bounding box of the two cells,
      and it is the agent's own cell when the goal is. */
  function Midpoint(agent: Pos, goal: Pos): (m: Pos)
    ensures agent.x <= goal.x ==> agent.x <= m.x <= goal.x
    ensures goal.x <= agent.x ==> goal.x <= m.x <= agent.x
    ensures agent.y <= goal.y ==> agent.y <= m.y <= goal.y
    ensures goal.y <= agent.y ==> goal.y <= m.y <= agent.y
    ensures agent == goal ==> m == agent
  {
    RoundHalfBetween(agent.x, goal.x);
    RoundHalfBetween(agent.y, goal.y);
    Pos(RoundHalf(agent.x + goal.x), RoundHalf(agent.y + goal.y))
  }

  /** SampleAlgorithm(graph, grids, mediator). */
  class SampleAlgorithm {
    const grids: array2<Cell>
    const mediator: GridGraphMediator
    const pathFinder: ConstrainedAStar

    /** The array holds the mediator's map, every cell exactly Road or
        exactly Obstacle, and node i of the search sits at the cell of dense
        node i. */
    ghost predicate Valid()
      reads mediator, grids
    {
      && mediator.Valid()
      && pathFinder.Valid()
      && |pathFinder.graph| == mediator.NodeCount()
      && (forall i :: 0 <= i < |pathFinder.positions| ==> pathFinder.positions[i] == mediator.GetPos(i))
      && HoldsMap(grids, mediator)
    }

    constructor(graph: Adjacency, grids: array2<Cell>, mediator: GridGraphMediator)
      requires mediator.Valid() && ValidGraph(graph) && |graph| == mediator.NodeCount()
      requires HoldsMap(grids, mediator)
      ensures Valid() && this.grids == grids && this.mediator == mediator && pathFinder.graph == graph
      ensures fresh(pathFinder.time) && fresh(pathFinder.h) && fresh(pathFinder.parent)
    {
      this.grids := grids;
      this.mediator := mediator;
      var nodes := NodeList.CreateNodes(mediator, |graph|);
      pathFinder := new ConstrainedAStar(graph, nodes);
    }

    /** What CalculateHalfGoal(startPos, goalPos) returns, with `nearest`
        the answer of the nearest-cell search when it runs: the midpoint when
        it is free; otherwise the nearest free cell, replaced by the goal when
        it is the agent's own cell or when there is none. */
    ghost predicate IsHalfGoal(startPos: int, goalPos: int, halfGoal: int, nearest: Option<Pos>)
      reads this, mediator, grids
      requires Valid() && 0 <= startPos < mediator.NodeCount() && 0 <= goalPos < mediator.NodeCount()
    {
      var agent, goal := mediator.GetPos(startPos), mediator.GetPos(goalPos);
      var point := Midpoint(agent, goal);
      && 0 <= halfGoal < mediator.NodeCount()
      && (Free(grids, point) ==> mediator.GetPos(halfGoal) == point)
      && (Blocked(grids, point) && nearest.None? ==>
            mediator.GetPos(halfGoal) == goal && forall c :: InArray(grids, c) ==> Blocked(grids, c))
      && (Blocked(grids, point) && nearest.Some? ==>
            && IsNearestFree(grids, point, grids.Length1, grids.Length0, nearest.value)
            && mediator.GetPos(halfGoal) == if nearest.value == agent then goal else nearest.value)
    }

    method CalculateHalfGoal(startPos: int, goalPos: int) returns (halfGoal: int, ghost nearest: Option<Pos>)
      requires Valid() && 0 <= startPos < mediator.NodeCount() && 0 <= goalPos < mediator.NodeCount()
      ensures IsHalfGoal(startPos, goalPos, halfGoal, nearest)
      ensures 0 <= halfGoal < mediator.NodeCount()
      ensures var point := Midpoint(mediator.GetPos(startPos), mediator.GetPos(goalPos));
        Free(grids, point) ==> mediator.GetPos(halfGoal) == point
    {
      var goal := mediator.GetPos(goalPos);
      var agentPosition := mediator.GetPos(startPos);
      var point := Midpoint(agentPosition, goal);
      var result := goal;
      nearest := None;
      if grids[point.y, point.x] & OBSTACLE == 0 {
        result := point;
      } else {
        ghost var steps;
        var nearestGoal;
        nearestGoal, steps := FindNearestGoalFixed(grids, point);
        nearest := nearestGoal;
        if nearestGoal.Some? {
          if nearestGoal.value == agentPosition {
            nearestGoal := Some(goal);
          }
          result := nearestGoal.value;
        }
      }
      RoadOfFree(result);
      mediator.GetPosOfGetNode(result);
      halfGoal := mediator.GetNode(result);
    }

    /** A free cell of the array is a Road cell of the mediator's map. */
    lemma RoadOfFree(p: Pos)
      requires Valid() && (Free(grids, p) || mediator.IsRoadCell(p))
      ensures mediator.IsRoadCell(p)
    {
      if Free(grids, p) {
        assert grids[p.y, p.x] == mediator.mapData.grids[p.y][p.x];
      }
    }

    /** Solve(start, goal): the constrained search from start to the half
        goal. */
    method Solve(start: int, goal: int) returns (path: seq<int>, ghost halfGoal: int, ghost nearest: Option<Pos>)
      requires Valid() && 0 <= start < mediator.NodeCount() && 0 <= goal < mediator.NodeCount()
      modifies pathFinder.time, pathFinder.h, pathFinder.parent
      ensures Valid() && IsHalfGoal(start, goal, halfGoal, nearest)
      ensures path != [] ==> IsWalkBetween(pathFinder.graph, path, start, halfGoal)
      ensures path == [] <==> !Reachable(pathFinder.graph, start, halfGoal)
      ensures |path| <= |pathFinder.graph| && forall i, j :: 0 <= i < j < |path| ==> path[i] != path[j]
    {
      var h;
      h, nearest := CalculateHalfGoal(start, goal);
      halfGoal := h;
      path := pathFinder.FindPathTo(start, h);
    }
  }

  /** The array has the dimensions and the cells of the mediator's map, and
      each cell is exactly Road or exactly Obstacle. */
  ghost predicate HoldsMap(grids: array2<Cell>, mediator: GridGraphMediator)
    reads mediator, grids
    requires mediator.Valid()
  {
    var m := mediator.mapData;
    && grids.Length0 == m.height && grids.Length1 == m.width
    && IsPure(m.grids)
    && forall y, x :: 0 <= y < m.height && 0 <= x < m.width ==> grids[y, x] == m.grids[y][x]
  }
}
