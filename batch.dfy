/** The two batch drivers, NormalAStar and MainModule.SampleAlgorithm: one
    constrained search per agent context, the results in the order of the
    contexts. Both run the same `foreach` loop; it is written once here. */
module Batch {
  import opened Common
  import opened Graph
  import opened Mediator
  import opened AStar
  import NodeList

  /** An agent's dense start node and goal node, with the agent index the
      drivers read from it. */
  datatype AgentContext = AgentContext(agentIndex: int, position: int, goal: int)

  /** What NormalAStar.Solve(int, int) does. */
  datatype SolveError = NotImplemented

  /** Every context names two nodes of the graph. */
  ghost predicate ValidContexts(graph: Adjacency, contexts: seq<AgentContext>)
  {
    forall i :: 0 <= i < |contexts| ==> IsNode(graph, contexts[i].position) && IsNode(graph, contexts[i].goal)
  }

  /** What one search from start to goal promises about its node list. */
  ghost predicate IsPathTo(graph: Adjacency, start: int, goal: int, path: seq<int>)
  {
    && (path != [] ==> IsWalkBetween(graph, path, start, goal))
    && (path == [] <==> !Reachable(graph, start, goal))
    && (start == goal ==> path == [start])
    && |path| <= |graph|
    && Distinct(path)
  }

  /** One entry per context, in order: the context's agent index and a path
      from its position to its goal. */
  ghost predicate IsBatchResult(graph: Adjacency, contexts: seq<AgentContext>, result: seq<(int, seq<int>)>)
  {
    && |result| == |contexts|
    && forall i :: 0 <= i < |contexts| ==>
         result[i].0 == contexts[i].agentIndex && IsPathTo(graph, contexts[i].position, contexts[i].goal, result[i].1)
  }

  /** Entries do not depend on one another: a result for a batch is exactly a
      result for its first part followed by a result for the rest. */
  lemma BatchSplit(graph: Adjacency, c1: seq<AgentContext>, c2: seq<AgentContext>, result: seq<(int, seq<int>)>)
    ensures IsBatchResult(graph, c1 + c2, result) <==>
      |result| == |c1| + |c2| && IsBatchResult(graph, c1, result[..|c1|]) && IsBatchResult(graph, c2, result[|c1|..])
  {
    if |result| == |c1| + |c2| {
      var c := c1 + c2;
      assert forall i :: 0 <= i < |c1| ==> c[i] == c1[i] && result[..|c1|][i] == result[i];
      assert forall i :: 0 <= i < |c2| ==> c[|c1| + i] == c2[i] && result[|c1|..][i] == result[|c1| + i];
      if IsBatchResult(graph, c1, result[..|c1|]) && IsBatchResult(graph, c2, result[|c1|..]) {
        forall i | 0 <= i < |c|
          ensures result[i].0 == c[i].agentIndex && IsPathTo(graph, c[i].position, c[i].goal, result[i].1)
        {
          if i >= |c1| {
            assert c[i] == c2[i - |c1|] && result[i] == result[|c1|..][i - |c1|];
          }
        }
      }
    }
  }

  /** The `foreach (AgentContext context in contexts)` loop both drivers run
      on their one search object. */
  method SolveEach(pathFinder: ConstrainedAStar, contexts: seq<AgentContext>) returns (result: seq<(int, seq<int>)>)
    requires pathFinder.Valid() && ValidContexts(pathFinder.graph, contexts)
    modifies pathFinder.time, pathFinder.h, pathFinder.parent
    ensures IsBatchResult(pathFinder.graph, contexts, result)
  {
    result := [];
    for i := 0 to |contexts|
      invariant IsBatchResult(pathFinder.graph, contexts[..i], result)
    {
      var context := contexts[i];
      var path := pathFinder.FindPathTo(context.position, context.goal);
      assert Distinct(path);
      result := result + [(context.agentIndex, path)];
      assert contexts[..i + 1] == contexts[..i] + [context];
    }
    assert contexts[..|contexts|] == contexts;
  }

  /** PathFinding.Algorithm.NormalAStar. */
  class NormalAStar {
    const mediator: GridGraphMediator
    const pathFinder: ConstrainedAStar

    ghost predicate Valid()
      reads mediator
    {
      && mediator.Valid()
      && pathFinder.Valid()
      && |pathFinder.graph| == mediator.NodeCount()
      && (forall i :: 0 <= i < |pathFinder.positions| ==> pathFinder.positions[i] == mediator.GetPos(i))
    }

    constructor(graph: Adjacency, mediator: GridGraphMediator)
      requires mediator.Valid() && ValidGraph(graph) && |graph| == mediator.NodeCount()
      ensures Valid() && this.mediator == mediator && pathFinder.graph == graph
      ensures fresh(pathFinder.time) && fresh(pathFinder.h) && fresh(pathFinder.parent)
    {
      this.mediator := mediator;
      var nodes := NodeList.CreateNodes(mediator, |graph|);
      pathFinder := new ConstrainedAStar(graph, nodes);
    }

    method Solve(contexts: seq<AgentContext>) returns (result: seq<(int, seq<int>)>)
      requires Valid() && ValidContexts(pathFinder.graph, contexts)
      modifies pathFinder.time, pathFinder.h, pathFinder.parent
      ensures Valid() && IsBatchResult(pathFinder.graph, contexts, result)
    {
      result := SolveEach(pathFinder, contexts);
    }

    /** Solve(int start, int goal) throws NotImplementedException whatever
        its arguments. */
    method SolvePair(start: int, goal: int) returns (r: Result<seq<int>, SolveError>)
      ensures r.Err? && r.error == NotImplemented
    {
      r := Err(NotImplemented);
    }
  }

  /** MainModule.SampleAlgorithm: built from a graph and a ready node list,
      one search object serving every context. */
  class SampleAlgorithm {
    const pathFinder: ConstrainedAStar

    constructor(graph: Adjacency, nodes: seq<Pos>)
      requires ValidGraph(graph) && |nodes| == |graph|
      ensures pathFinder.Valid() && pathFinder.graph == graph && pathFinder.positions == nodes
      ensures fresh(pathFinder.time) && fresh(pathFinder.h) && fresh(pathFinder.parent)
    {
      pathFinder := new ConstrainedAStar(graph, nodes);
    }

    method Solve(contexts: seq<AgentContext>) returns (result: seq<(int, seq<int>)>)
      requires pathFinder.Valid() && ValidContexts(pathFinder.graph, contexts)
      modifies pathFinder.time, pathFinder.h, pathFinder.parent
      ensures pathFinder.Valid() && IsBatchResult(pathFinder.graph, contexts, result)
    {
      result := SolveEach(pathFinder, contexts);
    }
  }
}
