/** RangeGoalAlgorithm: the ring of half the start-goal distance around the
    goal is split into clusters; a cluster is correct when the search from the
    goal into it stays inside the ring's disc, and the agent then searches
    from its start into the union of the correct clusters. */
module RangeGoals {
  import opened Common
  import opened Graph
  import opened Mediator
  import opened AStar
  import opened Circle
  import opened RangeGoalFinding
  import opened Rounding
  import NodeList

  ghost function Pick(S: set<int>): int
    requires S != {}
  {
    HasMember(S);
    var n :| n in S; n
  }

  lemma HasMember(S: set<int>)
    requires S != {}
    ensures exists n :: n in S
  {
    if forall n :: n !in S {
      assert false;
    }
  }

  /** The sum of positions[n] over the nodes n of S, in no particular order. */
  ghost function PosSum(positions: seq<Pos>, S: set<int>): Pos
    requires forall n :: n in S ==> 0 <= n < |positions|
    decreases S
  {
    if S == {} then Pos(0, 0)
    else
      var n := Pick(S);
      positions[n].Plus(PosSum(positions, S - {n}))
  }

  /** Any member may be taken out of the sum first: the order in which a
      HashSet is enumerated does not change the target. */
  lemma {:induction false} PosSumRemove(positions: seq<Pos>, S: set<int>, n: int)
    requires forall m :: m in S ==> 0 <= m < |positions|
    requires n in S
    ensures PosSum(positions, S) == positions[n].Plus(PosSum(positions, S - {n}))
    decreases |S|
  {
    var m := Pick(S);
    if m != n {
      PosSumRemove(positions, S - {m}, n);
      PosSumRemove(positions, S - {n}, m);
      assert S - {m} - {n} == S - {n} - {m};
    }
  }

  /** Every node of the path lies within squared distance radius^2 of the goal. */
  ghost predicate WithinRadius(positions: seq<Pos>, path: seq<int>, goalPos: Pos, radius: int)
  {
    forall i :: 0 <= i < |path| ==>
      0 <= path[i] < |positions| && SqDist(positions[path[i]], goalPos) <= radius * radius
  }

  /** The `All` test of Solve on the squared distances of the path's nodes. */
  function IsCorrectPath(positions: seq<Pos>, path: seq<int>, goalPos: Pos, radius: int): (ok: bool)
    requires forall i :: 0 <= i < |path| ==> 0 <= path[i] < |positions|
    ensures ok <==> WithinRadius(positions, path, goalPos, radius)
    ensures path == [] ==> ok
  {
    path == [] ||
    (SqDist(positions[path[0]], goalPos) <= radius * radius && IsCorrectPath(positions, path[1..], goalPos, radius))
  }

  /** What FindPath(from, goals, _) promises about its result: a walk from
      `from` to a node of `goals` with no repeated node, empty exactly when no
      node of `goals` can be reached. */
  ghost predicate IsSearchResult(graph: Adjacency, from: int, goals: set<int>, path: seq<int>)
  {
    && (path != [] ==> IsWalkBetween(graph, path, from, path[|path| - 1]) && path[|path| - 1] in goals)
    && (path == [] <==> !ReachesSet(graph, from, goals))
    && (from in goals ==> path == [from])
    && |path| <= |graph|
    && (forall i, j :: 0 <= i < j < |path| ==> path[i] != path[j])
  }

  /** No node of the empty set can be reached. */
  lemma NoGoalsNoPath(graph: Adjacency, from: int, path: seq<int>)
    requires IsSearchResult(graph, from, {}, path)
    ensures path == []
  {
  }

  /** Each cluster has its search result from the goal and, for its verdict,
      whether that path stays within the radius. */
  ghost predicate IsJudged(graph: Adjacency, positions: seq<Pos>, goal: int, goalPos: Pos, radius: int,
                           clusters: seq<seq<int>>, paths: seq<seq<int>>, verdicts: seq<bool>)
  {
    && |paths| == |clusters| && |verdicts| == |clusters|
    && forall k :: 0 <= k < |clusters| ==>
      && IsSearchResult(graph, goal, Elems(clusters[k]), paths[k])
      && (verdicts[k] <==> WithinRadius(positions, paths[k], goalPos, radius))
  }

  /** A cluster the goal cannot reach has an empty path and is judged correct. */
  lemma {:induction false} UnreachableIsCorrect(graph: Adjacency, positions: seq<Pos>, goal: int, goalPos: Pos, radius: int,
                                               clusters: seq<seq<int>>, paths: seq<seq<int>>, verdicts: seq<bool>, k: int)
    requires IsJudged(graph, positions, goal, goalPos, radius, clusters, paths, verdicts)
    requires 0 <= k < |clusters| && !ReachesSet(graph, goal, Elems(clusters[k]))
    ensures paths[k] == [] && verdicts[k]
  {
    assert IsSearchResult(graph, goal, Elems(clusters[k]), paths[k]);
  }

  /** The union of the clusters whose verdict is true. */
  ghost function Chosen(clusters: seq<seq<int>>, verdicts: seq<bool>): set<int>
    requires |verdicts| == |clusters|
  {
    if clusters == [] then {}
    else
      Chosen(clusters[..|clusters| - 1], verdicts[..|verdicts| - 1])
      + (if verdicts[|verdicts| - 1] then Elems(clusters[|clusters| - 1]) else {})
  }

  lemma {:induction false} ChosenInUnion(clusters: seq<seq<int>>, verdicts: seq<bool>)
    requires |verdicts| == |clusters|
    ensures Chosen(clusters, verdicts) <= Union(clusters)
  {
    if clusters != [] {
      ChosenInUnion(clusters[..|clusters| - 1], verdicts[..|verdicts| - 1]);
    }
  }

  /** For pairwise disjoint clusters, a cluster is wholly inside the chosen
      union when its verdict is true and wholly outside it otherwise. */
  lemma {:induction false} ChosenExact(clusters: seq<seq<int>>, verdicts: seq<bool>, i: int)
    requires |verdicts| == |clusters| && 0 <= i < |clusters|
    requires forall a, b :: 0 <= a < b < |clusters| ==> Elems(clusters[a]) !! Elems(clusters[b])
    ensures verdicts[i] ==> Elems(clusters[i]) <= Chosen(clusters, verdicts)
    ensures !verdicts[i] ==> Elems(clusters[i]) !! Chosen(clusters, verdicts)
  {
    var last := |clusters| - 1;
    var cs, vs := clusters[..last], verdicts[..last];
    if i == last {
      if !verdicts[i] {
        ChosenInUnion(cs, vs);
        forall n | n in Elems(clusters[i]) ensures n !in Union(cs) {
          if n in Union(cs) {
            var a := UnionWitness(cs, n);
            assert false;
          }
        }
      }
    } else {
      ChosenExact(cs, vs, i);
    }
  }

  /** Sets `Solve` assigns to CorrectGoals and IncorrectGoals split the ring,
      and each cluster falls wholly on the side its verdict names. */
  lemma Classification(graph: Adjacency, ring: set<int>, clusters: seq<seq<int>>, verdicts: seq<bool>, i: int)
    requires IsClustering(graph, ring, clusters) && |verdicts| == |clusters| && 0 <= i < |clusters|
    ensures verdicts[i] <==> Elems(clusters[i]) <= Chosen(clusters, verdicts)
    ensures !verdicts[i] <==> Elems(clusters[i]) <= ring - Chosen(clusters, verdicts)
  {
    ChosenExact(clusters, verdicts, i);
    forall n | n in Elems(clusters[i]) ensures n in ring {
      UnionMember(clusters, i, n);
    }
    assert clusters[i][0] in Elems(clusters[i]);
  }

  class RangeGoalAlgorithm {
    const mediator: GridGraphMediator
    const pathFinder: ConstrainedAStar
    const rangeGoalFinder: RangeGoalFinder
    var CorrectGoals: set<int>
    var IncorrectGoals: set<int>

    /** The search and the finder share the mediator's graph, and node i of
        the search sits at the cell of dense node i. */
    ghost predicate Valid()
      reads mediator
    {
      && mediator.Valid()
      && pathFinder.Valid()
      && rangeGoalFinder.mediator == mediator
      && rangeGoalFinder.graph == pathFinder.graph
      && |pathFinder.graph| == mediator.NodeCount()
      && (forall i :: 0 <= i < |pathFinder.positions| ==> pathFinder.positions[i] == mediator.GetPos(i))
    }

    constructor(graph: Adjacency, mediator: GridGraphMediator)
      requires mediator.Valid() && ValidGraph(graph) && |graph| == mediator.NodeCount()
      ensures Valid() && this.mediator == mediator && pathFinder.graph == graph
      ensures fresh(pathFinder.time) && fresh(pathFinder.h) && fresh(pathFinder.parent)
    {
      this.mediator := mediator;
      var nodes := NodeList.CreateNodes(mediator, |graph|);
      pathFinder := new ConstrainedAStar(graph, nodes);
      rangeGoalFinder := new RangeGoalFinder(graph, mediator);
      CorrectGoals := {};
      IncorrectGoals := {};
    }

    /** The `foreach (int index in rangeGoal)` loop: the steering target is
        the plain sum of the cluster's cell positions. */
    method ClusterTarget(rangeGoal: set<int>) returns (target: Pos)
      requires Valid() && forall n :: n in rangeGoal ==> 0 <= n < |pathFinder.positions|
      ensures target == PosSum(pathFinder.positions, rangeGoal)
    {
      ghost var positions := pathFinder.positions;
      target := Pos(0, 0);
      var rest := rangeGoal;
      while rest != {}
        invariant rest <= rangeGoal
        invariant PosSum(positions, rangeGoal) == target.Plus(PosSum(positions, rest))
        decreases |rest|
      {
        var index :| index in rest;
        PosSumRemove(positions, rest, index);
        target := target.Plus(mediator.GetPos(index));
        rest := rest - {index};
      }
    }

    /** One pass of the loop over the clusters: the search from the goal into
        the cluster, and whether it stays within the radius. */
    method ClassifyCluster(goal: int, rangeGoal: set<int>, goalPos: Pos, radius: int)
      returns (isCorrectPath: bool, path: seq<int>)
      requires Valid() && IsNode(pathFinder.graph, goal)
      requires forall n :: n in rangeGoal ==> IsNode(pathFinder.graph, n)
      modifies pathFinder.time, pathFinder.h, pathFinder.parent
      ensures IsSearchResult(pathFinder.graph, goal, rangeGoal, path)
      ensures isCorrectPath <==> WithinRadius(pathFinder.positions, path, goalPos, radius)
    {
      var target := ClusterTarget(rangeGoal);
      path := SearchInto(goal, rangeGoal, target);
      isCorrectPath := IsCorrectPath(pathFinder.positions, path, goalPos, radius);
    }

    /** The `foreach (HashSet<int> rangeGoal in rangeGoals)` loop: the union
        of the clusters judged correct, with each cluster's path and verdict. */
    method ClassifyAll(goal: int, goalPos: Pos, radius: int, clusters: seq<seq<int>>)
      returns (correctRangeGoal: set<int>, ghost paths: seq<seq<int>>, ghost verdicts: seq<bool>)
      requires Valid() && IsNode(pathFinder.graph, goal)
      requires forall i :: 0 <= i < |clusters| ==> GrownFrom(pathFinder.graph, clusters[i])
      modifies pathFinder.time, pathFinder.h, pathFinder.parent
      ensures IsJudged(pathFinder.graph, pathFinder.positions, goal, goalPos, radius, clusters, paths, verdicts)
      ensures correctRangeGoal == Chosen(clusters, verdicts)
    {
      correctRangeGoal := {};
      verdicts, paths := [], [];
      for i := 0 to |clusters|
        invariant |verdicts| == i && |paths| == i
        invariant correctRangeGoal == Chosen(clusters[..i], verdicts)
        invariant forall k :: 0 <= k < i ==>
          && IsSearchResult(pathFinder.graph, goal, Elems(clusters[k]), paths[k])
          && (verdicts[k] <==> WithinRadius(pathFinder.positions, paths[k], goalPos, radius))
      {
        var rangeGoal := set n | n in clusters[i];
        assert forall n :: n in rangeGoal ==> IsNode(pathFinder.graph, n);
        var isCorrectPath, path := ClassifyCluster(goal, rangeGoal, goalPos, radius);
        if isCorrectPath {
          correctRangeGoal := correctRangeGoal + rangeGoal;
        }
        assert clusters[..i + 1][..i] == clusters[..i];
        assert (verdicts + [isCorrectPath])[..i] == verdicts;
        verdicts, paths := verdicts + [isCorrectPath], paths + [path];
      }
      assert clusters[..|clusters|] == clusters;
    }

    /** Solve(start, goal). The ghost results name what the source computes
        along the way: the radius, the clusters of the ring, the goal's path
        into each cluster and each cluster's verdict. */
    method Solve(start: int, goal: int)
      returns (result: seq<int>, ghost radius: int, ghost rangeGoals: seq<seq<int>>,
               ghost paths: seq<seq<int>>, ghost verdicts: seq<bool>)
      requires Valid() && 0 <= start < mediator.NodeCount() && 0 <= goal < mediator.NodeCount()
      modifies this, pathFinder.time, pathFinder.h, pathFinder.parent
      ensures Valid()
      ensures radius >= 0 && IsHalfRootRounded(SqDist(mediator.GetPos(start), mediator.GetPos(goal)), radius)
      ensures IsClustering(pathFinder.graph, rangeGoalFinder.Clip(RawCircle(mediator.GetPos(goal), radius)), rangeGoals)
      ensures IsJudged(pathFinder.graph, pathFinder.positions, goal, mediator.GetPos(goal), radius, rangeGoals, paths, verdicts)
      ensures CorrectGoals == Chosen(rangeGoals, verdicts)
      ensures IncorrectGoals == Union(rangeGoals) - CorrectGoals
      ensures CorrectGoals <= Union(rangeGoals)
      ensures IsSearchResult(pathFinder.graph, start, CorrectGoals, result)
    {
      var correctRangeGoal, rangeGoalSet;
      correctRangeGoal, rangeGoalSet, radius, rangeGoals, paths, verdicts := RankClusters(start, goal);
      CorrectGoals := correctRangeGoal;
      IncorrectGoals := rangeGoalSet - correctRangeGoal;
      result := SearchInto(start, correctRangeGoal, mediator.GetPos(goal));
    }

    /** Solve up to the assignment of CorrectGoals: the radius, the clusters
        of the ring, and the union of the correct ones and of all of them. */
    method RankClusters(start: int, goal: int)
      returns (correctRangeGoal: set<int>, rangeGoalSet: set<int>, ghost radius: int, ghost rangeGoals: seq<seq<int>>,
               ghost paths: seq<seq<int>>, ghost verdicts: seq<bool>)
      requires Valid() && 0 <= start < mediator.NodeCount() && 0 <= goal < mediator.NodeCount()
      modifies pathFinder.time, pathFinder.h, pathFinder.parent
      ensures radius >= 0 && IsHalfRootRounded(SqDist(mediator.GetPos(start), mediator.GetPos(goal)), radius)
      ensures IsClustering(pathFinder.graph, rangeGoalFinder.Clip(RawCircle(mediator.GetPos(goal), radius)), rangeGoals)
      ensures IsJudged(pathFinder.graph, pathFinder.positions, goal, mediator.GetPos(goal), radius, rangeGoals, paths, verdicts)
      ensures correctRangeGoal == Chosen(rangeGoals, verdicts)
      ensures rangeGoalSet == Union(rangeGoals) && correctRangeGoal <= rangeGoalSet
    {
      var startPos := mediator.GetPos(start);
      var goalPos := mediator.GetPos(goal);
      var r := HalfRootRounded(SqDist(startPos, goalPos));
      HalfRootRoundedCorrect(SqDist(startPos, goalPos));
      radius := r;

      var clusters := rangeGoalFinder.GetRangeGoals(goalPos, r);
      rangeGoals := clusters;
      correctRangeGoal, paths, verdicts := ClassifyAll(goal, goalPos, r, clusters);
      rangeGoalSet := RangeGoalSet(clusters);
      ChosenInUnion(clusters, verdicts);
    }

    /** pathFinder.FindPath(from, goals, target), with what it promises about
        its result. */
    method SearchInto(from: int, goals: set<int>, target: Pos) returns (path: seq<int>)
      requires Valid() && IsNode(pathFinder.graph, from)
      modifies pathFinder.time, pathFinder.h, pathFinder.parent
      ensures IsSearchResult(pathFinder.graph, from, goals, path)
    {
      ghost var reached;
      path, reached := pathFinder.FindPath(from, goals, target);
    }
  }

  /** `rangeGoals.SelectMany(item => item).ToHashSet()`: every node listed
      in some cluster. */
  function RangeGoalSet(clusters: seq<seq<int>>): (rangeGoalSet: set<int>)
    ensures rangeGoalSet == Union(clusters)
  {
    var flat := set i, n | 0 <= i < |clusters| && n in clusters[i] :: n;
    UnionIsFlattening(clusters, flat);
    flat
  }

  lemma UnionIsFlattening(clusters: seq<seq<int>>, flat: set<int>)
    requires flat == set i, n | 0 <= i < |clusters| && n in clusters[i] :: n
    ensures flat == Union(clusters)
  {
    forall n | n in flat ensures n in Union(clusters) {
      var i :| 0 <= i < |clusters| && n in clusters[i];
      UnionMember(clusters, i, n);
    }
    forall n | n in Union(clusters) ensures n in flat {
      var i := UnionWitness(clusters, n);
    }
  }
}
