/** Graph is not part of this model; its use is. It is taken to be an
    adjacency list over dense node indices: `new Graph(n)` is n empty lists,
    `AddEdge(u, v)` appends v to u's list (one direction only),
    `GetNextNodes(u)` is u's list and `NodeCount` is the number of lists.
    Walks and reachability over it are the vocabulary the searches are
    specified in. */
module Graph {

  type Adjacency = seq<seq<int>>

  function NewGraph(nodeCount: nat): (adj: Adjacency)
    ensures |adj| == nodeCount && forall u :: 0 <= u < nodeCount ==> adj[u] == []
  {
    seq(nodeCount, _ => [])
  }

  function AddEdge(adj: Adjacency, u: int, v: int): (r: Adjacency)
    requires 0 <= u < |adj|
    ensures |r| == |adj| && r[u] == adj[u] + [v]
    ensures forall w :: 0 <= w < |adj| && w != u ==> r[w] == adj[w]
  {
    adj[u := adj[u] + [v]]
  }

  /** Every listed neighbour is a node of the graph. */
  ghost predicate ValidGraph(adj: Adjacency)
  {
    forall u, i :: 0 <= u < |adj| && 0 <= i < |adj[u]| ==> 0 <= adj[u][i] < |adj|
  }

  ghost predicate IsNode(adj: Adjacency, u: int)
  {
    0 <= u < |adj|
  }

  ghost predicate Symmetric(adj: Adjacency)
  {
    forall u, v :: IsNode(adj, u) && IsNode(adj, v) && v in adj[u] ==> u in adj[v]
  }

  /** A sequence of nodes in which each is a listed neighbour of the one before. */
  ghost predicate IsWalk(adj: Adjacency, p: seq<int>)
  {
    && (forall i :: 0 <= i < |p| ==> IsNode(adj, p[i]))
    && (forall i :: 0 <= i < |p| - 1 ==> p[i + 1] in adj[p[i]])
  }

  ghost predicate IsWalkBetween(adj: Adjacency, p: seq<int>, s: int, t: int)
  {
    IsWalk(adj, p) && |p| > 0 && p[0] == s && p[|p| - 1] == t
  }

  ghost predicate Reachable(adj: Adjacency, s: int, t: int)
  {
    exists p :: IsWalkBetween(adj, p, s, t)
  }

  /** Some node of `targets` can be reached from s. */
  ghost predicate ReachesSet(adj: Adjacency, s: int, targets: set<int>)
  {
    exists t :: t in targets && Reachable(adj, s, t)
  }

  /** A set that holds s and, with every node, all of that node's neighbours. */
  ghost predicate ClosedFrom(adj: Adjacency, s: int, closed: set<int>)
  {
    && s in closed
    && (forall u :: u in closed ==> IsNode(adj, u))
    && (forall u, v :: u in closed && v in adj[u] ==> v in closed)
  }

  /** Such a set holds every node a walk from s reaches. */
  lemma {:induction false} WalkStaysInClosed(adj: Adjacency, s: int, closed: set<int>, p: seq<int>)
    requires ClosedFrom(adj, s, closed) && IsWalk(adj, p) && |p| > 0 && p[0] == s
    ensures forall i :: 0 <= i < |p| ==> p[i] in closed
  {
    if |p| > 1 {
      var q := p[..|p| - 1];
      assert IsWalk(adj, q);
      WalkStaysInClosed(adj, s, closed, q);
      assert p[|p| - 2] == q[|q| - 1];
    }
  }

  lemma ReachableInClosed(adj: Adjacency, s: int, closed: set<int>, t: int)
    requires ClosedFrom(adj, s, closed) && Reachable(adj, s, t)
    ensures t in closed
  {
    var p :| IsWalkBetween(adj, p, s, t);
    WalkStaysInClosed(adj, s, closed, p);
  }

  /** A walk within the graph that never revisits a node has at most as many
      entries as the graph has nodes. */
  lemma DistinctNodesBound(adj: Adjacency, p: seq<int>)
    requires (forall i :: 0 <= i < |p| ==> IsNode(adj, p[i]))
    requires forall i, j :: 0 <= i < j < |p| ==> p[i] != p[j]
    ensures |p| <= |adj|
  {
    var nodes := set i | 0 <= i < |p| :: p[i];
    var all := NodesBelow(|adj|);
    NodesBelowSpec(|adj|);
    assert nodes <= all;
    SeqSetSize(p);
    SubsetSize(nodes, all);
  }

  /** {0, ..., n - 1} */
  function NodesBelow(n: nat): set<int>
  {
    if n == 0 then {} else NodesBelow(n - 1) + {n - 1}
  }

  lemma {:induction false} NodesBelowSpec(n: nat)
    ensures |NodesBelow(n)| == n
    ensures forall u :: u in NodesBelow(n) <==> 0 <= u < n
  {
    if n > 0 {
      NodesBelowSpec(n - 1);
    }
  }

  /** A set of nodes has at most as many members as the graph has nodes. */
  lemma NodeSetBound(adj: Adjacency, s: set<int>)
    requires forall u :: u in s ==> IsNode(adj, u)
    ensures |s| <= |adj|
  {
    NodesBelowSpec(|adj|);
    forall u | u in s ensures u in NodesBelow(|adj|) { }
    SubsetSize(s, NodesBelow(|adj|));
  }

  lemma {:induction false} SeqSetSize(p: seq<int>)
    requires forall i, j :: 0 <= i < j < |p| ==> p[i] != p[j]
    ensures |set i | 0 <= i < |p| :: p[i]| == |p|
  {
    if |p| > 0 {
      var q := p[..|p| - 1];
      SeqSetSize(q);
      var sq := set i | 0 <= i < |q| :: q[i];
      var sp := set i | 0 <= i < |p| :: p[i];
      assert sp == sq + {p[|p| - 1]};
      assert p[|p| - 1] !in sq;
    }
  }

  lemma SubsetSize(a: set<int>, b: set<int>)
    requires a <= b
    ensures |a| <= |b|
  {
    assert b == a + (b - a);
  }
}
