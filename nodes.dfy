/** CreateNodes, written out identically in RangeGoalAlgorithm, both
    SampleAlgorithm classes and NormalAStar: node i of the search is placed at
    the cell of dense node i. Node is not part of this model; a node list is
    represented by its positions, the index of a node being its place in the
    list. */
module NodeList {
  import opened Common
  import opened Mediator

  method CreateNodes(mediator: GridGraphMediator, nodeCount: int) returns (positions: seq<Pos>)
    requires mediator.Valid() && 0 <= nodeCount <= mediator.NodeCount()
    ensures |positions| == nodeCount
    ensures forall i :: 0 <= i < nodeCount ==> positions[i] == mediator.GetPos(i)
    ensures forall i :: 0 <= i < nodeCount ==> mediator.IsRoadCell(positions[i])
    ensures forall i, j :: 0 <= i < j < nodeCount ==> positions[i] != positions[j]
  {
    positions := [];
    for i := 0 to nodeCount
      invariant |positions| == i
      invariant forall k :: 0 <= k < i ==> positions[k] == mediator.GetPos(k)
      invariant forall k, l :: 0 <= k < l < i ==> positions[k] != positions[l]
    {
      var pos := mediator.GetPos(i);
      forall k | 0 <= k < i ensures positions[k] != pos {
        mediator.GetNodeOfGetPos(k);
        mediator.GetNodeOfGetPos(i);
      }
      positions := positions + [pos];
    }
  }
}
