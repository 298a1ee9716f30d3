/** Agent's waypoint cursor: the list of grid cells it walks through and the
    index of the one it stands on. The transform, its float motion towards
    the current cell and the renderer colour are not part of this model. */
module Agents {
  import opened Common

  /** The advance step: the cursor moves on unless it is on the last
      waypoint. */
  function NextCount(moveCount: int, count: int): int
  {
    if moveCount + 1 >= count then moveCount else moveCount + 1
  }

  /** The cursor after n advance steps from moveCount. */
  function CountAfter(moveCount: int, count: int, n: nat): int
    decreases n
  {
    if n == 0 then moveCount else CountAfter(NextCount(moveCount, count), count, n - 1)
  }

  /** From waypoint k of count, n advance steps reach waypoint
      min(k + n, count - 1); from the first, waypoint min(n, count - 1). */
  lemma {:induction false} CountAfterFromStart(count: int, k: nat, n: nat)
    requires 0 <= k < count
    ensures CountAfter(k, count, n) == if k + n < count then k + n else count - 1
    decreases n
  {
    if n > 0 {
      CountAfterFromStart(count, NextCount(k, count), n - 1);
    }
  }

  class Agent {
    var index: int
    var gridPositions: seq<Pos>
    var moveCount: int

    /** `gridPositions[moveCount]` is defined. */
    ghost predicate Valid()
      reads this
    {
      0 <= moveCount < |gridPositions|
    }

    /** Position => gridPositions[moveCount] */
    function Position(): Pos
      reads this
      requires Valid()
    {
      gridPositions[moveCount]
    }

    /** Instantiate followed by Initialize(index, start): the one waypoint
        is the start cell. */
    constructor(index: int, start: Pos)
      ensures Valid() && this.index == index && gridPositions == [start] && Position() == start
    {
      this.index := index;
      gridPositions := [start];
      moveCount := 0;
    }

    /** SetWaypoints needs a non-empty list: `gridPositions[0]` is read at
        once. */
    method SetWaypoints(gridPositions: seq<Pos>)
      requires |gridPositions| > 0
      modifies this
      ensures Valid() && this.gridPositions == gridPositions && moveCount == 0
      ensures Position() == gridPositions[0] && index == old(index)
    {
      this.gridPositions := gridPositions;
      moveCount := 0;
    }

    /** The advance step of Update on Return or an arrow key. */
    method Advance()
      requires Valid()
      modifies this
      ensures Valid() && gridPositions == old(gridPositions) && index == old(index)
      ensures moveCount == NextCount(old(moveCount), |gridPositions|)
      ensures old(moveCount) + 1 == |gridPositions| ==> moveCount == old(moveCount)
      ensures old(moveCount) + 1 < |gridPositions| ==> Position() == gridPositions[old(moveCount) + 1]
    {
      if moveCount + 1 >= |gridPositions| {
        return;
      }
      moveCount := moveCount + 1;
    }
  }
}
