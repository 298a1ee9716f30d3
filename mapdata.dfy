/** PathFinding.MapData: the loaded map (dimensions, passable count, agent
    start cells, goal cell, cell flags) and its start-position validator. */
module PathMapData {
  import opened Common

  /** The constructor stores each argument in the field of the same name. */
  datatype MapData = MapData(
    height: int,
    width: int,
    passableCount: int,
    agents: seq<Pos>,
    goal: Pos,
    grids: Grid)

  datatype MapError = DuplicateStart

  /** IsValid: true when the start cells are pairwise distinct; otherwise an
      ArgumentException ("duplicate start data"), modelled as Err. */
  function IsValid(m: MapData): (r: Result<bool, MapError>)
    ensures r.Ok? <==> Distinct(m.agents)
    ensures r.Err? ==> r.error == DuplicateStart
    ensures r != Ok(false)
  {
    if IsUniqueStarts(m.agents) then Ok(true) else Err(DuplicateStart)
  }

  /** The verdict depends only on how often each start cell occurs, not on the
      order of the agents. */
  lemma IsValidIgnoresOrder(m: MapData, n: MapData)
    requires multiset(m.agents) == multiset(n.agents)
    ensures IsValid(m) == IsValid(n)
  {
    DistinctIffSingleOccurrences(m.agents);
    DistinctIffSingleOccurrences(n.agents);
  }
}
