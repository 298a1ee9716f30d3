/** Starter: the scene driver's own grid logic. It paints the Path and Circle
    bits onto the map's GridType[,] array, picks the enemy's half goal with
    the midpoint-and-nearest-cell rule, and moves the player's goal by one
    cell per arrow key. */
module Painting {
  import opened Common
  import opened Mediator
  import opened Circle
  import opened NearestGoal
  import opened HalfGoal
  import opened Agents

  /** `c &= ~bit` */
  function ClearFlag(c: Cell, bit: Cell): Cell
  {
    c & !bit
  }

  /** `c |= bit` */
  function SetFlag(c: Cell, bit: Cell): Cell
  {
    c | bit
  }

  /** Clearing a bit leaves it clear and every other bit as it was. */
  lemma ClearKeepsOthers(c0: Cell, bit: Cell)
    ensures ClearFlag(c0, bit) & bit == 0 && ClearFlag(c0, bit) | bit == c0 | bit
  {
  }

  /** And clearing is the only update that does so. */
  lemma KeepsOthersIsClear(c0: Cell, c: Cell, bit: Cell)
    requires c & bit == 0 && c | bit == c0 | bit
    ensures c == ClearFlag(c0, bit)
  {
  }

  lemma SetFlagTwice(c: Cell, bit: Cell)
    ensures SetFlag(SetFlag(c, bit), bit) == SetFlag(c, bit)
  {
  }

  /** A cell with its `bit` cleared and then set again when `on`. */
  function Paint(c0: Cell, bit: Cell, on: bool): Cell
  {
    if on then SetFlag(ClearFlag(c0, bit), bit) else ClearFlag(c0, bit)
  }

  /** A painted cell carries the bit exactly when it was painted on, and
      every other bit is the one it had before. */
  lemma PaintMeaning(c0: Cell, bit: Cell, on: bool)
    requires bit != 0
    ensures Paint(c0, bit, on) & bit != 0 <==> on
    ensures Paint(c0, bit, on) | bit == c0 | bit
  {
  }

  /** The grid with `bit` cleared on every cell. */
  function ClearAll(g: Grid, bit: Cell): (r: Grid)
    ensures |r| == |g| && forall y :: 0 <= y < |g| ==> |r[y]| == |g[y]|
    ensures forall y, x :: 0 <= y < |g| && 0 <= x < |g[y]| ==> r[y][x] == ClearFlag(g[y][x], bit)
  {
    seq(|g|, y requires 0 <= y < |g| => seq(|g[y]|, x requires 0 <= x < |g[y]| => ClearFlag(g[y][x], bit)))
  }

  /** `grids[p.y, p.x] |= bit` on the cell values when p lies inside them; a
      point outside leaves them as they are. */
  function PlotPoint(g: Grid, p: Pos, bit: Cell): (r: Grid)
    ensures |r| == |g| && forall y :: 0 <= y < |g| ==> |r[y]| == |g[y]|
  {
    if 0 <= p.y < |g| && 0 <= p.x < |g[p.y]| then g[p.y := g[p.y][p.x := SetFlag(g[p.y][p.x], bit)]] else g
  }

  /** The points plotted one after the other. */
  function PlotAll(g: Grid, pts: seq<Pos>, bit: Cell): (r: Grid)
    ensures |r| == |g| && forall y :: 0 <= y < |g| ==> |r[y]| == |g[y]|
  {
    if pts == [] then g else PlotPoint(PlotAll(g, pts[..|pts| - 1], bit), pts[|pts| - 1], bit)
  }

  lemma PlotAllAppend(g: Grid, pts: seq<Pos>, p: Pos, bit: Cell)
    ensures PlotAll(g, pts + [p], bit) == PlotPoint(PlotAll(g, pts, bit), p, bit)
  {
    assert (pts + [p])[..|pts|] == pts;
  }

  /** Plotting a run and then another is plotting the two together. */
  lemma {:induction false} PlotAllConcat(g: Grid, a: seq<Pos>, b: seq<Pos>, bit: Cell)
    ensures PlotAll(g, a + b, bit) == PlotAll(PlotAll(g, a, bit), b, bit)
    decreases |b|
  {
    if b == [] {
      assert a + b == a;
    } else {
      var init, last := b[..|b| - 1], b[|b| - 1];
      assert a + b == (a + init) + [last];
      PlotAllAppend(g, a + init, last, bit);
      PlotAllConcat(g, a, init, bit);
      PlotAllAppend(PlotAll(g, a, bit), init, last, bit);
      assert init + [last] == b;
    }
  }

  /** A cell after a run of plots: `bit` set on it when the run visits it,
      unchanged otherwise; visiting twice is visiting once. */
  lemma {:induction false} PlotAllAt(g: Grid, pts: seq<Pos>, bit: Cell, y: int, x: int)
    requires 0 <= y < |g| && 0 <= x < |g[y]|
    ensures PlotAll(g, pts, bit)[y][x] == if Pos(x, y) in pts then SetFlag(g[y][x], bit) else g[y][x]
  {
    if pts != [] {
      var init, last := pts[..|pts| - 1], pts[|pts| - 1];
      PlotAllAt(g, init, bit, y, x);
      assert pts == init + [last];
      if Pos(x, y) in init {
        SetFlagTwice(g[y][x], bit);
      }
    }
  }

  /** RemoveBitData followed by the plots: every cell inside is its old value
      painted with `bit` exactly when the run visits it. */
  lemma PaintedAt(g0: Grid, pts: seq<Pos>, bit: Cell, y: int, x: int)
    requires 0 <= y < |g0| && 0 <= x < |g0[y]|
    ensures PlotAll(ClearAll(g0, bit), pts, bit)[y][x] == Paint(g0[y][x], bit, Pos(x, y) in pts)
  {
    PlotAllAt(ClearAll(g0, bit), pts, bit, y, x);
  }

  /** RemoveBitData: `grids[y, x] &= ~type` on every cell. */
  method RemoveBitData(grids: array2<Cell>, bit: Cell)
    modifies grids
    ensures Snapshot(grids) == ClearAll(old(Snapshot(grids)), bit)
  {
    ghost var g0 := Snapshot(grids);
    for y := 0 to grids.Length0
      invariant forall i, j :: 0 <= i < y && 0 <= j < grids.Length1 ==> grids[i, j] == ClearFlag(g0[i][j], bit)
      invariant forall i, j :: y <= i < grids.Length0 && 0 <= j < grids.Length1 ==> grids[i, j] == g0[i][j]
    {
      ClearRow(grids, y, bit);
    }
    SnapshotEq(grids, ClearAll(g0, bit));
  }

  /** The inner loop of RemoveBitData: row y cleared, every other row kept. */
  method ClearRow(grids: array2<Cell>, y: int, bit: Cell)
    requires 0 <= y < grids.Length0
    modifies grids
    ensures forall j :: 0 <= j < grids.Length1 ==> grids[y, j] == ClearFlag(old(grids[y, j]), bit)
    ensures forall i, j :: 0 <= i < grids.Length0 && i != y && 0 <= j < grids.Length1 ==> grids[i, j] == old(grids[i, j])
  {
    for x := 0 to grids.Length1
      invariant forall j :: 0 <= j < x ==> grids[y, j] == ClearFlag(old(grids[y, j]), bit)
      invariant forall j :: x <= j < grids.Length1 ==> grids[y, j] == old(grids[y, j])
      invariant forall i, j :: 0 <= i < grids.Length0 && i != y && 0 <= j < grids.Length1 ==> grids[i, j] == old(grids[i, j])
    {
      grids[y, x] := ClearFlag(grids[y, x], bit);
    }
  }

  /** `grids[y, x] |= bit` on a cell inside the array. */
  method SetBit(grids: array2<Cell>, x: int, y: int, bit: Cell)
    requires 0 <= y < grids.Length0 && 0 <= x < grids.Length1
    modifies grids
    ensures Snapshot(grids) == PlotPoint(old(Snapshot(grids)), Pos(x, y), bit)
  {
    ghost var g0 := Snapshot(grids);
    grids[y, x] := SetFlag(grids[y, x], bit);
    SnapshotEq(grids, PlotPoint(g0, Pos(x, y), bit));
  }

  /** Starter: the mediator, the map's array, the two agents and the
      player's current and half goals. */
  class Starter {
    const mediator: GridGraphMediator
    const grids: array2<Cell>
    const player: Agent
    const enemy: Agent
    var currentGoal: Pos
    var halfGoal: Pos

    /** The array has the map's dimensions, and both agents and the current
        goal stand inside it. */
    ghost predicate Valid()
      reads this, mediator, player, enemy
    {
      && mediator.Valid()
      && grids.Length0 == mediator.mapData.height && grids.Length1 == mediator.mapData.width
      && player.Valid() && enemy.Valid()
      && InArray(grids, player.Position()) && InArray(grids, enemy.Position())
      && InArray(grids, currentGoal)
    }

    /** The part of Start that sets up this state: the current goal is the
        player's start cell, and CreateAgents places the player (index -1)
        and the enemy on their start cells and sets the half goal to the
        current goal. */
    constructor(mediator: GridGraphMediator, grids: array2<Cell>, playerStart: Pos, enemyStart: Pos)
      requires mediator.Valid()
      requires grids.Length0 == mediator.mapData.height && grids.Length1 == mediator.mapData.width
      requires InArray(grids, playerStart) && InArray(grids, enemyStart)
      ensures Valid() && this.mediator == mediator && this.grids == grids
      ensures player.Position() == playerStart && enemy.Position() == enemyStart
      ensures currentGoal == playerStart && halfGoal == playerStart
      ensures fresh(player) && fresh(enemy)
    {
      this.mediator := mediator;
      this.grids := grids;
      currentGoal := playerStart;
      player := new Agent(-1, playerStart);
      enemy := new Agent(0, enemyStart);
      halfGoal := playerStart;
    }

    /** The cells of the given dense nodes, in order. */
    ghost function PathPositions(result: seq<int>): (s: seq<Pos>)
      reads this, mediator
      requires mediator.Valid() && forall i :: 0 <= i < |result| ==> 0 <= result[i] < mediator.NodeCount()
      ensures |s| == |result| && forall i :: 0 <= i < |result| ==> s[i] == mediator.GetPos(result[i])
    {
      if result == [] then []
      else PathPositions(result[..|result| - 1]) + [mediator.GetPos(result[|result| - 1])]
    }

    /** PaintPath: clears the Path bit everywhere, then sets it on the cell
        of every node of the result, in order. */
    method PaintPath(result: seq<int>)
      requires Valid() && forall i :: 0 <= i < |result| ==> 0 <= result[i] < mediator.NodeCount()
      modifies grids
      ensures Snapshot(grids) == PlotAll(ClearAll(old(Snapshot(grids)), PATH), PathPositions(result), PATH)
    {
      RemoveBitData(grids, PATH);
      ghost var g1 := Snapshot(grids);
      ghost var cells := PathPositions(result);
      for i := 0 to |result|
        invariant Snapshot(grids) == PlotAll(g1, cells[..i], PATH)
      {
        PaintNode(result, i, g1, cells);
      }
      assert cells[..|result|] == cells;
    }

    /** One pass of PaintPath's loop: the Path bit on the cell of node
        result[i]. */
    method PaintNode(result: seq<int>, i: int, ghost g1: Grid, ghost cells: seq<Pos>)
      requires mediator.Valid() && 0 <= i < |result| && 0 <= result[i] < mediator.NodeCount()
      requires grids.Length0 == mediator.mapData.height && grids.Length1 == mediator.mapData.width
      requires |cells| == |result| && cells[i] == mediator.GetPos(result[i])
      requires Snapshot(grids) == PlotAll(g1, cells[..i], PATH)
      modifies grids
      ensures Snapshot(grids) == PlotAll(g1, cells[..i + 1], PATH)
    {
      var pos := mediator.GetPos(result[i]);
      assert cells[..i + 1] == cells[..i] + [pos];
      PlotAllAppend(g1, cells[..i], pos, PATH);
      SetBit(grids, pos.x, pos.y, PATH);
    }

    /** A cell of the array carries Path after PaintPath exactly when it is
        the cell of a node of the result, and keeps all its other bits. */
    lemma PaintPathMeaning(g0: Grid, result: seq<int>, y: int, x: int)
      requires Valid() && forall i :: 0 <= i < |result| ==> 0 <= result[i] < mediator.NodeCount()
      requires 0 <= y < |g0| && 0 <= x < |g0[y]|
      ensures var g := PlotAll(ClearAll(g0, PATH), PathPositions(result), PATH);
        && (g[y][x] & PATH != 0 <==> Pos(x, y) in PathPositions(result))
        && g[y][x] | PATH == g0[y][x] | PATH
    {
      PaintedAt(g0, PathPositions(result), PATH, y, x);
      PaintMeaning(g0[y][x], PATH, Pos(x, y) in PathPositions(result));
    }

    /** SetCirclePoint: a cell outside the array is ignored and one inside
        gets the Circle bit. */
    method SetCirclePoint(x: int, y: int)
      modifies grids
      ensures Snapshot(grids) == PlotPoint(old(Snapshot(grids)), Pos(x, y), CIRCLE)
    {
      if x < 0 || x >= grids.Length1 || y < 0 || y >= grids.Length0 {
        return;
      }
      SetBit(grids, x, y, CIRCLE);
    }

    /** Four SetCirclePoint calls in a row. */
    method PlotFour(p0: Pos, p1: Pos, p2: Pos, p3: Pos)
      modifies grids
      ensures Snapshot(grids) == PlotAll(old(Snapshot(grids)), [p0, p1, p2, p3], CIRCLE)
    {
      ghost var g0 := Snapshot(grids);
      SetCirclePoint(p0.x, p0.y);
      PlotAllAppend(g0, [], p0, CIRCLE);
      SetCirclePoint(p1.x, p1.y);
      PlotAllAppend(g0, [p0], p1, CIRCLE);
      SetCirclePoint(p2.x, p2.y);
      PlotAllAppend(g0, [p0, p1], p2, CIRCLE);
      SetCirclePoint(p3.x, p3.y);
      PlotAllAppend(g0, [p0, p1, p2], p3, CIRCLE);
      assert [] + [p0] == [p0] && [p0] + [p1] == [p0, p1] && [p0, p1] + [p2] == [p0, p1, p2];
      assert [p0, p1, p2] + [p3] == [p0, p1, p2, p3];
    }

    /** The four SetCirclePoint calls before the loop. */
    method PaintAxes(center: Pos, radius: int)
      modifies grids
      ensures Snapshot(grids) == PlotAll(old(Snapshot(grids)), AxisList(center, radius), CIRCLE)
    {
      PlotFour(Pos(center.x, radius + center.y), Pos(center.x, -radius + center.y),
               Pos(radius + center.x, center.y), Pos(-radius + center.x, center.y));
    }

    /** The eight SetCirclePoint calls of one loop step. */
    method PaintOctants(c: Pos, x: int, y: int)
      modifies grids
      ensures Snapshot(grids) == PlotAll(old(Snapshot(grids)), OctantList(c, x, y), CIRCLE)
    {
      ghost var g0 := Snapshot(grids);
      var upper := [Pos(y + c.x, x + c.y), Pos(x + c.x, y + c.y), Pos(-x + c.x, y + c.y), Pos(-y + c.x, x + c.y)];
      var lower := [Pos(-y + c.x, -x + c.y), Pos(-x + c.x, -y + c.y), Pos(x + c.x, -y + c.y), Pos(y + c.x, -x + c.y)];
      PlotFour(upper[0], upper[1], upper[2], upper[3]);
      assert [upper[0], upper[1], upper[2], upper[3]] == upper;
      PlotFour(lower[0], lower[1], lower[2], lower[3]);
      assert [lower[0], lower[1], lower[2], lower[3]] == lower;
      PlotAllConcat(g0, upper, lower, CIRCLE);
      assert upper + lower == OctantList(c, x, y);
    }

    /** PaintCircle: clears the Circle bit everywhere, then plots the
        midpoint circle point by point. */
    method PaintCircle(center: Pos, radius: int)
      modifies grids
      ensures Snapshot(grids) == PlotAll(ClearAll(old(Snapshot(grids)), CIRCLE), CirclePoints(center, radius), CIRCLE)
    {
      RemoveBitData(grids, CIRCLE);
      ghost var g1 := Snapshot(grids);
      PaintAxes(center, radius);
      var d := 3 - 2 * radius;
      var y := radius;
      var x := 0;
      ghost var done: seq<(int, int)> := [];
      assert AxisList(center, radius) + OctantSeq(center, done) == AxisList(center, radius);
      while x <= y
        invariant PaintLoop(g1, center, radius, done, x, y, d)
        decreases y - x + 1
      {
        y, d, done := PaintStep(g1, center, radius, x, y, d, done);
        x := x + 1;
      }
      MidpointPairsDone(x, y, d, done, MidpointPairs(0, radius, 3 - 2 * radius));
    }

    /** The state of PaintCircle's loop at (x, y, d): the offset pairs
        `done` have been plotted after the axis points, and the rest are
        still to come. */
    ghost predicate PaintLoop(g1: Grid, center: Pos, radius: int, done: seq<(int, int)>, x: int, y: int, d: int)
      reads grids
    {
      && MidpointPairs(0, radius, 3 - 2 * radius) == done + MidpointPairs(x, y, d)
      && Snapshot(grids) == PlotAll(g1, AxisList(center, radius) + OctantSeq(center, done), CIRCLE)
    }

    /** One pass of that loop: the decision-variable update, then the eight
        points of the new offset pair. */
    method PaintStep(ghost g1: Grid, center: Pos, radius: int, x: int, y0: int, d0: int, ghost done0: seq<(int, int)>)
      returns (y: int, d: int, ghost done: seq<(int, int)>)
      requires x <= y0 && PaintLoop(g1, center, radius, done0, x, y0, d0)
      modifies grids
      ensures PaintLoop(g1, center, radius, done, x + 1, y, d) && y <= y0
    {
      y, d := y0, d0;
      if d < 0 {
        d := d + 6 + 4 * x;
      } else {
        d := d + 10 + 4 * x - 4 * y;
        y := y - 1;
      }
      assert (y, d) == Step(x, y0, d0);
      ghost var plotted := AxisList(center, radius) + OctantSeq(center, done0);
      PaintOctants(center, x, y);
      PlotAllConcat(g1, plotted, OctantList(center, x, y), CIRCLE);
      done := done0 + [(x, y)];
      StepPairs(center, radius, done0, x, y0, d0);
    }

    /** A cell of the array carries Circle after PaintCircle exactly when
        the midpoint circle plots it, and keeps all its other bits. */
    lemma PaintCircleMeaning(g0: Grid, center: Pos, radius: int, y: int, x: int)
      requires 0 <= y < |g0| && 0 <= x < |g0[y]|
      ensures var g := PlotAll(ClearAll(g0, CIRCLE), CirclePoints(center, radius), CIRCLE);
        && (g[y][x] & CIRCLE != 0 <==> Pos(x, y) in RawCircle(center, radius))
        && g[y][x] | CIRCLE == g0[y][x] | CIRCLE
    {
      PaintedAt(g0, CirclePoints(center, radius), CIRCLE, y, x);
      PaintMeaning(g0[y][x], CIRCLE, Pos(x, y) in CirclePoints(center, radius));
      CirclePointsMembers(center, radius, Pos(x, y));
    }

    /** AssignHalfGoal: the enemy heads for the rounded midpoint of itself
        and the current goal when that cell is free; otherwise for the
        nearest free cell, replaced by the current goal when it is the
        player's cell or when there is none. */
    method AssignHalfGoal() returns (ghost nearest: Option<Pos>)
      requires Valid()
      modifies this`halfGoal
      ensures Valid()
      ensures var point := Midpoint(enemy.Position(), currentGoal);
        && (Free(grids, point) ==> halfGoal == point)
        && (Blocked(grids, point) && nearest.None? ==>
              halfGoal == currentGoal && forall c :: InArray(grids, c) ==> Blocked(grids, c))
        && (Blocked(grids, point) && nearest.Some? ==>
              && IsNearestFree(grids, point, grids.Length1, grids.Length0, nearest.value)
              && halfGoal == if nearest.value == player.Position() then currentGoal else nearest.value)
    {
      var goal := currentGoal;
      var point := Midpoint(enemy.Position(), goal);
      nearest := None;
      if grids[point.y, point.x] & OBSTACLE == 0 {
        halfGoal := point;
      } else {
        ghost var steps;
        var nearestGoal;
        nearestGoal, steps := FindNearestGoalFixed(grids, point);
        nearest := nearestGoal;
        if nearestGoal.Some? {
          if nearestGoal.value == player.Position() {
            nearestGoal := Some(goal);
          }
          halfGoal := nearestGoal.value;
        } else {
          halfGoal := goal;
        }
      }
    }

    /** The goal update of MovePlayerAgent for one input, (0, 0) or one of
        the four unit moves. A goal outside the array makes the obstacle test
        read outside it; a goal with the Obstacle bit is refused and nothing
        changes; otherwise the current goal moves by the input and the
        caller goes on to AssignHalfGoal. */
    method MoveGoal(input: Pos) returns (r: Result<bool, Fault>)
      requires Valid()
      requires input == Pos(0, 0) || input in DIRECTIONS
      modifies this`currentGoal
      ensures r.Err? <==> !InArray(grids, old(currentGoal).Plus(input))
      ensures r == Ok(false) <==> Blocked(grids, old(currentGoal).Plus(input))
      ensures r == Ok(true) <==> Free(grids, old(currentGoal).Plus(input))
      ensures r == Ok(true) ==> currentGoal == old(currentGoal).Plus(input)
      ensures r != Ok(true) || input == Pos(0, 0) ==> currentGoal == old(currentGoal)
      ensures r.Ok? ==> Valid()
    {
      var goal := currentGoal.Plus(input);
      if !(0 <= goal.y < grids.Length0 && 0 <= goal.x < grids.Length1) {
        return Err(IndexOutOfRange);
      }
      if grids[goal.y, goal.x] & OBSTACLE == OBSTACLE {
        return Ok(false);
      }
      if input != Pos(0, 0) {
        currentGoal := currentGoal.Plus(input);
      }
      r := Ok(true);
    }
  }
}
