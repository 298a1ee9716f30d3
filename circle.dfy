/** The integer midpoint-circle loop that RangeGoalFinder.CalculateCircleNodes
    and Starter.PaintCircle both run, as the set of points it plots before
    any point is dropped for lying outside the map or on an obstacle. */
module Circle {
  import opened Common

  /** One step of the decision variable: `d += 6 + 4x` while d < 0, otherwise
      `d += 10 + 4x - 4 * y--`, which reads the old y and then lowers it.
      The result is the new (y, d). */
  function Step(x: int, y: int, d: int): (int, int)
  {
    if d < 0 then (y, d + 6 + 4 * x) else (y - 1, d + 10 + 4 * x - 4 * y)
  }

  /** The (x, y) offsets the `for (pos.x = ...; pos.x <= pos.y; pos.x++)` loop
      plots from the state (x, y, d) on, each after its step. */
  function MidpointPairs(x: int, y: int, d: int): seq<(int, int)>
    decreases y - x + 1
  {
    if x > y then []
    else
      var (y', d') := Step(x, y, d);
      [(x, y')] + MidpointPairs(x + 1, y', d')
  }

  /** The eight points plotted for one offset pair, in the order of the source. */
  function Octants(c: Pos, x: int, y: int): set<Pos>
  {
    {
      Pos(y + c.x, x + c.y), Pos(x + c.x, y + c.y), Pos(-x + c.x, y + c.y), Pos(-y + c.x, x + c.y),
      Pos(-y + c.x, -x + c.y), Pos(-x + c.x, -y + c.y), Pos(x + c.x, -y + c.y), Pos(y + c.x, -x + c.y)
    }
  }

  /** The four points plotted before the loop, at distance r along the axes. */
  function AxisPoints(c: Pos, r: int): set<Pos>
  {
    {Pos(c.x, r + c.y), Pos(c.x, -r + c.y), Pos(r + c.x, c.y), Pos(-r + c.x, c.y)}
  }

  function OctantsOf(c: Pos, pairs: seq<(int, int)>): set<Pos>
  {
    if pairs == [] then {}
    else OctantsOf(c, pairs[..|pairs| - 1]) + Octants(c, pairs[|pairs| - 1].0, pairs[|pairs| - 1].1)
  }

  /** Every point the loop plots for centre c and radius r. */
  function RawCircle(c: Pos, r: int): set<Pos>
  {
    AxisPoints(c, r) + OctantsOf(c, MidpointPairs(0, r, 3 - 2 * r))
  }

  lemma MidpointPairsStep(x: int, y: int, d: int)
    requires x <= y
    ensures MidpointPairs(x, y, d) == [(x, Step(x, y, d).0)] + MidpointPairs(x + 1, Step(x, y, d).0, Step(x, y, d).1)
  {
  }

  lemma MidpointPairsDone(x: int, y: int, d: int, done: seq<(int, int)>, all: seq<(int, int)>)
    requires x > y && all == done + MidpointPairs(x, y, d)
    ensures done == all
  {
  }

  /** Moving one pair from the pairs still to plot to those plotted. */
  lemma PairsAppend(done: seq<(int, int)>, x: int, y: int, d: int)
    requires x <= y
    ensures done + MidpointPairs(x, y, d) == (done + [(x, Step(x, y, d).0)]) + MidpointPairs(x + 1, Step(x, y, d).0, Step(x, y, d).1)
  {
    MidpointPairsStep(x, y, d);
  }

  lemma OctantsOfAppend(c: Pos, pairs: seq<(int, int)>, x: int, y: int)
    ensures OctantsOf(c, pairs + [(x, y)]) == OctantsOf(c, pairs) + Octants(c, x, y)
  {
    assert (pairs + [(x, y)])[..|pairs|] == pairs;
  }

  /** Plotting the octants of one more pair extends the plotted set. */
  lemma PlottedAppend(c: Pos, r: int, pairs: seq<(int, int)>, x: int, y: int)
    ensures AxisPoints(c, r) + OctantsOf(c, pairs) + Octants(c, x, y) == AxisPoints(c, r) + OctantsOf(c, pairs + [(x, y)])
  {
    OctantsOfAppend(c, pairs, x, y);
  }

  /** The four axis points in the order SetCirclePoint plots them. */
  function AxisList(c: Pos, r: int): (s: seq<Pos>)
    ensures forall p :: p in s <==> p in AxisPoints(c, r)
  {
    [Pos(c.x, r + c.y), Pos(c.x, -r + c.y), Pos(r + c.x, c.y), Pos(-r + c.x, c.y)]
  }

  /** The eight octant points of one pair in the order they are plotted. */
  function OctantList(c: Pos, x: int, y: int): (s: seq<Pos>)
    ensures forall p :: p in s <==> p in Octants(c, x, y)
  {
    [ Pos(y + c.x, x + c.y), Pos(x + c.x, y + c.y), Pos(-x + c.x, y + c.y), Pos(-y + c.x, x + c.y),
      Pos(-y + c.x, -x + c.y), Pos(-x + c.x, -y + c.y), Pos(x + c.x, -y + c.y), Pos(y + c.x, -x + c.y) ]
  }

  /** The octant points of a run of pairs, in plotting order. */
  function OctantSeq(c: Pos, pairs: seq<(int, int)>): seq<Pos>
  {
    if pairs == [] then []
    else OctantSeq(c, pairs[..|pairs| - 1]) + OctantList(c, pairs[|pairs| - 1].0, pairs[|pairs| - 1].1)
  }

  lemma OctantSeqAppend(c: Pos, pairs: seq<(int, int)>, x: int, y: int)
    ensures OctantSeq(c, pairs + [(x, y)]) == OctantSeq(c, pairs) + OctantList(c, x, y)
  {
    assert (pairs + [(x, y)])[..|pairs|] == pairs;
  }

  /** Every point the loop plots, in the order the calls plot them. */
  function CirclePoints(c: Pos, r: int): seq<Pos>
  {
    AxisList(c, r) + OctantSeq(c, MidpointPairs(0, r, 3 - 2 * r))
  }

  /** One loop step moves its pair from the pairs still to plot to those
      plotted, and its octant points to the end of the plotting order. */
  lemma StepPairs(c: Pos, r: int, done: seq<(int, int)>, x: int, y: int, d: int)
    requires x <= y
    ensures var (y', d') := Step(x, y, d);
      && done + MidpointPairs(x, y, d) == (done + [(x, y')]) + MidpointPairs(x + 1, y', d')
      && AxisList(c, r) + OctantSeq(c, done) + OctantList(c, x, y') == AxisList(c, r) + OctantSeq(c, done + [(x, y')])
  {
    PairsAppend(done, x, y, d);
    OctantSeqAppend(c, done, x, Step(x, y, d).0);
  }

  /** The run of octant points covers the same points as the octant sets. */
  lemma {:induction false} OctantSeqMembers(c: Pos, pairs: seq<(int, int)>, p: Pos)
    ensures p in OctantSeq(c, pairs) <==> p in OctantsOf(c, pairs)
  {
    if pairs != [] {
      OctantSeqMembers(c, pairs[..|pairs| - 1], p);
    }
  }

  /** The plotting order visits exactly the points of the raw circle. */
  lemma CirclePointsMembers(c: Pos, r: int, p: Pos)
    ensures p in CirclePoints(c, r) <==> p in RawCircle(c, r)
  {
    OctantSeqMembers(c, MidpointPairs(0, r, 3 - 2 * r), p);
  }

  /** The eight symmetries of the square about c: bit 2 of k swaps the two
      offsets, bit 0 negates the x offset, bit 1 the y offset. */
  function Reflect(k: int, c: Pos, p: Pos): Pos
  {
    var (dx, dy) := (p.x - c.x, p.y - c.y);
    var (a, b) := if k / 4 % 2 == 1 then (dy, dx) else (dx, dy);
    Pos(c.x + (if k % 2 == 1 then -a else a), c.y + (if k / 2 % 2 == 1 then -b else b))
  }

  lemma OctantsSymmetric(k: int, c: Pos, x: int, y: int, p: Pos)
    requires 0 <= k < 8 && p in Octants(c, x, y)
    ensures Reflect(k, c, p) in Octants(c, x, y)
  {
  }

  lemma {:induction false} OctantsOfSymmetric(k: int, c: Pos, pairs: seq<(int, int)>, p: Pos)
    requires 0 <= k < 8 && p in OctantsOf(c, pairs)
    ensures Reflect(k, c, p) in OctantsOf(c, pairs)
  {
    var init, last := pairs[..|pairs| - 1], pairs[|pairs| - 1];
    if p in OctantsOf(c, init) {
      OctantsOfSymmetric(k, c, init, p);
    } else {
      OctantsSymmetric(k, c, last.0, last.1, p);
    }
  }

  /** The plotted points are closed under all eight reflections about the
      centre. */
  lemma RawCircleSymmetric(k: int, c: Pos, r: int, p: Pos)
    requires 0 <= k < 8 && p in RawCircle(c, r)
    ensures Reflect(k, c, p) in RawCircle(c, r)
  {
    if p !in AxisPoints(c, r) {
      OctantsOfSymmetric(k, c, MidpointPairs(0, r, 3 - 2 * r), p);
    }
  }

  /** The points of a radius r >= 1 circle keep to the square of half-width r
      around the centre, and those of radius 0 to the square of half-width 1. */
  lemma {:induction false} MidpointPairsBounded(x: int, y: int, d: int, r: int)
    requires 0 <= x && y <= r
    ensures forall i :: 0 <= i < |MidpointPairs(x, y, d)| ==>
      0 <= MidpointPairs(x, y, d)[i].0 <= MidpointPairs(x, y, d)[i].1 + 1 && MidpointPairs(x, y, d)[i].1 <= r
    decreases y - x + 1
  {
    if x <= y {
      var (y', d') := Step(x, y, d);
      MidpointPairsBounded(x + 1, y', d', r);
    }
  }

  /** Radius 0: the centre and its four orthogonal neighbours, because the
      first step lowers y to -1 before anything is plotted. */
  lemma RadiusZero(c: Pos)
    ensures RawCircle(c, 0) == {c, Pos(c.x + 1, c.y), Pos(c.x, c.y + 1), Pos(c.x - 1, c.y), Pos(c.x, c.y - 1)}
  {
    assert MidpointPairs(0, 0, 3) == [(0, -1)];
    assert OctantsOf(c, [(0, -1)]) == Octants(c, 0, -1);
  }

  /** Radius 1: the same five points; the only loop step plots the centre. */
  lemma RadiusOne(c: Pos)
    ensures RawCircle(c, 1) == {c, Pos(c.x + 1, c.y), Pos(c.x, c.y + 1), Pos(c.x - 1, c.y), Pos(c.x, c.y - 1)}
  {
    assert MidpointPairs(0, 1, 1) == [(0, 0)];
    assert OctantsOf(c, [(0, 0)]) == Octants(c, 0, 0);
  }
}
