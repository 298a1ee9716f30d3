/** FindNearestGoal, written out identically in PathFinding.SampleAlgorithm
    and in Starter: a breadth-first search over the four moves from a cell
    of a GridType[,] array to the first cell without the obstacle bit. The
    array is indexed [y, x]; GetLength(0) is the number of rows and
    GetLength(1) the number of columns. */
module NearestGoal {
  import opened Common

  /** The one way the search fails: `grids[p.y, p.x]` outside the array. */
  datatype Fault = IndexOutOfRange

  function Abs(a: int): nat
  {
    if a < 0 then -a else a
  }

  /** Number of moves between p and q when nothing is in the way. */
  function Manhattan(p: Pos, q: Pos): nat
  {
    Abs(p.x - q.x) + Abs(p.y - q.y)
  }

  /** The neighbour test of the search loop with the two limits it compares
      against: `n.x >= 0 && n.x < limitX && n.y >= 0 && n.y < limitY`. */
  predicate InBox(limitX: int, limitY: int, p: Pos)
  {
    0 <= p.x < limitX && 0 <= p.y < limitY
  }

  /** `grids[p.y, p.x]` is an element of the array. */
  predicate InArray(grid: array2<Cell>, p: Pos)
  {
    InBox(grid.Length1, grid.Length0, p)
  }

  /** The cell at p exists and carries the obstacle bit. */
  ghost predicate Blocked(grid: array2<Cell>, p: Pos)
    reads grid
  {
    InArray(grid, p) && grid[p.y, p.x] & OBSTACLE != 0
  }

  /** The cell at p exists and has no obstacle bit: what the search looks for. */
  ghost predicate Free(grid: array2<Cell>, p: Pos)
    reads grid
  {
    InArray(grid, p) && grid[p.y, p.x] & OBSTACLE == 0
  }

  /** p is a free cell and no cell of the box is nearer to point. */
  ghost predicate IsNearestFree(grid: array2<Cell>, point: Pos, limitX: int, limitY: int, p: Pos)
    reads grid
  {
    && Free(grid, p)
    && forall c :: InBox(limitX, limitY, c) && Manhattan(point, c) < Manhattan(point, p) ==> Blocked(grid, c)
  }

  ghost function Elems(s: seq<Pos>): set<Pos>
  {
    set n | n in s
  }

  // ---------------------------------------------------------------- the box

  ghost function Row(w: int, y: int): set<Pos>
    decreases w
  {
    if w <= 0 then {} else Row(w - 1, y) + {Pos(w - 1, y)}
  }

  /** The cells InBox(w, h, ·) admits, as a finite set. */
  ghost function Box(w: int, h: int): set<Pos>
    decreases h
  {
    if h <= 0 then {} else Box(w, h - 1) + Row(w, h - 1)
  }

  lemma {:induction false} RowMembers(w: int, y: int)
    ensures forall p :: p in Row(w, y) <==> 0 <= p.x < w && p.y == y
    decreases w
  {
    if w > 0 {
      RowMembers(w - 1, y);
    }
  }

  lemma {:induction false} RowSize(w: int, y: int)
    ensures |Row(w, y)| == if w <= 0 then 0 else w
    decreases w
  {
    if w > 0 {
      RowSize(w - 1, y);
      RowMembers(w - 1, y);
      assert Pos(w - 1, y) !in Row(w - 1, y);
    }
  }

  lemma {:induction false} BoxMembers(w: int, h: int)
    ensures forall p :: p in Box(w, h) <==> InBox(w, h, p)
    decreases h
  {
    if h > 0 {
      BoxMembers(w, h - 1);
      RowMembers(w, h - 1);
    }
  }

  lemma {:induction false} BoxSize(w: int, h: int)
    requires w >= 0
    ensures |Box(w, h)| == if h <= 0 then 0 else w * h
    decreases h
  {
    if h > 0 {
      var a, b := Box(w, h - 1), Row(w, h - 1);
      assert Box(w, h) == a + b;
      BoxRowDisjoint(w, h - 1);
      DisjointUnionSize(a, b);
      BoxSize(w, h - 1);
      RowSize(w, h - 1);
      var k := w * (h - 1);
      assert |a| == k by {
        if h == 1 {
          assert k == 0;
        }
      }
      MulStep(w, h);
    }
  }

  lemma BoxRowDisjoint(w: int, h: int)
    ensures Box(w, h) !! Row(w, h)
  {
    BoxMembers(w, h);
    RowMembers(w, h);
  }

  lemma DisjointUnionSize(a: set<Pos>, b: set<Pos>)
    requires a !! b
    ensures |a + b| == |a| + |b|
  {
    assert a * b == {};
  }

  lemma MulStep(w: int, h: int)
    ensures w * h == w * (h - 1) + w
  {
  }

  lemma SubsetSize(a: set<Pos>, b: set<Pos>)
    requires a <= b
    ensures |a| <= |b|
  {
    assert b == a + (b - a);
  }

  lemma ProperSubsetSize(a: set<Pos>, b: set<Pos>, n: Pos)
    requires a <= b && n in b && n !in a
    ensures |a| < |b|
  {
    assert b == a + (b - a);
    assert n in b - a;
  }

  // ----------------------------------------------------------- geometry

  /** A move changes the distance to any fixed cell by exactly one. */
  lemma AdjacentDistance(point: Pos, p: Pos, q: Pos)
    requires Adjacent(p, q)
    ensures Manhattan(point, q) == Manhattan(point, p) + 1 || Manhattan(point, q) + 1 == Manhattan(point, p)
  {
  }

  /** Every cell of a box other than point has a neighbour in the box one
      step nearer to point. */
  lemma Toward(point: Pos, w: int, h: int, c: Pos) returns (b: Pos)
    requires InBox(w, h, point) && InBox(w, h, c) && c != point
    ensures InBox(w, h, b) && Adjacent(b, c) && Manhattan(point, b) + 1 == Manhattan(point, c)
  {
    if c.x < point.x {
      b := Pos(c.x + 1, c.y);
    } else if c.x > point.x {
      b := Pos(c.x - 1, c.y);
    } else if c.y < point.y {
      b := Pos(c.x, c.y + 1);
    } else {
      b := Pos(c.x, c.y - 1);
    }
  }

  /** A set holding point and closed under moves inside the box holds the
      whole box. */
  lemma {:induction false} ClosedHoldsBox(point: Pos, w: int, h: int, s: set<Pos>, c: Pos, k: nat)
    requires InBox(w, h, point) && point in s
    requires forall a, b :: a in s && Adjacent(a, b) && InBox(w, h, b) ==> b in s
    requires InBox(w, h, c) && Manhattan(point, c) == k
    ensures c in s
    decreases k
  {
    if c != point {
      var b := Toward(point, w, h, c);
      ClosedHoldsBox(point, w, h, s, b, k - 1);
    }
  }

  // ---------------------------------------------------- expanding one cell

  /** The neighbours of p that the `foreach (var d in direction)` loop
      enqueues over its first k directions: inside the limits and not yet
      visited. */
  function Frontier(p: Pos, limitX: int, limitY: int, visited: set<Pos>, k: int): seq<Pos>
    requires 0 <= k <= |DIRECTIONS|
  {
    if k == 0 then []
    else
      var n := p.Plus(DIRECTIONS[k - 1]);
      Frontier(p, limitX, limitY, visited, k - 1) + (if InBox(limitX, limitY, n) && n !in visited then [n] else [])
  }

  lemma {:induction false} FrontierMembers(p: Pos, limitX: int, limitY: int, visited: set<Pos>, k: int)
    requires 0 <= k <= |DIRECTIONS|
    ensures forall n :: n in Frontier(p, limitX, limitY, visited, k) <==>
      (exists j :: 0 <= j < k && n == p.Plus(DIRECTIONS[j])) && InBox(limitX, limitY, n) && n !in visited
    ensures Distinct(Frontier(p, limitX, limitY, visited, k))
  {
    if k > 0 {
      FrontierMembers(p, limitX, limitY, visited, k - 1);
      var n := p.Plus(DIRECTIONS[k - 1]);
      assert forall j :: 0 <= j < k - 1 ==> n != p.Plus(DIRECTIONS[j]);
    }
  }

  /** What the search needs of the whole frontier of p: it is made of
      unvisited neighbours of p inside the limits, without repetition, and
      afterwards every neighbour of p inside the limits is visited. */
  lemma FrontierFacts(p: Pos, limitX: int, limitY: int, visited: set<Pos>)
    ensures var f := Frontier(p, limitX, limitY, visited, 4);
      && Distinct(f)
      && (forall i :: 0 <= i < |f| ==> InBox(limitX, limitY, f[i]) && f[i] !in visited && Adjacent(p, f[i]))
      && (forall n :: Adjacent(p, n) && InBox(limitX, limitY, n) ==> n in visited || n in f)
  {
    var f := Frontier(p, limitX, limitY, visited, 4);
    FrontierMembers(p, limitX, limitY, visited, 4);
    forall i | 0 <= i < |f| ensures Adjacent(p, f[i]) {
      assert f[i] in f;
      AdjacentIffMove(p, f[i]);
    }
    forall n | Adjacent(p, n) && InBox(limitX, limitY, n) ensures n in visited || n in f {
      AdjacentIffMove(p, n);
    }
  }

  /** The inner loop: enqueue and mark every unvisited neighbour of p inside
      the limits, in the order +x, +y, -x, -y. */
  method Expand(p: Pos, limitX: int, limitY: int, queue0: seq<Pos>, visited0: set<Pos>)
    returns (queue: seq<Pos>, visited: set<Pos>)
    ensures queue == queue0 + Frontier(p, limitX, limitY, visited0, 4)
    ensures visited == visited0 + Elems(Frontier(p, limitX, limitY, visited0, 4))
  {
    queue, visited := queue0, visited0;
    var direction := DIRECTIONS;
    for k := 0 to 4
      invariant queue == queue0 + Frontier(p, limitX, limitY, visited0, k)
      invariant visited == visited0 + Elems(Frontier(p, limitX, limitY, visited0, k))
    {
      var n := p.Plus(direction[k]);
      FrontierFresh(p, limitX, limitY, visited0, k, k);
      ghost var f := Frontier(p, limitX, limitY, visited0, k);
      assert Elems(f + [n]) == Elems(f) + {n};
      if n.x >= 0 && n.x < limitX && n.y >= 0 && n.y < limitY && n !in visited {
        visited := visited + {n};
        queue := queue + [n];
      }
    }
  }

  /** A later direction leads to a cell the first k directions did not add. */
  lemma {:induction false} FrontierFresh(p: Pos, limitX: int, limitY: int, visited: set<Pos>, k: int, m: int)
    requires 0 <= k <= m < |DIRECTIONS|
    ensures p.Plus(DIRECTIONS[m]) !in Elems(Frontier(p, limitX, limitY, visited, k))
  {
    if k > 0 {
      FrontierFresh(p, limitX, limitY, visited, k - 1, m);
      var init := Frontier(p, limitX, limitY, visited, k - 1);
      var n := p.Plus(DIRECTIONS[k - 1]);
      var added := if InBox(limitX, limitY, n) && n !in visited then [n] else [];
      assert Elems(init + added) == Elems(init) + Elems(added);
    }
  }

  // ------------------------------------------------------ the search state

  /** The queue is ordered by distance from point and spans at most two
      distances, and every cell of the box nearer than the head of the queue
      has been dequeued. */
  ghost predicate Layered(point: Pos, limitX: int, limitY: int, queue: seq<Pos>, visited: set<Pos>)
  {
    && (forall i, j :: 0 <= i <= j < |queue| ==>
          Manhattan(point, queue[i]) <= Manhattan(point, queue[j]) <= Manhattan(point, queue[i]) + 1)
    && (|queue| > 0 ==> forall c :: InBox(limitX, limitY, c) && Manhattan(point, c) < Manhattan(point, queue[0]) ==>
          c in visited && c !in queue)
  }

  /** Every neighbour inside the limits of a dequeued cell is visited. */
  ghost predicate Closed(limitX: int, limitY: int, queue: seq<Pos>, visited: set<Pos>)
  {
    forall a, b :: a in visited && a !in queue && Adjacent(a, b) && InBox(limitX, limitY, b) ==> b in visited
  }

  /** The invariant of the search loop. A visited cell that is no longer in
      the queue has been dequeued and found blocked, and its neighbours
      inside the limits have all been visited. */
  ghost predicate BfsState(grid: array2<Cell>, point: Pos, limitX: int, limitY: int, queue: seq<Pos>, visited: set<Pos>)
    reads grid
  {
    && point in visited
    && (forall c :: c in visited ==> c == point || InBox(limitX, limitY, c))
    && (forall i :: 0 <= i < |queue| ==> queue[i] in visited)
    && (forall c :: c in visited && c !in queue ==> Blocked(grid, c))
    && Closed(limitX, limitY, queue, visited)
    && (InBox(limitX, limitY, point) ==> Layered(point, limitX, limitY, queue, visited))
  }

  /** Dequeueing a blocked head and enqueueing its frontier keeps the state. */
  lemma BfsStep(grid: array2<Cell>, point: Pos, limitX: int, limitY: int, queue0: seq<Pos>, visited0: set<Pos>)
    requires BfsState(grid, point, limitX, limitY, queue0, visited0)
    requires |queue0| > 0 && Blocked(grid, queue0[0])
    ensures var f := Frontier(queue0[0], limitX, limitY, visited0, 4);
      BfsState(grid, point, limitX, limitY, queue0[1..] + f, visited0 + Elems(f))
  {
    var q := queue0[0];
    var f := Frontier(q, limitX, limitY, visited0, 4);
    var queue, visited := queue0[1..] + f, visited0 + Elems(f);
    FrontierFacts(q, limitX, limitY, visited0);
    assert forall n :: n in f ==> n in queue;
    assert forall c :: c in visited && c !in queue ==> c in visited0 && (c !in queue0 || c == q);
    forall c | c in visited ensures c == point || InBox(limitX, limitY, c) {
      if c !in visited0 {
        var i :| 0 <= i < |f| && f[i] == c;
      }
    }
    forall i | 0 <= i < |queue| ensures queue[i] in visited {
      if i < |queue0| - 1 {
        assert queue[i] == queue0[i + 1];
      } else {
        assert queue[i] == f[i - |queue0| + 1];
      }
    }
    if InBox(limitX, limitY, point) {
      LayeredStep(point, limitX, limitY, queue0, visited0);
    }
  }

  /** The frontier of the head lies one step further from point than the
      head: the nearer neighbours have been dequeued already. */
  lemma FrontierFurther(point: Pos, limitX: int, limitY: int, queue0: seq<Pos>, visited0: set<Pos>)
    requires |queue0| > 0
    requires Layered(point, limitX, limitY, queue0, visited0)
    ensures var f := Frontier(queue0[0], limitX, limitY, visited0, 4);
      forall i :: 0 <= i < |f| ==> Manhattan(point, f[i]) == Manhattan(point, queue0[0]) + 1
  {
    var q := queue0[0];
    var f := Frontier(q, limitX, limitY, visited0, 4);
    FrontierFacts(q, limitX, limitY, visited0);
    forall i | 0 <= i < |f| ensures Manhattan(point, f[i]) == Manhattan(point, q) + 1 {
      AdjacentDistance(point, q, f[i]);
    }
  }

  /** Dropping the head of a queue that spans distances k and k + 1 and
      appending cells at distance k + 1 keeps it ordered, within k and
      k + 1. */
  lemma {:induction false} OrderedStep(point: Pos, queue0: seq<Pos>, f: seq<Pos>)
    requires |queue0| > 0
    requires forall i, j :: 0 <= i <= j < |queue0| ==>
      Manhattan(point, queue0[i]) <= Manhattan(point, queue0[j]) <= Manhattan(point, queue0[i]) + 1
    requires forall i :: 0 <= i < |f| ==> Manhattan(point, f[i]) == Manhattan(point, queue0[0]) + 1
    ensures var queue := queue0[1..] + f;
      forall i, j :: 0 <= i <= j < |queue| ==>
        Manhattan(point, queue[i]) <= Manhattan(point, queue[j]) <= Manhattan(point, queue[i]) + 1
    ensures var queue := queue0[1..] + f;
      forall i :: 0 <= i < |queue| ==> Manhattan(point, queue0[0]) <= Manhattan(point, queue[i]) <= Manhattan(point, queue0[0]) + 1
  {
    var k := Manhattan(point, queue0[0]);
    var queue := queue0[1..] + f;
    var n := |queue0| - 1;
    assert forall i :: 0 <= i < n ==> queue[i] == queue0[i + 1];
    assert forall i :: n <= i < |queue| ==> queue[i] == f[i - n];
    assert forall i :: 1 <= i < |queue0| ==> k <= Manhattan(point, queue0[i]) <= k + 1;
  }

  /** After the step every cell of the box nearer than the new head has
      been dequeued. */
  lemma FrontStep(point: Pos, limitX: int, limitY: int, queue0: seq<Pos>, visited0: set<Pos>)
    requires InBox(limitX, limitY, point) && point in visited0 && |queue0| > 0
    requires Closed(limitX, limitY, queue0, visited0)
    requires Layered(point, limitX, limitY, queue0, visited0)
    ensures var f := Frontier(queue0[0], limitX, limitY, visited0, 4);
      var queue := queue0[1..] + f;
      |queue| > 0 ==> forall c :: InBox(limitX, limitY, c) && Manhattan(point, c) < Manhattan(point, queue[0]) ==>
        c in visited0 + Elems(f) && c !in queue
  {
    var k := Manhattan(point, queue0[0]);
    var f := Frontier(queue0[0], limitX, limitY, visited0, 4);
    var queue := queue0[1..] + f;
    FrontierFurther(point, limitX, limitY, queue0, visited0);
    assert forall i :: 0 <= i < |f| ==> Manhattan(point, f[i]) == k + 1 by {
      assert forall i :: 0 <= i < |Frontier(queue0[0], limitX, limitY, visited0, 4)| ==>
        Manhattan(point, Frontier(queue0[0], limitX, limitY, visited0, 4)[i]) == k + 1;
    }
    OrderedStep(point, queue0, f);
    if |queue| > 0 {
      assert Manhattan(point, queue[0]) <= k + 1;
      forall c | InBox(limitX, limitY, c) && Manhattan(point, c) < Manhattan(point, queue[0])
        ensures c in visited0 && c !in queue
      {
        if Manhattan(point, c) < k {
          assert c in visited0 && c !in queue0;
        } else if c != point {
          var b := Toward(point, limitX, limitY, c);
          assert b in visited0 && b !in queue0;
        }
      }
    }
  }

  lemma LayeredStep(point: Pos, limitX: int, limitY: int, queue0: seq<Pos>, visited0: set<Pos>)
    requires InBox(limitX, limitY, point) && point in visited0 && |queue0| > 0
    requires Closed(limitX, limitY, queue0, visited0)
    requires Layered(point, limitX, limitY, queue0, visited0)
    ensures var f := Frontier(queue0[0], limitX, limitY, visited0, 4);
      Layered(point, limitX, limitY, queue0[1..] + f, visited0 + Elems(f))
  {
    var f := Frontier(queue0[0], limitX, limitY, visited0, 4);
    FrontierFurther(point, limitX, limitY, queue0, visited0);
    assert forall i :: 0 <= i < |f| ==> Manhattan(point, f[i]) == Manhattan(point, queue0[0]) + 1 by {
      assert forall i :: 0 <= i < |Frontier(queue0[0], limitX, limitY, visited0, 4)| ==>
        Manhattan(point, Frontier(queue0[0], limitX, limitY, visited0, 4)[i]) == Manhattan(point, queue0[0]) + 1;
    }
    OrderedStep(point, queue0, f);
    FrontStep(point, limitX, limitY, queue0, visited0);
  }

  /** Each search step adds as many cells to the queue as to the visited set. */
  lemma {:induction false} StepCount(visited0: set<Pos>, f: seq<Pos>)
    requires Distinct(f) && forall i :: 0 <= i < |f| ==> f[i] !in visited0
    ensures |visited0 + Elems(f)| == |visited0| + |f|
    decreases |f|
  {
    if f != [] {
      var init, last := f[..|f| - 1], f[|f| - 1];
      forall i | 0 <= i < |init| ensures init[i] == f[i] && init[i] != last && init[i] !in visited0 {
        assert init[i] == f[i];
      }
      StepCount(visited0, init);
      assert f == init + [last];
      ElemsAppend(init, last);
      assert last !in visited0 + Elems(init);
      assert visited0 + Elems(f) == (visited0 + Elems(init)) + {last};
    }
  }

  lemma ElemsAppend(s: seq<Pos>, n: Pos)
    ensures Elems(s + [n]) == Elems(s) + {n}
  {
  }

  /** The part of the box the search has not reached shrinks with every
      enqueued cell. */
  lemma Shrinks(limitX: int, limitY: int, visited0: set<Pos>, f: seq<Pos>)
    requires f != [] && forall i :: 0 <= i < |f| ==> InBox(limitX, limitY, f[i]) && f[i] !in visited0
    ensures |Box(limitX, limitY) - (visited0 + Elems(f))| < |Box(limitX, limitY) - visited0|
  {
    BoxMembers(limitX, limitY);
    ProperSubsetSize(Box(limitX, limitY) - (visited0 + Elems(f)), Box(limitX, limitY) - visited0, f[0]);
  }

  /** One turn of the search loop on a blocked head: the state is kept, the
      count of dequeued cells stays in step, and the loop measure falls. */
  lemma SearchStep(grid: array2<Cell>, point: Pos, limitX: int, limitY: int, queue0: seq<Pos>, visited0: set<Pos>, steps0: nat)
    requires BfsState(grid, point, limitX, limitY, queue0, visited0)
    requires steps0 + |queue0| == |visited0|
    requires |queue0| > 0 && Blocked(grid, queue0[0])
    ensures var f := Frontier(queue0[0], limitX, limitY, visited0, 4);
      var queue, visited := queue0[1..] + f, visited0 + Elems(f);
      && BfsState(grid, point, limitX, limitY, queue, visited)
      && steps0 + 1 + |queue| == |visited|
      && (|Box(limitX, limitY) - visited| < |Box(limitX, limitY) - visited0| || (visited == visited0 && |queue| < |queue0|))
  {
    var f := Frontier(queue0[0], limitX, limitY, visited0, 4);
    BfsStep(grid, point, limitX, limitY, queue0, visited0);
    FrontierFacts(queue0[0], limitX, limitY, visited0);
    StepCount(visited0, f);
    if f != [] {
      Shrinks(limitX, limitY, visited0, f);
    } else {
      assert Elems(f) == {};
    }
  }

  /** The search loop with the limits of its neighbour test as parameters.
      `steps` counts the cells dequeued. When point lies inside the limits,
      a cell it returns is a nearest free cell of the box, `None` means every
      cell of the box is blocked, and at most limitX * limitY cells are
      dequeued. An error means the search reached a cell outside the array. */
  method Search(grid: array2<Cell>, point: Pos, limitX: int, limitY: int)
    returns (r: Result<Option<Pos>, Fault>, ghost steps: nat)
    ensures r.Ok? && r.value.Some? ==> Free(grid, r.value.value)
    ensures r.Ok? && r.value.Some? ==> r.value.value == point || InBox(limitX, limitY, r.value.value)
    ensures InBox(limitX, limitY, point) && r.Ok? && r.value.Some? ==>
      IsNearestFree(grid, point, limitX, limitY, r.value.value)
    ensures InBox(limitX, limitY, point) && r == Ok(None) ==>
      forall c :: InBox(limitX, limitY, c) ==> Blocked(grid, c)
    ensures r == Ok(None) ==> Blocked(grid, point)
    ensures r == Ok(None) ==> forall c :: Adjacent(point, c) && InBox(limitX, limitY, c) ==> Blocked(grid, c)
    ensures r.Err? ==> exists c :: (c == point || InBox(limitX, limitY, c)) && !InArray(grid, c)
    ensures InBox(limitX, limitY, point) ==> steps <= limitX * limitY
  {
    var queue := [point];
    var visited := {point};
    steps := 0;
    while |queue| > 0
      invariant BfsState(grid, point, limitX, limitY, queue, visited)
      invariant steps + |queue| == |visited|
      decreases |Box(limitX, limitY) - visited|, |queue|
    {
      ghost var queue0, visited0, steps0 := queue, visited, steps;
      var p := queue[0];
      queue := queue[1..];
      steps := steps + 1;
      if InBox(limitX, limitY, point) {
        StepBound(point, limitX, limitY, visited);
      }
      if !(0 <= p.y < grid.Length0 && 0 <= p.x < grid.Length1) {
        return Err(IndexOutOfRange), steps;
      }
      if grid[p.y, p.x] & OBSTACLE == 0 {
        return Ok(Some(p)), steps;
      }
      queue, visited := Expand(p, limitX, limitY, queue, visited);
      SearchStep(grid, point, limitX, limitY, queue0, visited0, steps0);
    }
    r := Ok(None);
    assert Closed(limitX, limitY, queue, visited);
    if InBox(limitX, limitY, point) {
      StepBound(point, limitX, limitY, visited);
      NoneMeansBlocked(grid, point, limitX, limitY, visited);
    }
  }

  lemma NoneMeansBlocked(grid: array2<Cell>, point: Pos, limitX: int, limitY: int, visited: set<Pos>)
    requires BfsState(grid, point, limitX, limitY, [], visited) && InBox(limitX, limitY, point)
    ensures forall c :: InBox(limitX, limitY, c) ==> Blocked(grid, c)
  {
    forall c | InBox(limitX, limitY, c) ensures Blocked(grid, c) {
      ClosedHoldsBox(point, limitX, limitY, visited, c, Manhattan(point, c));
    }
  }

  lemma StepBound(point: Pos, limitX: int, limitY: int, visited: set<Pos>)
    requires InBox(limitX, limitY, point)
    requires forall c :: c in visited ==> c == point || InBox(limitX, limitY, c)
    ensures |visited| <= limitX * limitY
  {
    BoxMembers(limitX, limitY);
    BoxSize(limitX, limitY);
    SubsetSize(visited, Box(limitX, limitY));
  }

  // ------------------------------------------------- as written, corrected

  /** FindNearestGoal as written: the neighbour test compares x with
      GetLength(0), the number of rows, and y with GetLength(1), the number
      of columns. On a square array this is the intended test. */
  method FindNearestGoal(grids: array2<Cell>, point: Pos) returns (r: Result<Option<Pos>, Fault>)
    ensures r.Ok? && r.value.Some? ==> Free(grids, r.value.value)
    ensures r.Ok? && r.value.Some? ==> r.value.value == point || InBox(grids.Length0, grids.Length1, r.value.value)
    ensures r == Ok(None) ==> Blocked(grids, point)
    ensures r == Ok(None) ==> forall c :: Adjacent(point, c) && InBox(grids.Length0, grids.Length1, c) ==> Blocked(grids, c)
    ensures r.Err? ==> exists c :: (c == point || InBox(grids.Length0, grids.Length1, c)) && !InArray(grids, c)
    ensures grids.Length0 == grids.Length1 && InArray(grids, point) ==> r.Ok?
    ensures grids.Length0 == grids.Length1 && InArray(grids, point) && r.Ok? && r.value.Some? ==>
      IsNearestFree(grids, point, grids.Length1, grids.Length0, r.value.value)
    ensures grids.Length0 == grids.Length1 && InArray(grids, point) && r == Ok(None) ==>
      forall c :: InArray(grids, c) ==> Blocked(grids, c)
  {
    var rows := grids.Length0;
    var cols := grids.Length1;
    ghost var steps;
    r, steps := Search(grids, point, rows, cols);
  }

  /** The search with the limits the right way round: x against the number
      of columns and y against the number of rows. It then never leaves the
      array, returns a nearest free cell when there is one, and dequeues at
      most rows * cols cells. */
  method FindNearestGoalFixed(grids: array2<Cell>, point: Pos) returns (r: Option<Pos>, ghost steps: nat)
    requires InArray(grids, point)
    ensures r.Some? ==> IsNearestFree(grids, point, grids.Length1, grids.Length0, r.value)
    ensures r.None? ==> forall c :: InArray(grids, c) ==> Blocked(grids, c)
    ensures steps <= grids.Length0 * grids.Length1
  {
    var rows := grids.Length0;
    var cols := grids.Length1;
    var found;
    found, steps := Search(grids, point, cols, rows);
    r := found.value;
  }

  /** The as-written search on the array of one row [Obstacle, Road] from
      (0, 0): the swapped test admits (0, 1), below the only row, and never
      admits the free cell (1, 0), so the search ends by reading outside the
      array. */
  method SwappedBoundsExample() returns (r: Result<Option<Pos>, Fault>)
    ensures r == Err(IndexOutOfRange)
  {
    var grids := new Cell[1, 2];
    grids[0, 0] := OBSTACLE;
    grids[0, 1] := ROAD;
    r := FindNearestGoal(grids, Pos(0, 0));
    assert Adjacent(Pos(0, 0), Pos(0, 1)) && InBox(grids.Length0, grids.Length1, Pos(0, 1));
    assert !InArray(grids, Pos(0, 1));
    assert forall p :: Free(grids, p) ==> p == Pos(1, 0);
    assert !InBox(grids.Length0, grids.Length1, Pos(1, 0));
    assert r.error.IndexOutOfRange?;
  }

  /** The corrected search on the same array finds the free cell (1, 0). */
  method FixedBoundsExample() returns (r: Option<Pos>)
    ensures r == Some(Pos(1, 0))
  {
    var grids := new Cell[1, 2];
    grids[0, 0] := OBSTACLE;
    grids[0, 1] := ROAD;
    ghost var steps;
    r, steps := FindNearestGoalFixed(grids, Pos(0, 0));
    assert Free(grids, Pos(1, 0));
    assert !Free(grids, Pos(0, 0));
  }
}
