/** Value types shared by every component: optional values and results, grid
    positions (Vector2Int), the cell flags of GridType, rectangular grids, and
    the duplicate test both start-position validators use. */
module Common {

  datatype Option<T> = None | Some(value: T)

  datatype Result<T, E> = Ok(value: T) | Err(error: E)

  /** A grid coordinate, x the column and y the row (Vector2Int). */
  datatype Pos = Pos(x: int, y: int) {
    function Plus(d: Pos): Pos { Pos(x + d.x, y + d.y) }
  }

  /** Squared Euclidean distance; the source never takes the square root. */
  function SqDist(p: Pos, q: Pos): (r: int)
    ensures r >= 0
    ensures r == 0 <==> p == q
  {
    (p.x - q.x) * (p.x - q.x) + (p.y - q.y) * (p.y - q.y)
  }

  /** GridType is a [Flags] enum over a 32-bit int. */
  type Cell = bv32

  const ROAD: Cell := 1
  const OBSTACLE: Cell := 2
  const PATH: Cell := 4
  const CIRCLE: Cell := 8

  /** The four moves, in the order of every direction array of the source:
      +x, +y, -x, -y. */
  const DIRECTIONS: seq<Pos> := [Pos(1, 0), Pos(0, 1), Pos(-1, 0), Pos(0, -1)]

  /** p and q are orthogonal neighbours: they differ by one in exactly one
      coordinate. */
  predicate Adjacent(p: Pos, q: Pos)
  {
    || (p.y == q.y && (p.x - q.x == 1 || q.x - p.x == 1))
    || (p.x == q.x && (p.y - q.y == 1 || q.y - p.y == 1))
  }

  /** The four moves reach exactly the orthogonal neighbours. */
  lemma AdjacentIffMove(p: Pos, q: Pos)
    ensures Adjacent(p, q) <==> exists i :: 0 <= i < |DIRECTIONS| && q == p.Plus(DIRECTIONS[i])
  {
    if Adjacent(p, q) {
      var d := Pos(q.x - p.x, q.y - p.y);
      var i := if d == Pos(1, 0) then 0 else if d == Pos(0, 1) then 1 else if d == Pos(-1, 0) then 2 else 3;
      assert q == p.Plus(DIRECTIONS[i]);
    }
  }

  /** A grid as rows of cells: g[y][x] is GridType[y, x]. */
  type Grid = seq<seq<Cell>>

  predicate IsRect(g: Grid, height: int, width: int)
  {
    |g| == height && forall y :: 0 <= y < |g| ==> |g[y]| == width
  }

  predicate InGrid(height: int, width: int, p: Pos)
  {
    0 <= p.x < width && 0 <= p.y < height
  }

  /** `(cell & GridType.Obstacle) != 0` */
  predicate HasObstacleBit(c: Cell)
  {
    c & OBSTACLE != 0
  }

  /** Every cell is exactly Road or exactly Obstacle: what a parsed map holds
      before any annotation bit is painted on it. */
  predicate IsPure(g: Grid)
  {
    forall y, x :: 0 <= y < |g| && 0 <= x < |g[y]| ==> g[y][x] == ROAD || g[y][x] == OBSTACLE
  }

  ghost predicate Distinct<T>(s: seq<T>)
  {
    forall i, j :: 0 <= i < j < |s| ==> s[i] != s[j]
  }

  /** The elements of s that repeat an earlier element, in order. As a
      multiset this is `s.GroupBy(p => p).SelectMany(g => g.Skip(1))`: every
      group contributes all of its members but the first. */
  function Repeats<T(==)>(s: seq<T>): seq<T>
  {
    if s == [] then []
    else
      var init, last := s[..|s| - 1], s[|s| - 1];
      Repeats(init) + (if last in init then [last] else [])
  }

  lemma {:induction false} RepeatsEmptyIffDistinct<T>(s: seq<T>)
    ensures Repeats(s) == [] <==> Distinct(s)
  {
    if s != [] {
      var init, last := s[..|s| - 1], s[|s| - 1];
      RepeatsEmptyIffDistinct(init);
      if Distinct(s) {
        assert forall i, j :: 0 <= i < j < |init| ==> init[i] == s[i] && init[j] == s[j];
        forall i | 0 <= i < |init| ensures init[i] != last {
          assert init[i] == s[i];
        }
      } else {
        var i, j :| 0 <= i < j < |s| && s[i] == s[j];
        if j == |s| - 1 {
          assert init[i] == last;
        } else {
          assert init[i] == init[j];
        }
      }
    }
  }

  /** `!agents.GroupBy(p => p).SelectMany(g => g.Skip(1)).Any()` */
  function IsUniqueStarts<T(==)>(agents: seq<T>): (unique: bool)
    ensures unique <==> Distinct(agents)
  {
    RepeatsEmptyIffDistinct(agents);
    |Repeats(agents)| == 0
  }

  /** Distinctness is a property of the multiset of elements: every element
      occurs at most once. */
  lemma {:induction false} DistinctIffSingleOccurrences<T>(s: seq<T>)
    ensures Distinct(s) <==> forall v :: multiset(s)[v] <= 1
  {
    if s == [] {
    } else {
      var init, last := s[..|s| - 1], s[|s| - 1];
      assert s == init + [last];
      DistinctIffSingleOccurrences(init);
      assert multiset(s) == multiset(init) + multiset{last};
      if Distinct(s) {
        assert Distinct(init) by {
          assert forall i, j :: 0 <= i < j < |init| ==> init[i] == s[i] && init[j] == s[j];
        }
        forall i | 0 <= i < |init| ensures init[i] != last {
          assert init[i] == s[i];
        }
        assert multiset(init)[last] == 0;
      } else {
        var i, j :| 0 <= i < j < |s| && s[i] == s[j];
        if j == |s| - 1 {
          assert init[i] == last;
          assert multiset(init)[last] >= 1;
          assert multiset(s)[last] >= 2;
        } else {
          assert !Distinct(init) by { assert init[i] == init[j]; }
          var v :| multiset(init)[v] > 1;
          assert multiset(s)[v] > 1;
        }
      }
    }
  }

  /** The cell values of the array, row by row. */
  function Snapshot(grids: array2<Cell>): (s: Grid)
    reads grids
    ensures IsRect(s, grids.Length0, grids.Length1)
    ensures forall y, x :: 0 <= y < grids.Length0 && 0 <= x < grids.Length1 ==> s[y][x] == grids[y, x]
  {
    seq(grids.Length0, y requires 0 <= y < grids.Length0 reads grids =>
      seq(grids.Length1, x requires 0 <= x < grids.Length1 reads grids => grids[y, x]))
  }

  /** Two arrays' worth of cells agree when every cell does. */
  lemma SnapshotEq(grids: array2<Cell>, g: Grid)
    requires IsRect(g, grids.Length0, grids.Length1)
    requires forall y, x :: 0 <= y < grids.Length0 && 0 <= x < grids.Length1 ==> g[y][x] == grids[y, x]
    ensures Snapshot(grids) == g
  {
    var s := Snapshot(grids);
    forall y | 0 <= y < grids.Length0
      ensures s[y] == g[y]
    {
      assert forall x :: 0 <= x < grids.Length1 ==> s[y][x] == g[y][x];
    }
  }
}
