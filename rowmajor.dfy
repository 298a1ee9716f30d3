/** Row-major numbering of grid cells: flat index y * width + x, and the list of
    the flat indices of the cells that are exactly Road, in scan order. Both
    the node numbering of the mediator and the passable count of the map
    loaders are defined by this list. */
module RowMajor {
  import opened Common

  function Flat(width: int, p: Pos): int
  {
    p.y * width + p.x
  }

  /** The cell a flat index denotes: `new Vector2Int(index % width, index / width)`. */
  function PosOfFlat(width: int, f: int): Pos
    requires width > 0
  {
    Pos(f % width, f / width)
  }

  lemma {:induction false} MulMono(a: int, b: int, w: int)
    ensures a <= b && w >= 0 ==> a * w <= b * w
    decreases if a <= b then b - a else 0
  {
    if a < b && w >= 0 {
      MulMono(a, b - 1, w);
      assert b * w == (b - 1) * w + w;
    }
  }

  lemma DivModOfFlat(y: int, x: int, w: int)
    requires w > 0 && 0 <= x < w
    ensures (y * w + x) / w == y && (y * w + x) % w == x
  {
    var f := y * w + x;
    var q, r := f / w, f % w;
    assert f == q * w + r;
    MulMono(y + 1, q, w);
    MulMono(q, y - 1, w);
    assert (y + 1) * w == y * w + w;
    assert (y - 1) * w == y * w - w;
  }

  lemma FlatRoundTrip(w: int, p: Pos)
    requires w > 0 && 0 <= p.x < w
    ensures PosOfFlat(w, Flat(w, p)) == p
  {
    DivModOfFlat(p.y, p.x, w);
  }

  /** Every flat index in [0, h * w) denotes a cell of an h-by-w grid. */
  lemma PosOfFlatInGrid(h: int, w: int, f: int)
    requires w > 0 && 0 <= f < h * w
    ensures InGrid(h, w, PosOfFlat(w, f)) && Flat(w, PosOfFlat(w, f)) == f
  {
    var q, r := f / w, f % w;
    assert f == q * w + r;
    MulMono(h, q, w);
    MulMono(q, -1, w);
    assert -1 * w == -w;
  }

  /** The position just after (y, x) in row-major order, as a pair of loop
      counters: x runs to width, then the next row starts. */
  ghost predicate ScanPoint(g: Grid, w: int, y: int, x: int)
  {
    w >= 0 && IsRect(g, |g|, w) && 0 <= y <= |g| && 0 <= x <= w && (y == |g| ==> x == 0)
  }

  /** Flat indices of the Road cells that a row-major scan visits before
      reaching (y, x). */
  function RoadCellsUpTo(g: Grid, w: int, y: int, x: int): seq<int>
    requires ScanPoint(g, w, y, x)
    decreases y, x
  {
    if x == 0 then
      if y == 0 then [] else RoadCellsUpTo(g, w, y - 1, w)
    else
      RoadCellsUpTo(g, w, y, x - 1) + (if g[y][x - 1] == ROAD then [y * w + x - 1] else [])
  }

  /** All Road cells of the grid in row-major order: dense node n is the
      n-th of them. */
  function RoadCells(g: Grid, w: int): seq<int>
    requires w >= 0 && IsRect(g, |g|, w)
  {
    RoadCellsUpTo(g, w, |g|, 0)
  }

  ghost predicate StrictlyIncreasing(s: seq<int>)
  {
    forall i, j :: 0 <= i < j < |s| ==> s[i] < s[j]
  }

  /** The scan collects strictly increasing flat indices, each below the flat
      index of the scan point. */
  lemma {:induction false} RoadCellsUpToSorted(g: Grid, w: int, y: int, x: int)
    requires ScanPoint(g, w, y, x)
    ensures var s := RoadCellsUpTo(g, w, y, x);
      StrictlyIncreasing(s) && forall i :: 0 <= i < |s| ==> 0 <= s[i] < y * w + x
    decreases y, x
  {
    if x == 0 {
      if y > 0 {
        RoadCellsUpToSorted(g, w, y - 1, w);
        assert (y - 1) * w + w == y * w;
      }
    } else {
      RoadCellsUpToSorted(g, w, y, x - 1);
      MulMono(0, y, w);
      var p, f := RoadCellsUpTo(g, w, y, x - 1), y * w + x - 1;
      if g[y][x - 1] == ROAD {
        AppendSorted(p, f);
        assert RoadCellsUpTo(g, w, y, x) == p + [f];
      } else {
        assert RoadCellsUpTo(g, w, y, x) == p;
      }
    }
  }

  lemma AppendSorted(s: seq<int>, f: int)
    requires StrictlyIncreasing(s) && forall i :: 0 <= i < |s| ==> 0 <= s[i] < f
    requires f >= 0
    ensures StrictlyIncreasing(s + [f]) && forall i :: 0 <= i < |s + [f]| ==> 0 <= (s + [f])[i] < f + 1
  {
  }

  /** f is the flat index of a grid cell that is exactly Road. */
  ghost predicate IsRoadFlat(g: Grid, w: int, f: int)
  {
    w > 0 && IsRect(g, |g|, w) && InGrid(|g|, w, PosOfFlat(w, f)) && g[f / w][f % w] == ROAD
  }

  /** The cell a Road flat index denotes is that Road cell. */
  lemma RoadFlatCell(g: Grid, w: int, f: int)
    requires IsRoadFlat(g, w, f)
    ensures InGrid(|g|, w, PosOfFlat(w, f)) && Flat(w, PosOfFlat(w, f)) == f
    ensures g[PosOfFlat(w, f).y][PosOfFlat(w, f).x] == ROAD
  {
    assert f == (f / w) * w + f % w;
  }

  /** Every collected flat index denotes a cell of the grid that is exactly Road. */
  lemma {:induction false} RoadCellsUpToAreRoads(g: Grid, w: int, y: int, x: int)
    requires ScanPoint(g, w, y, x)
    ensures forall i :: 0 <= i < |RoadCellsUpTo(g, w, y, x)| ==> IsRoadFlat(g, w, RoadCellsUpTo(g, w, y, x)[i])
    decreases y, x
  {
    if x == 0 {
      if y > 0 {
        RoadCellsUpToAreRoads(g, w, y - 1, w);
      }
    } else {
      RoadCellsUpToAreRoads(g, w, y, x - 1);
      var p, s := RoadCellsUpTo(g, w, y, x - 1), RoadCellsUpTo(g, w, y, x);
      if g[y][x - 1] == ROAD {
        DivModOfFlat(y, x - 1, w);
        assert s == p + [y * w + x - 1];
      } else {
        assert s == p;
      }
    }
  }

  /** Every Road cell that the scan has passed has been collected. */
  lemma {:induction false} RoadCellsUpToComplete(g: Grid, w: int, y: int, x: int, yy: int, xx: int)
    requires ScanPoint(g, w, y, x)
    requires 0 <= yy < |g| && 0 <= xx < w && g[yy][xx] == ROAD
    requires yy < y || (yy == y && xx < x)
    ensures yy * w + xx in RoadCellsUpTo(g, w, y, x)
    decreases y, x
  {
    if x == 0 {
      RoadCellsUpToComplete(g, w, y - 1, w, yy, xx);
    } else if yy == y && xx == x - 1 {
    } else {
      RoadCellsUpToComplete(g, w, y, x - 1, yy, xx);
    }
  }

  /** The scan's lists grow by appending: an earlier scan point's list is a
      prefix of a later one's. */
  lemma {:induction false} RoadCellsUpToPrefix(g: Grid, w: int, y: int, x: int, y2: int, x2: int)
    requires ScanPoint(g, w, y, x) && ScanPoint(g, w, y2, x2)
    requires y < y2 || (y == y2 && x <= x2)
    ensures RoadCellsUpTo(g, w, y, x) <= RoadCellsUpTo(g, w, y2, x2)
    decreases y2, x2
  {
    if y == y2 && x == x2 {
    } else if x2 == 0 {
      RoadCellsUpToPrefix(g, w, y, x, y2 - 1, w);
    } else {
      RoadCellsUpToPrefix(g, w, y, x, y2, x2 - 1);
    }
  }

  /** The dense node of every Road cell: its flat index occurs in RoadCells
      and the scan reaches it with exactly that many Road cells behind it. */
  lemma RoadCellIndex(g: Grid, w: int, y: int, x: int)
    requires w >= 0 && IsRect(g, |g|, w) && 0 <= y < |g| && 0 <= x < w && g[y][x] == ROAD
    ensures var c := |RoadCellsUpTo(g, w, y, x)|;
      c < |RoadCells(g, w)| && RoadCells(g, w)[c] == y * w + x
  {
    var next := if x + 1 < w then (y, x + 1) else (y + 1, 0);
    assert ScanPoint(g, w, next.0, next.1);
    assert RoadCellsUpTo(g, w, y, x + 1) == RoadCellsUpTo(g, w, y, x) + [y * w + x];
    if x + 1 == w {
      assert RoadCellsUpTo(g, w, y + 1, 0) == RoadCellsUpTo(g, w, y, w);
    }
    RoadCellsUpToPrefix(g, w, next.0, next.1, |g|, 0);
  }
}
