/** What the Load of both map managers computes, as a value: the stored text
    is either empty, in which case a default-sized grid is generated, saved
    and kept, or it is parsed; the passable count is then taken. Both
    managers build their map record from the result. */
module MapLoad {
  import opened Common
  import opened RowMajor
  import opened PathMapData
  import opened MapText
  import Mediator

  /** The grid Load keeps, its dimensions and passable count, and the text
      stored after the Load. */
  datatype Loaded = Loaded(height: int, width: int, passableCount: int, grids: Grid, stored: string)

  /** The generated grid has the default dimensions (the generators are not
      part of this model; this is what Load relies on). */
  predicate FitsDefault(generated: Result<Grid, MapTextError>, defaultHeight: int, defaultWidth: int)
  {
    generated.Ok? ==> defaultHeight >= 0 && defaultWidth >= 0 && IsRect(generated.value, defaultHeight, defaultWidth)
  }

  /** Load with `rule` as Save's character rule: an empty stored text takes
      `generated` (the default grid, or the exception making it raised),
      saves it and keeps it; any other text is parsed and left as it is. */
  function LoadOf(rule: SaveRule, stored: string, defaultHeight: int, defaultWidth: int,
                  generated: Result<Grid, MapTextError>): (r: Result<Loaded, MapTextError>)
    requires |stored| == 0 ==> FitsDefault(generated, defaultHeight, defaultWidth)
    ensures r.Ok? ==> r.value.height >= 0 && r.value.width >= 0 && IsRect(r.value.grids, r.value.height, r.value.width)
  {
    if |stored| == 0 then
      match generated
      case Err(e) => Err(e)
      case Ok(g) =>
        match SaveText(rule, stored, defaultHeight, defaultWidth, g)
        case Err(e) => Err(e)
        case Ok(t) => Ok(Loaded(defaultHeight, defaultWidth, |RoadCells(g, defaultWidth)|, g, t))
    else
      match Parse(stored, defaultHeight, defaultWidth)
      case Err(e) => Err(e)
      case Ok(g) =>
        var width := Dimensions(Lines(stored), defaultHeight, defaultWidth).1;
        Ok(Loaded(|g|, width, |RoadCells(g, width)|, g, stored))
  }

  /** `new MapData(height, width, passableCount, start, goal, grids)`, the
      record Load is evidently meant to build. */
  function AsMapData(l: Loaded, start: seq<Pos>, goal: Pos): (m: MapData)
    ensures m.height == l.height && m.width == l.width && m.passableCount == l.passableCount
    ensures m.agents == start && m.goal == goal && m.grids == l.grids
  {
    MapData(l.height, l.width, l.passableCount, start, goal, l.grids)
  }

  /** `new MapData(width, height, passableCount, ...)`, the call as written:
      the constructor's first parameter is the height. */
  function AsMapDataAsWritten(l: Loaded, start: seq<Pos>, goal: Pos): (m: MapData)
    ensures m.height == l.width && m.width == l.height
  {
    MapData(l.width, l.height, l.passableCount, start, goal, l.grids)
  }

  /** Every map Load returns is one the mediator can be initialized with:
      the array has the recorded dimensions and the recorded passable count
      is the number of cells exactly Road. */
  lemma LoadedIsWellFormed(rule: SaveRule, stored: string, defaultHeight: int, defaultWidth: int,
                           generated: Result<Grid, MapTextError>, start: seq<Pos>, goal: Pos)
    requires |stored| == 0 ==> FitsDefault(generated, defaultHeight, defaultWidth)
    requires LoadOf(rule, stored, defaultHeight, defaultWidth, generated).Ok?
    ensures Mediator.WellFormed(AsMapData(LoadOf(rule, stored, defaultHeight, defaultWidth, generated).value, start, goal))
  {
  }

  /** The record as written is not well formed for any map that is not
      square: its height is the grid's width, so the mediator's row scan
      runs over the wrong number of rows. */
  lemma AsWrittenIllFormed(l: Loaded, start: seq<Pos>, goal: Pos)
    requires IsRect(l.grids, l.height, l.width) && l.height != l.width
    ensures !Mediator.WellFormed(AsMapDataAsWritten(l, start, goal))
  {
  }

  /** A one-row, two-column map stored as "..\n": as written, its record
      claims two rows of one cell. */
  lemma AsWrittenExample()
    ensures var l := LoadOf(ObstacleBit, "..\n", 5, 5, Err(NegativeSize));
      && l == Ok(Loaded(1, 2, 2, [[ROAD, ROAD]], "..\n"))
      && Mediator.WellFormed(AsMapData(l.value, [], Pos(0, 0)))
      && !Mediator.WellFormed(AsMapDataAsWritten(l.value, [], Pos(0, 0)))
  {
    assert "..\n" == ".." + "\n" + "";
    LinesCons("..", "");
    assert Lines("") == [];
    assert Lines("..\n") == [".."];
    var g: Grid := [[ROAD, ROAD]];
    assert ParseRow("..", 2) == [ROAD, ROAD];
    assert Dimensions([".."], 5, 5) == (1, 2) && !ShortOfCells([".."], 1, 2);
    var p := Parse("..\n", 5, 5);
    assert p.Ok? && |p.value| == 1 && p.value[0] == ParseRow("..", 2);
    assert p.value == [p.value[0]];
    assert p == Ok(g);
    assert RoadCellsUpTo(g, 2, 0, 1) == [0];
    assert RoadCellsUpTo(g, 2, 0, 2) == [0, 1];
    assert RoadCells(g, 2) == [0, 1];
  }

  /** The first Load of an empty store saves the generated grid; a Load of
      what it stored gives back the same dimensions and the grid as it was
      saved, and the grid itself when its cells are exactly Road or Obstacle. */
  lemma LoadAfterFirstLoad(rule: SaveRule, defaultHeight: int, defaultWidth: int, g: Grid,
                           generated: Result<Grid, MapTextError>)
    requires defaultHeight >= 1 && defaultWidth >= 1 && IsRect(g, defaultHeight, defaultWidth)
    ensures var first := LoadOf(rule, "", defaultHeight, defaultWidth, Ok(g));
      && first.Ok? && first.value.grids == g && |first.value.stored| > 0
      && var second := LoadOf(rule, first.value.stored, defaultHeight, defaultWidth, generated);
      && second.Ok?
      && second.value.height == defaultHeight && second.value.width == defaultWidth
      && second.value.grids == Reloaded(rule, g) && second.value.stored == first.value.stored
      && (IsPure(g) ==> second == first)
  {
    assert Lines("") == [];
    SaveThenParse(rule, "", defaultHeight, defaultWidth, g, defaultWidth);
    var t := SaveText(rule, "", defaultHeight, defaultWidth, g).value;
    var ts := Texts(rule, g);
    assert Lines(t) == ts && |ts| >= 1 && |ts[0]| == defaultWidth;
    assert Dimensions(Lines(t), defaultHeight, defaultWidth) == (defaultHeight, defaultWidth);
    assert t != "" by {
      assert Lines("") == [];
    }
    if IsPure(g) {
      ReloadedPure(rule, g);
    }
  }

  /** A stored text that is all newlines, with positive default height,
      fails: the default height is kept but there is no line to read. */
  lemma BlankTextFails(rule: SaveRule, defaultHeight: int, defaultWidth: int, generated: Result<Grid, MapTextError>)
    requires defaultHeight >= 1 && defaultWidth >= 0
    ensures LoadOf(rule, "\n", defaultHeight, defaultWidth, generated) == Err(IndexOutOfRange)
  {
    assert LineEnd("\n") == 0 && "\n"[1..] == [];
    assert Lines("\n") == [];
  }

  /** A default map of one row and no columns cannot be saved: the row's
      '\n' goes to index 1 of a one-character buffer. */
  lemma ZeroWidthSaveFails(rule: SaveRule)
    ensures LoadOf(rule, "", 1, 0, Ok([[]])) == Err(IndexOutOfRange)
  {
    assert Lines("") == [];
    assert Writes(Texts(rule, [[]]), 0, 1) == [(1, '\n')];
  }
}
