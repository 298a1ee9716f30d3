/** Visualizer.MapEditor: the editor's own map record and its map manager,
    which loads and saves the map text like the main one but writes '.'
    only for cells exactly Road and fills a default map with Road itself. */
module EditorMaps {
  import opened Common
  import opened RowMajor
  import opened MapText
  import opened MapLoad

  /** Visualizer.MapEditor.MapData. */
  datatype EditorMapData = EditorMapData(
    height: int,
    width: int,
    passableCount: int,
    player: Pos,
    enemy: Pos,
    grids: Grid)

  /** The MapData constructor: `start` is kept as Player and `goal` as
      Enemy, every other argument in the field of its name. */
  function NewMapData(height: int, width: int, passableCount: int, start: Pos, goal: Pos, grids: Grid): (m: EditorMapData)
    ensures m.player == start && m.enemy == goal
    ensures m.height == height && m.width == width && m.passableCount == passableCount && m.grids == grids
  {
    EditorMapData(height, width, passableCount, start, goal, grids)
  }

  /** The editor record of a Load, with the height first as the constructor
      declares. */
  function FromLoaded(l: Loaded, start: Pos, goal: Pos): (m: EditorMapData)
    ensures m.player == start && m.enemy == goal && m.passableCount == l.passableCount && m.grids == l.grids
    ensures IsRect(l.grids, l.height, l.width) ==> IsRect(m.grids, m.height, m.width)
  {
    NewMapData(l.height, l.width, l.passableCount, start, goal, l.grids)
  }

  /** `new MapData(width, height, ...)`, the call as written. */
  function FromLoadedAsWritten(l: Loaded, start: Pos, goal: Pos): (m: EditorMapData)
    ensures m.height == l.width && m.width == l.height && m.grids == l.grids
    ensures IsRect(l.grids, l.height, l.width) && l.height != l.width ==> !IsRect(m.grids, m.height, m.width)
  {
    NewMapData(l.width, l.height, l.passableCount, start, goal, l.grids)
  }

  /** The record Load builds records the grid's own number of rows; the
      call as written records the number of columns instead, which differs
      on every map that is not square. */
  lemma RecordedHeight(l: Loaded, start: Pos, goal: Pos)
    requires IsRect(l.grids, l.height, l.width)
    ensures FromLoaded(l, start, goal).height == |l.grids|
    ensures FromLoadedAsWritten(l, start, goal).height == |l.grids| <==> l.height == l.width
  {
  }

  /** GetDefaultMapData(height, width) as a value: an all-Road grid, or the
      OverflowException of `new GridType[height, width]` for a negative
      dimension. */
  function DefaultGrid(height: int, width: int): (r: Result<Grid, MapTextError>)
    ensures r.Err? <==> height < 0 || width < 0
    ensures r.Ok? ==> IsRect(r.value, height, width) && forall y, x :: 0 <= y < height && 0 <= x < width ==> r.value[y][x] == ROAD
  {
    if height < 0 || width < 0 then Err(NegativeSize) else Ok(AllRoad(height, width))
  }

  /** The default map passes the size check Load relies on. */
  lemma DefaultGridFits(height: int, width: int)
    ensures FitsDefault(DefaultGrid(height, width), height, width)
  {
  }

  /** The first Load of an empty store keeps the all-Road default map, and
      its passable count is height·width. */
  lemma DefaultMapCount(height: int, width: int)
    requires height >= 1 && width >= 1
    ensures var l := LoadOf(ExactRoad, "", height, width, DefaultGrid(height, width));
      && l.Ok? && l.value.grids == AllRoad(height, width) && l.value.passableCount == height * width
  {
    assert Lines("") == [];
    SaveThenParse(ExactRoad, "", height, width, AllRoad(height, width), width);
    AllRoadCount(height, width);
  }

  class MapDataManager {
    const defaultHeight: int
    const defaultWidth: int
    /** The player's and the enemy's cells of the map store. */
    const start: Pos
    const goal: Pos
    /** The stored map text, `mapData.Data`. */
    var data: string
    /** CurrentMapData: None until a Load succeeds. */
    var currentMapData: Option<EditorMapData>

    constructor(defaultHeight: int, defaultWidth: int, data: string, start: Pos, goal: Pos)
      ensures this.defaultHeight == defaultHeight && this.defaultWidth == defaultWidth
      ensures this.data == data && this.start == start && this.goal == goal && currentMapData == None
    {
      this.defaultHeight := defaultHeight;
      this.defaultWidth := defaultWidth;
      this.data := data;
      this.start := start;
      this.goal := goal;
      currentMapData := None;
    }

    /** GetDefaultMapData: a fresh height-by-width array with every cell
        Road. */
    method GetDefaultMapData(height: int, width: int) returns (r: Result<array2<Cell>, MapTextError>)
      ensures r.Err? ==> DefaultGrid(height, width) == Err(r.error)
      ensures r.Ok? ==> fresh(r.value) && DefaultGrid(height, width) == Ok(Snapshot(r.value))
    {
      if height < 0 || width < 0 {
        return Err(NegativeSize);
      }
      var made := new Cell[height, width];
      for y := 0 to height
        invariant forall i, j :: 0 <= i < y && 0 <= j < width ==> made[i, j] == ROAD
      {
        for x := 0 to width
          invariant forall i, j :: 0 <= i < y && 0 <= j < width ==> made[i, j] == ROAD
          invariant forall j :: 0 <= j < x ==> made[y, j] == ROAD
        {
          made[y, x] := ROAD;
        }
      }
      SnapshotEq(made, AllRoad(height, width));
      r := Ok(made);
    }

    /** Save(mapIds): the store gets the text of the array laid out with the
        stored dimensions, '.' exactly for the cells equal to Road; an
        exception leaves it as it was. */
    method Save(mapIds: array2<Cell>) returns (r: Result<(), MapTextError>)
      modifies this
      ensures var t := SaveText(ExactRoad, old(data), defaultHeight, defaultWidth, Snapshot(mapIds));
        && (r.Ok? <==> t.Ok?)
        && (r.Err? ==> r.error == t.error)
        && data == (if t.Ok? then t.value else old(data))
      ensures currentMapData == old(currentMapData)
    {
      var text := BuildSaveText(ExactRoad, data, defaultHeight, defaultWidth, mapIds);
      if text.Err? {
        return Err(text.error);
      }
      data := text.value;
      r := Ok(());
    }

    /** Load: the default map when nothing is stored, saved at once; the
        parsed store otherwise. The record is built with the height first,
        as the constructor declares. */
    method Load() returns (r: Result<EditorMapData, MapTextError>)
      modifies this
      ensures var l := LoadOf(ExactRoad, old(data), defaultHeight, defaultWidth, DefaultGrid(defaultHeight, defaultWidth));
        && (r.Ok? <==> l.Ok?)
        && (r.Ok? ==> r.value == FromLoaded(l.value, start, goal) && data == l.value.stored && currentMapData == Some(r.value))
        && (r.Err? ==> r.error == l.error && data == old(data) && currentMapData == old(currentMapData))
    {
      var mapIds: array2<Cell>;
      var width, height;
      if |data| == 0 {
        var made := GetDefaultMapData(defaultHeight, defaultWidth);
        if made.Err? {
          return Err(made.error);
        }
        mapIds := made.value;
        width, height := defaultWidth, defaultHeight;
        var saved := Save(mapIds);
        if saved.Err? {
          return Err(saved.error);
        }
      } else {
        var parsed := ParseMapData(data, defaultHeight, defaultWidth);
        if parsed.Err? {
          return Err(parsed.error);
        }
        mapIds := parsed.value;
        height, width := mapIds.Length0, mapIds.Length1;
      }
      var passableCount := CountPassable(mapIds);
      var md := NewMapData(height, width, passableCount, start, goal, Snapshot(mapIds));
      currentMapData := Some(md);
      r := Ok(md);
    }
  }
}
