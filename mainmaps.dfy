/** MainModule.MapDataManager: loads the map the path search runs on from
    the stored text, or generates, saves and keeps a default one when
    nothing is stored yet. Save writes '*' for every cell with the Obstacle
    bit. */
module MainMaps {
  import opened Common
  import opened PathMapData
  import opened MapText
  import opened MapLoad

  class MapDataManager {
    const defaultHeight: int
    const defaultWidth: int
    /** The agents' start cells and the goal cell of the map store. */
    const start: seq<Pos>
    const goal: Pos
    /** The stored map text, `mapData.Data`. */
    var data: string
    /** CurrentMapData: None until a Load succeeds. */
    var currentMapData: Option<MapData>

    constructor(defaultHeight: int, defaultWidth: int, data: string, start: seq<Pos>, goal: Pos)
      ensures this.defaultHeight == defaultHeight && this.defaultWidth == defaultWidth
      ensures this.data == data && this.start == start && this.goal == goal && currentMapData == None
    {
      this.defaultHeight := defaultHeight;
      this.defaultWidth := defaultWidth;
      this.data := data;
      this.start := start;
      this.goal := goal;
      currentMapData := None;
    }

    /** Save(mapIds): the store gets the text of the array laid out with the
        stored dimensions; an exception leaves it as it was. */
    method Save(mapIds: array2<Cell>) returns (r: Result<(), MapTextError>)
      modifies this
      ensures var t := SaveText(ObstacleBit, old(data), defaultHeight, defaultWidth, Snapshot(mapIds));
        && (r.Ok? <==> t.Ok?)
        && (r.Err? ==> r.error == t.error)
        && data == (if t.Ok? then t.value else old(data))
      ensures currentMapData == old(currentMapData)
    {
      var text := BuildSaveText(ObstacleBit, data, defaultHeight, defaultWidth, mapIds);
      if text.Err? {
        return Err(text.error);
      }
      data := text.value;
      r := Ok(());
    }

    /** Load, with `generated` the grid the configured maze generator returns
        for the default dimensions (only read when nothing is stored). The
        record is built with the height first, as the constructor declares. */
    method Load(generated: array2<Cell>) returns (r: Result<MapData, MapTextError>)
      requires |data| == 0 ==> generated.Length0 == defaultHeight && generated.Length1 == defaultWidth
      modifies this
      ensures var l := LoadOf(ObstacleBit, old(data), defaultHeight, defaultWidth, Ok(Snapshot(generated)));
        && (r.Ok? <==> l.Ok?)
        && (r.Ok? ==> r.value == AsMapData(l.value, start, goal) && data == l.value.stored && currentMapData == Some(r.value))
        && (r.Err? ==> r.error == l.error && data == old(data) && currentMapData == old(currentMapData))
    {
      var mapIds: array2<Cell>;
      var width, height;
      if |data| == 0 {
        mapIds := generated;
        width, height := defaultWidth, defaultHeight;
        var saved := Save(mapIds);
        if saved.Err? {
          return Err(saved.error);
        }
      } else {
        var parsed := ParseMapData(data, defaultHeight, defaultWidth);
        if parsed.Err? {
          return Err(parsed.error);
        }
        mapIds := parsed.value;
        height, width := mapIds.Length0, mapIds.Length1;
      }
      var passableCount := CountPassable(mapIds);
      var md := MapData(height, width, passableCount, start, goal, Snapshot(mapIds));
      currentMapData := Some(md);
      r := Ok(md);
    }
  }
}
