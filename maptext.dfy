/** The text format both MapDataManager copies keep a map in: one line per
    grid row, '.' for a Road cell, '*' for any other, each row followed by
    '\n'. ParseMapData reads it into a cell array, Save writes a cell array
    into it, and Load counts the Road cells of what it read. */
module MapText {
  import opened Common
  import opened RowMajor

  /** The exceptions the two array allocations and the index operations can
      raise: a negative dimension (OverflowException) or an index outside a
      string, an array or the line list (IndexOutOfRangeException). */
  datatype MapTextError = NegativeSize | IndexOutOfRange

  // ---------------------------------------------------------------------
  // Splitting the stored text into lines

  /** The index of the first '\n' of s, or |s| when there is none. */
  function LineEnd(s: string): (k: nat)
    ensures k <= |s|
    ensures forall i :: 0 <= i < k ==> s[i] != '\n'
    ensures k < |s| ==> s[k] == '\n'
  {
    if s == [] || s[0] == '\n' then 0 else 1 + LineEnd(s[1..])
  }

  /** `Split('\n', StringSplitOptions.RemoveEmptyEntries)`: the runs of
      characters between the '\n's, in order, with the empty runs dropped. */
  function Lines(s: string): (ls: seq<string>)
    ensures forall i :: 0 <= i < |ls| ==> ls[i] != [] && '\n' !in ls[i]
    decreases |s|
  {
    if s == [] then []
    else
      var k := LineEnd(s);
      var rest := if k < |s| then s[k + 1..] else [];
      assert '\n' !in s[..k] by {
        forall i | 0 <= i < k ensures s[..k][i] != '\n' {
          assert s[..k][i] == s[i];
        }
      }
      (if k == 0 then [] else [s[..k]]) + Lines(rest)
  }

  /** The first '\n' after a line without one is the one that ends it. */
  lemma {:induction false} LineEndAfter(t: string, rest: string)
    requires '\n' !in t
    ensures LineEnd(t + "\n" + rest) == |t|
    decreases |t|
  {
    if t != [] {
      assert (t + "\n" + rest)[1..] == t[1..] + "\n" + rest;
      assert t[0] in t;
      assert forall c :: c in t[1..] ==> c in t;
      LineEndAfter(t[1..], rest);
    }
  }

  /** Splitting a non-empty line followed by '\n' and more text yields that
      line and then the lines of the rest. */
  lemma LinesCons(t: string, rest: string)
    requires t != [] && '\n' !in t
    ensures Lines(t + "\n" + rest) == [t] + Lines(rest)
  {
    var s := t + "\n" + rest;
    LineEndAfter(t, rest);
    assert s[..|t|] == t;
    assert s[|t| + 1..] == rest;
  }

  /** The dimensions ParseMapData and Save read off the stored lines: the
      number of lines and the length of the first, or the configured
      defaults when there is no line. */
  function Dimensions(lines: seq<string>, defaultHeight: int, defaultWidth: int): (int, int)
  {
    if |lines| != 0 then (|lines|, |lines[0]|) else (defaultHeight, defaultWidth)
  }

  // ---------------------------------------------------------------------
  // Parsing

  /** `h[j] == '.' ? GridType.Road : GridType.Obstacle` */
  function ParseCell(c: char): (v: Cell)
    ensures v == ROAD || v == OBSTACLE
    ensures v == ROAD <==> c == '.'
  {
    if c == '.' then ROAD else OBSTACLE
  }

  /** The first `width` characters of a line as cells. */
  function ParseRow(line: string, width: nat): (row: seq<Cell>)
    requires width <= |line|
    ensures |row| == width && forall j :: 0 <= j < width ==> row[j] == ParseCell(line[j])
  {
    seq(width, j requires 0 <= j < width => ParseCell(line[j]))
  }

  /** Some row below `height` is missing or shorter than `width`: reading it
      raises IndexOutOfRangeException. */
  predicate ShortOfCells(lines: seq<string>, height: int, width: int)
  {
    height > |lines| || exists i :: 0 <= i < height && i < |lines| && |lines[i]| < width
  }

  /** What ParseMapData returns for the stored text: a `height` by `width`
      array of parsed characters, where the dimensions are the ones the text
      gives; or the exception it raises first. */
  function Parse(text: string, defaultHeight: int, defaultWidth: int): (r: Result<Grid, MapTextError>)
    ensures var (height, width) := Dimensions(Lines(text), defaultHeight, defaultWidth);
      && (r == Err(NegativeSize) <==> height < 0 || width < 0)
      && (r.Ok? ==> height >= 0 && width >= 0 && IsRect(r.value, height, width))
  {
    var lines := Lines(text);
    var (height, width) := Dimensions(lines, defaultHeight, defaultWidth);
    if height < 0 || width < 0 then Err(NegativeSize)
    else if ShortOfCells(lines, height, width) then Err(IndexOutOfRange)
    else
      assert forall i :: 0 <= i < height ==> i < |lines| && |lines[i]| >= width;
      Ok(seq(height, i requires 0 <= i < height => ParseRow(lines[i], width)))
  }

  /** With at least one stored line, parsing fails exactly when some line is
      shorter than the first. */
  lemma ParseFailsOnShortLine(text: string, defaultHeight: int, defaultWidth: int)
    requires Lines(text) != []
    ensures Parse(text, defaultHeight, defaultWidth).Ok? <==>
      forall k :: 0 <= k < |Lines(text)| ==> |Lines(text)[k]| >= |Lines(text)[0]|
  {
    var lines := Lines(text);
    if forall k :: 0 <= k < |lines| ==> |lines[k]| >= |lines[0]| {
      assert !ShortOfCells(lines, |lines|, |lines[0]|);
    } else {
      var k :| 0 <= k < |lines| && |lines[k]| < |lines[0]|;
      assert ShortOfCells(lines, |lines|, |lines[0]|);
    }
  }

  /** Parsed cell (i, j) is Road exactly when character j of line i is '.',
      and Obstacle otherwise; the grid has one row per line and the width of
      the first line, so longer lines are cut to it. */
  lemma ParsedCell(text: string, defaultHeight: int, defaultWidth: int, i: int, j: int)
    requires Lines(text) != [] && Parse(text, defaultHeight, defaultWidth).Ok?
    requires 0 <= i < |Lines(text)| && 0 <= j < |Lines(text)[0]|
    ensures IsRect(Parse(text, defaultHeight, defaultWidth).value, |Lines(text)|, |Lines(text)[0]|)
    ensures j < |Lines(text)[i]|
    ensures Parse(text, defaultHeight, defaultWidth).value[i][j] == ROAD <==> Lines(text)[i][j] == '.'
    ensures Parse(text, defaultHeight, defaultWidth).value[i][j] != ROAD ==> Parse(text, defaultHeight, defaultWidth).value[i][j] == OBSTACLE
  {
    var lines := Lines(text);
    assert !ShortOfCells(lines, |lines|, |lines[0]|);
  }

  /** ParseMapData: fills a fresh array row by row, as the source does. */
  method ParseMapData(stored: string, defaultHeight: int, defaultWidth: int) returns (r: Result<array2<Cell>, MapTextError>)
    ensures r.Err? ==> Parse(stored, defaultHeight, defaultWidth) == Err(r.error)
    ensures r.Ok? ==> fresh(r.value) && Parse(stored, defaultHeight, defaultWidth) == Ok(Snapshot(r.value))
    ensures r.Ok? ==> (r.value.Length0, r.value.Length1) == Dimensions(Lines(stored), defaultHeight, defaultWidth)
  {
    var data := Lines(stored);
    var width := if |data| != 0 then |data[0]| else defaultWidth;
    var height := if |data| != 0 then |data| else defaultHeight;
    if height < 0 || width < 0 {
      return Err(NegativeSize);
    }
    var mapIds := new Cell[height, width];
    for i := 0 to height
      invariant i <= |data| && forall y :: 0 <= y < i ==> |data[y]| >= width
      invariant forall y, x :: 0 <= y < i && 0 <= x < width ==> mapIds[y, x] == ParseCell(data[y][x])
    {
      if i >= |data| {
        assert ShortOfCells(data, height, width);
        return Err(IndexOutOfRange);
      }
      var h := data[i];
      for j := 0 to width
        invariant j <= |h|
        invariant forall y, x :: 0 <= y < i && 0 <= x < width ==> mapIds[y, x] == ParseCell(data[y][x])
        invariant forall x :: 0 <= x < j ==> mapIds[i, x] == ParseCell(h[x])
      {
        if j >= |h| {
          assert ShortOfCells(data, height, width);
          return Err(IndexOutOfRange);
        }
        mapIds[i, j] := ParseCell(h[j]);
      }
    }
    assert !ShortOfCells(data, height, width);
    var g := seq(height, i requires 0 <= i < height => ParseRow(data[i], width));
    SnapshotEq(mapIds, g);
    r := Ok(mapIds);
  }

  // ---------------------------------------------------------------------
  // Saving

  /** Which test Save applies to a cell: MainModule writes '*' for every
      cell with the Obstacle bit; the editor writes '.' only for a cell that
      is exactly Road. */
  datatype SaveRule = ObstacleBit | ExactRoad

  function SaveChar(rule: SaveRule, v: Cell): (c: char)
    ensures c == '.' || c == '*'
  {
    match rule
    case ObstacleBit => if v & OBSTACLE != 0 then '*' else '.'
    case ExactRoad => if v == ROAD then '.' else '*'
  }

  /** A row as the characters Save writes for it. */
  function RowText(rule: SaveRule, row: seq<Cell>): (t: string)
    ensures |t| == |row| && forall j :: 0 <= j < |row| ==> t[j] == SaveChar(rule, row[j])
  {
    seq(|row|, j requires 0 <= j < |row| => SaveChar(rule, row[j]))
  }

  /** The characters of every row. */
  function Texts(rule: SaveRule, g: Grid): (ts: seq<string>)
    ensures |ts| == |g| && forall i :: 0 <= i < |g| ==> ts[i] == RowText(rule, g[i])
  {
    seq(|g|, i requires 0 <= i < |g| => RowText(rule, g[i]))
  }

  /** Row texts of `width` characters, none of them '\n'. */
  ghost predicate IsRowTexts(ts: seq<string>, width: int)
  {
    forall i :: 0 <= i < |ts| ==> |ts[i]| == width && '\n' !in ts[i]
  }

  lemma TextsAreRowTexts(rule: SaveRule, g: Grid, width: int)
    requires IsRect(g, |g|, width)
    ensures IsRowTexts(Texts(rule, g), width)
  {
    var ts := Texts(rule, g);
    forall i | 0 <= i < |ts| ensures '\n' !in ts[i] {
      forall j | 0 <= j < |ts[i]| ensures ts[i][j] != '\n' {
        assert ts[i][j] == SaveChar(rule, g[i][j]);
      }
    }
  }

  /** The text a well-formed Save produces: every row followed by '\n'. */
  function Layout(ts: seq<string>): string
  {
    if ts == [] then [] else Layout(ts[..|ts| - 1]) + ts[|ts| - 1] + "\n"
  }

  /** Where row i starts in a saved text: i·width + i, the `i * width + j + i`
      of the Save loop at j = 0. */
  function Offset(i: int, width: int): int
  {
    i * width + i
  }

  lemma OffsetStep(i: int, width: int)
    ensures Offset(i + 1, width) == Offset(i, width) + width + 1
    ensures Offset(0, width) == 0
  {
  }

  lemma {:induction false} OffsetMono(i: nat, k: nat, width: nat)
    requires i <= k
    ensures Offset(i, width) <= Offset(k, width)
    decreases k - i
  {
    if i < k {
      OffsetStep(i, width);
      OffsetMono(i + 1, k, width);
    }
  }

  lemma {:induction false} LayoutLength(ts: seq<string>, width: int)
    requires IsRowTexts(ts, width)
    ensures |Layout(ts)| == Offset(|ts|, width)
  {
    OffsetStep(|ts| - 1, width);
    if ts != [] {
      LayoutLength(ts[..|ts| - 1], width);
    }
  }

  lemma {:induction false} LayoutConcat(a: seq<string>, b: seq<string>)
    ensures Layout(a + b) == Layout(a) + Layout(b)
    decreases |b|
  {
    if b == [] {
      assert a + b == a;
    } else {
      assert (a + b)[..|a + b| - 1] == a + b[..|b| - 1];
      LayoutConcat(a, b[..|b| - 1]);
    }
  }

  /** The layout Save promises: w·h + h characters, row i at offsets
      i·w + i to i·w + i + w - 1, and '\n' at offset i·w + i + w. */
  lemma {:induction false} LayoutAt(ts: seq<string>, width: nat, i: nat, j: nat)
    requires IsRowTexts(ts, width) && 0 <= i < |ts| && 0 <= j <= width
    ensures |Layout(ts)| == Offset(|ts|, width)
    ensures Offset(i, width) + j < |Layout(ts)|
      && Layout(ts)[Offset(i, width) + j] == if j < width then ts[i][j] else '\n'
    decreases |ts|
  {
    LayoutLength(ts, width);
    var init := ts[..|ts| - 1];
    LayoutLength(init, width);
    assert Layout(ts) == Layout(init) + ts[|ts| - 1] + "\n";
    if i < |ts| - 1 {
      LayoutAt(init, width, i, j);
      OffsetStep(i, width);
      OffsetMono(i + 1, |ts| - 1, width);
    } else {
      OffsetStep(i, width);
      assert Offset(i, width) == |Layout(init)|;
    }
  }

  /** Splitting a saved text into lines gives back the rows, as long as no
      row is empty. */
  lemma {:induction false} LinesOfLayout(ts: seq<string>, width: int)
    requires IsRowTexts(ts, width) && width >= 1
    ensures Lines(Layout(ts)) == ts
    decreases |ts|
  {
    if ts != [] {
      var rest := ts[1..];
      assert ts == [ts[0]] + rest;
      LayoutConcat([ts[0]], rest);
      assert [ts[0]][..0] == [];
      assert Layout([ts[0]]) == ts[0] + "\n";
      LinesCons(ts[0], Layout(rest));
      LinesOfLayout(rest, width);
    }
  }

  /** One write of Save: a character at an index of the buffer. */
  type Write = (int, char)

  /** The writes of one row's inner loop for the row starting at offset o:
      character j goes to index o + j. */
  function CellWrites(t: string, o: int): (ws: seq<Write>)
    ensures |ws| == |t| && forall j :: 0 <= j < |t| ==> ws[j] == (o + j, t[j])
  {
    seq(|t|, j requires 0 <= j < |t| => (o + j, t[j]))
  }

  /** `index` after the inner loop of a row of `cols` cells at offset o: 0
      for an empty row, else the last index it wrote. */
  function LastIndex(cols: int, o: int): int
  {
    if cols <= 0 then 0 else o + cols - 1
  }

  /** Every write of Save for one row, the '\n' at `index + 1` last. */
  function RowWrites(t: string, o: int): seq<Write>
  {
    CellWrites(t, o) + [(LastIndex(|t|, o) + 1, '\n')]
  }

  /** Every write of Save for the first n rows, in order. */
  function Writes(ts: seq<string>, width: int, n: nat): seq<Write>
    requires n <= |ts|
  {
    if n == 0 then [] else Writes(ts, width, n - 1) + RowWrites(ts[n - 1], Offset(n - 1, width))
  }

  /** One write on the buffer so far: a write outside it raises
      IndexOutOfRangeException, and after an exception nothing happens. */
  function Step(r: Result<seq<char>, MapTextError>, w: Write): (r': Result<seq<char>, MapTextError>)
    ensures r'.Ok? ==> r.Ok? && |r'.value| == |r.value|
  {
    match r
    case Err(e) => Err(e)
    case Ok(b) => if 0 <= w.0 < |b| then Ok(b[w.0 := w.1]) else Err(IndexOutOfRange)
  }

  /** The writes applied in order. */
  function Apply(buf: seq<char>, ws: seq<Write>): (r: Result<seq<char>, MapTextError>)
    ensures r.Ok? ==> |r.value| == |buf|
    ensures r.Err? ==> r.error == IndexOutOfRange
  {
    if ws == [] then Ok(buf) else Step(Apply(buf, ws[..|ws| - 1]), ws[|ws| - 1])
  }

  /** The writes b applied after a sequence that ended with r. */
  function Then(r: Result<seq<char>, MapTextError>, b: seq<Write>): Result<seq<char>, MapTextError>
  {
    match r
    case Err(e) => Err(e)
    case Ok(m) => Apply(m, b)
  }

  /** `new char[n]` followed by `Array.Fill(str, '.')`. */
  function Dots(n: nat): (s: string)
    ensures |s| == n && forall k :: 0 <= k < n ==> s[k] == '.'
  {
    seq(n, _ => '.')
  }

  /** What Save stores for the grid g of the array `mapIds`: the buffer of
      w·h + h dots, where the dimensions are the ones the stored text gives
      (not those of g), after every write; or the exception it raises first. */
  function SaveText(rule: SaveRule, stored: string, defaultHeight: int, defaultWidth: int, g: Grid): Result<string, MapTextError>
  {
    var (height, width) := Dimensions(Lines(stored), defaultHeight, defaultWidth);
    if Offset(height, width) < 0 then Err(NegativeSize)
    else Apply(Dots(Offset(height, width)), Writes(Texts(rule, g), width, |g|))
  }

  lemma {:induction false} ApplyConcat(buf: seq<char>, a: seq<Write>, b: seq<Write>)
    ensures Apply(buf, a + b) == Then(Apply(buf, a), b)
    decreases |b|
  {
    if b == [] {
      assert a + b == a;
    } else {
      assert (a + b)[..|a + b| - 1] == a + b[..|b| - 1];
      ApplyConcat(buf, a, b[..|b| - 1]);
    }
  }

  /** Writes of consecutive characters from the end of a prefix on replace
      the front of what follows it. */
  lemma {:induction false} ApplyRun(prefix: string, cs: string, rest: string, ws: seq<Write>)
    requires |ws| == |cs| <= |rest|
    requires forall j :: 0 <= j < |ws| ==> ws[j] == (|prefix| + j, cs[j])
    ensures Apply(prefix + rest, ws) == Ok(prefix + cs + rest[|cs|..])
    decreases |ws|
  {
    if ws == [] {
      assert prefix + cs + rest[0..] == prefix + rest;
    } else {
      var m := |ws| - 1;
      ApplyRun(prefix, cs[..m], rest, ws[..m]);
      var b := prefix + cs[..m] + rest[m..];
      assert ws[m] == (|prefix| + m, cs[m]);
      assert b[|prefix| + m := cs[m]] == prefix + cs + rest[m + 1..];
    }
  }

  /** Once a write has failed, the whole sequence of writes fails. */
  lemma {:induction false} ErrPersists(ts: seq<string>, width: int, buf: seq<char>, n: nat)
    requires n <= |ts| && Apply(buf, Writes(ts, width, n)).Err?
    ensures Apply(buf, Writes(ts, width, |ts|)) == Err(IndexOutOfRange)
    decreases |ts| - n
  {
    if n < |ts| {
      ApplyConcat(buf, Writes(ts, width, n), RowWrites(ts[n], Offset(n, width)));
      ErrPersists(ts, width, buf, n + 1);
    }
  }

  /** One more write after a sequence of writes. */
  lemma ApplySnoc(buf: seq<char>, ws: seq<Write>, w: Write)
    ensures Apply(buf, ws + [w]) == Step(Apply(buf, ws), w)
  {
    assert (ws + [w])[..|ws|] == ws;
  }

  /** Overwriting the first character after a prefix. */
  lemma UpdateFront(x: string, y: string, c: char)
    requires |y| >= 1
    ensures (x + y)[|x| := c] == x + [c] + y[1..]
  {
    var l, r := (x + y)[|x| := c], x + [c] + y[1..];
    forall i | 0 <= i < |l| ensures l[i] == r[i] {
      if i > |x| {
        assert r[i] == y[1..][i - |x| - 1];
      }
    }
  }

  /** The writes of one non-empty row at the end of a prefix put the row
      and its '\n' in front of what follows. */
  lemma RowAfterPrefix(p: string, t: string, d: string, cells: seq<Write>, k: int, tail: string)
    requires 1 <= |t| < |d| && tail == d[|t| + 1..]
    requires cells == CellWrites(t, |p|) && k == |p| + |t|
    ensures Apply(p + d, cells + [(k, '\n')]) == Ok(p + t + "\n" + tail)
  {
    var pt, rest := p + t, d[|t|..];
    ApplyRun(p, t, d, cells);
    assert Apply(p + d, cells) == Ok(pt + rest);
    ApplySnoc(p + d, cells, (k, '\n'));
    assert k == |pt| < |pt + rest|;
    UpdateFront(pt, rest, '\n');
    assert rest[1..] == tail;
  }

  /** A non-empty row's writes: its cells, then the newline just after
      the last of them. */
  lemma RowWritesSplit(t: string, o: int)
    requires |t| >= 1
    ensures RowWrites(t, o) == CellWrites(t, o) + [(o + |t|, '\n')]
  {
  }

  /** Row n of the Save loop turns the layout of the rows before it,
      followed by dots, into the layout of one row more. */
  lemma SaveRowStep(ts: seq<string>, width: nat, buf: string, n: nat)
    requires IsRowTexts(ts, width) && width >= 1 && n < |ts|
    requires Offset(n + 1, width) <= |buf|
    requires Apply(buf, Writes(ts, width, n)) == Ok(Layout(ts[..n]) + buf[Offset(n, width)..])
    ensures Apply(buf, Writes(ts, width, n + 1)) == Ok(Layout(ts[..n + 1]) + buf[Offset(n + 1, width)..])
  {
    var p := Layout(ts[..n]);
    var o := Offset(n, width);
    var d := buf[o..];
    LayoutLength(ts[..n], width);
    OffsetStep(n, width);
    var row := RowWrites(ts[n], o);
    assert Writes(ts, width, n + 1) == Writes(ts, width, n) + row;
    ApplyConcat(buf, Writes(ts, width, n), row);
    assert Apply(buf, Writes(ts, width, n + 1)) == Apply(p + d, row);
    var t, tail := ts[n], buf[Offset(n + 1, width)..];
    assert |t| == width && |p| == o;
    assert d[width + 1..] == tail;
    RowWritesSplit(t, o);
    RowAfterPrefix(p, t, d, CellWrites(t, o), o + |t|, tail);
    LayoutSnoc(ts, n);
    assert Layout(ts[..n + 1]) + tail == p + t + "\n" + tail;
  }

  /** The layout of one row more ends with that row and its newline. */
  lemma LayoutSnoc(ts: seq<string>, n: nat)
    requires n < |ts|
    ensures Layout(ts[..n + 1]) == Layout(ts[..n]) + ts[n] + "\n"
  {
    assert ts[..n + 1][..n] == ts[..n];
  }

  lemma {:induction false} SaveUpTo(ts: seq<string>, width: nat, buf: string, n: nat)
    requires IsRowTexts(ts, width) && width >= 1 && n <= |ts|
    requires buf == Dots(Offset(|ts|, width))
    ensures Offset(n, width) <= |buf|
    ensures Apply(buf, Writes(ts, width, n)) == Ok(Layout(ts[..n]) + buf[Offset(n, width)..])
    decreases n
  {
    OffsetMono(n, |ts|, width);
    if n == 0 {
      assert ts[..0] == [] && Layout(ts[..0]) == [];
      assert Writes(ts, width, 0) == [];
      assert Apply(buf, []) == Ok(buf);
      assert Offset(0, width) == 0;
      assert buf[0..] == buf;
      assert Layout(ts[..0]) + buf[Offset(0, width)..] == buf;
    } else {
      SaveUpTo(ts, width, buf, n - 1);
      SaveRowStep(ts, width, buf, n - 1);
    }
  }

  /** When the stored text has the grid's dimensions and the rows are not
      empty, Save stores exactly the layout of the grid. */
  lemma SaveTextIsLayout(rule: SaveRule, stored: string, defaultHeight: int, defaultWidth: int, g: Grid, width: int)
    requires IsRect(g, |g|, width) && width >= 1
    requires Dimensions(Lines(stored), defaultHeight, defaultWidth) == (|g|, width)
    ensures SaveText(rule, stored, defaultHeight, defaultWidth, g) == Ok(Layout(Texts(rule, g)))
  {
    var ts := Texts(rule, g);
    TextsAreRowTexts(rule, g, width);
    OffsetStep(0, width);
    OffsetMono(0, |ts|, width);
    var buf := Dots(Offset(|ts|, width));
    SaveUpTo(ts, width, buf, |ts|);
    assert ts[..|ts|] == ts;
    assert buf[Offset(|ts|, width)..] == [];
    assert Layout(ts) + [] == Layout(ts);
  }

  /** Save: a buffer of dots, each row's characters and its '\n' written
      into it by index, as the source does. */
  method BuildSaveText(rule: SaveRule, stored: string, defaultHeight: int, defaultWidth: int, mapIds: array2<Cell>)
    returns (r: Result<string, MapTextError>)
    ensures r == SaveText(rule, stored, defaultHeight, defaultWidth, Snapshot(mapIds))
  {
    var data := Lines(stored);
    var width := if |data| != 0 then |data[0]| else defaultWidth;
    var height := if |data| != 0 then |data| else defaultHeight;
    ghost var g := Snapshot(mapIds);
    assert Dimensions(data, defaultHeight, defaultWidth) == (height, width);
    assert width * height + height == Offset(height, width);
    if width * height + height < 0 {
      return Err(NegativeSize);
    }
    var str := new char[width * height + height](_ => '.');
    ghost var ts := Texts(rule, g);
    ghost var dots := str[..];
    assert dots == Dots(Offset(height, width));
    assert SaveText(rule, stored, defaultHeight, defaultWidth, g) == Apply(dots, Writes(ts, width, |g|));
    assert forall i :: 0 <= i < |ts| ==> IsRowOf(rule, mapIds, i, ts[i]);
    var ok := SaveRows(rule, mapIds, width, str, ts, dots);
    r := if ok then Ok(str[..]) else Err(IndexOutOfRange);
  }

  /** t holds the characters of row i of the array. */
  ghost predicate IsRowOf(rule: SaveRule, mapIds: array2<Cell>, i: int, t: string)
    reads mapIds
    requires 0 <= i < mapIds.Length0
  {
    |t| == mapIds.Length1 && forall j :: 0 <= j < |t| ==> t[j] == SaveChar(rule, mapIds[i, j])
  }

  /** Save's outer loop over the rows of `mapIds`, whose texts are ts,
      starting from the buffer `dots`; `ok` is false when a write fell
      outside the buffer. */
  method SaveRows(rule: SaveRule, mapIds: array2<Cell>, width: int, str: array<char>,
                  ghost ts: seq<string>, ghost dots: seq<char>) returns (ok: bool)
    requires |ts| == mapIds.Length0 && dots == str[..]
    requires forall i :: 0 <= i < |ts| ==> IsRowOf(rule, mapIds, i, ts[i])
    modifies str
    ensures ok ==> Apply(dots, Writes(ts, width, |ts|)) == Ok(str[..])
    ensures !ok ==> Apply(dots, Writes(ts, width, |ts|)) == Err(IndexOutOfRange)
  {
    for i := 0 to mapIds.Length0
      invariant Apply(dots, Writes(ts, width, i)) == Ok(str[..])
    {
      ok := SaveRow(rule, mapIds, i, width, str, ts[i], dots, Writes(ts, width, i));
      if !ok {
        ErrPersists(ts, width, dots, i + 1);
        return;
      }
    }
    ok := true;
  }

  /** One pass of Save's outer loop, for row i whose characters are t: cell
      j's character goes to index i * width + j + i and the newline after
      the last of them; `ok` is false when a write fell outside the buffer. */
  method SaveRow(rule: SaveRule, mapIds: array2<Cell>, i: int, width: int, str: array<char>,
                 ghost t: string, ghost dots: seq<char>, ghost before: seq<Write>) returns (ok: bool)
    requires 0 <= i < mapIds.Length0 && IsRowOf(rule, mapIds, i, t)
    requires Apply(dots, before) == Ok(str[..])
    modifies str
    ensures ok <==> Apply(dots, before + RowWrites(t, Offset(i, width))).Ok?
    ensures ok ==> Apply(dots, before + RowWrites(t, Offset(i, width))) == Ok(str[..])
  {
    ghost var o := Offset(i, width);
    ghost var cells := CellWrites(t, o);
    ghost var nl := (LastIndex(|t|, o) + 1, '\n');
    assert before + RowWrites(t, o) == (before + cells) + [nl];
    ApplySnoc(dots, before + cells, nl);
    var index;
    index, ok := SaveCells(rule, mapIds, i, width, str, t, dots, before);
    if !ok || !(0 <= index + 1 < str.Length) {
      return false;
    }
    str[index + 1] := '\n';
  }

  /** Save's inner loop for row i: the characters of the row's cells;
      `index` is the last index written (0 for an empty row). */
  method SaveCells(rule: SaveRule, mapIds: array2<Cell>, i: int, width: int, str: array<char>,
                   ghost t: string, ghost dots: seq<char>, ghost before: seq<Write>) returns (index: int, ok: bool)
    requires 0 <= i < mapIds.Length0 && IsRowOf(rule, mapIds, i, t)
    requires Apply(dots, before) == Ok(str[..])
    modifies str
    ensures ok <==> Apply(dots, before + CellWrites(t, Offset(i, width))).Ok?
    ensures ok ==> Apply(dots, before + CellWrites(t, Offset(i, width))) == Ok(str[..])
    ensures ok ==> index == LastIndex(|t|, Offset(i, width))
  {
    ghost var o := Offset(i, width);
    ghost var cells := CellWrites(t, o);
    assert |cells| == |t| == mapIds.Length1;
    index := 0;
    assert before + cells[..0] == before;
    for j := 0 to mapIds.Length1
      invariant Apply(dots, before + cells[..j]) == Ok(str[..])
      invariant index == LastIndex(j, o)
    {
      index, ok := SaveCell(rule, mapIds, i, j, width, str, t, dots, before);
      if !ok {
        return;
      }
    }
    assert cells[..mapIds.Length1] == cells;
    ok := true;
  }

  /** One pass of Save's inner loop: the character of cell (i, j) at index
      i * width + j + i, or `ok` false when that index is outside the
      buffer. */
  method SaveCell(rule: SaveRule, mapIds: array2<Cell>, i: int, j: int, width: int, str: array<char>,
                  ghost t: string, ghost dots: seq<char>, ghost before: seq<Write>) returns (index: int, ok: bool)
    requires 0 <= i < mapIds.Length0 && 0 <= j < mapIds.Length1 && IsRowOf(rule, mapIds, i, t)
    requires Apply(dots, before + CellWrites(t, Offset(i, width))[..j]) == Ok(str[..])
    modifies str
    ensures index == LastIndex(j + 1, Offset(i, width))
    ensures ok <==> Apply(dots, before + CellWrites(t, Offset(i, width))[..j + 1]).Ok?
    ensures ok ==> Apply(dots, before + CellWrites(t, Offset(i, width))[..j + 1]) == Ok(str[..])
    ensures !ok ==> Apply(dots, before + CellWrites(t, Offset(i, width))).Err?
  {
    ghost var cells := CellWrites(t, Offset(i, width));
    var v := mapIds[i, j];
    index := i * width + j + i;
    ghost var prev := str[..];
    CellStep(dots, before, cells, j, prev);
    assert cells[j] == (index, SaveChar(rule, v)) && |prev| == str.Length;
    if !(0 <= index < str.Length) {
      ErrExtends(dots, before, cells, j + 1);
      return index, false;
    }
    str[index] := SaveChar(rule, v);
    assert str[..] == prev[index := SaveChar(rule, v)];
    ok := true;
  }

  /** One more of a row's writes is one more Step. */
  lemma CellStep(buf: seq<char>, before: seq<Write>, c: seq<Write>, j: int, prev: seq<char>)
    requires 0 <= j < |c| && Apply(buf, before + c[..j]) == Ok(prev)
    ensures Apply(buf, before + c[..j + 1]) == Step(Ok(prev), c[j])
  {
    PrefixSnoc(before, c, j);
    ApplySnoc(buf, before + c[..j], c[j]);
  }

  /** A failed prefix of a row's writes fails the whole row. */
  lemma ErrExtends(buf: seq<char>, before: seq<Write>, c: seq<Write>, j: int)
    requires 0 <= j <= |c| && Apply(buf, before + c[..j]).Err?
    ensures Apply(buf, before + c).Err?
  {
    assert before + c == (before + c[..j]) + c[j..];
    ApplyConcat(buf, before + c[..j], c[j..]);
  }

  lemma PrefixSnoc(w: seq<Write>, c: seq<Write>, j: int)
    requires 0 <= j < |c|
    ensures w + c[..j + 1] == (w + c[..j]) + [c[j]]
  {
    assert c[..j + 1] == c[..j] + [c[j]];
  }

  // ---------------------------------------------------------------------
  // Round trips

  /** What a row reads back as after a save and a parse. */
  function ReloadRow(rule: SaveRule, row: seq<Cell>): (r: seq<Cell>)
    ensures |r| == |row| && forall j :: 0 <= j < |row| ==> r[j] == ParseCell(SaveChar(rule, row[j]))
  {
    seq(|row|, j requires 0 <= j < |row| => ParseCell(SaveChar(rule, row[j])))
  }

  function Reloaded(rule: SaveRule, g: Grid): (r: Grid)
    ensures |r| == |g| && forall i :: 0 <= i < |g| ==> r[i] == ReloadRow(rule, g[i])
  {
    seq(|g|, i requires 0 <= i < |g| => ReloadRow(rule, g[i]))
  }

  /** Parsing the layout of row texts with at least one row and one column
      gives each row back, parsed. */
  lemma ParseOfLayout(ts: seq<string>, width: int, defaultHeight: int, defaultWidth: int)
    requires IsRowTexts(ts, width) && |ts| >= 1 && width >= 1
    ensures Parse(Layout(ts), defaultHeight, defaultWidth) == Ok(seq(|ts|, i requires 0 <= i < |ts| => ParseRow(ts[i], width)))
  {
    LinesOfLayout(ts, width);
    assert Dimensions(ts, defaultHeight, defaultWidth) == (|ts|, width);
    assert !ShortOfCells(ts, |ts|, width);
  }

  /** The parse of a row's saved text is the row reloaded. */
  lemma ParseRowText(rule: SaveRule, row: seq<Cell>)
    ensures ParseRow(RowText(rule, row), |row|) == ReloadRow(rule, row)
  {
  }

  /** The cell MainModule's Save and a parse turn c into: Obstacle exactly
      when c has the Obstacle bit, Road otherwise (annotation bits are
      dropped). */
  lemma ReloadObstacleBit(c: Cell)
    ensures ParseCell(SaveChar(ObstacleBit, c)) == if HasObstacleBit(c) then OBSTACLE else ROAD
  {
  }

  /** The cell the editor's Save and a parse turn c into: Road exactly when
      c is exactly Road, so Road|Path reads back as Obstacle. */
  lemma ReloadExactRoad(c: Cell)
    ensures ParseCell(SaveChar(ExactRoad, c)) == if c == ROAD then ROAD else OBSTACLE
  {
  }

  /** A cell that is exactly Road or exactly Obstacle reads back unchanged
      under either rule. */
  lemma ReloadPureCell(rule: SaveRule, c: Cell)
    requires c == ROAD || c == OBSTACLE
    ensures ParseCell(SaveChar(rule, c)) == c
  {
  }

  /** A grid whose cells are exactly Road or exactly Obstacle reads back
      unchanged from its saved text under either rule. */
  lemma ReloadedPure(rule: SaveRule, g: Grid)
    requires IsPure(g)
    ensures Reloaded(rule, g) == g
  {
    var r := Reloaded(rule, g);
    forall i | 0 <= i < |g| ensures r[i] == g[i] {
      forall j | 0 <= j < |g[i]| ensures r[i][j] == g[i][j] {
        ReloadPureCell(rule, g[i][j]);
      }
    }
  }

  /** The whole round trip through the stored text: save a grid of at least
      one row and one column into a text with its dimensions, then parse
      what was stored. */
  lemma SaveThenParse(rule: SaveRule, stored: string, defaultHeight: int, defaultWidth: int, g: Grid, width: int)
    requires IsRect(g, |g|, width) && |g| >= 1 && width >= 1
    requires Dimensions(Lines(stored), defaultHeight, defaultWidth) == (|g|, width)
    ensures SaveText(rule, stored, defaultHeight, defaultWidth, g).Ok?
    ensures Lines(SaveText(rule, stored, defaultHeight, defaultWidth, g).value) == Texts(rule, g)
    ensures Parse(SaveText(rule, stored, defaultHeight, defaultWidth, g).value, defaultHeight, defaultWidth) == Ok(Reloaded(rule, g))
    ensures IsPure(g) ==> Parse(SaveText(rule, stored, defaultHeight, defaultWidth, g).value, defaultHeight, defaultWidth) == Ok(g)
  {
    var ts := Texts(rule, g);
    SaveTextIsLayout(rule, stored, defaultHeight, defaultWidth, g, width);
    TextsAreRowTexts(rule, g, width);
    LinesOfLayout(ts, width);
    ParseOfLayout(ts, width, defaultHeight, defaultWidth);
    var p := seq(|ts|, i requires 0 <= i < |ts| => ParseRow(ts[i], width));
    forall i | 0 <= i < |g| ensures p[i] == Reloaded(rule, g)[i] {
      ParseRowText(rule, g[i]);
    }
    assert p == Reloaded(rule, g);
    if IsPure(g) {
      ReloadedPure(rule, g);
    }
  }

  // ---------------------------------------------------------------------
  // Counting

  /** The counting loop of Load: the number of cells exactly equal to Road,
      which is the number of dense nodes the mediator will hand out. */
  method CountPassable(mapIds: array2<Cell>) returns (passableCount: int)
    ensures passableCount == |RoadCells(Snapshot(mapIds), mapIds.Length1)|
  {
    ghost var g := Snapshot(mapIds);
    var height, width := mapIds.Length0, mapIds.Length1;
    passableCount := 0;
    for z := 0 to height
      invariant passableCount == |RoadCellsUpTo(g, width, z, 0)|
    {
      for x := 0 to width
        invariant passableCount == |RoadCellsUpTo(g, width, z, x)|
      {
        var isPassable := mapIds[z, x] == ROAD;
        if isPassable {
          passableCount := passableCount + 1;
        }
      }
      assert RoadCellsUpTo(g, width, z + 1, 0) == RoadCellsUpTo(g, width, z, width);
    }
  }

  /** A `height` by `width` grid of Road cells. */
  function AllRoad(height: nat, width: nat): (g: Grid)
    ensures IsRect(g, height, width) && IsPure(g)
    ensures forall y, x :: 0 <= y < height && 0 <= x < width ==> g[y][x] == ROAD
  {
    seq(height, _ => seq(width, _ => ROAD))
  }

  /** In a grid of Road cells every cell scanned is counted: (y, x) is
      reached after y·w + x of them. */
  lemma {:induction false} AllRoadCountUpTo(height: nat, width: nat, y: int, x: int)
    requires ScanPoint(AllRoad(height, width), width, y, x)
    ensures |RoadCellsUpTo(AllRoad(height, width), width, y, x)| == y * width + x
    decreases y, x
  {
    if x == 0 {
      if y > 0 {
        AllRoadCountUpTo(height, width, y - 1, width);
      }
    } else {
      AllRoadCountUpTo(height, width, y, x - 1);
    }
  }

  /** GetDefaultMapData's grid has h·w passable cells. */
  lemma AllRoadCount(height: nat, width: nat)
    ensures |RoadCells(AllRoad(height, width), width)| == height * width
  {
    AllRoadCountUpTo(height, width, height, 0);
  }
}
