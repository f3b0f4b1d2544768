/** The renderer front end (bintje/src/lib.rs): the `Bintje` context that owns the wide-tile grid
    and the alpha masks, turns flattened path events into lines, and runs the tile, strip and
    wide-tile stages for every filled shape. */
module Renderer {
  import opened Types
  import opened Tiles
  import opened WideTiles

  // ---------------------------------------------------------------------------------------------
  // Path flattening

  /** A path element after flattening: curves never reach the renderer. */
  datatype PathEl = MoveTo(p: Point) | LineTo(p: Point) | ClosePath

  /** The state of the flattening loop: whether the current subpath is closed, where it started,
      the current point, and the lines pushed so far. */
  datatype Pen = Pen(closed: bool, start: Point, prev: Point, lines: seq<Line>)

  const PEN_START := Pen(true, ORIGIN, ORIGIN, [])

  /** One path element. `MoveTo` first closes an open subpath; `ClosePath` adds the line back
      to the start. Only the `Corrected` reading moves the current point back to the start on
      `ClosePath`. */
  function StepPen(v: Variant, pen: Pen, e: PathEl): Pen
  {
    match e
    case MoveTo(p) =>
      var ls := if pen.closed then pen.lines else pen.lines + [Line(pen.prev, pen.start)];
      Pen(true, p, p, ls)
    case LineTo(p) =>
      Pen(false, pen.start, p, pen.lines + [Line(pen.prev, p)])
    case ClosePath =>
      Pen(true, pen.start, if v == Corrected then pen.start else pen.prev, pen.lines + [Line(pen.prev, pen.start)])
  }

  /** The pen after the first `n` path elements. */
  function Trace(v: Variant, events: seq<PathEl>, n: nat): Pen
    requires n <= |events|
  {
    if n == 0 then PEN_START else StepPen(v, Trace(v, events, n - 1), events[n - 1])
  }

  /** The line that closes a final subpath left open away from its start. */
  function ClosingLine(pen: Pen): seq<Line>
  {
    if !pen.closed && pen.prev != pen.start then [Line(pen.prev, pen.start)] else []
  }

  /** All lines `flatten_path` pushes for a path. */
  function Flatten(v: Variant, events: seq<PathEl>): seq<Line>
  {
    var pen := Trace(v, events, |events|);
    pen.lines + ClosingLine(pen)
  }

  /** The start points and the end points of a set of lines, counted with multiplicity. */
  function Starts(ls: seq<Line>): multiset<Point>
  {
    if ls == [] then multiset{} else Starts(ls[..|ls| - 1]) + multiset{ls[|ls| - 1].p0}
  }

  function Ends(ls: seq<Line>): multiset<Point>
  {
    if ls == [] then multiset{} else Ends(ls[..|ls| - 1]) + multiset{ls[|ls| - 1].p1}
  }

  lemma StartsEndsSnoc(ls: seq<Line>, l: Line)
    ensures Starts(ls + [l]) == Starts(ls) + multiset{l.p0}
    ensures Ends(ls + [l]) == Ends(ls) + multiset{l.p1}
  {
    assert (ls + [l])[..|ls|] == ls;
  }

  /** Lines form closed loops: every point is left as often as it is reached. */
  ghost predicate Closed(ls: seq<Line>)
  {
    Starts(ls) == Ends(ls)
  }

  /** What the corrected loop keeps: a closed subpath sits at its start with every loop closed;
      an open one is a chain from `start` to `prev` on top of closed loops. */
  ghost predicate PenInvariant(pen: Pen)
  {
    if pen.closed then pen.prev == pen.start && Closed(pen.lines)
    else Starts(pen.lines) + multiset{pen.prev} == Ends(pen.lines) + multiset{pen.start}
  }

  lemma StepPenInvariant(pen: Pen, e: PathEl)
    requires PenInvariant(pen)
    ensures PenInvariant(StepPen(Corrected, pen, e))
  {
    match e
    case MoveTo(p) =>
      if !pen.closed {
        StartsEndsSnoc(pen.lines, Line(pen.prev, pen.start));
      }
    case LineTo(p) =>
      StartsEndsSnoc(pen.lines, Line(pen.prev, p));
    case ClosePath =>
      StartsEndsSnoc(pen.lines, Line(pen.prev, pen.start));
  }

  lemma TraceStep(v: Variant, events: seq<PathEl>, k: nat, n: nat)
    requires k < n <= |events| && k == n - 1
    ensures Trace(v, events, n) == StepPen(v, Trace(v, events, k), events[k])
  {
  }

  lemma {:induction false} TraceInvariant(events: seq<PathEl>, n: nat)
    requires n <= |events|
    ensures PenInvariant(Trace(Corrected, events, n))
  {
    if n > 0 {
      var k := n - 1;
      TraceInvariant(events, k);
      TraceStep(Corrected, events, k, n);
      StepPenInvariant(Trace(Corrected, events, k), events[k]);
    }
  }

  lemma CancelOne(a: multiset<Point>, b: multiset<Point>, x: Point)
    requires a + multiset{x} == b + multiset{x}
    ensures a == b
  {
    assert a == (a + multiset{x}) - multiset{x};
  }

  /** The corrected flattening turns every path into closed loops of lines. */
  lemma FlattenClosed(events: seq<PathEl>)
    ensures Closed(Flatten(Corrected, events))
  {
    var pen := Trace(Corrected, events, |events|);
    TraceInvariant(events, |events|);
    assert Flatten(Corrected, events) == pen.lines + ClosingLine(pen);
    if !pen.closed && pen.prev != pen.start {
      StartsEndsSnoc(pen.lines, Line(pen.prev, pen.start));
    } else {
      assert pen.lines + [] == pen.lines;
      if !pen.closed {
        CancelOne(Starts(pen.lines), Ends(pen.lines), pen.prev);
      }
    }
  }

  /** Every `ClosePath` is the last element or is followed by a `MoveTo`. */
  predicate MoveAfterClose(events: seq<PathEl>)
  {
    forall i :: 0 <= i < |events| - 1 && events[i] == ClosePath ==> events[i + 1].MoveTo?
  }

  /** The state after `n` elements agrees on the two readings, except for the current point
      right after a `ClosePath`. */
  ghost predicate TracesAgree(events: seq<PathEl>, n: nat)
    requires n <= |events|
  {
    var a, c := Trace(AsWritten, events, n), Trace(Corrected, events, n);
    && a.closed == c.closed && a.start == c.start && a.lines == c.lines
    && (if n > 0 && events[n - 1] == ClosePath then a.closed else a.prev == c.prev)
  }

  lemma {:induction false} TracesAgreeUpTo(events: seq<PathEl>, n: nat)
    requires n <= |events| && MoveAfterClose(events)
    ensures TracesAgree(events, n)
  {
    if n > 0 {
      TracesAgreeUpTo(events, n - 1);
      if n > 1 && events[n - 2] == ClosePath {
        assert events[n - 1].MoveTo?;
      }
    }
  }

  /** The two readings push the same lines whenever no line is drawn straight after a
      `ClosePath`. */
  lemma AsWrittenAgrees(events: seq<PathEl>)
    requires MoveAfterClose(events)
    ensures Flatten(AsWritten, events) == Flatten(Corrected, events)
  {
    TracesAgreeUpTo(events, |events|);
  }

  /** The code as written closes every loop of a path in which each `ClosePath` ends the path
      or is followed by a `MoveTo`. */
  lemma AsWrittenClosedAfterMove(events: seq<PathEl>)
    requires MoveAfterClose(events)
    ensures Closed(Flatten(AsWritten, events))
  {
    AsWrittenAgrees(events);
    FlattenClosed(events);
  }

  const PA := Point(F32(0), F32(0))
  const PB := Point(F32(0x3F80_0000), F32(0))
  const PC := Point(F32(0x3F80_0000), F32(0x3F80_0000))

  /** A triangle path with a line drawn straight after its `ClosePath`. */
  const REOPENED_PATH := [MoveTo(PA), LineTo(PB), ClosePath, LineTo(PC)]

  /** The lines the code as written pushes for it, one at a time. */
  lemma AsWrittenReopenedLines()
    ensures Flatten(AsWritten, REOPENED_PATH) == [] + [Line(PA, PB)] + [Line(PB, PA)] + [Line(PB, PC)] + [Line(PC, PA)]
  {
    var ev := REOPENED_PATH;
    var s1 := [] + [Line(PA, PB)];
    var s2 := s1 + [Line(PB, PA)];
    var s3 := s2 + [Line(PB, PC)];
    TraceStep(AsWritten, ev, 0, 1);
    TraceStep(AsWritten, ev, 1, 2);
    TraceStep(AsWritten, ev, 2, 3);
    TraceStep(AsWritten, ev, 3, 4);
    assert Trace(AsWritten, ev, 4) == Pen(false, PA, PC, s3);
  }

  /** Those lines leave `PB` twice but reach it once. */
  lemma ReopenedLinesOpen(ls: seq<Line>)
    requires ls == [] + [Line(PA, PB)] + [Line(PB, PA)] + [Line(PB, PC)] + [Line(PC, PA)]
    ensures Starts(ls)[PB] == 2 && Ends(ls)[PB] == 1
  {
    var s1 := [] + [Line(PA, PB)];
    var s2 := s1 + [Line(PB, PA)];
    var s3 := s2 + [Line(PB, PC)];
    StartsEndsSnoc([], Line(PA, PB));
    StartsEndsSnoc(s1, Line(PB, PA));
    StartsEndsSnoc(s2, Line(PB, PC));
    StartsEndsSnoc(s3, Line(PC, PA));
  }

  /** As written, a line drawn after `ClosePath` starts at the pre-close point: the lines for
      `MoveTo(a) LineTo(b) ClosePath LineTo(c)` do not form closed loops. */
  lemma AsWrittenLeavesLoopOpen()
    ensures var ls := Flatten(AsWritten, REOPENED_PATH);
      && ls == [Line(PA, PB), Line(PB, PA), Line(PB, PC), Line(PC, PA)]
      && !Closed(ls)
  {
    AsWrittenReopenedLines();
    ReopenedLinesOpen(Flatten(AsWritten, REOPENED_PATH));
  }

  // ---------------------------------------------------------------------------------------------
  // The renderer context

  /** The tiles of the lines, line by line, as `tileGen` produces them for each one. */
  function LinesTiles(ls: seq<Line>, tileGen: Line -> seq<Tile>): seq<Tile>
  {
    if ls == [] then [] else LinesTiles(ls[..|ls| - 1], tileGen) + tileGen(ls[|ls| - 1])
  }

  /** What the strip stage appends, for a sorted tile list and the masks allocated so far: the
      new alpha bytes and the new strips. */
  datatype StripOutput = StripOutput(masks: seq<u8>, strips: FittingStrips)

  /** Strips whose 16- and 32-bit arithmetic in the wide-tile stage stays in range. */
  type FittingStrips = s: seq<WindingStrip> | StripsFit(s, |s|) witness []

  /** The colour every pixel of the PNG buffer starts with. */
  const CANVAS := Rgba8(235, 235, 225, 255)

  /** Strips the wide-tile stage can handle for an image `width` pixels wide and a grid of `len`
      wide tiles. */
  ghost predicate Widenable(strips: seq<WindingStrip>, width: u16, len: nat)
  {
    width > 0 && StripsFit(strips, Processed(strips, GridRows(len, GridColumns(width))))
  }

  /** The 16-bit wide-tile indices of the strips the wide-tile stage handles stay in range. */
  ghost predicate Indexable(strips: seq<WindingStrip>, width: u16, len: nat)
  {
    width > 0 && IndicesFit(strips, Processed(strips, GridRows(len, GridColumns(width))), GridColumns(width))
  }

  /** The commands the wide-tile stage appends to wide tile `i` for these strips. */
  ghost function WideCommands(strips: seq<WindingStrip>, width: u16, len: nat, color: Rgba8, i: nat): seq<Command>
  {
    if Widenable(strips, width, len) then
      var cols := GridColumns(width);
      CommandsAt(cols, Pushes(strips, Processed(strips, GridRows(len, cols)), cols, color), i)
    else []
  }

  class Bintje {
    const width: u16
    const height: u16
    /** The wide tiles, row-major, whose command lists the fills append to. */
    const wideTiles: array<WideTile>
    var alphaMasks: seq<u8>
    /** Scratch buffers of the stages. */
    var lines: seq<Line>
    var tiles: seq<Tile>
    var strips: seq<WindingStrip>

    /** A grid of `ceil(width / 64)` by `ceil(height / 4)` wide tiles, and commands that fit. */
    ghost predicate Valid()
      reads wideTiles
    {
      wideTiles.Length == GridColumns(width) * ImageRows(height) && TilesFit(wideTiles[..])
    }

    /** `Bintje::new`: one empty wide tile per grid cell, and empty buffers. */
    constructor (width: u16, height: u16)
      ensures this.width == width && this.height == height
      ensures wideTiles.Length == GridColumns(width) * ImageRows(height)
      ensures forall i :: 0 <= i < wideTiles.Length ==> wideTiles[i].commands == []
      ensures alphaMasks == [] && lines == [] && tiles == [] && strips == []
      ensures fresh(wideTiles) && Valid()
    {
      var wideTileColumns := GridColumns(width);
      var wideTileRows := ImageRows(height);
      var grid: seq<WideTile> := [];
      for c := 0 to wideTileColumns
        invariant |grid| == c * wideTileRows
        invariant forall i :: 0 <= i < |grid| ==> grid[i].commands == []
      {
        for r := 0 to wideTileRows
          invariant |grid| == c * wideTileRows + r
          invariant forall i :: 0 <= i < |grid| ==> grid[i].commands == []
        {
          grid := grid + [WideTile([])];
        }
      }
      this.width := width;
      this.height := height;
      this.wideTiles := new WideTile[|grid|](i requires 0 <= i < |grid| => grid[i]);
      alphaMasks := [];
      lines := [];
      tiles := [];
      strips := [];
    }

    /** `flatten_path`: pushes the lines of a flattened path onto `lines`. */
    method FlattenPath(events: seq<PathEl>)
      modifies this
      ensures lines == old(lines) + Flatten(AsWritten, events)
      ensures alphaMasks == old(alphaMasks) && tiles == old(tiles) && strips == old(strips)
    {
      var closed := true;
      var start := ORIGIN;
      var prev := ORIGIN;
      for i := 0 to |events|
        invariant var pen := Trace(AsWritten, events, i);
          && closed == pen.closed && start == pen.start && prev == pen.prev
          && lines == old(lines) + pen.lines
        invariant alphaMasks == old(alphaMasks) && tiles == old(tiles) && strips == old(strips)
      {
        match events[i]
        case MoveTo(point) =>
          if !closed {
            lines := lines + [Line(prev, start)];
            closed := true;
          }
          start := point;
          prev := point;
        case LineTo(point) =>
          lines := lines + [Line(prev, point)];
          prev := point;
          closed := false;
        case ClosePath =>
          lines := lines + [Line(prev, start)];
          closed := true;
      }
      if !closed && prev != start {
        lines := lines + [Line(prev, start)];
      }
    }

    /** `tile`: drains `lines` into tiles, then sorts them by column. */
    method TileLines(tileGen: Line -> seq<Tile>)
      modifies this
      ensures lines == []
      ensures SortedByX(tiles) && multiset(tiles) == multiset(old(tiles) + LinesTiles(old(lines), tileGen))
      ensures alphaMasks == old(alphaMasks) && strips == old(strips)
    {
      var drained := lines;
      lines := [];
      for i := 0 to |drained|
        invariant tiles == old(tiles) + LinesTiles(drained[..i], tileGen)
        invariant lines == [] && alphaMasks == old(alphaMasks) && strips == old(strips)
      {
        assert drained[..i + 1][..i] == drained[..i];
        tiles := tiles + tileGen(drained[i]);
      }
      assert drained[..|drained|] == drained;
      SortByXSorted(tiles);
      SortByXPerm(tiles);
      tiles := SortByX(tiles);
    }

    /** `strip`: appends the strips of the tiles and their alpha masks. */
    method StripTiles(stripGen: (seq<Tile>, seq<u8>) -> StripOutput)
      modifies this
      ensures var out := stripGen(old(tiles), old(alphaMasks));
        alphaMasks == old(alphaMasks) + out.masks && strips == old(strips) + out.strips
      ensures lines == old(lines) && tiles == old(tiles)
    {
      var out := stripGen(tiles, alphaMasks);
      alphaMasks := alphaMasks + out.masks;
      strips := strips + out.strips;
    }

    /** `widen`: appends the commands of the strips to the wide tiles, after the commands they
        already hold. */
    method Widen(brush: Brush, premultiply: AlphaColor -> Rgba8)
      requires Valid() && width > 0 && StripsFit(strips, |strips|) && Indexable(strips, width, wideTiles.Length)
      modifies wideTiles
      ensures Valid()
      ensures forall i :: 0 <= i < wideTiles.Length ==>
        wideTiles[i].commands == old(wideTiles[i].commands)
          + WideCommands(strips, width, wideTiles.Length, premultiply(BrushColor(brush)), i)
    {
      var cols := GridColumns(width);
      var rows := GridRows(wideTiles.Length, cols);
      var n := Processed(strips, rows);
      var color := premultiply(BrushColor(brush));
      ghost var w0 := wideTiles[..];
      StripsFitPrefix(strips, n, |strips|);
      GenerateWideTileCommands(width, wideTiles, strips, brush, premultiply);
      PushesInGrid(strips, n, rows, cols, color);
      forall i | 0 <= i < wideTiles.Length
        ensures wideTiles[i].commands == w0[i].commands + CommandsAt(cols, Pushes(strips, n, cols, color), i)
        ensures forall c <- wideTiles[i].commands :: CommandFits(c)
      {
        PlacePerTile(w0, cols, Pushes(strips, n, cols, color), i);
        CommandsAtFit(cols, Pushes(strips, n, cols, color), rows, i);
      }
    }

    /** `fill_shape`: empties the scratch buffers, then flattens the path, tiles, strips and
        widens it. The masks and wide tiles keep what earlier fills left, so this fill's
        commands come after theirs in every wide tile. */
    method FillShape(events: seq<PathEl>, brush: Brush, tileGen: Line -> seq<Tile>,
                     stripGen: (seq<Tile>, seq<u8>) -> StripOutput, premultiply: AlphaColor -> Rgba8)
      requires Valid() && width > 0
      requires forall ts: seq<Tile> | SortedByX(ts) && multiset(ts) == multiset(LinesTiles(Flatten(AsWritten, events), tileGen))
        :: Indexable(stripGen(ts, alphaMasks).strips, width, wideTiles.Length)
      modifies this, wideTiles
      ensures Valid() && lines == []
      ensures SortedByX(tiles) && multiset(tiles) == multiset(LinesTiles(Flatten(AsWritten, events), tileGen))
      ensures var out := stripGen(tiles, old(alphaMasks));
        alphaMasks == old(alphaMasks) + out.masks && strips == out.strips
      ensures forall i :: 0 <= i < wideTiles.Length ==>
        wideTiles[i].commands == old(wideTiles[i].commands)
          + WideCommands(strips, width, wideTiles.Length, premultiply(BrushColor(brush)), i)
    {
      lines := [];
      tiles := [];
      strips := [];
      FlattenPath(events);
      ghost var flat := Flatten(AsWritten, events);
      assert lines == flat by {
        assert [] + flat == flat;
      }
      TileLines(tileGen);
      assert [] + LinesTiles(flat, tileGen) == LinesTiles(flat, tileGen);
      StripTiles(stripGen);
      ghost var out := stripGen(tiles, old(alphaMasks));
      assert strips == out.strips by {
        assert [] + out.strips == out.strips;
      }
      assert Indexable(out.strips, width, wideTiles.Length);
      Widen(brush, premultiply);
    }

    /** The image `to_png` encodes: every pixel gets the colour of its wide tile's commands
        composited over the checkerboard backdrop. */
    method RenderImage(over: (Rgba8, Rgba8) -> Rgba8, mulAlpha: (Rgba8, u8) -> Rgba8) returns (img: array<Rgba8>)
      requires Valid()
      ensures fresh(img) && img.Length == width * height
      ensures forall px: nat, py: nat | px < width && py < height ::
        img[PixelIndex(px, py, width, height)]
          == PixelColor(px, py, width, height, wideTiles[..], alphaMasks, over, mulAlpha)
    {
      img := new Rgba8[width * height](_ => CANVAS);
      ghost var ts := wideTiles[..];
      forall t <- ts, c <- t.commands
        ensures CommandFits(c)
      {
        var i :| 0 <= i < |ts| && ts[i] == t;
      }
      Render(width, height, img, alphaMasks, wideTiles[..], over, mulAlpha);
    }
  }
}
