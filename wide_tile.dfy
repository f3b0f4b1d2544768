/** Wide tiles (bintje/src/wide_tile.rs): the command lists of 64x4-pixel wide tiles, built from
    the strips of a path, and the CPU loop that composites them into an image. */
module WideTiles {
  import opened Types
  import opened Tiles
  import Strips

  /** Tiles per wide tile, and its width in pixels. */
  const WIDE_TILE_WIDTH_TILES: nat := 16
  const WIDE_TILE_WIDTH_PX: nat := TILE_WIDTH * WIDE_TILE_WIDTH_TILES

  /** A draw command of one wide tile; `x` and `width` count tiles from the wide tile's left
      edge. A `Sample` blends `color` through the strip masks starting at byte `alphaIdx`, a
      `SparseFill` paints `color` solid. The clip commands are never produced. */
  datatype Command =
    | Sample(x: u16, width: u16, color: Rgba8, alphaIdx: u32)
    | SparseFill(x: u16, width: u16, color: Rgba8)
    | PushClip
    | PopClip

  datatype WideTile = WideTile(commands: seq<Command>)

  /** The strip fields that `generate_wide_tile_commands` reads: position and width in tiles, the
      winding to the strip's right and the offset of its masks. */
  datatype WindingStrip = WindingStrip(x: u16, y: u16, width: u16, winding: i32, alphaIdx: u32)

  /** The `prev_strip` the loop starts with: a row no real strip has, and zero winding. */
  const SENTINEL_STRIP := WindingStrip(0, U16_MAX, 0, 0, 0)

  /** A brush: a solid colour, or one of the brushes the renderer does not support yet. */
  datatype Brush = Solid(color: AlphaColor) | NonSolid

  /** Opaque red (components 1, 0, 0, 1), used for every unsupported brush. */
  const RED := AlphaColor(F32(0x3F80_0000), ZERO_F32, ZERO_F32, F32(0x3F80_0000))

  function BrushColor(b: Brush): AlphaColor
  {
    match b
    case Solid(c) => c
    case NonSolid => RED
  }

  /** `width.div_ceil(WIDE_TILE_WIDTH_PX)`: the wide tiles per row of the image. */
  function GridColumns(width: u16): nat
  {
    DivCeil(width, WIDE_TILE_WIDTH_PX)
  }

  /** `(wide_tiles.len() / wide_tile_columns) as u16`: the wide-tile rows, cut to 16 bits. */
  function GridRows(len: nat, cols: nat): nat
    requires cols > 0
  {
    (len / cols) % 0x1_0000
  }

  /** The grid has room for `rows` full rows. */
  lemma GridRowsFit(len: nat, cols: nat)
    requires cols > 0
    ensures GridRows(len, cols) * cols <= len
  {
    var q := len / cols;
    assert q * cols <= len;
    assert GridRows(len, cols) <= q;
    MulMono(GridRows(len, cols), q, cols);
  }

  lemma MulMono(a: nat, b: nat, c: nat)
    requires a <= b
    ensures a * c <= b * c
  {
  }

  /** Wide tile `(y, wx)` of a grid with `rows` full rows of `cols` sits inside it. */
  lemma GridIndex(y: nat, wx: nat, rows: nat, cols: nat, len: nat)
    requires y < rows && wx < cols && rows * cols <= len
    ensures 0 <= y * cols && y * cols + wx < len
  {
    MulMono(y + 1, rows, cols);
  }

  /** The number of strips the loop handles: it breaks at the first strip whose row lies outside
      the grid, so all later strips are ignored too. */
  function Processed(strips: seq<WindingStrip>, rows: nat): (n: nat)
    ensures n <= |strips|
    ensures forall j :: 0 <= j < n ==> strips[j].y < rows
    ensures n < |strips| ==> strips[n].y >= rows
  {
    if strips == [] || strips[0].y >= rows then 0
    else 1 + Processed(strips[1..], rows)
  }

  /** `prev_strip` when the loop reaches `strips[n]`. */
  function PrevStrip(strips: seq<WindingStrip>, n: nat): WindingStrip
    requires n <= |strips|
  {
    if n == 0 then SENTINEL_STRIP else strips[n - 1]
  }

  /** The sparse-fill test: the previous strip leaves nonzero winding, lies in the same row and
      ends at or before this strip starts. */
  predicate FillsGap(prev: WindingStrip, s: WindingStrip)
  {
    prev.winding != 0 && prev.y == s.y && prev.x + prev.width < s.x + 1
  }

  /** What the 16- and 32-bit arithmetic for strip `s` (preceded by `prev`) needs to stay in
      range: its right end and, when the fill test gets that far, `prev`'s right end and `s.x + 1`
      fit in a `u16`, and the running `alpha_idx` fits in a `u32`. */
  predicate StripFits(prev: WindingStrip, s: WindingStrip)
  {
    && s.x + s.width <= U16_MAX
    && (prev.winding != 0 && prev.y == s.y ==> s.x < U16_MAX && prev.x + prev.width <= U16_MAX)
    && s.alphaIdx + Strips.ALPHA_BLOCK * s.width <= U32_MAX
  }

  /** `StripFits` for `strips[j]` and the strip before it. */
  predicate StripFitsAt(strips: seq<WindingStrip>, j: nat)
    requires j < |strips|
  {
    StripFits(PrevStrip(strips, j), strips[j])
  }

  ghost predicate StripsFit(strips: seq<WindingStrip>, n: nat)
    requires n <= |strips|
  {
    forall j :: 0 <= j < n ==> StripFitsAt(strips, j)
  }

  /** The 16-bit wide-tile index `y * cols + wx` of the last column a loop of strip `s` reaches
      fits: the column of its right end, or the grid's last column if that comes first. */
  predicate LastIndexFits(s: WindingStrip, cols: nat)
  {
    s.y * cols + (s.x + s.width) / WIDE_TILE_WIDTH_TILES <= U16_MAX || s.y * cols + cols <= 0x1_0000
  }

  /** The indices of strip `s` (preceded by `prev`) fit in a `u16` whenever one of its loops
      reaches a wide tile inside the grid at all. */
  predicate IndexFits(prev: WindingStrip, s: WindingStrip, cols: nat)
  {
    (s.x / WIDE_TILE_WIDTH_TILES < cols || (FillsGap(prev, s) && GapStart(prev) / WIDE_TILE_WIDTH_TILES < cols))
      ==> LastIndexFits(s, cols)
  }

  /** `IndexFits` for `strips[j]` and the strip before it. */
  predicate IndexFitsAt(strips: seq<WindingStrip>, j: nat, cols: nat)
    requires j < |strips|
  {
    IndexFits(PrevStrip(strips, j), strips[j], cols)
  }

  ghost predicate IndicesFit(strips: seq<WindingStrip>, n: nat, cols: nat)
    requires n <= |strips|
  {
    forall j :: 0 <= j < n ==> IndexFitsAt(strips, j, cols)
  }

  /** Where a `lo..=hi - 1` loop over wide-tile columns that breaks at the first column
      `>= cols` stops. */
  function LoopEnd(lo: nat, hi: nat, cols: nat): (k: nat)
    requires lo <= hi
    ensures lo <= k <= hi
    ensures lo < cols ==> k == if hi <= cols then hi else cols
    ensures lo >= cols ==> k == lo
  {
    if lo >= cols then lo else if hi <= cols then hi else cols
  }

  /** A command pushed onto the wide tile in row `y`, column `wx`. */
  datatype Push = Push(y: nat, wx: nat, cmd: Command)

  /** Appends `p.cmd` to wide tile `(p.y, p.wx)` of a row-major grid with `cols` columns; a push
      outside the grid is dropped. */
  function PushCmd(tiles: seq<WideTile>, cols: nat, p: Push): (r: seq<WideTile>)
    ensures |r| == |tiles|
  {
    var i := p.y * cols + p.wx;
    if i < |tiles| then tiles[i := WideTile(tiles[i].commands + [p.cmd])] else tiles
  }

  /** The pushes applied in order. */
  function Place(tiles: seq<WideTile>, cols: nat, ps: seq<Push>): (r: seq<WideTile>)
    ensures |r| == |tiles|
    decreases |ps|
  {
    if ps == [] then tiles else Place(PushCmd(tiles, cols, ps[0]), cols, ps[1..])
  }

  /** The first column of the gap after `prev`, and the wide tiles it spans. */
  function GapStart(prev: WindingStrip): nat
  {
    prev.x + prev.width
  }

  /** The gap between `prev` and `s` inside wide tile `wx`, in columns relative to that wide
      tile: from the gap's first column in the first wide tile, and up to `s.x` in the last. */
  function FillStart(prev: WindingStrip, wx: nat): nat
    requires GapStart(prev) / WIDE_TILE_WIDTH_TILES <= wx
  {
    var lo := GapStart(prev) / WIDE_TILE_WIDTH_TILES;
    if wx == lo then GapStart(prev) - lo * WIDE_TILE_WIDTH_TILES else 0
  }

  function FillEnd(s: WindingStrip, wx: nat): nat
    requires wx <= s.x / WIDE_TILE_WIDTH_TILES
  {
    var hi := s.x / WIDE_TILE_WIDTH_TILES;
    if wx == hi then s.x - hi * WIDE_TILE_WIDTH_TILES else WIDE_TILE_WIDTH_TILES
  }

  /** The gap columns inside one wide tile are an interval of it, and they follow on from the
      previous wide tile's. */
  lemma FillAdvance(prev: WindingStrip, s: WindingStrip, wx: nat)
    requires GapStart(prev) <= s.x
    requires GapStart(prev) / WIDE_TILE_WIDTH_TILES <= wx <= s.x / WIDE_TILE_WIDTH_TILES
    ensures FillStart(prev, wx) <= FillEnd(s, wx) <= WIDE_TILE_WIDTH_TILES
    ensures wx * WIDE_TILE_WIDTH_TILES + FillStart(prev, wx) >= GapStart(prev)
    ensures wx == GapStart(prev) / WIDE_TILE_WIDTH_TILES ==> wx * WIDE_TILE_WIDTH_TILES + FillStart(prev, wx) == GapStart(prev)
    ensures wx > GapStart(prev) / WIDE_TILE_WIDTH_TILES ==> FillStart(prev, wx) == 0
    ensures wx * WIDE_TILE_WIDTH_TILES + FillEnd(s, wx) <= s.x
    ensures wx < s.x / WIDE_TILE_WIDTH_TILES ==>
      wx * WIDE_TILE_WIDTH_TILES + FillEnd(s, wx) == (wx + 1) * WIDE_TILE_WIDTH_TILES + FillStart(prev, wx + 1)
  {
  }

  /** The sparse fill of wide tile `wx` for the gap between `prev` and `s`. */
  function FillCmd(prev: WindingStrip, s: WindingStrip, wx: nat, color: Rgba8): Command
    requires GapStart(prev) <= s.x
    requires GapStart(prev) / WIDE_TILE_WIDTH_TILES <= wx <= s.x / WIDE_TILE_WIDTH_TILES
  {
    FillAdvance(prev, s, wx);
    SparseFill(FillStart(prev, wx), FillEnd(s, wx) - FillStart(prev, wx), color)
  }

  /** The fills of the wide tiles from the gap's first one up to `k - 1`. */
  function FillPushes(prev: WindingStrip, s: WindingStrip, color: Rgba8, k: nat): seq<Push>
    requires GapStart(prev) <= s.x
    requires GapStart(prev) / WIDE_TILE_WIDTH_TILES <= k <= s.x / WIDE_TILE_WIDTH_TILES + 1
    decreases k
  {
    if k == GapStart(prev) / WIDE_TILE_WIDTH_TILES then []
    else FillPushes(prev, s, color, k - 1) + [Push(s.y, k - 1, FillCmd(prev, s, k - 1, color))]
  }

  /** The fills pushed for strip `s`: none unless the fill test passes, else one per wide tile of
      the gap inside the grid. */
  function FillPart(prev: WindingStrip, s: WindingStrip, cols: nat, color: Rgba8): seq<Push>
  {
    if FillsGap(prev, s) then
      FillPushes(prev, s, color, LoopEnd(GapStart(prev) / WIDE_TILE_WIDTH_TILES, s.x / WIDE_TILE_WIDTH_TILES + 1, cols))
    else []
  }

  /** The columns of strip `s` inside wide tile `wx`, relative to that wide tile. */
  function SampleStart(s: WindingStrip, wx: nat): nat
    requires s.x / WIDE_TILE_WIDTH_TILES <= wx
  {
    var lo := s.x / WIDE_TILE_WIDTH_TILES;
    if wx == lo then s.x - lo * WIDE_TILE_WIDTH_TILES else 0
  }

  function SampleEnd(s: WindingStrip, wx: nat): nat
    requires wx <= (s.x + s.width) / WIDE_TILE_WIDTH_TILES
  {
    var hi := (s.x + s.width) / WIDE_TILE_WIDTH_TILES;
    if wx == hi then s.x + s.width - hi * WIDE_TILE_WIDTH_TILES else WIDE_TILE_WIDTH_TILES
  }

  /** The strip's columns left of its part in wide tile `wx`. */
  function SampleOffset(s: WindingStrip, wx: nat): nat
    requires s.x / WIDE_TILE_WIDTH_TILES <= wx
  {
    if wx == s.x / WIDE_TILE_WIDTH_TILES then 0 else wx * WIDE_TILE_WIDTH_TILES - s.x
  }

  /** The strip's columns inside one wide tile are an interval of it, and they follow on from
      the previous wide tile's. */
  lemma SampleAdvance(s: WindingStrip, wx: nat)
    requires s.x / WIDE_TILE_WIDTH_TILES <= wx <= (s.x + s.width) / WIDE_TILE_WIDTH_TILES
    ensures SampleStart(s, wx) <= SampleEnd(s, wx) <= WIDE_TILE_WIDTH_TILES
    ensures wx * WIDE_TILE_WIDTH_TILES + SampleStart(s, wx) == s.x + SampleOffset(s, wx)
    ensures SampleOffset(s, wx) + SampleEnd(s, wx) - SampleStart(s, wx) <= s.width
    ensures wx == (s.x + s.width) / WIDE_TILE_WIDTH_TILES ==>
      SampleOffset(s, wx) + SampleEnd(s, wx) - SampleStart(s, wx) == s.width
    ensures wx < (s.x + s.width) / WIDE_TILE_WIDTH_TILES ==>
      SampleOffset(s, wx + 1) == SampleOffset(s, wx) + SampleEnd(s, wx) - SampleStart(s, wx)
  {
  }

  /** The sample of wide tile `wx` for strip `s`: its columns there, and the masks of the first
      of them (the strip stores one block per column, from `s.alphaIdx` on). */
  function SampleCmd(s: WindingStrip, wx: nat, color: Rgba8): Command
    requires s.alphaIdx + Strips.ALPHA_BLOCK * s.width <= U32_MAX
    requires s.x / WIDE_TILE_WIDTH_TILES <= wx <= (s.x + s.width) / WIDE_TILE_WIDTH_TILES
  {
    SampleAdvance(s, wx);
    Sample(SampleStart(s, wx), SampleEnd(s, wx) - SampleStart(s, wx), color,
           s.alphaIdx + Strips.ALPHA_BLOCK * SampleOffset(s, wx))
  }

  /** The samples of the wide tiles from the strip's first one up to `k - 1`. */
  function SamplePushes(s: WindingStrip, color: Rgba8, k: nat): seq<Push>
    requires s.alphaIdx + Strips.ALPHA_BLOCK * s.width <= U32_MAX
    requires s.x / WIDE_TILE_WIDTH_TILES <= k <= (s.x + s.width) / WIDE_TILE_WIDTH_TILES + 1
    decreases k
  {
    if k == s.x / WIDE_TILE_WIDTH_TILES then []
    else SamplePushes(s, color, k - 1) + [Push(s.y, k - 1, SampleCmd(s, k - 1, color))]
  }

  /** The samples pushed for strip `s`: one per wide tile it touches inside the grid. */
  function SamplePart(s: WindingStrip, cols: nat, color: Rgba8): seq<Push>
    requires s.alphaIdx + Strips.ALPHA_BLOCK * s.width <= U32_MAX
  {
    SamplePushes(s, color, LoopEnd(s.x / WIDE_TILE_WIDTH_TILES, (s.x + s.width) / WIDE_TILE_WIDTH_TILES + 1, cols))
  }

  /** Everything pushed for strip `s`: its fills, then its samples. */
  function StripPushes(prev: WindingStrip, s: WindingStrip, cols: nat, color: Rgba8): seq<Push>
    requires StripFits(prev, s)
  {
    FillPart(prev, s, cols, color) + SamplePart(s, cols, color)
  }

  /** Everything pushed for the first `n` strips, in order. */
  function Pushes(strips: seq<WindingStrip>, n: nat, cols: nat, color: Rgba8): seq<Push>
    requires n <= |strips| && StripsFit(strips, n)
  {
    if n == 0 then []
    else
      assert StripFitsAt(strips, n - 1);
      Pushes(strips, n - 1, cols, color) + StripPushes(PrevStrip(strips, n - 1), strips[n - 1], cols, color)
  }

  // ---------------------------------------------------------------------------------------------
  // `generate_wide_tile_commands`

  lemma {:induction false} PlaceAppend(tiles: seq<WideTile>, cols: nat, a: seq<Push>, b: seq<Push>)
    ensures Place(tiles, cols, a + b) == Place(Place(tiles, cols, a), cols, b)
    decreases |a|
  {
    if a == [] {
      assert a + b == b;
    } else {
      assert (a + b)[0] == a[0] && (a + b)[1..] == a[1..] + b;
      PlaceAppend(PushCmd(tiles, cols, a[0]), cols, a[1..], b);
    }
  }

  /** Pushing one more command, as the loops do it. */
  lemma PlaceSnoc(tiles: seq<WideTile>, cols: nat, ps: seq<Push>, p: Push)
    ensures Place(tiles, cols, ps + [p]) == PushCmd(Place(tiles, cols, ps), cols, p)
  {
    PlaceAppend(tiles, cols, ps, [p]);
    assert [p][1..] == [];
  }

  /** `wide_tiles.get_mut(idx).unwrap().commands.push(cmd)`. */
  method PushCommand(wideTiles: array<WideTile>, idx: u16, cmd: Command)
    requires idx < wideTiles.Length
    modifies wideTiles
    ensures wideTiles[..] == old(wideTiles[..])[idx := WideTile(old(wideTiles[idx]).commands + [cmd])]
  {
    wideTiles[idx] := WideTile(wideTiles[idx].commands + [cmd]);
  }

  lemma FillStep(w0: seq<WideTile>, prev: WindingStrip, s: WindingStrip, cols: nat, color: Rgba8, k: nat,
                 t: seq<WideTile>, t1: seq<WideTile>)
    requires GapStart(prev) <= s.x
    requires GapStart(prev) / WIDE_TILE_WIDTH_TILES <= k <= s.x / WIDE_TILE_WIDTH_TILES
    requires t == Place(w0, cols, FillPushes(prev, s, color, k))
    requires t1 == PushCmd(t, cols, Push(s.y, k, FillCmd(prev, s, k, color)))
    ensures t1 == Place(w0, cols, FillPushes(prev, s, color, k + 1))
  {
    PlaceSnoc(w0, cols, FillPushes(prev, s, color, k), Push(s.y, k, FillCmd(prev, s, k, color)));
  }

  lemma SampleStep(w0: seq<WideTile>, s: WindingStrip, cols: nat, color: Rgba8, k: nat,
                   t: seq<WideTile>, t1: seq<WideTile>)
    requires s.alphaIdx + Strips.ALPHA_BLOCK * s.width <= U32_MAX
    requires s.x / WIDE_TILE_WIDTH_TILES <= k <= (s.x + s.width) / WIDE_TILE_WIDTH_TILES
    requires t == Place(w0, cols, SamplePushes(s, color, k))
    requires t1 == PushCmd(t, cols, Push(s.y, k, SampleCmd(s, k, color)))
    ensures t1 == Place(w0, cols, SamplePushes(s, color, k + 1))
  {
    PlaceSnoc(w0, cols, SamplePushes(s, color, k), Push(s.y, k, SampleCmd(s, k, color)));
  }

  /** One iteration of the sparse-fill loop, for a wide tile inside the grid. */
  method EmitFill(wideTiles: array<WideTile>, prev: WindingStrip, strip: WindingStrip, rows: nat, cols: nat,
                  color: Rgba8, wideTileX: nat, ghost w0: seq<WideTile>)
    requires strip.y < rows && wideTileX < cols && rows * cols <= wideTiles.Length && LastIndexFits(strip, cols)
    requires GapStart(prev) <= strip.x
    requires GapStart(prev) / WIDE_TILE_WIDTH_TILES <= wideTileX <= strip.x / WIDE_TILE_WIDTH_TILES
    requires wideTiles[..] == Place(w0, cols, FillPushes(prev, strip, color, wideTileX))
    modifies wideTiles
    ensures wideTiles[..] == Place(w0, cols, FillPushes(prev, strip, color, wideTileX + 1))
  {
    var start := (prev.x + prev.width) / WIDE_TILE_WIDTH_TILES;
    var end := strip.x / WIDE_TILE_WIDTH_TILES;
    var xStart := if wideTileX == start then prev.x + prev.width - start * WIDE_TILE_WIDTH_TILES else 0;
    var xEnd := if wideTileX == end then strip.x - end * WIDE_TILE_WIDTH_TILES else WIDE_TILE_WIDTH_TILES;
    assert xStart == FillStart(prev, wideTileX) && xEnd == FillEnd(strip, wideTileX);
    FillAdvance(prev, strip, wideTileX);
    GridIndex(strip.y, wideTileX, rows, cols, wideTiles.Length);
    var idx: u16 := strip.y * cols + wideTileX;
    ghost var t := wideTiles[..];
    PushCommand(wideTiles, idx, SparseFill(xStart, xEnd - xStart, color));
    FillStep(w0, prev, strip, cols, color, wideTileX, t, wideTiles[..]);
  }

  /** The sparse-fill loop of one strip. */
  method EmitFills(wideTiles: array<WideTile>, prev: WindingStrip, strip: WindingStrip, rows: nat, cols: nat,
                   color: Rgba8)
    requires 0 < cols && strip.y < rows && rows * cols <= wideTiles.Length
    requires StripFits(prev, strip) && FillsGap(prev, strip)
    requires GapStart(prev) / WIDE_TILE_WIDTH_TILES < cols ==> LastIndexFits(strip, cols)
    modifies wideTiles
    ensures wideTiles[..] == Place(old(wideTiles[..]), cols, FillPart(prev, strip, cols, color))
  {
    var start := (prev.x + prev.width) / WIDE_TILE_WIDTH_TILES;
    var end := strip.x / WIDE_TILE_WIDTH_TILES;
    var wideTileX := start;
    while wideTileX <= end
      invariant start <= wideTileX <= LoopEnd(start, end + 1, cols)
      invariant wideTiles[..] == Place(old(wideTiles[..]), cols, FillPushes(prev, strip, color, wideTileX))
      decreases end + 1 - wideTileX
    {
      if wideTileX >= cols {
        break;
      }
      EmitFill(wideTiles, prev, strip, rows, cols, color, wideTileX, old(wideTiles[..]));
      wideTileX := wideTileX + 1;
    }
  }

  /** One iteration of the sample loop, for a wide tile inside the grid: `alpha_idx` then moves
      past the masks of the columns just sampled. */
  method EmitSample(wideTiles: array<WideTile>, strip: WindingStrip, rows: nat, cols: nat, color: Rgba8,
                    wideTileX: nat, alphaIdx: u32, ghost w0: seq<WideTile>)
    returns (alphaIdx1: u32)
    requires strip.y < rows && wideTileX < cols && rows * cols <= wideTiles.Length && LastIndexFits(strip, cols)
    requires strip.x + strip.width <= U16_MAX && strip.alphaIdx + Strips.ALPHA_BLOCK * strip.width <= U32_MAX
    requires strip.x / WIDE_TILE_WIDTH_TILES <= wideTileX <= (strip.x + strip.width) / WIDE_TILE_WIDTH_TILES
    requires alphaIdx == strip.alphaIdx + Strips.ALPHA_BLOCK * SampleOffset(strip, wideTileX)
    requires wideTiles[..] == Place(w0, cols, SamplePushes(strip, color, wideTileX))
    modifies wideTiles
    ensures wideTiles[..] == Place(w0, cols, SamplePushes(strip, color, wideTileX + 1))
    ensures wideTileX < (strip.x + strip.width) / WIDE_TILE_WIDTH_TILES ==>
      alphaIdx1 == strip.alphaIdx + Strips.ALPHA_BLOCK * SampleOffset(strip, wideTileX + 1)
  {
    var start := strip.x / WIDE_TILE_WIDTH_TILES;
    var end := (strip.x + strip.width) / WIDE_TILE_WIDTH_TILES;
    var xStart := if wideTileX == start then strip.x - start * WIDE_TILE_WIDTH_TILES else 0;
    var xEnd := if wideTileX == end then strip.x + strip.width - end * WIDE_TILE_WIDTH_TILES else WIDE_TILE_WIDTH_TILES;
    assert xStart == SampleStart(strip, wideTileX) && xEnd == SampleEnd(strip, wideTileX);
    SampleAdvance(strip, wideTileX);
    var width := xEnd - xStart;
    GridIndex(strip.y, wideTileX, rows, cols, wideTiles.Length);
    var idx: u16 := strip.y * cols + wideTileX;
    ghost var t := wideTiles[..];
    PushCommand(wideTiles, idx, Sample(xStart, width, color, alphaIdx));
    SampleStep(w0, strip, cols, color, wideTileX, t, wideTiles[..]);
    alphaIdx1 := alphaIdx + width * TILE_WIDTH * TILE_HEIGHT;
  }

  /** The sample loop of one strip. */
  method EmitSamples(wideTiles: array<WideTile>, strip: WindingStrip, rows: nat, cols: nat, color: Rgba8)
    requires 0 < cols && strip.y < rows && rows * cols <= wideTiles.Length
    requires strip.x / WIDE_TILE_WIDTH_TILES < cols ==> LastIndexFits(strip, cols)
    requires strip.x + strip.width <= U16_MAX && strip.alphaIdx + Strips.ALPHA_BLOCK * strip.width <= U32_MAX
    modifies wideTiles
    ensures wideTiles[..] == Place(old(wideTiles[..]), cols, SamplePart(strip, cols, color))
  {
    var start := strip.x / WIDE_TILE_WIDTH_TILES;
    var end := (strip.x + strip.width) / WIDE_TILE_WIDTH_TILES;
    var alphaIdx: u32 := strip.alphaIdx;
    var wideTileX := start;
    while wideTileX <= end
      invariant start <= wideTileX <= LoopEnd(start, end + 1, cols)
      invariant wideTileX <= end ==> alphaIdx == strip.alphaIdx + Strips.ALPHA_BLOCK * SampleOffset(strip, wideTileX)
      invariant wideTiles[..] == Place(old(wideTiles[..]), cols, SamplePushes(strip, color, wideTileX))
      decreases end + 1 - wideTileX
    {
      if wideTileX >= cols {
        break;
      }
      alphaIdx := EmitSample(wideTiles, strip, rows, cols, color, wideTileX, alphaIdx, old(wideTiles[..]));
      wideTileX := wideTileX + 1;
    }
  }

  /** One iteration of the strip loop: the fills of the gap before the strip, if the fill test
      passes, then its samples. */
  method EmitStrip(wideTiles: array<WideTile>, prev: WindingStrip, strip: WindingStrip, rows: nat, cols: nat,
                   color: Rgba8)
    requires 0 < cols && strip.y < rows && rows * cols <= wideTiles.Length
    requires StripFits(prev, strip) && IndexFits(prev, strip, cols)
    modifies wideTiles
    ensures wideTiles[..] == Place(old(wideTiles[..]), cols, StripPushes(prev, strip, cols, color))
  {
    if prev.winding != 0 && prev.y == strip.y && prev.x + prev.width < strip.x + 1 {
      EmitFills(wideTiles, prev, strip, rows, cols, color);
    }
    EmitSamples(wideTiles, strip, rows, cols, color);
    PlaceAppend(old(wideTiles[..]), cols, FillPart(prev, strip, cols, color), SamplePart(strip, cols, color));
  }

  lemma StripsFitPrefix(strips: seq<WindingStrip>, m: nat, n: nat)
    requires m <= n <= |strips| && StripsFit(strips, n)
    ensures StripsFit(strips, m)
  {
  }

  /** One iteration of the strip loop, for a strip inside the grid. */
  method VisitStrip(wideTiles: array<WideTile>, strips: seq<WindingStrip>, n: nat, rows: nat, cols: nat,
                    color: Rgba8, ghost w0: seq<WideTile>)
    requires 0 < cols && rows * cols <= wideTiles.Length
    requires n < Processed(strips, rows) && StripsFit(strips, Processed(strips, rows))
    requires IndicesFit(strips, Processed(strips, rows), cols)
    requires StripsFit(strips, n) && wideTiles[..] == Place(w0, cols, Pushes(strips, n, cols, color))
    modifies wideTiles
    ensures StripsFit(strips, n + 1) && wideTiles[..] == Place(w0, cols, Pushes(strips, n + 1, cols, color))
  {
    StripsFitPrefix(strips, n + 1, Processed(strips, rows));
    assert StripFitsAt(strips, n) && IndexFitsAt(strips, n, cols);
    PlaceAppend(w0, cols, Pushes(strips, n, cols, color), StripPushes(PrevStrip(strips, n), strips[n], cols, color));
    EmitStrip(wideTiles, PrevStrip(strips, n), strips[n], rows, cols, color);
  }

  /** `generate_wide_tile_commands`: pushes, strip by strip, the fills and samples of every strip
      up to the first one outside the grid. `premultiply` stands for the floating-point
      conversion of the brush colour to premultiplied 8-bit RGBA. */
  method GenerateWideTileCommands(width: u16, wideTiles: array<WideTile>, strips: seq<WindingStrip>,
                                  brush: Brush, premultiply: AlphaColor -> Rgba8)
    requires width > 0
    requires StripsFit(strips, Processed(strips, GridRows(wideTiles.Length, GridColumns(width))))
    requires IndicesFit(strips, Processed(strips, GridRows(wideTiles.Length, GridColumns(width))), GridColumns(width))
    modifies wideTiles
    ensures var cols := GridColumns(width);
      wideTiles[..] == Place(old(wideTiles[..]), cols,
        Pushes(strips, Processed(strips, GridRows(wideTiles.Length, cols)), cols, premultiply(BrushColor(brush))))
  {
    var wideTileColumns := GridColumns(width);
    var wideTileRows := GridRows(wideTiles.Length, wideTileColumns);
    GridRowsFit(wideTiles.Length, wideTileColumns);
    ghost var pushed := premultiply(BrushColor(brush));

    var prevStrip := SENTINEL_STRIP;
    var n := 0;
    while n < |strips|
      invariant n <= Processed(strips, wideTileRows) && StripsFit(strips, n)
      invariant prevStrip == PrevStrip(strips, n)
      invariant wideTiles[..] == Place(old(wideTiles[..]), wideTileColumns, Pushes(strips, n, wideTileColumns, pushed))
    {
      var strip := strips[n];
      if strip.y >= wideTileRows {
        break;
      }
      var color := BrushColor(brush);
      VisitStrip(wideTiles, strips, n, wideTileRows, wideTileColumns, premultiply(color), old(wideTiles[..]));
      prevStrip := strip;
      n := n + 1;
    }
  }

  // ---------------------------------------------------------------------------------------------
  // What the pushes promise

  /** The fills of a gap go to the consecutive wide tiles from the gap's first one on. */
  lemma {:induction false} FillPushesShape(prev: WindingStrip, s: WindingStrip, color: Rgba8, k: nat)
    requires GapStart(prev) <= s.x
    requires GapStart(prev) / WIDE_TILE_WIDTH_TILES <= k <= s.x / WIDE_TILE_WIDTH_TILES + 1
    ensures var lo := GapStart(prev) / WIDE_TILE_WIDTH_TILES; var ps := FillPushes(prev, s, color, k);
      && |ps| == k - lo
      && forall j :: 0 <= j < |ps| ==> ps[j] == Push(s.y, lo + j, FillCmd(prev, s, lo + j, color))
    decreases k
  {
    if k > GapStart(prev) / WIDE_TILE_WIDTH_TILES {
      FillPushesShape(prev, s, color, k - 1);
    }
  }

  /** The samples of a strip go to the consecutive wide tiles from the strip's first one on. */
  lemma {:induction false} SamplePushesShape(s: WindingStrip, color: Rgba8, k: nat)
    requires s.alphaIdx + Strips.ALPHA_BLOCK * s.width <= U32_MAX
    requires s.x / WIDE_TILE_WIDTH_TILES <= k <= (s.x + s.width) / WIDE_TILE_WIDTH_TILES + 1
    ensures var lo := s.x / WIDE_TILE_WIDTH_TILES; var ps := SamplePushes(s, color, k);
      && |ps| == k - lo
      && forall j :: 0 <= j < |ps| ==> ps[j] == Push(s.y, lo + j, SampleCmd(s, lo + j, color))
    decreases k
  {
    if k > s.x / WIDE_TILE_WIDTH_TILES {
      SamplePushesShape(s, color, k - 1);
    }
  }

  /** A command stays inside its wide tile: it ends at or before column 16. */
  predicate CommandFits(c: Command)
  {
    match c
    case Sample(x, width, _, _) => x + width <= WIDE_TILE_WIDTH_TILES
    case SparseFill(x, width, _) => x + width <= WIDE_TILE_WIDTH_TILES
    case _ => true
  }

  /** Every command of every wide tile stays inside its wide tile. */
  ghost predicate TilesFit(ts: seq<WideTile>)
  {
    forall i :: 0 <= i < |ts| ==> forall c <- ts[i].commands :: CommandFits(c)
  }

  /** Push `p` goes to a wide tile inside a grid of `rows` by `cols`, and its command fits in it. */
  predicate InGrid(p: Push, rows: nat, cols: nat)
  {
    p.y < rows && p.wx < cols && CommandFits(p.cmd)
  }

  ghost predicate AllInGrid(ps: seq<Push>, rows: nat, cols: nat)
  {
    forall k :: 0 <= k < |ps| ==> InGrid(ps[k], rows, cols)
  }

  lemma AllInGridAppend(a: seq<Push>, b: seq<Push>, rows: nat, cols: nat)
    requires AllInGrid(a, rows, cols) && AllInGrid(b, rows, cols)
    ensures AllInGrid(a + b, rows, cols)
  {
    forall k | 0 <= k < |a + b|
      ensures InGrid((a + b)[k], rows, cols)
    {
      if k >= |a| {
        assert (a + b)[k] == b[k - |a|];
      }
    }
  }

  /** Every push of `ps` goes to row `y` of a grid of `rows` by `cols`, and fits in its wide tile. */
  ghost predicate AllInRow(ps: seq<Push>, y: nat, rows: nat, cols: nat)
  {
    forall k :: 0 <= k < |ps| ==> InGrid(ps[k], rows, cols) && ps[k].y == y
  }

  lemma AllInRowAppend(a: seq<Push>, b: seq<Push>, y: nat, rows: nat, cols: nat)
    requires AllInRow(a, y, rows, cols) && AllInRow(b, y, rows, cols)
    ensures AllInRow(a + b, y, rows, cols)
  {
    forall k | 0 <= k < |a + b|
      ensures InGrid((a + b)[k], rows, cols) && (a + b)[k].y == y
    {
      if k >= |a| {
        assert (a + b)[k] == b[k - |a|];
      }
    }
  }

  /** The fills of a strip go to its own row and to columns inside the grid. */
  lemma FillPartInRow(prev: WindingStrip, s: WindingStrip, rows: nat, cols: nat, color: Rgba8)
    requires StripFits(prev, s) && s.y < rows
    ensures AllInRow(FillPart(prev, s, cols, color), s.y, rows, cols)
  {
    var fills := FillPart(prev, s, cols, color);
    if FillsGap(prev, s) {
      var lo := GapStart(prev) / WIDE_TILE_WIDTH_TILES;
      FillPushesShape(prev, s, color, LoopEnd(lo, s.x / WIDE_TILE_WIDTH_TILES + 1, cols));
      forall j | 0 <= j < |fills|
        ensures fills[j].y == s.y && InGrid(fills[j], rows, cols)
      {
        FillAdvance(prev, s, lo + j);
      }
    }
  }

  /** The samples of a strip go to its own row and to columns inside the grid. */
  lemma SamplePartInRow(prev: WindingStrip, s: WindingStrip, rows: nat, cols: nat, color: Rgba8)
    requires StripFits(prev, s) && s.y < rows
    ensures AllInRow(SamplePart(s, cols, color), s.y, rows, cols)
  {
    var samples := SamplePart(s, cols, color);
    var lo := s.x / WIDE_TILE_WIDTH_TILES;
    SamplePushesShape(s, color, LoopEnd(lo, (s.x + s.width) / WIDE_TILE_WIDTH_TILES + 1, cols));
    forall j | 0 <= j < |samples|
      ensures samples[j].y == s.y && InGrid(samples[j], rows, cols)
    {
      SampleAdvance(s, lo + j);
    }
  }

  /** Everything pushed for one strip goes to its own row, to a column inside the grid, and fits
      in its wide tile. */
  lemma StripPushesInGrid(prev: WindingStrip, s: WindingStrip, rows: nat, cols: nat, color: Rgba8)
    requires StripFits(prev, s) && s.y < rows
    ensures var ps := StripPushes(prev, s, cols, color);
      && AllInGrid(ps, rows, cols)
      && forall k :: 0 <= k < |ps| ==> ps[k].y == s.y
  {
    FillPartInRow(prev, s, rows, cols, color);
    SamplePartInRow(prev, s, rows, cols, color);
    AllInRowAppend(FillPart(prev, s, cols, color), SamplePart(s, cols, color), s.y, rows, cols);
  }

  /** Every command goes to a wide tile `(y, wx)` with `y < rows` and `wx < cols`, and fits in it. */
  lemma {:induction false} PushesInGrid(strips: seq<WindingStrip>, n: nat, rows: nat, cols: nat, color: Rgba8)
    requires n <= Processed(strips, rows) && StripsFit(strips, n)
    ensures AllInGrid(Pushes(strips, n, cols, color), rows, cols)
  {
    if n > 0 {
      StripsFitPrefix(strips, n - 1, n);
      PushesInGrid(strips, n - 1, rows, cols, color);
      var s := strips[n - 1];
      assert StripFitsAt(strips, n - 1);
      StripPushesInGrid(PrevStrip(strips, n - 1), s, rows, cols, color);
      AllInGridAppend(Pushes(strips, n - 1, cols, color), StripPushes(PrevStrip(strips, n - 1), s, cols, color), rows, cols);
    }
  }

  /** The commands pushed onto wide tile `i`, in push order. */
  function CommandsAt(cols: nat, ps: seq<Push>, i: nat): seq<Command>
  {
    if ps == [] then []
    else (if ps[0].y * cols + ps[0].wx == i then [ps[0].cmd] else []) + CommandsAt(cols, ps[1..], i)
  }

  lemma {:induction false} CommandsAtAppend(cols: nat, a: seq<Push>, b: seq<Push>, i: nat)
    ensures CommandsAt(cols, a + b, i) == CommandsAt(cols, a, i) + CommandsAt(cols, b, i)
  {
    if a == [] {
      assert a + b == b;
    } else {
      assert (a + b)[0] == a[0] && (a + b)[1..] == a[1..] + b;
      var here := if a[0].y * cols + a[0].wx == i then [a[0].cmd] else [];
      assert CommandsAt(cols, a + b, i) == here + CommandsAt(cols, a[1..] + b, i);
      CommandsAtAppend(cols, a[1..], b, i);
      AppendAssoc(here, CommandsAt(cols, a[1..], i), CommandsAt(cols, b, i));
    }
  }

  /** Each wide tile gets its own pushes appended after the commands it had, in push order. */
  lemma {:induction false} PlacePerTile(tiles: seq<WideTile>, cols: nat, ps: seq<Push>, i: nat)
    requires i < |tiles|
    ensures Place(tiles, cols, ps)[i].commands == tiles[i].commands + CommandsAt(cols, ps, i)
    decreases |ps|
  {
    if ps != [] {
      var t := PushCmd(tiles, cols, ps[0]);
      var here := if ps[0].y * cols + ps[0].wx == i then [ps[0].cmd] else [];
      assert t[i].commands == tiles[i].commands + here;
      PlacePerTile(t, cols, ps[1..], i);
      AppendAssoc(tiles[i].commands, here, CommandsAt(cols, ps[1..], i));
    }
  }

  /** Commands taken from pushes that all fit in their wide tiles fit too. */
  lemma {:induction false} CommandsAtFit(cols: nat, ps: seq<Push>, rows: nat, i: nat)
    requires AllInGrid(ps, rows, cols)
    ensures forall c <- CommandsAt(cols, ps, i) :: CommandFits(c)
    decreases |ps|
  {
    if ps != [] {
      assert InGrid(ps[0], rows, cols);
      assert AllInGrid(ps[1..], rows, cols);
      CommandsAtFit(cols, ps[1..], rows, i);
    }
  }

  lemma AppendAssoc<T>(a: seq<T>, b: seq<T>, c: seq<T>)
    ensures (a + b) + c == a + (b + c)
  {
  }

  /** The pushes of strips `m <= j < n`. */
  function Later(strips: seq<WindingStrip>, m: nat, n: nat, cols: nat, color: Rgba8): seq<Push>
    requires m <= n <= |strips| && StripsFit(strips, n)
    decreases n
  {
    if m == n then []
    else
      StripsFitPrefix(strips, n - 1, n);
      assert StripFitsAt(strips, n - 1);
      Later(strips, m, n - 1, cols, color) + StripPushes(PrevStrip(strips, n - 1), strips[n - 1], cols, color)
  }

  lemma SplitStep<T>(pm: seq<T>, pk: seq<T>, pn: seq<T>, lk: seq<T>, ln: seq<T>, last: seq<T>)
    requires pn == pk + last && ln == lk + last && pk == pm + lk
    ensures pn == pm + ln
  {
    AppendAssoc(pm, lk, last);
  }

  /** The last of `n` strips appends its pushes to those of the others; `k` is `n - 1`. */
  lemma PushesUnfold(strips: seq<WindingStrip>, m: nat, k: nat, n: nat, cols: nat, color: Rgba8)
    returns (last: seq<Push>)
    requires m < n <= |strips| && k == n - 1 && StripsFit(strips, n)
    ensures StripsFit(strips, k)
    ensures Pushes(strips, n, cols, color) == Pushes(strips, k, cols, color) + last
    ensures Later(strips, m, n, cols, color) == Later(strips, m, k, cols, color) + last
  {
    StripsFitPrefix(strips, n - 1, n);
    assert StripFitsAt(strips, n - 1);
    last := StripPushes(PrevStrip(strips, n - 1), strips[n - 1], cols, color);
  }

  lemma {:induction false} PushesSplit(strips: seq<WindingStrip>, m: nat, n: nat, cols: nat, color: Rgba8)
    requires m <= n <= |strips| && StripsFit(strips, n)
    ensures StripsFit(strips, m)
    ensures Pushes(strips, n, cols, color) == Pushes(strips, m, cols, color) + Later(strips, m, n, cols, color)
    decreases n
  {
    StripsFitPrefix(strips, m, n);
    if m == n {
      assert Pushes(strips, m, cols, color) + [] == Pushes(strips, m, cols, color);
    } else {
      var k := n - 1;
      var last := PushesUnfold(strips, m, k, n, cols, color);
      PushesSplit(strips, m, k, cols, color);
      SplitStep(Pushes(strips, m, cols, color), Pushes(strips, k, cols, color), Pushes(strips, n, cols, color),
                Later(strips, m, k, cols, color), Later(strips, m, n, cols, color), last);
    }
  }

  /** A later strip's commands come after an earlier strip's on every wide tile. */
  lemma EarlierStripsFirst(strips: seq<WindingStrip>, m: nat, n: nat, cols: nat, color: Rgba8, i: nat)
    requires m <= n <= |strips| && StripsFit(strips, n)
    ensures StripsFit(strips, m)
    ensures CommandsAt(cols, Pushes(strips, n, cols, color), i)
            == CommandsAt(cols, Pushes(strips, m, cols, color), i) + CommandsAt(cols, Later(strips, m, n, cols, color), i)
  {
    PushesSplit(strips, m, n, cols, color);
    CommandsAtAppend(cols, Pushes(strips, m, cols, color), Later(strips, m, n, cols, color), i);
  }

  /** The columns a command covers. */
  function Width(c: Command): nat
  {
    match c
    case Sample(_, width, _, _) => width
    case SparseFill(_, width, _) => width
    case _ => 0
  }

  function Widths(ps: seq<Push>): nat
  {
    if ps == [] then 0 else Width(ps[0].cmd) + Widths(ps[1..])
  }

  lemma {:induction false} WidthsSnoc(ps: seq<Push>, p: Push)
    ensures Widths(ps + [p]) == Widths(ps) + Width(p.cmd)
  {
    if ps == [] {
      assert [] + [p] == [p];
    } else {
      assert (ps + [p])[1..] == ps[1..] + [p];
      WidthsSnoc(ps[1..], p);
    }
  }

  lemma {:induction false} FillWidthsUpTo(prev: WindingStrip, s: WindingStrip, color: Rgba8, k: nat)
    requires GapStart(prev) <= s.x
    requires GapStart(prev) / WIDE_TILE_WIDTH_TILES < k <= s.x / WIDE_TILE_WIDTH_TILES + 1
    ensures Widths(FillPushes(prev, s, color, k)) == (k - 1) * WIDE_TILE_WIDTH_TILES + FillEnd(s, k - 1) - GapStart(prev)
    decreases k
  {
    var lo := GapStart(prev) / WIDE_TILE_WIDTH_TILES;
    FillAdvance(prev, s, k - 1);
    WidthsSnoc(FillPushes(prev, s, color, k - 1), Push(s.y, k - 1, FillCmd(prev, s, k - 1, color)));
    if k - 1 > lo {
      FillWidthsUpTo(prev, s, color, k - 1);
      FillAdvance(prev, s, k - 2);
    }
  }

  /** When the gap ends inside the grid, its fills cover exactly the empty columns between the
      two strips. */
  lemma FillsCoverGap(prev: WindingStrip, s: WindingStrip, cols: nat, color: Rgba8)
    requires StripFits(prev, s) && FillsGap(prev, s) && s.x / WIDE_TILE_WIDTH_TILES < cols
    ensures Widths(FillPart(prev, s, cols, color)) == s.x - (prev.x + prev.width)
  {
    FillWidthsUpTo(prev, s, color, s.x / WIDE_TILE_WIDTH_TILES + 1);
  }

  lemma {:induction false} SampleWidthsUpTo(s: WindingStrip, color: Rgba8, k: nat)
    requires s.alphaIdx + Strips.ALPHA_BLOCK * s.width <= U32_MAX
    requires s.x / WIDE_TILE_WIDTH_TILES < k <= (s.x + s.width) / WIDE_TILE_WIDTH_TILES + 1
    ensures Widths(SamplePushes(s, color, k)) == SampleOffset(s, k - 1) + SampleEnd(s, k - 1) - SampleStart(s, k - 1)
    decreases k
  {
    SampleAdvance(s, k - 1);
    WidthsSnoc(SamplePushes(s, color, k - 1), Push(s.y, k - 1, SampleCmd(s, k - 1, color)));
    if k - 1 > s.x / WIDE_TILE_WIDTH_TILES {
      SampleWidthsUpTo(s, color, k - 1);
      SampleAdvance(s, k - 2);
    }
  }

  /** When a strip ends inside the grid, its sample widths add up to its width. */
  lemma SamplesCoverStrip(s: WindingStrip, cols: nat, color: Rgba8)
    requires s.alphaIdx + Strips.ALPHA_BLOCK * s.width <= U32_MAX
    requires (s.x + s.width) / WIDE_TILE_WIDTH_TILES < cols
    ensures Widths(SamplePart(s, cols, color)) == s.width
  {
    var hi := (s.x + s.width) / WIDE_TILE_WIDTH_TILES;
    SampleWidthsUpTo(s, color, hi + 1);
    SampleAdvance(s, hi);
  }

  /** A strip's samples read its masks contiguously: the first at the strip's own offset, each
      next one right after the blocks of the one before. */
  lemma SamplesContiguous(s: WindingStrip, cols: nat, color: Rgba8)
    requires s.alphaIdx + Strips.ALPHA_BLOCK * s.width <= U32_MAX
    ensures var ps := SamplePart(s, cols, color);
      && (forall j :: 0 <= j < |ps| ==> ps[j].cmd.Sample?)
      && (ps != [] ==> ps[0].cmd.alphaIdx == s.alphaIdx)
      && forall j :: 0 <= j < |ps| - 1 ==>
           ps[j + 1].cmd.alphaIdx == ps[j].cmd.alphaIdx + Strips.ALPHA_BLOCK * ps[j].cmd.width
  {
    var ps := SamplePart(s, cols, color);
    var lo := s.x / WIDE_TILE_WIDTH_TILES;
    SamplePushesShape(s, color, LoopEnd(lo, (s.x + s.width) / WIDE_TILE_WIDTH_TILES + 1, cols));
    forall j | 0 <= j < |ps| - 1
      ensures ps[j + 1].cmd.alphaIdx == ps[j].cmd.alphaIdx + Strips.ALPHA_BLOCK * ps[j].cmd.width
    {
      SampleAdvance(s, lo + j);
    }
  }

  /** A strip gets sparse fills exactly when the fill test passes and its gap starts inside the
      grid; in particular the first strip, which follows the sentinel, never gets one. */
  lemma SparseFillIff(prev: WindingStrip, s: WindingStrip, cols: nat, color: Rgba8)
    requires StripFits(prev, s)
    ensures var ps := StripPushes(prev, s, cols, color);
      && ((exists k :: 0 <= k < |ps| && ps[k].cmd.SparseFill?)
          <==> FillsGap(prev, s) && (prev.x + prev.width) / WIDE_TILE_WIDTH_TILES < cols)
      && (prev == SENTINEL_STRIP ==> forall k :: 0 <= k < |ps| ==> !ps[k].cmd.SparseFill?)
  {
    var ps := StripPushes(prev, s, cols, color);
    var fills := FillPart(prev, s, cols, color);
    var samples := SamplePart(s, cols, color);
    SamplesContiguous(s, cols, color);
    assert forall k :: |fills| <= k < |ps| ==> ps[k] == samples[k - |fills|];
    if FillsGap(prev, s) {
      FillPushesShape(prev, s, color, LoopEnd(GapStart(prev) / WIDE_TILE_WIDTH_TILES, s.x / WIDE_TILE_WIDTH_TILES + 1, cols));
      if GapStart(prev) / WIDE_TILE_WIDTH_TILES < cols {
        assert ps[0] == fills[0];
      }
    }
  }

  /** A strip's fills are all pushed before its samples. */
  lemma FillsBeforeSamples(prev: WindingStrip, s: WindingStrip, cols: nat, color: Rgba8)
    requires StripFits(prev, s)
    ensures var ps := StripPushes(prev, s, cols, color);
      forall j, k :: 0 <= j < k < |ps| && ps[j].cmd.Sample? ==> ps[k].cmd.Sample?
  {
    var ps := StripPushes(prev, s, cols, color);
    var fills := FillPart(prev, s, cols, color);
    var samples := SamplePart(s, cols, color);
    SamplesContiguous(s, cols, color);
    if FillsGap(prev, s) {
      FillPushesShape(prev, s, color, LoopEnd(GapStart(prev) / WIDE_TILE_WIDTH_TILES, s.x / WIDE_TILE_WIDTH_TILES + 1, cols));
    }
    assert forall j :: 0 <= j < |fills| ==> ps[j] == fills[j] && fills[j].cmd.SparseFill?;
    assert forall k :: |fills| <= k < |ps| ==> ps[k] == samples[k - |fills|];
  }

  // ---------------------------------------------------------------------------------------------
  // `render`

  /** The opaque checkerboard colours of the backdrop. */
  const DARK_BACKDROP := Rgba8(220, 220, 200, 255)
  const LIGHT_BACKDROP := Rgba8(240, 240, 220, 255)

  /** The backdrop of wide tile `(wx, wy)`: dark where the parities of its row and column differ. */
  function Backdrop(wx: nat, wy: nat): Rgba8
  {
    if wy % 2 != wx % 2 then DARK_BACKDROP else LIGHT_BACKDROP
  }

  /** `div_ceil(height, Tile::HEIGHT)`: the wide-tile rows of the image. */
  function ImageRows(height: u16): nat
  {
    DivCeil(height, TILE_HEIGHT)
  }

  /** The mask byte of pixel `(x, y)` of a sample, `x` counted from the sample's left edge: the
      masks are stored column by column, `TILE_HEIGHT` bytes per pixel column. */
  function MaskIndex(alphaIdx: nat, x: nat, y: nat): nat
  {
    alphaIdx + x * TILE_HEIGHT + y
  }

  /** A sample of `width` tiles reads only its own `width` blocks. */
  lemma MaskIndexInSample(alphaIdx: nat, width: nat, x: nat, y: nat)
    requires x < width * TILE_WIDTH && y < TILE_HEIGHT
    ensures alphaIdx <= MaskIndex(alphaIdx, x, y) < alphaIdx + Strips.ALPHA_BLOCK * width
  {
  }

  /** The mask byte at `k`; every sample the renderer accepts lies inside the masks, so the
      fallback is never read. */
  function MaskByte(masks: seq<u8>, k: nat): u8
  {
    if k < |masks| then masks[k] else 0
  }

  /** The first pixel column of wide tile that command `c` covers, and how many it covers. */
  function CommandStart(c: Command): nat
  {
    match c
    case Sample(x, _, _, _) => x * TILE_WIDTH
    case SparseFill(x, _, _) => x * TILE_WIDTH
    case _ => 0
  }

  function CommandLength(c: Command): nat
  {
    match c
    case Sample(_, width, _, _) => width * TILE_WIDTH
    case SparseFill(_, width, _) => width * TILE_WIDTH
    case _ => 0
  }

  /** The colour command `c` gives a pixel of colour `under` at column `x` and row `y` of the
      command: a sample blends its colour scaled by the pixel's mask byte, a sparse fill blends its
      colour. `over` and `mulAlpha` stand for the floating-point `over` and `mul_alpha`. */
  function Paint(c: Command, under: Rgba8, x: nat, y: nat, masks: seq<u8>,
                 over: (Rgba8, Rgba8) -> Rgba8, mulAlpha: (Rgba8, u8) -> Rgba8): Rgba8
  {
    match c
    case Sample(_, _, color, alphaIdx) => over(under, mulAlpha(color, MaskByte(masks, MaskIndex(alphaIdx, x, y))))
    case SparseFill(_, _, color) => over(under, color)
    case _ => under
  }

  /** What command `c` makes of colour `under` at pixel `(lx, ly)` of its wide tile: pixels outside
      the command keep their colour. */
  function Layer(c: Command, under: Rgba8, lx: nat, ly: nat, masks: seq<u8>,
                 over: (Rgba8, Rgba8) -> Rgba8, mulAlpha: (Rgba8, u8) -> Rgba8): Rgba8
  {
    if CommandStart(c) <= lx < CommandStart(c) + CommandLength(c)
    then Paint(c, under, lx - CommandStart(c), ly, masks, over, mulAlpha)
    else under
  }

  /** The first `k` commands composited in order over `backdrop`. */
  function Composite(cmds: seq<Command>, k: nat, backdrop: Rgba8, lx: nat, ly: nat, masks: seq<u8>,
                     over: (Rgba8, Rgba8) -> Rgba8, mulAlpha: (Rgba8, u8) -> Rgba8): Rgba8
    requires k <= |cmds|
  {
    if k == 0 then backdrop
    else Layer(cmds[k - 1], Composite(cmds, k - 1, backdrop, lx, ly, masks, over, mulAlpha), lx, ly, masks, over, mulAlpha)
  }

  /** Index of the pixel at column `px` and row `py` of a row-major image. */
  function PixelIndex(px: nat, py: nat, width: nat, height: nat): (k: nat)
    requires px < width && py < height
    ensures k < width * height
  {
    MulMono(py + 1, height, width);
    py * width + px
  }

  /** Distinct pixels have distinct indices. */
  lemma PixelIndexInjective(px: nat, py: nat, qx: nat, qy: nat, width: nat, height: nat)
    requires px < width && py < height && qx < width && qy < height
    requires PixelIndex(px, py, width, height) == PixelIndex(qx, qy, width, height)
    ensures px == qx && py == qy
  {
    if py < qy {
      MulMono(py + 1, qy, width);
    } else if qy < py {
      MulMono(qy + 1, py, width);
    }
  }

  /** Every pixel of the image lies in a wide tile of the grid. */
  lemma PixelTile(px: nat, py: nat, width: u16, height: u16)
    requires px < width && py < height
    ensures px / WIDE_TILE_WIDTH_PX < GridColumns(width) && py / TILE_HEIGHT < ImageRows(height)
  {
  }

  /** The colour `render` gives the pixel at `(px, py)`: the commands of its wide tile, in order,
      composited over the checkerboard. */
  function PixelColor(px: nat, py: nat, width: u16, height: u16, wideTiles: seq<WideTile>, masks: seq<u8>,
                      over: (Rgba8, Rgba8) -> Rgba8, mulAlpha: (Rgba8, u8) -> Rgba8): Rgba8
    requires px < width && py < height && |wideTiles| == GridColumns(width) * ImageRows(height)
  {
    var wx := px / WIDE_TILE_WIDTH_PX;
    var wy := py / TILE_HEIGHT;
    PixelTile(px, py, width, height);
    GridIndex(wy, wx, ImageRows(height), GridColumns(width), |wideTiles|);
    var cmds := wideTiles[wy * GridColumns(width) + wx].commands;
    Composite(cmds, |cmds|, Backdrop(wx, wy), px % WIDE_TILE_WIDTH_PX, py % TILE_HEIGHT, masks, over, mulAlpha)
  }

  /** Pixel `(px, py)` lies in rows `y0 <= y < y1` of wide tile `(wx, wy)`, at columns
      `x0 <= x < x0 + n` of it. */
  predicate InRect(px: nat, py: nat, wx: nat, wy: nat, y0: nat, y1: nat, x0: nat, n: nat)
  {
    px / WIDE_TILE_WIDTH_PX == wx && py / TILE_HEIGHT == wy &&
    y0 <= py % TILE_HEIGHT < y1 && x0 <= px % WIDE_TILE_WIDTH_PX < x0 + n
  }

  /** `a` is the image `o` with every pixel of a rectangle of wide tile `(wx, wy)` replaced by `g` of
      its old colour and its column and row inside the rectangle; all other pixels are unchanged. */
  ghost predicate Painted(a: seq<Rgba8>, o: seq<Rgba8>, width: nat, height: nat, wx: nat, wy: nat,
                          y0: nat, y1: nat, x0: nat, n: nat, g: (Rgba8, nat, nat) -> Rgba8)
  {
    |a| == width * height && |o| == width * height &&
    forall px: nat, py: nat | px < width && py < height ::
      a[PixelIndex(px, py, width, height)] ==
        if InRect(px, py, wx, wy, y0, y1, x0, n)
        then g(o[PixelIndex(px, py, width, height)], px % WIDE_TILE_WIDTH_PX - x0, py % TILE_HEIGHT)
        else o[PixelIndex(px, py, width, height)]
  }

  lemma PaintedEmpty(o: seq<Rgba8>, width: nat, height: nat, wx: nat, wy: nat, y0: nat, x0: nat, n: nat,
                     g: (Rgba8, nat, nat) -> Rgba8)
    requires |o| == width * height
    ensures Painted(o, o, width, height, wx, wy, y0, y0, x0, n, g)
  {
  }

  /** Column `wx * 64 + lx` is column `lx` of wide tile `wx`, row `wy * 4 + ly` row `ly` of tile row `wy`. */
  lemma TileCoords(wx: nat, lx: nat, wy: nat, ly: nat)
    requires lx < WIDE_TILE_WIDTH_PX && ly < TILE_HEIGHT
    ensures (wx * WIDE_TILE_WIDTH_PX + lx) / WIDE_TILE_WIDTH_PX == wx
    ensures (wx * WIDE_TILE_WIDTH_PX + lx) % WIDE_TILE_WIDTH_PX == lx
    ensures (wy * TILE_HEIGHT + ly) / TILE_HEIGHT == wy
    ensures (wy * TILE_HEIGHT + ly) % TILE_HEIGHT == ly
  {
  }

  /** Painting the next pixel of a row, or skipping it when it lies outside the image. */
  lemma SpanStep(a: seq<Rgba8>, a1: seq<Rgba8>, o: seq<Rgba8>, width: nat, height: nat, wx: nat, wy: nat,
                 y: nat, x0: nat, x: nat, g: (Rgba8, nat, nat) -> Rgba8)
    requires y < TILE_HEIGHT && x0 + x < WIDE_TILE_WIDTH_PX
    requires Painted(a, o, width, height, wx, wy, y, y + 1, x0, x, g)
    requires var px := wx * WIDE_TILE_WIDTH_PX + x0 + x; var py := wy * TILE_HEIGHT + y;
      if py < height && px < width
      then a1 == a[PixelIndex(px, py, width, height) := g(a[PixelIndex(px, py, width, height)], x, y)]
      else a1 == a
    ensures Painted(a1, o, width, height, wx, wy, y, y + 1, x0, x + 1, g)
  {
    var px := wx * WIDE_TILE_WIDTH_PX + x0 + x;
    var py := wy * TILE_HEIGHT + y;
    forall qx: nat, qy: nat | qx < width && qy < height
      ensures a1[PixelIndex(qx, qy, width, height)] ==
        if InRect(qx, qy, wx, wy, y, y + 1, x0, x + 1)
        then g(o[PixelIndex(qx, qy, width, height)], qx % WIDE_TILE_WIDTH_PX - x0, qy % TILE_HEIGHT)
        else o[PixelIndex(qx, qy, width, height)]
    {
      var i := PixelIndex(qx, qy, width, height);
      if qx == px && qy == py {
        TileCoords(wx, x0 + x, wy, y);
        assert InRect(qx, qy, wx, wy, y, y + 1, x0, x + 1) && !InRect(qx, qy, wx, wy, y, y + 1, x0, x);
        assert a1[i] == g(a[i], x, y);
      } else {
        assert InRect(qx, qy, wx, wy, y, y + 1, x0, x + 1) == InRect(qx, qy, wx, wy, y, y + 1, x0, x);
        if py < height && px < width {
          if i == PixelIndex(px, py, width, height) {
            PixelIndexInjective(qx, qy, px, py, width, height);
          }
        }
        assert a1[i] == a[i];
      }
    }
  }

  method SetPixel(img: array<Rgba8>, k: nat, c: Rgba8)
    requires k < img.Length
    modifies img
    ensures img[..] == old(img[..])[k := c]
  {
    img[k] := c;
  }

  /** Row `y` of a rectangle of wide tile `(wx, wy)`, `n` pixels from column `x0`: pixel `x` of it
      gets `g(old colour, x, y)`; pixels outside the image are skipped. */
  method PaintRow(img: array<Rgba8>, width: u16, height: u16, wx: nat, wy: nat, y: nat, x0: nat, n: nat,
                  g: (Rgba8, nat, nat) -> Rgba8)
    requires img.Length == width * height
    requires wx < GridColumns(width) && wy < ImageRows(height)
    requires y < TILE_HEIGHT && x0 + n <= WIDE_TILE_WIDTH_PX
    modifies img
    ensures Painted(img[..], old(img[..]), width, height, wx, wy, y, y + 1, x0, n, g)
  {
    var imgY: u16 := wy * TILE_HEIGHT + y;
    PaintedEmpty(img[..], width, height, wx, wy, y, x0, 0, g);
    for x := 0 to n
      invariant Painted(img[..], old(img[..]), width, height, wx, wy, y, y + 1, x0, x, g)
    {
      var imgX: u16 := wx * WIDE_TILE_WIDTH_PX + x0 + x;
      ghost var a := img[..];
      if imgY >= height || imgX >= width {
        SpanStep(a, a, old(img[..]), width, height, wx, wy, y, x0, x, g);
        continue;
      }
      var imgIdx := PixelIndex(imgX, imgY, width, height);
      SetPixel(img, imgIdx, g(img[imgIdx], x, y));
      SpanStep(a, img[..], old(img[..]), width, height, wx, wy, y, x0, x, g);
    }
  }

  /** Rows `0 <= y < ny` painted, then row `ny`: rows `0 <= y < ny + 1` painted. */
  lemma RowsStep(a: seq<Rgba8>, a1: seq<Rgba8>, o: seq<Rgba8>, width: nat, height: nat, wx: nat, wy: nat,
                 ny: nat, x0: nat, n: nat, g: (Rgba8, nat, nat) -> Rgba8)
    requires Painted(a, o, width, height, wx, wy, 0, ny, x0, n, g)
    requires Painted(a1, a, width, height, wx, wy, ny, ny + 1, x0, n, g)
    ensures Painted(a1, o, width, height, wx, wy, 0, ny + 1, x0, n, g)
  {
  }

  /** The pixels `x0 <= x < x0 + n` of every row of wide tile `(wx, wy)` get `g(old colour, x - x0, y)`. */
  method PaintRect(img: array<Rgba8>, width: u16, height: u16, wx: nat, wy: nat, x0: nat, n: nat,
                   g: (Rgba8, nat, nat) -> Rgba8)
    requires img.Length == width * height
    requires wx < GridColumns(width) && wy < ImageRows(height)
    requires x0 + n <= WIDE_TILE_WIDTH_PX
    modifies img
    ensures Painted(img[..], old(img[..]), width, height, wx, wy, 0, TILE_HEIGHT, x0, n, g)
  {
    PaintedEmpty(img[..], width, height, wx, wy, 0, x0, n, g);
    for y := 0 to TILE_HEIGHT
      invariant Painted(img[..], old(img[..]), width, height, wx, wy, 0, y, x0, n, g)
    {
      ghost var a := img[..];
      PaintRow(img, width, height, wx, wy, y, x0, n, g);
      RowsStep(a, img[..], old(img[..]), width, height, wx, wy, y, x0, n, g);
    }
  }

  /** Every pixel of wide tile `(wx, wy)` holds its first `k` commands composited over the
      backdrop; all other pixels are as in `o`. */
  ghost predicate TileDone(a: seq<Rgba8>, o: seq<Rgba8>, width: nat, height: nat, wx: nat, wy: nat,
                           cmds: seq<Command>, k: nat, masks: seq<u8>,
                           over: (Rgba8, Rgba8) -> Rgba8, mulAlpha: (Rgba8, u8) -> Rgba8)
    requires k <= |cmds|
  {
    |a| == width * height && |o| == width * height &&
    forall px: nat, py: nat | px < width && py < height ::
      a[PixelIndex(px, py, width, height)] ==
        if px / WIDE_TILE_WIDTH_PX == wx && py / TILE_HEIGHT == wy
        then Composite(cmds, k, Backdrop(wx, wy), px % WIDE_TILE_WIDTH_PX, py % TILE_HEIGHT, masks, over, mulAlpha)
        else o[PixelIndex(px, py, width, height)]
  }

  /** The backdrop painted over the whole wide tile is the composite of no commands. */
  lemma BackdropDone(a: seq<Rgba8>, o: seq<Rgba8>, width: nat, height: nat, wx: nat, wy: nat,
                     cmds: seq<Command>, masks: seq<u8>,
                     over: (Rgba8, Rgba8) -> Rgba8, mulAlpha: (Rgba8, u8) -> Rgba8, g: (Rgba8, nat, nat) -> Rgba8)
    requires forall u, x, y :: g(u, x, y) == Backdrop(wx, wy)
    requires Painted(a, o, width, height, wx, wy, 0, TILE_HEIGHT, 0, WIDE_TILE_WIDTH_PX, g)
    ensures TileDone(a, o, width, height, wx, wy, cmds, 0, masks, over, mulAlpha)
  {
  }

  /** Painting command `k` over its part of the wide tile composites one more command. */
  lemma CommandDone(a: seq<Rgba8>, a1: seq<Rgba8>, o: seq<Rgba8>, width: nat, height: nat, wx: nat, wy: nat,
                    cmds: seq<Command>, k: nat, masks: seq<u8>,
                    over: (Rgba8, Rgba8) -> Rgba8, mulAlpha: (Rgba8, u8) -> Rgba8, g: (Rgba8, nat, nat) -> Rgba8)
    requires k < |cmds|
    requires forall u, x, y :: g(u, x, y) == Paint(cmds[k], u, x, y, masks, over, mulAlpha)
    requires TileDone(a, o, width, height, wx, wy, cmds, k, masks, over, mulAlpha)
    requires Painted(a1, a, width, height, wx, wy, 0, TILE_HEIGHT, CommandStart(cmds[k]), CommandLength(cmds[k]), g)
    ensures TileDone(a1, o, width, height, wx, wy, cmds, k + 1, masks, over, mulAlpha)
  {
  }

  /** Renders one wide tile: its checkerboard backdrop, then each of its commands in order. */
  method RenderTile(img: array<Rgba8>, width: u16, height: u16, wx: nat, wy: nat, wideTile: WideTile,
                    masks: seq<u8>, over: (Rgba8, Rgba8) -> Rgba8, mulAlpha: (Rgba8, u8) -> Rgba8)
    requires img.Length == width * height
    requires wx < GridColumns(width) && wy < ImageRows(height)
    requires forall c <- wideTile.commands :: CommandFits(c)
    modifies img
    ensures TileDone(img[..], old(img[..]), width, height, wx, wy, wideTile.commands, |wideTile.commands|,
                     masks, over, mulAlpha)
  {
    var backdrop := (_: Rgba8, _: nat, _: nat) => Backdrop(wx, wy);
    PaintRect(img, width, height, wx, wy, 0, WIDE_TILE_WIDTH_PX, backdrop);
    BackdropDone(img[..], old(img[..]), width, height, wx, wy, wideTile.commands, masks, over, mulAlpha, backdrop);
    var cmds := wideTile.commands;
    for k := 0 to |cmds|
      invariant TileDone(img[..], old(img[..]), width, height, wx, wy, cmds, k, masks, over, mulAlpha)
    {
      ghost var a := img[..];
      var c := cmds[k];
      var paint := (u: Rgba8, x: nat, y: nat) => Paint(c, u, x, y, masks, over, mulAlpha);
      assert CommandFits(c);
      match c {
        case Sample(x, w, _, _) =>
          PaintRect(img, width, height, wx, wy, x * TILE_WIDTH, w * TILE_WIDTH, paint);
        case SparseFill(x, w, _) =>
          PaintRect(img, width, height, wx, wy, x * TILE_WIDTH, w * TILE_WIDTH, paint);
        case _ =>
          PaintedEmpty(img[..], width, height, wx, wy, 0, 0, 0, paint);
      }
      CommandDone(a, img[..], old(img[..]), width, height, wx, wy, cmds, k, masks, over, mulAlpha, paint);
    }
  }

  /** Wide tile `(tx, ty)` comes before `(wx, wy)` in `render`'s row-major order. */
  predicate TileBefore(tx: nat, ty: nat, wx: nat, wy: nat)
  {
    ty < wy || (ty == wy && tx < wx)
  }

  /** The wide tiles before `(wx, wy)` are rendered; all other pixels are as in `o`. */
  ghost predicate Rendered(a: seq<Rgba8>, o: seq<Rgba8>, width: u16, height: u16, wideTiles: seq<WideTile>,
                           masks: seq<u8>, over: (Rgba8, Rgba8) -> Rgba8, mulAlpha: (Rgba8, u8) -> Rgba8,
                           wx: nat, wy: nat)
  {
    |a| == width * height && |o| == width * height &&
    |wideTiles| == GridColumns(width) * ImageRows(height) &&
    forall px: nat, py: nat | px < width && py < height ::
      a[PixelIndex(px, py, width, height)] ==
        if TileBefore(px / WIDE_TILE_WIDTH_PX, py / TILE_HEIGHT, wx, wy)
        then PixelColor(px, py, width, height, wideTiles, masks, over, mulAlpha)
        else o[PixelIndex(px, py, width, height)]
  }

  /** Rendering wide tile `(wx, wy)` after the ones before it. */
  lemma RenderedStep(a: seq<Rgba8>, a1: seq<Rgba8>, o: seq<Rgba8>, width: u16, height: u16,
                     wideTiles: seq<WideTile>, masks: seq<u8>,
                     over: (Rgba8, Rgba8) -> Rgba8, mulAlpha: (Rgba8, u8) -> Rgba8, wx: nat, wy: nat)
    requires wx < GridColumns(width) && wy < ImageRows(height)
    requires Rendered(a, o, width, height, wideTiles, masks, over, mulAlpha, wx, wy)
    requires wy * GridColumns(width) + wx < |wideTiles|
    requires var cmds := wideTiles[wy * GridColumns(width) + wx].commands;
      TileDone(a1, a, width, height, wx, wy, cmds, |cmds|, masks, over, mulAlpha)
    ensures Rendered(a1, o, width, height, wideTiles, masks, over, mulAlpha, wx + 1, wy)
  {
  }

  /** A finished row of wide tiles is the start of the next one. */
  lemma RenderedRow(a: seq<Rgba8>, o: seq<Rgba8>, width: u16, height: u16, wideTiles: seq<WideTile>,
                    masks: seq<u8>, over: (Rgba8, Rgba8) -> Rgba8, mulAlpha: (Rgba8, u8) -> Rgba8, wy: nat)
    requires Rendered(a, o, width, height, wideTiles, masks, over, mulAlpha, GridColumns(width), wy)
    ensures Rendered(a, o, width, height, wideTiles, masks, over, mulAlpha, 0, wy + 1)
  {
    forall px: nat, py: nat | px < width && py < height
      ensures TileBefore(px / WIDE_TILE_WIDTH_PX, py / TILE_HEIGHT, GridColumns(width), wy)
              == TileBefore(px / WIDE_TILE_WIDTH_PX, py / TILE_HEIGHT, 0, wy + 1)
    {
      PixelTile(px, py, width, height);
    }
  }

  /** One row of wide tiles of `render`, left to right; `wideTileIdx` counts the wide tiles visited. */
  method RenderRow(width: u16, height: u16, img: array<Rgba8>, alphaMasks: seq<u8>, wideTiles: seq<WideTile>,
                   over: (Rgba8, Rgba8) -> Rgba8, mulAlpha: (Rgba8, u8) -> Rgba8, wideTileY: nat, wideTileIdx: nat,
                   ghost o: seq<Rgba8>)
    returns (wideTileIdx': nat)
    requires wideTileY < ImageRows(height) && wideTileIdx == wideTileY * GridColumns(width)
    requires Rendered(img[..], o, width, height, wideTiles, alphaMasks, over, mulAlpha, 0, wideTileY)
    requires forall t <- wideTiles, c <- t.commands :: CommandFits(c)
    modifies img
    ensures wideTileIdx' == (wideTileY + 1) * GridColumns(width)
    ensures Rendered(img[..], o, width, height, wideTiles, alphaMasks, over, mulAlpha, 0, wideTileY + 1)
  {
    wideTileIdx' := wideTileIdx;
    var cols := GridColumns(width);
    for wideTileX := 0 to cols
      invariant wideTileIdx' == wideTileY * cols + wideTileX
      invariant Rendered(img[..], o, width, height, wideTiles, alphaMasks, over, mulAlpha,
                         wideTileX, wideTileY)
    {
      GridIndex(wideTileY, wideTileX, ImageRows(height), cols, |wideTiles|);
      var wideTile := wideTiles[wideTileIdx'];
      wideTileIdx' := wideTileIdx' + 1;
      ghost var a := img[..];
      RenderTile(img, width, height, wideTileX, wideTileY, wideTile, alphaMasks, over, mulAlpha);
      RenderedStep(a, img[..], o, width, height, wideTiles, alphaMasks, over, mulAlpha,
                   wideTileX, wideTileY);
    }
    RenderedRow(img[..], o, width, height, wideTiles, alphaMasks, over, mulAlpha, wideTileY);
  }

  /** The image before any wide tile is rendered, and after all of them. */
  lemma RenderedNone(o: seq<Rgba8>, width: u16, height: u16, wideTiles: seq<WideTile>, masks: seq<u8>,
                     over: (Rgba8, Rgba8) -> Rgba8, mulAlpha: (Rgba8, u8) -> Rgba8)
    requires |o| == width * height && |wideTiles| == GridColumns(width) * ImageRows(height)
    ensures Rendered(o, o, width, height, wideTiles, masks, over, mulAlpha, 0, 0)
  {
  }

  lemma RenderedAll(a: seq<Rgba8>, o: seq<Rgba8>, width: u16, height: u16, wideTiles: seq<WideTile>,
                    masks: seq<u8>, over: (Rgba8, Rgba8) -> Rgba8, mulAlpha: (Rgba8, u8) -> Rgba8)
    requires Rendered(a, o, width, height, wideTiles, masks, over, mulAlpha, 0, ImageRows(height))
    ensures forall px: nat, py: nat | px < width && py < height ::
      a[PixelIndex(px, py, width, height)] == PixelColor(px, py, width, height, wideTiles, masks, over, mulAlpha)
  {
    forall px: nat, py: nat | px < width && py < height
      ensures TileBefore(px / WIDE_TILE_WIDTH_PX, py / TILE_HEIGHT, 0, ImageRows(height))
    {
      PixelTile(px, py, width, height);
    }
  }

  /** `render`: every pixel of the image gets the commands of its wide tile composited over the
      checkerboard backdrop (`PixelColor`). The image and the wide tiles must have the sizes the
      source asserts, and every command must fit inside its wide tile, as every command
      `GenerateWideTileCommands` emits does. */
  method Render(width: u16, height: u16, img: array<Rgba8>, alphaMasks: seq<u8>, wideTiles: seq<WideTile>,
                over: (Rgba8, Rgba8) -> Rgba8, mulAlpha: (Rgba8, u8) -> Rgba8)
    requires img.Length == width * height
    requires |wideTiles| == GridColumns(width) * ImageRows(height)
    requires forall t <- wideTiles, c <- t.commands :: CommandFits(c)
    modifies img
    ensures forall px: nat, py: nat | px < width && py < height ::
      img[PixelIndex(px, py, width, height)] == PixelColor(px, py, width, height, wideTiles, alphaMasks, over, mulAlpha)
  {
    var wideTileIdx := 0;
    RenderedNone(img[..], width, height, wideTiles, alphaMasks, over, mulAlpha);
    for wideTileY := 0 to ImageRows(height)
      invariant wideTileIdx == wideTileY * GridColumns(width)
      invariant Rendered(img[..], old(img[..]), width, height, wideTiles, alphaMasks, over, mulAlpha, 0, wideTileY)
    {
      wideTileIdx := RenderRow(width, height, img, alphaMasks, wideTiles, over, mulAlpha, wideTileY, wideTileIdx,
                              old(img[..]));
    }
    RenderedAll(img[..], old(img[..]), width, height, wideTiles, alphaMasks, over, mulAlpha);
  }
}
