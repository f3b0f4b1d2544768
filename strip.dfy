/** Strip building (bintje/src/strip.rs): one sorted tile row becomes maximal runs of
    consecutive occupied tile columns (strips), and every occupied column gets one
    16-byte alpha block, bump-allocated at the end of the alpha storage. */
module Strips {
  import opened Types
  import opened Tiles

  /** Bytes of one alpha block, `Tile::WIDTH * Tile::HEIGHT`: one byte per pixel of a tile. */
  const ALPHA_BLOCK: nat := 16

  /** `GATE_CLOSER`: a sentinel tile past every real column that flushes the last location and
      closes the last strip. */
  const GATE_CLOSER := Tile(U16_MAX, 0)

  /** `tile.x * Tile::WIDTH` and `row_y * Tile::HEIGHT` are `u16` products, so real columns and
      rows stay below 65536 / 4. */
  const COORD_LIMIT: nat := 0x1_0000 / 4

  /** The 16 quantised coverage bytes of one tile location, column-major. */
  type Block = s: seq<u8> | |s| == ALPHA_BLOCK
    witness [0, 0, 0, 0, 0, 0, 0, 0, 0, 0, 0, 0, 0, 0, 0, 0]

  /** The four quantised area-coverage bytes left of a strip. */
  type PixelCoverage = s: seq<u8> | |s| == TILE_HEIGHT witness [0, 0, 0, 0]

  /** A strip of `width` consecutive tiles starting at tile column `x` of tile row `y`; its masks
      are the `width` blocks starting at byte `alphaIdx` of the alpha storage. */
  datatype Strip = Strip(x: u16, y: u16, width: u16, pixelCoverage: PixelCoverage, alphaIdx: u32)

  /** What `generate_strips` relies on for a tile row: sorted by column, every column small
      enough for `tile.x * Tile::WIDTH`, and room in the `u32` alpha index for all its blocks
      after `base` bytes. */
  ghost predicate RowShape(ts: seq<Tile>, base: nat)
  {
    && SortedByX(ts)
    && (forall j :: 0 <= j < |ts| ==> ts[j].x < COORD_LIMIT)
    && base + ALPHA_BLOCK * |ts| < 0x1_0000_0000
  }

  /** Number of tile locations among the first `n` tiles: a new one starts whenever `x`
      increases. */
  function NumLocs(ts: seq<Tile>, n: nat): (r: nat)
    requires n <= |ts|
    ensures r <= n
    ensures n > 0 ==> r >= 1
  {
    if n <= 1 then n
    else NumLocs(ts, n - 1) + (if ts[n - 2].x < ts[n - 1].x then 1 else 0)
  }

  /** The alpha blocks flushed while walking the first `n` tiles: one each time `x` increases,
      holding the coverage accumulated from the tiles before that point. `mask(p)` is the block
      the floating-point accumulation yields after the tiles `p`. */
  function Masks(ts: seq<Tile>, n: nat, mask: seq<Tile> -> Block): seq<u8>
    requires n <= |ts|
  {
    if n <= 1 then []
    else Masks(ts, n - 1, mask) + (if ts[n - 2].x < ts[n - 1].x then mask(ts[..n - 1]) else [])
  }

  /** Everything appended to the alpha storage: the flushes above and the final one forced by
      the gate closer. */
  function AllMasks(ts: seq<Tile>, mask: seq<Tile> -> Block): seq<u8>
  {
    Masks(ts, |ts|, mask) + mask(ts)
  }

  /** `Masks` holds one block per location left: one fewer than the locations seen. */
  lemma {:induction false} MasksLength(ts: seq<Tile>, n: nat, mask: seq<Tile> -> Block)
    requires 0 < n <= |ts|
    ensures |Masks(ts, n, mask)| + ALPHA_BLOCK == ALPHA_BLOCK * NumLocs(ts, n)
  {
    if n > 1 {
      MasksLength(ts, n - 1, mask);
    }
  }

  /** The strips of a prefix of a row: the ones already closed and the last one, still open to
      widening. */
  datatype Runs = Runs(closed: seq<Strip>, open: Strip)

  /** All strips of `r`, the open one last. */
  function AllRuns(r: Runs): seq<Strip>
  {
    r.closed + [r.open]
  }

  /** The three ways the tile `ts[i]` extends the strips `r` of the first `i` tiles: a tile past
      the adjacent column closes the open strip and opens a new one whose masks begin after the
      blocks of all earlier locations (`base` is the storage length at the start), a tile in the
      adjacent column widens the open strip, and a tile in the same column changes nothing.
      `edge(p)` is the pixel coverage left of a strip that starts after the tiles `p`. */
  function NextRuns(r: Runs, ts: seq<Tile>, i: nat, rowY: u16, base: nat,
                    edge: seq<Tile> -> PixelCoverage): Runs
    requires 1 <= i < |ts| && r.open.width < U16_MAX
    requires base + ALPHA_BLOCK * NumLocs(ts, i) < 0x1_0000_0000
  {
    if ts[i - 1].x + 1 < ts[i].x then
      Runs(AllRuns(r), Strip(ts[i].x, rowY, 1, edge(ts[..i]), base + ALPHA_BLOCK * NumLocs(ts, i)))
    else if ts[i - 1].x < ts[i].x then
      Runs(r.closed, r.open.(width := r.open.width + 1))
    else
      r
  }

  /** The strips of the first `n` tiles of a sorted row, specified tile by tile. The open strip
      ends at the `n`-th tile's column and its masks end at the block of the `n`-th location. */
  function StripRuns(ts: seq<Tile>, n: nat, rowY: u16, base: nat, edge: seq<Tile> -> PixelCoverage): (r: Runs)
    requires RowShape(ts, base) && 1 <= n <= |ts|
    ensures |r.closed| < n
    ensures r.open.width >= 1 && r.open.x + r.open.width == ts[n - 1].x + 1
    ensures r.open.alphaIdx + ALPHA_BLOCK * r.open.width == base + ALPHA_BLOCK * NumLocs(ts, n)
  {
    if n == 1 then Runs([], Strip(ts[0].x, rowY, 1, edge([]), base))
    else NextRuns(StripRuns(ts, n - 1, rowY, base, edge), ts, n - 1, rowY, base, edge)
  }

  /** The strips `generate_strips` pushes for a nonempty sorted row. */
  function RowStrips(ts: seq<Tile>, rowY: u16, base: nat, edge: seq<Tile> -> PixelCoverage): seq<Strip>
    requires RowShape(ts, base) && ts != []
  {
    AllRuns(StripRuns(ts, |ts|, rowY, base, edge))
  }

  lemma AppendAssoc<T>(a: seq<T>, b: seq<T>, c: seq<T>)
    ensures (a + b) + c == a + (b + c)
  {
  }

  // ---------------------------------------------------------------------------------------------
  // The loop of `generate_strips`

  /** The variables of the tile loop: the previous tile, the strip being built (its width is
      written only when it is pushed) and the alpha storage and strip list so far. */
  datatype Walk = Walk(prev: Tile, strip: Strip, alpha: seq<u8>, strips: seq<Strip>)

  /** The loop state after the first `i` tiles: the blocks of the locations left so far are
      appended, the closed strips of those tiles are pushed, and the open one is being built. */
  ghost function Walked(tiles: seq<Tile>, i: nat, alpha: seq<u8>, strips: seq<Strip>, rowY: u16,
                        mask: seq<Tile> -> Block, edge: seq<Tile> -> PixelCoverage): Walk
    requires RowShape(tiles, |alpha|) && 1 <= i <= |tiles|
  {
    var r := StripRuns(tiles, i, rowY, |alpha|, edge);
    Walk(tiles[i - 1], r.open.(width := 0), alpha + Masks(tiles, i, mask), strips + r.closed)
  }

  /** The strip being built starts at or before the previous tile, and the storage has room for
      a block per remaining tile. */
  lemma WalkRoom(tiles: seq<Tile>, i: nat, alpha: seq<u8>, strips: seq<Strip>, rowY: u16,
                 mask: seq<Tile> -> Block, edge: seq<Tile> -> PixelCoverage)
    requires RowShape(tiles, |alpha|) && 1 <= i <= |tiles|
    ensures var w := Walked(tiles, i, alpha, strips, rowY, mask, edge);
      && w.strip.x <= w.prev.x < COORD_LIMIT
      && |w.alpha| + ALPHA_BLOCK <= |alpha| + ALPHA_BLOCK * i
  {
    MasksLength(tiles, i, mask);
  }

  /** The walk starts with the first tile as `prev_tile` and an empty strip at its column. */
  lemma WalkStart(tiles: seq<Tile>, alpha: seq<u8>, strips: seq<Strip>, rowY: u16,
                  mask: seq<Tile> -> Block, edge: seq<Tile> -> PixelCoverage)
    requires RowShape(tiles, |alpha|) && tiles != []
    ensures Walk(tiles[0], Strip(tiles[0].x, rowY, 0, edge([]), |alpha|), alpha, strips)
         == Walked(tiles, 1, alpha, strips, rowY, mask, edge)
  {
    assert alpha + [] == alpha;
    assert strips + [] == strips;
  }

  lemma AlphaStep(tiles: seq<Tile>, i: nat, alpha: seq<u8>, mask: seq<Tile> -> Block, alpha1: seq<u8>)
    requires 1 <= i < |tiles|
    requires alpha1 == if tiles[i - 1].x < tiles[i].x then (alpha + Masks(tiles, i, mask)) + mask(tiles[..i])
                       else alpha + Masks(tiles, i, mask)
    ensures alpha1 == alpha + Masks(tiles, i + 1, mask)
  {
    if tiles[i - 1].x < tiles[i].x {
      AppendAssoc(alpha, Masks(tiles, i, mask), mask(tiles[..i]));
    }
  }

  /** A tile past the adjacent column: the built strip, closed at the previous tile, is pushed,
      and the new one starts after the blocks of all locations so far. */
  lemma StripsGap(tiles: seq<Tile>, i: nat, alpha: seq<u8>, strips: seq<Strip>, rowY: u16,
                  mask: seq<Tile> -> Block, edge: seq<Tile> -> PixelCoverage, w: Walk)
    requires RowShape(tiles, |alpha|) && 1 <= i < |tiles| && tiles[i - 1].x + 1 < tiles[i].x
    requires w == Walked(tiles, i, alpha, strips, rowY, mask, edge)
    ensures var r' := StripRuns(tiles, i + 1, rowY, |alpha|, edge);
      && w.strip.x <= w.prev.x
      && w.strips + [w.strip.(width := w.prev.x - w.strip.x + 1)] == strips + r'.closed
      && r'.open == Strip(tiles[i].x, rowY, 1, edge(tiles[..i]), |alpha| + ALPHA_BLOCK * NumLocs(tiles, i))
  {
    var r := StripRuns(tiles, i, rowY, |alpha|, edge);
    assert w.strip.(width := w.prev.x - w.strip.x + 1) == r.open;
    AppendAssoc(strips, r.closed, [r.open]);
  }

  /** One iteration of the tile loop, for a tile that is not the gate closer. */
  lemma WalkStep(tiles: seq<Tile>, i: nat, alpha: seq<u8>, strips: seq<Strip>, rowY: u16,
                 mask: seq<Tile> -> Block, edge: seq<Tile> -> PixelCoverage, w: Walk, w1: Walk)
    requires RowShape(tiles, |alpha|) && 1 <= i < |tiles|
    requires w == Walked(tiles, i, alpha, strips, rowY, mask, edge)
    requires w1.prev == tiles[i]
    requires w1.alpha == if w.prev.x < tiles[i].x then w.alpha + mask(tiles[..i]) else w.alpha
    requires w.prev.x + 1 < tiles[i].x ==>
      && w.strip.x <= w.prev.x
      && w1.strips == w.strips + [w.strip.(width := w.prev.x - w.strip.x + 1)]
      && w1.strip == Strip(tiles[i].x, rowY, 0, edge(tiles[..i]), w1.strip.alphaIdx)
      && w1.strip.alphaIdx == |w1.alpha|
    requires !(w.prev.x + 1 < tiles[i].x) ==> w1.strips == w.strips && w1.strip == w.strip
    ensures w1 == Walked(tiles, i + 1, alpha, strips, rowY, mask, edge)
  {
    AlphaStep(tiles, i, alpha, mask, w1.alpha);
    if tiles[i - 1].x + 1 < tiles[i].x {
      StripsGap(tiles, i, alpha, strips, rowY, mask, edge, w);
      MasksLength(tiles, i, mask);
    }
  }

  /** The gate closer ends the walk: after it the appended bytes and strips are the whole
      specification. */
  lemma WalkDone(tiles: seq<Tile>, alpha: seq<u8>, strips: seq<Strip>, rowY: u16,
                 mask: seq<Tile> -> Block, edge: seq<Tile> -> PixelCoverage,
                 prev: Tile, strip: Strip, alpha': seq<u8>, strips': seq<Strip>)
    requires RowShape(tiles, |alpha|) && tiles != []
    requires Walk(prev, strip, alpha', strips') == Walked(tiles, |tiles|, alpha, strips, rowY, mask, edge)
    ensures strip.x <= prev.x < COORD_LIMIT
    ensures alpha' + mask(tiles) == alpha + AllMasks(tiles, mask)
    ensures strips' + [strip.(width := prev.x - strip.x + 1)] == strips + RowStrips(tiles, rowY, |alpha|, edge)
  {
    var r := StripRuns(tiles, |tiles|, rowY, |alpha|, edge);
    AppendAssoc(alpha, Masks(tiles, |tiles|, mask), mask(tiles));
    assert strip.(width := prev.x - strip.x + 1) == r.open;
    AppendAssoc(strips, r.closed, [r.open]);
  }

  /** One iteration of the tile loop of `generate_strips` for the real tile `tiles[i]`: flush
      the block of the location being left, and push the built strip and start a new one when the
      tile is not in the adjacent column. */
  method VisitTile(tiles: seq<Tile>, i: nat, alpha: seq<u8>, strips: seq<Strip>, rowY: u16,
                   mask: seq<Tile> -> Block, edge: seq<Tile> -> PixelCoverage,
                   prev: Tile, strip: Strip, alpha': seq<u8>, strips': seq<Strip>)
    returns (strip1: Strip, alpha1: seq<u8>, strips1: seq<Strip>)
    requires RowShape(tiles, |alpha|) && 1 <= i < |tiles|
    requires Walk(prev, strip, alpha', strips') == Walked(tiles, i, alpha, strips, rowY, mask, edge)
    ensures Walk(tiles[i], strip1, alpha1, strips1) == Walked(tiles, i + 1, alpha, strips, rowY, mask, edge)
  {
    var tile := tiles[i];
    WalkRoom(tiles, i, alpha, strips, rowY, mask, edge);
    strip1, alpha1, strips1 := strip, alpha', strips';
    if prev.x < tile.x {
      alpha1 := alpha1 + mask(tiles[..i]);
    }
    if prev.x + 1 < tile.x {
      strip1 := strip1.(width := prev.x - strip1.x + 1);
      strips1 := strips1 + [strip1];
      strip1 := Strip(tile.x, rowY, 0, edge(tiles[..i]), |alpha1|);
    }
    WalkStep(tiles, i, alpha, strips, rowY, mask, edge, Walk(prev, strip, alpha', strips'),
             Walk(tile, strip1, alpha1, strips1));
  }

  /** The iteration of the tile loop of `generate_strips` for the gate closer: both tests pass
      against its column `u16::MAX`, so it flushes the last location and pushes the last strip,
      and then the loop breaks. */
  method VisitGateCloser(tiles: seq<Tile>, alpha: seq<u8>, strips: seq<Strip>, rowY: u16,
                         mask: seq<Tile> -> Block, edge: seq<Tile> -> PixelCoverage,
                         prev: Tile, strip: Strip, alpha': seq<u8>, strips': seq<Strip>)
    returns (alpha1: seq<u8>, strips1: seq<Strip>)
    requires RowShape(tiles, |alpha|) && tiles != []
    requires Walk(prev, strip, alpha', strips') == Walked(tiles, |tiles|, alpha, strips, rowY, mask, edge)
    ensures alpha1 == alpha + AllMasks(tiles, mask)
    ensures strips1 == strips + RowStrips(tiles, rowY, |alpha|, edge)
  {
    WalkDone(tiles, alpha, strips, rowY, mask, edge, prev, strip, alpha', strips');
    alpha1, strips1 := alpha', strips';
    if prev.x < GATE_CLOSER.x {
      alpha1 := alpha1 + mask(tiles);
    }
    if prev.x + 1 < GATE_CLOSER.x {
      strips1 := strips1 + [strip.(width := prev.x - strip.x + 1)];
    }
  }

  /** `generate_strips`: walks the sorted tiles of row `rowY` followed by the gate closer,
      appending alpha blocks to `alpha` and finished strips to `strips`. `lines` is read only to
      test for emptiness and, by the coverage computation, at each tile's `line_idx`. */
  method GenerateStrips(row: TileRow, rowY: u16, lines: seq<Line>, alpha: seq<u8>, strips: seq<Strip>,
                        mask: seq<Tile> -> Block, edge: seq<Tile> -> PixelCoverage)
    returns (alpha': seq<u8>, strips': seq<Strip>)
    requires RowShape(row.tiles, |alpha|) && rowY < COORD_LIMIT
    requires lines != [] ==> forall j :: 0 <= j < |row.tiles| ==> row.tiles[j].lineIdx < |lines|
    ensures row.tiles == [] || lines == [] ==> alpha' == alpha && strips' == strips
    ensures row.tiles != [] && lines != [] ==>
      && alpha' == alpha + AllMasks(row.tiles, mask)
      && strips' == strips + RowStrips(row.tiles, rowY, |alpha|, edge)
  {
    if |row.tiles| == 0 || |lines| == 0 {
      return alpha, strips;
    }
    var tiles := row.tiles;
    var prev := tiles[0];
    var strip := Strip(prev.x, rowY, 0, edge([]), |alpha|);
    alpha', strips' := alpha, strips;
    WalkStart(tiles, alpha, strips, rowY, mask, edge);

    // The first tile is the initial `prev_tile`, so its iteration pushes nothing.
    var i := 1;
    while i < |tiles|
      invariant 1 <= i <= |tiles|
      invariant Walk(prev, strip, alpha', strips') == Walked(tiles, i, alpha, strips, rowY, mask, edge)
      decreases |tiles| - i
    {
      var tile := tiles[i];
      strip, alpha', strips' := VisitTile(tiles, i, alpha, strips, rowY, mask, edge, prev, strip, alpha', strips');
      prev := tile;
      i := i + 1;
    }
    alpha', strips' := VisitGateCloser(tiles, alpha, strips, rowY, mask, edge, prev, strip, alpha', strips');
  }

  // ---------------------------------------------------------------------------------------------
  // What the specification functions promise

  /** The distinct tile columns occupied by the first `n` tiles, left to right: a column is
      listed at its first tile. */
  function Columns(ts: seq<Tile>, n: nat): seq<int>
    requires n <= |ts|
  {
    if n == 0 then []
    else Columns(ts, n - 1) + (if n == 1 || ts[n - 2].x < ts[n - 1].x then [ts[n - 1].x] else [])
  }

  /** A tile in the column of the one before adds no column. */
  lemma ColumnsRepeat(ts: seq<Tile>, n: nat)
    requires 1 < n <= |ts| && ts[n - 2].x == ts[n - 1].x
    ensures Columns(ts, n) == Columns(ts, n - 1)
  {
    assert Columns(ts, n) == Columns(ts, n - 1) + [];
  }

  /** In a sorted row, `Columns` lists exactly the columns of those tiles. */
  lemma {:induction false} ColumnsMembers(ts: seq<Tile>, n: nat, c: int)
    requires SortedByX(ts) && n <= |ts|
    ensures c in Columns(ts, n) <==> exists j :: 0 <= j < n && ts[j].x == c
  {
    if n > 0 {
      ColumnsMembers(ts, n - 1, c);
      if n > 1 && !(ts[n - 2].x < ts[n - 1].x) {
        assert ts[n - 2].x == ts[n - 1].x;
        ColumnsRepeat(ts, n);
      }
    }
  }

  /** In a sorted row, `Columns` is strictly increasing and ends at the last tile's column, so
      every column is listed once. */
  lemma {:induction false} ColumnsAscending(ts: seq<Tile>, n: nat)
    requires SortedByX(ts) && 0 < n <= |ts|
    ensures Columns(ts, n) != [] && Last(Columns(ts, n)) == ts[n - 1].x
    ensures forall j, k :: 0 <= j < k < |Columns(ts, n)| ==> Columns(ts, n)[j] < Columns(ts, n)[k]
  {
    if n > 1 {
      ColumnsAscending(ts, n - 1);
      if !(ts[n - 2].x < ts[n - 1].x) {
        ColumnsRepeat(ts, n);
      }
    }
  }

  /** A location is a distinct occupied column. */
  lemma {:induction false} NumLocsCountsColumns(ts: seq<Tile>, n: nat)
    requires n <= |ts|
    ensures NumLocs(ts, n) == |Columns(ts, n)|
  {
    if n > 1 {
      NumLocsCountsColumns(ts, n - 1);
    }
  }

  /** `generate_strips` appends one 16-byte block per distinct occupied column: one each time the
      column advances and one for the gate closer. */
  lemma AllMasksPerColumn(ts: seq<Tile>, mask: seq<Tile> -> Block)
    requires ts != []
    ensures |AllMasks(ts, mask)| == ALPHA_BLOCK * |Columns(ts, |ts|)|
  {
    MasksLength(ts, |ts|, mask);
    NumLocsCountsColumns(ts, |ts|);
  }

  /** `b` may follow `a` in a row: at least one empty column lies between them and `b`'s masks
      start right after `a`'s. */
  predicate Follows(a: Strip, b: Strip)
  {
    a.x + a.width < b.x && a.alphaIdx + ALPHA_BLOCK * a.width == b.alphaIdx
  }

  /** The strips of one row as `generate_strips` lays them out: all in row `rowY`, each at least
      one tile wide, the first one's masks at `base` and each next one following the one before. */
  ghost predicate Chained(r: seq<Strip>, rowY: u16, base: nat)
  {
    if r == [] then true
    else
      && Last(r).y == rowY && Last(r).width >= 1
      && (if |r| == 1 then Last(r).alphaIdx == base
          else Chained(r[..|r| - 1], rowY, base) && Follows(r[|r| - 2], Last(r)))
  }

  lemma ChainedSnoc(r: seq<Strip>, s: Strip, rowY: u16, base: nat)
    requires Chained(r, rowY, base) && s.y == rowY && s.width >= 1
    requires r == [] ==> s.alphaIdx == base
    requires r != [] ==> Follows(Last(r), s)
    ensures Chained(r + [s], rowY, base)
  {
    var r' := r + [s];
    assert r'[..|r'| - 1] == r;
    if r != [] {
      assert r'[|r'| - 2] == Last(r);
    }
  }

  lemma ChainedWiden(init: seq<Strip>, l: Strip, rowY: u16, base: nat)
    requires Chained(init + [l], rowY, base) && l.width < U16_MAX
    ensures Chained(init + [l.(width := l.width + 1)], rowY, base)
  {
    var r := init + [l];
    var r' := init + [l.(width := l.width + 1)];
    assert r[..|r| - 1] == init && r'[..|r'| - 1] == init;
    if init != [] {
      assert r'[|r'| - 2] == r[|r| - 2];
    }
  }

  /** The three cases of `StripRuns`, each stated on the strips of one tile fewer. */
  lemma ChainedStep(ts: seq<Tile>, n: nat, rowY: u16, base: nat, edge: seq<Tile> -> PixelCoverage)
    requires RowShape(ts, base) && 1 < n <= |ts|
    requires Chained(AllRuns(StripRuns(ts, n - 1, rowY, base, edge)), rowY, base)
    ensures Chained(AllRuns(StripRuns(ts, n, rowY, base, edge)), rowY, base)
  {
    var r := StripRuns(ts, n - 1, rowY, base, edge);
    if ts[n - 2].x + 1 < ts[n - 1].x {
      ChainedSnoc(AllRuns(r), StripRuns(ts, n, rowY, base, edge).open, rowY, base);
    } else if ts[n - 2].x < ts[n - 1].x {
      ChainedWiden(r.closed, r.open, rowY, base);
    }
  }

  /** The strips of a row are chained. */
  lemma {:induction false} StripRunsChained(ts: seq<Tile>, n: nat, rowY: u16, base: nat,
                                            edge: seq<Tile> -> PixelCoverage)
    requires RowShape(ts, base) && 1 <= n <= |ts|
    ensures Chained(AllRuns(StripRuns(ts, n, rowY, base, edge)), rowY, base)
  {
    if n == 1 {
      ChainedSnoc([], StripRuns(ts, 1, rowY, base, edge).open, rowY, base);
    } else {
      StripRunsChained(ts, n - 1, rowY, base, edge);
      ChainedStep(ts, n, rowY, base, edge);
    }
  }

  /** The columns `lo`, `lo + 1`, ..., `hi - 1`. */
  function Range(lo: int, hi: int): (r: seq<int>)
    ensures |r| == if lo < hi then hi - lo else 0
    decreases hi - lo
  {
    if lo >= hi then [] else Range(lo, hi - 1) + [hi - 1]
  }

  lemma RangeOne(c: int)
    ensures Range(c, c + 1) == [c]
  {
    assert Range(c, c + 1) == [] + [c];
  }

  /** The columns the strips span, left to right. */
  function Spans(r: seq<Strip>): seq<int>
  {
    if r == [] then [] else Spans(r[..|r| - 1]) + Range(Last(r).x, Last(r).x + Last(r).width)
  }

  lemma SpansSnoc(r: seq<Strip>, s: Strip)
    ensures Spans(r + [s]) == Spans(r) + Range(s.x, s.x + s.width)
  {
    assert (r + [s])[..|r|] == r;
  }

  lemma SpansWiden(init: seq<Strip>, l: Strip)
    requires l.width < U16_MAX
    ensures Spans(init + [l.(width := l.width + 1)]) == Spans(init + [l]) + [l.x + l.width]
  {
    SpansSnoc(init, l.(width := l.width + 1));
    SpansSnoc(init, l);
    assert Range(l.x, l.x + l.width + 1) == Range(l.x, l.x + l.width) + [l.x + l.width];
    AppendAssoc(Spans(init), Range(l.x, l.x + l.width), [l.x + l.width]);
  }

  lemma CoverGap(ts: seq<Tile>, n: nat, rowY: u16, base: nat, edge: seq<Tile> -> PixelCoverage)
    requires RowShape(ts, base) && 1 < n <= |ts| && ts[n - 2].x + 1 < ts[n - 1].x
    requires Spans(AllRuns(StripRuns(ts, n - 1, rowY, base, edge))) == Columns(ts, n - 1)
    ensures Spans(AllRuns(StripRuns(ts, n, rowY, base, edge))) == Columns(ts, n)
  {
    var t := ts[n - 1].x;
    SpansSnoc(AllRuns(StripRuns(ts, n - 1, rowY, base, edge)), StripRuns(ts, n, rowY, base, edge).open);
    RangeOne(t);
  }

  lemma CoverAdjacent(ts: seq<Tile>, n: nat, rowY: u16, base: nat, edge: seq<Tile> -> PixelCoverage)
    requires RowShape(ts, base) && 1 < n <= |ts| && ts[n - 2].x + 1 == ts[n - 1].x
    requires Spans(AllRuns(StripRuns(ts, n - 1, rowY, base, edge))) == Columns(ts, n - 1)
    ensures Spans(AllRuns(StripRuns(ts, n, rowY, base, edge))) == Columns(ts, n)
  {
    var r := StripRuns(ts, n - 1, rowY, base, edge);
    SpansWiden(r.closed, r.open);
  }

  lemma CoverStep(ts: seq<Tile>, n: nat, rowY: u16, base: nat, edge: seq<Tile> -> PixelCoverage)
    requires RowShape(ts, base) && 1 < n <= |ts|
    requires Spans(AllRuns(StripRuns(ts, n - 1, rowY, base, edge))) == Columns(ts, n - 1)
    ensures Spans(AllRuns(StripRuns(ts, n, rowY, base, edge))) == Columns(ts, n)
  {
    if ts[n - 2].x + 1 < ts[n - 1].x {
      CoverGap(ts, n, rowY, base, edge);
    } else if ts[n - 2].x < ts[n - 1].x {
      CoverAdjacent(ts, n, rowY, base, edge);
    } else {
      ColumnsRepeat(ts, n);
    }
  }

  lemma CoverFirst(ts: seq<Tile>, rowY: u16, base: nat, edge: seq<Tile> -> PixelCoverage)
    requires RowShape(ts, base) && 1 <= |ts|
    ensures Spans(AllRuns(StripRuns(ts, 1, rowY, base, edge))) == Columns(ts, 1)
  {
    SpansSnoc([], StripRuns(ts, 1, rowY, base, edge).open);
    RangeOne(ts[0].x);
  }

  /** The strips span exactly the occupied columns, each once and left to right: with `Chained`,
      they are the maximal runs of consecutive occupied columns. */
  lemma {:induction false} StripRunsCover(ts: seq<Tile>, n: nat, rowY: u16, base: nat,
                                          edge: seq<Tile> -> PixelCoverage)
    requires RowShape(ts, base) && 1 <= n <= |ts|
    ensures Spans(AllRuns(StripRuns(ts, n, rowY, base, edge))) == Columns(ts, n)
  {
    if n == 1 {
      CoverFirst(ts, rowY, base, edge);
    } else {
      StripRunsCover(ts, n - 1, rowY, base, edge);
      CoverStep(ts, n, rowY, base, edge);
    }
  }
}
