/** Tiles and tile rows (bintje/src/tile.rs): the 4x4-pixel tile, its ordering by column,
    the per-row tile buffer and the integer skeleton of `generate_tiles`. */
module Tiles {
  import opened Types

  /** Tile width and height in pixels. */
  const TILE_WIDTH: nat := 4
  const TILE_HEIGHT: nat := 4

  /** A tile at column `x` of its row, touched by the line with index `lineIdx`. */
  datatype Tile = Tile(x: u16, lineIdx: u32)

  datatype Ordering = Less | Equal | Greater

  /** `PartialEq for Tile`: two tiles are equal when they sit in the same column. */
  predicate TileEq(a: Tile, b: Tile)
  {
    a.x == b.x
  }

  /** `Ord for Tile`: tiles are ordered by column alone. */
  function TileCmp(a: Tile, b: Tile): Ordering
  {
    if a.x < b.x then Less else if a.x == b.x then Equal else Greater
  }

  /** The order is a total preorder that agrees with `TileEq` and never looks at `lineIdx`. */
  lemma TileOrdLaws(a: Tile, b: Tile, c: Tile, k: u32)
    ensures TileEq(a, b) <==> TileCmp(a, b) == Equal
    ensures TileCmp(a, b) == Less <==> TileCmp(b, a) == Greater
    ensures TileCmp(a, b) != Greater && TileCmp(b, c) != Greater ==> TileCmp(a, c) != Greater
    ensures TileEq(a, a.(lineIdx := k)) && TileCmp(a.(lineIdx := k), b) == TileCmp(a, b)
  {
  }

  /** Non-decreasing in `x`: what `sort_unstable` establishes for this order. */
  ghost predicate SortedByX(ts: seq<Tile>)
  {
    forall i, j :: 0 <= i < j < |ts| ==> ts[i].x <= ts[j].x
  }

  /** Inserts `t` before the first tile of a column greater than or equal to its own. */
  function InsertByX(t: Tile, ts: seq<Tile>): (r: seq<Tile>)
    ensures |r| == |ts| + 1 && (r[0] == t || (ts != [] && r[0] == ts[0]))
  {
    if ts == [] then [t]
    else if t.x <= ts[0].x then [t] + ts
    else [ts[0]] + InsertByX(t, ts[1..])
  }

  lemma ConsSorted(a: Tile, ts: seq<Tile>)
    requires SortedByX(ts) && (ts != [] ==> a.x <= ts[0].x)
    ensures SortedByX([a] + ts)
  {
  }

  /** Insertion keeps a row sorted. */
  lemma {:induction false} InsertByXSorted(t: Tile, ts: seq<Tile>)
    requires SortedByX(ts)
    ensures SortedByX(InsertByX(t, ts))
  {
    if ts == [] {
    } else if t.x <= ts[0].x {
      ConsSorted(t, ts);
    } else {
      assert SortedByX(ts[1..]);
      InsertByXSorted(t, ts[1..]);
      ConsSorted(ts[0], InsertByX(t, ts[1..]));
    }
  }

  /** Insertion adds exactly `t`. */
  lemma {:induction false} InsertByXPerm(t: Tile, ts: seq<Tile>)
    ensures multiset(InsertByX(t, ts)) == multiset(ts) + multiset{t}
  {
    if ts != [] && t.x > ts[0].x {
      InsertByXPerm(t, ts[1..]);
      assert ts == [ts[0]] + ts[1..];
    }
  }

  /** A reference sort by column: the tile sequence `TileRow::sort` may produce. */
  function SortByX(ts: seq<Tile>): (r: seq<Tile>)
    ensures |r| == |ts|
  {
    if ts == [] then [] else InsertByX(ts[0], SortByX(ts[1..]))
  }

  /** The reference sort is sorted by column... */
  lemma {:induction false} SortByXSorted(ts: seq<Tile>)
    ensures SortedByX(SortByX(ts))
  {
    if ts != [] {
      SortByXSorted(ts[1..]);
      InsertByXSorted(ts[0], SortByX(ts[1..]));
    }
  }

  /** ... and a permutation of its input. */
  lemma {:induction false} SortByXPerm(ts: seq<Tile>)
    ensures multiset(SortByX(ts)) == multiset(ts)
  {
    if ts != [] {
      SortByXPerm(ts[1..]);
      InsertByXPerm(ts[0], SortByX(ts[1..]));
      assert ts == [ts[0]] + ts[1..];
    }
  }

  /** Four per-pixel `f32` values, one for each pixel row of a tile. */
  type Coverage = s: seq<F32> | |s| == TILE_HEIGHT witness [ZERO_F32, ZERO_F32, ZERO_F32, ZERO_F32]

  const ZERO_COVERAGE: Coverage := [ZERO_F32, ZERO_F32, ZERO_F32, ZERO_F32]

  /** One row of tiles, with the winding and per-pixel area coverage of the geometry that lies
      left of the viewport. */
  class TileRow {
    var tiles: seq<Tile>
    var winding: int
    var areaCoverage: Coverage

    /** `TileRow::new`. */
    constructor ()
      ensures tiles == [] && winding == 0 && areaCoverage == ZERO_COVERAGE
    {
      tiles := [];
      winding := 0;
      areaCoverage := ZERO_COVERAGE;
    }

    /** `TileRow::sort`: an unstable sort, so only sortedness and permutation are promised. */
    method Sort()
      modifies this
      ensures SortedByX(tiles) && multiset(tiles) == multiset(old(tiles))
      ensures winding == old(winding) && areaCoverage == old(areaCoverage)
    {
      SortByXSorted(tiles);
      SortByXPerm(tiles);
      tiles := SortByX(tiles);
    }

    /** `TileRow::clear`: back to the state `new` produces. */
    method Clear()
      modifies this
      ensures tiles == [] && winding == 0 && areaCoverage == ZERO_COVERAGE
    {
      tiles := [];
      winding := 0;
      areaCoverage := ZERO_COVERAGE;
    }
  }

  /** What the floating-point geometry of one line yields for the tile row `y`. */
  datatype RowGeom = RowGeom(
    leftX: u16,            // `row_left_x as u16`
    rightX: u16,           // `row_right_x as u16`
    windingStep: int,      // `sign as i32 * (crossing as i32)`
    coverage: Coverage)    // the four per-pixel area terms added to `area_coverage`

  /** The integers `generate_tiles` derives from one line's floating-point coordinates. */
  datatype LineGeom = LineGeom(
    vertical: bool,        // `line_left_x == line_right_x`
    leftOfViewport: bool,  // `line_left_x < 0.`
    topY: u16,             // `line_top_y as u16`
    bottomY: u16,          // `line_bottom_y as u16`
    column: u16,           // `p0_x as u16`, the column of a vertical line
    row: nat -> RowGeom)   // per-row results, by row index

  function Min(a: int, b: int): int
  {
    if a <= b then a else b
  }

  /** First row visited for a line when the slice holds `n` rows. Vertical lines clamp to the last
      row, the others to one past it (so a line wholly below is skipped). */
  function TopRow(g: LineGeom, n: nat): nat
    requires n > 0
  {
    if g.vertical then Min(g.topY, n - 1) else Min(g.topY, n)
  }

  /** Last row visited (inclusive). */
  function BottomRow(g: LineGeom, n: nat): nat
    requires n > 0
  {
    Min(g.bottomY, n - 1)
  }

  predicate Visits(g: LineGeom, n: nat, y: nat)
    requires n > 0
  {
    TopRow(g, n) <= y <= BottomRow(g, n)
  }

  /** The rows a line visits never extend past the last row of the slice. */
  lemma VisitedRowsClamped(g: LineGeom, n: nat, y: nat)
    requires n > 0 && Visits(g, n, y)
    ensures y <= n - 1
    ensures BottomRow(g, n) <= n - 1
  {
  }

  /** End (exclusive) of the column run a non-vertical line pushes into row `y`. */
  function RunEnd(g: LineGeom, y: nat, widthInTiles: nat): int
  {
    Min(g.row(y).rightX + 1, widthInTiles)
  }

  /** The tiles `Tile { x, line_idx }` for `x` in `lo..hi`. */
  function Run(lo: int, hi: int, lineIdx: u32): (r: seq<Tile>)
    requires 0 <= lo
    requires hi <= 0x1_0000
    decreases hi - lo
  {
    if lo >= hi then [] else [Tile(lo, lineIdx)] + Run(lo + 1, hi, lineIdx)
  }

  /** A valid geometry: the winding steps are signs, and in the rows a non-vertical line visits
      `row_right_x as u16 + 1` does not overflow. */
  ghost predicate ValidGeom(g: LineGeom, n: nat)
  {
    && (forall y: nat :: -1 <= g.row(y).windingStep <= 1)
    && (n > 0 && !g.vertical ==> forall y: nat :: Visits(g, n, y) ==> g.row(y).rightX < U16_MAX)
  }

  /** The tiles the line with index `i` pushes into row `y`. */
  function LineTilesAt(g: LineGeom, i: u32, n: nat, widthInTiles: u16, y: nat): seq<Tile>
    requires n > 0
  {
    if !Visits(g, n, y) then []
    else if g.vertical then (if g.leftOfViewport then [] else [Tile(g.column, i)])
    else Run(g.row(y).leftX, RunEnd(g, y, widthInTiles), i)
  }

  /** What the line adds to `row.winding` of row `y`. */
  function LineWindingAt(g: LineGeom, n: nat, y: nat): int
    requires n > 0
  {
    if Visits(g, n, y) && g.leftOfViewport then g.row(y).windingStep else 0
  }

  /** `+=` of the four per-pixel `f32` terms, with `add` standing for `f32` addition. */
  function AddCoverage(cov: Coverage, terms: Coverage, add: (F32, F32) -> F32): Coverage
  {
    [add(cov[0], terms[0]), add(cov[1], terms[1]), add(cov[2], terms[2]), add(cov[3], terms[3])]
  }

  /** Row `y`'s area coverage after the line has been processed. */
  function LineCoverageAt(cov: Coverage, g: LineGeom, n: nat, y: nat, add: (F32, F32) -> F32): Coverage
    requires n > 0
  {
    if Visits(g, n, y) && g.leftOfViewport then AddCoverage(cov, g.row(y).coverage, add) else cov
  }

  ghost predicate ValidGeoms(geoms: seq<LineGeom>, n: nat)
  {
    forall i :: 0 <= i < |geoms| ==> ValidGeom(geoms[i], n)
  }

  /** All tiles pushed into row `y` by the first `m` lines, in push order. */
  function RowTiles(geoms: seq<LineGeom>, m: nat, n: nat, widthInTiles: u16, y: nat): seq<Tile>
    requires n > 0 && m <= |geoms| <= 0x1_0000_0000
  {
    if m == 0 then []
    else RowTiles(geoms, m - 1, n, widthInTiles, y) + LineTilesAt(geoms[m - 1], m - 1, n, widthInTiles, y)
  }

  /** Everything the first `m` lines add to `row.winding` of row `y`. */
  function RowWinding(geoms: seq<LineGeom>, m: nat, n: nat, y: nat): int
    requires n > 0 && m <= |geoms|
  {
    if m == 0 then 0
    else RowWinding(geoms, m - 1, n, y) + LineWindingAt(geoms[m - 1], n, y)
  }

  /** Row `y`'s area coverage after the first `m` lines, starting from `cov`. */
  function RowCoverage(cov: Coverage, geoms: seq<LineGeom>, m: nat, n: nat, y: nat, add: (F32, F32) -> F32): Coverage
    requires n > 0 && m <= |geoms|
  {
    if m == 0 then cov
    else LineCoverageAt(RowCoverage(cov, geoms, m - 1, n, y, add), geoms[m - 1], n, y, add)
  }

  lemma {:induction false} RunShape(lo: int, hi: int, i: u32)
    requires 0 <= lo && hi <= 0x1_0000
    ensures |Run(lo, hi, i)| == if lo < hi then hi - lo else 0
    ensures forall k :: 0 <= k < |Run(lo, hi, i)| ==> Run(lo, hi, i)[k] == Tile(lo + k, i)
    decreases hi - lo
  {
    if lo < hi {
      RunShape(lo + 1, hi, i);
    }
  }

  /** For a non-vertical line, each visited row receives one contiguous, ascending run of columns,
      all inside the row (`< width_in_tiles`) and all tagged with the line's index. */
  lemma NonVerticalRun(g: LineGeom, i: u32, n: nat, widthInTiles: u16, y: nat)
    requires n > 0 && ValidGeom(g, n) && !g.vertical
    ensures var r := LineTilesAt(g, i, n, widthInTiles, y);
      && (r != [] ==> Visits(g, n, y))
      && forall k :: 0 <= k < |r| ==>
           r[k].x == g.row(y).leftX + k && r[k].x < widthInTiles && r[k].lineIdx == i
  {
    if Visits(g, n, y) {
      RunShape(g.row(y).leftX, RunEnd(g, y, widthInTiles), i);
    }
  }

  /** A vertical line left of the viewport pushes no tiles anywhere; it only changes the winding
      and the area coverage of the rows it visits. */
  lemma VerticalLeftPushesNoTiles(geoms: seq<LineGeom>, m: nat, n: nat, widthInTiles: u16, y: nat)
    requires n > 0 && m < |geoms| <= 0x1_0000_0000
    requires geoms[m].vertical && geoms[m].leftOfViewport
    ensures RowTiles(geoms, m + 1, n, widthInTiles, y) == RowTiles(geoms, m, n, widthInTiles, y)
    ensures RowWinding(geoms, m + 1, n, y)
         == RowWinding(geoms, m, n, y) + (if Visits(geoms[m], n, y) then geoms[m].row(y).windingStep else 0)
  {
    assert RowTiles(geoms, m, n, widthInTiles, y) + [] == RowTiles(geoms, m, n, widthInTiles, y);
  }

  /** Every tile in a row carries the index of a line that pushes exactly that tile into that row. */
  lemma {:induction false} TilesCarryLineIndex(geoms: seq<LineGeom>, m: nat, n: nat, widthInTiles: u16, y: nat, j: nat)
    requires n > 0 && ValidGeoms(geoms, n) && m <= |geoms| <= 0x1_0000_0000
    requires j < |RowTiles(geoms, m, n, widthInTiles, y)|
    ensures var t := RowTiles(geoms, m, n, widthInTiles, y)[j];
      t.lineIdx < m && t in LineTilesAt(geoms[t.lineIdx], t.lineIdx, n, widthInTiles, y)
  {
    var k := m - 1;
    var pre := RowTiles(geoms, k, n, widthInTiles, y);
    if j < |pre| {
      TilesCarryLineIndex(geoms, k, n, widthInTiles, y, j);
    } else if !geoms[k].vertical {
      NonVerticalRun(geoms[k], k, n, widthInTiles, y);
    }
  }

  ghost predicate Distinct(rows: seq<TileRow>)
  {
    forall a, b :: 0 <= a < b < |rows| ==> rows[a] != rows[b]
  }

  /** The fields of one `TileRow`, as a value. */
  datatype RowState = RowState(tiles: seq<Tile>, winding: int, coverage: Coverage)

  ghost function StateOf(row: TileRow): RowState
    reads row
  {
    RowState(row.tiles, row.winding, row.areaCoverage)
  }

  ghost function RowsOf(rows: seq<TileRow>): (r: seq<RowState>)
    reads rows
    ensures |r| == |rows|
  {
    seq(|rows|, y requires 0 <= y < |rows| reads rows => StateOf(rows[y]))
  }

  /** Row `y` after line `i` has been processed. */
  function UpdateRow(st: RowState, g: LineGeom, i: u32, n: nat, widthInTiles: u16, y: nat,
                     add: (F32, F32) -> F32): RowState
    requires n > 0
  {
    RowState(st.tiles + LineTilesAt(g, i, n, widthInTiles, y), st.winding + LineWindingAt(g, n, y),
             LineCoverageAt(st.coverage, g, n, y, add))
  }

  /** A row the line does not visit is left as it was. */
  lemma UpdateRowUnvisited(st: RowState, g: LineGeom, i: u32, n: nat, widthInTiles: u16, y: nat,
                           add: (F32, F32) -> F32)
    requires n > 0 && !Visits(g, n, y)
    ensures UpdateRow(st, g, i, n, widthInTiles, y, add) == st
  {
    assert st.tiles + [] == st.tiles;
  }

  /** All rows after line `i` has been processed. */
  function StepLine(rs: seq<RowState>, g: LineGeom, i: u32, widthInTiles: u16,
                    add: (F32, F32) -> F32): (r: seq<RowState>)
    requires |rs| > 0
    ensures |r| == |rs|
  {
    seq(|rs|, y requires 0 <= y < |rs| => UpdateRow(rs[y], g, i, |rs|, widthInTiles, y, add))
  }

  /** All rows after the first `m` lines have been processed in index order. */
  function StepLines(rs: seq<RowState>, geoms: seq<LineGeom>, m: nat, widthInTiles: u16,
                     add: (F32, F32) -> F32): (r: seq<RowState>)
    requires |rs| > 0 && m <= |geoms| <= 0x1_0000_0000
    ensures |r| == |rs|
  {
    if m == 0 then rs
    else StepLine(StepLines(rs, geoms, m - 1, widthInTiles, add), geoms[m - 1], m - 1, widthInTiles, add)
  }

  /** Processing the lines row-major (line by line, over all rows) gives each row exactly the
      tiles, winding and coverage its own line-by-line folds describe. */
  lemma {:induction false} StepLinesPerRow(rs: seq<RowState>, geoms: seq<LineGeom>, m: nat, widthInTiles: u16,
                                           add: (F32, F32) -> F32, y: nat)
    requires |rs| > 0 && m <= |geoms| <= 0x1_0000_0000 && y < |rs|
    ensures StepLines(rs, geoms, m, widthInTiles, add)[y] == RowState(
      rs[y].tiles + RowTiles(geoms, m, |rs|, widthInTiles, y),
      rs[y].winding + RowWinding(geoms, m, |rs|, y),
      RowCoverage(rs[y].coverage, geoms, m, |rs|, y, add))
  {
    if m > 0 {
      StepLinesPerRow(rs, geoms, m - 1, widthInTiles, add, y);
      AppendAssoc(rs[y].tiles, RowTiles(geoms, m - 1, |rs|, widthInTiles, y),
                  LineTilesAt(geoms[m - 1], m - 1, |rs|, widthInTiles, y));
    }
  }

  lemma AppendAssoc<T>(a: seq<T>, b: seq<T>, c: seq<T>)
    ensures (a + b) + c == a + (b + c)
  {
  }

  /** `for x_idx in lo..hi { row.tiles.push(Tile { x: x_idx, line_idx }) }`. */
  method PushRun(row: TileRow, lo: int, hi: int, lineIdx: u32)
    requires 0 <= lo && hi <= 0x1_0000
    modifies row
    ensures row.tiles == old(row.tiles) + Run(lo, hi, lineIdx)
    ensures row.winding == old(row.winding) && row.areaCoverage == old(row.areaCoverage)
  {
    var x := lo;
    while x < hi
      invariant lo <= x
      invariant row.tiles + Run(x, hi, lineIdx) == old(row.tiles) + Run(lo, hi, lineIdx)
      invariant row.winding == old(row.winding) && row.areaCoverage == old(row.areaCoverage)
      decreases hi - x
    {
      assert Run(x, hi, lineIdx) == [Tile(x, lineIdx)] + Run(x + 1, hi, lineIdx);
      row.tiles := row.tiles + [Tile(x, lineIdx)];
      x := x + 1;
    }
  }

  /** The body of `generate_tiles`' row loop for one visited row, in each of its three branches. */
  method ApplyLineToRow(row: TileRow, g: LineGeom, i: u32, n: nat, widthInTiles: u16, y: nat,
                        add: (F32, F32) -> F32)
    requires n > 0 && ValidGeom(g, n) && Visits(g, n, y)
    modifies row
    ensures StateOf(row) == UpdateRow(old(StateOf(row)), g, i, n, widthInTiles, y, add)
  {
    var rg := g.row(y);
    if g.vertical {
      if g.leftOfViewport {
        row.winding := row.winding + rg.windingStep;
        row.areaCoverage := AddCoverage(row.areaCoverage, rg.coverage, add);
      } else {
        row.tiles := row.tiles + [Tile(g.column, i)];
      }
    } else {
      if g.leftOfViewport {
        row.winding := row.winding + rg.windingStep;
        row.areaCoverage := AddCoverage(row.areaCoverage, rg.coverage, add);
      }
      PushRun(row, rg.leftX, RunEnd(g, y, widthInTiles), i);
    }
  }

  /** One iteration of `generate_tiles`' line loop: rows `TopRow..=BottomRow` get the line's
      tiles, winding and coverage; every other row is left alone. */
  method ApplyLine(rows: seq<TileRow>, g: LineGeom, i: u32, widthInTiles: u16, add: (F32, F32) -> F32)
    requires |rows| > 0 && Distinct(rows) && ValidGeom(g, |rows|)
    modifies rows
    ensures RowsOf(rows) == StepLine(old(RowsOf(rows)), g, i, widthInTiles, add)
  {
    var n := |rows|;
    ghost var before := RowsOf(rows);
    var yTop, yBottom := TopRow(g, n), BottomRow(g, n);
    var y := yTop;
    while y <= yBottom
      invariant yTop <= y && (y <= yBottom + 1 || y == yTop)
      invariant forall r :: 0 <= r < n ==>
        StateOf(rows[r]) == if yTop <= r < y then UpdateRow(before[r], g, i, n, widthInTiles, r, add) else before[r]
      decreases yBottom + 1 - y
    {
      ApplyLineToRow(rows[y], g, i, n, widthInTiles, y, add);
      y := y + 1;
    }
    assert forall r :: 0 <= r < n ==> RowsOf(rows)[r] == StateOf(rows[r]);
    VisitedRowsUpdated(before, RowsOf(rows), g, i, widthInTiles, add);
  }

  /** Updating the rows `TopRow..=BottomRow` and leaving the others alone is `StepLine`. */
  lemma VisitedRowsUpdated(before: seq<RowState>, after: seq<RowState>, g: LineGeom, i: u32,
                           widthInTiles: u16, add: (F32, F32) -> F32)
    requires |before| > 0 && |after| == |before|
    requires forall r :: 0 <= r < |before| ==>
      after[r] == if TopRow(g, |before|) <= r <= BottomRow(g, |before|)
                  then UpdateRow(before[r], g, i, |before|, widthInTiles, r, add) else before[r]
    ensures after == StepLine(before, g, i, widthInTiles, add)
  {
    var n := |before|;
    forall r | 0 <= r < n && !Visits(g, n, r)
      ensures UpdateRow(before[r], g, i, n, widthInTiles, r, add) == before[r]
    {
      UpdateRowUnvisited(before[r], g, i, n, widthInTiles, r, add);
    }
  }

  /** `generate_tiles`: every line, in index order, pushes its tiles into the rows it visits and
      updates their winding and area coverage. `geoms[i]` is what line `i`'s coordinates yield;
      `add` is `f32` addition. */
  method GenerateTiles(rows: seq<TileRow>, width: u16, geoms: seq<LineGeom>, add: (F32, F32) -> F32)
    requires |rows| > 0 || geoms == []
    requires |rows| < 0x1_0000 && |geoms| <= 0x1_0000_0000
    requires Distinct(rows) && ValidGeoms(geoms, |rows|)
    modifies rows
    ensures forall y :: 0 <= y < |rows| ==>
      && rows[y].tiles == old(rows[y].tiles) + RowTiles(geoms, |geoms|, |rows|, DivCeil(width, TILE_WIDTH), y)
      && rows[y].winding == old(rows[y].winding) + RowWinding(geoms, |geoms|, |rows|, y)
      && rows[y].areaCoverage == RowCoverage(old(rows[y].areaCoverage), geoms, |geoms|, |rows|, y, add)
  {
    if geoms == [] {
      return; // the line loop runs zero times, and `rows` may be empty
    }
    var widthInTiles: u16 := DivCeil(width, TILE_WIDTH);
    ghost var rs0 := RowsOf(rows);
    for li := 0 to |geoms|
      invariant RowsOf(rows) == StepLines(rs0, geoms, li, widthInTiles, add)
    {
      ApplyLine(rows, geoms[li], li, widthInTiles, add);
    }
    forall y | 0 <= y < |rows|
      ensures && rows[y].tiles == rs0[y].tiles + RowTiles(geoms, |geoms|, |rows|, widthInTiles, y)
              && rows[y].winding == rs0[y].winding + RowWinding(geoms, |geoms|, |rows|, y)
              && rows[y].areaCoverage == RowCoverage(rs0[y].coverage, geoms, |geoms|, |rows|, y, add)
    {
      StepLinesPerRow(rs0, geoms, |geoms|, widthInTiles, add, y);
      assert RowsOf(rows)[y] == StateOf(rows[y]);
    }
  }
}
