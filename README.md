# bintje tiler pipeline, modelled in Dafny

This project models the integer part of the bintje 2D renderer's tiler pipeline and proves
properties of it. The pipeline has five stages:

1. **Path flattening** (`flatten_path`) turns MoveTo/LineTo/ClosePath events into lines. They form
   closed loops when every `ClosePath` ends the path or is followed by a `MoveTo` (see the first finding).
2. **Tile generation** (`generate_tiles`) assigns each line's tiles to tile rows.
3. **Strip building** (`generate_strips`) merges each sorted row into strips of consecutive
   columns, and bump-allocates one 16-byte alpha block per occupied column.
4. **Wide-tile command generation** (`generate_wide_tile_commands`) cuts strips into
   `Sample` and `SparseFill` commands on 64-pixel wide tiles. `render` composites those
   commands on the CPU.
5. **GPU batch builder** (`Rasterizer::rasterize` in bintje_wgpu) packs the commands into
   draw instances. It submits a batch whenever the next mask would overflow the 16 KiB
   uniform buffer, and copies the padded texture rows back.

Floating-point values are kept opaque. `F32` is a bit pattern with no arithmetic. Every
floating-point result the code derives is a parameter:

- the rows, columns and crossings a line's coordinates yield (`Tiles.LineGeom`);
- the quantised coverage bytes (`mask`, `edge`);
- `f32` addition;
- colour premultiplication and the compositing `over` and `mul_alpha` helpers.

What remains is index arithmetic over append-only vectors.

The model keeps the source's shape:

- Objects mutated in place are classes: `Tiles.TileRow`, `Renderer.Bintje` and `Gpu.Rasterizer`.
- The wide-tile grid and the image are arrays.
- Every loop is a `while` or `for` loop with invariants.
- Each method is proved against a specification function of its inputs, for example
  `Strips.RowStrips`, `WideTiles.Pushes`, `WideTiles.PixelColor` or `Gpu.Batches`.
- Lemmas then state what those functions promise.

Files:

- `types.dfy`: machine integers, `F32`, points, lines, colours and `DivCeil`.
- `tile.dfy`: `bintje/src/tile.rs`.
- `strip.dfy`: `bintje/src/strip.rs`.
- `wide_tile.dfy`: `bintje/src/wide_tile.rs`.
- `renderer.dfy`: `bintje/src/lib.rs`.
- `gpu.dfy`: `bintje_wgpu/src/lib.rs`.

`wide_tile.rs` reads a `winding` field of its strips that the `Strip` of `strip.rs` does not
have. The model therefore has two strip types:

- `Strips.Strip` carries the fields `strip.rs` writes;
- `WideTiles.WindingStrip` carries the fields `wide_tile.rs` reads.

Where the code departs from what it evidently intends (see "## Findings"), the methods
follow the code as written, and the intended reading is kept beside it as a `Corrected`
variant of the same specification function.

## Model

| member | source | states |
|---|---|---|
| Types.DivCeil | bintje/src/lib.rs:55-56 | `div_ceil` is the least multiple count covering `n`: `q*d >= n` and `(q-1)*d < n` |
| Tiles.TileOrdLaws | bintje/src/tile.rs:19-37 | tiles are equal exactly when they compare `Equal`; the order is antisymmetric and transitive; it ignores `line_idx` |
| Tiles.SortByXSorted | bintje/src/tile.rs:64-66 | the reference sort is non-decreasing in `x` |
| Tiles.SortByXPerm | bintje/src/tile.rs:64-66 | the reference sort is a permutation of its input |
| Tiles.TileRow.constructor | bintje/src/tile.rs:56-62 | a new row has no tiles, winding 0 and all-zero area coverage |
| Tiles.TileRow.Sort | bintje/src/tile.rs:64-66 | the tiles become sorted by `x` and stay a permutation; winding and coverage are unchanged |
| Tiles.TileRow.Clear | bintje/src/tile.rs:68-72 | the row returns to the state `new` produces |
| Tiles.VisitedRowsClamped | bintje/src/tile.rs:98-134 | every row a line visits, and its bottom row, is at most `rows.len() - 1` |
| Tiles.RunShape | bintje/src/tile.rs:179-181 | the x-run pushes tiles `lo, lo+1, ..., hi-1`, all carrying the line's index |
| Tiles.NonVerticalRun | bintje/src/tile.rs:176-181 | a non-vertical line gives each row a run of consecutive columns from `row_left_x`, all below `width_in_tiles`, all carrying its index; it pushes only into rows it visits |
| Tiles.VerticalLeftPushesNoTiles | bintje/src/tile.rs:101-118 | a vertical line left of the viewport pushes no tiles; it only adds its winding step to the rows it visits |
| Tiles.TilesCarryLineIndex | bintje/src/tile.rs:75-185 | every tile in a row carries the index of an earlier line that pushes exactly that tile into that row |
| Tiles.UpdateRowUnvisited | bintje/src/tile.rs:98-134 | a row outside a line's clamped row range is left as it is |
| Tiles.StepLinesPerRow | bintje/src/tile.rs:75-185 | after the first `m` lines, each row holds its tiles, winding and coverage as given by `RowTiles`, `RowWinding` and `RowCoverage` |
| Tiles.PushRun | bintje/src/tile.rs:179-181 | the run loop appends exactly `Run(lo, hi, line_idx)` to `row.tiles` and leaves the rest of the row alone |
| Tiles.ApplyLineToRow | bintje/src/tile.rs:101-182 | one visited row gets the tiles, winding step and coverage terms of the line's vertical, left-of-viewport or x-run branch |
| Tiles.ApplyLine | bintje/src/tile.rs:98-182 | one line updates exactly the rows it visits, each as `UpdateRow` says |
| Tiles.GenerateTiles | bintje/src/tile.rs:75-185 | after all lines in index order, every row's tiles, winding and coverage are its old ones plus the contributions of every line visiting it |
| Strips.MasksLength | bintje/src/strip.rs:72-85 | the blocks flushed while walking number one fewer than the locations seen |
| Strips.StripRuns | bintje/src/strip.rs:88-98 | the open strip is at least one tile wide, ends at the latest tile's column, and its masks end at the latest location's block |
| Strips.VisitTile | bintje/src/strip.rs:72-111 | one real tile flushes the left location's block, closes the built strip with `width = prev.x - strip.x + 1` when `prev.x + 1 < tile.x`, and starts the next one at `alpha_storage.len()` |
| Strips.VisitGateCloser | bintje/src/strip.rs:56-109 | the gate closer flushes the last block and pushes the last strip, completing `AllMasks` and `RowStrips` |
| Strips.GenerateStrips | bintje/src/strip.rs:28-110 | with no tiles or no lines nothing is appended; otherwise exactly `AllMasks` is appended to the alpha storage and exactly `RowStrips` to the strips |
| Strips.ColumnsMembers | bintje/src/strip.rs:72-85 | in a sorted row, `Columns` lists exactly the columns that hold tiles |
| Strips.ColumnsAscending | bintje/src/strip.rs:72-85 | `Columns` is strictly increasing and ends at the last tile's column |
| Strips.NumLocsCountsColumns | bintje/src/strip.rs:72-85 | the number of locations is the number of distinct occupied columns |
| Strips.AllMasksPerColumn | bintje/src/strip.rs:72-85 | the alpha storage grows by exactly 16 bytes per distinct occupied column |
| Strips.StripRunsChained | bintje/src/strip.rs:62-98 | every strip has `y == row_y` and width at least 1; the first one's masks start at the old storage length; each next strip starts past an empty column, with masks right after the previous strip's |
| Strips.StripRunsCover | bintje/src/strip.rs:88-98 | the strips span exactly the occupied columns, each once, left to right; so they are the maximal runs of consecutive columns |
| WideTiles.GridRowsFit | bintje/src/wide_tile.rs:59-60 | the derived `wide_tile_rows` times the columns fits in `wide_tiles.len()` |
| WideTiles.Processed | bintje/src/wide_tile.rs:70-76 | processing stops at the first strip with `y >= wide_tile_rows`, and every strip before it is in range |
| WideTiles.LoopEnd | bintje/src/wide_tile.rs:90-93 | the inclusive wide-tile loop stops at the first column `>= wide_tile_columns` |
| WideTiles.FillAdvance | bintje/src/wide_tile.rs:88-105 | each sparse fill's `x_start <= x_end <= 16`, and consecutive fills of a gap are contiguous |
| WideTiles.SampleAdvance | bintje/src/wide_tile.rs:119-139 | each sample's `x_start <= x_end <= 16`, and it starts where the strip's previous sample ended |
| WideTiles.PushCommand | bintje/src/wide_tile.rs:107-114 | pushing appends the command to one wide tile and changes no other |
| WideTiles.PlacePerTile | bintje/src/wide_tile.rs:107-143 | each wide tile's commands are its old ones followed by the commands addressed to it, in push order |
| WideTiles.EmitFill | bintje/src/wide_tile.rs:95-114 | one iteration of the fill loop pushes the next `SparseFill` of the gap |
| WideTiles.EmitFills | bintje/src/wide_tile.rs:84-116 | the fill loop pushes exactly `FillPart` |
| WideTiles.EmitSample | bintje/src/wide_tile.rs:128-151 | one iteration of the sample loop pushes the next `Sample` and advances `alpha_idx` by `width * 16` |
| WideTiles.EmitSamples | bintje/src/wide_tile.rs:119-152 | the sample loop pushes exactly `SamplePart` |
| WideTiles.EmitStrip | bintje/src/wide_tile.rs:83-152 | one strip pushes its sparse fills, then its samples |
| WideTiles.VisitStrip | bintje/src/wide_tile.rs:70-155 | strip `n` extends the pushes of the first `n` strips |
| WideTiles.GenerateWideTileCommands | bintje/src/wide_tile.rs:52-156 | the wide tiles end as the old ones with the pushes of every processed strip placed in order; it asks only that each `u16` index `y * wide_tile_columns + wx` the loops compute fits |
| WideTiles.FillPushesShape | bintje/src/wide_tile.rs:90-115 | gap fills go to consecutive wide tiles of the strip's row, one each |
| WideTiles.SamplePushesShape | bintje/src/wide_tile.rs:123-152 | samples go to consecutive wide tiles of the strip's row, one each |
| WideTiles.PushesInGrid | bintje/src/wide_tile.rs:74-143 | every push targets `y * wide_tile_columns + wx` with `wx < wide_tile_columns` and `y < wide_tile_rows` |
| WideTiles.CommandsAtFit | bintje/src/wide_tile.rs:95-139 | every command addressed to a wide tile has `x + width <= 16` |
| WideTiles.EarlierStripsFirst | bintje/src/wide_tile.rs:70-155 | in every wide tile, the commands of earlier strips come before those of later ones |
| WideTiles.FillsCoverGap | bintje/src/wide_tile.rs:88-105 | the widths of a gap's sparse fills sum to the gap's width |
| WideTiles.SamplesCoverStrip | bintje/src/wide_tile.rs:119-152 | for a strip inside the column range, its samples' widths sum to `strip.width` |
| WideTiles.SamplesContiguous | bintje/src/wide_tile.rs:119-152 | a strip's samples start at `strip.alpha_idx`, and each next one starts `width * 16` bytes after the previous one |
| WideTiles.SparseFillIff | bintje/src/wide_tile.rs:62-87 | a strip gets a sparse fill iff the previous strip has non-zero winding, is in the same row, ends at or before this strip, and the gap starts inside the grid; the sentinel first strip never gets one |
| WideTiles.FillsBeforeSamples | bintje/src/wide_tile.rs:83-152 | within one strip's pushes, no sparse fill follows a sample |
| WideTiles.MaskIndexInSample | bintje/src/wide_tile.rs:213-234 | the column-major offset `alpha_idx + x*4 + y` stays in `[alpha_idx, alpha_idx + width*16)` |
| WideTiles.PixelIndex | bintje/src/wide_tile.rs:186 | a pixel inside the image has an index below `width * height` |
| WideTiles.PixelIndexInjective | bintje/src/wide_tile.rs:186 | distinct pixels have distinct indices |
| WideTiles.PixelTile | bintje/src/wide_tile.rs:173-190 | every image pixel lies in a wide tile of the grid |
| WideTiles.PaintRow | bintje/src/wide_tile.rs:213-236 | one row of a command's span updates exactly the in-image pixels of that span |
| WideTiles.PaintRect | bintje/src/wide_tile.rs:213-256 | a command's four rows update exactly the in-image pixels of its span, each from its old colour |
| WideTiles.RenderTile | bintje/src/wide_tile.rs:176-259 | a wide tile's pixels end as its commands composited in order over its checkerboard backdrop |
| WideTiles.RenderRow | bintje/src/wide_tile.rs:174-260 | one row of wide tiles, left to right, renders them and advances `wide_tile_idx` by the column count |
| WideTiles.Render | bintje/src/wide_tile.rs:159-262 | every pixel ends as `PixelColor`: its wide tile's commands composited over the backdrop; only pixels with `img_x < width && img_y < height` are written |
| Renderer.StepPenInvariant | bintje/src/lib.rs:84-104 | with `ClosePath` setting `prev = start` (the intended reading), each event keeps the invariant: a closed subpath has only closed loops; an open one is a chain from `start` to `prev` on top of closed loops |
| Renderer.TraceInvariant | bintje/src/lib.rs:83-108 | in the intended reading, the invariant holds after every prefix of the events |
| Renderer.FlattenClosed | bintje/src/lib.rs:79-114 | in the intended reading, the flattened lines of every path form closed loops: every point is left as often as it is reached |
| Renderer.AsWrittenAgrees | bintje/src/lib.rs:100-104 | when every `ClosePath` is last or followed by `MoveTo`, the code as written pushes the same lines as the corrected loop |
| Renderer.AsWrittenClosedAfterMove | bintje/src/lib.rs:79-114 | for such paths the lines the code as written pushes form closed loops |
| Renderer.AsWrittenReopenedLines | bintje/src/lib.rs:84-113 | as written, MoveTo a, LineTo b, ClosePath, LineTo c pushes a-b, b-a, b-c, c-a |
| Renderer.AsWrittenLeavesLoopOpen | bintje/src/lib.rs:100-104 | those lines are not closed loops: point b is left twice but reached once |
| Renderer.Bintje.constructor | bintje/src/lib.rs:54-77 | `new` creates `ceil(width/64) * ceil(height/4)` wide tiles, all empty, and empty buffers |
| Renderer.Bintje.FlattenPath | bintje/src/lib.rs:79-114 | appends to `lines` exactly the lines the code as written pushes (`Flatten(AsWritten, …)`, `prev` kept on `ClosePath`), and no other buffer changes |
| Renderer.Bintje.TileLines | bintje/src/lib.rs:117-124 | drains `lines`; `tiles` becomes sorted and a permutation of the old tiles plus each line's tiles |
| Renderer.Bintje.StripTiles | bintje/src/lib.rs:127-129 | appends the strip stage's masks and strips |
| Renderer.Bintje.Widen | bintje/src/lib.rs:132-139 | each wide tile's commands are extended by the commands of the strips addressed to it; every command still fits its wide tile; the grid may have any size, as long as the indices the strips reach fit a `u16` |
| Renderer.Bintje.FillShape | bintje/src/lib.rs:150-162 | lines, tiles and strips are reset, then refilled from this path only, its tiles being those of the lines as the code as written flattens them; the alpha masks and the wide tiles' earlier commands are kept, and this fill's commands come after them |
| Renderer.Bintje.RenderImage | bintje/src/lib.rs:181-198 | the image `to_png` encodes has every pixel equal to `PixelColor` |
| Gpu.BytesPerRow | bintje_wgpu/src/lib.rs:249 | `bytes_per_row` is a multiple of 256, at least `width*4` and below `width*4 + 256` |
| Gpu.Span | bintje_wgpu/src/lib.rs:385-400 | an instance's `x`, `y` and `width` are multiples of 4, at the wide tile's column and row |
| Gpu.SubmitBookkeeping | bintje_wgpu/src/lib.rs:266-329 | submitting a non-empty batch keeps these true: only the first batch clears, every batch has an instance, every buffer fits |
| Gpu.SubmitDrawn | bintje_wgpu/src/lib.rs:266-329 | submitting moves the pending instances into a batch without changing what is drawn |
| Gpu.StepBookkeeping | bintje_wgpu/src/lib.rs:358-404 | in either reading, one command keeps the mask buffer within the 16 KiB limit and the bookkeeping intact |
| Gpu.CommandsBookkeeping | bintje_wgpu/src/lib.rs:358-406 | in either reading, the same holds for all commands of a wide tile |
| Gpu.TilesBookkeeping | bintje_wgpu/src/lib.rs:351-408 | in either reading, the same holds for all wide tiles |
| Gpu.BatchesWithinLimit | bintje_wgpu/src/lib.rs:350-411 | for the code as written and the intended reading alike, every submitted batch has at most 16 KiB of masks and at least one instance; exactly the first batch clears the target |
| Gpu.RoomDrawn | bintje_wgpu/src/lib.rs:364-380 | the flush before a sample keeps what is drawn, and afterwards the sample's mask fits |
| Gpu.SampleDrawn | bintje_wgpu/src/lib.rs:359-394 | with the index read after the flush, a sample adds one draw that blends through exactly `alpha_masks[a..a + width*16]` |
| Gpu.FillDrawn | bintje_wgpu/src/lib.rs:395-404 | a sparse fill adds one opaque draw (`alpha_idx == u16::MAX`) and no mask bytes |
| Gpu.StepDrawn | bintje_wgpu/src/lib.rs:358-406 | with the index read after the flush, each command adds exactly what it draws |
| Gpu.CommandsDrawn | bintje_wgpu/src/lib.rs:358-406 | with the index read after the flush, a wide tile's commands add exactly their draws, in order |
| Gpu.TilesDrawn | bintje_wgpu/src/lib.rs:351-408 | with the index read after the flush, the wide tiles' commands add exactly their draws, in row-major order |
| Gpu.BatchesDrawCommands | bintje_wgpu/src/lib.rs:335-411 | in the intended reading (index read after the flush), decoding every batch's instances against its own mask buffer gives the commands' draws with no batching |
| Gpu.AsWrittenMisaddresses | bintje_wgpu/src/lib.rs:363-393 | as written, the 65th full-width sample of a wide tile gets mask index 1024 in a batch holding 256 mask bytes; read after the flush, the index is 0 |
| Gpu.NoFlushAgrees | bintje_wgpu/src/lib.rs:363-393 | when no flush happens, both readings agree, and the instance's `alpha_idx * 16` is the offset its mask was written at |
| Gpu.StepAgrees | bintje_wgpu/src/lib.rs:358-404 | a command that submits nothing gives the same state in both readings |
| Gpu.CommandsAgree | bintje_wgpu/src/lib.rs:358-406 | a wide tile's commands that submit nothing give the same state in both readings |
| Gpu.TilesAgree | bintje_wgpu/src/lib.rs:351-408 | wide tiles that submit nothing give the same state in both readings |
| Gpu.SingleBatchDrawsCommands | bintje_wgpu/src/lib.rs:335-411 | when the code as written submits only the trailing batch, its batches are the intended ones and decode to exactly the commands' draws |
| Gpu.Unpadded | bintje_wgpu/src/lib.rs:450-457 | the unpadded image holds `rows * width*4` bytes |
| Gpu.UnpaddedAt | bintje_wgpu/src/lib.rs:450-457 | byte `x` of row `y` of the unpadded image is byte `y * bytes_per_row + x` of the mapped buffer |
| Gpu.CopyRow | bintje_wgpu/src/lib.rs:455-456 | `copy_from_slice` writes the row at `img_idx` and leaves every other byte |
| Gpu.Rasterizer.constructor | bintje_wgpu/src/lib.rs:53-54 | a rasterizer for a target of at most 256x256 pixels, with nothing submitted |
| Gpu.Rasterizer.Submit | bintje_wgpu/src/lib.rs:266-329 | records the batch with its clear flag, then empties both vectors |
| Gpu.Rasterizer.RasterizeCommand | bintje_wgpu/src/lib.rs:358-406 | one command's index capture, flush, mask copy and instance push give the state `Step(AsWritten, …)` describes, the mask index being the buffer length read before the flush |
| Gpu.Rasterizer.RasterizeTile | bintje_wgpu/src/lib.rs:358-406 | a wide tile's commands in order give the state `StepCommands(AsWritten, …)` describes |
| Gpu.Rasterizer.Encode | bintje_wgpu/src/lib.rs:342-411 | the loop over wide tiles (row `idx / per_row`, column `idx - row * per_row`) plus the trailing submit submits exactly `Batches(AsWritten, …)`, whose batches `BatchesWithinLimit` bounds |
| Gpu.Rasterizer.ReadBack | bintje_wgpu/src/lib.rs:450-457 | for a non-zero width (a zero `bytes_per_row` makes `chunks_exact` panic), the first `height * width*4` bytes of `dest_img` become the unpadded rows; the rest is untouched |
| Gpu.Rasterizer.Rasterize | bintje_wgpu/src/lib.rs:335-459 | `rasterize` submits exactly the as-written `Batches(AsWritten, …)` and copies the read-back texture into `dest_img`, unpadded |

## Left out

- Floating-point maths is out: slopes, trapezoid areas, winding crossing tests, coverage
  quantisation, premultiplication and compositing. Each result is a parameter; points are
  compared by bit pattern.
- `point.rs` and `line.rs` are not part of this model; `Point` and `Line` are plain values.
- kurbo's `flatten` and `stroke` are out: `FlattenPath` takes the flattened events, and
  `Bintje::stroke` is not modelled.
- `to_png`'s PNG encoding is out; `RenderImage` returns the image it would encode.
- `Bintje::clear` is `todo!()` and is not modelled. Clipping (`clip_stack`, `PushClip`/`PopClip`) is unused; its commands are ignored as the code ignores them.
- GPU plumbing is out: the device, shaders, buffers, the render pass, `write_buffer`,
  `map_async`/`poll`/`unmap`. A submit is recorded as a `Batch`, and the mapped texture is a parameter of `Rasterize`.
- `rasterize` says the texture is fixed at 256x256. The model copies back `height` rows of the rasterizer's own width, as the read-back loop does.
- The vertex-buffer overflow TODO in `rasterize` is left open: the number of instances per batch is not bounded.
- Tiles.TileRow: `winding` is an unbounded integer, so `i32` overflow of the winding sum is not modelled.
- Gpu.CommandOk, Gpu.SpanOk and Gpu.TilesOk: `u16` arithmetic on instance coordinates is a precondition instead of wrap-around (debug builds panic on overflow). The `as u16` of the mask offset is modelled as `% 65536`.
- Strips.GenerateStrips: requires sorted tiles, columns below 16384 (`tile.x * 4` is a `u16` product) and room in the `u32` alpha index. It takes the coverage bytes as functions of the tiles already walked.
- Renderer.Bintje.TileLines and Renderer.Bintje.StripTiles: `lib.rs` calls `generate_tiles` and `generate_strips` with signatures that do not match `tile.rs` and `strip.rs`. These stages take the per-line tile generator and the strip generator `lib.rs` assumes as parameters. `tiles.sort_unstable()` is modelled by the reference sort, stated only as sorted and a permutation.
- Renderer.Bintje.Widen: requires the strips to keep the wide-tile stage's `u16`/`u32` sums and wide-tile indices in range (`StripsFit`, `Indexable`).
- Renderer.Bintje.FillShape: since `sort_unstable` fixes no order among equal tiles, it requires the wide-tile indices to fit for the strips of every sorted order of the path's tiles, not only the order the sort picks.
- WideTiles.Render: requires every command to fit its wide tile (`CommandFits`). An alpha byte read past the end of the masks reads as 0, where the code would panic.
- Gpu.Rasterizer.RasterizeCommand: `instances`, the mask buffer and `submitted` are in/out parameters, not fields, as they are locals of `rasterize`.

## Findings

| source | as written | input that shows it | evidently intended | confidence | as-written member | corrected member |
|---|---|---|---|---|---|---|
| bintje/src/lib.rs:100-104 | `ClosePath` pushes the line back to `start` but leaves `prev` at the pre-close point | MoveTo a, LineTo b, ClosePath, LineTo c: the lines a-b, b-a, b-c, c-a are not closed loops | `ClosePath` also sets `prev = start`, so a following `LineTo` starts at the subpath's start | not executed | Renderer.AsWrittenLeavesLoopOpen | Renderer.FlattenClosed |
| bintje_wgpu/src/lib.rs:363-393 | `alpha_idx` is the mask-buffer length read before the flush; after the flush it points past the emptied buffer | one wide tile of 65 `Sample { x: 0, width: 16, alpha_idx: 0 }` commands over 256 mask bytes: the 65th instance gets index 1024 in a batch holding 256 bytes | read the buffer length after the flush, so the index is 0 | not executed | Gpu.AsWrittenMisaddresses | Gpu.BatchesDrawCommands |
