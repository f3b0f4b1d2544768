/** The GPU rasterizer (bintje_wgpu/src/lib.rs): turns the wide-tile command lists into batches
    of pixel-space draw instances with their alpha masks, submits a batch whenever the next mask
    would overflow the uniform buffer, and copies the rendered rows back without their padding.
    The GPU itself is out of reach: a submitted batch is recorded, and the texture read back is a
    parameter. */
module Gpu {
  import opened Types
  import opened Tiles
  import opened WideTiles

  /** `max_uniform_buffer_binding_size` of wgpu's WebGL2 downlevel limits: 16 KiB. */
  const MAX_UNIFORM_BUFFER_BINDING_SIZE: nat := 16384

  /** The bytes of one tile's alpha mask. */
  const MASK_BYTES: nat := TILE_WIDTH * TILE_HEIGHT

  /** Texture-to-buffer copies need rows padded to a multiple of this many bytes. */
  const COPY_BYTES_PER_ROW_ALIGNMENT: nat := 256

  /** `TextureCopyBuffer::new`: the padded byte length of a row of `width` RGBA pixels. */
  function BytesPerRow(width: u16): (b: nat)
    ensures b % COPY_BYTES_PER_ROW_ALIGNMENT == 0
    ensures width * 4 <= b < width * 4 + COPY_BYTES_PER_ROW_ALIGNMENT
  {
    (width * 4 + COPY_BYTES_PER_ROW_ALIGNMENT - 1) / COPY_BYTES_PER_ROW_ALIGNMENT * COPY_BYTES_PER_ROW_ALIGNMENT
  }

  // ---------------------------------------------------------------------------------------------
  // Batches

  /** `DrawCmdVertexInstance`: a span in pixels, and the mask it blends through, counted in
      16-byte masks from the start of its batch's buffer, or `u16::MAX` for a solid fill. */
  datatype Instance = Instance(x: u16, y: u16, width: u16, alphaIdx: u16, color: Rgba8)

  /** One submitted batch: its instances, its mask buffer and whether it clears the target. */
  datatype Batch = Batch(instances: seq<Instance>, masks: seq<u8>, clear: bool)

  /** The rasterize loop's state: the submitted batches, the batch being built and whether
      anything has been submitted. */
  datatype Pending = Pending(batches: seq<Batch>, instances: seq<Instance>, masks: seq<u8>, submitted: bool)

  const NOTHING_PENDING := Pending([], [], [], false)

  /** `submit`: records the batch, clearing the target only if it is the first, and empties
      both vectors. */
  function Submit(p: Pending): Pending
  {
    Pending(p.batches + [Batch(p.instances, p.masks, !p.submitted)], [], [], true)
  }

  /** The 16-bit arithmetic placing a span of `w` tiles from tile `x` of wide tile `(wx, wy)`
      stays in range. */
  predicate SpanOk(wx: nat, wy: nat, x: u16, w: u16)
  {
    (wx * WIDE_TILE_WIDTH_TILES + x) * TILE_WIDTH <= U16_MAX && wy * TILE_HEIGHT <= U16_MAX && w * TILE_WIDTH <= U16_MAX
  }

  /** The instance for that span, in pixels. */
  function Span(wx: nat, wy: nat, x: u16, w: u16, alphaIdx: u16, color: Rgba8): (ins: Instance)
    requires SpanOk(wx, wy, x, w)
    ensures ins.x % TILE_WIDTH == 0 && ins.y % TILE_HEIGHT == 0 && ins.width % TILE_WIDTH == 0
    ensures ins.x / TILE_WIDTH >= wx * WIDE_TILE_WIDTH_TILES && ins.y / TILE_HEIGHT == wy
  {
    Instance((wx * WIDE_TILE_WIDTH_TILES + x) * TILE_WIDTH, wy * TILE_HEIGHT, w * TILE_WIDTH, alphaIdx, color)
  }

  /** Command `c` of wide tile `(wx, wy)` stays within 16-bit arithmetic, and a sample's masks
      lie inside `alphaMasks`. */
  predicate CommandOk(wx: nat, wy: nat, c: Command, alphaMasks: seq<u8>)
  {
    match c
    case Sample(x, w, _, a) => SpanOk(wx, wy, x, w) && a + w * MASK_BYTES <= |alphaMasks|
    case SparseFill(x, w, _) => SpanOk(wx, wy, x, w)
    case _ => true
  }

  /** The state with room for `size` more mask bytes: submitted first when they would not fit. */
  function Room(p: Pending, size: nat): Pending
  {
    if |p.masks| + size > MAX_UNIFORM_BUFFER_BINDING_SIZE then Submit(p) else p
  }

  /** A sample: the batch is submitted first when the sample's mask would not fit in the
      buffer. As written, the sample's mask index is the buffer length taken before that
      submit; `Corrected` takes it after. */
  function SampleStep(v: Variant, p: Pending, wx: nat, wy: nat, x: u16, w: u16, color: Rgba8, a: u32,
                      alphaMasks: seq<u8>): Pending
    requires SpanOk(wx, wy, x, w) && a + w * MASK_BYTES <= |alphaMasks|
  {
    var size := w * MASK_BYTES;
    var q := Room(p, size);
    var slot := if v == Corrected then |q.masks| else |p.masks|;
    Pending(q.batches, q.instances + [Span(wx, wy, x, w, slot % 0x1_0000 / MASK_BYTES, color)],
            q.masks + alphaMasks[a..a + size], q.submitted)
  }

  /** One command of wide tile `(wx, wy)`: a sample or a solid fill adds its instance; clip
      commands are ignored. */
  function Step(v: Variant, p: Pending, wx: nat, wy: nat, c: Command, alphaMasks: seq<u8>): Pending
    requires CommandOk(wx, wy, c, alphaMasks)
  {
    match c
    case Sample(x, w, color, a) => SampleStep(v, p, wx, wy, x, w, color, a, alphaMasks)
    case SparseFill(x, w, color) => p.(instances := p.instances + [Span(wx, wy, x, w, U16_MAX, color)])
    case _ => p
  }

  ghost predicate CommandsOk(wx: nat, wy: nat, cmds: seq<Command>, alphaMasks: seq<u8>)
  {
    forall j :: 0 <= j < |cmds| ==> CommandOk(wx, wy, cmds[j], alphaMasks)
  }

  /** The state after the first `n` commands of wide tile `(wx, wy)`. */
  function StepCommands(v: Variant, p: Pending, wx: nat, wy: nat, cmds: seq<Command>, n: nat,
                        alphaMasks: seq<u8>): Pending
    requires n <= |cmds| && CommandsOk(wx, wy, cmds, alphaMasks)
  {
    if n == 0 then p
    else Step(v, StepCommands(v, p, wx, wy, cmds, n - 1, alphaMasks), wx, wy, cmds[n - 1], alphaMasks)
  }

  /** Every command of wide tile `i`, at column `i % perRow` of row `i / perRow`, is `CommandOk`. */
  ghost predicate TilesOk(tiles: seq<WideTile>, perRow: nat, alphaMasks: seq<u8>)
  {
    && (tiles == [] || perRow > 0)
    && forall i :: 0 <= i < |tiles| ==> CommandsOk(i % perRow, i / perRow, tiles[i].commands, alphaMasks)
  }

  /** The state after the first `n` wide tiles. */
  function StepTiles(v: Variant, tiles: seq<WideTile>, n: nat, perRow: nat, alphaMasks: seq<u8>): Pending
    requires n <= |tiles| && TilesOk(tiles, perRow, alphaMasks)
  {
    if n == 0 then NOTHING_PENDING
    else
      var i := n - 1;
      StepCommands(v, StepTiles(v, tiles, i, perRow, alphaMasks), i % perRow, i / perRow, tiles[i].commands,
                   |tiles[i].commands|, alphaMasks)
  }

  /** The trailing submit, made only when instances are left. */
  function Finish(p: Pending): seq<Batch>
  {
    if p.instances != [] then Submit(p).batches else p.batches
  }

  /** All batches one `rasterize` call submits. */
  function Batches(v: Variant, tiles: seq<WideTile>, perRow: nat, alphaMasks: seq<u8>): seq<Batch>
    requires TilesOk(tiles, perRow, alphaMasks)
  {
    Finish(StepTiles(v, tiles, |tiles|, perRow, alphaMasks))
  }

  // ---------------------------------------------------------------------------------------------
  // What the batches draw

  datatype Option<T> = None | Some(value: T)

  /** A span to draw, in pixels, with the mask bytes it blends through (`None` for solid). */
  datatype Draw = Draw(x: nat, y: nat, width: nat, color: Rgba8, mask: Option<seq<u8>>)

  /** `len` bytes of `s` from `lo`, or none when they do not all exist. */
  function MaskSlice(s: seq<u8>, lo: nat, len: nat): seq<u8>
  {
    if lo + len <= |s| then s[lo..lo + len] else []
  }

  /** The reference: what command `c` of wide tile `(wx, wy)` draws, without any batching. */
  function CommandDraws(wx: nat, wy: nat, c: Command, alphaMasks: seq<u8>): seq<Draw>
  {
    match c
    case Sample(x, w, color, a) =>
      [Draw((wx * WIDE_TILE_WIDTH_TILES + x) * TILE_WIDTH, wy * TILE_HEIGHT, w * TILE_WIDTH, color,
            Some(MaskSlice(alphaMasks, a, w * MASK_BYTES)))]
    case SparseFill(x, w, color) =>
      [Draw((wx * WIDE_TILE_WIDTH_TILES + x) * TILE_WIDTH, wy * TILE_HEIGHT, w * TILE_WIDTH, color, None)]
    case _ => []
  }

  function TileDraws(wx: nat, wy: nat, cmds: seq<Command>, n: nat, alphaMasks: seq<u8>): seq<Draw>
    requires n <= |cmds|
  {
    if n == 0 then [] else TileDraws(wx, wy, cmds, n - 1, alphaMasks) + CommandDraws(wx, wy, cmds[n - 1], alphaMasks)
  }

  /** What the first `n` wide tiles draw, in order. */
  function Draws(tiles: seq<WideTile>, n: nat, perRow: nat, alphaMasks: seq<u8>): seq<Draw>
    requires n <= |tiles| && (n == 0 || perRow > 0)
  {
    if n == 0 then []
    else
      var i := n - 1;
      Draws(tiles, i, perRow, alphaMasks)
        + TileDraws(i % perRow, i / perRow, tiles[i].commands, |tiles[i].commands|, alphaMasks)
  }

  /** How the GPU reads an instance of a batch whose mask buffer is `masks`: a sample's mask is
      the `width * 4` bytes at `alphaIdx * 16`. */
  function Decode(ins: Instance, masks: seq<u8>): Draw
  {
    Draw(ins.x, ins.y, ins.width, ins.color,
         if ins.alphaIdx == U16_MAX then None else Some(MaskSlice(masks, ins.alphaIdx * MASK_BYTES, ins.width * TILE_HEIGHT)))
  }

  function Decoded(instances: seq<Instance>, masks: seq<u8>): seq<Draw>
  {
    if instances == [] then []
    else Decoded(instances[..|instances| - 1], masks) + [Decode(instances[|instances| - 1], masks)]
  }

  function AllDecoded(batches: seq<Batch>): seq<Draw>
  {
    if batches == [] then []
    else
      var b := batches[|batches| - 1];
      AllDecoded(batches[..|batches| - 1]) + Decoded(b.instances, b.masks)
  }

  /** Everything the state draws: its submitted batches, then the batch being built. */
  function Drawn(p: Pending): seq<Draw>
  {
    AllDecoded(p.batches) + Decoded(p.instances, p.masks)
  }

  // ---------------------------------------------------------------------------------------------
  // Invariants of the loop

  /** The buffer being built fits in the uniform buffer and holds whole masks. */
  ghost predicate Aligned(p: Pending)
  {
    |p.masks| <= MAX_UNIFORM_BUFFER_BINDING_SIZE && |p.masks| % MASK_BYTES == 0
  }

  /** Every batch fits in the uniform buffer, holds an instance, and only the first clears the
      target; the buffer being built fits too and holds whole masks. */
  ghost predicate Bookkeeping(p: Pending)
  {
    && Aligned(p)
    && (p.masks != [] ==> p.instances != [])
    && (p.submitted <==> p.batches != [])
    && forall k :: 0 <= k < |p.batches| ==>
      && |p.batches[k].masks| <= MAX_UNIFORM_BUFFER_BINDING_SIZE
      && p.batches[k].instances != []
      && (p.batches[k].clear <==> k == 0)
  }

  /** Every sample instance's mask lies inside the buffer. */
  ghost predicate Addressed(instances: seq<Instance>, masks: seq<u8>)
  {
    forall k :: 0 <= k < |instances| && instances[k].alphaIdx != U16_MAX ==>
      instances[k].alphaIdx * MASK_BYTES + instances[k].width * TILE_HEIGHT <= |masks|
  }

  lemma SubmitBookkeeping(p: Pending)
    requires Bookkeeping(p) && p.instances != []
    ensures Bookkeeping(Submit(p))
  {
    var q := Submit(p);
    forall k | 0 <= k < |q.batches|
      ensures |q.batches[k].masks| <= MAX_UNIFORM_BUFFER_BINDING_SIZE && q.batches[k].instances != []
      ensures q.batches[k].clear <==> k == 0
    {
      if k < |p.batches| {
        assert q.batches[k] == p.batches[k];
      }
    }
  }

  lemma StepBookkeeping(v: Variant, p: Pending, wx: nat, wy: nat, c: Command, alphaMasks: seq<u8>)
    requires CommandOk(wx, wy, c, alphaMasks) && CommandFits(c) && Bookkeeping(p)
    ensures Bookkeeping(Step(v, p, wx, wy, c, alphaMasks))
  {
    if c.Sample? {
      SampleArith(c.width, 0);
      if |p.masks| + c.width * MASK_BYTES > MAX_UNIFORM_BUFFER_BINDING_SIZE {
        SubmitBookkeeping(p);
      }
    }
  }

  lemma {:induction false} DecodedMore(instances: seq<Instance>, masks: seq<u8>, more: seq<u8>)
    requires Addressed(instances, masks)
    ensures Decoded(instances, masks + more) == Decoded(instances, masks)
  {
    if instances != [] {
      var init := instances[..|instances| - 1];
      assert Addressed(init, masks) by {
        forall k | 0 <= k < |init| && init[k].alphaIdx != U16_MAX
          ensures init[k].alphaIdx * MASK_BYTES + init[k].width * TILE_HEIGHT <= |masks|
        {
          assert init[k] == instances[k];
        }
      }
      DecodedMore(init, masks, more);
      var last := instances[|instances| - 1];
      if last.alphaIdx != U16_MAX {
        var lo := last.alphaIdx * MASK_BYTES;
        assert (masks + more)[lo..lo + last.width * TILE_HEIGHT] == masks[lo..lo + last.width * TILE_HEIGHT];
      }
    }
  }

  lemma DecodedSnoc(instances: seq<Instance>, ins: Instance, masks: seq<u8>)
    ensures Decoded(instances + [ins], masks) == Decoded(instances, masks) + [Decode(ins, masks)]
  {
    assert (instances + [ins])[..|instances|] == instances;
  }

  lemma AddressedSnoc(instances: seq<Instance>, ins: Instance, masks: seq<u8>, more: seq<u8>)
    requires Addressed(instances, masks)
    requires ins.alphaIdx != U16_MAX ==> ins.alphaIdx * MASK_BYTES + ins.width * TILE_HEIGHT <= |masks + more|
    ensures Addressed(instances + [ins], masks + more)
  {
    var s := instances + [ins];
    forall k | 0 <= k < |s| && s[k].alphaIdx != U16_MAX
      ensures s[k].alphaIdx * MASK_BYTES + s[k].width * TILE_HEIGHT <= |masks + more|
    {
      if k < |instances| {
        assert s[k] == instances[k];
      }
    }
  }

  /** Submitting moves the batch being built, unchanged, to the submitted ones. */
  lemma SubmitDrawn(p: Pending)
    ensures Drawn(Submit(p)) == Drawn(p)
  {
    var bs := p.batches + [Batch(p.instances, p.masks, !p.submitted)];
    assert bs[..|bs| - 1] == p.batches;
    assert Drawn(Submit(p)) == AllDecoded(bs) + [];
  }

  /** The arithmetic of a sample's mask: its bytes, and the index of a slot at `slot` bytes. */
  lemma SampleArith(w: u16, slot: nat)
    requires w <= WIDE_TILE_WIDTH_TILES && slot <= MAX_UNIFORM_BUFFER_BINDING_SIZE && slot % MASK_BYTES == 0
    ensures w * MASK_BYTES <= 256 && w * TILE_WIDTH * TILE_HEIGHT == w * MASK_BYTES && w * MASK_BYTES % MASK_BYTES == 0
    ensures slot % 0x1_0000 / MASK_BYTES * MASK_BYTES == slot && slot % 0x1_0000 / MASK_BYTES < U16_MAX
  {
  }

  /** Making room keeps what is drawn, and leaves room when a single mask fits in the buffer. */
  lemma RoomDrawn(p: Pending, size: nat)
    requires |p.masks| <= MAX_UNIFORM_BUFFER_BINDING_SIZE && |p.masks| % MASK_BYTES == 0
    requires Addressed(p.instances, p.masks) && size <= MAX_UNIFORM_BUFFER_BINDING_SIZE
    ensures var q := Room(p, size);
      && Drawn(q) == Drawn(p) && Addressed(q.instances, q.masks)
      && |q.masks| + size <= MAX_UNIFORM_BUFFER_BINDING_SIZE && |q.masks| % MASK_BYTES == 0
  {
    if |p.masks| + size > MAX_UNIFORM_BUFFER_BINDING_SIZE {
      SubmitDrawn(p);
    }
  }

  /** Appending an instance whose mask index is the buffer length, with its mask bytes, adds
      the draw of those bytes. */
  lemma AppendDrawn(q: Pending, ins: Instance, m: seq<u8>)
    requires Addressed(q.instances, q.masks) && ins.alphaIdx != U16_MAX
    requires ins.alphaIdx * MASK_BYTES == |q.masks| && ins.width * TILE_HEIGHT == |m|
    ensures var q' := Pending(q.batches, q.instances + [ins], q.masks + m, q.submitted);
      && Addressed(q'.instances, q'.masks)
      && Drawn(q') == Drawn(q) + [Draw(ins.x, ins.y, ins.width, ins.color, Some(m))]
  {
    assert MaskSlice(q.masks + m, |q.masks|, |m|) == m;
    DecodedMore(q.instances, q.masks, m);
    DecodedSnoc(q.instances, ins, q.masks + m);
    AddressedSnoc(q.instances, ins, q.masks, m);
  }

  /** A sample submits only to make room, so the mask index it reads after that submit
      addresses its own bytes. */
  lemma SampleDrawn(p: Pending, wx: nat, wy: nat, x: u16, w: u16, color: Rgba8, a: u32, alphaMasks: seq<u8>)
    requires SpanOk(wx, wy, x, w) && a + w * MASK_BYTES <= |alphaMasks| && x + w <= WIDE_TILE_WIDTH_TILES
    requires Aligned(p) && Addressed(p.instances, p.masks)
    ensures var p' := SampleStep(Corrected, p, wx, wy, x, w, color, a, alphaMasks);
      && Aligned(p') && Addressed(p'.instances, p'.masks)
      && Drawn(p') == Drawn(p) + CommandDraws(wx, wy, Sample(x, w, color, a), alphaMasks)
  {
    var size := w * MASK_BYTES;
    SampleArith(w, 0);
    RoomDrawn(p, size);
    var q := Room(p, size);
    SampleArith(w, |q.masks|);
    var ins := Span(wx, wy, x, w, |q.masks| % 0x1_0000 / MASK_BYTES, color);
    AppendDrawn(q, ins, alphaMasks[a..a + size]);
  }

  /** A solid fill adds one instance, which reads no mask. */
  lemma FillDrawn(p: Pending, wx: nat, wy: nat, x: u16, w: u16, color: Rgba8, alphaMasks: seq<u8>)
    requires SpanOk(wx, wy, x, w) && Aligned(p) && Addressed(p.instances, p.masks)
    ensures var p' := Step(Corrected, p, wx, wy, SparseFill(x, w, color), alphaMasks);
      && Aligned(p') && Addressed(p'.instances, p'.masks)
      && Drawn(p') == Drawn(p) + CommandDraws(wx, wy, SparseFill(x, w, color), alphaMasks)
  {
    var ins := Span(wx, wy, x, w, U16_MAX, color);
    DecodedSnoc(p.instances, ins, p.masks);
    AddressedSnoc(p.instances, ins, p.masks, []);
    assert p.masks + [] == p.masks;
  }

  /** With the mask index taken after the submit, each command adds exactly what it draws. */
  lemma StepDrawn(p: Pending, wx: nat, wy: nat, c: Command, alphaMasks: seq<u8>)
    requires CommandOk(wx, wy, c, alphaMasks) && CommandFits(c) && Aligned(p) && Addressed(p.instances, p.masks)
    ensures var p' := Step(Corrected, p, wx, wy, c, alphaMasks);
      Aligned(p') && Addressed(p'.instances, p'.masks) && Drawn(p') == Drawn(p) + CommandDraws(wx, wy, c, alphaMasks)
  {
    match c
    case Sample(x, w, color, a) => SampleDrawn(p, wx, wy, x, w, color, a, alphaMasks);
    case SparseFill(x, w, color) => FillDrawn(p, wx, wy, x, w, color, alphaMasks);
    case PushClip => assert Drawn(p) + [] == Drawn(p);
    case PopClip => assert Drawn(p) + [] == Drawn(p);
  }

  // ---------------------------------------------------------------------------------------------
  // Folding the invariants over the loops

  lemma StepCommandsUnfold(v: Variant, p: Pending, wx: nat, wy: nat, cmds: seq<Command>, k: nat, n: nat,
                           alphaMasks: seq<u8>)
    requires k < n <= |cmds| && k == n - 1 && CommandsOk(wx, wy, cmds, alphaMasks)
    ensures CommandOk(wx, wy, cmds[k], alphaMasks)
    ensures StepCommands(v, p, wx, wy, cmds, n, alphaMasks)
      == Step(v, StepCommands(v, p, wx, wy, cmds, k, alphaMasks), wx, wy, cmds[k], alphaMasks)
  {
  }

  lemma TileDrawsUnfold(wx: nat, wy: nat, cmds: seq<Command>, k: nat, n: nat, alphaMasks: seq<u8>)
    requires k < n <= |cmds| && k == n - 1
    ensures TileDraws(wx, wy, cmds, n, alphaMasks) == TileDraws(wx, wy, cmds, k, alphaMasks) + CommandDraws(wx, wy, cmds[k], alphaMasks)
  {
  }

  lemma {:induction false} CommandsBookkeeping(v: Variant, p: Pending, wx: nat, wy: nat, cmds: seq<Command>, n: nat,
                                               alphaMasks: seq<u8>)
    requires n <= |cmds| && CommandsOk(wx, wy, cmds, alphaMasks) && Bookkeeping(p)
    requires forall c <- cmds :: CommandFits(c)
    ensures Bookkeeping(StepCommands(v, p, wx, wy, cmds, n, alphaMasks))
  {
    if n > 0 {
      var k := n - 1;
      CommandsBookkeeping(v, p, wx, wy, cmds, k, alphaMasks);
      StepCommandsUnfold(v, p, wx, wy, cmds, k, n, alphaMasks);
      StepBookkeeping(v, StepCommands(v, p, wx, wy, cmds, k, alphaMasks), wx, wy, cmds[k], alphaMasks);
    }
  }

  lemma AppendAssocDraws(a: seq<Draw>, b: seq<Draw>, c: seq<Draw>)
    ensures (a + b) + c == a + (b + c)
  {
  }

  lemma {:induction false} CommandsDrawn(p: Pending, wx: nat, wy: nat, cmds: seq<Command>, n: nat, alphaMasks: seq<u8>)
    requires n <= |cmds| && CommandsOk(wx, wy, cmds, alphaMasks) && Aligned(p) && Addressed(p.instances, p.masks)
    requires forall c <- cmds :: CommandFits(c)
    ensures var q := StepCommands(Corrected, p, wx, wy, cmds, n, alphaMasks);
      Aligned(q) && Addressed(q.instances, q.masks) && Drawn(q) == Drawn(p) + TileDraws(wx, wy, cmds, n, alphaMasks)
  {
    if n == 0 {
      assert Drawn(p) + [] == Drawn(p);
    } else {
      var k := n - 1;
      CommandsDrawn(p, wx, wy, cmds, k, alphaMasks);
      StepCommandsUnfold(Corrected, p, wx, wy, cmds, k, n, alphaMasks);
      TileDrawsUnfold(wx, wy, cmds, k, n, alphaMasks);
      var q := StepCommands(Corrected, p, wx, wy, cmds, k, alphaMasks);
      StepDrawn(q, wx, wy, cmds[k], alphaMasks);
      AppendAssocDraws(Drawn(p), TileDraws(wx, wy, cmds, k, alphaMasks), CommandDraws(wx, wy, cmds[k], alphaMasks));
    }
  }

  lemma StepTilesUnfold(v: Variant, tiles: seq<WideTile>, k: nat, n: nat, perRow: nat, alphaMasks: seq<u8>)
    requires k < n <= |tiles| && k == n - 1 && TilesOk(tiles, perRow, alphaMasks)
    ensures perRow > 0 && CommandsOk(k % perRow, k / perRow, tiles[k].commands, alphaMasks)
    ensures StepTiles(v, tiles, n, perRow, alphaMasks)
      == StepCommands(v, StepTiles(v, tiles, k, perRow, alphaMasks), k % perRow, k / perRow, tiles[k].commands,
                      |tiles[k].commands|, alphaMasks)
    ensures Draws(tiles, n, perRow, alphaMasks)
      == Draws(tiles, k, perRow, alphaMasks)
        + TileDraws(k % perRow, k / perRow, tiles[k].commands, |tiles[k].commands|, alphaMasks)
  {
  }

  /** Wide tile `i` sits at column `i % perRow` of row `i / perRow`. */
  lemma DivMod(i: nat, perRow: nat)
    requires perRow > 0
    ensures i / perRow >= 0 && 0 <= i % perRow < perRow && i - i / perRow * perRow == i % perRow
  {
  }

  lemma {:induction false} TilesBookkeeping(v: Variant, tiles: seq<WideTile>, n: nat, perRow: nat, alphaMasks: seq<u8>)
    requires n <= |tiles| && TilesOk(tiles, perRow, alphaMasks) && TilesFit(tiles)
    ensures Bookkeeping(StepTiles(v, tiles, n, perRow, alphaMasks))
  {
    if n > 0 {
      var k := n - 1;
      TilesBookkeeping(v, tiles, k, perRow, alphaMasks);
      StepTilesUnfold(v, tiles, k, n, perRow, alphaMasks);
      DivMod(k, perRow);
      var wx: nat, wy: nat := k % perRow, k / perRow;
      CommandsBookkeeping(v, StepTiles(v, tiles, k, perRow, alphaMasks), wx, wy, tiles[k].commands,
                          |tiles[k].commands|, alphaMasks);
    }
  }

  lemma {:induction false} TilesDrawn(tiles: seq<WideTile>, n: nat, perRow: nat, alphaMasks: seq<u8>)
    requires n <= |tiles| && TilesOk(tiles, perRow, alphaMasks) && TilesFit(tiles)
    ensures var p := StepTiles(Corrected, tiles, n, perRow, alphaMasks);
      Aligned(p) && Addressed(p.instances, p.masks) && Drawn(p) == Draws(tiles, n, perRow, alphaMasks)
  {
    if n > 0 {
      var k := n - 1;
      TilesDrawn(tiles, k, perRow, alphaMasks);
      StepTilesUnfold(Corrected, tiles, k, n, perRow, alphaMasks);
      DivMod(k, perRow);
      var wx: nat, wy: nat := k % perRow, k / perRow;
      CommandsDrawn(StepTiles(Corrected, tiles, k, perRow, alphaMasks), wx, wy, tiles[k].commands,
                    |tiles[k].commands|, alphaMasks);
    }
  }

  // ---------------------------------------------------------------------------------------------
  // What the batches promise

  /** For commands that fit in their wide tiles, every batch fits in the uniform buffer and
      draws something, and only the first batch clears the target. */
  lemma BatchesWithinLimit(v: Variant, tiles: seq<WideTile>, perRow: nat, alphaMasks: seq<u8>)
    requires TilesOk(tiles, perRow, alphaMasks) && TilesFit(tiles)
    ensures var bs := Batches(v, tiles, perRow, alphaMasks);
      forall k :: 0 <= k < |bs| ==>
        && |bs[k].masks| <= MAX_UNIFORM_BUFFER_BINDING_SIZE
        && bs[k].instances != []
        && (bs[k].clear <==> k == 0)
  {
    var p := StepTiles(v, tiles, |tiles|, perRow, alphaMasks);
    TilesBookkeeping(v, tiles, |tiles|, perRow, alphaMasks);
    if p.instances != [] {
      SubmitBookkeeping(p);
    }
  }

  /** With the mask index taken after a submit, the batches draw exactly what the commands
      describe, in command order: every solid fill as one, and every sample through its own
      mask bytes, copied from the renderer's alpha masks. */
  lemma BatchesDrawCommands(tiles: seq<WideTile>, perRow: nat, alphaMasks: seq<u8>)
    requires TilesOk(tiles, perRow, alphaMasks) && TilesFit(tiles)
    ensures AllDecoded(Batches(Corrected, tiles, perRow, alphaMasks)) == Draws(tiles, |tiles|, perRow, alphaMasks)
  {
    var p := StepTiles(Corrected, tiles, |tiles|, perRow, alphaMasks);
    TilesDrawn(tiles, |tiles|, perRow, alphaMasks);
    if p.instances != [] {
      SubmitDrawn(p);
      assert Drawn(Submit(p)) == AllDecoded(Submit(p).batches) + [];
    } else {
      assert Drawn(p) == AllDecoded(p.batches) + [];
    }
  }

  // ---------------------------------------------------------------------------------------------
  // The mask index taken before the submit

  const WHITE := Rgba8(255, 255, 255, 255)
  const FULL_SAMPLE := Sample(0, WIDE_TILE_WIDTH_TILES, WHITE, 0)

  /** 64 full-width samples fill the buffer exactly. */
  lemma {:induction false} FullSamplesFill(v: Variant, cmds: seq<Command>, n: nat, alphaMasks: seq<u8>)
    requires n <= |cmds| && n <= 64 && |alphaMasks| >= 256
    requires forall j :: 0 <= j < |cmds| ==> cmds[j] == FULL_SAMPLE
    ensures CommandsOk(0, 0, cmds, alphaMasks)
    ensures var p := StepCommands(v, NOTHING_PENDING, 0, 0, cmds, n, alphaMasks);
      p.batches == [] && |p.masks| == 256 * n
  {
    if n > 0 {
      var k := n - 1;
      FullSamplesFill(v, cmds, k, alphaMasks);
      StepCommandsUnfold(v, NOTHING_PENDING, 0, 0, cmds, k, n, alphaMasks);
    }
  }

  /** A wide tile of 65 full-width samples, all reading the same 256 mask bytes. */
  const OVERFLOWING_TILE := WideTile(seq(65, _ => FULL_SAMPLE))
  const BLANK_MASK := seq(256, _ => 0 as u8)

  /** As written, the 65th full-width sample of a wide tile submits the 64 before it and then
      gets mask index 1024, so its mask would start 16 KiB into the 256-byte buffer its batch
      carries; read after the submit, the index is 0. */
  lemma AsWrittenMisaddresses()
    ensures TilesOk([OVERFLOWING_TILE], 1, BLANK_MASK)
    ensures var bs := Batches(AsWritten, [OVERFLOWING_TILE], 1, BLANK_MASK);
      && |bs| == 2 && |bs[1].instances| == 1 && |bs[1].masks| == 256
      && bs[1].instances[0].alphaIdx == 1024
      && bs[1].instances[0].alphaIdx * MASK_BYTES > |bs[1].masks|
    ensures var cs := Batches(Corrected, [OVERFLOWING_TILE], 1, BLANK_MASK);
      |cs| == 2 && |cs[1].instances| == 1 && cs[1].instances[0].alphaIdx == 0
  {
    var cmds := OVERFLOWING_TILE.commands;
    var tiles := [OVERFLOWING_TILE];
    FullSamplesFill(AsWritten, cmds, 64, BLANK_MASK);
    FullSamplesFill(Corrected, cmds, 64, BLANK_MASK);
    StepTilesUnfold(AsWritten, tiles, 0, 1, 1, BLANK_MASK);
    StepTilesUnfold(Corrected, tiles, 0, 1, 1, BLANK_MASK);
    StepCommandsUnfold(AsWritten, NOTHING_PENDING, 0, 0, cmds, 64, 65, BLANK_MASK);
    StepCommandsUnfold(Corrected, NOTHING_PENDING, 0, 0, cmds, 64, 65, BLANK_MASK);
  }

  /** When the sample's mask fits in the buffer nothing is submitted, and then the code as
      written is right: both readings agree, and the instance's mask index times 16 is the offset
      its mask is written at. */
  lemma NoFlushAgrees(p: Pending, wx: nat, wy: nat, x: u16, w: u16, color: Rgba8, a: u32, alphaMasks: seq<u8>)
    requires SpanOk(wx, wy, x, w) && a + w * MASK_BYTES <= |alphaMasks| && w <= WIDE_TILE_WIDTH_TILES
    requires |p.masks| % MASK_BYTES == 0 && |p.masks| + w * MASK_BYTES <= MAX_UNIFORM_BUFFER_BINDING_SIZE
    ensures SampleStep(AsWritten, p, wx, wy, x, w, color, a, alphaMasks)
         == SampleStep(Corrected, p, wx, wy, x, w, color, a, alphaMasks)
    ensures var p' := SampleStep(AsWritten, p, wx, wy, x, w, color, a, alphaMasks);
      && p'.batches == p.batches && p'.submitted == p.submitted
      && p'.masks == p.masks + alphaMasks[a..a + w * MASK_BYTES]
      && |p'.instances| == |p.instances| + 1
      && Last(p'.instances).alphaIdx * MASK_BYTES == |p.masks|
  {
    SampleArith(w, |p.masks|);
  }

  /** A step never drops a submitted batch. */
  lemma StepGrows(v: Variant, p: Pending, wx: nat, wy: nat, c: Command, alphaMasks: seq<u8>)
    requires CommandOk(wx, wy, c, alphaMasks)
    ensures |Step(v, p, wx, wy, c, alphaMasks).batches| >= |p.batches|
  {
  }

  /** A step that submits nothing is the same in both readings. */
  lemma StepAgrees(p: Pending, wx: nat, wy: nat, c: Command, alphaMasks: seq<u8>)
    requires CommandOk(wx, wy, c, alphaMasks)
    requires |Step(AsWritten, p, wx, wy, c, alphaMasks).batches| == |p.batches|
    ensures Step(AsWritten, p, wx, wy, c, alphaMasks) == Step(Corrected, p, wx, wy, c, alphaMasks)
  {
  }

  lemma {:induction false} CommandsGrow(v: Variant, p: Pending, wx: nat, wy: nat, cmds: seq<Command>, m: nat, n: nat,
                                        alphaMasks: seq<u8>)
    requires m <= n <= |cmds| && CommandsOk(wx, wy, cmds, alphaMasks)
    ensures |StepCommands(v, p, wx, wy, cmds, m, alphaMasks).batches| <= |StepCommands(v, p, wx, wy, cmds, n, alphaMasks).batches|
  {
    if m < n {
      var k := n - 1;
      CommandsGrow(v, p, wx, wy, cmds, m, k, alphaMasks);
      StepCommandsUnfold(v, p, wx, wy, cmds, k, n, alphaMasks);
      StepGrows(v, StepCommands(v, p, wx, wy, cmds, k, alphaMasks), wx, wy, cmds[k], alphaMasks);
    }
  }

  /** Commands that submit nothing give the same state in both readings. */
  lemma {:induction false} CommandsAgree(p: Pending, wx: nat, wy: nat, cmds: seq<Command>, n: nat, alphaMasks: seq<u8>)
    requires n <= |cmds| && CommandsOk(wx, wy, cmds, alphaMasks)
    requires |StepCommands(AsWritten, p, wx, wy, cmds, n, alphaMasks).batches| == |p.batches|
    ensures StepCommands(AsWritten, p, wx, wy, cmds, n, alphaMasks) == StepCommands(Corrected, p, wx, wy, cmds, n, alphaMasks)
  {
    if n > 0 {
      var k := n - 1;
      StepCommandsUnfold(AsWritten, p, wx, wy, cmds, k, n, alphaMasks);
      StepCommandsUnfold(Corrected, p, wx, wy, cmds, k, n, alphaMasks);
      var q := StepCommands(AsWritten, p, wx, wy, cmds, k, alphaMasks);
      CommandsGrow(AsWritten, p, wx, wy, cmds, 0, k, alphaMasks);
      StepGrows(AsWritten, q, wx, wy, cmds[k], alphaMasks);
      CommandsAgree(p, wx, wy, cmds, k, alphaMasks);
      StepAgrees(q, wx, wy, cmds[k], alphaMasks);
    }
  }

  /** The first `n` wide tiles give the same state in both readings when they submit nothing. */
  lemma {:induction false} TilesAgree(tiles: seq<WideTile>, n: nat, perRow: nat, alphaMasks: seq<u8>)
    requires n <= |tiles| && TilesOk(tiles, perRow, alphaMasks)
    requires StepTiles(AsWritten, tiles, n, perRow, alphaMasks).batches == []
    ensures StepTiles(AsWritten, tiles, n, perRow, alphaMasks) == StepTiles(Corrected, tiles, n, perRow, alphaMasks)
  {
    if n > 0 {
      var k := n - 1;
      StepTilesUnfold(AsWritten, tiles, k, n, perRow, alphaMasks);
      StepTilesUnfold(Corrected, tiles, k, n, perRow, alphaMasks);
      DivMod(k, perRow);
      var wx: nat, wy: nat := k % perRow, k / perRow;
      var cmds := tiles[k].commands;
      var q := StepTiles(AsWritten, tiles, k, perRow, alphaMasks);
      CommandsGrow(AsWritten, q, wx, wy, cmds, 0, |cmds|, alphaMasks);
      TilesAgree(tiles, k, perRow, alphaMasks);
      CommandsAgree(q, wx, wy, cmds, |cmds|, alphaMasks);
    }
  }

  /** When the code as written submits only the trailing batch, its mask indices are right:
      it submits the batches of the corrected reading, which draw exactly what the commands
      describe. */
  lemma SingleBatchDrawsCommands(tiles: seq<WideTile>, perRow: nat, alphaMasks: seq<u8>)
    requires TilesOk(tiles, perRow, alphaMasks) && TilesFit(tiles)
    requires StepTiles(AsWritten, tiles, |tiles|, perRow, alphaMasks).batches == []
    ensures Batches(AsWritten, tiles, perRow, alphaMasks) == Batches(Corrected, tiles, perRow, alphaMasks)
    ensures AllDecoded(Batches(AsWritten, tiles, perRow, alphaMasks)) == Draws(tiles, |tiles|, perRow, alphaMasks)
  {
    TilesAgree(tiles, |tiles|, perRow, alphaMasks);
    BatchesDrawCommands(tiles, perRow, alphaMasks);
  }

  // ---------------------------------------------------------------------------------------------
  // The rasterizer

  /** The first `rowBytes` bytes of each of the first `rows` rows of `mapped`, whose rows are
      `bytesPerRow` bytes apart, back to back. */
  function Unpadded(mapped: seq<u8>, bytesPerRow: nat, rowBytes: nat, rows: nat): (r: seq<u8>)
    requires rowBytes <= bytesPerRow && rows * bytesPerRow <= |mapped|
    ensures |r| == rows * rowBytes
  {
    if rows == 0 then []
    else
      var y := rows - 1;
      RowBelow(y, rows, bytesPerRow);
      RowBelow(y, rows, rowBytes);
      Unpadded(mapped, bytesPerRow, rowBytes, y) + mapped[y * bytesPerRow..y * bytesPerRow + rowBytes]
  }

  /** Row `row` of `height` rows of `n` bytes lies inside them. */
  lemma RowBelow(row: nat, height: nat, n: nat)
    requires row < height
    ensures 0 <= row * n && (row + 1) * n == row * n + n <= height * n
  {
    WideTiles.MulMono(row + 1, height, n);
  }

  /** Byte `x` of row `y` of the unpadded rows is byte `x` of row `y` of the padded ones. */
  lemma {:induction false} UnpaddedAt(mapped: seq<u8>, bytesPerRow: nat, rowBytes: nat, rows: nat, y: nat, x: nat)
    requires rowBytes <= bytesPerRow && rows * bytesPerRow <= |mapped| && y < rows && x < rowBytes
    ensures y * rowBytes + x < rows * rowBytes && y * bytesPerRow + x < |mapped|
    ensures Unpadded(mapped, bytesPerRow, rowBytes, rows)[y * rowBytes + x] == mapped[y * bytesPerRow + x]
  {
    var k := rows - 1;
    RowBelow(k, rows, bytesPerRow);
    RowBelow(k, rows, rowBytes);
    RowBelow(y, rows, bytesPerRow);
    RowBelow(y, rows, rowBytes);
    if y < k {
      UnpaddedAt(mapped, bytesPerRow, rowBytes, k, y, x);
    }
  }

  /** `copy_from_slice` into `dest` at `at`. */
  method CopyRow(dest: array<u8>, at: nat, src: seq<u8>)
    requires at + |src| <= dest.Length
    modifies dest
    ensures dest[..at] == old(dest[..at]) && dest[at..at + |src|] == src
    ensures dest[at + |src|..] == old(dest[at + |src|..])
  {
    for x := 0 to |src|
      invariant forall k :: 0 <= k < dest.Length ==> dest[k] == if at <= k < at + x then src[k - at] else old(dest[k])
    {
      dest[at + x] := src[x];
    }
    assert dest[at..at + |src|] == src by {
      forall k | 0 <= k < |src| ensures dest[at..at + |src|][k] == src[k] {
        assert dest[at + k] == src[k];
      }
    }
  }

  /** `dest` holds the first `rows` unpadded rows of `mapped`, and the bytes of `orig` after them. */
  ghost predicate CopiedRows(mapped: seq<u8>, bytesPerRow: nat, rowBytes: nat, rows: nat, dest: seq<u8>, orig: seq<u8>)
  {
    && rowBytes <= bytesPerRow && rows * bytesPerRow <= |mapped| && rows * rowBytes <= |dest| == |orig|
    && dest[..rows * rowBytes] == Unpadded(mapped, bytesPerRow, rowBytes, rows)
    && dest[rows * rowBytes..] == orig[rows * rowBytes..]
  }

  /** Copying the next row after `rows` copied ones leaves `rows + 1` copied. */
  lemma CopiedNextRow(mapped: seq<u8>, bytesPerRow: nat, rowBytes: nat, rows: nat, dest: seq<u8>, dest': seq<u8>,
                      orig: seq<u8>)
    requires CopiedRows(mapped, bytesPerRow, rowBytes, rows, dest, orig)
    requires (rows + 1) * bytesPerRow <= |mapped| && (rows + 1) * rowBytes <= |dest| == |dest'|
    requires (rows + 1) * rowBytes == rows * rowBytes + rowBytes && (rows + 1) * bytesPerRow == rows * bytesPerRow + bytesPerRow
    requires dest'[..rows * rowBytes] == dest[..rows * rowBytes]
    requires dest'[rows * rowBytes..rows * rowBytes + rowBytes] == mapped[rows * bytesPerRow..rows * bytesPerRow + rowBytes]
    requires dest'[rows * rowBytes + rowBytes..] == dest[rows * rowBytes + rowBytes..]
    ensures CopiedRows(mapped, bytesPerRow, rowBytes, rows + 1, dest', orig)
  {
    var lo := rows * rowBytes;
    var hi := lo + rowBytes;
    assert dest'[..hi] == dest'[..lo] + dest'[lo..hi];
    assert dest[lo..][rowBytes..] == dest[hi..];
  }

  class Rasterizer {
    const width: u16
    const height: u16
    /** `texture_copy_buffer.bytes_per_row`. */
    const bytesPerRow: nat := BytesPerRow(width)
    /** The batches submitted to the GPU, oldest first. */
    var batches: seq<Batch>

    /** `rasterizer`: a target of `width` by `height` pixels and its padded copy buffer. */
    constructor (width: u16, height: u16)
      requires width <= 256 && height <= 256
      ensures this.width == width && this.height == height
      ensures batches == []
    {
      this.width := width;
      this.height := height;
      batches := [];
    }

    /** `submit`: draws the batch, clearing the target first when asked, and empties the
        instance and mask vectors. */
    method Submit(clearTexture: bool, instances: seq<Instance>, masks: seq<u8>)
      returns (instances': seq<Instance>, masks': seq<u8>)
      modifies this
      ensures batches == old(batches) + [Batch(instances, masks, clearTexture)]
      ensures instances' == [] && masks' == []
    {
      batches := batches + [Batch(instances, masks, clearTexture)];
      instances', masks' := [], [];
    }

    /** One command of wide tile `(wx, wy)`, on top of the batches `earlier` submitted before
        this call. */
    method RasterizeCommand(alphaMasks: seq<u8>, wx: nat, wy: nat, c: Command,
                            instances: seq<Instance>, masks: seq<u8>, submitted: bool,
                            ghost earlier: seq<Batch>, ghost p: Pending)
      returns (instances': seq<Instance>, masks': seq<u8>, submitted': bool)
      requires CommandOk(wx, wy, c, alphaMasks)
      requires batches == earlier + p.batches && instances == p.instances && masks == p.masks && submitted == p.submitted
      modifies this
      ensures var q := Step(AsWritten, p, wx, wy, c, alphaMasks);
        batches == earlier + q.batches && instances' == q.instances && masks' == q.masks && submitted' == q.submitted
    {
      instances', masks', submitted' := instances, masks, submitted;
      match c
      case Sample(x, w, color, a) =>
        var alphaMaskSize := w * MASK_BYTES;
        var alphaIdx := |masks'|;
        if alphaIdx + alphaMaskSize > MAX_UNIFORM_BUFFER_BINDING_SIZE {
          instances', masks' := Submit(!submitted', instances', masks');
          submitted' := true;
        }
        masks' := masks' + alphaMasks[a..a + alphaMaskSize];
        instances' := instances' + [Span(wx, wy, x, w, alphaIdx % 0x1_0000 / MASK_BYTES, color)];
      case SparseFill(x, w, color) =>
        instances' := instances' + [Span(wx, wy, x, w, U16_MAX, color)];
      case _ =>
    }

    /** The commands of wide tile `(wx, wy)`, in order. */
    method RasterizeTile(alphaMasks: seq<u8>, wx: nat, wy: nat, cmds: seq<Command>,
                         instances: seq<Instance>, masks: seq<u8>, submitted: bool,
                         ghost earlier: seq<Batch>, ghost p: Pending)
      returns (instances': seq<Instance>, masks': seq<u8>, submitted': bool)
      requires CommandsOk(wx, wy, cmds, alphaMasks)
      requires batches == earlier + p.batches && instances == p.instances && masks == p.masks && submitted == p.submitted
      modifies this
      ensures var q := StepCommands(AsWritten, p, wx, wy, cmds, |cmds|, alphaMasks);
        batches == earlier + q.batches && instances' == q.instances && masks' == q.masks && submitted' == q.submitted
    {
      instances', masks', submitted' := instances, masks, submitted;
      for j := 0 to |cmds|
        invariant var q := StepCommands(AsWritten, p, wx, wy, cmds, j, alphaMasks);
          batches == earlier + q.batches && instances' == q.instances && masks' == q.masks && submitted' == q.submitted
      {
        StepCommandsUnfold(AsWritten, p, wx, wy, cmds, j, j + 1, alphaMasks);
        instances', masks', submitted' := RasterizeCommand(alphaMasks, wx, wy, cmds[j], instances', masks', submitted',
                                                           earlier, StepCommands(AsWritten, p, wx, wy, cmds, j, alphaMasks));
      }
    }

    /** `rasterize`: submits the batches for the wide tiles of an image `width` pixels wide, and
        copies the target, read back as `mapped`, into `destImg`. */
    method Rasterize(alphaMasks: seq<u8>, wideTiles: seq<WideTile>, width: u16, mapped: seq<u8>, destImg: array<u8>)
      requires TilesOk(wideTiles, GridColumns(width), alphaMasks)
      requires this.width > 0 && |mapped| == height * bytesPerRow && destImg.Length >= height * (this.width * 4)
      modifies this, destImg
      ensures batches == old(batches) + Batches(AsWritten, wideTiles, GridColumns(width), alphaMasks)
      ensures destImg[..height * (this.width * 4)] == Unpadded(mapped, bytesPerRow, this.width * 4, height)
      ensures destImg[height * (this.width * 4)..] == old(destImg[height * (this.width * 4)..])
    {
      Encode(alphaMasks, wideTiles, GridColumns(width));
      ReadBack(mapped, destImg);
    }

    /** The loop of `rasterize`: the wide tiles in order, `perRow` to a row, and the trailing
        submit. */
    method Encode(alphaMasks: seq<u8>, wideTiles: seq<WideTile>, perRow: nat)
      requires TilesOk(wideTiles, perRow, alphaMasks)
      modifies this
      ensures batches == old(batches) + Batches(AsWritten, wideTiles, perRow, alphaMasks)
    {
      var instances: seq<Instance> := [];
      var masks: seq<u8> := [];
      var submitted := false;
      for idx := 0 to |wideTiles|
        invariant var q := StepTiles(AsWritten, wideTiles, idx, perRow, alphaMasks);
          batches == old(batches) + q.batches && instances == q.instances && masks == q.masks && submitted == q.submitted
      {
        StepTilesUnfold(AsWritten, wideTiles, idx, idx + 1, perRow, alphaMasks);
        DivMod(idx, perRow);
        var wideTileY := idx / perRow;
        var wideTileX := idx - wideTileY * perRow;
        instances, masks, submitted := RasterizeTile(alphaMasks, wideTileX, wideTileY, wideTiles[idx].commands,
                                                     instances, masks, submitted, old(batches),
                                                     StepTiles(AsWritten, wideTiles, idx, perRow, alphaMasks));
      }
      if instances != [] {
        instances, masks := Submit(!submitted, instances, masks);
      }
    }

    /** The end of `rasterize`: row `y` of the copy buffer starts at `y * bytesPerRow`; its
        first `width * 4` bytes go to `destImg`, back to back. A zero width makes the rows
        zero bytes long, which `chunks_exact` rejects. */
    method ReadBack(mapped: seq<u8>, destImg: array<u8>)
      requires width > 0 && |mapped| == height * bytesPerRow && destImg.Length >= height * (width * 4)
      modifies destImg
      ensures destImg[..height * (width * 4)] == Unpadded(mapped, bytesPerRow, width * 4, height)
      ensures destImg[height * (width * 4)..] == old(destImg[height * (width * 4)..])
    {
      var rowBytes := width * 4;
      var imgIdx := 0;
      for row := 0 to height
        invariant imgIdx == row * rowBytes
        invariant CopiedRows(mapped, bytesPerRow, rowBytes, row, destImg[..], old(destImg[..]))
      {
        RowBelow(row, height, rowBytes);
        RowBelow(row, height, bytesPerRow);
        var off := row * bytesPerRow;
        ghost var before := destImg[..];
        CopyRow(destImg, imgIdx, mapped[off..off + rowBytes]);
        CopiedNextRow(mapped, bytesPerRow, rowBytes, row, before, destImg[..], old(destImg[..]));
        imgIdx := imgIdx + rowBytes;
      }
    }
  }
}
