/**
 The code generator of custom_op/example/UnPoolingOp.cpp: the search for a tile size and the loops
 that emit one group of instructions per tile, against the nested loops of UnPoolingOp.h.
 */
module UnpoolCodegen {
  import opened Common
  import opened UnpoolMachine
  import opened UnpoolTile

  // ----- The tile size --------------------------------------------------------------------------

  /** What the search rejects: sizes are added up in 32 bits. */
  ghost predicate Oversized(layout: Layout, p: Params, c: nat, h: nat) {
    Low32(TotalSize(layout, p, c, h)) > LOCAL_MEM_SIZE
  }

  ghost predicate TileFitsLane(layout: Layout, p: Params, c: nat, h: nat) {
    TotalSize(layout, p, c, h) <= LOCAL_MEM_SIZE
  }

  /** The pair the search settles on: the first that passes, all channel counts before a smaller height. */
  ghost predicate Chosen(layout: Layout, p: Params, cStep: nat, hStep: nat) {
    && NPU_NUM <= cStep <= p.inputC && 0 < hStep <= p.inputH && !Oversized(layout, p, cStep, hStep)
    && (forall c, h :: NPU_NUM <= c <= p.inputC && hStep < h <= p.inputH ==> Oversized(layout, p, c, h))
    && (forall c :: cStep < c <= p.inputC ==> Oversized(layout, p, c, hStep))
  }

  /** There is one such pair at most. */
  lemma ChosenUnique(layout: Layout, p: Params, c: nat, h: nat, c': nat, h': nat)
    requires Chosen(layout, p, c, h) && Chosen(layout, p, c', h')
    ensures c == c' && h == h'
  {
    hide Oversized;
  }

  /** Zero height if nothing passes. The pair does fit exactly when its size is below 2^32. */
  method SearchSteps(layout: Layout, p: Params) returns (cStep: nat, hStep: nat)
    requires p.inputC >= NPU_NUM
    ensures hStep > 0 ==> Chosen(layout, p, cStep, hStep)
    ensures hStep == 0 ==> forall c, h :: NPU_NUM <= c <= p.inputC && 0 < h <= p.inputH ==> Oversized(layout, p, c, h)
    ensures hStep > 0 ==> (TileFitsLane(layout, p, cStep, hStep) <==> TotalSize(layout, p, cStep, hStep) < U32)
  {
    hide TotalSize, Low32;
    cStep, hStep := 0, p.inputH;
    while hStep > 0
      invariant hStep <= p.inputH
      invariant forall c, h :: NPU_NUM <= c <= p.inputC && hStep < h <= p.inputH ==> Oversized(layout, p, c, h)
    {
      var totalSize := 0;
      cStep := p.inputC;
      while cStep >= NPU_NUM
        invariant NPU_NUM - 1 <= cStep <= p.inputC
        invariant forall c :: cStep < c <= p.inputC ==> Oversized(layout, p, c, hStep)
        invariant cStep < NPU_NUM ==> totalSize > LOCAL_MEM_SIZE
      {
        totalSize := Low32(TotalSize(layout, p, cStep, hStep));
        if totalSize <= LOCAL_MEM_SIZE {
          break;
        }
        cStep := cStep - 1;
      }
      if totalSize <= LOCAL_MEM_SIZE {
        break;
      }
      hStep := hStep - 1;
    }
  }

  lemma SizeMonotone(layout: Layout, p: Params, c: nat, h: nat, c': nat, h': nat)
    requires Sound(layout) && c <= c' && h <= h'
    ensures TotalSize(layout, p, c, h) <= TotalSize(layout, p, c', h')
  {
    hide Sound;
    Grows(h, h', p.scale);
    OneSize(layout, c, h, p.inputW, c', h');
    OneSize(layout, c, h, OutputW(p), c', h');
    OneSize(layout, c, h * p.scale, OutputW(p), c', h' * p.scale);
  }

  lemma OneSize(layout: Layout, c: nat, h: nat, w: nat, c': nat, h': nat)
    requires Sound(layout) && c <= c' && h <= h'
    ensures layout.size(c, h, w) <= layout.size(c', h', w)
  {
  }

  // ----- What has been done so far --------------------------------------------------------------

  /** What the tool needs of an operation. */
  ghost predicate Accepts(p: Params) {
    && p.inputC >= NPU_NUM && p.inputH > 0 && p.scale > 0
    && (p.inputH - 1) * p.scale < p.unpoolH <= OutputH(p) && p.unpoolW <= OutputW(p)
  }

  /** The buffers of the smallest tile, one row of as many channels as there are lanes, fit into 32 KB. */
  ghost predicate LeastFits(layout: Layout, p: Params)
    requires p.inputH > 0
  {
    BuffersEnd(layout, AllocLmem(layout, p, 32, 1)) <= 32768
  }

  /** The output does not lie over the operands. */
  ghost predicate OperandsApart(p: Params) {
    && (forall n: nat, c: nat, y: nat, x: nat :: n < p.inputN && c < p.inputC && y < p.inputH && x < p.inputW ==>
          !IsOutput(p, At(p.dataAddr, p.inputC, p.inputH, p.inputW, n, c, y, x)))
    && (forall n: nat, c: nat, y: nat, x: nat :: n < p.inputN && c < p.inputC && y < OutputH(p) && x < OutputW(p) ==>
          !IsOutput(p, At(p.maskAddr, p.inputC, OutputH(p), OutputW(p), n, c, y, x)))
  }

  /** All images before `np`, of that image all channels before `cp`, and rows below `hp` of those before `ce`. */
  predicate Done(p: Params, np: nat, cp: nat, ce: nat, hp: nat, n: nat, c: nat, y: nat) {
    n < np || (n == np && (c < cp || (c < ce && y < hp * p.scale)))
  }

  ghost predicate Values(p: Params, prog: seq<Instr>, np: nat, cp: nat, ce: nat, hp: nat)
    requires p.scale > 0
  {
    forall mem, n: nat, c: nat, y: nat, x: nat :: InOutput(p, n, c, y, x) ==>
      Run(mem, prog)(OutCell(p, n, c, y, x))
      == if Done(p, np, cp, ce, hp, n, c, y) then Expected(mem, p, n, c, y, x) else mem(OutCell(p, n, c, y, x))
  }

  ghost predicate OnlyOutput(p: Params, prog: seq<Instr>) {
    && (forall mem, a :: !IsOutput(p, Global(a)) ==> Run(mem, prog)(Global(a)) == mem(Global(a)))
    && (forall a :: !IsOutput(p, Global(a)) ==> Writes(prog, Global(a)) == 0)
  }

  ghost predicate Once(p: Params, prog: seq<Instr>, np: nat, cp: nat, ce: nat, hp: nat) {
    forall n: nat, c: nat, y: nat, x: nat :: InOutput(p, n, c, y, x) ==>
      Writes(prog, OutCell(p, n, c, y, x)) == if Done(p, np, cp, ce, hp, n, c, y) then 1 else 0
  }

  /** Instructions are well formed and keep to local memory. */
  ghost predicate FitsLocal(prog: seq<Instr>) {
    && (forall i :: i in prog ==> Matched(i))
    && forall i, cell :: i in prog && Touches(i.dst, cell) && cell.Local? ==> 0 <= cell.addr < LOCAL_MEM_SIZE
  }

  ghost predicate Progress(p: Params, prog: seq<Instr>, np: nat, cp: nat, ce: nat, hp: nat)
    requires p.scale > 0
  {
    Values(p, prog, np, cp, ce, hp) && OnlyOutput(p, prog) && Once(p, prog, np, cp, ce, hp) && FitsLocal(prog)
  }

  lemma StartProgress(p: Params)
    requires p.scale > 0
    ensures Progress(p, [], 0, 0, 0, 0)
  {
  }

  /** The same elements are done. */
  lemma SameProgress(p: Params, prog: seq<Instr>, np: nat, cp: nat, ce: nat, hp: nat, np': nat, cp': nat, ce': nat, hp': nat)
    requires p.scale > 0 && Progress(p, prog, np, cp, ce, hp)
    requires forall n: nat, c: nat, y: nat, x: nat :: InOutput(p, n, c, y, x) ==>
      (Done(p, np, cp, ce, hp, n, c, y) <==> Done(p, np', cp', ce', hp', n, c, y))
    ensures Progress(p, prog, np', cp', ce', hp')
  {
    hide Run, Writes, Expected, OutCell, Done, InOutput, FitsLocal, OnlyOutput;
  }

  lemma AllRowsDone(p: Params, hp: nat)
    requires Accepts(p) && hp >= p.inputH
    ensures p.unpoolH <= hp * p.scale
  {
    Grows(p.inputH, hp, p.scale);
  }

  lemma NextChannels(p: Params, prog: seq<Instr>, np: nat, cp: nat, ce: nat, hp: nat, ce': nat)
    requires Accepts(p) && Progress(p, prog, np, cp, ce, hp) && hp >= p.inputH && cp <= ce
    ensures Progress(p, prog, np, ce, ce', 0)
  {
    AllRowsDone(p, hp);
    SameProgress(p, prog, np, cp, ce, hp, np, ce, ce', 0);
  }

  lemma NextImage(p: Params, prog: seq<Instr>, np: nat, cp: nat, ce: nat)
    requires p.scale > 0 && Progress(p, prog, np, cp, ce, 0) && cp >= p.inputC
    ensures Progress(p, prog, np + 1, 0, 0, 0)
  {
    SameProgress(p, prog, np, cp, ce, 0, np + 1, 0, 0, 0);
  }

  // ----- One more tile --------------------------------------------------------------------------

  /** Tile `t` comes next. */
  predicate Follows(t: Tile, np: nat, cp: nat, ce: nat, hp: nat) {
    t.n == np && t.c == cp && cp + t.tilingC == ce && t.h == hp
  }

  lemma DoneGrows(p: Params, np: nat, cp: nat, ce: nat, hp: nat, t: Tile, n: nat, c: nat, y: nat)
    requires Follows(t, np, cp, ce, hp)
    ensures Done(p, np, cp, ce, hp + t.tilingH, n, c, y) <==> Done(p, np, cp, ce, hp, n, c, y) || Covers(p, t, n, c, y)
    ensures !(Done(p, np, cp, ce, hp, n, c, y) && Covers(p, t, n, c, y))
  {
    assert (hp + t.tilingH) * p.scale == hp * p.scale + t.tilingH * p.scale;
  }

  lemma ExpectedKept(p: Params, prog: seq<Instr>, mem: Memory, n: nat, c: nat, y: nat, x: nat)
    requires Accepts(p) && OperandsApart(p) && OnlyOutput(p, prog) && InOutput(p, n, c, y, x)
    ensures Expected(Run(mem, prog), p, n, c, y, x) == Expected(mem, p, n, c, y, x)
  {
    hide Run, Writes, IsOutput, Narrow, Volume, Inner;
    DivRadix(y, p.scale, p.inputH);
    DivRadix(x, p.scale, p.inputW);
    var d := At(p.dataAddr, p.inputC, p.inputH, p.inputW, n, c, y / p.scale, x / p.scale);
    var m := At(p.maskAddr, p.inputC, OutputH(p), OutputW(p), n, c, y, x);
    assert !IsOutput(p, d) && !IsOutput(p, m);
    assert d == Global(d.addr) && m == Global(m.addr);
  }

  lemma TileValue(layout: Layout, p: Params, prog: seq<Instr>, np: nat, cp: nat, ce: nat, hp: nat, t: Tile, mem: Memory, n: nat, c: nat, y: nat, x: nat)
    requires Sound(layout) && Accepts(p) && OperandsApart(p) && Values(p, prog, np, cp, ce, hp) && OnlyOutput(p, prog)
    requires TileOk(p, t) && Follows(t, np, cp, ce, hp) && InOutput(p, n, c, y, x)
    ensures Run(mem, prog + TileProgram(layout, p, t))(OutCell(p, n, c, y, x))
         == if Done(p, np, cp, ce, hp + t.tilingH, n, c, y) then Expected(mem, p, n, c, y, x) else mem(OutCell(p, n, c, y, x))
  {
    hide Run, Expected, OutCell, TileProgram, Sound, OperandsApart, OnlyOutput, Done, Covers, TileOk;
    RunAppend(mem, prog, TileProgram(layout, p, t));
    TileEffect(layout, p, t, Run(mem, prog), n, c, y, x);
    ExpectedKept(p, prog, mem, n, c, y, x);
    DoneGrows(p, np, cp, ce, hp, t, n, c, y);
  }

  lemma TileOnce(layout: Layout, p: Params, prog: seq<Instr>, np: nat, cp: nat, ce: nat, hp: nat, t: Tile, n: nat, c: nat, y: nat, x: nat)
    requires Sound(layout) && Accepts(p) && Once(p, prog, np, cp, ce, hp)
    requires TileOk(p, t) && Follows(t, np, cp, ce, hp) && InOutput(p, n, c, y, x)
    ensures Writes(prog + TileProgram(layout, p, t), OutCell(p, n, c, y, x)) == if Done(p, np, cp, ce, hp + t.tilingH, n, c, y) then 1 else 0
  {
    hide Writes, Touches, TileProgram, Sound, Volume, Inner, Done, Covers, TileOk;
    var cell := OutCell(p, n, c, y, x);
    WritesAppend(prog, TileProgram(layout, p, t), cell);
    assert cell == Global(cell.addr);
    TileWrites(layout, p, t, cell.addr);
    StoreTouches(p, t, n, c, y, x);
    DoneGrows(p, np, cp, ce, hp, t, n, c, y);
  }

  lemma TileOnlyOutput(layout: Layout, p: Params, prog: seq<Instr>, t: Tile)
    requires Sound(layout) && OnlyOutput(p, prog) && TileOk(p, t)
    ensures OnlyOutput(p, prog + TileProgram(layout, p, t))
  {
    hide Run, Writes, Touches, TileProgram, Sound, IsOutput, TileOk;
    forall mem, a | !IsOutput(p, Global(a))
      ensures Run(mem, prog + TileProgram(layout, p, t))(Global(a)) == mem(Global(a))
    {
      RunAppend(mem, prog, TileProgram(layout, p, t));
      TileKeeps(layout, p, t, Run(mem, prog), a);
    }
    forall a | !IsOutput(p, Global(a))
      ensures Writes(prog + TileProgram(layout, p, t), Global(a)) == 0
    {
      WritesAppend(prog, TileProgram(layout, p, t), Global(a));
      TileWrites(layout, p, t, a);
      StoreInOutput(p, t, Global(a));
    }
  }

  lemma TileFitsLocal(layout: Layout, p: Params, prog: seq<Instr>, t: Tile)
    requires Sound(layout) && FitsLocal(prog) && TileOk(p, t) && TotalSize(layout, p, t.tilingC, t.tilingH) <= LOCAL_MEM_SIZE
    ensures FitsLocal(prog + TileProgram(layout, p, t))
  {
    hide Touches, TileProgram, Sound, TileOk, TotalSize, Matched;
    forall i | i in prog + TileProgram(layout, p, t)
      ensures Matched(i)
    {
      if i !in prog {
        TileMatched(layout, p, t, i);
      }
    }
    forall i, cell | i in prog + TileProgram(layout, p, t) && Touches(i.dst, cell) && cell.Local?
      ensures 0 <= cell.addr < LOCAL_MEM_SIZE
    {
      if i !in prog {
        TileFits(layout, p, t, i, cell);
      }
    }
  }

  lemma AddTile(layout: Layout, p: Params, prog: seq<Instr>, np: nat, cp: nat, ce: nat, hp: nat, t: Tile)
    requires Sound(layout) && Accepts(p) && OperandsApart(p) && Progress(p, prog, np, cp, ce, hp)
    requires TileOk(p, t) && Follows(t, np, cp, ce, hp)
    requires TotalSize(layout, p, t.tilingC, t.tilingH) <= LOCAL_MEM_SIZE
    ensures Progress(p, prog + TileProgram(layout, p, t), np, cp, ce, hp + t.tilingH)
  {
    TileOnlyOutput(layout, p, prog, t);
    TileFitsLocal(layout, p, prog, t);
    hide Run, Writes, Expected, OutCell, TileProgram, Sound, OperandsApart, OnlyOutput, FitsLocal, TileOk, Done, Accepts;
    var more := prog + TileProgram(layout, p, t);
    assert Values(p, more, np, cp, ce, hp + t.tilingH) by {
      forall mem, n: nat, c: nat, y: nat, x: nat | InOutput(p, n, c, y, x)
        ensures Run(mem, more)(OutCell(p, n, c, y, x))
             == if Done(p, np, cp, ce, hp + t.tilingH, n, c, y) then Expected(mem, p, n, c, y, x) else mem(OutCell(p, n, c, y, x))
      {
        TileValue(layout, p, prog, np, cp, ce, hp, t, mem, n, c, y, x);
      }
    }
    assert Once(p, more, np, cp, ce, hp + t.tilingH) by {
      forall n: nat, c: nat, y: nat, x: nat | InOutput(p, n, c, y, x)
        ensures Writes(more, OutCell(p, n, c, y, x)) == if Done(p, np, cp, ce, hp + t.tilingH, n, c, y) then 1 else 0
      {
        TileOnce(layout, p, prog, np, cp, ce, hp, t, n, c, y, x);
      }
    }
  }

  // ----- The generator --------------------------------------------------------------------------

  /** For every initial memory, the run leaves the reference values, each written once, and touches no other global byte. */
  ghost predicate Computes(p: Params, prog: seq<Instr>)
    requires p.scale > 0
  {
    && (forall mem, n: nat, c: nat, y: nat, x: nat :: InOutput(p, n, c, y, x) ==>
          Run(mem, prog)(OutCell(p, n, c, y, x)) == Expected(mem, p, n, c, y, x))
    && (forall n: nat, c: nat, y: nat, x: nat :: InOutput(p, n, c, y, x) ==> Writes(prog, OutCell(p, n, c, y, x)) == 1)
    && OnlyOutput(p, prog) && FitsLocal(prog)
  }

  lemma AllDone(p: Params, prog: seq<Instr>, np: nat)
    requires p.scale > 0 && Progress(p, prog, np, 0, 0, 0) && np >= p.inputN
    ensures Computes(p, prog)
  {
    hide Run, Writes, Expected, OutCell, OnlyOutput, FitsLocal;
  }

  /** The tiles of the loops. */
  ghost predicate IsTile(p: Params, cStep: nat, hStep: nat, t: Tile)
    requires 0 < cStep && 0 < hStep
  {
    && t.n < p.inputN && t.c < p.inputC && t.h < p.inputH && t.c % cStep == 0 && t.h % hStep == 0
    && t.tilingC == (if p.inputC - t.c < cStep then p.inputC - t.c else cStep)
    && t.tilingH == (if p.inputH - t.h < hStep then p.inputH - t.h else hStep)
  }

  lemma TilesOk(p: Params, cStep: nat, hStep: nat, t: Tile)
    requires Accepts(p) && 0 < cStep && 0 < hStep && IsTile(p, cStep, hStep, t)
    ensures TileOk(p, t)
  {
    Grows(t.h, p.inputH - 1, p.scale);
  }

  lemma TileSize(layout: Layout, p: Params, cStep: nat, hStep: nat, t: Tile)
    requires Sound(layout) && TileFitsLane(layout, p, cStep, hStep) && t.tilingC <= cStep && t.tilingH <= hStep
    ensures TotalSize(layout, p, t.tilingC, t.tilingH) <= LOCAL_MEM_SIZE
  {
    hide Sound, TotalSize;
    SizeMonotone(layout, p, t.tilingC, t.tilingH, cStep, hStep);
  }

  // ----- Placement ------------------------------------------------------------------------------

  /** The largest multiple of the step below `n`. */
  function LastStart(n: nat, step: nat): nat
    requires 0 < n && 0 < step
  {
    (n - 1) / step * step
  }

  lemma LastStartIsLast(n: nat, step: nat)
    requires 0 < n && 0 < step
    ensures LastStart(n, step) < n && LastStart(n, step) % step == 0
    ensures forall x: nat :: x < n && x % step == 0 ==> x <= LastStart(n, step)
  {
    var q := (n - 1) / step;
    DivMod(n - 1, step);
    ModUnique(q * step, q, 0, step);
    forall x: nat | x < n && x % step == 0
      ensures x <= LastStart(n, step)
    {
      DivMod(x, step);
      if x / step > q {
        Apart(q, x / step, step);
      }
      Grows(if x / step <= q then x / step else q, q, step);
    }
  }

  /** The last block of channels of the last image of the mask is addressed within 32 bits. */
  ghost predicate Placed(p: Params, cStep: nat)
    requires 0 < cStep && 0 < p.inputC
  {
    p.inputN > 0 ==> BlockFits(p.inputC, OutputH(p), OutputW(p), p.inputN - 1, LastStart(p.inputC, cStep), 0)
  }

  lemma EarlierFits(c: nat, h: nat, w: nat, n0: nat, c0: nat, h0: nat, n1: nat, c1: nat)
    requires BlockFits(c, h, w, n1, c1, 0) && n0 <= n1 && c0 <= c1 && h0 <= h
    ensures BlockFits(c, h, w, n0, c0, h0)
  {
    Grows(n0, n1, c * h * w);
    Grows(c0, c1, h * w);
    Grows(h0, h, w);
  }

  /** For every operation: all tiles are emitted as intended exactly when the last block is placed right. */
  lemma AllEmittedExactIff(layout: Layout, p: Params, cStep: nat, hStep: nat)
    requires Accepts(p) && 0 < cStep && 0 < hStep
    ensures (forall t :: IsTile(p, cStep, hStep, t) ==> TileOk(p, t) && EmittedTile(layout, p, t) == TileProgram(layout, p, t))
            <==> Placed(p, cStep)
  {
    LastStartIsLast(p.inputC, cStep);
    hide LastStart, BlockFits, EmittedTile, TileProgram, TileOk;
    if Placed(p, cStep) {
      forall t | IsTile(p, cStep, hStep, t)
        ensures TileOk(p, t) && EmittedTile(layout, p, t) == TileProgram(layout, p, t)
      {
        TilesOk(p, cStep, hStep, t);
        PlacedTile(layout, p, cStep, hStep, t);
      }
    } else {
      var c := LastStart(p.inputC, cStep);
      var t := Tile(p.inputN - 1, c, 0,
                    if p.inputC - c < cStep then p.inputC - c else cStep,
                    if p.inputH < hStep then p.inputH else hStep);
      assert IsTile(p, cStep, hStep, t);
      TilesOk(p, cStep, hStep, t);
      EmittedExactIff(layout, p, t);
      assert t.h * p.scale == 0;
    }
  }

  lemma PlacedTile(layout: Layout, p: Params, cStep: nat, hStep: nat, t: Tile)
    requires Accepts(p) && 0 < cStep && 0 < hStep && IsTile(p, cStep, hStep, t) && Placed(p, cStep)
    ensures TileOk(p, t) && EmittedTile(layout, p, t) == TileProgram(layout, p, t)
  {
    TilesOk(p, cStep, hStep, t);
    LastStartIsLast(p.inputC, cStep);
    hide LastStart, BlockFits, EmittedTile, TileProgram;
    Grows(t.h, p.inputH, p.scale);
    EarlierFits(p.inputC, OutputH(p), OutputW(p), t.n, t.c, t.h * p.scale, p.inputN - 1, LastStart(p.inputC, cStep));
    EmittedExactIff(layout, p, t);
  }

  /** 64 channels of 8192 by 8192: the second image starts at 2^32. */
  function TwoImages(dataAddr: nat, maskAddr: nat, outputAddr: nat): Params {
    Params(2, 64, 8192, 8192, 1, 8192, 8192, dataAddr, maskAddr, outputAddr)
  }

  /** Whatever the steps, every tile of the second image is emitted as that of the first: it is never computed. */
  lemma SecondImageMisplaced(layout: Layout, dataAddr: nat, maskAddr: nat, outputAddr: nat, cStep: nat, hStep: nat, t: Tile)
    requires 0 < cStep && 0 < hStep && IsTile(TwoImages(dataAddr, maskAddr, outputAddr), cStep, hStep, t)
    ensures var p := TwoImages(dataAddr, maskAddr, outputAddr);
            && Accepts(p) && !Placed(p, cStep) && TileOk(p, t) && TileOk(p, t.(n := 0))
            && EmittedTile(layout, p, t) == EmittedTile(layout, p, t.(n := 0))
  {
    var p := TwoImages(dataAddr, maskAddr, outputAddr);
    TilesOk(p, cStep, hStep, t);
    assert Low32(64 * 8192 * 8192) == 0;
  }

  /** So no tile writes any element of the second output image. */
  lemma SecondImageNeverWritten(layout: Layout, dataAddr: nat, maskAddr: nat, outputAddr: nat, cStep: nat, hStep: nat, t: Tile, c: nat, y: nat, x: nat)
    requires Sound(layout) && 0 < cStep && 0 < hStep && IsTile(TwoImages(dataAddr, maskAddr, outputAddr), cStep, hStep, t)
    requires InOutput(TwoImages(dataAddr, maskAddr, outputAddr), 1, c, y, x)
    ensures var p := TwoImages(dataAddr, maskAddr, outputAddr);
            TileOk(p, t) && Writes(EmittedTile(layout, p, t), OutCell(p, 1, c, y, x)) == 0
  {
    var p, first := TwoImages(dataAddr, maskAddr, outputAddr), t.(n := 0);
    SecondImageMisplaced(layout, dataAddr, maskAddr, outputAddr, cStep, hStep, t);
    FirstImageFits(dataAddr, maskAddr, outputAddr, t);
    EmittedExactIff(layout, p, first);
    hide EmittedTile, TileProgram, Writes, Touches, BlockFits, Sound, IsTile;
    var cell := OutCell(p, 1, c, y, x);
    TileWrites(layout, p, first, cell.addr);
    StoreTouches(p, first, 1, c, y, x);
  }

  lemma FirstImageFits(dataAddr: nat, maskAddr: nat, outputAddr: nat, t: Tile)
    requires t.c < 64 && t.h < 8192
    ensures var p := TwoImages(dataAddr, maskAddr, outputAddr);
            BlockFits(p.inputC, OutputH(p), OutputW(p), 0, t.c, t.h * p.scale)
  {
  }

  // ----- The loops ------------------------------------------------------------------------------

  /** Sizes and addresses stay within 32 bits, so that what is emitted is what is meant. */
  ghost predicate Exact(layout: Layout, p: Params, cStep: nat, hStep: nat)
    requires 0 < cStep && 0 < p.inputC
  {
    TotalSize(layout, p, cStep, hStep) < U32 && Placed(p, cStep)
  }

  /** In the order of the loops. */
  predicate Earlier(t: Tile, n: nat, c: nat, h: nat) {
    t.n < n || (t.n == n && (t.c < c || (t.c == c && t.h < h)))
  }

  /** The tiles before position (n, c, h), all of them and each once, in the order of the loops. */
  ghost predicate TilesUpto(p: Params, cStep: nat, hStep: nat, tiles: seq<Tile>, n: nat, c: nat, h: nat)
    requires 0 < cStep && 0 < hStep
  {
    && (forall t :: t in tiles <==> IsTile(p, cStep, hStep, t) && Earlier(t, n, c, h))
    && (forall i, j :: 0 <= i < j < |tiles| ==> Earlier(tiles[i], tiles[j].n, tiles[j].c, tiles[j].h))
  }

  /** What is emitted for a list of tiles. */
  ghost function Instructions(layout: Layout, p: Params, tiles: seq<Tile>): seq<Instr>
    requires forall t :: t in tiles ==> TileOk(p, t)
  {
    if tiles == [] then []
    else
      assert forall t :: t in tiles[..|tiles| - 1] ==> t in tiles;
      Instructions(layout, p, tiles[..|tiles| - 1]) + EmittedTile(layout, p, tiles[|tiles| - 1])
  }

  ghost predicate EmittedUpto(layout: Layout, p: Params, cStep: nat, hStep: nat, tiles: seq<Tile>, prog: seq<Instr>, n: nat, c: nat, h: nat)
    requires 0 < cStep && 0 < hStep
  {
    && TilesUpto(p, cStep, hStep, tiles, n, c, h)
    && (forall t :: t in tiles ==> TileOk(p, t)) && prog == Instructions(layout, p, tiles)
  }

  lemma NothingEmitted(layout: Layout, p: Params, cStep: nat, hStep: nat)
    requires 0 < cStep && 0 < hStep
    ensures EmittedUpto(layout, p, cStep, hStep, [], [], 0, 0, 0)
  {
  }

  lemma MultiplesApart(x: nat, h: nat, step: nat)
    requires 0 < step && x % step == 0 && h % step == 0 && x < h + step
    ensures x <= h
  {
    DivMod(x, step);
    DivMod(h, step);
    if x / step > h / step {
      Apart(h / step, x / step, step);
    }
  }

  /** The next tile in the order of the loops is the only one up to the next position. */
  lemma OnlyTile(p: Params, cStep: nat, hStep: nat, t: Tile, x: Tile)
    requires 0 < cStep && 0 < hStep && IsTile(p, cStep, hStep, t) && IsTile(p, cStep, hStep, x)
    ensures Earlier(x, t.n, t.c, t.h + hStep) <==> Earlier(x, t.n, t.c, t.h) || x == t
  {
    if x.h < t.h + hStep {
      MultiplesApart(x.h, t.h, hStep);
    }
  }

  lemma EmitOne(layout: Layout, p: Params, cStep: nat, hStep: nat, tiles: seq<Tile>, prog: seq<Instr>, t: Tile)
    requires 0 < cStep && 0 < hStep && IsTile(p, cStep, hStep, t) && TileOk(p, t)
    requires EmittedUpto(layout, p, cStep, hStep, tiles, prog, t.n, t.c, t.h)
    ensures EmittedUpto(layout, p, cStep, hStep, tiles + [t], prog + EmittedTile(layout, p, t), t.n, t.c, t.h + hStep)
  {
    hide TileOk, EmittedTile;
    var more := tiles + [t];
    assert more[..|tiles|] == tiles;
    hide Instructions;
    forall x
      ensures x in more <==> IsTile(p, cStep, hStep, x) && Earlier(x, t.n, t.c, t.h + hStep)
    {
      if IsTile(p, cStep, hStep, x) {
        OnlyTile(p, cStep, hStep, t, x);
      }
    }
    hide IsTile;
    forall i, j | 0 <= i < j < |more|
      ensures Earlier(more[i], more[j].n, more[j].c, more[j].h)
    {
      assert more[i] in tiles;
    }
    assert Instructions(layout, p, more) == prog + EmittedTile(layout, p, t) by { InstructionsSnoc(layout, p, tiles, t); }
  }

  lemma InstructionsSnoc(layout: Layout, p: Params, tiles: seq<Tile>, t: Tile)
    requires (forall x :: x in tiles ==> TileOk(p, x)) && TileOk(p, t)
    ensures Instructions(layout, p, tiles + [t]) == Instructions(layout, p, tiles) + EmittedTile(layout, p, t)
  {
    hide TileOk, EmittedTile;
    assert (tiles + [t])[..|tiles|] == tiles;
  }

  /** Positions with the same tiles before them. */
  lemma SameTiles(layout: Layout, p: Params, cStep: nat, hStep: nat, tiles: seq<Tile>, prog: seq<Instr>, n: nat, c: nat, h: nat, n': nat, c': nat, h': nat)
    requires 0 < cStep && 0 < hStep && EmittedUpto(layout, p, cStep, hStep, tiles, prog, n, c, h)
    requires forall x :: IsTile(p, cStep, hStep, x) ==> (Earlier(x, n, c, h) <==> Earlier(x, n', c', h'))
    ensures EmittedUpto(layout, p, cStep, hStep, tiles, prog, n', c', h')
  {
    hide IsTile, Earlier, Instructions, TileOk;
  }

  lemma ColumnsEmitted(layout: Layout, p: Params, cStep: nat, hStep: nat, tiles: seq<Tile>, prog: seq<Instr>, n: nat, c: nat, h: nat)
    requires 0 < cStep && 0 < hStep && EmittedUpto(layout, p, cStep, hStep, tiles, prog, n, c, h) && h >= p.inputH && c % cStep == 0
    ensures EmittedUpto(layout, p, cStep, hStep, tiles, prog, n, c + cStep, 0)
  {
    hide EmittedUpto;
    forall x | IsTile(p, cStep, hStep, x)
      ensures Earlier(x, n, c, h) <==> Earlier(x, n, c + cStep, 0)
    {
      if x.c < c + cStep {
        MultiplesApart(x.c, c, cStep);
      }
    }
    SameTiles(layout, p, cStep, hStep, tiles, prog, n, c, h, n, c + cStep, 0);
  }

  lemma ImageEmitted(layout: Layout, p: Params, cStep: nat, hStep: nat, tiles: seq<Tile>, prog: seq<Instr>, n: nat, c: nat)
    requires 0 < cStep && 0 < hStep && EmittedUpto(layout, p, cStep, hStep, tiles, prog, n, c, 0) && c >= p.inputC
    ensures EmittedUpto(layout, p, cStep, hStep, tiles, prog, n + 1, 0, 0)
  {
    hide EmittedUpto;
    SameTiles(layout, p, cStep, hStep, tiles, prog, n, c, 0, n + 1, 0, 0);
  }

  /** The program is what is emitted for all tiles, each once, in the order of the loops. */
  ghost predicate Program(layout: Layout, p: Params, cStep: nat, hStep: nat, prog: seq<Instr>)
    requires 0 < cStep && 0 < hStep
  {
    exists tiles :: EmittedUpto(layout, p, cStep, hStep, tiles, prog, p.inputN, 0, 0)
  }

  /** unpooling_codegen: the rows of one block of channels. */
  method EmitRows(layout: Layout, p: Params, cStep: nat, hStep: nat, prog0: seq<Instr>, n: nat, c: nat, ghost exact: bool, ghost tiles0: seq<Tile>)
    returns (prog: seq<Instr>, tilingC: nat, ghost tiles: seq<Tile>)
    requires Sound(layout) && Accepts(p) && OperandsApart(p) && n < p.inputN && c < p.inputC
    requires 0 < hStep && 0 < cStep && c % cStep == 0
    requires exact ==> TileFitsLane(layout, p, cStep, hStep) && Placed(p, cStep) && Progress(p, prog0, n, c, c, 0)
    requires EmittedUpto(layout, p, cStep, hStep, tiles0, prog0, n, c, 0)
    ensures EmittedUpto(layout, p, cStep, hStep, tiles, prog, n, c + cStep, 0)
    ensures tilingC == (if p.inputC - c < cStep then p.inputC - c else cStep)
    ensures exact ==> Progress(p, prog, n, c + tilingC, c + tilingC, 0)
  {
    hide Progress, Sound, Accepts, OperandsApart, TileFitsLane, TileProgram, EmittedTile, TileOk, Placed, EmittedUpto;
    tiles := tiles0;
    tilingC := if p.inputC - c < cStep then p.inputC - c else cStep;
    prog := prog0;
    ProgressScale(p);
    if exact {
      Widen(p, prog, n, c, c + tilingC);
    }
    var h := 0;
    while h < p.inputH
      invariant p.scale > 0 && h % hStep == 0
      invariant exact ==> Progress(p, prog, n, c, c + tilingC, h)
      invariant EmittedUpto(layout, p, cStep, hStep, tiles, prog, n, c, h)
      decreases p.inputH - h
    {
      var tilingH := if p.inputH - h < hStep then p.inputH - h else hStep;
      var t := Tile(n, c, h, tilingC, tilingH);
      TilesOk(p, cStep, hStep, t);
      EmitOne(layout, p, cStep, hStep, tiles, prog, t);
      tiles := tiles + [t];
      prog := prog + EmittedTile(layout, p, t);
      if exact {
        AddEmitted(layout, p, cStep, hStep, prog[..|prog| - |EmittedTile(layout, p, t)|], n, c, h, t);
        assert prog == prog[..|prog| - |EmittedTile(layout, p, t)|] + EmittedTile(layout, p, t);
      }
      NextMultiple(h, hStep);
      h := h + hStep;
    }
    ColumnsEmitted(layout, p, cStep, hStep, tiles, prog, n, c, h);
    if exact {
      NextChannels(p, prog, n, c, c + tilingC, h, c + tilingC);
    }
  }

  lemma NextMultiple(h: nat, step: nat)
    requires 0 < step && h % step == 0
    ensures (h + step) % step == 0
  {
    DivMod(h, step);
    ModUnique(h + step, h / step + 1, 0, step);
  }

  /** One more tile as emitted, the running row position advanced by a whole step. */
  lemma AddEmitted(layout: Layout, p: Params, cStep: nat, hStep: nat, prog: seq<Instr>, n: nat, c: nat, h: nat, t: Tile)
    requires Sound(layout) && Accepts(p) && OperandsApart(p) && 0 < cStep && 0 < hStep
    requires IsTile(p, cStep, hStep, t) && t.n == n && t.c == c && t.h == h
    requires TileFitsLane(layout, p, cStep, hStep) && Placed(p, cStep) && p.scale > 0
    requires Progress(p, prog, n, c, c + t.tilingC, h)
    ensures TileOk(p, t) && Progress(p, prog + EmittedTile(layout, p, t), n, c, c + t.tilingC, h + hStep)
  {
    hide IsTile, Accepts, Progress, Sound, OperandsApart, TileFitsLane, TileProgram, EmittedTile, TileOk, Placed, TotalSize;
    EmittedFacts(layout, p, cStep, hStep, t);
    AddTile(layout, p, prog, n, c, c + t.tilingC, h, t);
    if t.tilingH < hStep {
      RowsClipped(p, prog + EmittedTile(layout, p, t), n, c, c + t.tilingC, h + t.tilingH, h + hStep);
    }
  }

  lemma EmittedFacts(layout: Layout, p: Params, cStep: nat, hStep: nat, t: Tile)
    requires Sound(layout) && Accepts(p) && 0 < cStep && 0 < hStep && IsTile(p, cStep, hStep, t)
    requires TileFitsLane(layout, p, cStep, hStep) && Placed(p, cStep)
    ensures TileOk(p, t) && EmittedTile(layout, p, t) == TileProgram(layout, p, t)
    ensures TotalSize(layout, p, t.tilingC, t.tilingH) <= LOCAL_MEM_SIZE
    ensures t.tilingH <= hStep && (t.tilingH < hStep ==> t.h + t.tilingH == p.inputH)
  {
    hide Sound, Accepts, TileFitsLane, TileProgram, EmittedTile, TileOk, Placed, TotalSize;
    PlacedTile(layout, p, cStep, hStep, t);
    TileSize(layout, p, cStep, hStep, t);
  }

  lemma ProgressScale(p: Params)
    requires Accepts(p)
    ensures p.scale > 0 && p.inputC >= NPU_NUM && p.inputH > 0
  {
  }

  lemma Widen(p: Params, prog: seq<Instr>, n: nat, c: nat, ce: nat)
    requires p.scale > 0 && Progress(p, prog, n, c, c, 0)
    ensures Progress(p, prog, n, c, ce, 0)
  {
    SameProgress(p, prog, n, c, c, 0, n, c, ce, 0);
  }

  lemma RowsClipped(p: Params, prog: seq<Instr>, n: nat, c: nat, ce: nat, h: nat, h': nat)
    requires Accepts(p) && Progress(p, prog, n, c, ce, h) && p.inputH <= h <= h'
    ensures Progress(p, prog, n, c, ce, h')
  {
    AllRowsDone(p, h);
    AllRowsDone(p, h');
    SameProgress(p, prog, n, c, ce, h, n, c, ce, h');
  }

  /**
   unpooling_codegen. The program is emitted for the pair the search settles on, and it computes what
   it should whenever the size of that pair and the addresses of its blocks stay within 32 bits.
   */
  method Codegen(layout: Layout, p: Params) returns (r: Option<seq<Instr>>, ghost cStep: nat, ghost hStep: nat)
    requires Sound(layout) && Accepts(p) && OperandsApart(p)
    ensures p.scale > 0
    ensures r.Some? ==> Chosen(layout, p, cStep, hStep) && Program(layout, p, cStep, hStep, r.value)
    ensures LeastFits(layout, p) ==> r.Some?
    ensures r.Some? && BuffersEnd(layout, AllocLmem(layout, p, cStep, hStep)) < U32 ==> LeastFits(layout, p)
    ensures BuffersEnd(layout, AllocLmem(layout, p, p.inputC, p.inputH)) < U32 ==> (r.Some? <==> LeastFits(layout, p))
    ensures r.Some? && Exact(layout, p, cStep, hStep) ==> Computes(p, r.value)
  {
    ProgressScale(p);
    hide Progress, Sound, Accepts, OperandsApart, TileProgram, TileOk, Computes, TotalSize, Low32, Placed, EmittedUpto;
    var cs, hs := SearchSteps(layout, p);
    cStep, hStep := cs, hs;
    SizeIsEnd(layout, p, NPU_NUM, 1);
    SizeIsEnd(layout, p, p.inputC, p.inputH);
    SizeIsEnd(layout, p, cs, hs);
    hide BuffersEnd, AllocLmem;
    if hs == 0 {
      assert Oversized(layout, p, NPU_NUM, 1);
      return None, cStep, hStep;
    }
    SizeMonotone(layout, p, NPU_NUM, 1, cs, hs);
    SizeMonotone(layout, p, cs, hs, p.inputC, p.inputH);
    hide Exact, Program;
    ExactFits(layout, p, cs, hs);
    var prog := EmitAll(layout, p, cs, hs, Exact(layout, p, cs, hs));
    r := Some(prog);
  }

  /** Within 32 bits the pair of steps that passed the search does fit. */
  lemma ExactFits(layout: Layout, p: Params, cStep: nat, hStep: nat)
    requires 0 < cStep && 0 < p.inputC && !Oversized(layout, p, cStep, hStep)
    ensures Exact(layout, p, cStep, hStep) ==> TileFitsLane(layout, p, cStep, hStep) && Placed(p, cStep)
  {
    hide TotalSize, Placed;
  }

  /** The loop over the images. */
  method EmitAll(layout: Layout, p: Params, cStep: nat, hStep: nat, ghost exact: bool) returns (prog: seq<Instr>)
    requires Sound(layout) && Accepts(p) && OperandsApart(p) && 0 < hStep && 0 < cStep && 0 < p.inputC && p.scale > 0
    requires exact ==> TileFitsLane(layout, p, cStep, hStep) && Placed(p, cStep)
    ensures Program(layout, p, cStep, hStep, prog)
    ensures exact ==> Computes(p, prog)
  {
    hide Progress, Sound, Accepts, OperandsApart, Computes, TileFitsLane, Placed, EmittedUpto;
    prog := [];
    ghost var tiles: seq<Tile> := [];
    StartProgress(p);
    NothingEmitted(layout, p, cStep, hStep);
    var n := 0;
    while n < p.inputN
      invariant n <= p.inputN && EmittedUpto(layout, p, cStep, hStep, tiles, prog, n, 0, 0)
      invariant exact ==> Progress(p, prog, n, 0, 0, 0)
    {
      prog, tiles := EmitImage(layout, p, cStep, hStep, prog, n, exact, tiles);
      n := n + 1;
    }
    if exact {
      AllDone(p, prog, n);
    }
  }

  method EmitImage(layout: Layout, p: Params, cStep: nat, hStep: nat, prog0: seq<Instr>, n: nat, ghost exact: bool, ghost tiles0: seq<Tile>)
    returns (prog: seq<Instr>, ghost tiles: seq<Tile>)
    requires Sound(layout) && Accepts(p) && OperandsApart(p) && n < p.inputN && 0 < hStep && 0 < cStep && 0 < p.inputC
    requires exact ==> TileFitsLane(layout, p, cStep, hStep) && Placed(p, cStep) && p.scale > 0 && Progress(p, prog0, n, 0, 0, 0)
    requires EmittedUpto(layout, p, cStep, hStep, tiles0, prog0, n, 0, 0)
    ensures EmittedUpto(layout, p, cStep, hStep, tiles, prog, n + 1, 0, 0)
    ensures exact ==> p.scale > 0 && Progress(p, prog, n + 1, 0, 0, 0)
  {
    hide Progress, Sound, Accepts, OperandsApart, TileFitsLane, Placed, EmittedUpto;
    prog, tiles := prog0, tiles0;
    var c := 0;
    while c < p.inputC
      invariant c % cStep == 0
      invariant EmittedUpto(layout, p, cStep, hStep, tiles, prog, n, c, 0)
      invariant exact ==> Progress(p, prog, n, c, c, 0)
      decreases p.inputC - c
    {
      var tilingC;
      prog, tilingC, tiles := EmitRows(layout, p, cStep, hStep, prog, n, c, exact, tiles);
      if exact && tilingC < cStep {
        ChannelsClipped(p, prog, n, c + tilingC, c + cStep);
      }
      NextMultiple(c, cStep);
      c := c + cStep;
    }
    ImageEmitted(layout, p, cStep, hStep, tiles, prog, n, c);
    if exact {
      NextImage(p, prog, n, c, c);
    }
  }

  lemma ChannelsClipped(p: Params, prog: seq<Instr>, n: nat, c: nat, c': nat)
    requires p.scale > 0 && Progress(p, prog, n, c, c, 0) && p.inputC <= c <= c'
    ensures Progress(p, prog, n, c', c', 0)
  {
    SameProgress(p, prog, n, c, c, 0, n, c', c', 0);
  }
}
