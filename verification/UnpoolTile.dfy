/**
 One tile of the unpooling program (custom_op/example/UnPoolingOp.cpp): local buffers, the two
 replicating copies through views with altered strides, the multiplication by the mask and the
 cropped store.
 */
module UnpoolTile {
  import opened Common
  import opened UnpoolMachine

  /** Everything fixed for one operation. */
  datatype Params = Params(
    inputN: nat, inputC: nat, inputH: nat, inputW: nat, scale: nat, unpoolH: nat, unpoolW: nat,
    dataAddr: nat, maskAddr: nat, outputAddr: nat)

  /** One tile: images are taken one at a time. */
  datatype Tile = Tile(n: nat, c: nat, h: nat, tilingC: nat, tilingH: nat)

  function OutputH(p: Params): nat { p.inputH * p.scale }
  function OutputW(p: Params): nat { p.inputW * p.scale }

  const U32 := 0x1_0000_0000

  /** What is left of a product in a 32-bit variable. */
  function Low32(x: nat): (r: nat)
    ensures x < U32 ==> r == x
    ensures r <= x && r < U32
  {
    x % U32
  }

  /**
   A block of a dense global tensor with `c` channels of `h` by `w`, from position (n0, c0, h0). It is
   of one image, so its image stride does not matter; it is what fits the 32-bit field.
   */
  function GlobalBlock(addr: nat, c: nat, h: nat, w: nat, n0: nat, c0: nat, h0: nat, tc: nat, th: nat, tw: nat): Tensor {
    Tensor(false, addr + n0 * (c * h * w) + c0 * (h * w) + h0 * w, 1, tc, th, tw, Low32(c * h * w), h * w, w, 1)
  }

  /** The address of element (n, c, h, w) of a dense global tensor. */
  function At(addr: nat, channels: nat, height: nat, width: nat, n: nat, c: nat, h: nat, w: nat): Cell {
    Global(addr + n * Volume(channels, height, width) + Inner(height, width, c, h, w))
  }

  function Volume(channels: nat, height: nat, width: nat): nat {
    channels * height * width
  }

  /** The place within one image. */
  function Inner(height: nat, width: nat, c: nat, h: nat, w: nat): nat {
    c * (height * width) + h * width + w
  }

  lemma GlobalBlockLoc(addr: nat, c: nat, h: nat, w: nat, n0: nat, c0: nat, h0: nat, tc: nat, th: nat, tw: nat, k: nat, y: nat, x: nat)
    ensures Loc(GlobalBlock(addr, c, h, w, n0, c0, h0, tc, th, tw), 0, k, y, x) == At(addr, c, h, w, n0, c0 + k, h0 + y, x)
  {
    assert (c0 + k) * (h * w) == c0 * (h * w) + k * (h * w);
    assert (h0 + y) * w == h0 * w + y * w;
  }

  // ----- alloc_lmem -----------------------------------------------------------------------------

  datatype Buffers = Buffers(ifmap: Tensor, working: Tensor, mask: Tensor, ofmap: Tensor)

  function WorkingStart(layout: Layout, p: Params, tc: nat, th: nat): nat {
    layout.size(tc, th, p.inputW)
  }

  function MaskStart(layout: Layout, p: Params, tc: nat, th: nat): nat {
    WorkingStart(layout, p, tc, th) + layout.size(tc, th, OutputW(p))
  }

  function OfmapStart(layout: Layout, p: Params, tc: nat, th: nat): nat {
    MaskStart(layout, p, tc, th) + layout.size(tc, th * p.scale, OutputW(p))
  }

  function TotalSize(layout: Layout, p: Params, tc: nat, th: nat): nat {
    layout.size(tc, th, p.inputW) + layout.size(tc, th, OutputW(p)) + layout.size(tc, th * p.scale, OutputW(p)) * 2
  }

  /** alloc_lmem; the height factor is the quotient of output and input height. */
  function AllocLmem(layout: Layout, p: Params, tc: nat, th: nat): Buffers
    requires p.inputH > 0
  {
    var ow := OutputW(p);
    var ifmap := LocalTensor(layout, 0, tc, th, p.inputW);
    var offset := layout.size(tc, th, p.inputW);
    var working := LocalTensor(layout, offset, tc, th, ow);
    var offset2 := offset + layout.size(tc, th, ow);
    var toh := th * (OutputH(p) / p.inputH);
    var mask := LocalTensor(layout, offset2, tc, toh, ow);
    var offset3 := offset2 + layout.size(tc, toh, ow);
    Buffers(ifmap, working, mask, LocalTensor(layout, offset3, tc, toh, ow))
  }

  /** The four buffers of a tile share no cell and end below the size computed by the search. */
  lemma BuffersDisjoint(layout: Layout, p: Params, tc: nat, th: nat, cell: Cell)
    requires Sound(layout) && p.inputH > 0
    ensures var b := AllocLmem(layout, p, tc, th);
            && !(Touches(b.ifmap, cell) && Touches(b.working, cell))
            && !(Touches(b.ifmap, cell) && Touches(b.mask, cell))
            && !(Touches(b.ifmap, cell) && Touches(b.ofmap, cell))
            && !(Touches(b.working, cell) && Touches(b.mask, cell))
            && !(Touches(b.working, cell) && Touches(b.ofmap, cell))
            && !(Touches(b.mask, cell) && Touches(b.ofmap, cell))
            && (Touches(b.ifmap, cell) || Touches(b.working, cell) || Touches(b.mask, cell) || Touches(b.ofmap, cell)
                ==> cell.Local? && 0 <= cell.addr < TotalSize(layout, p, tc, th))
  {
    ExactFactor(p);
    var toh, ow := th * p.scale, OutputW(p);
    TouchRange(layout, 0, tc, th, p.inputW, cell);
    TouchRange(layout, WorkingStart(layout, p, tc, th), tc, th, ow, cell);
    TouchRange(layout, MaskStart(layout, p, tc, th), tc, toh, ow, cell);
    TouchRange(layout, OfmapStart(layout, p, tc, th), tc, toh, ow, cell);
  }

  /** Where the last of the four buffers ends. */
  function BuffersEnd(layout: Layout, b: Buffers): nat {
    b.ofmap.start + layout.size(b.ofmap.c, b.ofmap.h, b.ofmap.w)
  }

  /** The size the search computes is where the buffers end, one right after another. */
  lemma SizeIsEnd(layout: Layout, p: Params, tc: nat, th: nat)
    requires p.inputH > 0
    ensures var b := AllocLmem(layout, p, tc, th);
            && TotalSize(layout, p, tc, th) == BuffersEnd(layout, b)
            && b.ifmap.start == 0
            && b.working.start == b.ifmap.start + layout.size(b.ifmap.c, b.ifmap.h, b.ifmap.w)
            && b.mask.start == b.working.start + layout.size(b.working.c, b.working.h, b.working.w)
            && b.ofmap.start == b.mask.start + layout.size(b.mask.c, b.mask.h, b.mask.w)
  {
    ExactFactor(p);
  }

  /** Without alignment: one part for the input, `scale` for the wide copy, and 2 * scale^2 for mask and output. */
  lemma DenseEnd(p: Params, tc: nat, th: nat)
    requires p.inputH > 0
    ensures BuffersEnd(DenseLayout(), AllocLmem(DenseLayout(), p, tc, th))
         == Rows(tc) * (th * p.inputW) * (1 + p.scale + 2 * p.scale * p.scale)
  {
    SizeIsEnd(DenseLayout(), p, tc, th);
    DenseParts(Rows(tc), th, p.inputW, p.scale);
  }

  lemma DenseParts(rows: nat, h: nat, w: nat, s: nat)
    ensures rows * (h * w) + rows * (h * (w * s)) + rows * ((h * s) * (w * s)) * 2 == rows * (h * w) * (1 + s + 2 * s * s)
  {
    var area := h * w;
    assert h * (w * s) == area * s;
    assert (h * s) * (w * s) == area * (s * s);
    assert rows * (area * s) == rows * area * s;
    assert rows * (area * (s * s)) == rows * area * (s * s);
  }

  lemma ExactFactor(p: Params)
    requires p.inputH > 0
    ensures OutputH(p) / p.inputH == p.scale
  {
    var q, r := OutputH(p) / p.inputH, OutputH(p) % p.inputH;
    assert q * p.inputH + r == p.scale * p.inputH + 0;
    Radix(q, r, p.scale, 0, p.inputH);
  }

  lemma TouchRange(layout: Layout, start: nat, c: nat, h: nat, w: nat, cell: Cell)
    requires Sound(layout)
    ensures Touches(LocalTensor(layout, start, c, h, w), cell) ==> cell.Local? && start <= cell.addr < start + layout.size(c, h, w)
  {
    var t := LocalTensor(layout, start, c, h, w);
    if Touches(t, cell) {
      var n: nat, k: nat, y: nat, x: nat :| In(t, n, k, y, x) && Loc(t, n, k, y, x) == cell;
      LocalWithin(layout, start, c, h, w, n, k, y, x);
    }
  }

  // ----- unpooling_compute ----------------------------------------------------------------------

  /** The input row, read once for each of `scale` columns. */
  function Repeated(t: Tensor, times: nat): Tensor {
    t.(n := times, strideN := 0)
  }

  /** The columns of a row `scale` times as wide, as `scale` interleaved rows. */
  function ByColumn(t: Tensor, scale: nat, w: nat): Tensor {
    t.(n := scale, w := w, strideN := t.strideW, strideW := t.strideW * scale)
  }

  /** The rows of a plane `scale` times as high, as `scale` interleaved planes. */
  function ByRow(t: Tensor, scale: nat, h: nat): Tensor {
    t.(n := scale, h := h, strideN := t.strideH, strideH := t.strideH * scale)
  }

  lemma RepeatedLoc(t: Tensor, times: nat, j: nat, k: nat, y: nat, x: nat)
    ensures Loc(Repeated(t, times), j, k, y, x) == Loc(t, 0, k, y, x)
  {
  }

  lemma ByColumnLoc(t: Tensor, scale: nat, w: nat, j: nat, k: nat, y: nat, x: nat)
    ensures Loc(ByColumn(t, scale, w), j, k, y, x) == Loc(t, 0, k, y, x * scale + j)
  {
    assert (x * scale + j) * t.strideW == j * t.strideW + x * (t.strideW * scale);
  }

  lemma ByRowLoc(t: Tensor, scale: nat, h: nat, j: nat, k: nat, y: nat, x: nat)
    ensures Loc(ByRow(t, scale, h), j, k, y, x) == Loc(t, 0, k, y * scale + j, x)
  {
    assert (y * scale + j) * t.strideH == j * t.strideH + y * (t.strideH * scale);
  }

  lemma ByColumnPair(t: Tensor, scale: nat, w: nat, n: nat, k: nat, y: nat, x: nat, n': nat, k': nat, y': nat, x': nat)
    requires t.n == 1 && t.w == w * scale && Injective(t)
    requires In(ByColumn(t, scale, w), n, k, y, x) && In(ByColumn(t, scale, w), n', k', y', x')
    requires Loc(ByColumn(t, scale, w), n, k, y, x) == Loc(ByColumn(t, scale, w), n', k', y', x')
    ensures n == n' && k == k' && y == y' && x == x'
  {
    hide Loc, Injective;
    ByColumnLoc(t, scale, w, n, k, y, x);
    ByColumnLoc(t, scale, w, n', k', y', x');
    RadixBound(x, w, n, scale);
    RadixBound(x', w, n', scale);
    SameElement(t, 0, k, y, x * scale + n, 0, k', y', x' * scale + n');
    Radix(x, n, x', n', scale);
  }

  lemma ByColumnInjective(t: Tensor, scale: nat, w: nat)
    requires t.n == 1 && t.w == w * scale && Injective(t)
    ensures Injective(ByColumn(t, scale, w))
    ensures forall cell :: Touches(ByColumn(t, scale, w), cell) ==> Touches(t, cell)
  {
    hide Loc;
    var v := ByColumn(t, scale, w);
    forall n: nat, k: nat, y: nat, x: nat, n': nat, k': nat, y': nat, x': nat |
      In(v, n, k, y, x) && In(v, n', k', y', x') && Loc(v, n, k, y, x) == Loc(v, n', k', y', x')
      ensures n == n' && k == k' && y == y' && x == x'
    {
      ByColumnPair(t, scale, w, n, k, y, x, n', k', y', x');
    }
    forall cell | Touches(v, cell)
      ensures Touches(t, cell)
    {
      var n: nat, k: nat, y: nat, x: nat :| In(v, n, k, y, x) && Loc(v, n, k, y, x) == cell;
      ByColumnLoc(t, scale, w, n, k, y, x);
      RadixBound(x, w, n, scale);
      assert In(t, 0, k, y, x * scale + n);
    }
  }

  lemma ByRowPair(t: Tensor, scale: nat, h: nat, n: nat, k: nat, y: nat, x: nat, n': nat, k': nat, y': nat, x': nat)
    requires t.n == 1 && t.h == h * scale && Injective(t)
    requires In(ByRow(t, scale, h), n, k, y, x) && In(ByRow(t, scale, h), n', k', y', x')
    requires Loc(ByRow(t, scale, h), n, k, y, x) == Loc(ByRow(t, scale, h), n', k', y', x')
    ensures n == n' && k == k' && y == y' && x == x'
  {
    hide Loc, Injective;
    ByRowLoc(t, scale, h, n, k, y, x);
    ByRowLoc(t, scale, h, n', k', y', x');
    RadixBound(y, h, n, scale);
    RadixBound(y', h, n', scale);
    SameElement(t, 0, k, y * scale + n, x, 0, k', y' * scale + n', x');
    Radix(y, n, y', n', scale);
  }

  lemma ByRowInjective(t: Tensor, scale: nat, h: nat)
    requires t.n == 1 && t.h == h * scale && Injective(t)
    ensures Injective(ByRow(t, scale, h))
    ensures forall cell :: Touches(ByRow(t, scale, h), cell) ==> Touches(t, cell)
  {
    hide Loc;
    var v := ByRow(t, scale, h);
    forall n: nat, k: nat, y: nat, x: nat, n': nat, k': nat, y': nat, x': nat |
      In(v, n, k, y, x) && In(v, n', k', y', x') && Loc(v, n, k, y, x) == Loc(v, n', k', y', x')
      ensures n == n' && k == k' && y == y' && x == x'
    {
      ByRowPair(t, scale, h, n, k, y, x, n', k', y', x');
    }
    forall cell | Touches(v, cell)
      ensures Touches(t, cell)
    {
      var n: nat, k: nat, y: nat, x: nat :| In(v, n, k, y, x) && Loc(v, n, k, y, x) == cell;
      ByRowLoc(t, scale, h, n, k, y, x);
      RadixBound(y, h, n, scale);
      assert In(t, 0, k, y * scale + n, x);
    }
  }

  // ----- What an instruction leaves in a buffer -------------------------------------------------

  type Plane = (nat, nat, nat) -> int

  /** Tensor `t` holds the values `v` (by channel, row, column). */
  ghost predicate Holds(mem: Memory, t: Tensor, v: Plane) {
    forall k: nat, y: nat, x: nat :: In(t, 0, k, y, x) ==> mem(Loc(t, 0, k, y, x)) == v(k, y, x)
  }

  function Wide(v: Plane, scale: nat): Plane
    requires scale > 0
  {
    (k: nat, y: nat, x: nat) => v(k, y, x / scale)
  }

  function Tall(v: Plane, scale: nat): Plane
    requires scale > 0
  {
    (k: nat, y: nat, x: nat) => v(k, y / scale, x)
  }

  function Times(u: Plane, v: Plane): Plane {
    (k: nat, y: nat, x: nat) => Narrow(u(k, y, x) * v(k, y, x))
  }

  lemma Kept(mem: Memory, i: Instr, t: Tensor, v: Plane)
    requires Holds(mem, t, v) && forall cell :: !(Touches(i.dst, cell) && Touches(t, cell))
    ensures Holds(Exec(mem, i), t, v)
  {
    hide Loc, Exec;
    forall k: nat, y: nat, x: nat | In(t, 0, k, y, x)
      ensures Exec(mem, i)(Loc(t, 0, k, y, x)) == v(k, y, x)
    {
      assert Touches(t, Loc(t, 0, k, y, x));
      ExecMiss(mem, i, Loc(t, 0, k, y, x));
    }
  }

  lemma Loaded(mem: Memory, dst: Tensor, src: Tensor, v: Plane)
    requires Injective(dst) && src.n == dst.n && src.c == dst.c && src.h == dst.h && src.w == dst.w
    requires Holds(mem, src, v)
    ensures Holds(Exec(mem, Copy(dst, src)), dst, v)
  {
    hide Loc, Exec, Injective;
    forall k: nat, y: nat, x: nat | In(dst, 0, k, y, x)
      ensures Exec(mem, Copy(dst, src))(Loc(dst, 0, k, y, x)) == v(k, y, x)
    {
      ExecHit(mem, Copy(dst, src), 0, k, y, x);
      assert In(src, 0, k, y, x);
    }
  }

  lemma DivRadix(x: nat, scale: nat, w: nat)
    requires scale > 0 && x < w * scale
    ensures (x / scale) * scale + x % scale == x && x / scale < w
  {
    assert x == scale * (x / scale) + x % scale;
    var q := if x / scale >= w then x / scale else w;
    MulNonNegative(q - w, scale);
    assert q * scale == w * scale + (q - w) * scale;
  }

  /** First copy: every column `scale` times. */
  lemma Widened(mem: Memory, dst: Tensor, src: Tensor, scale: nat, v: Plane)
    requires scale > 0 && dst.n == 1 && src.n == 1 && dst.c == src.c && dst.h == src.h && dst.w == src.w * scale
    requires Injective(dst) && Holds(mem, src, v)
    ensures Holds(Exec(mem, Copy(ByColumn(dst, scale, src.w), Repeated(src, scale))), dst, Wide(v, scale))
  {
    hide Loc, Exec, Injective;
    ByColumnInjective(dst, scale, src.w);
    var i := Copy(ByColumn(dst, scale, src.w), Repeated(src, scale));
    forall k: nat, y: nat, x: nat | In(dst, 0, k, y, x)
      ensures Exec(mem, i)(Loc(dst, 0, k, y, x)) == v(k, y, x / scale)
    {
      DivRadix(x, scale, src.w);
      ByColumnLoc(dst, scale, src.w, x % scale, k, y, x / scale);
      ExecHit(mem, i, x % scale, k, y, x / scale);
      RepeatedLoc(src, scale, x % scale, k, y, x / scale);
      assert In(src, 0, k, y, x / scale);
    }
  }

  /** Second copy: every row `scale` times. */
  lemma Heightened(mem: Memory, dst: Tensor, src: Tensor, scale: nat, v: Plane)
    requires scale > 0 && dst.n == 1 && src.n == 1 && dst.c == src.c && dst.w == src.w && dst.h == src.h * scale
    requires Injective(dst) && Holds(mem, src, v)
    ensures Holds(Exec(mem, Copy(ByRow(dst, scale, src.h), Repeated(src, scale))), dst, Tall(v, scale))
  {
    hide Loc, Exec, Injective;
    ByRowInjective(dst, scale, src.h);
    var i := Copy(ByRow(dst, scale, src.h), Repeated(src, scale));
    forall k: nat, y: nat, x: nat | In(dst, 0, k, y, x)
      ensures Exec(mem, i)(Loc(dst, 0, k, y, x)) == v(k, y / scale, x)
    {
      DivRadix(y, scale, src.h);
      ByRowLoc(dst, scale, src.h, y % scale, k, y / scale, x);
      ExecHit(mem, i, y % scale, k, y / scale, x);
      RepeatedLoc(src, scale, y % scale, k, y / scale, x);
      assert In(src, 0, k, y / scale, x);
    }
  }

  lemma Multiplied(mem: Memory, dst: Tensor, b: Tensor, u: Plane, v: Plane)
    requires Injective(dst) && dst.n == b.n && dst.c == b.c && dst.h == b.h && dst.w == b.w
    requires Holds(mem, dst, u) && Holds(mem, b, v)
    ensures Holds(Exec(mem, Mul(dst, dst, b)), dst, Times(u, v))
  {
    hide Loc, Exec, Injective, Narrow;
    forall k: nat, y: nat, x: nat | In(dst, 0, k, y, x)
      ensures Exec(mem, Mul(dst, dst, b))(Loc(dst, 0, k, y, x)) == Narrow(u(k, y, x) * v(k, y, x))
    {
      ExecHit(mem, Mul(dst, dst, b), 0, k, y, x);
      assert In(b, 0, k, y, x);
    }
  }

  // ----- The tile -------------------------------------------------------------------------------

  /** A tile of an operation the tool accepts: inside the input, its first output row inside the output. */
  ghost predicate TileOk(p: Params, t: Tile) {
    && p.scale > 0 && t.n < p.inputN && t.c + t.tilingC <= p.inputC && t.h + t.tilingH <= p.inputH && 0 < t.tilingH
    && t.h * p.scale < p.unpoolH <= OutputH(p) && p.unpoolW <= OutputW(p)
  }

  function CropH(p: Params, t: Tile): nat {
    var end := t.h * p.scale + t.tilingH * p.scale;
    if end > p.unpoolH then end - p.unpoolH else 0
  }

  function DataBlock(p: Params, t: Tile): Tensor {
    GlobalBlock(p.dataAddr, p.inputC, p.inputH, p.inputW, t.n, t.c, t.h, t.tilingC, t.tilingH, p.inputW)
  }

  function MaskBlock(p: Params, t: Tile): Tensor {
    GlobalBlock(p.maskAddr, p.inputC, OutputH(p), OutputW(p), t.n, t.c, t.h * p.scale, t.tilingC, t.tilingH * p.scale, OutputW(p))
  }

  function OutputBlock(p: Params, t: Tile): Tensor
    requires CropH(p, t) <= t.tilingH * p.scale && p.unpoolW <= OutputW(p)
  {
    var cropW := OutputW(p) - p.unpoolW;
    GlobalBlock(p.outputAddr, p.inputC, p.unpoolH, p.unpoolW, t.n, t.c, t.h * p.scale,
                t.tilingC, t.tilingH * p.scale - CropH(p, t), OutputW(p) - cropW)
  }

  function Cropped(b: Tensor, cropH: nat, cropW: nat): Tensor
    requires cropH <= b.h && cropW <= b.w
  {
    b.(h := b.h - cropH, w := b.w - cropW)
  }

  lemma CropFits(p: Params, t: Tile)
    requires TileOk(p, t)
    ensures CropH(p, t) <= t.tilingH * p.scale && t.h * p.scale + (t.tilingH * p.scale - CropH(p, t)) <= p.unpoolH
    ensures OutputH(p) / p.inputH == p.scale
  {
    ExactFactor(p);
  }

  /** The six instructions of one tile. */
  function TileProgram(layout: Layout, p: Params, t: Tile): (prog: seq<Instr>)
    requires TileOk(p, t)
  {
    CropFits(p, t);
    var b := AllocLmem(layout, p, t.tilingC, t.tilingH);
    [ Copy(b.ifmap, DataBlock(p, t)),
      Copy(b.mask, MaskBlock(p, t)),
      Copy(ByColumn(b.working, p.scale, b.ifmap.w), Repeated(b.ifmap, p.scale)),
      Copy(ByRow(b.ofmap, p.scale, b.ifmap.h), Repeated(b.working, p.scale)),
      Mul(b.ofmap, b.ofmap, b.mask),
      Copy(OutputBlock(p, t), Cropped(b.ofmap, CropH(p, t), OutputW(p) - p.unpoolW)) ]
  }

  ghost function DataPlane(mem: Memory, p: Params, t: Tile): Plane {
    (k: nat, y: nat, x: nat) => mem(At(p.dataAddr, p.inputC, p.inputH, p.inputW, t.n, t.c + k, t.h + y, x))
  }

  ghost function MaskPlane(mem: Memory, p: Params, t: Tile): Plane {
    (k: nat, y: nat, x: nat) => mem(At(p.maskAddr, p.inputC, OutputH(p), OutputW(p), t.n, t.c + k, t.h * p.scale + y, x))
  }

  lemma BlocksHold(mem: Memory, p: Params, t: Tile)
    ensures Holds(mem, DataBlock(p, t), DataPlane(mem, p, t))
    ensures Holds(mem, MaskBlock(p, t), MaskPlane(mem, p, t))
  {
    hide Loc, At;
    forall k: nat, y: nat, x: nat
      ensures mem(Loc(DataBlock(p, t), 0, k, y, x)) == DataPlane(mem, p, t)(k, y, x)
    {
      GlobalBlockLoc(p.dataAddr, p.inputC, p.inputH, p.inputW, t.n, t.c, t.h, t.tilingC, t.tilingH, p.inputW, k, y, x);
    }
    forall k: nat, y: nat, x: nat
      ensures mem(Loc(MaskBlock(p, t), 0, k, y, x)) == MaskPlane(mem, p, t)(k, y, x)
    {
      GlobalBlockLoc(p.maskAddr, p.inputC, OutputH(p), OutputW(p), t.n, t.c, t.h * p.scale, t.tilingC, t.tilingH * p.scale, OutputW(p), k, y, x);
    }
  }

  /** Facts about the buffers of a tile that the instructions rely on. */
  lemma BufferFacts(layout: Layout, p: Params, t: Tile)
    requires Sound(layout) && TileOk(p, t)
    ensures p.inputH > 0
    ensures var b := AllocLmem(layout, p, t.tilingC, t.tilingH);
            && Injective(b.ifmap) && Injective(b.working) && Injective(b.mask) && Injective(b.ofmap)
            && b.ifmap.n == b.working.n == b.mask.n == b.ofmap.n == 1
            && b.ifmap.c == b.working.c == b.mask.c == b.ofmap.c == t.tilingC
            && b.ifmap.h == b.working.h == t.tilingH && b.mask.h == b.ofmap.h == t.tilingH * p.scale
            && b.ifmap.w == p.inputW && b.working.w == b.mask.w == b.ofmap.w == p.inputW * p.scale
  {
    hide Injective;
    ExactFactor(p);
    var ow, toh := OutputW(p), t.tilingH * p.scale;
    LocalInjective(layout, 0, t.tilingC, t.tilingH, p.inputW);
    LocalInjective(layout, WorkingStart(layout, p, t.tilingC, t.tilingH), t.tilingC, t.tilingH, ow);
    LocalInjective(layout, MaskStart(layout, p, t.tilingC, t.tilingH), t.tilingC, toh, ow);
    LocalInjective(layout, OfmapStart(layout, p, t.tilingC, t.tilingH), t.tilingC, toh, ow);
  }

  /** No cell of the one is a cell of the other. */
  ghost predicate Separate(a: Tensor, b: Tensor) {
    forall cell :: !(Touches(a, cell) && Touches(b, cell))
  }

  ghost predicate OnlyLocal(t: Tensor) {
    forall cell :: Touches(t, cell) ==> cell.Local?
  }

  lemma BuffersApart(layout: Layout, p: Params, t: Tile)
    requires Sound(layout) && TileOk(p, t)
    ensures p.inputH > 0
    ensures var b := AllocLmem(layout, p, t.tilingC, t.tilingH);
            && Separate(b.mask, b.ifmap) && Separate(b.working, b.mask) && Separate(b.ofmap, b.mask)
            && OnlyLocal(b.ifmap) && OnlyLocal(b.working) && OnlyLocal(b.mask) && OnlyLocal(b.ofmap)
  {
    hide Touches, AllocLmem;
    forall cell
      ensures var b := AllocLmem(layout, p, t.tilingC, t.tilingH);
              && !(Touches(b.ifmap, cell) && Touches(b.mask, cell))
              && !(Touches(b.working, cell) && Touches(b.mask, cell))
              && !(Touches(b.mask, cell) && Touches(b.ofmap, cell))
              && (Touches(b.ifmap, cell) || Touches(b.working, cell) || Touches(b.mask, cell) || Touches(b.ofmap, cell)
                  ==> cell.Local?)
    {
      BuffersDisjoint(layout, p, t.tilingC, t.tilingH, cell);
    }
  }

  lemma KeepsGlobal(mem: Memory, i: Instr)
    requires OnlyLocal(i.dst)
    ensures forall a :: Exec(mem, i)(Global(a)) == mem(Global(a))
  {
    hide Exec, Touches;
    forall a
      ensures Exec(mem, i)(Global(a)) == mem(Global(a))
    {
      ExecMiss(mem, i, Global(a));
    }
  }

  ghost predicate SameGlobal(a: Memory, b: Memory) {
    forall x :: a(Global(x)) == b(Global(x))
  }

  lemma SamePlanes(mem: Memory, mem': Memory, p: Params, t: Tile)
    requires SameGlobal(mem, mem')
    ensures Holds(mem', MaskBlock(p, t), MaskPlane(mem, p, t))
  {
    hide Loc;
    BlocksHold(mem', p, t);
    forall k: nat, y: nat, x: nat
      ensures MaskPlane(mem', p, t)(k, y, x) == MaskPlane(mem, p, t)(k, y, x)
    {
      var cell := At(p.maskAddr, p.inputC, OutputH(p), OutputW(p), t.n, t.c + k, t.h * p.scale + y, x);
      assert mem'(Global(cell.addr)) == mem(Global(cell.addr));
    }
  }

  /** The five instructions before the store, one by one. */
  lemma TileComputes(layout: Layout, p: Params, t: Tile, mem: Memory)
    requires Sound(layout) && TileOk(p, t)
    ensures p.inputH > 0
    ensures var b, s := AllocLmem(layout, p, t.tilingC, t.tilingH), p.scale;
            var mem1 := Exec(mem, Copy(b.ifmap, DataBlock(p, t)));
            var mem2 := Exec(mem1, Copy(b.mask, MaskBlock(p, t)));
            var mem3 := Exec(mem2, Copy(ByColumn(b.working, s, b.ifmap.w), Repeated(b.ifmap, s)));
            var mem4 := Exec(mem3, Copy(ByRow(b.ofmap, s, b.ifmap.h), Repeated(b.working, s)));
            var mem5 := Exec(mem4, Mul(b.ofmap, b.ofmap, b.mask));
            && Holds(mem5, b.ofmap, Times(Tall(Wide(DataPlane(mem, p, t), s), s), MaskPlane(mem, p, t)))
            && SameGlobal(mem5, mem)
  {
    BufferFacts(layout, p, t);
    BuffersApart(layout, p, t);
    hide AllocLmem, Exec, Touches, Injective, Holds, DataPlane, MaskPlane, Wide, Tall, Times;
    var b, s := AllocLmem(layout, p, t.tilingC, t.tilingH), p.scale;
    var d, m := DataPlane(mem, p, t), MaskPlane(mem, p, t);
    BlocksHold(mem, p, t);
    var mem1 := Exec(mem, Copy(b.ifmap, DataBlock(p, t)));
    Loaded(mem, b.ifmap, DataBlock(p, t), d);
    KeepsGlobal(mem, Copy(b.ifmap, DataBlock(p, t)));
    SamePlanes(mem, mem1, p, t);
    var i2 := Copy(b.mask, MaskBlock(p, t));
    var mem2 := Exec(mem1, i2);
    Loaded(mem1, b.mask, MaskBlock(p, t), m);
    Kept(mem1, i2, b.ifmap, d);
    KeepsGlobal(mem1, i2);
    var i3 := Copy(ByColumn(b.working, s, b.ifmap.w), Repeated(b.ifmap, s));
    var mem3 := Exec(mem2, i3);
    Widened(mem2, b.working, b.ifmap, s, d);
    ByColumnInjective(b.working, s, b.ifmap.w);
    Kept(mem2, i3, b.mask, m);
    KeepsGlobal(mem2, i3);
    var i4 := Copy(ByRow(b.ofmap, s, b.ifmap.h), Repeated(b.working, s));
    var mem4 := Exec(mem3, i4);
    Heightened(mem3, b.ofmap, b.working, s, Wide(d, s));
    ByRowInjective(b.ofmap, s, b.ifmap.h);
    Kept(mem3, i4, b.mask, m);
    KeepsGlobal(mem3, i4);
    Multiplied(mem4, b.ofmap, b.mask, Tall(Wide(d, s), s), m);
    KeepsGlobal(mem4, Mul(b.ofmap, b.ofmap, b.mask));
  }

  // ----- The store ------------------------------------------------------------------------------

  predicate InOutput(p: Params, n: nat, c: nat, y: nat, x: nat) {
    n < p.inputN && c < p.inputC && y < p.unpoolH && x < p.unpoolW
  }

  /** Where the output element goes. */
  function OutCell(p: Params, n: nat, c: nat, y: nat, x: nat): Cell {
    At(p.outputAddr, p.inputC, p.unpoolH, p.unpoolW, n, c, y, x)
  }

  lemma OutCellUnique(p: Params, n: nat, c: nat, y: nat, x: nat, n': nat, c': nat, y': nat, x': nat)
    requires InOutput(p, n, c, y, x) && InOutput(p, n', c', y', x')
    requires OutCell(p, n, c, y, x) == OutCell(p, n', c', y', x')
    ensures n == n' && c == c' && y == y' && x == x'
  {
    hide Volume, Inner;
    VolumeBound(c, y, x, p.inputC, p.unpoolH, p.unpoolW);
    VolumeBound(c', y', x', p.inputC, p.unpoolH, p.unpoolW);
    Radix(n, Inner(p.unpoolH, p.unpoolW, c, y, x), n', Inner(p.unpoolH, p.unpoolW, c', y', x'), Volume(p.inputC, p.unpoolH, p.unpoolW));
    InnerUnique(p.unpoolH, p.unpoolW, c, y, x, c', y', x');
  }

  lemma InnerUnique(h: nat, w: nat, c: nat, y: nat, x: nat, c': nat, y': nat, x': nat)
    requires y < h && x < w && y' < h && x' < w && Inner(h, w, c, y, x) == Inner(h, w, c', y', x')
    ensures c == c' && y == y' && x == x'
  {
    PlaneUnique(c, y, x, c', y', x', h, w, h * w);
  }

  lemma VolumeBound(c: nat, y: nat, x: nat, channels: nat, h: nat, w: nat)
    requires c < channels && y < h && x < w
    ensures Inner(h, w, c, y, x) < Volume(channels, h, w)
  {
    var plane := h * w;
    RadixBound(y, h, x, w);
    RadixBound(c, channels, y * w + x, plane);
    Associate(channels, h, w);
  }

  lemma Associate(a: nat, b: nat, c: nat)
    ensures a * (b * c) == a * b * c
  {
  }

  /** The output elements of a tile. */
  predicate Covers(p: Params, t: Tile, n: nat, c: nat, y: nat) {
    n == t.n && t.c <= c < t.c + t.tilingC && t.h * p.scale <= y < t.h * p.scale + t.tilingH * p.scale
  }

  lemma OutputBlockLoc(p: Params, t: Tile, k: nat, y: nat, x: nat)
    requires TileOk(p, t)
    ensures CropH(p, t) <= t.tilingH * p.scale
    ensures Loc(OutputBlock(p, t), 0, k, y, x) == OutCell(p, t.n, t.c + k, t.h * p.scale + y, x)
    ensures In(OutputBlock(p, t), 0, k, y, x) ==>
      InOutput(p, t.n, t.c + k, t.h * p.scale + y, x) && Covers(p, t, t.n, t.c + k, t.h * p.scale + y)
  {
    hide Loc, At;
    CropFits(p, t);
    GlobalBlockLoc(p.outputAddr, p.inputC, p.unpoolH, p.unpoolW, t.n, t.c, t.h * p.scale,
                   t.tilingC, t.tilingH * p.scale - CropH(p, t), p.unpoolW, k, y, x);
  }

  /** An element of the block is an output element of the tile. */
  lemma StoreElement(p: Params, t: Tile, n: nat, k: nat, y: nat, x: nat)
    requires TileOk(p, t)
    ensures CropH(p, t) <= t.tilingH * p.scale
    ensures In(OutputBlock(p, t), n, k, y, x) ==>
      && Loc(OutputBlock(p, t), n, k, y, x) == OutCell(p, t.n, t.c + k, t.h * p.scale + y, x)
      && InOutput(p, t.n, t.c + k, t.h * p.scale + y, x) && Covers(p, t, t.n, t.c + k, t.h * p.scale + y)
  {
    hide Loc, OutCell, InOutput, Covers, CropH;
    OutputBlockLoc(p, t, k, y, x);
  }

  /** The store touches exactly the output elements of its tile. */
  lemma StoreTouches(p: Params, t: Tile, n: nat, c: nat, y: nat, x: nat)
    requires TileOk(p, t) && InOutput(p, n, c, y, x)
    ensures CropH(p, t) <= t.tilingH * p.scale
    ensures Touches(OutputBlock(p, t), OutCell(p, n, c, y, x)) <==> Covers(p, t, n, c, y)
  {
    CropFits(p, t);
    if Covers(p, t, n, c, y) {
      StoreHits(p, t, n, c, y, x);
    }
    hide Loc, OutCell, OutputBlock, CropH, In;
    if Touches(OutputBlock(p, t), OutCell(p, n, c, y, x)) {
      var n': nat, k: nat, y': nat, x': nat :|
        In(OutputBlock(p, t), n', k, y', x') && Loc(OutputBlock(p, t), n', k, y', x') == OutCell(p, n, c, y, x);
      StoreElement(p, t, n', k, y', x');
      OutCellUnique(p, n, c, y, x, t.n, t.c + k, t.h * p.scale + y', x');
    }
  }

  lemma StoreHits(p: Params, t: Tile, n: nat, c: nat, y: nat, x: nat)
    requires TileOk(p, t) && InOutput(p, n, c, y, x) && Covers(p, t, n, c, y) && CropH(p, t) <= t.tilingH * p.scale
    ensures Touches(OutputBlock(p, t), OutCell(p, n, c, y, x))
  {
    hide Loc, OutCell;
    OutputBlockLoc(p, t, c - t.c, y - t.h * p.scale, x);
    assert In(OutputBlock(p, t), 0, c - t.c, y - t.h * p.scale, x);
  }

  lemma StorePair(p: Params, t: Tile, n: nat, k: nat, y: nat, x: nat, n': nat, k': nat, y': nat, x': nat)
    requires TileOk(p, t) && CropH(p, t) <= t.tilingH * p.scale
    requires In(OutputBlock(p, t), n, k, y, x) && In(OutputBlock(p, t), n', k', y', x')
    requires Loc(OutputBlock(p, t), n, k, y, x) == Loc(OutputBlock(p, t), n', k', y', x')
    ensures n == n' && k == k' && y == y' && x == x'
  {
    hide Loc, OutCell, CropH, TileOk, InOutput, Covers;
    assert n == 0 && n' == 0;
    OutputBlockLoc(p, t, k, y, x);
    OutputBlockLoc(p, t, k', y', x');
    OutCellUnique(p, t.n, t.c + k, t.h * p.scale + y, x, t.n, t.c + k', t.h * p.scale + y', x');
  }

  lemma StoreInjective(p: Params, t: Tile)
    requires TileOk(p, t)
    ensures CropH(p, t) <= t.tilingH * p.scale
    ensures Injective(OutputBlock(p, t))
  {
    CropFits(p, t);
    hide Loc, OutputBlock, CropH, TileOk, In;
    var block := OutputBlock(p, t);
    forall n: nat, k: nat, y: nat, x: nat, n': nat, k': nat, y': nat, x': nat |
      In(block, n, k, y, x) && In(block, n', k', y', x') && Loc(block, n, k, y, x) == Loc(block, n', k', y', x')
      ensures n == n' && k == k' && y == y' && x == x'
    {
      StorePair(p, t, n, k, y, x, n', k', y', x');
    }
  }

  ghost predicate IsOutput(p: Params, cell: Cell) {
    exists n: nat, c: nat, y: nat, x: nat :: InOutput(p, n, c, y, x) && OutCell(p, n, c, y, x) == cell
  }

  lemma OutputIntro(p: Params, n: nat, c: nat, y: nat, x: nat)
    requires InOutput(p, n, c, y, x)
    ensures IsOutput(p, OutCell(p, n, c, y, x))
  {
    hide OutCell;
  }

  /** Everything the store touches is an output element. */
  lemma StoreInOutput(p: Params, t: Tile, cell: Cell)
    requires TileOk(p, t)
    ensures CropH(p, t) <= t.tilingH * p.scale
    ensures Touches(OutputBlock(p, t), cell) ==> IsOutput(p, cell)
  {
    hide Loc, IsOutput, OutputBlock, CropH, In, OutCell;
    StoreElement(p, t, 0, 0, 0, 0);
    if Touches(OutputBlock(p, t), cell) {
      var n: nat, k: nat, y: nat, x: nat :| In(OutputBlock(p, t), n, k, y, x) && Loc(OutputBlock(p, t), n, k, y, x) == cell;
      StoreElement(p, t, n, k, y, x);
      OutputIntro(p, t.n, t.c + k, t.h * p.scale + y, x);
    }
  }

  // ----- The whole tile -------------------------------------------------------------------------

  /** The reference value of an output element, in terms of memory. */
  ghost function Expected(mem: Memory, p: Params, n: nat, c: nat, y: nat, x: nat): int
    requires p.scale > 0
  {
    Narrow(mem(At(p.dataAddr, p.inputC, p.inputH, p.inputW, n, c, y / p.scale, x / p.scale))
         * mem(At(p.maskAddr, p.inputC, OutputH(p), OutputW(p), n, c, y, x)))
  }

  lemma DivShift(h: nat, y: nat, s: nat)
    requires s > 0
    ensures (h * s + y) / s == h + y / s
  {
    var q, r := y / s, y % s;
    DivMod(y, s);
    AddFactors(h, q, s);
    ModUnique(h * s + y, h + q, r, s);
  }

  lemma AddFactors(a: nat, b: nat, s: nat)
    ensures (a + b) * s == a * s + b * s
  {
  }

  lemma RunSix(mem: Memory, a: Instr, b: Instr, c: Instr, d: Instr, e: Instr, f: Instr)
    ensures Run(mem, [a, b, c, d, e, f]) == Exec(Exec(Exec(Exec(Exec(Exec(mem, a), b), c), d), e), f)
  {
    hide Exec, Run;
    assert [a, b, c, d, e, f] == ((((([] + [a]) + [b]) + [c]) + [d]) + [e]) + [f];
    RunSnoc(mem, [], a);
    RunSnoc(mem, [] + [a], b);
    RunSnoc(mem, ([] + [a]) + [b], c);
    RunSnoc(mem, (([] + [a]) + [b]) + [c], d);
    RunSnoc(mem, ((([] + [a]) + [b]) + [c]) + [d], e);
    RunSnoc(mem, (((([] + [a]) + [b]) + [c]) + [d]) + [e], f);
    RunNone(mem);
  }

  lemma RunNone(mem: Memory)
    ensures Run(mem, []) == mem
  {
  }

  lemma Stored(mem: Memory, p: Params, t: Tile, b: Tensor, v: Plane, n: nat, c: nat, y: nat, x: nat)
    requires TileOk(p, t) && InOutput(p, n, c, y, x)
    requires b.n == 1 && b.c == t.tilingC && b.h == t.tilingH * p.scale && b.w == OutputW(p) && Holds(mem, b, v)
    ensures CropH(p, t) <= t.tilingH * p.scale
    ensures Exec(mem, Copy(OutputBlock(p, t), Cropped(b, CropH(p, t), OutputW(p) - p.unpoolW)))(OutCell(p, n, c, y, x))
         == if Covers(p, t, n, c, y) then v(c - t.c, y - t.h * p.scale, x) else mem(OutCell(p, n, c, y, x))
  {
    hide Loc, OutCell, Touches, Exec, Injective;
    CropFits(p, t);
    var i := Copy(OutputBlock(p, t), Cropped(b, CropH(p, t), OutputW(p) - p.unpoolW));
    StoreTouches(p, t, n, c, y, x);
    if Covers(p, t, n, c, y) {
      var k, row := c - t.c, y - t.h * p.scale;
      OutputBlockLoc(p, t, k, row, x);
      StoreInjective(p, t);
      ExecHit(mem, i, 0, k, row, x);
      assert In(b, 0, k, row, x);
      CroppedLoc(b, CropH(p, t), OutputW(p) - p.unpoolW, k, row, x);
    } else {
      ExecMiss(mem, i, OutCell(p, n, c, y, x));
    }
  }

  lemma CroppedLoc(b: Tensor, cropH: nat, cropW: nat, k: nat, y: nat, x: nat)
    requires cropH <= b.h && cropW <= b.w
    ensures Loc(Cropped(b, cropH, cropW), 0, k, y, x) == Loc(b, 0, k, y, x)
  {
  }

  lemma PlanesExpected(mem: Memory, p: Params, t: Tile, n: nat, c: nat, y: nat, x: nat)
    requires p.scale > 0 && Covers(p, t, n, c, y)
    ensures Times(Tall(Wide(DataPlane(mem, p, t), p.scale), p.scale), MaskPlane(mem, p, t))(c - t.c, y - t.h * p.scale, x)
         == Expected(mem, p, n, c, y, x)
  {
    hide At, Narrow;
    DivShift(t.h, y - t.h * p.scale, p.scale);
  }

  /** Running a tile gives its output elements the reference values and changes nothing else in global memory. */
  lemma TileEffect(layout: Layout, p: Params, t: Tile, mem: Memory, n: nat, c: nat, y: nat, x: nat)
    requires Sound(layout) && TileOk(p, t) && InOutput(p, n, c, y, x)
    ensures Run(mem, TileProgram(layout, p, t))(OutCell(p, n, c, y, x))
         == if Covers(p, t, n, c, y) then Expected(mem, p, n, c, y, x) else mem(OutCell(p, n, c, y, x))
  {
    var b, s := AllocLmem(layout, p, t.tilingC, t.tilingH), p.scale;
    var prog := TileProgram(layout, p, t);
    CropFits(p, t);
    RunSix(mem, prog[0], prog[1], prog[2], prog[3], prog[4], prog[5]);
    assert prog == [prog[0], prog[1], prog[2], prog[3], prog[4], prog[5]];
    TileComputes(layout, p, t, mem);
    BufferFacts(layout, p, t);
    hide Run, Exec, Holds, Loc, AllocLmem, Narrow, Sound, CropH, TileProgram, Times, Tall, Wide, DataPlane, MaskPlane, Expected;
    var mem5 := Exec(Exec(Exec(Exec(Exec(mem, prog[0]), prog[1]), prog[2]), prog[3]), prog[4]);
    var v := Times(Tall(Wide(DataPlane(mem, p, t), s), s), MaskPlane(mem, p, t));
    Stored(mem5, p, t, b.ofmap, v, n, c, y, x);
    if Covers(p, t, n, c, y) {
      PlanesExpected(mem, p, t, n, c, y, x);
    } else {
      assert mem5(Global(OutCell(p, n, c, y, x).addr)) == mem(Global(OutCell(p, n, c, y, x).addr));
    }
  }

  lemma TileKeeps(layout: Layout, p: Params, t: Tile, mem: Memory, a: int)
    requires Sound(layout) && TileOk(p, t) && !IsOutput(p, Global(a))
    ensures Run(mem, TileProgram(layout, p, t))(Global(a)) == mem(Global(a))
  {
    var prog := TileProgram(layout, p, t);
    CropFits(p, t);
    RunSix(mem, prog[0], prog[1], prog[2], prog[3], prog[4], prog[5]);
    assert prog == [prog[0], prog[1], prog[2], prog[3], prog[4], prog[5]];
    TileComputes(layout, p, t, mem);
    hide Run, Exec, Holds, Loc, AllocLmem, Touches, IsOutput;
    var mem5 := Exec(Exec(Exec(Exec(Exec(mem, prog[0]), prog[1]), prog[2]), prog[3]), prog[4]);
    StoreInOutput(p, t, Global(a));
    ExecMiss(mem5, prog[5], Global(a));
  }

  lemma WritesSix(a: Instr, b: Instr, c: Instr, d: Instr, e: Instr, f: Instr, cell: Cell)
    requires !Touches(a.dst, cell) && !Touches(b.dst, cell) && !Touches(c.dst, cell) && !Touches(d.dst, cell) && !Touches(e.dst, cell)
    ensures Writes([a, b, c, d, e, f], cell) == if Touches(f.dst, cell) then 1 else 0
  {
    hide Touches;
    assert [a, b, c, d, e, f] == [a] + ([b] + ([c] + ([d] + ([e] + [f]))));
    WritesAppend([a], [b] + ([c] + ([d] + ([e] + [f]))), cell);
    WritesAppend([b], [c] + ([d] + ([e] + [f])), cell);
    WritesAppend([c], [d] + ([e] + [f]), cell);
    WritesAppend([d], [e] + [f], cell);
    WritesAppend([e], [f], cell);
  }

  /** Global memory is written by the store alone. */
  lemma TileWrites(layout: Layout, p: Params, t: Tile, a: int)
    requires Sound(layout) && TileOk(p, t)
    ensures CropH(p, t) <= t.tilingH * p.scale
    ensures Writes(TileProgram(layout, p, t), Global(a)) == if Touches(OutputBlock(p, t), Global(a)) then 1 else 0
  {
    var b, s := AllocLmem(layout, p, t.tilingC, t.tilingH), p.scale;
    var prog := TileProgram(layout, p, t);
    CropFits(p, t);
    assert prog == [prog[0], prog[1], prog[2], prog[3], prog[4], prog[5]];
    BufferFacts(layout, p, t);
    BuffersApart(layout, p, t);
    hide AllocLmem, Touches, Injective, Writes;
    ByColumnInjective(b.working, s, b.ifmap.w);
    ByRowInjective(b.ofmap, s, b.ifmap.h);
    WritesSix(prog[0], prog[1], prog[2], prog[3], prog[4], prog[5], Global(a));
  }

  /** Every instruction of a tile has operands of the shape of its destination. */
  lemma TileMatched(layout: Layout, p: Params, t: Tile, i: Instr)
    requires Sound(layout) && TileOk(p, t) && i in TileProgram(layout, p, t)
    ensures Matched(i)
  {
    CropFits(p, t);
    BufferFacts(layout, p, t);
    hide AllocLmem, Injective, CropH;
  }

  /** Local memory is written below the size of the tile only. */
  lemma TileFits(layout: Layout, p: Params, t: Tile, i: Instr, cell: Cell)
    requires Sound(layout) && TileOk(p, t) && i in TileProgram(layout, p, t) && cell.Local?
    ensures Touches(i.dst, cell) ==> 0 <= cell.addr < TotalSize(layout, p, t.tilingC, t.tilingH)
  {
    var b, s := AllocLmem(layout, p, t.tilingC, t.tilingH), p.scale;
    CropFits(p, t);
    BufferFacts(layout, p, t);
    BuffersDisjoint(layout, p, t.tilingC, t.tilingH, cell);
    StoreInOutput(p, t, cell);
    hide AllocLmem, Touches, Injective, TotalSize, Loc;
    ByColumnInjective(b.working, s, b.ifmap.w);
    ByRowInjective(b.ofmap, s, b.ifmap.h);
  }

  // ----- 32-bit strides -------------------------------------------------------------------------

  function Offset32(position: nat, stride: nat): nat {
    Low32(position * stride)
  }

  /** A block as tdma_load and tdma_store describe it: strides and each product with a position in 32 bits. */
  function Block32(addr: nat, c: nat, h: nat, w: nat, n0: nat, c0: nat, h0: nat, tc: nat, th: nat, tw: nat): Tensor {
    var strideN, strideC, strideH := Low32(c * h * w), Low32(h * w), Low32(w);
    Tensor(false, addr + (Offset32(n0, strideN) + Offset32(c0, strideC) + Offset32(h0, strideH)), 1, tc, th, tw,
           strideN, strideC, strideH, 1)
  }

  /** A block is where it belongs exactly when its strides and each of the three products fit. */
  lemma BlockPlacedIff(addr: nat, c: nat, h: nat, w: nat, n0: nat, c0: nat, h0: nat, tc: nat, th: nat, tw: nat)
    ensures Block32(addr, c, h, w, n0, c0, h0, tc, th, tw) == GlobalBlock(addr, c, h, w, n0, c0, h0, tc, th, tw) <==>
      BlockFits(c, h, w, n0, c0, h0)
  {
    hide Low32, Offset32;
    var volume, plane := c * h * w, h * w;
    OffsetExactIff(n0, volume);
    OffsetExactIff(c0, plane);
    OffsetExactIff(h0, w);
    SumsEqual(Offset32(n0, Low32(volume)), Offset32(c0, Low32(plane)), Offset32(h0, Low32(w)), n0 * volume, c0 * plane, h0 * w);
    assert Low32(plane) == plane <==> plane < U32;
    assert Low32(w) == w <==> w < U32;
  }

  lemma SumsEqual(x': nat, y': nat, z': nat, x: nat, y: nat, z: nat)
    requires x' <= x && y' <= y && z' <= z
    ensures x' + y' + z' == x + y + z <==> x' == x && y' == y && z' == z
  {
  }

  predicate BlockFits(c: nat, h: nat, w: nat, n0: nat, c0: nat, h0: nat) {
    h * w < U32 && w < U32 && n0 * (c * h * w) < U32 && c0 * (h * w) < U32 && h0 * w < U32
  }

  lemma OffsetExactIff(position: nat, stride: nat)
    ensures Offset32(position, Low32(stride)) <= position * stride
    ensures Offset32(position, Low32(stride)) == position * stride <==> position * stride < U32
  {
    hide Low32;
    Grows2(Low32(stride), stride, position);
    if position > 0 && position * stride < U32 {
      Grows(1, position, stride);
    }
  }

  /** A smaller tensor fits where a larger one does. */
  lemma FitsWithin(c: nat, h: nat, w: nat, h': nat, w': nat, n0: nat, c0: nat, h0: nat, h0': nat)
    requires h <= h' && w <= w' && h0 <= h && BlockFits(c, h', w', n0, c0, h0')
    ensures BlockFits(c, h, w, n0, c0, h0)
  {
    VolumeGrows(c, h, w, h', w', n0);
    Grows(h, h', w);
    Grows2(w, w', h');
    Grows2(h * w, h' * w', c0);
    Grows(h0, h, w);
  }

  lemma VolumeGrows(c: nat, h: nat, w: nat, h': nat, w': nat, images: nat)
    requires h <= h' && w <= w'
    ensures images * Volume(c, h, w) <= images * Volume(c, h', w')
  {
    Associate(c, h, w);
    Associate(c, h', w');
    Grows(h, h', w);
    Swap(h', w);
    Swap(h', w');
    Grows(w, w', h');
    Grows2(h * w, h' * w', c);
    Grows2(c * (h * w), c * (h' * w'), images);
  }

  lemma Grows2(a: nat, b: nat, k: nat)
    requires a <= b
    ensures k * a <= k * b
  {
    Grows(a, b, k);
    Swap(a, k);
    Swap(b, k);
  }

  /** The tile as the source emits it. */
  function EmittedTile(layout: Layout, p: Params, t: Tile): seq<Instr>
    requires TileOk(p, t)
  {
    CropFits(p, t);
    var b := AllocLmem(layout, p, t.tilingC, t.tilingH);
    var rows, columns := t.tilingH * p.scale - CropH(p, t), OutputW(p) - (OutputW(p) - p.unpoolW);
    [ Copy(b.ifmap, Block32(p.dataAddr, p.inputC, p.inputH, p.inputW, t.n, t.c, t.h, t.tilingC, t.tilingH, p.inputW)),
      Copy(b.mask, Block32(p.maskAddr, p.inputC, OutputH(p), OutputW(p), t.n, t.c, t.h * p.scale, t.tilingC, t.tilingH * p.scale, OutputW(p))),
      Copy(ByColumn(b.working, p.scale, b.ifmap.w), Repeated(b.ifmap, p.scale)),
      Copy(ByRow(b.ofmap, p.scale, b.ifmap.h), Repeated(b.working, p.scale)),
      Mul(b.ofmap, b.ofmap, b.mask),
      Copy(Block32(p.outputAddr, p.inputC, p.unpoolH, p.unpoolW, t.n, t.c, t.h * p.scale, t.tilingC, rows, columns),
           Cropped(b.ofmap, CropH(p, t), OutputW(p) - p.unpoolW)) ]
  }

  /** A tile is emitted as intended exactly when the block of the mask, the largest tensor, fits. */
  lemma EmittedExactIff(layout: Layout, p: Params, t: Tile)
    requires TileOk(p, t)
    ensures EmittedTile(layout, p, t) == TileProgram(layout, p, t) <==>
      BlockFits(p.inputC, OutputH(p), OutputW(p), t.n, t.c, t.h * p.scale)
  {
    CropFits(p, t);
    var rows, columns := t.tilingH * p.scale - CropH(p, t), OutputW(p) - (OutputW(p) - p.unpoolW);
    var h0 := t.h * p.scale;
    WithinScaled(p);
    BlockPlacedIff(p.maskAddr, p.inputC, OutputH(p), OutputW(p), t.n, t.c, h0, t.tilingC, t.tilingH * p.scale, OutputW(p));
    BlockPlacedIff(p.dataAddr, p.inputC, p.inputH, p.inputW, t.n, t.c, t.h, t.tilingC, t.tilingH, p.inputW);
    BlockPlacedIff(p.outputAddr, p.inputC, p.unpoolH, p.unpoolW, t.n, t.c, h0, t.tilingC, rows, columns);
    hide Block32, GlobalBlock, BlockFits, AllocLmem, CropH;
    if BlockFits(p.inputC, OutputH(p), OutputW(p), t.n, t.c, h0) {
      FitsWithin(p.inputC, p.inputH, p.inputW, OutputH(p), OutputW(p), t.n, t.c, t.h, h0);
      FitsWithin(p.inputC, p.unpoolH, p.unpoolW, OutputH(p), OutputW(p), t.n, t.c, h0, h0);
    } else {
      assert EmittedTile(layout, p, t)[1] != TileProgram(layout, p, t)[1];
    }
  }

  lemma WithinScaled(p: Params)
    requires p.scale > 0
    ensures p.inputH <= OutputH(p) && p.inputW <= OutputW(p)
  {
    Grows2(1, p.scale, p.inputH);
    Grows2(1, p.scale, p.inputW);
  }
}
