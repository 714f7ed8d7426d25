/**
 The strided-tensor instructions that custom_op/example/UnPoolingOp.cpp emits: element-wise copies
 and one multiplication over four-dimensional tensors in local or global memory. How many bytes of a
 lane a local tensor takes, and its channel stride, are parameters.
 */
module UnpoolMachine {

  const NPU_NUM := 32
  const LOCAL_MEM_SIZE := 32768

  /** A byte of global memory, or of the local memory of one lane. */
  datatype Cell = Global(addr: int) | Local(lane: int, addr: int)

  type Memory = Cell -> int

  /** A view of memory: shape and strides. Channels of a local tensor are dealt out to the lanes. */
  datatype Tensor = Tensor(
    local: bool, start: nat,
    n: nat, c: nat, h: nat, w: nat,
    strideN: nat, strideC: nat, strideH: nat, strideW: nat)

  function Offset(t: Tensor, n: nat, row: nat, h: nat, w: nat): nat {
    n * t.strideN + row * t.strideC + h * t.strideH + w * t.strideW
  }

  function Loc(t: Tensor, n: nat, c: nat, h: nat, w: nat): Cell {
    if t.local then Local(c % NPU_NUM, t.start + Offset(t, n, c / NPU_NUM, h, w))
    else Global(t.start + Offset(t, n, c, h, w))
  }

  predicate In(t: Tensor, n: nat, c: nat, h: nat, w: nat) {
    n < t.n && c < t.c && h < t.h && w < t.w
  }

  /** Some element of `t` lies at `cell`. */
  ghost predicate Touches(t: Tensor, cell: Cell) {
    exists n: nat, c: nat, h: nat, w: nat :: In(t, n, c, h, w) && Loc(t, n, c, h, w) == cell
  }

  /** No two elements of `t` share a cell. */
  ghost predicate Injective(t: Tensor) {
    forall n: nat, c: nat, h: nat, w: nat, n': nat, c': nat, h': nat, w': nat ::
      In(t, n, c, h, w) && In(t, n', c', h', w') && Loc(t, n, c, h, w) == Loc(t, n', c', h', w')
      ==> n == n' && c == c' && h == h' && w == w'
  }

  lemma SameElement(t: Tensor, n: nat, c: nat, h: nat, w: nat, n': nat, c': nat, h': nat, w': nat)
    requires Injective(t) && In(t, n, c, h, w) && In(t, n', c', h', w')
    requires Loc(t, n, c, h, w) == Loc(t, n', c', h', w')
    ensures n == n' && c == c' && h == h' && w == w'
  {
    hide Loc;
  }

  datatype Instr =
    | Copy(dst: Tensor, src: Tensor)
    | Mul(dst: Tensor, a: Tensor, b: Tensor)

  /** The eight bits an element holds. */
  function Narrow(x: int): int {
    if x > 127 then 127 else if x < -128 then -128 else x
  }

  /** Of the values eight bits hold, the nearest one. */
  lemma NarrowIsNearest(x: int, v: int)
    requires -128 <= v <= 127
    ensures -128 <= Narrow(x) <= 127
    ensures if x <= v then x <= Narrow(x) <= v else v <= Narrow(x) <= x
  {
  }

  predicate SameShape(a: Tensor, b: Tensor) {
    a.n == b.n && a.c == b.c && a.h == b.h && a.w == b.w
  }

  /** The operands of an instruction have the shape of its destination. */
  predicate Matched(i: Instr) {
    match i
    case Copy(dst, src) => SameShape(dst, src)
    case Mul(dst, a, b) => SameShape(dst, a) && SameShape(dst, b)
  }

  ghost function Operand(mem: Memory, i: Instr, n: nat, c: nat, h: nat, w: nat): int {
    match i
    case Copy(_, src) => mem(Loc(src, n, c, h, w))
    case Mul(_, a, b) => Narrow(mem(Loc(a, n, c, h, w)) * mem(Loc(b, n, c, h, w)))
  }

  /** One instruction: every element of the destination gets its value, nothing else changes. */
  ghost function Exec(mem: Memory, i: Instr): Memory {
    (cell: Cell) =>
      if Touches(i.dst, cell) then
        var n: nat, c: nat, h: nat, w: nat :| In(i.dst, n, c, h, w) && Loc(i.dst, n, c, h, w) == cell;
        Operand(mem, i, n, c, h, w)
      else mem(cell)
  }

  ghost function Run(mem: Memory, prog: seq<Instr>): Memory
    decreases |prog|
  {
    if prog == [] then mem else Exec(Run(mem, prog[..|prog| - 1]), prog[|prog| - 1])
  }

  /** How many instructions write to a cell. */
  ghost function Writes(prog: seq<Instr>, cell: Cell): nat {
    if prog == [] then 0
    else Writes(prog[..|prog| - 1], cell) + if Touches(prog[|prog| - 1].dst, cell) then 1 else 0
  }

  lemma RunSnoc(mem: Memory, prog: seq<Instr>, i: Instr)
    ensures Run(mem, prog + [i]) == Exec(Run(mem, prog), i)
  {
    hide Exec;
    assert (prog + [i])[..|prog|] == prog;
  }

  lemma {:induction false} RunAppend(mem: Memory, a: seq<Instr>, b: seq<Instr>)
    ensures Run(mem, a + b) == Run(Run(mem, a), b)
    decreases |b|
  {
    hide Exec;
    if b == [] {
      assert a + b == a;
    } else {
      var front, i := b[..|b| - 1], b[|b| - 1];
      RunAppend(mem, a, front);
      RunSnoc(mem, a + front, i);
      assert a + b == (a + front) + [i];
    }
  }

  lemma {:induction false} WritesAppend(a: seq<Instr>, b: seq<Instr>, cell: Cell)
    ensures Writes(a + b, cell) == Writes(a, cell) + Writes(b, cell)
    decreases |b|
  {
    hide Touches;
    if b == [] {
      assert a + b == a;
    } else {
      var front, i := b[..|b| - 1], b[|b| - 1];
      WritesAppend(a, front, cell);
      assert (a + b)[..|a + b| - 1] == a + front;
    }
  }

  lemma ExecHit(mem: Memory, i: Instr, n: nat, c: nat, h: nat, w: nat)
    requires Injective(i.dst) && In(i.dst, n, c, h, w)
    ensures Exec(mem, i)(Loc(i.dst, n, c, h, w)) == Operand(mem, i, n, c, h, w)
  {
    hide Loc;
    assert Touches(i.dst, Loc(i.dst, n, c, h, w));
  }

  lemma ExecMiss(mem: Memory, i: Instr, cell: Cell)
    requires !Touches(i.dst, cell)
    ensures Exec(mem, i)(cell) == mem(cell)
  {
  }

  // ----- Layout of local tensors ----------------------------------------------------------------

  /** lmem_tensor_to_size and the channel stride of lmem_init_tensor, for byte tensors. */
  datatype Layout = Layout(size: (nat, nat, nat) -> nat, strideC: (nat, nat) -> nat)

  function Rows(c: nat): nat {
    (c + (NPU_NUM - 1)) / NPU_NUM
  }

  /** The fewest rows that have room for `c` channels. */
  lemma RowsIsLeast(c: nat, rows: nat)
    ensures Rows(c) <= rows <==> c <= NPU_NUM * rows
  {
  }

  /** Enough room for every channel, and never less for a larger tensor. */
  ghost predicate Sound(layout: Layout) {
    && (forall h: nat, w: nat :: h * w <= layout.strideC(h, w))
    && (forall c: nat, h: nat, w: nat :: Rows(c) * layout.strideC(h, w) <= layout.size(c, h, w))
    && (forall c: nat, h: nat, w: nat, c': nat, h': nat :: c <= c' && h <= h' ==> layout.size(c, h, w) <= layout.size(c', h', w))
  }

  /** lmem_init_tensor for a byte tensor of one image. */
  function LocalTensor(layout: Layout, start: nat, c: nat, h: nat, w: nat): Tensor {
    Tensor(true, start, 1, c, h, w, layout.size(c, h, w), layout.strideC(h, w), w, 1)
  }

  lemma MulNonNegative(a: nat, k: nat)
    ensures a * k >= 0
  {
  }

  lemma Apart(a: nat, b: nat, k: nat)
    requires a < b
    ensures a * k + k <= b * k
  {
    MulNonNegative(b - a - 1, k);
    assert b * k == a * k + k + (b - a - 1) * k;
  }

  /** Mixed radix: quotient and remainder determine each other. */
  lemma Radix(a: nat, r: nat, b: nat, s: nat, k: nat)
    requires a * k + r == b * k + s && r < k && s < k
    ensures a == b && r == s
  {
    if a < b {
      Apart(a, b, k);
    } else if b < a {
      Apart(b, a, k);
    }
  }

  lemma RadixBound(a: nat, n: nat, r: nat, k: nat)
    requires a < n && r < k
    ensures a * k + r < n * k
  {
    Apart(a, n, k);
  }

  /** Rows of `w` elements inside channels of at least h * w. */
  lemma PlaneUnique(a: nat, y: nat, x: nat, b: nat, y': nat, x': nat, h: nat, w: nat, stride: nat)
    requires y < h && x < w && y' < h && x' < w && h * w <= stride
    requires a * stride + y * w + x == b * stride + y' * w + x'
    ensures a == b && y == y' && x == x'
  {
    RadixBound(y, h, x, w);
    RadixBound(y', h, x', w);
    Radix(a, y * w + x, b, y' * w + x', stride);
    Radix(y, x, y', x', w);
  }

  lemma LocalOffset(layout: Layout, start: nat, c: nat, h: nat, w: nat, k: nat, y: nat, x: nat)
    ensures Loc(LocalTensor(layout, start, c, h, w), 0, k, y, x)
         == Local(k % NPU_NUM, start + (k / NPU_NUM) * layout.strideC(h, w) + y * w + x)
  {
  }

  lemma LocalInjective(layout: Layout, start: nat, c: nat, h: nat, w: nat)
    requires Sound(layout)
    ensures Injective(LocalTensor(layout, start, c, h, w))
  {
    var t := LocalTensor(layout, start, c, h, w);
    forall n: nat, k: nat, y: nat, x: nat, n': nat, k': nat, y': nat, x': nat |
      In(t, n, k, y, x) && In(t, n', k', y', x') && Loc(t, n, k, y, x) == Loc(t, n', k', y', x')
      ensures n == n' && k == k' && y == y' && x == x'
    {
      LocalOffset(layout, start, c, h, w, k, y, x);
      LocalOffset(layout, start, c, h, w, k', y', x');
      PlaneUnique(k / NPU_NUM, y, x, k' / NPU_NUM, y', x', h, w, layout.strideC(h, w));
    }
  }

  /** A local tensor stays within its size. */
  lemma LocalWithin(layout: Layout, start: nat, c: nat, h: nat, w: nat, n: nat, k: nat, y: nat, x: nat)
    requires Sound(layout) && In(LocalTensor(layout, start, c, h, w), n, k, y, x)
    ensures Loc(LocalTensor(layout, start, c, h, w), n, k, y, x).Local?
    ensures start <= Loc(LocalTensor(layout, start, c, h, w), n, k, y, x).addr < start + layout.size(c, h, w)
  {
    LocalOffset(layout, start, c, h, w, k, y, x);
    var s := layout.strideC(h, w);
    assert h * w <= s && Rows(c) * s <= layout.size(c, h, w);
    RadixBound(y, h, x, w);
    assert k / NPU_NUM < Rows(c);
    RadixBound(k / NPU_NUM, Rows(c), y * w + x, s);
  }

  /** Unaligned byte tensors: every channel takes h * w bytes of its lane. */
  function DenseLayout(): Layout {
    Layout((c: nat, h: nat, w: nat) => Rows(c) * (h * w), (h: nat, w: nat) => h * w)
  }

  /** The assumptions on the layout can be met. */
  lemma DenseSound()
    ensures Sound(DenseLayout())
  {
    var layout := DenseLayout();
    forall c: nat, h: nat, w: nat, c': nat, h': nat | c <= c' && h <= h'
      ensures layout.size(c, h, w) <= layout.size(c', h', w)
    {
      Grows(h, h', w);
      assert Rows(c) <= Rows(c');
      Grows(Rows(c), Rows(c'), h * w);
      Grows(h * w, h' * w, Rows(c'));
      Swap(h * w, Rows(c'));
      Swap(h' * w, Rows(c'));
    }
  }

  lemma Grows(a: nat, b: nat, k: nat)
    requires a <= b
    ensures a * k <= b * k
  {
    MulNonNegative(b - a, k);
    assert b * k == a * k + (b - a) * k;
  }

  lemma Swap(a: nat, b: nat)
    ensures a * b == b * a
  {
  }
}
