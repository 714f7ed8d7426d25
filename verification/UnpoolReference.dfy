/**
 The reference semantics of unpooling (custom_op/example/UnPoolingOp.h): two loop nests over dense
 tensors, and its agreement with the generated tile program.
 */
module UnpoolReference {
  import opened Common
  import opened UnpoolMachine
  import opened UnpoolTile
  import opened UnpoolCodegen

  type Body = (nat, nat, nat, nat) -> int

  /** Row-major position in a tensor with `channels` channels of `h` by `w`. */
  function Index(channels: nat, h: nat, w: nat, n: nat, c: nat, y: nat, x: nat): nat {
    ((n * channels + c) * h + y) * w + x
  }

  /** Element, or 0 outside. */
  function Get(s: seq<int>, i: nat): int {
    if i < |s| then s[i] else 0
  }

  lemma IndexIsOffset(channels: nat, h: nat, w: nat, n: nat, c: nat, y: nat, x: nat)
    ensures Index(channels, h, w, n, c, y, x) == n * Volume(channels, h, w) + Inner(h, w, c, y, x)
  {
    assert (n * channels + c) * h == n * channels * h + c * h;
    assert ((n * channels + c) * h + y) * w == n * channels * h * w + c * h * w + y * w;
    Associate(c, h, w);
    Associate(n * channels, h, w);
    Associate(n, channels, h * w);
    Associate(channels, h, w);
  }

  lemma IndexBound(images: nat, channels: nat, h: nat, w: nat, n: nat, c: nat, y: nat, x: nat)
    requires n < images && c < channels && y < h && x < w
    ensures Index(channels, h, w, n, c, y, x) < images * channels * h * w
  {
    RadixBound(n, images, c, channels);
    RadixBound(n * channels + c, images * channels, y, h);
    RadixBound((n * channels + c) * h + y, images * channels * h, x, w);
  }

  lemma IndexUnique(channels: nat, h: nat, w: nat, n: nat, c: nat, y: nat, x: nat, n': nat, c': nat, y': nat, x': nat)
    requires c < channels && y < h && x < w && c' < channels && y' < h && x' < w
    requires Index(channels, h, w, n, c, y, x) == Index(channels, h, w, n', c', y', x')
    ensures n == n' && c == c' && y == y' && x == x'
  {
    RowUnique(n * channels + c, y, x, n' * channels + c', y', x', h, w);
    Radix(n, c, n', c', channels);
  }

  lemma RowUnique(a: nat, y: nat, x: nat, a': nat, y': nat, x': nat, h: nat, w: nat)
    requires y < h && x < w && y' < h && x' < w && (a * h + y) * w + x == (a' * h + y') * w + x'
    ensures a == a' && y == y' && x == x'
  {
    Radix(a * h + y, x, a' * h + y', x', w);
    Radix(a, y, a', y', h);
  }

  /** All elements below position `k` are in place. */
  ghost predicate Filled(out: seq<int>, images: nat, channels: nat, h: nat, w: nat, f: Body, k: nat) {
    && |out| == images * channels * h * w
    && forall n: nat, c: nat, y: nat, x: nat :: n < images && c < channels && y < h && x < w && Index(channels, h, w, n, c, y, x) < k ==>
         Get(out, Index(channels, h, w, n, c, y, x)) == f(n, c, y, x)
  }

  lemma FillOne(out: seq<int>, images: nat, channels: nat, h: nat, w: nat, f: Body, n: nat, c: nat, y: nat, x: nat)
    requires n < images && c < channels && y < h && x < w
    requires Filled(out, images, channels, h, w, f, Index(channels, h, w, n, c, y, x))
    ensures var i := Index(channels, h, w, n, c, y, x);
            i < |out| && Filled(out[i := f(n, c, y, x)], images, channels, h, w, f, i + 1)
  {
    IndexBound(images, channels, h, w, n, c, y, x);
    hide Index;
    var i := Index(channels, h, w, n, c, y, x);
    forall n': nat, c': nat, y': nat, x': nat | n' < images && c' < channels && y' < h && x' < w && Index(channels, h, w, n', c', y', x') < i + 1
      ensures Get(out[i := f(n, c, y, x)], Index(channels, h, w, n', c', y', x')) == f(n', c', y', x')
    {
      if Index(channels, h, w, n', c', y', x') == i {
        IndexUnique(channels, h, w, n, c, y, x, n', c', y', x');
      }
    }
  }

  lemma Carry(channels: nat, h: nat, w: nat, n: nat, c: nat, y: nat, x: nat)
    ensures Index(channels, h, w, n, c, y, x + 1) == Index(channels, h, w, n, c, y, x) + 1
    ensures Index(channels, h, w, n, c, y, w) == Index(channels, h, w, n, c, y + 1, 0)
    ensures Index(channels, h, w, n, c, h, 0) == Index(channels, h, w, n, c + 1, 0, 0)
    ensures Index(channels, h, w, n, channels, 0, 0) == Index(channels, h, w, n + 1, 0, 0, 0)
    ensures Index(channels, h, w, 0, 0, 0, 0) == 0
  {
    var m := n * channels + c;
    assert (m * h + y) * w + w == (m * h + (y + 1)) * w;
    assert m * h + h == (m + 1) * h;
    assert n * channels + channels == (n + 1) * channels;
  }

  /** A loop nest over images, channels, rows and columns with one assignment in its body. */
  method Nest(images: nat, channels: nat, h: nat, w: nat, f: Body) returns (out: seq<int>)
    ensures |out| == images * channels * h * w
    ensures forall n: nat, c: nat, y: nat, x: nat :: n < images && c < channels && y < h && x < w ==>
      Get(out, Index(channels, h, w, n, c, y, x)) == f(n, c, y, x)
  {
    hide Index, Filled;
    out := seq(images * channels * h * w, _ => 0);
    NoneFilled(out, images, channels, h, w, f);
    for n := 0 to images
      invariant Filled(out, images, channels, h, w, f, Index(channels, h, w, n, 0, 0, 0))
    {
      for c := 0 to channels
        invariant Filled(out, images, channels, h, w, f, Index(channels, h, w, n, c, 0, 0))
      {
        for y := 0 to h
          invariant Filled(out, images, channels, h, w, f, Index(channels, h, w, n, c, y, 0))
        {
          for x := 0 to w
            invariant Filled(out, images, channels, h, w, f, Index(channels, h, w, n, c, y, x))
          {
            FillOne(out, images, channels, h, w, f, n, c, y, x);
            out := out[Index(channels, h, w, n, c, y, x) := f(n, c, y, x)];
            Carry(channels, h, w, n, c, y, x);
          }
          Carry(channels, h, w, n, c, y, 0);
        }
        Carry(channels, h, w, n, c, 0, 0);
      }
      Carry(channels, h, w, n, 0, 0, 0);
    }
    AllFilled(out, images, channels, h, w, f);
  }

  lemma NoneFilled(out: seq<int>, images: nat, channels: nat, h: nat, w: nat, f: Body)
    requires |out| == images * channels * h * w
    ensures Filled(out, images, channels, h, w, f, Index(channels, h, w, 0, 0, 0, 0))
  {
    Carry(channels, h, w, 0, 0, 0, 0);
    hide Index;
  }

  lemma AllFilled(out: seq<int>, images: nat, channels: nat, h: nat, w: nat, f: Body)
    requires Filled(out, images, channels, h, w, f, Index(channels, h, w, images, 0, 0, 0))
    ensures |out| == images * channels * h * w
    ensures forall n: nat, c: nat, y: nat, x: nat :: n < images && c < channels && y < h && x < w ==>
      Get(out, Index(channels, h, w, n, c, y, x)) == f(n, c, y, x)
  {
    forall n: nat, c: nat, y: nat, x: nat | n < images && c < channels && y < h && x < w
      ensures Index(channels, h, w, n, c, y, x) < Index(channels, h, w, images, 0, 0, 0)
    {
      IndexBound(images, channels, h, w, n, c, y, x);
    }
    hide Index;
  }

  /** What unpooling means: every input element spread over a square, times the mask, cropped. */
  function Unpooled(p: Params, data: seq<int>, mask: seq<int>, n: nat, c: nat, y: nat, x: nat): int
    requires p.scale > 0
  {
    Get(data, Index(p.inputC, p.inputH, p.inputW, n, c, y / p.scale, x / p.scale))
    * Get(mask, Index(p.inputC, OutputH(p), OutputW(p), n, c, y, x))
  }

  /** UnPoolingOp::unpooling */
  method Unpooling(p: Params, data: seq<int>, mask: seq<int>) returns (output: seq<int>)
    requires p.scale > 0 && p.unpoolH <= OutputH(p) && p.unpoolW <= OutputW(p)
    ensures |output| == p.inputN * p.inputC * p.unpoolH * p.unpoolW
    ensures forall n: nat, c: nat, y: nat, x: nat :: InOutput(p, n, c, y, x) ==>
      Get(output, Index(p.inputC, p.unpoolH, p.unpoolW, n, c, y, x)) == Unpooled(p, data, mask, n, c, y, x)
  {
    hide Index;
    var sh, sw := OutputH(p), OutputW(p);
    var tmp := Nest(p.inputN, p.inputC, sh, sw, (n: nat, c: nat, y: nat, x: nat) => Unpooled(p, data, mask, n, c, y, x));
    output := Nest(p.inputN, p.inputC, p.unpoolH, p.unpoolW,
                   (n: nat, c: nat, y: nat, x: nat) => Get(tmp, Index(p.inputC, sh, sw, n, c, y, x)));
  }

  // ----- Program and reference ------------------------------------------------------------------

  /** Memory holds a dense row-major tensor at `addr`. */
  ghost predicate Stores(mem: Memory, addr: nat, images: nat, channels: nat, h: nat, w: nat, s: seq<int>) {
    forall n: nat, c: nat, y: nat, x: nat :: n < images && c < channels && y < h && x < w ==>
      mem(Global(addr + Index(channels, h, w, n, c, y, x))) == Get(s, Index(channels, h, w, n, c, y, x))
  }

  ghost predicate Int8Products(p: Params, data: seq<int>, mask: seq<int>)
    requires p.scale > 0
  {
    forall n: nat, c: nat, y: nat, x: nat :: InOutput(p, n, c, y, x) ==> -128 <= Unpooled(p, data, mask, n, c, y, x) <= 127
  }

  /** The generated program computes the reference whenever its sizes and addresses stay within 32 bits. */
  method GenerateAndCompare(layout: Layout, p: Params, data: seq<int>, mask: seq<int>)
    returns (prog: Option<seq<Instr>>, reference: seq<int>, ghost cStep: nat, ghost hStep: nat)
    requires Sound(layout) && Accepts(p) && OperandsApart(p) && Int8Products(p, data, mask)
    ensures prog.Some? ==> Chosen(layout, p, cStep, hStep) && Program(layout, p, cStep, hStep, prog.value)
    ensures LeastFits(layout, p) ==> prog.Some?
    ensures BuffersEnd(layout, AllocLmem(layout, p, p.inputC, p.inputH)) < U32 ==> (prog.Some? <==> LeastFits(layout, p))
    ensures prog.Some? && Exact(layout, p, cStep, hStep) ==> forall mem ::
      Stores(mem, p.dataAddr, p.inputN, p.inputC, p.inputH, p.inputW, data)
      && Stores(mem, p.maskAddr, p.inputN, p.inputC, OutputH(p), OutputW(p), mask) ==>
      Stores(Run(mem, prog.value), p.outputAddr, p.inputN, p.inputC, p.unpoolH, p.unpoolW, reference)
  {
    hide Placed, TotalSize;
    prog, cStep, hStep := Codegen(layout, p);
    reference := Unpooling(p, data, mask);
    if prog.Some? && Exact(layout, p, cStep, hStep) {
      forall mem | Stores(mem, p.dataAddr, p.inputN, p.inputC, p.inputH, p.inputW, data)
                   && Stores(mem, p.maskAddr, p.inputN, p.inputC, OutputH(p), OutputW(p), mask)
        ensures Stores(Run(mem, prog.value), p.outputAddr, p.inputN, p.inputC, p.unpoolH, p.unpoolW, reference)
      {
        Agree(p, prog.value, data, mask, reference, mem);
      }
    }
  }

  lemma ExpectedIsUnpooled(p: Params, data: seq<int>, mask: seq<int>, mem: Memory, n: nat, c: nat, y: nat, x: nat)
    requires Accepts(p) && InOutput(p, n, c, y, x) && -128 <= Unpooled(p, data, mask, n, c, y, x) <= 127
    requires Stores(mem, p.dataAddr, p.inputN, p.inputC, p.inputH, p.inputW, data)
    requires Stores(mem, p.maskAddr, p.inputN, p.inputC, OutputH(p), OutputW(p), mask)
    ensures Expected(mem, p, n, c, y, x) == Unpooled(p, data, mask, n, c, y, x)
  {
    hide Index, Volume, Inner;
    DivRadix(y, p.scale, p.inputH);
    DivRadix(x, p.scale, p.inputW);
    IndexIsOffset(p.inputC, p.inputH, p.inputW, n, c, y / p.scale, x / p.scale);
    IndexIsOffset(p.inputC, OutputH(p), OutputW(p), n, c, y, x);
  }

  lemma Agree(p: Params, prog: seq<Instr>, data: seq<int>, mask: seq<int>, reference: seq<int>, mem: Memory)
    requires Accepts(p) && Computes(p, prog) && Int8Products(p, data, mask)
    requires Stores(mem, p.dataAddr, p.inputN, p.inputC, p.inputH, p.inputW, data)
    requires Stores(mem, p.maskAddr, p.inputN, p.inputC, OutputH(p), OutputW(p), mask)
    requires forall n: nat, c: nat, y: nat, x: nat :: InOutput(p, n, c, y, x) ==>
      Get(reference, Index(p.inputC, p.unpoolH, p.unpoolW, n, c, y, x)) == Unpooled(p, data, mask, n, c, y, x)
    ensures Stores(Run(mem, prog), p.outputAddr, p.inputN, p.inputC, p.unpoolH, p.unpoolW, reference)
  {
    hide Index, Volume, Inner, Run, Writes, Expected, Unpooled, Get, Touches, FitsLocal, OnlyOutput;
    forall n: nat, c: nat, y: nat, x: nat | InOutput(p, n, c, y, x)
      ensures var i := Index(p.inputC, p.unpoolH, p.unpoolW, n, c, y, x); Run(mem, prog)(Global(p.outputAddr + i)) == Get(reference, i)
    {
      IndexIsOffset(p.inputC, p.unpoolH, p.unpoolW, n, c, y, x);
      ExpectedIsUnpooled(p, data, mask, mem, n, c, y, x);
    }
  }
}
