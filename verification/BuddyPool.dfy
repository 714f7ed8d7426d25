/**
 The buddy allocator as an object: the block sets are arrays of quad-blocks, the slot table records
 the live allocations. The ghost tree is the abstract state every operation keeps in step.
 */
module BuddyPool {
  import opened Common
  import opened BuddyTree
  import opened BuddyLevel

  const SLOT_NUM := 16384

  // ----- Size classes ---------------------------------------------------------------------------

  /** The deepest level, from l upwards, whose blocks hold `size` bytes. */
  function ClassFrom(size: nat, l: nat): (c: nat)
    requires l < LEVELS
    ensures c <= l
  {
    if l == 0 || size <= Size(l) then l else ClassFrom(size, l - 1)
  }

  function ClassOf(size: nat): (c: nat)
    ensures c < LEVELS
  {
    ClassFrom(size, LEVELS - 1)
  }

  /** The class of a size is the smallest block that holds it. */
  lemma {:induction false} ClassFits(size: nat, l: nat)
    requires l < LEVELS && size <= MAX_BLOCK_SIZE
    ensures var c := ClassFrom(size, l); size <= Size(c) && (c < l ==> Size(c + 1) < size)
    decreases l
  {
    SizeOfRoot();
    if l > 0 && size > Size(l) {
      ClassFits(size, l - 1);
    }
  }

  /** compute_block_set_index */
  method ComputeBlockSetIndex(dataSize: nat) returns (offset: nat)
    requires dataSize <= MAX_BLOCK_SIZE
    ensures offset == ClassOf(dataSize)
  {
    var blockSize := MIN_BLOCK_SIZE;
    offset := LEVELS - 1;
    SizeOfRoot();
    while dataSize > blockSize
      invariant offset < LEVELS && blockSize == Size(offset)
      invariant ClassOf(dataSize) == ClassFrom(dataSize, offset)
      decreases offset
    {
      blockSize := blockSize * 4;
      offset := offset - 1;
    }
  }

  // ----- Concrete and abstract state ------------------------------------------------------------

  ghost predicate LevelsRel(levels: seq<seq<Quad>>, t: Tree) {
    && Shaped(t) && |levels| == LEVELS
    && forall l: nat :: l < LEVELS ==> |levels[l]| == Entries(t.roots, l) && LevelRel(levels[l], t.quads[l], t.free[l], Size(l))
  }

  /** The level-0 quads are fixed: they are spaced, and every 1 GB block belongs to one. */
  ghost predicate RootQuads(t: Tree) {
    && Shaped(t) && 0 < t.roots && t.roots * Size(0) < INVALID
    && Spaced(t.quads[0], 4 * Size(0))
    && Roots(t.roots, Size(0)) <= Children(t.quads[0], Size(0))
  }

  ghost predicate PoolInv(levels: seq<seq<Quad>>, t: Tree) {
    TreeInv(t) && RootQuads(t) && LevelsRel(levels, t)
  }

  lemma QuadsSpaced(t: Tree, l: nat)
    requires TreeInv(t) && RootQuads(t) && l < LEVELS
    ensures Spaced(t.quads[l], 4 * Size(l))
    ensures Blocks(t, l) <= Children(t.quads[l], Size(l))
  {
    hide Spaced;
    hide Children;
    hide Roots;
    if l > 0 {
      BlocksSpaced(t, l - 1);
      assert LevelInv(t, l - 1);
      SpacedSubset(t.quads[l], Blocks(t, l - 1), Size(l - 1));
    }
  }

  lemma EntriesPositive(roots: nat, l: nat)
    requires roots > 0
    ensures Entries(roots, l) > 0
  {
  }

  /** Replacing one level and its sets keeps the other levels related. */
  lemma LevelChanged(levels: seq<seq<Quad>>, t: Tree, l: nat, qs: seq<Quad>, t': Tree)
    requires LevelsRel(levels, t) && l < LEVELS && Shaped(t') && t'.roots == t.roots && |qs| == |levels[l]|
    requires LevelRel(qs, t'.quads[l], t'.free[l], Size(l))
    requires forall k: nat :: k < LEVELS && k != l ==> t'.quads[k] == t.quads[k] && t'.free[k] == t.free[k]
    ensures LevelsRel(levels[l := qs], t')
  {
    hide LevelRel;
  }

  /** Addresses of blocks are valid addresses. */
  lemma BlockAddress(t: Tree, l: nat, x: nat)
    requires TreeInv(t) && RootQuads(t) && l < LEVELS && x in Blocks(t, l)
    ensures x + Size(l) < INVALID && x != INVALID
  {
    BlocksAligned(t, l, x);
  }

  // ----- The moves on the concrete state --------------------------------------------------------

  lemma GrabStep(levels: seq<seq<Quad>>, t: Tree, l: nat, block: nat, qs: seq<Quad>)
    requires PoolInv(levels, t) && l < LEVELS && block in t.free[l] && |qs| == |levels[l]|
    requires LevelRel(qs, t.quads[l], t.free[l] - {block}, Size(l))
    ensures PoolInv(levels[l := qs], Grab(t, l, block))
    ensures block !in t.live[l]
  {
    hide LevelRel;
    hide LevelsRel;
    hide Children;
    assert LevelInv(t, l);
    GrabKeepsInv(t, l, block);
    LevelChanged(levels, t, l, qs, Grab(t, l, block));
  }

  lemma DropStep(levels: seq<seq<Quad>>, t: Tree, l: nat, block: nat, qs: seq<Quad>)
    requires PoolInv(levels, t) && l < LEVELS && block in t.live[l] && |qs| == |levels[l]|
    requires LevelRel(qs, t.quads[l], t.free[l] + {block}, Size(l))
    ensures PoolInv(levels[l := qs], Drop(t, l, block))
  {
    hide LevelRel;
    hide LevelsRel;
    hide Children;
    DropKeepsInv(t, l, block);
    LevelChanged(levels, t, l, qs, Drop(t, l, block));
  }

  /** There is always an unused entry for a split: one quad per block of the level above fits. */
  lemma DivideStep(levels: seq<seq<Quad>>, t: Tree, l: nat, y: nat)
    requires PoolInv(levels, t) && 0 < l < LEVELS && y in t.live[l - 1]
    ensures |t.quads[l]| < |levels[l]|
    ensures PoolInv(levels[l := levels[l][|t.quads[l]| := Quad(y, {1, 2, 3})]], Divide(t, l, y, Size(l)))
  {
    hide LevelRel;
    hide Children;
    hide Spaced;
    hide Partition;
    DivideFits(t, l, y);
    BlocksCount(t, l - 1);
    DivideKeepsInv(t, l, y);
    LiveIsBlock(t, l - 1, y);
    BlockAddress(t, l - 1, y);
    AppendQuad(levels[l], t.quads[l], t.free[l], Size(l), y);
    var qs := levels[l][|t.quads[l]| := Quad(y, {1, 2, 3})];
    LevelChanged(levels, t, l, qs, Divide(t, l, y, Size(l)));
  }

  /** Reassembling entry i of level l: its parent's bit is set, the entry is replaced by the last one. */
  lemma UniteStep(levels: seq<seq<Quad>>, t: Tree, l: nat, i: nat, parent: seq<Quad>, dead: Quad)
    requires PoolInv(levels, t) && 0 < l < LEVELS && i < |t.quads[l]|
    requires |levels[l]| >= |t.quads[l]| && levels[l][i].status == FULL && dead.addr == INVALID
    requires |parent| == |levels[l - 1]|
    requires LevelRel(parent, t.quads[l - 1], t.free[l - 1] + {levels[l][i].addr}, Size(l - 1))
    ensures levels[l][i].addr in t.quads[l]
    ensures var last, q := |t.quads[l]| - 1, levels[l][i].addr;
            PoolInv(levels[l - 1 := parent][l := levels[l][i := levels[l][last]][last := dead]], Unite(t, l, q, Size(l)))
  {
    hide LevelRel;
    hide Children;
    hide Spaced;
    hide Kids;
    var q, last := levels[l][i].addr, |t.quads[l]| - 1;
    FullEntry(levels[l], t.quads[l], t.free[l], Size(l), i);
    QuadsSpaced(t, l);
    UniteKeepsInv(t, l, q);
    RemoveQuad(levels[l], t.quads[l], t.free[l], Size(l), i, dead);
    var t' := Unite(t, l, q, Size(l));
    var half := t.(free := t.free[l - 1 := t.free[l - 1] + {q}]);
    LevelChanged(levels, t, l - 1, parent, half);
    LevelChanged(levels[l - 1 := parent], half, l, levels[l][i := levels[l][last]][last := dead], t');
  }

  lemma ParentBlock(levels: seq<seq<Quad>>, t: Tree, l: nat, i: nat)
    requires PoolInv(levels, t) && 0 < l < LEVELS && i < |t.quads[l]|
    ensures i < |levels[l]| && levels[l][i].addr in Children(t.quads[l - 1], Size(l - 1))
    ensures levels[l][i].addr in t.quads[l]
  {
    hide Children;
    hide LevelRel;
    EntryAt(levels[l], t.quads[l], t.free[l], Size(l), i);
    QuadsSpaced(t, l - 1);
    assert LevelInv(t, l - 1);
  }

  /** No quad-block of level l could be reassembled. */
  ghost predicate NoFullQuad(t: Tree, l: nat)
    requires Shaped(t) && l < LEVELS
  {
    forall q :: q in t.quads[l] ==> !(Kids(q, Size(l)) <= t.free[l])
  }

  lemma NoneFull(levels: seq<seq<Quad>>, t: Tree, l: nat)
    requires LevelsRel(levels, t) && l < LEVELS
    requires forall k :: 0 <= k < |t.quads[l]| && k < |levels[l]| ==> levels[l][k].status != FULL
    ensures NoFullQuad(t, l)
  {
    var qs := levels[l];
    assert LevelRel(qs, t.quads[l], t.free[l], Size(l));
    forall q | q in t.quads[l]
      ensures !(Kids(q, Size(l)) <= t.free[l])
    {
      var k :| 0 <= k < |t.quads[l]| && qs[k].addr == q;
      FullEntry(qs, t.quads[l], t.free[l], Size(l), k);
    }
  }

  // ----- A fresh pool ---------------------------------------------------------------------------

  lemma RootsExtend(n: nat, s: nat)
    ensures Roots(n + 1, s) == Roots(n, s) + {n * s}
  {
    forall x | x in Roots(n + 1, s)
      ensures x in Roots(n, s) + {n * s}
    {
      var i := RootIndex(n + 1, s, x);
    }
  }

  lemma RootsBelow(n: nat, s: nat, x: nat)
    requires x in Roots(n, s)
    ensures x + s <= n * s
  {
    var i := RootIndex(n, s, x);
    MultiplesApart(i, n, s);
  }

  /** The first `c` children of a quad. */
  function FirstKids(y: nat, s: nat, c: nat): set<nat> {
    (if c > 0 then {y} else {}) + (if c > 1 then {y + s} else {})
    + (if c > 2 then {y + 2 * s} else {}) + (if c > 3 then {y + 3 * s} else {})
  }

  function FirstBits(c: nat): set<nat> {
    (if c > 0 then {0} else {}) + (if c > 1 then {1} else {}) + (if c > 2 then {2} else {}) + (if c > 3 then {3} else {})
  }

  lemma NextMultiples(n: nat, s: nat)
    ensures (n + 1) * s == n * s + s && (n + 2) * s == n * s + 2 * s && (n + 3) * s == n * s + 3 * s
  {
  }

  lemma RootsByQuad(t: nat, s: nat, c: nat)
    requires c <= 4
    ensures Roots(4 * t + c, s) == Roots(4 * t, s) + FirstKids(4 * t * s, s, c)
  {
    hide Roots;
    var n, y := 4 * t, 4 * t * s;
    NextMultiples(n, s);
    if c > 0 { RootsExtend(n, s); }
    if c > 1 { RootsExtend(n + 1, s); }
    if c > 2 { RootsExtend(n + 2, s); }
    if c > 3 { RootsExtend(n + 3, s); }
  }

  /** Entry t of level 0 describes 1 GB blocks 4t to 4t + c - 1. */
  lemma RootEntry(addrs: set<nat>, t: nat, s: nat, c: nat)
    requires s > 0 && c <= 4 && 4 * t * s != INVALID
    ensures var y := 4 * t * s;
            EntryOk(Quad(y, FirstBits(c)), addrs + {y}, Roots(4 * t, s) + FirstKids(y, s, c), s)
  {
    hide Roots;
    var y, free := 4 * t * s, Roots(4 * t, s);
    forall x | x in free
      ensures x < y
    {
      RootsBelow(4 * t, s, x);
    }
  }

  lemma AppendRoot(qs: seq<Quad>, t: nat, s: nat, c: nat)
    requires s > 0 && c <= 4 && 4 * t * s != INVALID
    requires LevelRel(qs, Roots(t, 4 * s), Roots(4 * t, s), s) && |Roots(t, 4 * s)| == t < |qs|
    ensures LevelRel(qs[t := Quad(4 * t * s, FirstBits(c))], Roots(t + 1, 4 * s), Roots(4 * t + c, s), s)
    ensures |Roots(t + 1, 4 * s)| == t + 1
  {
    hide LevelRel;
    hide EntryOk;
    hide Roots;
    hide FirstKids;
    hide FirstBits;
    var y, addrs := 4 * t * s, Roots(t, 4 * s);
    assert y == t * (4 * s);
    RootsExtend(t, 4 * s);
    RootsSpaced(t + 1, 4 * s);
    NotBelow(t, 4 * s);
    RootsByQuad(t, s, c);
    FirstKidsInside(y, s, c);
    RootEntry(addrs, t, s, c);
    AppendEntry(qs, addrs, Roots(4 * t, s), s, y, FirstBits(c), FirstKids(y, s, c));
  }

  lemma NotBelow(t: nat, s: nat)
    requires s > 0
    ensures t * s !in Roots(t, s)
  {
    if t * s in Roots(t, s) {
      RootsBelow(t, s, t * s);
    }
  }

  lemma FirstKidsInside(y: nat, s: nat, c: nat)
    ensures FirstKids(y, s, c) <= Kids(y, s)
  {
  }

  /** How many of the blocks 4t to 4t + 3 the pool has. */
  function GroupSize(roots: nat, t: nat): nat
    requires 4 * t < roots
  {
    if roots - 4 * t >= 4 then 4 else roots - 4 * t
  }

  /**
   _k_mem_pool_init: groups of four 1 GB blocks, the last one possibly partial. The address advances
   by a product of C ints, 2^30 * 4, which wraps to 0: every group gets address 0.
   */
  method InitRoots(roots: nat) returns (qs: seq<Quad>)
    ensures |qs| == Entries(roots, 0)
    ensures forall i: nat :: i < |qs| ==> 4 * i < roots && qs[i] == Quad(0, FirstBits(GroupSize(roots, i)))
  {
    hide FirstBits;
    FourBits();
    qs := seq((roots + 3) / 4, _ => Quad(INVALID, {}));
    var remaining, t, memptr := roots, 0, 0;
    while remaining >= 4
      invariant remaining == roots - 4 * t && t * 4 <= roots && memptr == 0
      invariant |qs| == (roots + 3) / 4
      invariant forall i: nat :: i < t ==> qs[i] == Quad(0, FirstBits(4))
    {
      qs := qs[t := Quad(memptr, {0, 1, 2, 3})];
      t, remaining := t + 1, remaining - 4;
      memptr := memptr + Wrap(MAX_BLOCK_SIZE * 4);
    }
    if remaining != 0 {
      qs := qs[t := Quad(memptr, FirstBits(remaining))];
    }
  }

  lemma {:induction false} RootsExactly(n: nat, s: nat)
    requires s > 0
    ensures |Roots(n, s)| == n
  {
    if n == 0 {
      assert Roots(0, s) == {};
    } else {
      RootsExactly(n - 1, s);
      RootsExtend(n - 1, s);
      NotBelow(n - 1, s);
    }
  }

  /** The array describes the pool's 1 GB blocks exactly when they are at most four. */
  lemma RootsDescribed(roots: nat, qs: seq<Quad>)
    requires 0 < roots && |qs| == Entries(roots, 0)
    requires forall i: nat :: i < |qs| ==> 4 * i < roots && qs[i] == Quad(0, FirstBits(GroupSize(roots, i)))
    ensures LevelRel(qs, Roots(Entries(roots, 0), 4 * Size(0)), Roots(roots, Size(0)), Size(0)) <==> roots <= 4
  {
    hide Roots;
    hide FirstBits;
    SizeOfRoot();
    RootsExactly(Entries(roots, 0), 4 * MAX_BLOCK_SIZE);
    if roots <= 4 {
      hide LevelRel;
      var blank := [Quad(INVALID, {})];
      EmptyLevel(blank, MAX_BLOCK_SIZE);
      AppendRoot(blank, 0, MAX_BLOCK_SIZE, roots);
      assert qs == blank[0 := Quad(0, FirstBits(roots))];
    } else {
      assert qs[0].addr == qs[1].addr;
    }
  }

  /**
   In every larger pool the first five requests for 1 GB, each served by the scan of level 0, get
   0, 1 GB, 2 GB, 3 GB and then 0 again: two live blocks are the same memory.
   */
  method FiveLargestRequests(roots: nat) returns (addrs: seq<nat>)
    requires roots > 4
    ensures addrs == [0, MAX_BLOCK_SIZE, 2 * MAX_BLOCK_SIZE, 3 * MAX_BLOCK_SIZE, 0]
  {
    var qs := InitRoots(roots);
    FourBits();
    var g := MAX_BLOCK_SIZE;
    assert qs[0] == Quad(0, {0, 1, 2, 3}) && qs[1].addr == 0 && 0 in qs[1].status;
    ghost var second := qs[1];
    var found, block, i, next;
    found, block, i, next := ScanLevel(qs, g);
    assert next[1] == second && next[0] == Quad(0, {1, 2, 3}) && block == 0;
    addrs, qs := [block], next;
    found, block, i, next := ScanLevel(qs, g);
    assert next[1] == second && next[0] == Quad(0, {2, 3}) && block == g;
    addrs, qs := addrs + [block], next;
    found, block, i, next := ScanLevel(qs, g);
    assert next[1] == second && next[0] == Quad(0, {3}) && block == 2 * g;
    addrs, qs := addrs + [block], next;
    found, block, i, next := ScanLevel(qs, g);
    assert next[1] == second && next[0] == Quad(0, {}) && block == 3 * g;
    addrs, qs := addrs + [block], next;
    found, block, i, next := ScanLevel(qs, g);
    assert i == 1 && block == 0;
    addrs := addrs + [block];
  }

  lemma FourBits()
    ensures FirstBits(4) == {0, 1, 2, 3}
  {
  }

  /** _k_mem_pool_init_pre and _k_mem_pool_init: all block sets, only the first one owning memory. */
  method InitLevels(roots: nat) returns (levels: seq<seq<Quad>>)
    requires 0 < roots
    ensures PoolInv(levels, FreshTree(roots)) <==> roots <= 4
  {
    hide LevelRel;
    hide PoolInv;
    hide FreshTree;
    hide Roots;
    var top := InitRoots(roots);
    RootsDescribed(roots, top);
    levels := AddLevels(roots, top);
    if roots <= 4 {
      SizeOfRoot();
      FreshInv(levels, roots);
    } else {
      FreshTop(levels, roots);
    }
  }

  /** The smaller block sets: four times the entries on each level, all unused. */
  method AddLevels(roots: nat, top: seq<Quad>) returns (levels: seq<seq<Quad>>)
    ensures |levels| == LEVELS && levels[0] == top
    ensures forall l: nat :: 0 < l < LEVELS ==>
      |levels[l]| == Entries(roots, l) && forall i :: 0 <= i < |levels[l]| ==> levels[l][i].addr == INVALID
  {
    levels := [top];
    var nrOfEntries := 4 * ((roots + 3) / 4);
    var blockSize := MAX_BLOCK_SIZE / 4;
    SizeOfRoot();
    while blockSize >= MIN_BLOCK_SIZE
      invariant 1 <= |levels| <= LEVELS
      invariant levels[0] == top
      invariant |levels| < LEVELS ==> blockSize == Size(|levels|) && nrOfEntries == Entries(roots, |levels|)
      invariant |levels| == LEVELS ==> blockSize < MIN_BLOCK_SIZE
      invariant forall l: nat :: 0 < l < |levels| ==>
                  |levels[l]| == Entries(roots, l) && forall i :: 0 <= i < |levels[l]| ==> levels[l][i].addr == INVALID
      decreases LEVELS - |levels|
    {
      levels := levels + [seq(nrOfEntries, _ => Quad(INVALID, {}))];
      blockSize := blockSize / 4;
      nrOfEntries := nrOfEntries * 4;
    }
  }

  /** What the invariant says about level 0 of a fresh pool. */
  lemma FreshTop(levels: seq<seq<Quad>>, roots: nat)
    requires 0 < roots && |levels| == LEVELS
    ensures PoolInv(levels, FreshTree(roots)) ==>
      LevelRel(levels[0], Roots(Entries(roots, 0), 4 * Size(0)), Roots(roots, Size(0)), Size(0))
  {
    hide LevelRel;
    hide Roots;
    hide TreeInv;
  }

  lemma EmptyLevel(qs: seq<Quad>, s: nat)
    requires forall i :: 0 <= i < |qs| ==> qs[i].addr == INVALID
    ensures LevelRel(qs, Roots(0, 4 * s), Roots(0, s), s) && |Roots(0, 4 * s)| == 0
    ensures LevelRel(qs, {}, {}, s)
  {
    assert Roots(0, 4 * s) == {} && Roots(0, s) == {};
  }

  ghost function FreshTree(roots: nat): Tree {
    Tree(roots, seq(LEVELS, l => if l == 0 then Roots(Entries(roots, 0), 4 * Size(0)) else {}),
         seq(LEVELS, l => if l == 0 then Roots(roots, Size(0)) else {}),
         seq(LEVELS, l => {}))
  }

  /** All of the fresh pool is free, in 1 GB blocks. */
  lemma FreshInv(levels: seq<seq<Quad>>, roots: nat)
    requires 0 < roots && roots * Size(0) < INVALID
    requires |levels| == LEVELS
    requires forall l: nat :: 0 < l < LEVELS ==>
               |levels[l]| == Entries(roots, l) && forall i :: 0 <= i < |levels[l]| ==> levels[l][i].addr == INVALID
    requires |levels[0]| == Entries(roots, 0)
    requires LevelRel(levels[0], Roots(Entries(roots, 0), 4 * Size(0)), Roots(roots, Size(0)), Size(0))
    ensures PoolInv(levels, FreshTree(roots))
  {
    hide LevelRel;
    hide Roots;
    hide Children;
    var t := FreshTree(roots);
    forall l: nat | l < LEVELS
      ensures LevelInv(t, l)
    {
      if l > 0 { NoChildren(Size(l)); }
    }
    forall l: nat | l < LEVELS
      ensures |levels[l]| == Entries(t.roots, l) && LevelRel(levels[l], t.quads[l], t.free[l], Size(l))
    {
      if l > 0 { EmptyLevel(levels[l], Size(l)); }
    }
    RootsSpaced(Entries(roots, 0), 4 * Size(0));
    FreeAreChildren(levels[0], t.quads[0], t.free[0], Size(0));
  }

  lemma NoChildren(s: nat)
    ensures Children({}, s) == {}
  {
  }

  lemma FreeAreChildren(qs: seq<Quad>, addrs: set<nat>, free: set<nat>, s: nat)
    requires LevelRel(qs, addrs, free, s)
    ensures free <= Children(addrs, s)
  {
  }
}
