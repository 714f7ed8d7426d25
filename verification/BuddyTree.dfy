/**
 The state of the 4-ary buddy allocator (MEM_POOL_ZEPHRE, src/common/mmpool.cpp) as a tree: level 0
 has the 1 GB blocks, a split block has four children on the next level. Per level there is the set
 of split blocks of the level above (its quad-blocks), of free blocks and of live allocations.
 */
module BuddyTree {

  const LEVELS := 10
  const MIN_BLOCK_SIZE := 4096
  const MAX_BLOCK_SIZE := 0x4000_0000

  /** Block size of level l: four times that of the level below. */
  function Size(l: nat): (s: nat)
    requires l < LEVELS
    ensures s > 0
    decreases LEVELS - l
  {
    if l == LEVELS - 1 then MIN_BLOCK_SIZE else 4 * Size(l + 1)
  }

  lemma SizeOfRoot()
    ensures Size(0) == MAX_BLOCK_SIZE
  {
    assert Size(8) == 16384 && Size(6) == 262144 && Size(4) == 4194304 && Size(2) == 67108864;
  }

  // ----- Blocks and their children --------------------------------------------------------------

  function Kids(x: nat, s: nat): set<nat> {
    {x, x + s, x + 2 * s, x + 3 * s}
  }

  function Children(quads: set<nat>, s: nat): set<nat> {
    set x, c | x in quads && c in Kids(x, s) :: c
  }

  function Roots(n: nat, s: nat): set<nat> {
    set i | 0 <= i < n :: i * s
  }

  /** Blocks of size `s` at these addresses do not overlap. */
  ghost predicate Spaced(blocks: set<nat>, s: nat) {
    forall x, y :: x in blocks && y in blocks && x != y ==> x + s <= y || y + s <= x
  }

  lemma MultiplesApart(i: nat, j: nat, s: nat)
    requires i < j
    ensures i * s + s <= j * s
  {
    assert j * s == i * s + (j - i) * s;
    assert (j - i) * s == s + (j - i - 1) * s;
  }

  lemma RootsSpaced(n: nat, s: nat)
    ensures Spaced(Roots(n, s), s)
  {
    forall x, y | x in Roots(n, s) && y in Roots(n, s) && x != y
      ensures x + s <= y || y + s <= x
    {
      var i: nat := RootIndex(n, s, x);
      var j: nat := RootIndex(n, s, y);
      if i < j {
        MultiplesApart(i, j, s);
      } else if j < i {
        MultiplesApart(j, i, s);
      }
    }
  }

  lemma RootIndex(n: nat, s: nat, x: nat) returns (i: nat)
    requires x in Roots(n, s)
    ensures i < n && x == i * s
  {
    i :| 0 <= i < n && x == i * s;
  }

  /** The quad a child belongs to. */
  lemma FindParent(quads: set<nat>, s: nat, c: nat) returns (x: nat)
    requires c in Children(quads, s)
    ensures x in quads && c in Kids(x, s)
  {
    x :| x in quads && c in Kids(x, s);
  }

  lemma KidsApart(x: nat, y: nat, c: nat, d: nat, s: nat)
    requires c in Kids(x, s) && d in Kids(y, s)
    requires x == y || x + 4 * s <= y || y + 4 * s <= x
    ensures c == d || c + s <= d || d + s <= c
    ensures s > 0 && c == d ==> x == y
  {
    var s2, s3 := s + s, s + s + s;
    assert c == x || c == x + s || c == x + s2 || c == x + s3;
    assert d == y || d == y + s || d == y + s2 || d == y + s3;
  }

  lemma ChildrenSpaced(quads: set<nat>, s: nat)
    requires Spaced(quads, 4 * s)
    ensures Spaced(Children(quads, s), s)
  {
    hide Kids;
    hide Children;
    forall c, d | c in Children(quads, s) && d in Children(quads, s) && c != d
      ensures c + s <= d || d + s <= c
    {
      var x := FindParent(quads, s, c);
      var y := FindParent(quads, s, d);
      KidsApart(x, y, c, d, s);
    }
  }

  lemma ChildrenOf(quads: set<nat>, s: nat, c: nat)
    ensures c in Children(quads, s) <==> exists x :: x in quads && c in Kids(x, s)
  {
  }

  /** Adding a quad adds exactly its four children. */
  lemma AddQuad(quads: set<nat>, y: nat, s: nat)
    requires s > 0 && y !in quads && Spaced(quads + {y}, 4 * s)
    ensures Children(quads + {y}, s) == Children(quads, s) + Kids(y, s)
    ensures Children(quads, s) !! Kids(y, s)
  {
    hide Kids;
    hide Children;
    var more := quads + {y};
    forall c: nat
      ensures c in Children(more, s) <==> c in Children(quads, s) + Kids(y, s)
      ensures c in Children(quads, s) ==> c !in Kids(y, s)
    {
      ChildrenOf(quads, s, c);
      ChildrenOf(more, s, c);
      if c in Children(quads, s) && c in Kids(y, s) {
        var x := FindParent(quads, s, c);
        assert x in more && y in more;
        KidsApart(x, y, c, c, s);
      }
    }
  }

  // ----- The tree -------------------------------------------------------------------------------

  /** quads[l]: split blocks of level l - 1 (for l = 0 unused); free[l], live[l]: blocks of level l. */
  datatype Tree = Tree(roots: nat, quads: seq<set<nat>>, free: seq<set<nat>>, live: seq<set<nat>>)

  ghost predicate Shaped(t: Tree) {
    |t.quads| == |t.free| == |t.live| == LEVELS
  }

  /** The blocks that exist on level l. */
  ghost function Blocks(t: Tree, l: nat): set<nat>
    requires Shaped(t) && l < LEVELS
  {
    if l == 0 then Roots(t.roots, Size(0)) else Children(t.quads[l], Size(l))
  }

  /** The blocks of level l that are split. */
  ghost function Splits(t: Tree, l: nat): set<nat>
    requires Shaped(t) && l < LEVELS
  {
    if l + 1 < LEVELS then t.quads[l + 1] else {}
  }

  /** Each existing block is exactly one of free, split and live. */
  ghost predicate Partition(blocks: set<nat>, free: set<nat>, splits: set<nat>, live: set<nat>) {
    blocks == free + splits + live && free !! splits && free !! live && splits !! live
  }

  ghost predicate LevelInv(t: Tree, l: nat)
    requires Shaped(t) && l < LEVELS
  {
    Partition(Blocks(t, l), t.free[l], Splits(t, l), t.live[l])
  }

  ghost predicate TreeInv(t: Tree) {
    Shaped(t) && forall l: nat :: l < LEVELS ==> LevelInv(t, l)
  }

  lemma {:induction false} BlocksSpaced(t: Tree, l: nat)
    requires TreeInv(t) && l < LEVELS
    ensures Spaced(Blocks(t, l), Size(l))
    decreases l
  {
    hide Children;
    hide Spaced;
    hide Roots;
    if l == 0 {
      RootsSpaced(t.roots, Size(0));
    } else {
      BlocksSpaced(t, l - 1);
      assert LevelInv(t, l - 1);
      SpacedSubset(t.quads[l], Blocks(t, l - 1), Size(l - 1));
      ChildrenSpaced(t.quads[l], Size(l));
    }
  }

  // ----- The four moves -------------------------------------------------------------------------

  /** A free block becomes live. */
  function Grab(t: Tree, l: nat, x: nat): Tree
    requires l < |t.free| && l < |t.live|
  {
    t.(free := t.free[l := t.free[l] - {x}], live := t.live[l := t.live[l] + {x}])
  }

  /** A live block becomes free. */
  function Drop(t: Tree, l: nat, x: nat): Tree
    requires l < |t.free| && l < |t.live|
  {
    t.(free := t.free[l := t.free[l] + {x}], live := t.live[l := t.live[l] - {x}])
  }

  /** A live block of level l - 1 is split; its first child is live, the others are free. */
  function Divide(t: Tree, l: nat, y: nat, s: nat): Tree
    requires 0 < l < |t.quads| && l < |t.free| && l < |t.live|
  {
    Tree(t.roots, t.quads[l := t.quads[l] + {y}], t.free[l := t.free[l] + {y + s, y + 2 * s, y + 3 * s}],
         t.live[l - 1 := t.live[l - 1] - {y}][l := t.live[l] + {y}])
  }

  /** Four free children are removed; their parent on level l - 1 is free. */
  function Unite(t: Tree, l: nat, q: nat, s: nat): Tree
    requires 0 < l < |t.quads| && l < |t.free|
  {
    t.(quads := t.quads[l := t.quads[l] - {q}],
       free := t.free[l := t.free[l] - Kids(q, s)][l - 1 := t.free[l - 1] + {q}])
  }

  lemma GrabKeepsInv(t: Tree, l: nat, x: nat)
    requires TreeInv(t) && l < LEVELS && x in t.free[l]
    ensures TreeInv(Grab(t, l, x))
  {
    var t' := Grab(t, l, x);
    forall k: nat | k < LEVELS
      ensures LevelInv(t', k)
    {
      assert LevelInv(t, k);
      assert Blocks(t', k) == Blocks(t, k) && Splits(t', k) == Splits(t, k);
    }
  }

  lemma DropKeepsInv(t: Tree, l: nat, x: nat)
    requires TreeInv(t) && l < LEVELS && x in t.live[l]
    ensures TreeInv(Drop(t, l, x))
  {
    var t' := Drop(t, l, x);
    forall k: nat | k < LEVELS
      ensures LevelInv(t', k)
    {
      assert LevelInv(t, k);
      assert Blocks(t', k) == Blocks(t, k) && Splits(t', k) == Splits(t, k);
    }
  }

  lemma SubsetCount(a: set<nat>, b: set<nat>)
    requires a <= b
    ensures |a| <= |b|
  {
    assert b == a + (b - a);
  }

  lemma SpacedSubset(a: set<nat>, b: set<nat>, s: nat)
    requires a <= b && Spaced(b, s)
    ensures Spaced(a, s)
  {
  }

  /** A live block is not split, and splitting it still leaves one quad per block of the level above. */
  lemma DivideFits(t: Tree, l: nat, y: nat)
    requires TreeInv(t) && 0 < l < LEVELS && y in t.live[l - 1]
    ensures y !in t.quads[l] && |t.quads[l]| + 1 <= |Blocks(t, l - 1)|
    ensures Spaced(t.quads[l] + {y}, 4 * Size(l))
    ensures Partition(Blocks(t, l - 1), t.free[l - 1], t.quads[l] + {y}, t.live[l - 1] - {y})
  {
    hide Blocks;
    hide Spaced;
    hide Partition;
    assert LevelInv(t, l - 1);
    var blocks := Blocks(t, l - 1);
    MovePartition(blocks, t.free[l - 1], t.quads[l], t.live[l - 1], y);
    SubsetCount(t.quads[l] + {y}, blocks);
    BlocksSpaced(t, l - 1);
    SpacedSubset(t.quads[l] + {y}, blocks, 4 * Size(l));
  }

  lemma DivideKeepsInv(t: Tree, l: nat, y: nat)
    requires TreeInv(t) && 0 < l < LEVELS && y in t.live[l - 1]
    ensures TreeInv(Divide(t, l, y, Size(l)))
  {
    hide Children;
    hide Spaced;
    hide Kids;
    hide Partition;
    hide Divide;
    var s := Size(l);
    assert LevelInv(t, l);
    DivideFits(t, l, y);
    AddQuad(t.quads[l], y, s);
    DividePartition(Blocks(t, l), Children(t.quads[l] + {y}, s), t.free[l], Splits(t, l), t.live[l], y, s);
    DivideLevels(t, l, y, s);
  }

  lemma MovePartition(blocks: set<nat>, free: set<nat>, splits: set<nat>, live: set<nat>, y: nat)
    requires Partition(blocks, free, splits, live) && y in live
    ensures Partition(blocks, free, splits + {y}, live - {y})
    ensures y !in splits && splits + {y} <= blocks
  {
  }

  /** Both levels a division changes are partitioned again. */
  ghost predicate Divided(t: Tree, l: nat, y: nat, s: nat)
    requires Shaped(t) && 0 < l < LEVELS
  {
    && Partition(Children(t.quads[l] + {y}, s), t.free[l] + {y + s, y + 2 * s, y + 3 * s}, Splits(t, l), t.live[l] + {y})
    && Partition(Blocks(t, l - 1), t.free[l - 1], t.quads[l] + {y}, t.live[l - 1] - {y})
  }

  lemma DivideLevels(t: Tree, l: nat, y: nat, s: nat)
    requires TreeInv(t) && 0 < l < LEVELS && s == Size(l) && Divided(t, l, y, s)
    ensures TreeInv(Divide(t, l, y, s))
  {
    hide Children;
    hide Kids;
    hide Roots;
    hide Partition;
    var t' := Divide(t, l, y, s);
    forall k: nat | k < LEVELS
      ensures LevelInv(t', k)
    {
      assert LevelInv(t, k);
    }
  }

  lemma DividePartition(blocks: set<nat>, more: set<nat>, free: set<nat>, splits: set<nat>, live: set<nat>, y: nat, s: nat)
    requires s > 0 && Partition(blocks, free, splits, live) && blocks !! Kids(y, s)
    requires more == blocks + Kids(y, s)
    ensures Partition(more, free + {y + s, y + 2 * s, y + 3 * s}, splits, live + {y})
  {
    var k1, k2, k3 := y + s, y + 2 * s, y + 3 * s;
    assert Kids(y, s) == {y, k1, k2, k3};
    assert y != k1 && y != k2 && y != k3;
  }

  lemma UniteKeepsInv(t: Tree, l: nat, q: nat)
    requires TreeInv(t) && 0 < l < LEVELS && q in t.quads[l] && Kids(q, Size(l)) <= t.free[l]
    ensures TreeInv(Unite(t, l, q, Size(l)))
    ensures q in Blocks(t, l - 1) && q !in t.free[l - 1]
  {
    hide Children;
    hide Spaced;
    hide Kids;
    var s := Size(l);
    var t' := Unite(t, l, q, s);
    assert LevelInv(t, l - 1) && LevelInv(t, l);
    BlocksSpaced(t, l - 1);
    var rest := t.quads[l] - {q};
    assert rest + {q} == t.quads[l];
    SpacedSubset(t.quads[l], Blocks(t, l - 1), 4 * s);
    AddQuad(rest, q, s);
    assert Children(rest, s) == Blocks(t, l) - Kids(q, s);
    forall k: nat | k < LEVELS
      ensures LevelInv(t', k)
    {
      assert LevelInv(t, k);
    }
  }

  // ----- Live blocks never overlap --------------------------------------------------------------

  lemma KidInside(q: nat, c: nat, s: nat)
    requires c in Kids(q, s)
    ensures q <= c && c + s <= q + 4 * s
  {
  }

  /** The block of level l that contains a block of a deeper level is split. */
  lemma {:induction false} Ancestor(t: Tree, l: nat, m: nat, b: nat) returns (c: nat)
    requires TreeInv(t) && l < m < LEVELS && b in Blocks(t, m)
    ensures c in t.quads[l + 1] && c in Blocks(t, l) && c <= b && b + Size(m) <= c + Size(l)
    decreases m
  {
    hide Children;
    hide Kids;
    var q := FindParent(t.quads[m], Size(m), b);
    KidInside(q, b, Size(m));
    assert LevelInv(t, m - 1);
    if l == m - 1 {
      c := q;
    } else {
      c := Ancestor(t, l, m - 1, q);
      assert LevelInv(t, l);
    }
  }

  lemma LiveIsBlock(t: Tree, l: nat, a: nat)
    requires TreeInv(t) && l < LEVELS && a in t.live[l]
    ensures a in Blocks(t, l) && a !in Splits(t, l)
  {
    assert LevelInv(t, l);
  }

  /** Two live blocks, of whatever levels, do not overlap. */
  lemma LiveApart(t: Tree, l: nat, a: nat, m: nat, b: nat)
    requires TreeInv(t) && l <= m < LEVELS && a in t.live[l] && b in t.live[m]
    requires l != m || a != b
    ensures a + Size(l) <= b || b + Size(m) <= a
  {
    hide Children;
    hide TreeInv;
    LiveIsBlock(t, l, a);
    LiveIsBlock(t, m, b);
    BlocksSpaced(t, l);
    if l < m {
      var c := Ancestor(t, l, m, b);
    }
  }

  // ----- Counting -------------------------------------------------------------------------------

  /** nr_of_entries of level l. */
  function Entries(roots: nat, l: nat): nat {
    if l == 0 then (roots + 3) / 4 else 4 * Entries(roots, l - 1)
  }

  lemma {:induction false} ChildrenCount(quads: set<nat>, s: nat)
    ensures |Children(quads, s)| <= 4 * |quads|
    decreases |quads|
  {
    if quads == {} {
      assert Children(quads, s) == {};
    } else {
      var q :| q in quads;
      var rest := quads - {q};
      ChildrenCount(rest, s);
      UnionCount(Children(rest, s), Kids(q, s));
      KidsCount(q, s);
      assert Children(quads, s) <= Children(rest, s) + Kids(q, s) by {
        forall c | c in Children(quads, s)
          ensures c in Children(rest, s) + Kids(q, s)
        {
          var x := FindParent(quads, s, c);
          if x != q { ChildrenOf(rest, s, c); }
        }
      }
      SubsetCount(Children(quads, s), Children(rest, s) + Kids(q, s));
    }
  }

  lemma KidsCount(q: nat, s: nat)
    ensures |Kids(q, s)| <= 4
  {
    SubsetCount({q}, Kids(q, s));
    UnionCount({q}, {q + s});
    UnionCount({q} + {q + s}, {q + 2 * s});
    UnionCount({q} + {q + s} + {q + 2 * s}, {q + 3 * s});
    assert Kids(q, s) == {q} + {q + s} + {q + 2 * s} + {q + 3 * s};
  }

  lemma UnionCount(a: set<nat>, b: set<nat>)
    ensures |a + b| <= |a| + |b|
  {
    assert a + b == a + (b - a);
    SubsetCount(b - a, b);
  }

  lemma {:induction false} RootsCount(n: nat, s: nat)
    ensures |Roots(n, s)| <= n
    decreases n
  {
    if n > 0 {
      RootsCount(n - 1, s);
      UnionCount(Roots(n - 1, s), {(n - 1) * s});
      assert Roots(n, s) <= Roots(n - 1, s) + {(n - 1) * s} by {
        forall x | x in Roots(n, s)
          ensures x in Roots(n - 1, s) + {(n - 1) * s}
        {
          var i := RootIndex(n, s, x);
        }
      }
      SubsetCount(Roots(n, s), Roots(n - 1, s) + {(n - 1) * s});
    } else {
      assert Roots(n, s) == {};
    }
  }

  /** No level has more blocks than its quad-block array has room for. */
  lemma {:induction false} BlocksCount(t: Tree, l: nat)
    requires TreeInv(t) && l < LEVELS
    ensures |Blocks(t, l)| <= 4 * Entries(t.roots, l)
    decreases l
  {
    hide Children;
    hide Roots;
    if l == 0 {
      RootsCount(t.roots, Size(0));
    } else {
      BlocksCount(t, l - 1);
      assert LevelInv(t, l - 1);
      SubsetCount(t.quads[l], Blocks(t, l - 1));
      ChildrenCount(t.quads[l], Size(l));
    }
  }

  // ----- Completeness ---------------------------------------------------------------------------

  lemma Reassociate(i: nat, b: nat, n: nat)
    ensures i * (b * n) == i * b * n
  {
  }

  lemma FourTimes(b: nat, n: nat)
    ensures 4 * (b * n) == 4 * b * n
  {
  }

  lemma {:induction false} SizeMultiple(l: nat, s: nat) returns (b: nat)
    requires l <= s < LEVELS
    ensures b > 0 && Size(l) == b * Size(s)
    decreases s - l
  {
    if l == s {
      b := 1;
    } else {
      var b' := SizeMultiple(l + 1, s);
      b := 4 * b';
      FourTimes(b', Size(s));
    }
  }

  /** An aligned block position of level l inside the pool. */
  ghost predicate Aligned(t: Tree, l: nat, x: nat)
    requires l < LEVELS
  {
    (exists k: nat :: x == k * Size(l)) && x + Size(l) <= t.roots * Size(0)
  }

  /** Some live block meets [x, x + n). */
  ghost predicate Meets(t: Tree, x: nat, n: nat)
    requires Shaped(t)
  {
    exists l: nat, a: nat :: l < LEVELS && a in t.live[l] && a < x + n && x < a + Size(l)
  }

  /** Nothing free up to level s, and no quad below it that could be reassembled. */
  ghost predicate Exhausted(t: Tree, s: nat)
    requires Shaped(t)
  {
    && (forall l: nat :: l <= s && l < LEVELS ==> t.free[l] == {})
    && (forall l: nat, q: nat :: s < l < LEVELS && q in t.quads[l] ==> !(Kids(q, Size(l)) <= t.free[l]))
  }

  lemma MeetsBy(t: Tree, l: nat, a: nat, x: nat, n: nat)
    requires Shaped(t) && l < LEVELS && a in t.live[l] && a < x + n && x < a + Size(l)
    ensures Meets(t, x, n)
  {
  }

  /** After defragmentation a split block has a live one below it. */
  lemma {:induction false} SplitHasLive(t: Tree, s: nat, l: nat, q: nat)
    requires TreeInv(t) && s < l < LEVELS && Exhausted(t, s) && q in t.quads[l]
    ensures Meets(t, q, Size(l - 1))
    decreases LEVELS - l
  {
    hide Children;
    hide Meets;
    var k :| k in Kids(q, Size(l)) && k !in t.free[l];
    KidInside(q, k, Size(l));
    ChildrenOf(t.quads[l], Size(l), k);
    assert LevelInv(t, l);
    if k in t.live[l] {
      MeetsBy(t, l, k, q, Size(l - 1));
    } else {
      SplitHasLive(t, s, l + 1, k);
      MeetsWider(t, k, Size(l), q, Size(l - 1));
    }
  }

  lemma MeetsWider(t: Tree, x: nat, n: nat, y: nat, m: nat)
    requires Shaped(t) && Meets(t, x, n) && y <= x && x + n <= y + m
    ensures Meets(t, y, m)
  {
    var l: nat, a: nat :| l < LEVELS && a in t.live[l] && a < x + n && x < a + Size(l);
    assert a < y + m && y < a + Size(l);
  }

  /** The child of a block that contains an aligned position. */
  lemma KidContaining(c: nat, s: nat, x: nat, n: nat, d: nat, a: nat, b: nat) returns (k: nat, e: nat)
    requires c == d * n && x == a * n && s == b * n && n > 0
    requires c <= x && x + n <= c + 4 * s
    ensures k in Kids(c, s) && k <= x && x + n <= k + s && k == e * n
  {
    WithinFour(a, d, b, n);
    var r := a - d;
    var j := if r < b then 0 else if r < 2 * b then 1 else if r < 3 * b then 2 else 3;
    KidBounds(j, r, b);
    k, e := InKid(j, r, b, n, c, s, x, d);
    KidNumber(c, j, s);
  }

  lemma WithinFour(a: nat, d: nat, b: nat, n: nat)
    requires n > 0 && d * n <= a * n && a * n + n <= d * n + 4 * (b * n)
    ensures 0 <= a - d < 4 * b
    ensures a * n == d * n + (a - d) * n
  {
    assert a * n == d * n + (a - d) * n;
    assert (4 * b) * n == 4 * (b * n);
    Sum(a, 1, n);
    if a < d {
      Scale(a + 1, d, n);
    }
    if a - d >= 4 * b {
      Scale(4 * b, a - d, n);
    }
  }

  lemma KidBounds(j: nat, r: nat, b: nat)
    requires r < 4 * b && j == if r < b then 0 else if r < 2 * b then 1 else if r < 3 * b then 2 else 3
    ensures j * b <= r < j * b + b
  {
  }

  lemma KidNumber(a: nat, bit: nat, s: nat)
    requires bit < 4
    ensures a + bit * s in Kids(a, s)
  {
    if bit == 0 { assert bit * s == 0; }
    else if bit == 1 { assert bit * s == s; }
    else if bit == 2 { assert bit * s == 2 * s; }
    else { assert bit == 3 && bit * s == 3 * s; }
  }

  lemma InKid(j: nat, r: int, b: nat, n: nat, c: nat, s: nat, x: nat, d: nat) returns (k: nat, e: nat)
    requires j * b <= r < j * b + b && x == c + r * n && s == b * n && c == d * n
    ensures k == c + j * s && e * n == k && k <= x && x + n <= k + s
  {
    k, e := c + j * s, d + j * b;
    Times(j, b, n);
    Scale(j * b, r, n);
    Scale(r + 1, j * b + b, n);
    Sum(r, 1, n);
    Sum(j * b, b, n);
    Sum(d, j * b, n);
  }

  lemma Times(j: nat, b: nat, n: nat)
    ensures j * (b * n) == j * b * n
  {
  }

  lemma Sum(a: int, b: int, n: nat)
    ensures (a + b) * n == a * n + b * n
  {
  }

  lemma Scale(i: int, j: int, n: nat)
    requires i <= j
    ensures i * n <= j * n
  {
    assert (j - i) * n >= 0;
  }

  /** Descending from a block towards an aligned position always ends at a live block. */
  lemma {:induction false} DescendToLive(t: Tree, s: nat, l: nat, c: nat, d: nat, x: nat, a: nat)
    requires TreeInv(t) && l <= s < LEVELS && Exhausted(t, s)
    requires c in Blocks(t, l) && c == d * Size(s) && x == a * Size(s)
    requires c <= x && x + Size(s) <= c + Size(l)
    ensures Meets(t, x, Size(s))
    decreases s - l
  {
    hide Children;
    hide Meets;
    hide Kids;
    assert LevelInv(t, l);
    assert t.free[l] == {};
    if c in t.live[l] {
      MeetsBy(t, l, c, x, Size(s));
    } else if l == s {
      SplitHasLive(t, s, l + 1, c);
    } else {
      var b := SizeMultiple(l + 1, s);
      var k, e := KidContaining(c, Size(l + 1), x, Size(s), d, a, b);
      ChildrenOf(t.quads[l + 1], Size(l + 1), k);
      DescendToLive(t, s, l + 1, k, e, x, a);
    }
  }

  /** Once a level is exhausted, every aligned position of that level meets a live block. */
  lemma ExhaustedBlocks(t: Tree, s: nat, x: nat)
    requires TreeInv(t) && s < LEVELS && Exhausted(t, s) && Aligned(t, s, x)
    ensures Meets(t, x, Size(s))
  {
    hide Meets;
    hide TreeInv;
    hide Exhausted;
    var a: nat :| x == a * Size(s);
    var b := SizeMultiple(0, s);
    var i := RootContaining(x, a, b, Size(s), t.roots, Size(0));
    assert i * Size(0) in Roots(t.roots, Size(0));
    assert i * Size(0) == i * b * Size(s) by { Reassociate(i, b, Size(s)); }
    DescendToLive(t, s, 0, i * Size(0), i * b, x, a);
  }

  lemma RootContaining(x: nat, a: nat, b: nat, n: nat, roots: nat, size: nat) returns (i: nat)
    requires x == a * n && size == b * n && n > 0 && b > 0 && x + n <= roots * size
    ensures i < roots && i * size <= x && x + n <= i * size + size
  {
    i := a / b;
    assert a == b * (a / b) + a % b;
    Times(i, b, n);
    Scale(i * b, a, n);
    Scale(a + 1, i * b + b, n);
    Sum(a, 1, n);
    Sum(i * b, b, n);
    if i >= roots {
      Scale(roots, i, size);
    }
  }

  /** Blocks are aligned positions. */
  lemma {:induction false} BlocksAligned(t: Tree, l: nat, x: nat)
    requires TreeInv(t) && l < LEVELS && x in Blocks(t, l)
    ensures Aligned(t, l, x)
    decreases l
  {
    hide Children;
    if l == 0 {
      var i := RootIndex(t.roots, Size(0), x);
      MultiplesApart(i, t.roots, Size(0));
    } else {
      var q := FindParent(t.quads[l], Size(l), x);
      KidInside(q, x, Size(l));
      assert LevelInv(t, l - 1);
      BlocksAligned(t, l - 1, q);
      var k: nat :| q == k * Size(l - 1);
      KidMultiple(q, x, k, Size(l));
    }
  }

  lemma KidMultiple(q: nat, x: nat, k: nat, s: nat)
    requires q == k * (4 * s) && x in Kids(q, s)
    ensures exists j: nat :: x == j * s
  {
    var base := 4 * k;
    assert q == base * s;
    if x == q { assert x == base * s; }
    else if x == q + s { assert x == (base + 1) * s; }
    else if x == q + 2 * s { assert x == (base + 2) * s; }
    else { assert x == (base + 3) * s; }
  }
}
