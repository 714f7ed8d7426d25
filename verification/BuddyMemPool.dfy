/** The entry points of the buddy pool, updating the quad-block arrays and the slot table in place. */
module BuddyMemPool {
  import opened BuddyTree
  import opened BuddyLevel
  import opened BuddyPool

  // ----- The slot table -------------------------------------------------------------------------

  /** The slots record exactly the live blocks, each once, under its size class. */
  ghost predicate SlotsRel(addrs: seq<nat>, sizes: seq<nat>, live: seq<set<nat>>) {
    && |addrs| == |sizes| == SLOT_NUM && |live| == LEVELS
    && (forall i :: 0 <= i < SLOT_NUM ==> (sizes[i] == 0 <==> addrs[i] == INVALID))
    && (forall i :: 0 <= i < SLOT_NUM && sizes[i] > 0 ==> sizes[i] <= MAX_BLOCK_SIZE && addrs[i] in live[ClassOf(sizes[i])])
    && (forall l: nat, a :: l < LEVELS && a in live[l] ==> SlotOf(addrs, sizes, l, a))
    && (forall i, j :: 0 <= i < j < SLOT_NUM && sizes[i] > 0 && sizes[j] > 0 ==> addrs[i] != addrs[j])
  }

  ghost predicate SlotOf(addrs: seq<nat>, sizes: seq<nat>, l: nat, a: nat)
    requires |addrs| == |sizes|
  {
    exists i :: 0 <= i < |addrs| && addrs[i] == a && sizes[i] > 0 && ClassOf(sizes[i]) == l
  }

  function CountUsed(sizes: seq<nat>): (n: nat)
    ensures n <= |sizes|
  {
    if sizes == [] then 0 else (if sizes[0] > 0 then 1 else 0) + CountUsed(sizes[1..])
  }

  lemma {:induction false} CountUpdate(sizes: seq<nat>, i: nat, v: nat)
    requires i < |sizes|
    ensures CountUsed(sizes[i := v]) == CountUsed(sizes) - (if sizes[i] > 0 then 1 else 0) + (if v > 0 then 1 else 0)
    decreases i
  {
    if i == 0 {
      assert sizes[0 := v][1..] == sizes[1..];
    } else {
      CountUpdate(sizes[1..], i - 1, v);
      assert sizes[i := v][1..] == sizes[1..][i - 1 := v];
    }
  }

  lemma {:induction false} NothingUsed(sizes: seq<nat>)
    requires forall i :: 0 <= i < |sizes| ==> sizes[i] == 0
    ensures CountUsed(sizes) == 0
    decreases |sizes|
  {
    if sizes != [] {
      NothingUsed(sizes[1..]);
    }
  }

  lemma FreshSlots(addrs: seq<nat>, sizes: seq<nat>, roots: nat)
    requires |addrs| == |sizes| == SLOT_NUM
    requires forall i :: 0 <= i < SLOT_NUM ==> addrs[i] == INVALID && sizes[i] == 0
    ensures SlotsRel(addrs, sizes, FreshTree(roots).live)
  {
  }

  lemma {:induction false} SomeUnused(sizes: seq<nat>) returns (i: nat)
    requires CountUsed(sizes) < |sizes|
    ensures i < |sizes| && sizes[i] == 0
    decreases |sizes|
  {
    if sizes[0] == 0 {
      i := 0;
    } else {
      var k := SomeUnused(sizes[1..]);
      i := k + 1;
    }
  }

  lemma TakeSlot(addrs: seq<nat>, sizes: seq<nat>, live: seq<set<nat>>, i: nat, addr: nat, size: nat)
    requires SlotsRel(addrs, sizes, live) && i < SLOT_NUM && sizes[i] == 0
    requires 0 < size <= MAX_BLOCK_SIZE && addr != INVALID
    requires forall l: nat :: l < LEVELS ==> addr !in live[l]
    ensures var c := ClassOf(size);
            SlotsRel(addrs[i := addr], sizes[i := size], live[c := live[c] + {addr}])
  {
    hide ClassOf;
    var c := ClassOf(size);
    var addrs', sizes', live' := addrs[i := addr], sizes[i := size], live[c := live[c] + {addr}];
    forall l: nat, a | l < LEVELS && a in live'[l]
      ensures SlotOf(addrs', sizes', l, a)
    {
      if l == c && a == addr {
        assert addrs'[i] == a;
      } else {
        assert SlotOf(addrs, sizes, l, a);
        var k :| 0 <= k < |addrs| && addrs[k] == a && sizes[k] > 0 && ClassOf(sizes[k]) == l;
        assert addrs'[k] == a;
      }
    }
  }

  lemma GiveSlot(addrs: seq<nat>, sizes: seq<nat>, live: seq<set<nat>>, i: nat)
    requires SlotsRel(addrs, sizes, live) && i < SLOT_NUM && sizes[i] > 0
    ensures var c := ClassOf(sizes[i]);
            SlotsRel(addrs[i := INVALID], sizes[i := 0], live[c := live[c] - {addrs[i]}])
  {
    hide ClassOf;
    var c := ClassOf(sizes[i]);
    var addrs', sizes', live' := addrs[i := INVALID], sizes[i := 0], live[c := live[c] - {addrs[i]}];
    forall l: nat, a | l < LEVELS && a in live'[l]
      ensures SlotOf(addrs', sizes', l, a)
    {
      assert SlotOf(addrs, sizes, l, a);
      var k :| 0 <= k < |addrs| && addrs[k] == a && sizes[k] > 0 && ClassOf(sizes[k]) == l;
      assert k != i;
      assert addrs'[k] == a;
    }
  }

  /** A live address is live on one level only. */
  lemma LiveOnce(t: Tree, l: nat, m: nat, a: nat)
    requires TreeInv(t) && l < LEVELS && m < LEVELS && a in t.live[l] && a in t.live[m]
    ensures l == m
  {
    if l < m {
      LiveApart(t, l, a, m, a);
    } else if m < l {
      LiveApart(t, m, a, l, a);
    }
  }

  // ----- Which block is granted -----------------------------------------------------------------

  /** The smallest blocks that are large enough and of which one is free: their level, or -1. */
  ghost function Nearest(t: Tree, index: int): (n: int)
    requires Shaped(t) && -1 <= index < LEVELS
    ensures -1 <= n <= index
    ensures n >= 0 ==> t.free[n] != {}
    ensures forall l: nat :: n < l <= index ==> t.free[l] == {}
    decreases index + 1
  {
    if index < 0 || t.free[index] != {} then index else Nearest(t, index - 1)
  }

  lemma NearestFrom(t: Tree, index: int)
    requires Shaped(t) && -1 <= index < LEVELS
    ensures index < 0 ==> Nearest(t, index) == -1
    ensures index >= 0 ==> Nearest(t, index) == if t.free[index] != {} then index else Nearest(t, index - 1)
  {
  }

  /**
   Level `n` gives up its first free block; on each smaller level down to `index` that block becomes
   a new quad-block with its first child taken. No other level changes: nothing is reassembled.
   */
  ghost predicate Granted(before: seq<seq<Quad>>, t: Tree, n: nat, index: nat, block: nat, after: seq<seq<Quad>>) {
    && Shaped(t) && |before| == |after| == LEVELS && n <= index < LEVELS
    && (exists i: nat :: GivesUp(before[n], Size(n), i, block, after[n]))
    && (forall l: nat :: n < l <= index ==>
          |t.quads[l]| < |before[l]| && after[l] == before[l][|t.quads[l]| := Quad(block, {1, 2, 3})])
    && (forall l: nat :: l < LEVELS && (l < n || index < l) ==> after[l] == before[l])
  }

  lemma GrantedLocal(before: seq<seq<Quad>>, t: Tree, n: nat, i: nat, block: nat, after: seq<seq<Quad>>)
    requires Shaped(t) && |before| == |after| == LEVELS && n < LEVELS && GivesUp(before[n], Size(n), i, block, after[n])
    requires forall l: nat :: l < LEVELS && l != n ==> after[l] == before[l]
    ensures Granted(before, t, n, n, block, after)
  {
    hide GivesUp;
  }

  lemma GrantedSplit(before: seq<seq<Quad>>, t: Tree, n: nat, index: nat, block: nat, mid: seq<seq<Quad>>)
    requires index > 0 && Granted(before, t, n, index - 1, block, mid) && index < LEVELS && |t.quads[index]| < |before[index]|
    ensures Granted(before, t, n, index, block, mid[index := mid[index][|t.quads[index]| := Quad(block, {1, 2, 3})]])
  {
    hide GivesUp;
    var after := mid[index := mid[index][|t.quads[index]| := Quad(block, {1, 2, 3})]];
    var i: nat :| GivesUp(before[n], Size(n), i, block, mid[n]);
    assert after[n] == mid[n] && GivesUp(before[n], Size(n), i, block, after[n]);
  }

  // ----- The pool -------------------------------------------------------------------------------

  class BuddyMemPool {
    var levels: seq<seq<Quad>>
    var slotAddr: seq<nat>
    var slotSize: seq<nat>
    var slotUsed: int
    ghost var tree: Tree

    ghost predicate Valid()
      reads this
    {
      && PoolInv(levels, tree)
      && SlotsRel(slotAddr, slotSize, tree.live)
      && slotUsed == CountUsed(slotSize)
    }

    /** mem_pool_create: a pool of one to four 1 GB blocks, nothing live. Larger pools are laid out wrongly. */
    constructor (total: nat)
      requires 0 < total <= 4 * MAX_BLOCK_SIZE && total % MAX_BLOCK_SIZE == 0
      ensures Valid() && tree == FreshTree(total / MAX_BLOCK_SIZE)
      ensures slotUsed == 0
    {
      hide PoolInv;
      hide SlotsRel;
      hide FreshTree;
      hide CountUsed;
      var roots := total / MAX_BLOCK_SIZE;
      SizeOfRoot();
      var sets := InitLevels(roots);
      levels := sets;
      slotAddr := seq(SLOT_NUM, _ => INVALID);
      slotSize := seq(SLOT_NUM, _ => 0);
      slotUsed := 0;
      tree := FreshTree(roots);
      new;
      NothingUsed(slotSize);
      FreshSlots(slotAddr, slotSize, roots);
    }

    /** Reassemble every full quad-block of level j, starting over at an entry that was replaced. */
    method DefragLevel(j: nat)
      requires PoolInv(levels, tree) && 0 < j < LEVELS
      modifies this`levels, this`tree
      ensures PoolInv(levels, tree)
      ensures tree.roots == old(tree.roots) && tree.live == old(tree.live)
      ensures forall l: nat :: l < LEVELS && l != j ==> tree.quads[l] == old(tree.quads[l])
      ensures forall l: nat :: l < LEVELS && l != j && l != j - 1 ==> tree.free[l] == old(tree.free[l])
      ensures NoFullQuad(tree, j)
    {
      hide LevelRel;
      hide Children;
      hide NoFullQuad;
      hide TreeInv;
      var i := 0;
      EntriesPositive(tree.roots, j);
      while true
        invariant PoolInv(levels, tree) && i <= |tree.quads[j]| && i < |levels[j]|
        invariant tree.roots == old(tree.roots) && tree.live == old(tree.live)
        invariant forall l: nat :: l < LEVELS && l != j ==> tree.quads[l] == old(tree.quads[l])
        invariant forall l: nat :: l < LEVELS && l != j && l != j - 1 ==> tree.free[l] == old(tree.free[l])
        invariant forall k :: 0 <= k < i ==> levels[j][k].status != FULL
        decreases |tree.quads[j]| - i, |levels[j]| - i
      {
        InvalidFrom(levels[j], tree.quads[j], tree.free[j], Size(j), i);
        if levels[j][i].addr == INVALID {
          break;
        }
        if levels[j][i].status == FULL {
          ParentBlock(levels, tree, j, i);
          ReassembleEntry(j, i);
        } else {
          i := i + 1;
          if i >= |levels[j]| {
            break;
          }
        }
      }
      NoneFull(levels, tree, j);
    }

    /** Mark the parent free and delete entry i by replacing it with the last used entry. */
    method ReassembleEntry(j: nat, i: nat)
      requires PoolInv(levels, tree) && 0 < j < LEVELS && i < |tree.quads[j]| && i < |levels[j]|
      requires levels[j][i].status == FULL
      modifies this`levels, this`tree
      ensures PoolInv(levels, tree)
      ensures |levels[j]| == |old(levels)[j]| && forall k :: 0 <= k < i ==> levels[j][k] == old(levels)[j][k]
      ensures tree.roots == old(tree.roots) && tree.live == old(tree.live)
      ensures |tree.quads[j]| == old(|tree.quads[j]|) - 1
      ensures forall l: nat :: l < LEVELS && l != j ==> tree.quads[l] == old(tree.quads[l])
      ensures forall l: nat :: l < LEVELS && l != j && l != j - 1 ==> tree.free[l] == old(tree.free[l])
    {
      hide LevelRel;
      hide Children;
      hide TreeInv;
      hide Kids;
      var qs := levels[j];
      var q := qs[i].addr;
      ParentBlock(levels, tree, j, i);
      QuadsSpaced(tree, j - 1);
      var parent := FreeExisting(levels[j - 1], Size(j - 1), q, tree.quads[j - 1], tree.free[j - 1]);
      var k := LastUsed(qs, i, tree.quads[j], tree.free[j], Size(j));
      var dead := Quad(INVALID, qs[k].status);
      UniteStep(levels, tree, j, i, parent, dead);
      levels := levels[j - 1 := parent][j := qs[i := qs[k]][k := dead]];
      tree := Unite(tree, j, q, Size(j));
    }

    /** Walk to the last used entry. */
    method LastUsed(qs: seq<Quad>, i: nat, ghost addrs: set<nat>, ghost free: set<nat>, ghost s: nat) returns (k: nat)
      requires LevelRel(qs, addrs, free, s) && i < |addrs|
      ensures k == |addrs| - 1 && k < |qs|
    {
      k := i;
      while k + 1 != |qs| && qs[k + 1].addr != INVALID
        invariant i <= k < |addrs|
        decreases |qs| - k
      {
        InvalidFrom(qs, addrs, free, s, k + 1);
        k := k + 1;
      }
      if k + 1 < |qs| { InvalidFrom(qs, addrs, free, s, k + 1); }
    }

    /** defrag: bottom-up, levels below `stop` only. */
    method Defrag(stop: nat)
      requires PoolInv(levels, tree) && stop < LEVELS
      modifies this`levels, this`tree
      ensures PoolInv(levels, tree)
      ensures tree.roots == old(tree.roots) && tree.live == old(tree.live)
      ensures forall l: nat :: l < stop ==> tree.free[l] == old(tree.free[l])
      ensures forall l: nat :: stop < l < LEVELS ==> NoFullQuad(tree, l)
    {
      hide TreeInv;
      hide RootQuads;
      hide LevelRel;
      var j := LEVELS - 1;
      while j > stop
        invariant stop <= j < LEVELS && PoolInv(levels, tree)
        invariant tree.roots == old(tree.roots) && tree.live == old(tree.live)
        invariant forall l: nat :: l < stop ==> tree.free[l] == old(tree.free[l])
        invariant forall l: nat :: j < l < LEVELS ==> NoFullQuad(tree, l)
      {
        ghost var before := tree;
        DefragLevel(j);
        forall l: nat | j < l < LEVELS
          ensures NoFullQuad(tree, l)
        {
          assert NoFullQuad(before, l);
        }
        j := j - 1;
      }
    }

    /** get_existing_block, the block becoming live. */
    method TryLevel(index: nat) returns (found: bool, block: nat, i: nat)
      requires PoolInv(levels, tree) && index < LEVELS
      modifies this`levels, this`tree
      ensures PoolInv(levels, tree) && tree.roots == old(tree.roots) && tree.quads == old(tree.quads)
      ensures found <==> old(tree.free[index]) != {}
      ensures found ==> block !in old(tree.live[index]) && tree.live == old(tree.live)[index := old(tree.live[index]) + {block}]
      ensures found ==> |levels| == LEVELS && GivesUp(old(levels[index]), Size(index), i, block, levels[index])
      ensures forall l: nat :: l < LEVELS && l != index ==> tree.free[l] == old(tree.free[l]) && levels[l] == old(levels[l])
      ensures !found ==> tree == old(tree) && levels == old(levels) && tree.free[index] == {} && i == |tree.quads[index]|
    {
      hide LevelRel;
      hide Children;
      hide Spaced;
      hide TreeInv;
      EntriesPositive(tree.roots, index);
      QuadsSpaced(tree, index);
      var qs;
      found, block, i, qs := GetExisting(levels[index], Size(index), tree.quads[index], tree.free[index]);
      if found {
        GrabStep(levels, tree, index, block, qs);
        levels := levels[index := qs];
        tree := Grab(tree, index, block);
      }
    }

    /**
     get_block_recursive: a block of level `index` becomes live, splitting larger blocks as needed.
     Only the outermost call (index == start) defragments, and only after everything larger failed.
     */
    method GetBlock(index: int, start: nat) returns (found: bool, block: nat)
      requires PoolInv(levels, tree) && -1 <= index <= start < LEVELS
      modifies this`levels, this`tree
      ensures PoolInv(levels, tree) && tree.roots == old(tree.roots)
      ensures found ==> 0 <= index && block !in old(tree.live[index])
                        && tree.live == old(tree.live)[index := old(tree.live[index]) + {block}]
      ensures !found ==> tree.live == old(tree.live)
      ensures Nearest(old(tree), index) >= 0 ==>
                found && Granted(old(levels), old(tree), Nearest(old(tree), index), index, block, levels)
      ensures index < start ==> (found <==> Nearest(old(tree), index) >= 0)
      ensures index < start ==> forall l: nat :: index < l < LEVELS ==>
                tree.quads[l] == old(tree.quads[l]) && tree.free[l] == old(tree.free[l]) && levels[l] == old(levels[l])
      ensures !found && index < start ==> tree == old(tree) && levels == old(levels)
      ensures !found && index < start ==> forall l: nat :: l <= index ==> tree.free[l] == {}
      ensures !found && index == start ==> Exhausted(tree, start)
      decreases index + 1
    {
      hide LevelRel;
      hide Children;
      hide Spaced;
      hide TreeInv;
      hide RootQuads;
      hide Granted, GivesUp, Nearest, Exhausted, PoolInv;
      found, block := false, 0;
      PoolShaped(levels, tree);
      NearestFrom(tree, index);
      if index < 0 {
        return;
      }
      ghost var sets, t := levels, tree;
      var i;
      found, block, i := TryLevel(index);
      if found {
        GrantedLocal(sets, t, index, i, block, levels);
        return;
      }
      found, block := GetBlock(index - 1, start);
      if found {
        ghost var mid := levels;
        SplitInto(index, block, i);
        GrantedSplit(sets, t, Nearest(t, index), index, block, mid);
        return;
      }
      if index == start {
        found, block := Reclaim(start);
      }
    }

    /** Everything larger has failed: reassemble smaller blocks and try once more. */
    method Reclaim(start: nat) returns (found: bool, block: nat)
      requires PoolInv(levels, tree) && start < LEVELS && forall l: nat :: l < start ==> tree.free[l] == {}
      modifies this`levels, this`tree
      ensures PoolInv(levels, tree) && tree.roots == old(tree.roots)
      ensures found ==> block !in old(tree.live[start]) && tree.live == old(tree.live)[start := old(tree.live[start]) + {block}]
      ensures !found ==> tree.live == old(tree.live) && Exhausted(tree, start)
    {
      hide LevelRel;
      hide Children;
      hide Spaced;
      hide TreeInv;
      hide RootQuads;
      Defrag(start);
      var i;
      found, block, i := TryLevel(start);
      if !found {
        ExhaustedNow(tree, start);
      }
    }

    /** Store the larger block as a new quad-block of level `index`, its first child taken. */
    method SplitInto(index: nat, block: nat, i: nat)
      requires PoolInv(levels, tree) && 0 < index < LEVELS && block in tree.live[index - 1] && i == |tree.quads[index]|
      modifies this`levels, this`tree
      ensures PoolInv(levels, tree) && tree.roots == old(tree.roots)
      ensures block !in old(tree.live[index])
      ensures i < old(|levels[index]|) && levels == old(levels)[index := old(levels[index])[i := Quad(block, {1, 2, 3})]]
      ensures tree.live == old(tree.live[index - 1 := tree.live[index - 1] - {block}][index := tree.live[index] + {block}])
      ensures forall l: nat :: l < LEVELS && l != index ==>
                tree.quads[l] == old(tree.quads[l]) && tree.free[l] == old(tree.free[l]) && levels[l] == old(levels[l])
    {
      hide LevelRel;
      hide Children;
      hide Spaced;
      NotLiveBelow(tree, index, block);
      DivideStep(levels, tree, index, block);
      levels := levels[index := levels[index][i := Quad(block, {1, 2, 3})]];
      tree := Divide(tree, index, block, Size(index));
    }

    /** find_empty_slot */
    method FindEmptySlot() returns (i: nat)
      requires |slotSize| == |slotAddr| == SLOT_NUM && CountUsed(slotSize) < SLOT_NUM
      ensures i < SLOT_NUM && slotSize[i] == 0 && forall k :: 0 <= k < i ==> slotSize[k] != 0
    {
      ghost var w := SomeUnused(slotSize);
      i := 0;
      while slotSize[i] != 0
        invariant i <= w && forall k :: 0 <= k < i ==> slotSize[k] != 0
        decreases w - i
      {
        i := i + 1;
      }
    }

    /** find_slot */
    method FindSlot(addr: nat) returns (i: nat)
      requires |slotAddr| == SLOT_NUM && addr in slotAddr
      ensures i < SLOT_NUM && slotAddr[i] == addr && forall k :: 0 <= k < i ==> slotAddr[k] != addr
    {
      ghost var w :| 0 <= w < |slotAddr| && slotAddr[w] == addr;
      i := 0;
      while slotAddr[i] != addr
        invariant i <= w && forall k :: 0 <= k < i ==> slotAddr[k] != addr
        decreases w - i
      {
        i := i + 1;
      }
    }

    /**
     mem_pool_alloc: fails exactly when every aligned block of the size class meets a live block;
     otherwise one aligned block that met none becomes live.
     */
    method Alloc(size: nat) returns (addr: nat)
      requires Valid() && 0 < size <= MAX_BLOCK_SIZE && slotUsed < SLOT_NUM
      modifies this
      ensures Valid() && tree.roots == old(tree.roots)
      ensures addr == 0xff_ffff_ffff <==>
                forall x :: Aligned(old(tree), ClassOf(size), x) ==> Meets(old(tree), x, Size(ClassOf(size)))
      ensures addr == INVALID ==> tree.live == old(tree.live)
      ensures addr != INVALID ==>
                && tree.live == old(tree.live[ClassOf(size) := tree.live[ClassOf(size)] + {addr}])
                && Aligned(old(tree), ClassOf(size), addr) && !Meets(old(tree), addr, Size(ClassOf(size)))
      ensures Nearest(old(tree), ClassOf(size)) >= 0 ==>
                Granted(old(levels), old(tree), Nearest(old(tree), ClassOf(size)), ClassOf(size), addr, levels)
    {
      hide PoolInv;
      hide SlotsRel;
      hide Aligned;
      hide Meets;
      hide ClassOf;
      ghost var before := tree;
      var offset := ComputeBlockSetIndex(size);
      PoolShaped(levels, tree);
      var found, block := GetBlock(offset, offset);
      PoolShaped(levels, tree);
      if !found {
        addr := INVALID;
        FailureMeansBlocked(levels, before, tree, offset);
        return;
      }
      SuccessWasClear(levels, before, tree, offset, block);
      TableShaped(slotAddr, slotSize, before.live);
      var slot := FindEmptySlot();
      TakeSlot(slotAddr, slotSize, before.live, slot, block, size);
      CountUpdate(slotSize, slot, size);
      slotUsed := slotUsed + 1;
      slotAddr := slotAddr[slot := block];
      slotSize := slotSize[slot := size];
      addr := block;
    }

    /** mem_pool_free: a live address is marked unused on the level of its size class. */
    method Free(addr: nat)
      requires Valid() && exists l: nat :: l < LEVELS && addr in tree.live[l]
      modifies this
      ensures Valid() && tree.roots == old(tree.roots)
      ensures exists l: nat :: l < LEVELS && addr in old(tree.live[l]) && tree.live == old(tree.live[l := tree.live[l] - {addr}])
    {
      hide LevelRel;
      hide Children;
      hide Spaced;
      hide ClassOf;
      AddressListed(slotAddr, slotSize, tree, addr);
      var slot := FindSlot(addr);
      var size := slotSize[slot];
      LiveEntry(slotAddr, slotSize, tree, slot);
      var offset := ComputeBlockSetIndex(size);
      LiveIsBlock(tree, offset, addr);
      QuadsSpaced(tree, offset);
      var qs := FreeExisting(levels[offset], Size(offset), addr, tree.quads[offset], tree.free[offset]);
      DropStep(levels, tree, offset, addr, qs);
      GiveSlot(slotAddr, slotSize, tree.live, slot);
      CountUpdate(slotSize, slot, 0);
      levels := levels[offset := qs];
      tree := Drop(tree, offset, addr);
      slotAddr := slotAddr[slot := INVALID];
      slotSize := slotSize[slot := 0];
      slotUsed := slotUsed - 1;
    }
  }

  lemma PoolShaped(levels: seq<seq<Quad>>, t: Tree)
    requires PoolInv(levels, t)
    ensures Shaped(t) && |levels| == LEVELS
  {
  }

  lemma TableShaped(addrs: seq<nat>, sizes: seq<nat>, live: seq<set<nat>>)
    requires SlotsRel(addrs, sizes, live)
    ensures |addrs| == |sizes| == SLOT_NUM
  {
  }

  lemma AddressListed(addrs: seq<nat>, sizes: seq<nat>, t: Tree, addr: nat)
    requires Shaped(t) && SlotsRel(addrs, sizes, t.live) && exists l: nat :: l < LEVELS && addr in t.live[l]
    ensures addr in addrs && |addrs| == SLOT_NUM
  {
    var l: nat :| l < LEVELS && addr in t.live[l];
    assert SlotOf(addrs, sizes, l, addr);
  }

  /** A slot with a live address holds a positive size and its class. */
  lemma LiveEntry(addrs: seq<nat>, sizes: seq<nat>, t: Tree, i: nat)
    requires TreeInv(t) && RootQuads(t) && SlotsRel(addrs, sizes, t.live) && i < SLOT_NUM
    requires exists l: nat :: l < LEVELS && addrs[i] in t.live[l]
    ensures 0 < sizes[i] <= MAX_BLOCK_SIZE && addrs[i] in t.live[ClassOf(sizes[i])]
  {
    var l: nat :| l < LEVELS && addrs[i] in t.live[l];
    LiveIsBlock(t, l, addrs[i]);
    BlockAddress(t, l, addrs[i]);
  }

  /** Nothing left to give: every aligned block of the class met a live block before the call. */
  lemma FailureMeansBlocked(levels: seq<seq<Quad>>, before: Tree, t: Tree, c: nat)
    requires PoolInv(levels, t) && Shaped(before) && before.roots == t.roots && before.live == t.live
    requires c < LEVELS && Exhausted(t, c)
    ensures forall x :: Aligned(before, c, x) ==> Meets(before, x, Size(c))
  {
    hide Exhausted;
    forall x | Aligned(before, c, x)
      ensures Meets(before, x, Size(c))
    {
      ExhaustedBlocks(t, c, x);
      SameLive(t, before, x, Size(c));
    }
  }

  lemma SameLive(t: Tree, t': Tree, x: nat, n: nat)
    requires Shaped(t) && Shaped(t') && t.live == t'.live && Meets(t, x, n)
    ensures Meets(t', x, n)
  {
  }

  /** A block made live was an aligned block clear of every live one. */
  lemma SuccessWasClear(levels: seq<seq<Quad>>, before: Tree, t: Tree, c: nat, block: nat)
    requires PoolInv(levels, t) && Shaped(before) && before.roots == t.roots && c < LEVELS
    requires block !in before.live[c] && t.live == before.live[c := before.live[c] + {block}]
    ensures Aligned(before, c, block) && !Meets(before, block, Size(c))
    ensures block != INVALID && forall l: nat :: l < LEVELS ==> block !in before.live[l]
  {
    hide LevelRel;
    hide Children;
    LiveIsBlock(t, c, block);
    BlockAddress(t, c, block);
    BlocksAligned(t, c, block);
    forall l: nat, a: nat | l < LEVELS && a in before.live[l]
      ensures block + Size(c) <= a || a + Size(l) <= block
    {
      assert a in t.live[l];
      if l <= c { LiveApart(t, l, a, c, block); } else { LiveApart(t, c, block, l, a); }
    }
  }

  lemma NotLiveBelow(t: Tree, l: nat, a: nat)
    requires TreeInv(t) && 0 < l < LEVELS && a in t.live[l - 1]
    ensures a !in t.live[l]
  {
    if a in t.live[l] {
      LiveOnce(t, l - 1, l, a);
    }
  }

  lemma ExhaustedNow(t: Tree, s: nat)
    requires Shaped(t) && s < LEVELS
    requires forall l: nat :: l <= s ==> t.free[l] == {}
    requires forall l: nat :: s < l < LEVELS ==> NoFullQuad(t, l)
    ensures Exhausted(t, s)
  {
    hide Kids;
    forall l: nat, q: nat | s < l < LEVELS && q in t.quads[l]
      ensures !(Kids(q, Size(l)) <= t.free[l])
    {
      assert NoFullQuad(t, l);
    }
  }
}
