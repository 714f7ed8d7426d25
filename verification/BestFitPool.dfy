/**
 The compiled-in device memory pool (MEM_POOL_NAIVE_PLUS, src/common/mmpool.cpp): a best-fit free
 list with coalescing. Slots are address ranges; the free list is a sequence, the in-use table a map
 from address to size. The invariant is stated on the set of all slots, which must tile the pool.
 */
module BestFitPool {

  const MIN_SLOT_SIZE := 4096
  const BANK_SIZE := 0x8000_0000
  const SLOT_NUM := 16384
  /** MEM_POOL_ADDR_INVALID */
  const INVALID := 0xff_ffff_ffff
  const U64_RANGE := 0x1_0000_0000_0000_0000

  datatype Slot = Slot(start: nat, size: nat) {
    function End(): nat { start + size }
  }

  ghost predicate Covers(s: Slot, x: nat) {
    s.start <= x < s.End()
  }

  ghost predicate Apart(s: Slot, t: Slot) {
    s.End() <= t.start || t.End() <= s.start
  }

  // ----- Tilings --------------------------------------------------------------------------------

  ghost predicate Covered(slots: set<Slot>, x: nat) {
    exists s :: s in slots && Covers(s, x)
  }

  /** Non-empty, pairwise disjoint slots inside the pool. */
  ghost predicate Packed(total: nat, slots: set<Slot>) {
    && (forall s :: s in slots ==> s.size > 0 && s.End() <= total)
    && (forall s, t :: s in slots && t in slots && s != t ==> Apart(s, t))
  }

  /** ... that leave no address out. */
  ghost predicate Tiling(total: nat, slots: set<Slot>) {
    Packed(total, slots) && forall x: nat :: x < total ==> Covered(slots, x)
  }

  lemma OverlapPoint(s: Slot, t: Slot) returns (x: nat)
    requires s.size > 0 && t.size > 0 && !Apart(s, t)
    ensures Covers(s, x) && Covers(t, x)
  {
    x := if s.start < t.start then t.start else s.start;
  }

  /** Replacing a group of slots by another group over exactly the same addresses keeps a tiling. */
  lemma Replace(total: nat, slots: set<Slot>, before: set<Slot>, after: set<Slot>)
    requires Tiling(total, slots) && before <= slots
    requires Packed(total, after)
    requires forall x: nat :: Covered(before, x) <==> Covered(after, x)
    ensures Tiling(total, slots - before + after)
  {
    var r := slots - before + after;
    forall s, t | s in after && t in slots - before
      ensures Apart(s, t)
    {
      if !Apart(s, t) {
        var x := OverlapPoint(s, t);
        assert Covered(after, x);
      }
    }
    forall x: nat | x < total
      ensures Covered(r, x)
    {
      assert Covered(slots, x);
      var s :| s in slots && Covers(s, x);
      if s in before {
        assert Covered(before, x);
        var a :| a in after && Covers(a, x);
        assert a in r;
      } else {
        assert s in r;
      }
    }
  }

  /** No two free slots touch. */
  ghost predicate Coalesced(free: set<Slot>) {
    forall s, t :: s in free && t in free ==> s.End() != t.start
  }

  /** Every address of [x, x + n) is covered by `free`. */
  ghost predicate Run(free: set<Slot>, x: nat, n: nat) {
    forall y: nat :: x <= y < x + n ==> Covered(free, y)
  }

  /** In a coalesced list a contiguous free run lies inside one slot. */
  lemma RunInSlot(total: nat, free: set<Slot>, x: nat, n: nat) returns (s: Slot)
    requires Packed(total, free) && Coalesced(free) && Run(free, x, n) && n > 0
    ensures s in free && s.start <= x && x + n <= s.End()
  {
    assert Covered(free, x);
    s :| s in free && Covers(s, x);
    GapAfter(total, free, s);
  }

  lemma GapAfter(total: nat, free: set<Slot>, s: Slot)
    requires Packed(total, free) && Coalesced(free) && s in free
    ensures !Covered(free, s.End())
  {
  }

  // ----- The pool state -------------------------------------------------------------------------

  datatype Pool = Pool(total: nat, avail: seq<Slot>, inUse: map<nat, nat>, count: int)

  function FreeSet(avail: seq<Slot>): set<Slot> {
    set s | s in avail
  }

  function UsedSet(inUse: map<nat, nat>): set<Slot> {
    set a | a in inUse :: Slot(a, inUse[a])
  }

  ghost predicate NoDuplicates(avail: seq<Slot>) {
    forall i, j :: 0 <= i < j < |avail| ==> avail[i] != avail[j]
  }

  ghost predicate Inv(p: Pool) {
    && p.total < INVALID
    && NoDuplicates(p.avail)
    && FreeSet(p.avail) !! UsedSet(p.inUse)
    && Tiling(p.total, FreeSet(p.avail) + UsedSet(p.inUse))
    && Coalesced(FreeSet(p.avail))
    && p.count == |p.inUse|
    && (forall a :: a in p.inUse ==> p.inUse[a] % MIN_SLOT_SIZE == 0)
  }

  /** `x` belongs to a live allocation. */
  ghost predicate UsedAt(inUse: map<nat, nat>, x: nat) {
    exists a :: a in inUse && a <= x < a + inUse[a]
  }

  lemma UsedCovered(inUse: map<nat, nat>, x: nat)
    ensures UsedAt(inUse, x) <==> Covered(UsedSet(inUse), x)
  {
    if Covered(UsedSet(inUse), x) {
      var s :| s in UsedSet(inUse) && Covers(s, x);
      assert s.start in inUse;
    }
    if UsedAt(inUse, x) {
      var a :| a in inUse && a <= x < a + inUse[a];
      assert Slot(a, inUse[a]) in UsedSet(inUse) && Covers(Slot(a, inUse[a]), x);
    }
  }

  lemma OneSide(total: nat, free: set<Slot>, used: set<Slot>, x: nat)
    requires Tiling(total, free + used) && free !! used && x < total
    ensures Covered(free, x) <==> !Covered(used, x)
  {
    assert Covered(free + used, x);
    var u :| u in free + used && Covers(u, x);
  }

  /** Addresses of the pool are free exactly when no live allocation holds them. */
  lemma FreeIffNotUsed(p: Pool, x: nat)
    requires Inv(p) && x < p.total
    ensures Covered(FreeSet(p.avail), x) <==> !UsedAt(p.inUse, x)
  {
    hide Covered;
    hide UsedAt;
    var free, used := FreeSet(p.avail), UsedSet(p.inUse);
    UsedCovered(p.inUse, x);
    OneSide(p.total, free, used, x);
  }

  // ----- Sequence updates as set updates --------------------------------------------------------

  lemma UpdateSlot(avail: seq<Slot>, k: nat, v: Slot)
    requires k < |avail| && NoDuplicates(avail) && v !in FreeSet(avail)
    ensures NoDuplicates(avail[k := v])
    ensures FreeSet(avail[k := v]) == FreeSet(avail) - {avail[k]} + {v}
  {
    var avail' := avail[k := v];
    forall s | s in FreeSet(avail) - {avail[k]} + {v}
      ensures s in avail'
    {
      if s == v {
        assert avail'[k] == v;
      } else {
        var i :| 0 <= i < |avail| && avail[i] == s;
        assert avail'[i] == s;
      }
    }
    forall s | s in avail'
      ensures s in FreeSet(avail) - {avail[k]} + {v}
    {
      var i :| 0 <= i < |avail'| && avail'[i] == s;
      if i != k {
        assert avail[i] == s;
      }
    }
  }

  function Erase(avail: seq<Slot>, k: nat): seq<Slot>
    requires k < |avail|
  {
    avail[..k] + avail[k + 1..]
  }

  lemma EraseSlot(avail: seq<Slot>, k: nat)
    requires k < |avail| && NoDuplicates(avail)
    ensures NoDuplicates(Erase(avail, k))
    ensures FreeSet(Erase(avail, k)) == FreeSet(avail) - {avail[k]}
  {
    var avail' := Erase(avail, k);
    forall s | s in FreeSet(avail) - {avail[k]}
      ensures s in avail'
    {
      var i :| 0 <= i < |avail| && avail[i] == s;
      assert avail'[if i < k then i else i - 1] == s;
    }
    forall s | s in avail'
      ensures s in FreeSet(avail) - {avail[k]}
    {
      var i :| 0 <= i < |avail'| && avail'[i] == s;
      assert avail[if i < k then i else i + 1] == s;
    }
  }

  lemma PushSlot(avail: seq<Slot>, v: Slot)
    requires NoDuplicates(avail) && v !in FreeSet(avail)
    ensures NoDuplicates(avail + [v])
    ensures FreeSet(avail + [v]) == FreeSet(avail) + {v}
  {
  }

  lemma InsertUsed(inUse: map<nat, nat>, a: nat, size: nat)
    requires a !in inUse
    ensures UsedSet(inUse[a := size]) == UsedSet(inUse) + {Slot(a, size)}
    ensures |inUse[a := size]| == |inUse| + 1
  {
    var m := inUse[a := size];
    assert m.Keys == inUse.Keys + {a};
    forall s | s in UsedSet(inUse) + {Slot(a, size)}
      ensures s in UsedSet(m)
    {
      assert s.start in m && m[s.start] == s.size;
    }
  }

  lemma EraseUsed(inUse: map<nat, nat>, a: nat)
    requires a in inUse
    ensures UsedSet(inUse - {a}) == UsedSet(inUse) - {Slot(a, inUse[a])}
    ensures |inUse - {a}| == |inUse| - 1
  {
    var m := inUse - {a};
    assert m.Keys == inUse.Keys - {a};
    forall s | s in UsedSet(inUse) - {Slot(a, inUse[a])}
      ensures s in UsedSet(m)
    {
      assert s.start in inUse && inUse[s.start] == s.size && s.start != a;
      assert s.start in m && m[s.start] == s.size;
    }
  }

  // ----- Allocation -----------------------------------------------------------------------------

  /** Slot `k` with `size` bytes taken off its front or its back. */
  function Carve(avail: seq<Slot>, k: nat, size: nat, back: bool): seq<Slot>
    requires k < |avail| && size <= avail[k].size
  {
    if avail[k].size == size then Erase(avail, k) else avail[k := Rest(avail[k], size, back)]
  }

  function Piece(s: Slot, size: nat, back: bool): Slot
    requires size <= s.size
  {
    Slot(if back then s.End() - size else s.start, size)
  }

  function Rest(s: Slot, size: nat, back: bool): Slot
    requires size <= s.size
  {
    Slot(if back then s.start else s.start + size, s.size - size)
  }

  /** std::map::insert does nothing when the key is present. */
  function Insert(inUse: map<nat, nat>, a: nat, size: nat): map<nat, nat> {
    if a in inUse then inUse else inUse[a := size]
  }

  function Take(p: Pool, k: nat, size: nat, back: bool): Pool
    requires k < |p.avail| && size <= p.avail[k].size
  {
    Pool(p.total, Carve(p.avail, k, size, back), Insert(p.inUse, Piece(p.avail[k], size, back).start, size), p.count + 1)
  }

  /** A slot of the tiling meets no other one. */
  lemma NoOther(total: nat, slots: set<Slot>, s: Slot, t: Slot)
    requires Packed(total, slots) && s in slots && t in slots && !Apart(s, t)
    ensures s == t
  {
  }

  /** Splitting a slot covers the same addresses. */
  lemma SplitCovers(s: Slot, size: nat, back: bool, x: nat)
    requires 0 < size < s.size
    ensures Covered({s}, x) <==> Covered({Piece(s, size, back), Rest(s, size, back)}, x)
  {
    var a, b := Piece(s, size, back), Rest(s, size, back);
    if Covered({s}, x) {
      assert Covers(s, x);
      if Covers(a, x) { assert a in {a, b}; } else { assert b in {a, b} && Covers(b, x); }
    }
    if Covered({a, b}, x) {
      assert s in {s} && Covers(s, x);
    }
  }

  /** The tiling after taking `size` bytes of `s`, and the free set it leaves. */
  lemma SplitTiling(total: nat, free: set<Slot>, used: set<Slot>, s: Slot, size: nat, back: bool)
    requires Tiling(total, free + used) && free !! used && s in free && 0 < size < s.size
    requires Coalesced(free)
    ensures var a, b := Piece(s, size, back), Rest(s, size, back);
            var free' := free - {s} + {b};
            && a !in free && a !in used && b !in free && b !in used && a != b
            && Tiling(total, free' + (used + {a})) && free' !! used + {a} && Coalesced(free')
  {
    var a, b := Piece(s, size, back), Rest(s, size, back);
    var slots := free + used;
    forall t | t in slots && (t == a || t == b)
      ensures false
    {
      NoOther(total, slots, s, t);
    }
    forall x: nat
      ensures Covered({s}, x) <==> Covered({a, b}, x)
    {
      SplitCovers(s, size, back, x);
    }
    Replace(total, slots, {s}, {a, b});
    assert slots - {s} + {a, b} == free - {s} + {b} + (used + {a});
    forall u, v | u in free - {s} + {b} && v in free - {s} + {b}
      ensures u.End() != v.start
    {
      if u != b && v == b && !back {
        assert u in slots && s in slots && Apart(u, s);
      }
      if u == b && v != b && back {
        assert v in slots && s in slots && Apart(v, s);
      }
    }
  }

  lemma WholeTiling(free: set<Slot>, used: set<Slot>, s: Slot)
    requires s in free && free !! used
    ensures free - {s} + (used + {s}) == free + used
    ensures free - {s} !! used + {s}
  {
  }

  /**
   Taking bytes from a free slot keeps the invariant, whichever end they come from: the new
   allocation was free, is inside the pool, and overlaps no live one.
   */
  lemma TakeKeepsInv(p: Pool, k: nat, size: nat, back: bool)
    requires Inv(p) && k < |p.avail| && 0 < size <= p.avail[k].size && size % MIN_SLOT_SIZE == 0
    ensures var a := Piece(p.avail[k], size, back).start;
            && a !in p.inUse && a + size <= p.total
            && Inv(Take(p, k, size, back))
  {
    hide Tiling;
    hide Coalesced;
    hide NoDuplicates;
    var s := p.avail[k];
    var free, used := FreeSet(p.avail), UsedSet(p.inUse);
    var piece := Piece(s, size, back);
    PieceIsNew(p, k, size, back);
    InsertUsed(p.inUse, piece.start, size);
    if size == s.size {
      EraseSlot(p.avail, k);
      WholeTiling(free, used, s);
      CoalescedSubset(free, s);
    } else {
      SplitTiling(p.total, free, used, s, size, back);
      UpdateSlot(p.avail, k, Rest(s, size, back));
    }
  }

  lemma CoalescedSubset(free: set<Slot>, s: Slot)
    requires Coalesced(free)
    ensures Coalesced(free - {s})
  {
  }

  lemma PieceIsNew(p: Pool, k: nat, size: nat, back: bool)
    requires Inv(p) && k < |p.avail| && 0 < size <= p.avail[k].size
    ensures var a := Piece(p.avail[k], size, back).start; a !in p.inUse && a + size <= p.total
  {
    var s, a := p.avail[k], Piece(p.avail[k], size, back).start;
    var slots := FreeSet(p.avail) + UsedSet(p.inUse);
    assert s in slots;
    if a in p.inUse {
      UsedApart(p, s, a);
    }
  }

  lemma UsedApart(p: Pool, s: Slot, a: nat)
    requires Inv(p) && s in FreeSet(p.avail) && a in p.inUse
    ensures Apart(s, Slot(a, p.inUse[a])) && p.inUse[a] > 0
  {
    var t := Slot(a, p.inUse[a]);
    assert t in UsedSet(p.inUse);
    assert s != t;
  }

  // ----- Release --------------------------------------------------------------------------------

  /** find_if with offset_prev_finder: the first slot that ends at `a`. */
  function FindPrev(avail: seq<Slot>, a: nat): (i: nat)
    ensures i <= |avail|
    ensures i < |avail| ==> avail[i].End() == a
    ensures forall j :: 0 <= j < i ==> avail[j].End() != a
  {
    if avail == [] || avail[0].End() == a then 0 else 1 + FindPrev(avail[1..], a)
  }

  /** find_if with offset_next_finder: the first slot that starts at `a`. */
  function FindNext(avail: seq<Slot>, a: nat): (i: nat)
    ensures i <= |avail|
    ensures i < |avail| ==> avail[i].start == a
    ensures forall j :: 0 <= j < i ==> avail[j].start != a
  {
    if avail == [] || avail[0].start == a then 0 else 1 + FindNext(avail[1..], a)
  }

  /** The free list after `s` is returned: pushed, or merged with its neighbours. */
  function Merge(avail: seq<Slot>, s: Slot): seq<Slot> {
    var i, j := FindPrev(avail, s.start), FindNext(avail, s.End());
    if i == |avail| && j == |avail| then avail + [s]
    else if i == |avail| then avail[j := Slot(s.start, avail[j].size + s.size)]
    else if j == |avail| then avail[i := Slot(avail[i].start, avail[i].size + s.size)]
    else Erase(avail[i := Slot(avail[i].start, avail[i].size + s.size + avail[j].size)], j)
  }

  function Release(p: Pool, a: nat): Pool
    requires a in p.inUse
  {
    Pool(p.total, Merge(p.avail, Slot(a, p.inUse[a])), p.inUse - {a}, p.count - 1)
  }

  /** The free neighbours of `s`. */
  function Neighbours(free: set<Slot>, s: Slot): set<Slot> {
    set t | t in free && (t.End() == s.start || t.start == s.End())
  }

  /** `m` is `s` joined with its free neighbours. */
  ghost predicate IsJoin(free: set<Slot>, s: Slot, m: Slot) {
    && m.start <= s.start && s.End() <= m.End()
    && (m.start == s.start || exists t :: t in free && t.End() == s.start && t.start == m.start)
    && (m.End() == s.End() || exists t :: t in free && t.start == s.End() && t.End() == m.End())
    && (m.start == s.start ==> forall t :: t in free ==> t.End() != s.start)
    && (m.End() == s.End() ==> forall t :: t in free ==> t.start != s.End())
  }

  lemma JoinCovers(total: nat, free: set<Slot>, s: Slot, m: Slot, x: nat)
    requires Packed(total, free) && s.size > 0 && IsJoin(free, s, m)
    ensures Covered(Neighbours(free, s) + {s}, x) <==> Covered({m}, x)
  {
    var group := Neighbours(free, s) + {s};
    if Covered(group, x) {
      var t :| t in group && Covers(t, x);
      if t != s && t.End() == s.start {
        assert m.start != s.start;
        var u :| u in free && u.End() == s.start && u.start == m.start;
        assert u == t || Apart(u, t);
      } else if t != s {
        assert m.End() != s.End();
        var u :| u in free && u.start == s.End() && u.End() == m.End();
        assert u == t || Apart(u, t);
      }
      assert m in {m} && Covers(m, x);
    }
    if Covered({m}, x) {
      assert Covers(m, x);
      if x < s.start {
        var u :| u in free && u.End() == s.start && u.start == m.start;
        assert u in group && Covers(u, x);
      } else if x < s.End() {
        assert s in group && Covers(s, x);
      } else {
        var u :| u in free && u.start == s.End() && u.End() == m.End();
        assert u in group && Covers(u, x);
      }
    }
  }

  /** Joining a returned slot with its neighbours: a tiling again, and again coalesced. */
  lemma JoinTiling(total: nat, free: set<Slot>, used: set<Slot>, s: Slot, m: Slot)
    requires Tiling(total, free + used) && free !! used && s in used && Coalesced(free)
    requires IsJoin(free, s, m)
    ensures m !in free
    ensures var free' := free - Neighbours(free, s) + {m};
            Tiling(total, free' + (used - {s})) && free' !! used - {s} && Coalesced(free')
  {
    var slots, near := free + used, Neighbours(free, s);
    assert m.End() <= total;
    forall t | t in slots && t == m
      ensures t == s
    {
      NoOther(total, slots, s, t);
    }
    forall x: nat
      ensures Covered(near + {s}, x) <==> Covered({m}, x)
    {
      JoinCovers(total, free, s, m, x);
    }
    Replace(total, slots, near + {s}, {m});
    assert slots - (near + {s}) + {m} == free - near + {m} + (used - {s});
    JoinCoalesced(total, slots, free, s, m);
  }

  lemma JoinCoalesced(total: nat, slots: set<Slot>, free: set<Slot>, s: Slot, m: Slot)
    requires Packed(total, slots) && free <= slots && s in slots && Coalesced(free) && IsJoin(free, s, m)
    ensures Coalesced(free - Neighbours(free, s) + {m})
  {
    var near := Neighbours(free, s);
    forall u, v | u in free - near + {m} && v in free - near + {m}
      ensures u.End() != v.start
    {
      if u == m && v != m && m.End() != s.End() {
        var t :| t in free && t.start == s.End() && t.End() == m.End();
        assert t.End() != v.start;
      }
      if u != m && v == m && m.start != s.start {
        var t :| t in free && t.End() == s.start && t.start == m.start;
        assert u.End() != t.start;
      }
    }
  }

  /** The slot Merge puts into the list. */
  function Joined(avail: seq<Slot>, s: Slot): Slot {
    var i, j := FindPrev(avail, s.start), FindNext(avail, s.End());
    var start := if i < |avail| then avail[i].start else s.start;
    var size := (if i < |avail| then avail[i].size else 0) + s.size + (if j < |avail| then avail[j].size else 0);
    Slot(start, size)
  }

  lemma JoinedIsJoin(total: nat, avail: seq<Slot>, used: set<Slot>, s: Slot)
    requires Packed(total, FreeSet(avail) + used) && s in used && s.size > 0
    ensures IsJoin(FreeSet(avail), s, Joined(avail, s))
  {
    hide FindPrev;
    hide FindNext;
    var i, j := FindPrev(avail, s.start), FindNext(avail, s.End());
    NeighboursOf(total, avail, used, s, i, j);
    if i < |avail| { assert avail[i] in FreeSet(avail); }
    if j < |avail| { assert avail[j] in FreeSet(avail); }
  }

  /** The merged list as a set: neighbours out, join in. */
  lemma MergeSet(total: nat, avail: seq<Slot>, used: set<Slot>, s: Slot)
    requires Packed(total, FreeSet(avail) + used) && s in used && s.size > 0
    requires NoDuplicates(avail) && Joined(avail, s) !in FreeSet(avail)
    ensures NoDuplicates(Merge(avail, s))
    ensures FreeSet(Merge(avail, s)) == FreeSet(avail) - Neighbours(FreeSet(avail), s) + {Joined(avail, s)}
  {
    hide FindPrev;
    hide FindNext;
    hide Packed;
    hide NoDuplicates;
    hide FreeSet;
    hide Neighbours;
    var i, j := FindPrev(avail, s.start), FindNext(avail, s.End());
    var m := Joined(avail, s);
    NeighboursOf(total, avail, used, s, i, j);
    if i == |avail| && j == |avail| {
      PushSlot(avail, m);
    } else if i == |avail| {
      UpdateSlot(avail, j, m);
    } else {
      UpdateSlot(avail, i, m);
      if j < |avail| {
        assert avail[i := m][j] == avail[j];
        EraseSlot(avail[i := m], j);
        assert m.start < avail[j].start;
        MinusTwice(FreeSet(avail), avail[i], avail[j], m);
      }
    }
  }

  lemma MinusTwice(free: set<Slot>, u: Slot, v: Slot, m: Slot)
    requires m != v
    ensures free - {u} + {m} - {v} == free - ({u} + {v}) + {m}
  {
  }

  lemma NeighboursOf(total: nat, avail: seq<Slot>, used: set<Slot>, s: Slot, i: nat, j: nat)
    requires Packed(total, FreeSet(avail) + used) && s in used && s.size > 0
    requires i == FindPrev(avail, s.start) && j == FindNext(avail, s.End())
    ensures var free := FreeSet(avail);
            && Neighbours(free, s) == (if i < |avail| then {avail[i]} else {}) + (if j < |avail| then {avail[j]} else {})
            && (i == |avail| ==> forall t :: t in free ==> t.End() != s.start)
            && (j == |avail| ==> forall t :: t in free ==> t.start != s.End())
  {
    hide FindPrev, FindNext, Packed;
    var free := FreeSet(avail);
    forall t | t in Neighbours(free, s)
      ensures (i < |avail| && t == avail[i]) || (j < |avail| && t == avail[j])
    {
      var k :| 0 <= k < |avail| && avail[k] == t;
      if t.End() == s.start {
        assert i < |avail| && avail[i] in free;
        SameEnd(total, free + used, t, avail[i]);
      } else {
        assert j < |avail| && avail[j] in free;
        SameEnd(total, free + used, t, avail[j]);
      }
    }
  }

  lemma SameEnd(total: nat, slots: set<Slot>, t: Slot, u: Slot)
    requires Packed(total, slots) && t in slots && u in slots && (t.End() == u.End() || t.start == u.start)
    ensures t == u
  {
    assert t == u || Apart(t, u);
  }

  /** Releasing a live allocation keeps the invariant. */
  lemma ReleaseKeepsInv(p: Pool, a: nat)
    requires Inv(p) && a in p.inUse
    ensures p.inUse[a] > 0 && Inv(Release(p, a))
  {
    hide NoDuplicates;
    hide Coalesced;
    hide IsJoin;
    hide Merge;
    var free, used := FreeSet(p.avail), UsedSet(p.inUse);
    var s := Slot(a, p.inUse[a]);
    assert s in used && s in free + used;
    EraseUsed(p.inUse, a);
    JoinedIsJoin(p.total, p.avail, used, s);
    JoinTiling(p.total, free, used, s, Joined(p.avail, s));
    MergeSet(p.total, p.avail, used, s);
  }

  // ----- What free slots are --------------------------------------------------------------------

  /** [x, x + n) is a maximal run of addresses that no live allocation holds. */
  ghost predicate Gap(p: Pool, x: nat, n: nat) {
    && n > 0 && x + n <= p.total
    && (forall y: nat :: x <= y < x + n ==> !UsedAt(p.inUse, y))
    && (x > 0 ==> UsedAt(p.inUse, x - 1))
    && (x + n < p.total ==> UsedAt(p.inUse, x + n))
  }

  /** The free list holds exactly the maximal gaps between live allocations. */
  lemma SlotsAreGaps(p: Pool, s: Slot)
    requires Inv(p)
    ensures s in FreeSet(p.avail) <==> Gap(p, s.start, s.size)
  {
    if s in FreeSet(p.avail) {
      SlotIsGap(p, s);
    }
    if Gap(p, s.start, s.size) {
      GapIsSlot(p, s);
    }
  }

  lemma SlotIsGap(p: Pool, s: Slot)
    requires Inv(p) && s in FreeSet(p.avail)
    ensures Gap(p, s.start, s.size)
  {
    hide UsedAt;
    var free := FreeSet(p.avail);
    assert s in free + UsedSet(p.inUse);
    forall y: nat | s.start <= y < s.End()
      ensures !UsedAt(p.inUse, y)
    {
      assert Covers(s, y);
      FreeIffNotUsed(p, y);
    }
    if s.start > 0 {
      NoFreeBefore(p, s);
    }
    if s.End() < p.total {
      NoFreeAfter(p, s);
    }
  }

  lemma NoFreeAfter(p: Pool, s: Slot)
    requires Inv(p) && s in FreeSet(p.avail) && s.End() < p.total
    ensures UsedAt(p.inUse, s.End())
  {
    hide UsedAt;
    var free := FreeSet(p.avail);
    assert s in free + UsedSet(p.inUse);
    FreeIffNotUsed(p, s.End());
  }

  lemma NoFreeBefore(p: Pool, s: Slot)
    requires Inv(p) && s in FreeSet(p.avail) && s.start > 0
    ensures UsedAt(p.inUse, s.start - 1)
  {
    hide UsedAt;
    var free := FreeSet(p.avail);
    assert s in free + UsedSet(p.inUse);
    FreeIffNotUsed(p, s.start - 1);
  }

  lemma GapIsSlot(p: Pool, s: Slot)
    requires Inv(p) && Gap(p, s.start, s.size)
    ensures s in FreeSet(p.avail)
  {
    var t := RunHasSlot(p, s.start, s.size);
    var free := FreeSet(p.avail);
    if t.start < s.start {
      assert Covers(t, s.start - 1);
      FreeIffNotUsed(p, s.start - 1);
    }
    if s.End() < t.End() {
      assert t in free + UsedSet(p.inUse) && Covers(t, s.End());
      FreeIffNotUsed(p, s.End());
    }
    assert t == s;
  }

  /** A run that no allocation touches lies in one free slot. */
  lemma RunHasSlot(p: Pool, x: nat, n: nat) returns (s: Slot)
    requires Inv(p) && n > 0 && x + n <= p.total
    requires forall y: nat :: x <= y < x + n ==> !UsedAt(p.inUse, y)
    ensures s in FreeSet(p.avail) && s.start <= x && x + n <= s.End()
  {
    var free := FreeSet(p.avail);
    forall y: nat | x <= y < x + n
      ensures Covered(free, y)
    {
      FreeIffNotUsed(p, y);
    }
    assert Packed(p.total, free) by {
      assert forall t :: t in free ==> t in free + UsedSet(p.inUse);
    }
    s := RunInSlot(p.total, free, x, n);
  }

  // ----- Completeness ---------------------------------------------------------------------------

  ghost predicate Sufficient(avail: seq<Slot>, size: nat, k: nat) {
    k < |avail| && avail[k].size >= size
  }

  /** Some live allocation meets [x, x + n). */
  ghost predicate Blocked(inUse: map<nat, nat>, x: nat, n: nat) {
    exists y: nat :: x <= y < x + n && UsedAt(inUse, y)
  }

  /** No slot suffices exactly when every range of the requested size meets a live allocation. */
  lemma NoSlotIffBlocked(p: Pool, size: nat)
    requires Inv(p) && size > 0
    ensures (forall k :: !Sufficient(p.avail, size, k)) <==>
            (forall x: nat :: x + size <= p.total ==> Blocked(p.inUse, x, size))
  {
    if k: nat :| Sufficient(p.avail, size, k) {
      var s := p.avail[k];
      SlotIsGap(p, s);
      assert s.start + size <= p.total && !Blocked(p.inUse, s.start, size);
    }
    if x: nat :| x + size <= p.total && !Blocked(p.inUse, x, size) {
      var s := RunHasSlot(p, x, size);
      var k :| 0 <= k < |p.avail| && p.avail[k] == s;
      assert Sufficient(p.avail, size, k);
    }
  }

  /** The first of the smallest sufficient slots. */
  ghost predicate BestFit(avail: seq<Slot>, size: nat, k: nat) {
    && Sufficient(avail, size, k)
    && (forall i :: 0 <= i < |avail| && avail[i].size >= size ==> avail[k].size <= avail[i].size)
    && (forall i :: 0 <= i < k ==> avail[i].size != avail[k].size)
  }

  /** The slot carved is a maximal gap, and no sufficient gap of the pool is smaller. */
  lemma BestFitIsSmallestGap(p: Pool, size: nat, k: nat)
    requires Inv(p) && BestFit(p.avail, size, k)
    ensures Gap(p, p.avail[k].start, p.avail[k].size)
    ensures forall x: nat, n: nat :: Gap(p, x, n) && n >= size ==> n >= p.avail[k].size
  {
    SlotIsGap(p, p.avail[k]);
    forall x: nat, n: nat | Gap(p, x, n) && n >= size
      ensures n >= p.avail[k].size
    {
      GapIsSlot(p, Slot(x, n));
      var i :| 0 <= i < |p.avail| && p.avail[i] == Slot(x, n);
    }
  }

  // ----- Banks ----------------------------------------------------------------------------------

  /** slot_in_bank */
  predicate InBank(addr: nat, size: nat) {
    addr % BANK_SIZE + size <= BANK_SIZE
  }

  lemma InBankMeaning(addr: nat, size: nat)
    requires size > 0
    ensures InBank(addr, size) <==> addr / BANK_SIZE == (addr + size - 1) / BANK_SIZE
  {
  }

  /** What find_slot_in_bank tries: the front of a slot, then its back. */
  predicate EndFits(s: Slot, size: nat) {
    s.size >= size && (InBank(s.start, size) || InBank(s.End() - size, size))
  }

  /** What it does not try: the first bank boundary inside the slot. */
  predicate MiddleFits(s: Slot, size: nat) {
    size <= BANK_SIZE && (s.start / BANK_SIZE + 1) * BANK_SIZE + size <= s.End()
  }

  /** A slot holds an in-bank range exactly when an end fits or its first boundary does. */
  lemma BankRangeInSlot(s: Slot, size: nat)
    requires size > 0
    ensures (exists x: nat :: s.start <= x && x + size <= s.End() && InBank(x, size))
            <==> EndFits(s, size) || MiddleFits(s, size)
  {
    if x: nat :| s.start <= x && x + size <= s.End() && InBank(x, size) {
      assert x / BANK_SIZE >= s.start / BANK_SIZE;
      if x / BANK_SIZE == s.start / BANK_SIZE {
        assert InBank(s.start, size);
      }
    }
    if EndFits(s, size) {
      var x := if InBank(s.start, size) then s.start else s.End() - size;
      assert s.start <= x && x + size <= s.End() && InBank(x, size);
    } else if MiddleFits(s, size) {
      var x := (s.start / BANK_SIZE + 1) * BANK_SIZE;
      assert x % BANK_SIZE == 0;
      assert s.start <= x && x + size <= s.End() && InBank(x, size);
    }
  }

  /** A range inside one bank that no live allocation touches. */
  ghost predicate BankRange(p: Pool, x: nat, size: nat) {
    x + size <= p.total && InBank(x, size) && !Blocked(p.inUse, x, size)
  }

  /** Exactly when an in-bank range is available, in terms of the free list. */
  lemma BankRangeIff(p: Pool, size: nat)
    requires Inv(p) && size > 0
    ensures (exists x :: BankRange(p, x, size)) <==>
            exists s :: s in FreeSet(p.avail) && (EndFits(s, size) || MiddleFits(s, size))
  {
    if x :| BankRange(p, x, size) {
      var s := RunHasSlot(p, x, size);
      BankRangeInSlot(s, size);
      assert s in FreeSet(p.avail) && (EndFits(s, size) || MiddleFits(s, size));
    }
    if s :| s in FreeSet(p.avail) && (EndFits(s, size) || MiddleFits(s, size)) {
      SlotIsGap(p, s);
      BankRangeInSlot(s, size);
      var x: nat :| s.start <= x && x + size <= s.End() && InBank(x, size);
      assert BankRange(p, x, size);
    }
  }

  /** In a pool of at most two banks an end fits whenever anything does, so nothing is missed. */
  lemma TwoBanksMissNothing(p: Pool, size: nat)
    requires Inv(p) && size > 0 && p.total <= 2 * BANK_SIZE
    ensures (exists x :: BankRange(p, x, size)) <==> exists s :: s in FreeSet(p.avail) && EndFits(s, size)
  {
    BankRangeIff(p, size);
    if s :| s in FreeSet(p.avail) && MiddleFits(s, size) {
      SlotIsGap(p, s);
      assert s.start / BANK_SIZE == 0 && (s.End() - size) % BANK_SIZE == s.End() - size - BANK_SIZE;
      assert EndFits(s, size);
    }
  }

  // ----- Steps and runs -------------------------------------------------------------------------

  /** Requests are rounded up to MIN_SLOT_SIZE in 64-bit arithmetic. */
  function RoundUp(size: nat): nat {
    (size + MIN_SLOT_SIZE - 1) % U64_RANGE / MIN_SLOT_SIZE * MIN_SLOT_SIZE
  }

  /** Rounding gives the least sufficient multiple, except for sizes within one slot of 2^64, which wrap to zero. */
  lemma RoundUpMeaning(size: nat)
    requires size < U64_RANGE
    ensures RoundUp(size) % 4096 == 0
    ensures RoundUp(size) == 0 <==> size == 0 || size > 0xffff_ffff_ffff_f000
    ensures RoundUp(size) > 0 ==> size <= RoundUp(size) < size + 4096
  {
  }

  datatype Operation = Alloc(size: nat) | AllocInBank(size: nat) | Free(addr: nat)

  ghost predicate FirstEndFit(avail: seq<Slot>, size: nat, k: nat) {
    k < |avail| && EndFits(avail[k], size) && forall i :: 0 <= i < k ==> !EndFits(avail[i], size)
  }

  /** Slot `k` granted at its front, for mem_pool_alloc. */
  ghost predicate GrantBest(p: Pool, size: nat, k: nat, p': Pool, ret: nat) {
    BestFit(p.avail, size, k) && ret == p.avail[k].start && p' == Take(p, k, size, false)
  }

  /** Slot `k` granted at its front if that keeps within a bank, else at its back. */
  ghost predicate GrantInBank(p: Pool, size: nat, k: nat, p': Pool, ret: nat) {
    && FirstEndFit(p.avail, size, k)
    && var back := !InBank(p.avail[k].start, size);
    ret == Piece(p.avail[k], size, back).start && p' == Take(p, k, size, back)
  }

  /** One call: the result and the state it leaves. Requests that fail change nothing. */
  ghost predicate Next(p: Pool, op: Operation, p': Pool, ret: nat) {
    match op
    case Alloc(size) =>
      if exists k: nat :: Sufficient(p.avail, RoundUp(size), k)
      then exists k: nat :: GrantBest(p, RoundUp(size), k, p', ret)
      else ret == INVALID && p' == p
    case AllocInBank(size) =>
      if exists k: nat :: FirstEndFit(p.avail, RoundUp(size), k)
      then exists k: nat :: GrantInBank(p, RoundUp(size), k, p', ret)
      else ret == INVALID && p' == p
    case Free(addr) => addr in p.inUse && p' == Release(p, addr)
  }

  /** What the caller must respect: sizes that do not round to zero. */
  predicate Proper(op: Operation) {
    match op
    case Alloc(size) => RoundUp(size) > 0
    case AllocInBank(size) => RoundUp(size) > 0
    case Free(_) => true
  }

  /** Every proper step keeps the invariant; a successful request returns fresh, in-pool, aligned-size memory. */
  lemma StepKeepsInv(p: Pool, op: Operation, p': Pool, ret: nat)
    requires Inv(p) && Proper(op) && Next(p, op, p', ret)
    ensures Inv(p')
    ensures !op.Free? && ret != INVALID ==>
              && ret !in p.inUse && p'.inUse == p.inUse[ret := RoundUp(op.size)]
              && ret + RoundUp(op.size) <= p.total
    ensures op.AllocInBank? && ret != INVALID ==> InBank(ret, RoundUp(op.size))
  {
    hide Inv;
    hide Take;
    hide RoundUp;
    hide Carve;
    if !op.Free? { RoundUpMultiple(op.size); }
    match op
    case Alloc(size) =>
      if exists k: nat :: Sufficient(p.avail, RoundUp(size), k) {
        var k: nat :| GrantBest(p, RoundUp(size), k, p', ret);
        GrantKeepsInv(p, k, RoundUp(size), false);
      }
    case AllocInBank(size) =>
      if exists k: nat :: FirstEndFit(p.avail, RoundUp(size), k) {
        var k: nat :| GrantInBank(p, RoundUp(size), k, p', ret);
        GrantKeepsInv(p, k, RoundUp(size), !InBank(p.avail[k].start, RoundUp(size)));
      }
    case Free(addr) =>
      ReleaseKeepsInv(p, addr);
  }

  lemma RoundUpMultiple(size: nat)
    ensures RoundUp(size) % MIN_SLOT_SIZE == 0
  {
  }

  lemma GrantKeepsInv(p: Pool, k: nat, size: nat, back: bool)
    requires Inv(p) && k < |p.avail| && 0 < size <= p.avail[k].size && size % MIN_SLOT_SIZE == 0
    ensures var a, p' := Piece(p.avail[k], size, back).start, Take(p, k, size, back);
            && Inv(p') && a !in p.inUse && a + size <= p.total
            && p'.inUse == p.inUse[a := size]
  {
    hide Inv;
    TakeKeepsInv(p, k, size, back);
  }

  lemma StartNotInUse(p: Pool, k: nat)
    requires Inv(p) && k < |p.avail|
    ensures p.avail[k].start !in p.inUse
  {
    assert p.avail[k] in FreeSet(p.avail) + UsedSet(p.inUse) by { assert p.avail[k] in FreeSet(p.avail); }
    PieceIsNew(p, k, p.avail[k].size, false);
  }

  lemma EmptySlotBreaksInv(p: Pool, a: nat)
    requires a in p.inUse && p.inUse[a] == 0
    ensures !Inv(p)
  {
    var s := Slot(a, 0);
    assert s in UsedSet(p.inUse) && s in FreeSet(p.avail) + UsedSet(p.inUse);
  }

  function Initial(total: nat): Pool {
    Pool(total, [Slot(0, total)], map[], 0)
  }

  lemma InitialInv(total: nat)
    requires 0 < total < INVALID
    ensures Inv(Initial(total))
  {
    var p := Initial(total);
    assert FreeSet(p.avail) + UsedSet(p.inUse) == {Slot(0, total)};
    forall x: nat | x < total
      ensures Covered({Slot(0, total)}, x)
    {
      assert Covers(Slot(0, total), x);
    }
  }

  /** A history of calls: states[i] leads to states[i + 1] by ops[i] returning rets[i]. */
  ghost predicate History(total: nat, states: seq<Pool>, ops: seq<Operation>, rets: seq<nat>) {
    && |states| == |ops| + 1 == |rets| + 1
    && states[0] == Initial(total)
    && forall i :: 0 <= i < |ops| ==> Proper(ops[i]) && Next(states[i], ops[i], states[i + 1], rets[i])
  }

  lemma {:induction false} HistoryInv(total: nat, states: seq<Pool>, ops: seq<Operation>, rets: seq<nat>, i: nat)
    requires 0 < total < INVALID && History(total, states, ops, rets) && i < |states|
    ensures Inv(states[i]) && states[i].total == total
    decreases i
  {
    hide Inv;
    if i == 0 {
      InitialInv(total);
    } else {
      HistoryInv(total, states, ops, rets, i - 1);
      assert Next(states[i - 1], ops[i - 1], states[i], rets[i - 1]);
      StepKeepsInv(states[i - 1], ops[i - 1], states[i], rets[i - 1]);
    }
  }

  /** Whatever the history, live allocations never overlap and stay inside the pool. */
  lemma HistorySafe(total: nat, states: seq<Pool>, ops: seq<Operation>, rets: seq<nat>, i: nat, a: nat, b: nat)
    requires 0 < total < INVALID && History(total, states, ops, rets) && i < |states|
    requires a in states[i].inUse && b in states[i].inUse && a != b
    ensures Apart(Slot(a, states[i].inUse[a]), Slot(b, states[i].inUse[b]))
    ensures a + states[i].inUse[a] <= total
    ensures states[i].count == |states[i].inUse|
  {
    HistoryInv(total, states, ops, rets, i);
    var inUse := states[i].inUse;
    var all := FreeSet(states[i].avail) + UsedSet(inUse);
    assert Slot(a, inUse[a]) in all && Slot(b, inUse[b]) in all;
  }

  /** With nothing in use the free list is the one slot that is the whole pool. */
  lemma Drained(p: Pool)
    requires Inv(p) && p.inUse == map[] && p.total > 0
    ensures p.avail == [Slot(0, p.total)]
  {
    var free := FreeSet(p.avail);
    assert free + UsedSet(p.inUse) == free;
    assert Run(free, 0, p.total);
    var s := RunInSlot(p.total, free, 0, p.total);
    assert s == Slot(0, p.total);
    forall i | 0 <= i < |p.avail|
      ensures p.avail[i] == s
    {
      assert p.avail[i] in free;
      NoOther(p.total, free, s, p.avail[i]);
    }
    AllSame(p.avail, s);
  }

  lemma AllSame(avail: seq<Slot>, s: Slot)
    requires NoDuplicates(avail) && s in avail
    requires forall i :: 0 <= i < |avail| ==> avail[i] == s
    ensures avail == [s]
  {
    var k :| 0 <= k < |avail| && avail[k] == s;
    assert avail[0] == avail[k] && avail[|avail| - 1] == avail[k];
  }

  /** State and call determine the new state and the address. */
  lemma NextDetermined(p: Pool, op: Operation, p1: Pool, r1: nat, p2: Pool, r2: nat)
    requires Next(p, op, p1, r1) && Next(p, op, p2, r2)
    ensures p1 == p2 && (op.Free? || r1 == r2)
  {
    hide RoundUp, InBank, Take, EndFits;
    if op.Alloc? && exists k: nat :: Sufficient(p.avail, RoundUp(op.size), k) {
      var k1: nat :| GrantBest(p, RoundUp(op.size), k1, p1, r1);
      var k2: nat :| GrantBest(p, RoundUp(op.size), k2, p2, r2);
      assert k1 == k2;
    } else if op.AllocInBank? && exists k: nat :: FirstEndFit(p.avail, RoundUp(op.size), k) {
      var k1: nat :| GrantInBank(p, RoundUp(op.size), k1, p1, r1);
      var k2: nat :| GrantInBank(p, RoundUp(op.size), k2, p2, r2);
      assert k1 == k2;
    }
  }

  /** The same calls in the same order are answered with the same addresses. */
  lemma {:induction false} HistoryDetermined(total: nat, ops: seq<Operation>, s1: seq<Pool>, r1: seq<nat>, s2: seq<Pool>, r2: seq<nat>, i: nat)
    requires History(total, s1, ops, r1) && History(total, s2, ops, r2) && i <= |ops|
    ensures s1[i] == s2[i] && (i < |ops| && !ops[i].Free? ==> r1[i] == r2[i])
  {
    hide Next, Proper;
    if i > 0 {
      HistoryDetermined(total, ops, s1, r1, s2, r2, i - 1);
      assert Next(s1[i - 1], ops[i - 1], s1[i], r1[i - 1]) && Next(s2[i - 1], ops[i - 1], s2[i], r2[i - 1]);
      NextDetermined(s1[i - 1], ops[i - 1], s1[i], r1[i - 1], s2[i], r2[i - 1]);
    }
    if i < |ops| {
      assert Next(s1[i], ops[i], s1[i + 1], r1[i]) && Next(s2[i], ops[i], s2[i + 1], r2[i]);
      NextDetermined(s1[i], ops[i], s1[i + 1], r1[i], s2[i + 1], r2[i]);
    }
  }

  /** Freed in any order, the pool is as it was created. */
  lemma HistoryDrains(total: nat, states: seq<Pool>, ops: seq<Operation>, rets: seq<nat>, i: nat)
    requires 0 < total < INVALID && History(total, states, ops, rets) && i < |states|
    requires states[i].inUse == map[]
    ensures states[i] == Initial(total)
  {
    HistoryInv(total, states, ops, rets, i);
    Drained(states[i]);
  }
}
