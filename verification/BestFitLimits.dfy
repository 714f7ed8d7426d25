/**
 Where the best-fit pool stops keeping its promises: requests that round to zero, and in-bank
 requests in pools of more than two banks. Both conditions are exact.
 */
module BestFitLimits {
  import opened BestFitPool

  // ----- Requests that round to zero ------------------------------------------------------------

  /** A call keeps the invariant exactly when its size does not round to zero, or nothing is free anyway. */
  lemma StepKeepsInvIff(p: Pool, op: Operation, p': Pool, ret: nat)
    requires Inv(p) && Next(p, op, p', ret)
    ensures Inv(p') <==> Proper(op) || p.avail == []
  {
    hide Inv;
    if Proper(op) {
      StepKeepsInv(p, op, p', ret);
    } else if p.avail != [] {
      ZeroGrant(p, op, p', ret);
      EmptySlotBreaksInv(p', ret);
    }
  }

  /** A zero request is granted the front of a free slot: an empty entry in the table, the free list as before. */
  lemma ZeroGrant(p: Pool, op: Operation, p': Pool, ret: nat)
    requires Inv(p) && Next(p, op, p', ret) && !Proper(op) && p.avail != []
    ensures exists k: nat :: k < |p.avail| && ret == p.avail[k].start
    ensures ret !in p.inUse && p'.inUse == p.inUse[ret := 0]
    ensures p'.avail == p.avail && p'.total == p.total && p'.count == p.count + 1
  {
    hide Inv;
    var k: nat;
    if op.Alloc? {
      assert Sufficient(p.avail, 0, 0);
      k :| GrantBest(p, 0, k, p', ret);
    } else {
      assert FirstEndFit(p.avail, 0, 0);
      k :| GrantInBank(p, 0, k, p', ret);
    }
    SlotSizes(p, k);
    StartNotInUse(p, k);
  }

  lemma SlotSizes(p: Pool, k: nat)
    requires Inv(p) && k < |p.avail|
    ensures p.avail[k].size > 0 && p.avail[k].End() <= p.total
  {
    assert p.avail[k] in FreeSet(p.avail);
    assert p.avail[k] in FreeSet(p.avail) + UsedSet(p.inUse);
  }

  /** Who grants what: the slot a proper request is served from. */
  lemma GrantedFrom(p: Pool, op: Operation, p': Pool, ret: nat) returns (k: nat, back: bool)
    requires !op.Free? && Next(p, op, p', ret) && ret != INVALID
    ensures k < |p.avail| && RoundUp(op.size) <= p.avail[k].size
    ensures ret == Piece(p.avail[k], RoundUp(op.size), back).start && p' == Take(p, k, RoundUp(op.size), back)
  {
    if op.Alloc? {
      k :| GrantBest(p, RoundUp(op.size), k, p', ret);
      back := false;
    } else {
      k :| GrantInBank(p, RoundUp(op.size), k, p', ret);
      back := !InBank(p.avail[k].start, RoundUp(op.size));
    }
  }

  /**
   What the empty entry does: a later request granted at the same address is not recorded, and once
   that address is freed the range is neither free nor in use, for good.
   */
  lemma RangeLost(p: Pool, zero: Operation, p1: Pool, op: Operation, p2: Pool, p3: Pool, a: nat, ret: nat, x: nat)
    requires Inv(p) && p.avail != [] && !Proper(zero) && Next(p, zero, p1, a)
    requires !op.Free? && Proper(op) && Next(p1, op, p2, a) && a != INVALID
    requires Next(p2, Free(a), p3, ret)
    requires a <= x < a + RoundUp(op.size)
    ensures p2.inUse[a] == 0
    ensures !Covered(FreeSet(p3.avail), x) && !UsedAt(p3.inUse, x)
  {
    hide Inv;
    hide Next;
    hide RoundUp;
    ZeroGrant(p, zero, p1, a);
    var k, back := GrantedFrom(p1, op, p2, a);
    var n := RoundUp(op.size);
    RoundUpMultiple(op.size);
    var q := Take(p, k, n, back);
    GrantKeepsInv(p, k, n, back);
    assert q.avail == p2.avail && p2.inUse == p1.inUse;
    NotFree(q, a, n, x);
    NotFree(q, a, n, a);
    forall i | 0 <= i < |q.avail|
      ensures q.avail[i].size > 0
    {
      SlotSizes(q, i);
    }
    FreedEmpty(p2, a, p3, ret, x);
    NotUsed(p, q, a, n, x);
    assert p3.inUse == p.inUse;
  }

  /** Such a run, in every pool of more than one slot: Alloc(0), Alloc(4096), Free(0), and 4096 bytes are gone. */
  lemma LosingRun(total: nat) returns (p1: Pool, p2: Pool, p3: Pool)
    requires MIN_SLOT_SIZE < total < INVALID
    ensures Inv(Initial(total)) && Next(Initial(total), Alloc(0), p1, 0)
    ensures Next(p1, Alloc(MIN_SLOT_SIZE), p2, 0) && Next(p2, Free(0), p3, 0)
    ensures p3.inUse == map[] && forall x: nat :: x < MIN_SLOT_SIZE ==> !Covered(FreeSet(p3.avail), x)
  {
    var p, n := Initial(total), MIN_SLOT_SIZE;
    InitialInv(total);
    p1 := Pool(total, [Slot(0, total)], map[0 := 0], 1);
    p2 := Pool(total, [Slot(n, total - n)], map[0 := 0], 2);
    p3 := Pool(total, [Slot(n, total - n), Slot(0, 0)], map[], 1);
    FrontGrant(p, 0, 0, p1);
    FrontGrant(p1, n, n, p2);
    assert FindPrev(p2.avail, 0) == 1 && FindNext(p2.avail, 0) == 1;
    assert p2.inUse - {0} == map[];
    assert Next(p2, Free(0), p3, 0);
    forall x: nat | x < n
      ensures !Covered(FreeSet(p3.avail), x)
    {
      RangeLost(p, Alloc(0), p1, Alloc(n), p2, p3, 0, 0, x);
    }
  }

  /** The only free slot is the best fit for whatever it is large enough for. */
  lemma FrontGrant(p: Pool, size: nat, n: nat, p': Pool)
    requires |p.avail| == 1 && RoundUp(size) == n < p.avail[0].size && p' == Take(p, 0, n, false)
    ensures Next(p, Alloc(size), p', p.avail[0].start)
  {
    hide Take;
    assert Sufficient(p.avail, n, 0);
    assert GrantBest(p, n, 0, p', p.avail[0].start);
  }

  lemma NotFree(q: Pool, a: nat, n: nat, x: nat)
    requires Inv(q) && a in q.inUse && q.inUse[a] == n && a <= x < a + n <= q.total
    ensures !Covered(FreeSet(q.avail), x)
  {
    hide Inv;
    assert UsedAt(q.inUse, x);
    FreeIffNotUsed(q, x);
  }

  /** What was just granted was not in use. */
  lemma NotUsed(p: Pool, q: Pool, a: nat, n: nat, x: nat)
    requires Inv(p) && Inv(q) && a !in p.inUse && q.inUse == p.inUse[a := n] && a <= x < a + n <= q.total
    ensures !UsedAt(p.inUse, x)
  {
    if b :| b in p.inUse && b <= x < b + p.inUse[b] {
      LiveApart(q, a, b);
    }
  }

  lemma LiveApart(q: Pool, a: nat, b: nat)
    requires Inv(q) && a in q.inUse && b in q.inUse && a != b
    ensures Apart(Slot(a, q.inUse[a]), Slot(b, q.inUse[b]))
  {
    var all := FreeSet(q.avail) + UsedSet(q.inUse);
    assert Slot(a, q.inUse[a]) in all && Slot(b, q.inUse[b]) in all;
  }

  /** Freeing an empty entry covers nothing new. */
  lemma FreedEmpty(p: Pool, a: nat, p': Pool, ret: nat, x: nat)
    requires Next(p, Free(a), p', ret) && p.inUse[a] == 0
    requires !Covered(FreeSet(p.avail), a) && !Covered(FreeSet(p.avail), x)
    requires forall k :: 0 <= k < |p.avail| ==> p.avail[k].size > 0
    ensures !Covered(FreeSet(p'.avail), x) && p'.inUse == p.inUse - {a}
  {
    var s := Slot(a, 0);
    var i, j := FindPrev(p.avail, a), FindNext(p.avail, a);
    if j < |p.avail| {
      assert p.avail[j] in FreeSet(p.avail) && Covers(p.avail[j], a);
    }
    if i == |p.avail| {
      assert p'.avail == p.avail + [s];
      assert forall t :: t in FreeSet(p'.avail) ==> t in FreeSet(p.avail) || t == s;
    } else {
      assert p'.avail == p.avail;
    }
  }

  // ----- In-bank requests -----------------------------------------------------------------------

  /** An in-bank request is refused although a free range inside one bank would do. */
  ghost predicate Misses(p: Pool, size: nat) {
    Next(p, AllocInBank(size), p, INVALID) && exists x :: BankRange(p, x, RoundUp(size))
  }

  lemma FirstFitExists(avail: seq<Slot>, size: nat, k: nat)
    requires k < |avail| && EndFits(avail[k], size)
    ensures exists i: nat :: FirstEndFit(avail, size, i)
  {
    if j :| 0 <= j < k && EndFits(avail[j], size) {
      FirstFitExists(avail, size, j);
    } else {
      assert FirstEndFit(avail, size, k);
    }
  }

  lemma RefusedIff(p: Pool, size: nat)
    ensures Next(p, AllocInBank(size), p, INVALID) <==> forall s :: s in FreeSet(p.avail) ==> !EndFits(s, RoundUp(size))
  {
    hide RoundUp;
    hide EndFits;
    if exists k: nat :: FirstEndFit(p.avail, RoundUp(size), k) {
      var k: nat :| FirstEndFit(p.avail, RoundUp(size), k);
      assert p.avail[k] in FreeSet(p.avail);
    } else if s :| s in FreeSet(p.avail) && EndFits(s, RoundUp(size)) {
      var k :| 0 <= k < |p.avail| && p.avail[k] == s;
      FirstFitExists(p.avail, RoundUp(size), k);
    }
  }

  /** State by state: a request is missed exactly when no end of a free slot fits and some middle does. */
  lemma MissesIff(p: Pool, size: nat)
    requires Inv(p) && RoundUp(size) > 0
    ensures Misses(p, size) <==>
      && (forall s :: s in FreeSet(p.avail) ==> !EndFits(s, RoundUp(size)))
      && (exists s :: s in FreeSet(p.avail) && MiddleFits(s, RoundUp(size)))
  {
    hide Inv;
    hide Next;
    hide RoundUp;
    hide EndFits;
    hide MiddleFits;
    hide BankRange;
    RefusedIff(p, size);
    BankRangeIff(p, RoundUp(size));
  }

  /** No history of calls on a pool of this size ever misses an in-bank request. */
  ghost predicate NeverMisses(total: nat) {
    forall states, ops, rets, i: nat, size: nat ::
      History(total, states, ops, rets) && i < |states| && RoundUp(size) > 0 ==> !Misses(states[i], size)
  }

  // ----- A history that misses ------------------------------------------------------------------

  const SLOT := MIN_SLOT_SIZE

  /** The middle of the pool, across both ends of bank 1. */
  const MIDDLE := Slot(BANK_SIZE - SLOT, BANK_SIZE + 2 * SLOT)

  /** All but one slot of bank 0 taken. */
  function AfterFirst(total: nat): Pool
    requires total > 2 * BANK_SIZE
  {
    Pool(total, [Slot(BANK_SIZE - SLOT, total - (BANK_SIZE - SLOT))], map[0 := BANK_SIZE - SLOT], 1)
  }

  lemma RoundUpExact(n: nat)
    requires n % SLOT == 0 && n < INVALID
    ensures RoundUp(n) == n
  {
  }

  /** A request that takes the front of the only free slot. */
  lemma AllocFront(p: Pool, n: nat, p': Pool)
    requires |p.avail| == 1 && 0 < n < p.avail[0].size && n % SLOT == 0 && n < INVALID && p.avail[0].start !in p.inUse
    requires p' == Pool(p.total, [Slot(p.avail[0].start + n, p.avail[0].size - n)], p.inUse[p.avail[0].start := n], p.count + 1)
    ensures Proper(Alloc(n)) && Next(p, Alloc(n), p', p.avail[0].start)
  {
    RoundUpExact(n);
    hide RoundUp;
    assert Sufficient(p.avail, n, 0);
    assert p' == Take(p, 0, n, false) by { assert Carve(p.avail, 0, n, false) == p'.avail; }
    assert GrantBest(p, n, 0, p', p.avail[0].start);
  }

  lemma FirstStep(total: nat)
    requires 2 * BANK_SIZE < total < INVALID
    ensures History(total, [Initial(total), AfterFirst(total)], [Alloc(BANK_SIZE - SLOT)], [0])
  {
    hide Next;
    AllocFront(Initial(total), BANK_SIZE - SLOT, AfterFirst(total));
  }

  /** Just above two banks the first request is enough: both ends of what is left lie across a boundary. */
  lemma MissesSmall(total: nat)
    requires 2 * BANK_SIZE < total < 2 * BANK_SIZE + 2 * SLOT
    ensures Misses(AfterFirst(total), 2 * SLOT)
  {
    var p := AfterFirst(total);
    var s := p.avail[0];
    FirstStep(total);
    HistoryInv(total, [Initial(total), p], [Alloc(BANK_SIZE - SLOT)], [0], 1);
    RoundUpExact(2 * SLOT);
    assert s in FreeSet(p.avail) && MiddleFits(s, 2 * SLOT);
    assert !EndFits(s, 2 * SLOT);
    MissesIff(p, 2 * SLOT);
  }

  /** ... and the middle taken. */
  function AfterSecond(total: nat): Pool
    requires total >= 2 * BANK_SIZE + 2 * SLOT
  {
    Pool(total, [Slot(MIDDLE.End(), total - MIDDLE.End())], map[0 := BANK_SIZE - SLOT, MIDDLE.start := MIDDLE.size], 2)
  }

  /** Whole slots behind the middle. */
  function Tail(total: nat): nat
    requires total >= 2 * BANK_SIZE + 2 * SLOT
  {
    (total - MIDDLE.End()) / SLOT * SLOT
  }

  /** What is too small for any request. */
  function Remnant(total: nat): seq<Slot>
    requires total >= 2 * BANK_SIZE + 2 * SLOT
  {
    var rest := total - MIDDLE.End() - Tail(total);
    if rest == 0 then [] else [Slot(MIDDLE.End() + Tail(total), rest)]
  }

  function AfterThird(total: nat): Pool
    requires total >= 2 * BANK_SIZE + 2 * SLOT
  {
    Pool(total, Remnant(total), AfterSecond(total).inUse[MIDDLE.End() := Tail(total)], 3)
  }

  function AfterFree(total: nat): Pool
    requires total >= 2 * BANK_SIZE + 2 * SLOT
  {
    Pool(total, Remnant(total) + [MIDDLE], AfterThird(total).inUse - {MIDDLE.start}, 2)
  }

  lemma SecondStep(total: nat)
    requires 2 * BANK_SIZE + 2 * SLOT <= total < INVALID
    ensures Proper(Alloc(MIDDLE.size)) && Next(AfterFirst(total), Alloc(MIDDLE.size), AfterSecond(total), MIDDLE.start)
  {
    hide Next;
    AllocFront(AfterFirst(total), MIDDLE.size, AfterSecond(total));
  }

  lemma TailSize(total: nat)
    requires 2 * BANK_SIZE + 2 * SLOT <= total
    ensures Tail(total) % SLOT == 0 && SLOT <= Tail(total) <= total - MIDDLE.End() < Tail(total) + SLOT
  {
  }

  lemma ThirdStep(total: nat)
    requires 2 * BANK_SIZE + 2 * SLOT <= total < INVALID
    ensures Proper(Alloc(Tail(total))) && Next(AfterSecond(total), Alloc(Tail(total)), AfterThird(total), MIDDLE.End())
  {
    hide Next;
    TailSize(total);
    hide Tail;
    var p := AfterSecond(total);
    if Tail(total) < p.avail[0].size {
      AllocFront(p, Tail(total), AfterThird(total));
    } else {
      AllocWhole(p, Tail(total), AfterThird(total));
    }
  }

  lemma AllocWhole(p: Pool, n: nat, p': Pool)
    requires |p.avail| == 1 && 0 < n == p.avail[0].size && n % SLOT == 0 && n < INVALID && p.avail[0].start !in p.inUse
    requires p' == Pool(p.total, [], p.inUse[p.avail[0].start := n], p.count + 1)
    ensures Proper(Alloc(n)) && Next(p, Alloc(n), p', p.avail[0].start)
  {
    RoundUpExact(n);
    hide RoundUp;
    assert Sufficient(p.avail, n, 0);
    assert p' == Take(p, 0, n, false) by { assert Carve(p.avail, 0, n, false) == p'.avail; }
    assert GrantBest(p, n, 0, p', p.avail[0].start);
  }

  lemma FreeStep(total: nat)
    requires 2 * BANK_SIZE + 2 * SLOT <= total < INVALID
    ensures Next(AfterThird(total), Free(MIDDLE.start), AfterFree(total), 0)
  {
    TailSize(total);
    hide Tail;
    var avail := Remnant(total);
    assert FindPrev(avail, MIDDLE.start) == |avail| && FindNext(avail, MIDDLE.End()) == |avail|;
  }

  /** The whole history, for every pool at least two slots above two banks. */
  lemma LongHistory(total: nat) returns (states: seq<Pool>, ops: seq<Operation>, rets: seq<nat>)
    requires 2 * BANK_SIZE + 2 * SLOT <= total < INVALID
    ensures History(total, states, ops, rets) && |states| == 5 && states[4] == AfterFree(total)
  {
    FirstStep(total);
    SecondStep(total);
    ThirdStep(total);
    FreeStep(total);
    hide Next, AfterFirst, AfterSecond, AfterThird, AfterFree, Tail;
    states := [Initial(total), AfterFirst(total), AfterSecond(total), AfterThird(total), AfterFree(total)];
    ops := [Alloc(BANK_SIZE - SLOT), Alloc(MIDDLE.size), Alloc(Tail(total)), Free(MIDDLE.start)];
    rets := [0, MIDDLE.start, MIDDLE.End(), 0];
    assert Next([Initial(total), AfterFirst(total)][0], [Alloc(BANK_SIZE - SLOT)][0], [Initial(total), AfterFirst(total)][1], [0][0]);
    forall i | 0 <= i < 4
      ensures Proper(ops[i]) && Next(states[i], ops[i], states[i + 1], rets[i])
    {
      if i == 0 {
        assert Proper([Alloc(BANK_SIZE - SLOT)][0]);
      }
    }
  }

  lemma MissesLarge(total: nat)
    requires 2 * BANK_SIZE + 2 * SLOT <= total < INVALID
    ensures Misses(AfterFree(total), 2 * SLOT)
  {
    var states, ops, rets := LongHistory(total);
    HistoryInv(total, states, ops, rets, 4);
    hide Inv, Next;
    var p := AfterFree(total);
    RoundUpExact(2 * SLOT);
    hide RoundUp;
    MiddleStraddles();
    TailSize(total);
    hide EndFits, MiddleFits, Tail;
    assert MIDDLE in FreeSet(p.avail);
    forall s | s in FreeSet(p.avail)
      ensures !EndFits(s, 2 * SLOT)
    {
      if s != MIDDLE {
        TooSmall(s, 2 * SLOT);
      }
    }
    MissesIff(p, 2 * SLOT);
  }

  lemma MiddleStraddles()
    ensures MiddleFits(MIDDLE, 2 * SLOT) && !EndFits(MIDDLE, 2 * SLOT)
  {
  }

  lemma TooSmall(s: Slot, size: nat)
    requires s.size < size
    ensures !EndFits(s, size)
  {
  }

  /** In-bank completeness, over every history: it holds exactly for pools of at most two banks. */
  lemma InBankCompleteIff(total: nat)
    requires 0 < total < INVALID
    ensures NeverMisses(total) <==> total <= 2 * BANK_SIZE
  {
    hide Misses;
    if total <= 2 * BANK_SIZE {
      forall states, ops, rets, i: nat, size: nat | History(total, states, ops, rets) && i < |states| && RoundUp(size) > 0
        ensures !Misses(states[i], size)
      {
        HistoryInv(total, states, ops, rets, i);
        TwoBanks(states[i], size);
      }
    } else if total < 2 * BANK_SIZE + 2 * SLOT {
      FirstStep(total);
      MissesSmall(total);
      RoundUpExact(2 * SLOT);
      assert Misses([Initial(total), AfterFirst(total)][1], 2 * SLOT);
    } else {
      var states, ops, rets := LongHistory(total);
      MissesLarge(total);
      RoundUpExact(2 * SLOT);
      assert Misses(states[4], 2 * SLOT);
    }
  }

  lemma TwoBanks(p: Pool, size: nat)
    requires Inv(p) && RoundUp(size) > 0 && p.total <= 2 * BANK_SIZE
    ensures !Misses(p, size)
  {
    hide Inv, RoundUp, EndFits, MiddleFits, Next;
    MissesIff(p, size);
    TwoBanksMissNothing(p, RoundUp(size));
    BankRangeIff(p, RoundUp(size));
  }
}
