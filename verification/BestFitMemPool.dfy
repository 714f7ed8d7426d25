/**
 mem_pool_t of src/common/mmpool.cpp as an object: each entry point updates the free list and the
 in-use table in place and is proved to be a step of the pool model.
 */
module BestFitMemPool {
  import opened BestFitPool

  class MemPool {
    var totalSize: nat
    var numSlotsInUse: int
    var slotAvail: seq<Slot>
    var slotInUse: map<nat, nat>

    ghost function State(): Pool
      reads this
    {
      Pool(totalSize, slotAvail, slotInUse, numSlotsInUse)
    }

    /** mem_pool_create */
    constructor (total: nat)
      requires total < INVALID
      ensures State() == Initial(total)
      ensures total > 0 ==> Inv(State())
    {
      totalSize := total;
      slotAvail := [Slot(0, total)];
      slotInUse := map[];
      numSlotsInUse := 0;
      new;
      if total > 0 { InitialInv(total); }
    }

    /** find_slot: the index of the first of the smallest sufficient slots, or the length of the list. */
    method FindBest(size: nat) returns (k: nat)
      requires size % MIN_SLOT_SIZE == 0
      requires forall i :: 0 <= i < |slotAvail| ==> slotAvail[i].size > 0
      ensures k <= |slotAvail|
      ensures k < |slotAvail| ==> BestFit(slotAvail, size, k)
      ensures k == |slotAvail| ==> forall i :: !Sufficient(slotAvail, size, i)
    {
      k := |slotAvail|;
      var minSize: nat := 0;
      for i := 0 to |slotAvail|
        invariant k < i || k == |slotAvail|
        invariant k < |slotAvail| <==> minSize > 0
        invariant k < |slotAvail| ==> slotAvail[k].size == minSize >= size
        invariant k == |slotAvail| ==> forall j :: 0 <= j < i ==> slotAvail[j].size < size
        invariant k < |slotAvail| ==> forall j :: 0 <= j < i && slotAvail[j].size >= size ==> minSize <= slotAvail[j].size
        invariant k < |slotAvail| ==> forall j :: 0 <= j < k ==> slotAvail[j].size != minSize
      {
        if slotAvail[i].size >= size {
          if minSize == 0 || slotAvail[i].size < minSize {
            k, minSize := i, slotAvail[i].size;
          }
        }
      }
    }

    /** mem_pool_alloc */
    method Allocate(size: nat) returns (addr: nat)
      requires Inv(State()) && numSlotsInUse < SLOT_NUM && size < U64_RANGE
      modifies this
      ensures Next(old(State()), Alloc(size), State(), addr)
      ensures RoundUp(size) > 0 ==> Inv(State())
      ensures RoundUp(size) > 0 ==>
                (addr == 0xff_ffff_ffff <==> forall x: nat :: x + RoundUp(size) <= totalSize ==> Blocked(old(slotInUse), x, RoundUp(size)))
    {
      hide Inv;
      hide Next;
      hide BestFit;
      hide Blocked;
      ghost var before := State();
      RoundUpMultiple(size);
      var sizeToAlloc := (size + MIN_SLOT_SIZE - 1) % U64_RANGE / MIN_SLOT_SIZE * MIN_SLOT_SIZE;
      assert sizeToAlloc == RoundUp(size);
      AvailBounds(before);
      var k := FindBest(sizeToAlloc);
      AllocOutcome(before, size, k);
      if k == |slotAvail| {
        addr := INVALID;
        return;
      }
      addr := slotAvail[k].start;
      if slotAvail[k].size == sizeToAlloc {
        slotAvail := slotAvail[..k] + slotAvail[k + 1..];
      } else {
        slotAvail := slotAvail[k := Slot(addr + sizeToAlloc, slotAvail[k].size - sizeToAlloc)];
      }
      slotInUse := if addr in slotInUse then slotInUse else slotInUse[addr := sizeToAlloc];
      numSlotsInUse := numSlotsInUse + 1;
      assert State() == Take(before, k, sizeToAlloc, false);
      if sizeToAlloc > 0 { StepKeepsInv(before, Alloc(size), State(), addr); }
    }

    /** mem_pool_free */
    method Deallocate(addr: nat)
      requires Inv(State()) && addr in slotInUse
      modifies this
      ensures Next(old(State()), Free(addr), State(), 0)
      ensures Inv(State())
    {
      hide Inv;
      hide FindPrev;
      hide FindNext;
      ghost var before := State();
      ReleaseKeepsInv(before, addr);
      SizeIsMultiple(before, addr);
      var size := slotInUse[addr];
      assert size % MIN_SLOT_SIZE == 0;
      slotInUse := slotInUse - {addr};
      numSlotsInUse := numSlotsInUse - 1;
      PutBack(addr, size);
    }

    /** The four cases of merging a returned slot with its neighbours. */
    method PutBack(addr: nat, size: nat)
      modifies this`slotAvail
      ensures slotAvail == Merge(old(slotAvail), Slot(addr, size))
    {
      hide FindPrev;
      hide FindNext;
      var prev, next := FindPrev(slotAvail, addr), FindNext(slotAvail, addr + size);
      var end := |slotAvail|;
      if prev == end && next == end {
        slotAvail := slotAvail + [Slot(addr, size)];
      } else if prev == end {
        slotAvail := slotAvail[next := Slot(addr, slotAvail[next].size + size)];
      } else if next == end {
        slotAvail := slotAvail[prev := Slot(slotAvail[prev].start, slotAvail[prev].size + size)];
      } else {
        slotAvail := slotAvail[prev := Slot(slotAvail[prev].start, slotAvail[prev].size + (size + slotAvail[next].size))];
        slotAvail := slotAvail[..next] + slotAvail[next + 1..];
      }
    }

    /** find_slot_in_bank: the first slot whose front, or else back, keeps within a bank. */
    method FindInBank(size: nat) returns (k: nat, back: bool)
      ensures k <= |slotAvail|
      ensures k < |slotAvail| ==> FirstEndFit(slotAvail, size, k) && back == !InBank(slotAvail[k].start, size)
      ensures k == |slotAvail| ==> forall i :: 0 <= i < |slotAvail| ==> !EndFits(slotAvail[i], size)
    {
      k, back := 0, false;
      while k < |slotAvail|
        invariant k <= |slotAvail|
        invariant forall i :: 0 <= i < k ==> !EndFits(slotAvail[i], size)
      {
        var s := slotAvail[k];
        if s.size >= size {
          if InBank(s.start, size) {
            back := false;
            return;
          } else if InBank(s.End() - size, size) {
            back := true;
            return;
          }
        }
        k := k + 1;
      }
    }

    /** mem_pool_alloc_in_bank */
    method AllocateInBank(size: nat) returns (addr: nat)
      requires Inv(State()) && numSlotsInUse < SLOT_NUM && size < U64_RANGE
      modifies this
      ensures Next(old(State()), AllocInBank(size), State(), addr)
      ensures RoundUp(size) > 0 ==> Inv(State())
      ensures addr != INVALID ==> InBank(addr, RoundUp(size))
      ensures addr == INVALID <==> !exists s :: s in FreeSet(old(slotAvail)) && EndFits(s, RoundUp(size))
    {
      hide Inv;
      hide Next;
      hide InBank;
      ghost var before := State();
      var sizeToAlloc := (size + MIN_SLOT_SIZE - 1) % U64_RANGE / MIN_SLOT_SIZE * MIN_SLOT_SIZE;
      assert sizeToAlloc == RoundUp(size);
      AvailBounds(before);
      var k, back := FindInBank(sizeToAlloc);
      InBankOutcome(before, size, k);
      if k == |slotAvail| {
        addr := INVALID;
        return;
      }
      addr := if !back then slotAvail[k].start else slotAvail[k].End() - sizeToAlloc;
      if slotAvail[k].size == sizeToAlloc {
        slotAvail := slotAvail[..k] + slotAvail[k + 1..];
      } else if !back {
        slotAvail := slotAvail[k := Slot(slotAvail[k].start + sizeToAlloc, slotAvail[k].size - sizeToAlloc)];
      } else {
        slotAvail := slotAvail[k := Slot(slotAvail[k].start, slotAvail[k].size - sizeToAlloc)];
      }
      slotInUse := if addr in slotInUse then slotInUse else slotInUse[addr := sizeToAlloc];
      numSlotsInUse := numSlotsInUse + 1;
      assert State() == Take(before, k, sizeToAlloc, back);
      if sizeToAlloc > 0 { StepKeepsInv(before, AllocInBank(size), State(), addr); }
    }

    /** mem_pool_destroy: its sanity checks hold whenever everything has been freed. */
    method Destroy()
      requires Inv(State()) && totalSize > 0 && slotInUse == map[]
      ensures slotAvail == [Slot(0, totalSize)] && numSlotsInUse == 0
    {
      Drained(State());
      assert slotAvail[0].start == 0 && slotAvail[0].size == totalSize;
    }
  }

  lemma AvailBounds(p: Pool)
    requires Inv(p)
    ensures p.total < INVALID
    ensures forall i :: 0 <= i < |p.avail| ==> p.avail[i].size > 0 && p.avail[i].End() <= p.total
  {
    forall i | 0 <= i < |p.avail|
      ensures p.avail[i].size > 0 && p.avail[i].End() <= p.total
    {
      assert p.avail[i] in FreeSet(p.avail) + UsedSet(p.inUse);
    }
  }

  lemma SizeIsMultiple(p: Pool, addr: nat)
    requires Inv(p) && addr in p.inUse
    ensures p.inUse[addr] % MIN_SLOT_SIZE == 0
  {
  }

  /** Either no slot suffices, and every range is blocked, or a best fit is found and granted. */
  lemma AllocOutcome(p: Pool, size: nat, k: nat)
    requires Inv(p) && k <= |p.avail|
    requires k < |p.avail| ==> BestFit(p.avail, RoundUp(size), k)
    requires k == |p.avail| ==> forall i: nat :: !Sufficient(p.avail, RoundUp(size), i)
    ensures k < |p.avail| ==> RoundUp(size) <= p.avail[k].size
    ensures k < |p.avail| ==> Next(p, Alloc(size), Take(p, k, RoundUp(size), false), p.avail[k].start)
    ensures k == |p.avail| ==> Next(p, Alloc(size), p, INVALID)
    ensures RoundUp(size) > 0 ==>
              (k == |p.avail| <==> forall x: nat :: x + RoundUp(size) <= p.total ==> Blocked(p.inUse, x, RoundUp(size)))
  {
    hide Inv;
    hide RoundUp;
    if RoundUp(size) > 0 { NoSlotIffBlocked(p, RoundUp(size)); }
    if k < |p.avail| {
      assert Sufficient(p.avail, RoundUp(size), k);
      assert GrantBest(p, RoundUp(size), k, Take(p, k, RoundUp(size), false), p.avail[k].start);
    }
  }

  lemma InBankOutcome(p: Pool, size: nat, k: nat)
    requires k <= |p.avail|
    requires k < |p.avail| ==> FirstEndFit(p.avail, RoundUp(size), k)
    requires k == |p.avail| ==> forall i :: 0 <= i < |p.avail| ==> !EndFits(p.avail[i], RoundUp(size))
    ensures k < |p.avail| ==>
              && RoundUp(size) <= p.avail[k].size
              && var back := !InBank(p.avail[k].start, RoundUp(size));
              && Next(p, AllocInBank(size), Take(p, k, RoundUp(size), back), Piece(p.avail[k], RoundUp(size), back).start)
              && InBank(Piece(p.avail[k], RoundUp(size), back).start, RoundUp(size))
    ensures k == |p.avail| ==> Next(p, AllocInBank(size), p, INVALID)
    ensures k == |p.avail| <==> !exists s :: s in FreeSet(p.avail) && EndFits(s, RoundUp(size))
  {
    hide RoundUp;
    hide InBank;
    if k < |p.avail| {
      var back := !InBank(p.avail[k].start, RoundUp(size));
      assert GrantInBank(p, RoundUp(size), k, Take(p, k, RoundUp(size), back), Piece(p.avail[k], RoundUp(size), back).start);
      assert p.avail[k] in FreeSet(p.avail);
    }
  }
}
