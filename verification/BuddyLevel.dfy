/**
 One block set of the buddy pool: the array of quad-blocks of a level, its used entries forming a
 prefix. A quad-block is the address of a split block and the status bits of its four children
 (a set of child numbers); an unused entry has the invalid address.
 */
module BuddyLevel {
  import opened BuddyTree

  const INVALID := 0xff_ffff_ffff

  datatype Quad = Quad(addr: nat, status: set<nat>)

  const FULL: set<nat> := {0, 1, 2, 3}

  /** Entry k of the array: its address is used and its status says which children are free. */
  ghost predicate EntryOk(q: Quad, addrs: set<nat>, free: set<nat>, s: nat) {
    && q.addr in addrs && q.addr != INVALID && q.status <= FULL
    && (0 in q.status <==> q.addr in free)
    && (1 in q.status <==> q.addr + s in free)
    && (2 in q.status <==> q.addr + 2 * s in free)
    && (3 in q.status <==> q.addr + 3 * s in free)
  }

  /** The array holds exactly the quads `addrs`, hole-free from the front, and the free blocks `free`. */
  ghost predicate LevelRel(qs: seq<Quad>, addrs: set<nat>, free: set<nat>, s: nat) {
    && |addrs| <= |qs|
    && (forall i :: 0 <= i < |addrs| ==> EntryOk(qs[i], addrs, free, s))
    && (forall i :: |addrs| <= i < |qs| ==> qs[i].addr == INVALID)
    && (forall i, j :: 0 <= i < j < |addrs| ==> qs[i].addr != qs[j].addr)
    && (forall a :: a in addrs ==> exists i :: 0 <= i < |addrs| && qs[i].addr == a)
    && free <= Children(addrs, s)
  }

  /** find_lsb_set - 1: the lowest free child. */
  function LowestSet(status: set<nat>): nat {
    if 0 in status then 0 else if 1 in status then 1 else if 2 in status then 2 else 3
  }

  // ----- get_existing_block ---------------------------------------------------------------------

  /** Entry `i` is the first with a free child, and gives up its lowest one, at `block`. */
  ghost predicate GivesUp(qs: seq<Quad>, s: nat, i: nat, block: nat, qs': seq<Quad>) {
    && i < |qs| && qs[i].addr != INVALID && qs[i].status != {}
    && (forall k :: 0 <= k < i ==> qs[k].status == {} && qs[k].addr != INVALID)
    && block == qs[i].addr + LowestSet(qs[i].status) * s
    && qs' == qs[i := Quad(qs[i].addr, qs[i].status - {LowestSet(qs[i].status)})]
  }

  /** The first entry with a free child gives up its lowest one; unused entries end the search. */
  method ScanLevel(qs: seq<Quad>, s: nat) returns (found: bool, block: nat, i: nat, qs': seq<Quad>)
    requires 0 < |qs|
    ensures i <= |qs| && forall k :: 0 <= k < i ==> qs[k].status == {} && qs[k].addr != INVALID
    ensures found ==> GivesUp(qs, s, i, block, qs')
    ensures !found ==> (i == |qs| || qs[i].addr == INVALID) && qs' == qs
  {
    i, found, block, qs' := 0, false, 0, qs;
    while true
      invariant 0 <= i < |qs|
      invariant forall k :: 0 <= k < i ==> qs[k].status == {} && qs[k].addr != INVALID
      decreases |qs| - i
    {
      if qs[i].addr == INVALID {
        break;
      }
      if qs[i].status != {} {
        var bit := LowestSet(qs[i].status);
        found, block := true, qs[i].addr + bit * s;
        qs' := qs[i := Quad(qs[i].addr, qs[i].status - {bit})];
        return;
      }
      i := i + 1;
      if i >= |qs| {
        break;
      }
    }
  }

  method GetExisting(qs: seq<Quad>, s: nat, ghost addrs: set<nat>, ghost free: set<nat>)
    returns (found: bool, block: nat, i: nat, qs': seq<Quad>)
    requires LevelRel(qs, addrs, free, s) && 0 < |qs| && s > 0 && Spaced(addrs, 4 * s)
    ensures found ==> block in free && LevelRel(qs', addrs, free - {block}, s) && GivesUp(qs, s, i, block, qs')
    ensures !found ==> free == {} && i == |addrs| && qs' == qs
    ensures |qs'| == |qs|
  {
    hide LevelRel;
    found, block, i, qs' := ScanLevel(qs, s);
    RoomForAll(qs, addrs, free, s);
    if i < |qs| {
      InvalidFrom(qs, addrs, free, s, i);
    }
    if |addrs| < |qs| {
      InvalidFrom(qs, addrs, free, s, |addrs|);
    }
    if found {
      ClearBit(qs, addrs, free, s, i, LowestSet(qs[i].status));
    } else {
      NoneFree(qs, addrs, free, s);
    }
  }

  /** Used entries have an address, unused ones do not. */
  lemma InvalidFrom(qs: seq<Quad>, addrs: set<nat>, free: set<nat>, s: nat, i: nat)
    requires LevelRel(qs, addrs, free, s) && i < |qs|
    ensures qs[i].addr == INVALID <==> i >= |addrs|
  {
    if i < |addrs| {
      EntryAt(qs, addrs, free, s, i);
    }
  }

  lemma RoomForAll(qs: seq<Quad>, addrs: set<nat>, free: set<nat>, s: nat)
    requires LevelRel(qs, addrs, free, s)
    ensures |addrs| <= |qs|
  {
  }

  lemma NoneFree(qs: seq<Quad>, addrs: set<nat>, free: set<nat>, s: nat)
    requires LevelRel(qs, addrs, free, s)
    requires forall k :: 0 <= k < |addrs| ==> qs[k].status == {}
    ensures free == {}
  {
    hide Kids;
    forall c | c in free
      ensures false
    {
      var q := FindParent(addrs, s, c);
      var i :| 0 <= i < |addrs| && qs[i].addr == q;
      EntryFree(qs[i], addrs, free, s, c);
    }
  }

  lemma EntryFree(q: Quad, addrs: set<nat>, free: set<nat>, s: nat, c: nat)
    requires EntryOk(q, addrs, free, s) && c in Kids(q.addr, s) && c in free
    ensures q.status != {}
  {
  }

  /** Blocks of different quads are different. */
  lemma OtherQuad(addrs: set<nat>, s: nat, a: nat, b: nat, i: nat, j: nat)
    requires Spaced(addrs, 4 * s) && s > 0 && a in addrs && b in addrs && a != b && i < 4 && j < 4
    ensures a + i * s != b + j * s
  {
    assert i * s <= 3 * s && j * s <= 3 * s;
  }

  /** Changing whether one child is free changes one status bit. */
  lemma EntryOther(q: Quad, addrs: set<nat>, free: set<nat>, free': set<nat>, s: nat, a: nat, bit: nat)
    requires EntryOk(q, addrs, free, s) && Spaced(addrs, 4 * s) && s > 0 && a in addrs && q.addr != a && bit < 4
    requires forall c :: c != a + bit * s ==> (c in free <==> c in free')
    ensures EntryOk(q, addrs, free', s)
  {
    OtherQuad(addrs, s, q.addr, a, 0, bit);
    OtherQuad(addrs, s, q.addr, a, 1, bit);
    OtherQuad(addrs, s, q.addr, a, 2, bit);
    OtherQuad(addrs, s, q.addr, a, 3, bit);
  }

  lemma EntrySelf(q: Quad, addrs: set<nat>, free: set<nat>, free': set<nat>, s: nat, bit: nat)
    requires EntryOk(q, addrs, free, s) && s > 0 && bit < 4
    requires forall c :: c != q.addr + bit * s ==> (c in free <==> c in free')
    ensures EntryOk(Quad(q.addr, if q.addr + bit * s in free' then q.status + {bit} else q.status - {bit}), addrs, free', s)
  {
    if bit == 0 { assert bit * s == 0; }
    else if bit == 1 { assert bit * s == s; }
    else if bit == 2 { assert bit * s == 2 * s; }
    else { assert bit == 3 && bit * s == 3 * s; }
  }

  /** One child of entry i changes between free and not free. */
  lemma FlipBit(qs: seq<Quad>, addrs: set<nat>, free: set<nat>, free': set<nat>, s: nat, i: nat, bit: nat)
    requires LevelRel(qs, addrs, free, s) && s > 0 && Spaced(addrs, 4 * s) && i < |addrs| && bit < 4
    requires forall c :: c != qs[i].addr + bit * s ==> (c in free <==> c in free')
    ensures var status := if qs[i].addr + bit * s in free' then qs[i].status + {bit} else qs[i].status - {bit};
            LevelRel(qs[i := Quad(qs[i].addr, status)], addrs, free', s)
  {
    hide EntryOk;
    hide Children;
    hide Spaced;
    var a := qs[i].addr;
    var q' := Quad(a, if a + bit * s in free' then qs[i].status + {bit} else qs[i].status - {bit});
    var qs' := qs[i := q'];
    EntrySelf(qs[i], addrs, free, free', s, bit);
    forall k | 0 <= k < |addrs|
      ensures EntryOk(qs'[k], addrs, free', s)
    {
      if k != i {
        AddrIn(qs[i], addrs, free, s);
        EntryOther(qs[k], addrs, free, free', s, a, bit);
      }
    }
    forall b | b in addrs
      ensures exists k :: 0 <= k < |addrs| && qs'[k].addr == b
    {
      var k :| 0 <= k < |addrs| && qs[k].addr == b;
      assert qs'[k].addr == b;
    }
    forall c | c in free'
      ensures c in Children(addrs, s)
    {
      if c == a + bit * s {
        AddrIn(qs[i], addrs, free, s);
        KidNumber(a, bit, s);
        ChildrenOf(addrs, s, c);
      }
    }
  }

  lemma AddrIn(q: Quad, addrs: set<nat>, free: set<nat>, s: nat)
    requires EntryOk(q, addrs, free, s)
    ensures q.addr in addrs
  {
  }

  lemma EntryAt(qs: seq<Quad>, addrs: set<nat>, free: set<nat>, s: nat, i: nat)
    requires LevelRel(qs, addrs, free, s) && i < |addrs|
    ensures i < |qs| && EntryOk(qs[i], addrs, free, s)
  {
  }

  lemma LowestIsSet(q: Quad, addrs: set<nat>, free: set<nat>, s: nat)
    requires EntryOk(q, addrs, free, s) && q.status != {}
    ensures var bit := LowestSet(q.status); bit < 4 && bit in q.status && q.addr + bit * s in free
  {
    var bit := LowestSet(q.status);
    var b :| b in q.status;
    assert b in FULL;
    if bit == 0 { assert bit * s == 0; }
    else if bit == 1 { assert bit * s == s; }
    else if bit == 2 { assert bit * s == 2 * s; }
    else { assert bit == 3 && bit * s == 3 * s; }
  }

  lemma ClearBit(qs: seq<Quad>, addrs: set<nat>, free: set<nat>, s: nat, i: nat, bit: nat)
    requires LevelRel(qs, addrs, free, s) && s > 0 && Spaced(addrs, 4 * s) && i < |addrs|
    requires qs[i].status != {} && bit == LowestSet(qs[i].status)
    ensures qs[i].addr + bit * s in free
    ensures LevelRel(qs[i := Quad(qs[i].addr, qs[i].status - {bit})], addrs, free - {qs[i].addr + bit * s}, s)
  {
    hide LevelRel;
    EntryAt(qs, addrs, free, s, i);
    var q := qs[i];
    LowestIsSet(q, addrs, free, s);
    hide EntryOk;
    hide LowestSet;
    FlipBit(qs, addrs, free, free - {q.addr + bit * s}, s, i, bit);
  }

  // ----- free_existing_block --------------------------------------------------------------------

  /** Find the quad and child of `ptr` and set its bit. The block exists, so the search succeeds. */
  method FreeExisting(qs: seq<Quad>, s: nat, ptr: nat, ghost addrs: set<nat>, ghost free: set<nat>) returns (qs': seq<Quad>)
    requires LevelRel(qs, addrs, free, s) && s > 0 && Spaced(addrs, 4 * s)
    requires ptr in Children(addrs, s)
    ensures LevelRel(qs', addrs, free + {ptr}, s) && |qs'| == |qs|
    ensures forall k :: 0 <= k < |qs| ==> qs'[k].addr == qs[k].addr
  {
    hide Children;
    hide Kids;
    hide Spaced;
    hide EntryOk;
    ghost var home := HomeIndex(qs, addrs, free, s, ptr);
    var i := 0;
    while true
      invariant 0 <= i <= home
      decreases home - i
    {
      assert i < |qs| && qs[i].addr != INVALID by { EntryValid(qs, addrs, free, s, i); }
      var j := FindChild(qs[i].addr, s, ptr);
      if j < 4 {
        FlipBit(qs, addrs, free, free + {ptr}, s, i, j);
        qs' := qs[i := Quad(qs[i].addr, qs[i].status + {j})];
        return;
      }
      i := i + 1;
    }
  }

  /** The child of the quad at `addr` that starts at `ptr`, or 4. */
  method FindChild(addr: nat, s: nat, ptr: nat) returns (j: nat)
    ensures j <= 4
    ensures j < 4 ==> ptr == addr + j * s
    ensures j == 4 ==> ptr !in Kids(addr, s)
  {
    var blockPtr := addr;
    j := 0;
    while j < 4
      invariant j <= 4 && blockPtr == addr + j * s
      invariant 0 < j ==> ptr != addr
      invariant 1 < j ==> ptr != addr + s
      invariant 2 < j ==> ptr != addr + 2 * s
      invariant 3 < j ==> ptr != addr + 3 * s
    {
      if ptr == blockPtr {
        return;
      }
      blockPtr := blockPtr + s;
      j := j + 1;
      assert j * s == (j - 1) * s + s;
    }
  }

  lemma EntryValid(qs: seq<Quad>, addrs: set<nat>, free: set<nat>, s: nat, i: nat)
    requires LevelRel(qs, addrs, free, s) && i < |addrs|
    ensures i < |qs| && qs[i].addr != INVALID
  {
    EntryAt(qs, addrs, free, s, i);
  }

  lemma HomeIndex(qs: seq<Quad>, addrs: set<nat>, free: set<nat>, s: nat, ptr: nat) returns (i: nat)
    requires LevelRel(qs, addrs, free, s) && ptr in Children(addrs, s)
    ensures i < |addrs| && ptr in Kids(qs[i].addr, s)
  {
    hide Kids;
    var q := FindParent(addrs, s, ptr);
    i :| 0 <= i < |addrs| && qs[i].addr == q;
  }

  // ----- Adding and removing a quad-block -------------------------------------------------------

  /** A quad-block stored into the first unused entry, with `extra` of its children free. */
  lemma AppendEntry(qs: seq<Quad>, addrs: set<nat>, free: set<nat>, s: nat, y: nat, status: set<nat>, extra: set<nat>)
    requires LevelRel(qs, addrs, free, s) && s > 0 && |addrs| < |qs|
    requires y !in addrs && Spaced(addrs + {y}, 4 * s)
    requires extra <= Kids(y, s) && EntryOk(Quad(y, status), addrs + {y}, free + extra, s)
    ensures LevelRel(qs[|addrs| := Quad(y, status)], addrs + {y}, free + extra, s)
  {
    hide EntryOk;
    hide Children;
    hide Spaced;
    hide Kids;
    var n := |addrs|;
    var qs', more := qs[n := Quad(y, status)], addrs + {y};
    assert |more| == n + 1;
    AddQuad(addrs, y, s);
    forall k | 0 <= k < n
      ensures EntryOk(qs'[k], more, free + extra, s) && qs'[k].addr != y
    {
      AddrIn(qs[k], addrs, free, s);
      OldEntry(qs[k], addrs, free, s, y, extra);
    }
    forall a | a in more
      ensures exists k :: 0 <= k < n + 1 && qs'[k].addr == a
    {
      if a == y {
        assert qs'[n].addr == a;
      } else {
        var k :| 0 <= k < n && qs[k].addr == a;
        assert qs'[k].addr == a;
      }
    }
  }

  lemma AppendQuad(qs: seq<Quad>, addrs: set<nat>, free: set<nat>, s: nat, y: nat)
    requires LevelRel(qs, addrs, free, s) && s > 0 && |addrs| < |qs|
    requires y !in addrs && y != INVALID && Spaced(addrs + {y}, 4 * s)
    ensures LevelRel(qs[|addrs| := Quad(y, {1, 2, 3})], addrs + {y}, free + {y + s, y + 2 * s, y + 3 * s}, s)
  {
    hide EntryOk;
    hide Children;
    hide Spaced;
    hide Kids;
    AddQuad(addrs, y, s);
    NewEntry(addrs, free, s, y);
    NewKids(y, s);
    AppendEntry(qs, addrs, free, s, y, {1, 2, 3}, {y + s, y + 2 * s, y + 3 * s});
  }

  lemma NewKids(y: nat, s: nat)
    ensures {y + s, y + 2 * s, y + 3 * s} <= Kids(y, s)
  {
  }

  lemma NewEntry(addrs: set<nat>, free: set<nat>, s: nat, y: nat)
    requires s > 0 && free <= Children(addrs, s) && Children(addrs, s) !! Kids(y, s) && y != INVALID
    ensures EntryOk(Quad(y, {1, 2, 3}), addrs + {y}, free + {y + s, y + 2 * s, y + 3 * s}, s)
  {
    hide Children;
    assert y in Kids(y, s);
  }

  lemma OldEntry(q: Quad, addrs: set<nat>, free: set<nat>, s: nat, y: nat, extra: set<nat>)
    requires EntryOk(q, addrs, free, s) && Children(addrs, s) !! Kids(y, s) && extra <= Kids(y, s)
    ensures EntryOk(q, addrs + {y}, free + extra, s)
  {
    hide Children;
    hide Kids;
    EntryKids(q, addrs, free, s);
  }

  lemma EntryKids(q: Quad, addrs: set<nat>, free: set<nat>, s: nat)
    requires EntryOk(q, addrs, free, s)
    ensures q.addr in Children(addrs, s) && q.addr + s in Children(addrs, s)
    ensures q.addr + 2 * s in Children(addrs, s) && q.addr + 3 * s in Children(addrs, s)
  {
    hide Children;
    forall c | c in Kids(q.addr, s)
      ensures c in Children(addrs, s)
    {
      ChildrenOf(addrs, s, c);
    }
  }

  /** Deleting entry i by moving the last used entry into its place. */
  lemma RemoveQuad(qs: seq<Quad>, addrs: set<nat>, free: set<nat>, s: nat, i: nat, dead: Quad)
    requires LevelRel(qs, addrs, free, s) && s > 0 && Spaced(addrs, 4 * s) && i < |addrs|
    requires dead.addr == INVALID
    ensures var last := |addrs| - 1;
            LevelRel(qs[i := qs[last]][last := dead], addrs - {qs[i].addr}, free - Kids(qs[i].addr, s), s)
  {
    hide EntryOk, Children, Spaced, Kids;
    var n, q := |addrs|, qs[i].addr;
    var qs', rest, free' := qs[i := qs[n - 1]][n - 1 := dead], addrs - {q}, free - Kids(q, s);
    RemainingEntries(qs, addrs, free, s, i);
    MovedCovers(qs, addrs, i, qs');
    assert forall k :: 0 <= k < n - 1 ==> qs'[k] == if k == i then qs[n - 1] else qs[k];
    assert forall k :: n - 1 <= k < |qs'| ==> qs'[k].addr == INVALID;
  }

  lemma RemainingEntries(qs: seq<Quad>, addrs: set<nat>, free: set<nat>, s: nat, i: nat)
    requires LevelRel(qs, addrs, free, s) && s > 0 && Spaced(addrs, 4 * s) && i < |addrs|
    ensures var rest, free' := addrs - {qs[i].addr}, free - Kids(qs[i].addr, s);
            && |rest| == |addrs| - 1 && free' <= Children(rest, s)
            && forall k :: 0 <= k < |addrs| && k != i ==> EntryOk(qs[k], rest, free', s)
  {
    hide EntryOk, Children, Spaced, Kids;
    var n, q := |addrs|, qs[i].addr;
    var rest, free' := addrs - {q}, free - Kids(q, s);
    AddrIn(qs[i], addrs, free, s);
    assert |rest| == n - 1;
    assert rest + {q} == addrs;
    AddQuad(rest, q, s);
    forall k | 0 <= k < n && k != i
      ensures EntryOk(qs[k], rest, free', s)
    {
      AddrIn(qs[k], addrs, free, s);
      KeptEntry(qs[k], addrs, free, s, q);
    }
    assert free' <= Children(rest, s);
  }

  lemma MovedCovers(qs: seq<Quad>, addrs: set<nat>, i: nat, qs': seq<Quad>)
    requires i < |addrs| <= |qs| == |qs'|
    requires forall a :: a in addrs ==> exists k :: 0 <= k < |addrs| && qs[k].addr == a
    requires forall k :: 0 <= k < |addrs| - 1 ==> qs'[k] == if k == i then qs[|addrs| - 1] else qs[k]
    ensures forall a :: a in addrs - {qs[i].addr} ==> exists k :: 0 <= k < |addrs| - 1 && qs'[k].addr == a
  {
    var n := |addrs|;
    forall a | a in addrs - {qs[i].addr}
      ensures exists k :: 0 <= k < n - 1 && qs'[k].addr == a
    {
      var k :| 0 <= k < n && qs[k].addr == a;
      assert qs'[if k == n - 1 then i else k].addr == a;
    }
  }

  lemma KeptEntry(q: Quad, addrs: set<nat>, free: set<nat>, s: nat, y: nat)
    requires EntryOk(q, addrs, free, s) && q.addr != y
    requires Children(addrs - {y}, s) !! Kids(y, s)
    ensures EntryOk(q, addrs - {y}, free - Kids(y, s), s)
  {
    hide Children;
    forall c | c in Kids(q.addr, s)
      ensures c !in Kids(y, s)
    {
      ChildrenOf(addrs - {y}, s, c);
    }
  }

  /** A full quad-block has all its children free. */
  lemma FullEntry(qs: seq<Quad>, addrs: set<nat>, free: set<nat>, s: nat, i: nat)
    requires LevelRel(qs, addrs, free, s) && i < |addrs|
    ensures qs[i].addr in addrs
    ensures qs[i].status == FULL <==> Kids(qs[i].addr, s) <= free
  {
    hide EntryOk;
    hide Kids;
    EntryAt(qs, addrs, free, s, i);
    AddrIn(qs[i], addrs, free, s);
    FullOk(qs[i], addrs, free, s);
  }

  lemma FullOk(q: Quad, addrs: set<nat>, free: set<nat>, s: nat)
    requires EntryOk(q, addrs, free, s)
    ensures q.status == FULL <==> Kids(q.addr, s) <= free
  {
    var k1, k2, k3 := q.addr + s, q.addr + 2 * s, q.addr + 3 * s;
    assert Kids(q.addr, s) == {q.addr, k1, k2, k3};
    assert q.status == FULL <==> 0 in q.status && 1 in q.status && 2 in q.status && 3 in q.status;
  }
}
