/**
 LZ4_compress_generic as LZ4_compress_fast_extState instantiates it: a fresh zeroed hash table, no
 dictionary, table entries of 16 or 32 bits, output limited or not. The ghost result is the abstract
 block the encoder decided on; the output buffer holds exactly its serialisation.
 */
module Lz4Encoder {
  import opened Common
  import opened Lz4Format
  import opened Lz4Block
  import opened Lz4Copy
  import opened Lz4Count
  import opened Lz4Search
  import opened Lz4Plan

  const MAX_INPUT_SIZE := 0x7E00_0000
  const ACCELERATION_DEFAULT := 1
  const ACCELERATION_MAX := 65537

  // ----- Hash table -----------------------------------------------------------------------------

  /** Every registered position is strictly below `bound`. */
  ghost predicate EntriesBelow(table: seq<nat>, bound: nat) {
    forall h :: 0 <= h < |table| ==> table[h] < bound
  }

  /** LZ4_putIndexOnHash: 16-bit tables truncate, which never loses anything for the sizes they are used on. */
  method PutIndex(table: array<nat>, h: nat, index: nat, t: TableType)
    requires h < table.Length == TableSize(t)
    requires t == ByU16 ==> index < 65536
    modifies table
    ensures table[..] == old(table[..])[h := index]
  {
    table[h] := if t == ByU16 then index % 65536 else index;
  }

  /**
   The search loop. It finds something exactly when an attempt hits, and then it is the first one that
   does; the table it leaves has every attempt up to that one registered.
   */
  method FindMatch(src: seq<byte>, table: array<nat>, t: TableType, ip0: nat, forwardH0: nat, acceleration: nat)
    returns (found: bool, ip: nat, match0: nat, ghost k: nat)
    requires MIN_LENGTH <= |src| && Fits(src, t) && table.Length == TableSize(t)
    requires 0 < ip0 && ip0 + MFLIMIT <= |src| + 1
    requires forwardH0 == HashPosition(src, ip0, t)
    requires EntriesBelow(table[..], ip0)
    requires 1 <= acceleration
    modifies table
    ensures found <==> exists j: nat :: Hit(src, t, old(table[..]), ip0, acceleration, j)
    ensures found ==> FirstHit(src, t, old(table[..]), ip0, acceleration, k)
    ensures found ==> ip == Probe(ip0, acceleration, k) && match0 == Entry(src, t, old(table[..]), ip0, acceleration, k)
    ensures found ==> table[..] == Registered(src, t, old(table[..]), ip0, acceleration, k + 1)
    ensures Search(src, t, acceleration, old(table[..]), ip0) == if found then Some(Find(ip, match0, table[..])) else None
    ensures found ==> ip0 <= ip && ip + MFLIMIT <= |src| && Candidate(src, ip, match0)
    ensures found ==> EntriesBelow(table[..], ip + 1)
  {
    hide ReadLE, HashPosition, Probe, Registered, Candidate, Entry, Search;
    ghost var table0 := table[..];
    var mflimitPlusOne := |src| - MFLIMIT + 1;
    var forwardIp, forwardH, step := ip0, forwardH0, 1;
    var searchMatchNb := acceleration * SKIP_UNIT;
    found, ip, match0, k := false, ip0, 0, 0;
    FirstProbe(src, t, table0, ip0, acceleration);
    while true
      invariant ip0 <= forwardIp <= mflimitPlusOne && forwardIp == Probe(ip0, acceleration, k)
      invariant k > 0 ==> Tried(src, ip0, acceleration, k - 1)
      invariant table[..] == Registered(src, t, table0, ip0, acceleration, k)
      invariant forwardH == HashPosition(src, forwardIp, t)
      invariant EntriesBelow(table[..], forwardIp)
      invariant searchMatchNb == acceleration * SKIP_UNIT + k && step == if k == 0 then 1 else (searchMatchNb - 1) / SKIP_UNIT
      invariant forall j: nat :: j < k ==> !Hit(src, t, table0, ip0, acceleration, j)
      decreases mflimitPlusOne - forwardIp
    {
      var h, current := forwardH, forwardIp;
      assert EntriesBelow(table[..], current) ==> table[..][h] < current;
      var matchIndex := table[h];
      ip := forwardIp;
      NextProbe(ip0, acceleration, k, step);
      forwardIp := forwardIp + step;
      step := searchMatchNb / SKIP_UNIT;
      searchMatchNb := searchMatchNb + 1;
      if forwardIp > mflimitPlusOne {
        NoneLeft(src, t, table0, ip0, acceleration, k);
        SearchIsNone(src, t, table0, ip0, acceleration);
        return;
      }
      match0 := matchIndex;
      forwardH := HashPosition(src, forwardIp, t);
      AttemptMade(src, t, table0, ip0, acceleration, k, table[..]);
      PutIndex(table, h, current, t);
      CandidateTest(src, t, ip, match0);
      k := k + 1;
      if t != ByU16 && matchIndex + DISTANCE_MAX < current {
        continue;
      }
      if ReadLE(src, match0, 4) == ReadLE(src, ip, 4) {
        found := true;
        k := k - 1;
        assert Hit(src, t, table0, ip0, acceleration, k);
        SearchIs(src, t, table0, ip0, acceleration, k);
        return;
      }
    }
  }

  lemma FirstProbe(src: seq<byte>, t: TableType, table: seq<nat>, ip: nat, acceleration: nat)
    requires |table| == TableSize(t)
    ensures Probe(ip, acceleration, 0) == ip && Registered(src, t, table, ip, acceleration, 0) == table
  {
  }

  /** The step of the search: 1 first, then the acceleration and one more for every 64 attempts. */
  lemma NextProbe(ip: nat, acceleration: nat, k: nat, step: nat)
    requires 1 <= acceleration && step == if k == 0 then 1 else (acceleration * SKIP_UNIT + k - 1) / SKIP_UNIT
    ensures Probe(ip, acceleration, k + 1) == Probe(ip, acceleration, k) + step && 1 <= step
  {
    if k > 0 {
      var q, r := (k - 1) / SKIP_UNIT, (k - 1) % SKIP_UNIT;
      ModUnique(acceleration * SKIP_UNIT + k - 1, acceleration + q, r, SKIP_UNIT);
    }
  }

  lemma NoneLeft(src: seq<byte>, t: TableType, table: seq<nat>, ip: nat, acceleration: nat, k: nat)
    requires |table| == TableSize(t) && !Tried(src, ip, acceleration, k)
    requires forall j: nat :: j < k ==> !Hit(src, t, table, ip, acceleration, j)
    ensures forall j: nat :: !Hit(src, t, table, ip, acceleration, j)
  {
    hide Candidate, Probe, Entry;
    forall j: nat | k <= j
      ensures !Hit(src, t, table, ip, acceleration, j)
    {
      if Tried(src, ip, acceleration, j) {
        TriedBefore(src, ip, acceleration, k, j);
      }
    }
  }

  lemma AttemptMade(src: seq<byte>, t: TableType, table0: seq<nat>, ip: nat, acceleration: nat, k: nat, table: seq<nat>)
    requires |table0| == TableSize(t) && Tried(src, ip, acceleration, k)
    requires (k > 0 ==> Tried(src, ip, acceleration, k - 1)) && table == Registered(src, t, table0, ip, acceleration, k)
    ensures var p := Probe(ip, acceleration, k);
            && p + 8 <= |src|
            && Entry(src, t, table0, ip, acceleration, k) == table[HashPosition(src, p, t)]
            && Registered(src, t, table0, ip, acceleration, k + 1) == table[HashPosition(src, p, t) := p]
  {
    ProbeGrows(ip, acceleration, k);
    hide HashPosition, Probe;
  }

  /** The two tests of the source decide whether an entry is a match. */
  lemma CandidateTest(src: seq<byte>, t: TableType, ip: nat, match0: nat)
    requires match0 < ip && ip + MFLIMIT <= |src| && Fits(src, t)
    ensures Candidate(src, ip, match0) <==>
      !(t != ByU16 && match0 + DISTANCE_MAX < ip) && ReadLE(src, match0, 4) == ReadLE(src, ip, 4)
  {
    hide ReadLE;
    FirstDifference(src, ip, ip - match0, 4);
  }

  lemma SearchIsNone(src: seq<byte>, t: TableType, table: seq<nat>, ip: nat, acceleration: nat)
    requires |table| == TableSize(t) && 1 <= acceleration && forall j: nat :: !Hit(src, t, table, ip, acceleration, j)
    ensures Search(src, t, acceleration, table, ip) == None
  {
    hide Hit;
  }

  /** What the loop is proved to do, as the function of the model. */
  lemma SearchIs(src: seq<byte>, t: TableType, table: seq<nat>, ip: nat, acceleration: nat, k: nat)
    requires |table| == TableSize(t) && 1 <= acceleration && FirstHit(src, t, table, ip, acceleration, k)
    ensures Search(src, t, acceleration, table, ip)
         == Some(Find(Probe(ip, acceleration, k), Entry(src, t, table, ip, acceleration, k), Registered(src, t, table, ip, acceleration, k + 1)))
  {
    hide Candidate, Probe, Entry, Registered, Hit;
    forall j: nat | FirstHit(src, t, table, ip, acceleration, j)
      ensures j == k
    {
    }
  }

  /** Extend a match backwards over bytes that would otherwise be literals, as far as it goes. */
  method CatchUp(src: seq<byte>, anchor: nat, ip0: nat, match0: nat) returns (ip: nat, start: nat)
    requires anchor <= ip0 && ip0 + MFLIMIT <= |src| && Candidate(src, ip0, match0)
    ensures ip == ip0 - Back(src, anchor, ip0, match0) && start == match0 - Back(src, anchor, ip0, match0)
    ensures Noticed(src, anchor, ip, start, ip0)
  {
    NoticedFrom(src, anchor, ip0, match0);
    ip, start := ip0, match0;
    while ip > anchor && start > 0 && src[ip - 1] == src[start - 1]
      invariant anchor <= ip <= ip0 && start < ip && ip - start == ip0 - match0
      invariant Back(src, anchor, ip, start) + (ip0 - ip) == Back(src, anchor, ip0, match0)
    {
      ip, start := ip - 1, start - 1;
    }
  }

  // ----- Writing a sequence ---------------------------------------------------------------------

  /** The extension bytes of a length: full bytes, then the remainder. */
  lemma {:induction false} ExtensionShape(v: nat)
    ensures |ExtensionBytes(v)| == v / 255 + 1
    ensures ExtensionBytes(v)[v / 255] == v % 255
    ensures forall i :: 0 <= i < v / 255 ==> ExtensionBytes(v)[i] == 255
  {
    if v >= 255 {
      ExtensionShape(v - 255);
    }
  }

  /** Store 255s while the rest is at least 255, then the rest. */
  method PutExtension(dst: array<byte>, op0: nat, v: nat) returns (op: nat)
    requires op0 + v / 255 + 1 <= dst.Length
    modifies dst
    ensures op == op0 + v / 255 + 1
    ensures Wrote(old(dst[..]), dst[..], op0, ExtensionBytes(v))
    ensures dst[..op] == old(dst[..op0]) + ExtensionBytes(v)
  {
    hide ExtensionBytes;
    hide Wrote;
    ExtensionShape(v);
    ghost var orig, bytes := dst[..], ExtensionBytes(v);
    op := op0;
    var len := v;
    while len >= 255
      invariant 0 <= len <= v && op0 <= op && len == v - 255 * (op - op0)
      invariant forall i :: op0 <= i < op ==> dst[i] == 255
      invariant forall i :: 0 <= i < dst.Length && !(op0 <= i < op) ==> dst[i] == orig[i]
      decreases len
    {
      dst[op] := 255;
      op, len := op + 1, len - 255;
    }
    ModUnique(v, op - op0, len, 255);
    dst[op] := len;
    op := op + 1;
    WroteByIndex(orig, dst[..], op0, bytes);
    WroteParts(orig, dst[..], op0, bytes, |bytes|);
    assert bytes[..|bytes|] == bytes && dst[..][..op] == dst[..op] && orig[..op0] == old(dst[..op0]);
  }

  /** The bytes PutLiterals writes: token, length bytes, and literals in whole words. */
  function LiteralFootprint(litLength: nat): nat {
    1 + |LengthTail(litLength)| + WildLength(litLength, 8)
  }

  /**
   Token with the literal length, its extension bytes, and the literals by 8-byte wild copies. Without
   a limit the footprint is all the room it needs; it writes the footprint, the words that follow the
   literals included, and nothing beyond.
   */
  method PutLiterals(dst: array<byte>, op0: nat, src: seq<byte>, anchor: nat, ip: nat, limited: bool)
    returns (ok: bool, op: nat)
    requires anchor <= ip && ip + MFLIMIT <= |src| && op0 <= dst.Length
    requires !limited ==> op0 + LiteralFootprint(ip - anchor) <= dst.Length
    modifies dst
    ensures ok <==> !limited || op0 + 1 + (ip - anchor) + (2 + 1 + LASTLITERALS) + (ip - anchor) / 255 <= dst.Length
    ensures ok ==> op <= dst.Length && dst[..op] == old(dst[..op0]) + LiteralBytes(src[anchor..ip], 0)
    ensures ok && limited ==> op + 7 <= dst.Length
    ensures ok ==> WroteLiterals(old(dst[..]), dst[..], op0, src, anchor, ip)
    ensures !ok ==> dst[..] == old(dst[..])
  {
    hide LiteralBytes;
    hide WroteLiterals;
    var litLength := ip - anchor;
    op := op0 + 1;
    LiteralCheckTight(litLength);
    LiteralCost(src[anchor..ip]);
    if limited && op + litLength + (2 + 1 + LASTLITERALS) + litLength / 255 > dst.Length {
      ok := false;
      return;
    }
    ok := true;
    op := WriteLiterals(dst, op0, src, anchor, ip);
  }

  /** Exactly the footprint is written: token, length bytes, and input from the literals on in whole words. */
  ghost predicate WroteLiterals(before: seq<byte>, after: seq<byte>, op0: nat, src: seq<byte>, anchor: nat, ip: nat)
    requires anchor <= ip
  {
    var head, words := LiteralHead(ip - anchor), WildLength(ip - anchor, 8);
    && |head| + words == LiteralFootprint(ip - anchor) && anchor + words <= |src|
    && Wrote(before, after, op0, head + src[anchor..anchor + words])
  }

  method WriteLiterals(dst: array<byte>, op0: nat, src: seq<byte>, anchor: nat, ip: nat) returns (op: nat)
    requires anchor <= ip && ip + MFLIMIT <= |src| && op0 + LiteralFootprint(ip - anchor) <= dst.Length
    modifies dst
    ensures op == op0 + |LiteralBytes(src[anchor..ip], 0)| <= dst.Length
    ensures dst[..op] == old(dst[..op0]) + LiteralBytes(src[anchor..ip], 0)
    ensures WroteLiterals(old(dst[..]), dst[..], op0, src, anchor, ip)
  {
    hide LengthTail, Nibble, Wrote, WildLength, LiteralBytes;
    var litLength := ip - anchor;
    ghost var orig, words := dst[..], WildLength(litLength, 8);
    op := PutRunLength(dst, op0, litLength);
    ghost var mid := dst[..];
    WildCopyInput(dst, op, src, anchor, op + litLength, 8);
    WroteThen(orig, mid, dst[..], op0, LiteralHead(litLength), src[anchor..anchor + words]);
    op := op + litLength;
    LiteralsKept(orig, dst[..], op0, src, anchor, ip, words);
    LiteralPlace(src, anchor, ip);
  }

  lemma LiteralPlace(src: seq<byte>, anchor: nat, ip: nat)
    requires anchor <= ip <= |src|
    ensures |LiteralBytes(src[anchor..ip], 0)| == 1 + |LengthTail(ip - anchor)| + (ip - anchor)
  {
    hide LengthTail;
  }


  /** Token and length bytes of a literal run. */
  function LiteralHead(litLength: nat): seq<byte> {
    [Nibble(litLength) * 16] + LengthTail(litLength)
  }

  lemma LiteralsKept(orig: seq<byte>, after: seq<byte>, op0: nat, src: seq<byte>, anchor: nat, ip: nat, words: nat)
    requires anchor <= ip <= anchor + words <= |src|
    requires Wrote(orig, after, op0, LiteralHead(ip - anchor) + src[anchor..anchor + words])
    ensures var op := op0 + |LiteralBytes(src[anchor..ip], 0)|;
            op <= |after| == |orig| && after[..op] == orig[..op0] + LiteralBytes(src[anchor..ip], 0)
  {
    hide LengthTail;
    hide Nibble;
    var head, bytes := LiteralHead(ip - anchor), LiteralHead(ip - anchor) + src[anchor..anchor + words];
    WroteParts(orig, after, op0, bytes, |head| + (ip - anchor));
    assert bytes[..|head| + (ip - anchor)] == LiteralBytes(src[anchor..ip], 0);
  }

  /**
   The bounds test of PutLiterals covers every byte written, and is tight: the footprint reaches the
   checked limit exactly for no literals at all, and for runs of 8k + 1 literals from 17 on whose
   length extension has not gained on the run by a carry.
   */
  lemma LiteralCheckTight(litLength: nat)
    ensures LiteralFootprint(litLength) <= 1 + litLength + (2 + 1 + LASTLITERALS) + litLength / 255
    ensures LiteralFootprint(litLength) == 1 + litLength + (2 + 1 + LASTLITERALS) + litLength / 255 <==>
              litLength == 0 || (litLength >= NIBBLE_MAX && litLength % 8 == 1 && litLength % 255 >= NIBBLE_MAX)
  {
    LengthTailSize(litLength);
    WholeWords(litLength);
    var q, r := litLength / 255, litLength % 255;
    assert litLength == 255 * q + r;
    if litLength >= NIBBLE_MAX {
      if r >= NIBBLE_MAX {
        ModUnique(litLength - NIBBLE_MAX, q, r - NIBBLE_MAX, 255);
      } else {
        ModUnique(litLength - NIBBLE_MAX, q - 1, 255 + r - NIBBLE_MAX, 255);
      }
    }
  }

  lemma {:induction false} WholeWords(n: nat)
    ensures WildLength(n, 8) == if n == 0 then 8 else (n + 7) / 8 * 8
  {
    if n > 8 {
      WholeWords(n - 8);
    }
  }

  /** The token of a literal run and its extension bytes. */
  method PutRunLength(dst: array<byte>, token: nat, litLength: nat) returns (op: nat)
    requires token + 1 + |LengthTail(litLength)| <= dst.Length
    modifies dst
    ensures op == token + 1 + |LengthTail(litLength)|
    ensures Wrote(old(dst[..]), dst[..], token, LiteralHead(litLength))
    ensures dst[..op] == old(dst[..token]) + LiteralHead(litLength)
  {
    hide ExtensionBytes;
    op := token + 1;
    LengthTailSize(litLength);
    ghost var orig := dst[..];
    dst[token] := Nibble(litLength) * 16;
    ghost var mid := dst[..];
    assert Wrote(orig, mid, token, [Nibble(litLength) * 16]);
    assert dst[..op] == old(dst[..token]) + [Nibble(litLength) * 16];
    if litLength >= NIBBLE_MAX {
      op := PutExtension(dst, op, litLength - NIBBLE_MAX);
      WroteThen(orig, mid, dst[..], token, [Nibble(litLength) * 16], LengthTail(litLength));
    }
  }

  lemma FullBytes(rest: nat, k: nat)
    ensures (rest + 255 * k) / 255 == rest / 255 + k && (rest + 255 * k) % 255 == rest % 255
  {
    ModUnique(rest + 255 * k, rest / 255 + k, rest % 255, 255);
  }

  /** Match length: speculative 4-byte stores of 0xFF, then the remainder over the last of them. */
  method PutMatchExtension(dst: array<byte>, op0: nat, v: nat) returns (op: nat)
    requires op0 + v / 255 + 1 + 3 <= dst.Length
    modifies dst
    ensures op == op0 + v / 255 + 1
    ensures dst[..op] == old(dst[..op0]) + ExtensionBytes(v)
  {
    op := op0;
    var matchCode: nat := v;
    Write32Full(dst, op);
    while matchCode >= 4 * 255
      invariant op0 <= op && matchCode + 255 * (op - op0) == v
      invariant op + 4 <= dst.Length
      invariant forall i :: 0 <= i < op0 ==> dst[i] == old(dst[i])
      invariant forall i :: op0 <= i < op + 4 ==> dst[i] == 255
      decreases matchCode
    {
      op := op + 4;
      Write32Full(dst, op);
      matchCode := matchCode - 4 * 255;
    }
    FullBytes(matchCode, op - op0);
    op := op + matchCode / 255;
    dst[op] := matchCode % 255;
    op := op + 1;
    ExtensionShape(v);
    assert dst[op0..op] == ExtensionBytes(v);
    assert dst[..op0] == old(dst[..op0]);
    assert dst[..op] == dst[..op0] + dst[op0..op];
  }

  /** LZ4_write32(op, 0xFFFFFFFF) */
  method Write32Full(dst: array<byte>, op: nat)
    requires op + 4 <= dst.Length
    modifies dst
    ensures forall i :: 0 <= i < dst.Length && !(op <= i < op + 4) ==> dst[i] == old(dst[i])
    ensures forall i :: op <= i < op + 4 ==> dst[i] == 255
  {
    dst[op], dst[op + 1], dst[op + 2], dst[op + 3] := 255, 255, 255, 255;
  }

  /** The literal part of a sequence, its token not yet holding the match nibble. */
  ghost predicate HasLiterals(buf: seq<byte>, pre: seq<byte>, literals: seq<byte>, op: nat) {
    op <= |buf| && buf[..op] == pre + LiteralBytes(literals, 0)
  }

  /** Label _next_match: offset, match length, and the match nibble added to the token. */
  method PutMatch(dst: array<byte>, ghost pre: seq<byte>, ghost literals: seq<byte>, token: nat, op0: nat,
                  src: seq<byte>, ip0: nat, match0: nat, limited: bool)
    returns (ok: bool, op: nat, ip: nat)
    requires HasLiterals(dst[..], pre, literals, op0) && token == |pre|
    requires ip0 + MFLIMIT <= |src| && Candidate(src, ip0, match0)
    requires limited ==> op0 + 2 <= dst.Length
    requires !limited ==> op0 + (|src| - ip0) / 255 + 9 <= dst.Length
    modifies dst
    ensures ip == MatchEnd(src, ip0, match0) <= |src| - LASTLITERALS
    ensures ok <==> !limited || |pre| + |SequenceBytes(Sequence(literals, ip0 - match0, ip - ip0))| + 1 + LASTLITERALS <= dst.Length
    ensures ok ==> op <= dst.Length && dst[..op] == pre + SequenceBytes(Sequence(literals, ip0 - match0, ip - ip0))
  {
    hide ExtensionBytes;
    hide IsLongestRepeat;
    hide Repeats;
    hide LiteralBytes;
    hide SequenceBytes;
    hide LengthTail;
    hide Nibble;
    hide LongestRepeat;
    var offset := ip0 - match0;
    op := op0;
    TokenPatched(pre, literals, offset, 0);
    dst[op], dst[op + 1] := offset % 256, offset / 256;
    op := op + 2;
    assert dst[..op] == (pre + LiteralBytes(literals, 0)) + OffsetBytes(offset) by {
      assert dst[..op0] == pre + LiteralBytes(literals, 0);
    }
    var matchCode := Count(src, ip0 + MINMATCH, match0 + MINMATCH, |src| - LASTLITERALS);
    CountBound(src, ip0 + MINMATCH, offset, |src| - LASTLITERALS, matchCode);
    LongestUnique(src, ip0 + MINMATCH, offset, |src| - LASTLITERALS, matchCode);
    ip := ip0 + matchCode + MINMATCH;
    LengthTailSize(matchCode);
    SequenceSize(literals, offset, matchCode);
    ok := true;
    if limited && op + (1 + LASTLITERALS) + (matchCode + 240) / 255 > dst.Length {
      ok := false;
      return;
    }
    TokenPatched(pre, literals, offset, matchCode);
    op := PutMatchLength(dst, token, op, matchCode);
  }

  /** Add the match nibble to the token and append the extension bytes. */
  method PutMatchLength(dst: array<byte>, token: nat, op0: nat, matchCode: nat) returns (op: nat)
    requires token < op0 && op0 + (matchCode + 240) / 255 + 3 <= dst.Length
    requires dst[token] + Nibble(matchCode) < 256
    modifies dst
    ensures op == op0 + (matchCode + 240) / 255
    ensures var body := old(dst[..op0]);
            dst[..op] == body[token := body[token] + Nibble(matchCode)] + LengthTail(matchCode)
  {
    hide ExtensionBytes;
    op := op0;
    LengthTailSize(matchCode);
    ghost var body := dst[..op];
    dst[token] := dst[token] + Nibble(matchCode);
    assert dst[..op] == body[token := body[token] + Nibble(matchCode)];
    if matchCode >= NIBBLE_MAX {
      op := PutMatchExtension(dst, op, matchCode - NIBBLE_MAX);
    }
  }

  lemma SequenceSize(literals: seq<byte>, offset: nat, code: nat)
    requires offset <= DISTANCE_MAX
    ensures |SequenceBytes(Sequence(literals, offset, code + MINMATCH))| == |LiteralBytes(literals, 0)| + 2 + |LengthTail(code)|
  {
    hide LengthTail, Nibble, OffsetBytes;
  }

  lemma CountBound(src: seq<byte>, i: nat, dist: nat, limit: nat, n: nat)
    requires IsLongestRepeat(src, i, dist, limit, n)
    ensures i + n <= limit
  {
  }

  lemma TokenPatched(pre: seq<byte>, literals: seq<byte>, offset: nat, code: nat)
    requires offset <= DISTANCE_MAX
    ensures var body := pre + LiteralBytes(literals, 0) + OffsetBytes(offset);
            && body[|pre|] + Nibble(code) < 256
            && body[|pre| := body[|pre|] + Nibble(code)] + LengthTail(code)
               == pre + SequenceBytes(Sequence(literals, offset, code + MINMATCH))
  {
    hide LengthTail;
    hide OffsetBytes;
    PatchHead(pre, literals, OffsetBytes(offset), Nibble(code));
  }

  lemma PatchHead(pre: seq<byte>, literals: seq<byte>, tail: seq<byte>, nibble: nat)
    requires nibble <= NIBBLE_MAX
    ensures var body := pre + LiteralBytes(literals, 0) + tail;
            && body[|pre|] == Nibble(|literals|) * 16
            && body[|pre| := body[|pre|] + nibble] == pre + (LiteralBytes(literals, nibble) + tail)
  {
    hide LengthTail;
    hide Nibble;
    var rest := LengthTail(|literals|) + literals;
    var t: byte := Nibble(|literals|) * 16;
    assert LiteralBytes(literals, 0) == [t] + rest;
    assert LiteralBytes(literals, nibble) == [t + nibble] + rest;
  }

  // ----- The main loop --------------------------------------------------------------------------

  lemma EntriesWeaken(table: seq<nat>, a: nat, b: nat)
    requires EntriesBelow(table, a) && a <= b
    ensures EntriesBelow(table, b)
  {
  }

  /** Register ip - 2, look up ip and register it; report whether it starts another match. */
  method TestNext(src: seq<byte>, table: array<nat>, t: TableType, ip: nat) returns (found: bool, match0: nat)
    requires Fits(src, t) && table.Length == TableSize(t)
    requires 2 <= ip && ip + MFLIMIT <= |src| && EntriesBelow(table[..], ip)
    modifies table
    ensures var next := Register(src, t, old(table[..]), ip - 2);
            match0 == next[HashPosition(src, ip, t)] && table[..] == Register(src, t, next, ip)
    ensures found <==> Candidate(src, ip, match0)
    ensures EntriesBelow(table[..], ip + 1)
  {
    hide HashPosition;
    hide ReadLE;
    PutIndex(table, HashPosition(src, ip - 2, t), ip - 2, t);
    var h := HashPosition(src, ip, t);
    assert table[..][h] < ip;
    match0 := table[h];
    PutIndex(table, h, ip, t);
    CandidateTest(src, t, ip, match0);
    found := (t == ByU16 || match0 + DISTANCE_MAX >= ip) && ReadLE(src, match0, 4) == ReadLE(src, ip, 4);
  }

  /** What MatchRun leaves to do: nothing, or to search on. */
  ghost predicate Remains(src: seq<byte>, t: TableType, acceleration: nat, table: seq<nat>, ip: nat, done: bool, ss: seq<Sequence>, plan: seq<Sequence>)
    requires |table| == TableSize(t) && 1 <= acceleration
  {
    if done then plan == ss
    else ip + MFLIMIT <= |src| && plan == ss + FromSearch(src, t, acceleration, table, ip, ip + 1)
  }

  /** From _next_match: emit matches for as long as each one is followed immediately by another. */
  method MatchRun(src: seq<byte>, dst: array<byte>, table: array<nat>, t: TableType, limited: bool,
                  anchor0: nat, ghost ss0: seq<Sequence>, token0: nat, op0: nat, ip0: nat, match0: nat, ghost filled0: nat,
                  ghost acceleration: nat, ghost plan: seq<Sequence>)
    returns (ok: bool, done: bool, op: nat, ip: nat, ghost ss: seq<Sequence>)
    requires Fits(src, t) && table.Length == TableSize(t) && 1 <= acceleration
    requires token0 <= op0 <= dst.Length && Encoded(src, dst[..token0], anchor0, ss0)
    requires Noticed(src, anchor0, ip0, match0, filled0) && EntriesBelow(table[..], filled0 + 1)
    requires HasLiterals(dst[..], dst[..token0], src[anchor0..ip0], op0)
    requires limited ==> op0 + 2 <= dst.Length
    requires !limited ==> op0 <= ip0 + ip0 / 255 + 2 && |src| + |src| / 255 + 16 <= dst.Length
    requires plan == ss0 + FromMatch(src, t, acceleration, table[..], anchor0, ip0, match0, filled0)
    modifies dst, table
    ensures !limited ==> ok
    ensures ok ==> filled0 < ip <= |src| && op <= dst.Length && Encoded(src, dst[..op], ip, ss)
    ensures ok ==> Remains(src, t, acceleration, table[..], ip, done, ss, plan)
    ensures ok && !done ==> EntriesBelow(table[..], ip + 1)
    ensures !ok ==> Overflows(plan, dst.Length)
  {
    hide HashPosition, LiteralBytes, SequenceBytes, IsLongestRepeat, LegalSequences, ExpandSequences, SequencesBytes, FromMatch, FromSearch, Register,
      MatchEnd, Repeats, Overflows;
    var mflimitPlusOne := |src| - MFLIMIT + 1;
    var anchor: nat, token: nat, start: nat := anchor0, token0, match0;
    ghost var filled := filled0;
    ok, done, op, ip, ss := true, false, op0, ip0, ss0;
    while true
      invariant (ip == ip0 && filled == filled0) || filled0 < ip
      invariant token <= op <= dst.Length && Encoded(src, dst[..token], anchor, ss)
      invariant Noticed(src, anchor, ip, start, filled) && EntriesBelow(table[..], filled + 1)
      invariant HasLiterals(dst[..], dst[..token], src[anchor..ip], op)
      invariant limited ==> op + 2 <= dst.Length
      invariant !limited ==> op <= ip + ip / 255 + 2
      invariant plan == ss + FromMatch(src, t, acceleration, table[..], anchor, ip, start, filled)
      decreases |src| - ip
    {
      if !limited { CostsAdd(ip, |src| - ip); }
      var end;
      ghost var rest;
      ok, op, end, ss, rest := PutNoticed(src, dst, t, limited, anchor, ss, token, op, ip, start, filled, acceleration, table[..], plan);
      if !ok {
        return;
      }
      anchor, ip := end, end;
      if ip >= mflimitPlusOne {
        done := true;
        return;
      }
      EntriesWeaken(table[..], filled + 1, ip);
      var found;
      found, start := TestNext(src, table, t, ip);
      if !found {
        return;
      }
      NoticedAt(src, ip, start);
      token, filled := op, ip;
      op := op + 1;
      StartEmpty(dst, token, src, ip);
    }
  }

  /** One match: written, and known to be the next of the plan. */
  method PutNoticed(src: seq<byte>, dst: array<byte>, ghost t: TableType, limited: bool, ghost anchor: nat, ghost ss0: seq<Sequence>,
                    token: nat, op0: nat, ip: nat, start: nat, ghost filled: nat,
                    ghost acceleration: nat, ghost table: seq<nat>, ghost plan: seq<Sequence>)
    returns (ok: bool, op: nat, end: nat, ghost ss: seq<Sequence>, ghost rest: seq<Sequence>)
    requires |table| == TableSize(t) && 1 <= acceleration && token <= op0 <= dst.Length && Encoded(src, dst[..token], anchor, ss0)
    requires Noticed(src, anchor, ip, start, filled) && HasLiterals(dst[..], dst[..token], src[anchor..ip], op0)
    requires limited ==> op0 + 2 <= dst.Length
    requires !limited ==> op0 + (|src| - ip) / 255 + 9 <= dst.Length
    requires plan == ss0 + FromMatch(src, t, acceleration, table, anchor, ip, start, filled)
    modifies dst
    ensures filled < end <= |src| - LASTLITERALS
    ensures !limited ==> ok
    ensures ok ==> op <= dst.Length && Encoded(src, dst[..op], end, ss) && (limited ==> op + 1 + LASTLITERALS <= dst.Length)
    ensures ok ==> end >= 4 && plan == ss + rest && Continues(src, t, acceleration, table, end, rest)
    ensures !ok ==> Overflows(plan, dst.Length)
  {
    hide LiteralBytes, SequenceBytes, LegalSequences, ExpandSequences, SequencesBytes, FromMatch, MatchEnd, Repeats, Overflows, Continues, Candidate;
    ghost var pre := dst[..token];
    StillCandidate(src, anchor, ip, start, filled);
    ok, op, end := PutMatch(dst, pre, src[anchor..ip], token, op0, src, ip, start, limited);
    ghost var s := Sequence(src[anchor..ip], ip - start, end - ip);
    rest := AfterMatch(src, t, acceleration, table, anchor, ip, start, filled);
    ss := ss0 + [s];
    if !ok {
      OverflowsAt(plan, ss0, s, rest, dst.Length);
      return;
    }
    AddSequence(src, pre, anchor, ss0, ip, start, end);
    assert plan == ss0 + [s] + rest;
  }

  lemma StillCandidate(src: seq<byte>, anchor: nat, ip: nat, start: nat, filled: nat)
    requires Noticed(src, anchor, ip, start, filled)
    ensures Candidate(src, ip, start)
  {
  }

  /** A token with no literals: `*token = 0`. */
  method StartEmpty(dst: array<byte>, token: nat, ghost src: seq<byte>, ghost ip: nat)
    requires token < dst.Length && ip <= |src|
    modifies dst
    ensures dst[..token] == old(dst[..token])
    ensures HasLiterals(dst[..], dst[..token], src[ip..ip], token + 1)
  {
    dst[token] := 0;
    assert LiteralBytes(src[ip..ip], 0) == [0];
    assert dst[..][..token + 1] == dst[..token] + [0];
  }

  /** The main loop: search, catch up, literals, then a run of matches; ends at the last literals. */
  method PutSequences(src: seq<byte>, dst: array<byte>, table: array<nat>, t: TableType, limited: bool, acceleration: nat)
    returns (ok: bool, anchor: nat, op: nat, ghost ss: seq<Sequence>)
    requires MIN_LENGTH <= |src| && Fits(src, t) && table.Length == TableSize(t)
    requires EntriesBelow(table[..], 1) && 1 <= acceleration
    requires !limited ==> |src| + |src| / 255 + 16 <= dst.Length
    modifies dst, table
    ensures !limited ==> ok
    ensures ok ==> op <= dst.Length && Encoded(src, dst[..op], anchor, ss)
    ensures ok ==> ss == FromSearch(src, t, acceleration, old(table[..]), 0, 1)
    ensures !ok ==> Overflows(FromSearch(src, t, acceleration, old(table[..]), 0, 1), dst.Length)
  {
    hide HashPosition, LiteralBytes, Candidate, FromSearch, FromMatch, FirstHit, Hit, Probe, Entry, Registered, Overflows, Back, Search, Repeats;
    ghost var plan := FromSearch(src, t, acceleration, table[..], 0, 1);
    ok, anchor, op, ss := true, 0, 0, [];
    var ip := 1;
    while true
      invariant 0 < ip && ip + MFLIMIT <= |src| + 1 && anchor <= ip
      invariant op <= dst.Length && Encoded(src, dst[..op], anchor, ss)
      invariant EntriesBelow(table[..], ip)
      invariant plan == ss + FromSearch(src, t, acceleration, table[..], anchor, ip)
      decreases |src| - ip
    {
      AfterSearch(src, t, acceleration, table[..], anchor, ip);
      var found, filled, candidate, _ := FindMatch(src, table, t, ip, HashPosition(src, ip, t), acceleration);
      if !found {
        return;
      }
      var start;
      ip, start := CatchUp(src, anchor, filled, candidate);
      var done;
      ok, done, op, ip, ss := PutMatches(src, dst, table, t, limited, anchor, ss, op, ip, start, filled, acceleration, plan);
      if !ok {
        return;
      }
      anchor := ip;
      if done {
        return;
      }
      ip := ip + 1;
    }
  }

  /** Literals, then the run of matches that follows them. */
  method PutMatches(src: seq<byte>, dst: array<byte>, table: array<nat>, t: TableType, limited: bool,
                    anchor: nat, ghost ss0: seq<Sequence>, op0: nat, ip0: nat, start: nat, ghost filled: nat,
                    ghost acceleration: nat, ghost plan: seq<Sequence>)
    returns (ok: bool, done: bool, op: nat, ip: nat, ghost ss: seq<Sequence>)
    requires Fits(src, t) && table.Length == TableSize(t) && 1 <= acceleration
    requires op0 <= dst.Length && Encoded(src, dst[..op0], anchor, ss0)
    requires Noticed(src, anchor, ip0, start, filled) && EntriesBelow(table[..], filled + 1)
    requires !limited ==> |src| + |src| / 255 + 16 <= dst.Length
    requires plan == ss0 + FromMatch(src, t, acceleration, table[..], anchor, ip0, start, filled)
    modifies dst, table
    ensures !limited ==> ok
    ensures ok ==> filled < ip <= |src| && op <= dst.Length && Encoded(src, dst[..op], ip, ss)
    ensures ok ==> Remains(src, t, acceleration, table[..], ip, done, ss, plan)
    ensures ok && !done ==> EntriesBelow(table[..], ip + 1)
    ensures !ok ==> Overflows(plan, dst.Length)
  {
    hide LiteralBytes, FromMatch, Overflows, Repeats, LegalSequences, ExpandSequences, SequencesBytes, Remains, EntriesBelow, WroteLiterals;
    ghost var pre := dst[..op0];
    if !limited { CostsAdd(anchor, ip0 - anchor); CostsAdd(ip0, |src| - ip0); }
    LiteralCost(src[anchor..ip0]);
    LiteralCheckTight(ip0 - anchor);
    ok, op := PutLiterals(dst, op0, src, anchor, ip0, limited);
    if !ok {
      LiteralsOverflow(src, t, acceleration, table[..], anchor, ip0, start, filled, ss0, plan, dst.Length);
      done, ip, ss := false, ip0, ss0;
      return;
    }
    assert dst[..op0] == pre by { assert dst[..op0] == dst[..op][..op0]; }
    ok, done, op, ip, ss := MatchRun(src, dst, table, t, limited, anchor, ss0, op0, op, ip0, start, filled, acceleration, plan);
  }

  /** The room asked for before literals are written is room the block needs. */
  lemma LiteralsOverflow(src: seq<byte>, t: TableType, acceleration: nat, table: seq<nat>, anchor: nat, ip: nat, start: nat, filled: nat,
                         ss: seq<Sequence>, plan: seq<Sequence>, room: nat)
    requires |table| == TableSize(t) && Noticed(src, anchor, ip, start, filled) && 1 <= acceleration
    requires plan == ss + FromMatch(src, t, acceleration, table, anchor, ip, start, filled) && Writable(ss)
    requires |SequencesBytes(ss)| + 1 + (ip - anchor) + (2 + 1 + LASTLITERALS) + (ip - anchor) / 255 > room
    ensures Overflows(plan, room)
  {
    hide FromMatch, FromSearch, Overflows, SequencesBytes, SequenceBytes, LiteralBytes, LengthTail, HashPosition, Register, MatchEnd, Candidate, Repeats;
    var end := MatchEnd(src, ip, start);
    var rest := AfterMatch(src, t, acceleration, table, anchor, ip, start, filled);
    SequenceSize(src[anchor..ip], ip - start, end - ip - MINMATCH);
    LiteralCost(src[anchor..ip]);
    OverflowsAt(plan, ss, Sequence(src[anchor..ip], ip - start, end - ip), rest, room);
  }

  /** Label _last_literals. */
  method PutLastLiterals(src: seq<byte>, dst: array<byte>, anchor: nat, op0: nat, limited: bool) returns (ok: bool, op: nat)
    requires anchor <= |src| && op0 <= dst.Length
    requires !limited ==> op0 + |src| - anchor + (|src| - anchor) / 255 + 2 <= dst.Length
    modifies dst
    ensures ok <==> !limited || op0 + |LiteralBytes(src[anchor..], 0)| <= dst.Length
    ensures ok ==> op <= dst.Length && dst[..op] == old(dst[..op0]) + LiteralBytes(src[anchor..], 0)
  {
    hide LengthTail, LiteralBytes;
    var lastRun := |src| - anchor;
    LengthTailSize(lastRun);
    LiteralCost(src[anchor..]);
    op := op0;
    if limited && op + lastRun + 1 + (lastRun + 255 - NIBBLE_MAX) / 255 > dst.Length {
      ok := false;
      return;
    }
    ok := true;
    op := WriteLastLiterals(dst, op0, src, anchor);
  }

  method WriteLastLiterals(dst: array<byte>, op0: nat, src: seq<byte>, anchor: nat) returns (op: nat)
    requires anchor <= |src| && op0 + 1 + |LengthTail(|src| - anchor)| + (|src| - anchor) <= dst.Length
    modifies dst
    ensures op <= dst.Length && dst[..op] == old(dst[..op0]) + LiteralBytes(src[anchor..], 0)
  {
    hide LengthTail, Nibble, Wrote, LiteralBytes;
    var lastRun := |src| - anchor;
    ghost var orig := dst[..];
    op := PutRunLength(dst, op0, lastRun);
    ghost var mid := dst[..];
    CopyInput(dst, op, src, anchor, lastRun);
    WroteThen(orig, mid, dst[..], op0, LiteralHead(lastRun), src[anchor..anchor + lastRun]);
    op := op + lastRun;
    LiteralsKept(orig, dst[..], op0, src, anchor, |src|, lastRun);
    LiteralPlace(src, anchor, |src|);
    assert src[anchor..|src|] == src[anchor..];
  }

  // ----- Entry points ---------------------------------------------------------------------------

  /** LZ4_compressBound */
  function CompressBound(n: nat): nat {
    if n > MAX_INPUT_SIZE then 0 else n + n / 255 + 16
  }

  /** 14 bytes more than any legal block of `n` bytes takes, and nothing for inputs that are refused. */
  lemma BoundMeans(n: nat)
    ensures n > 0x7E00_0000 ==> CompressBound(n) == 0
    ensures n <= 0x7E00_0000 ==> CompressBound(n) == (n + n / 255 + 2) + 14
  {
  }

  /** LZ4_compress_generic_validated */
  method CompressValidated(src: seq<byte>, dst: array<byte>, table: array<nat>, t: TableType, limited: bool, acceleration: nat)
    returns (ret: nat, ghost b: Block)
    requires 0 < |src| && table.Length == TableSize(t) && 1 <= acceleration
    requires forall h :: 0 <= h < table.Length ==> table[h] == 0
    requires !limited ==> |src| + |src| / 255 + 16 <= dst.Length
    modifies dst, table
    ensures Planned(src, t, acceleration, b)
    ensures t == ByU16 && |src| >= LIMIT_64K ==> ret == 0
    ensures Fits(src, t) ==> ret == if |Serialize(b)| <= dst.Length then |Serialize(b)| else 0
    ensures ret > 0 ==> ret <= dst.Length && dst[..ret] == Serialize(b)
  {
    hide LiteralBytes, HashPosition, FromSearch, Encoded, Overflows, Serialize, Compressed;
    b := PlanEncodes(src, t, acceleration);
    ret := 0;
    if t == ByU16 && |src| >= LIMIT_64K {
      return;
    }
    var ok, anchor, op := true, 0, 0;
    ghost var ss: seq<Sequence> := [];
    NothingEncoded(src);
    if |src| >= MIN_LENGTH {
      PutIndex(table, HashPosition(src, 0, t), 0, t);
      assert table[..] == seq(TableSize(t), _ => 0);
      ok, anchor, op, ss := PutSequences(src, dst, table, t, limited, acceleration);
      if !ok {
        OverflowsMeans(src, t, acceleration, b, dst.Length);
        return;
      }
    }
    ghost var out := dst[..op];
    LastRoom(src, t, acceleration, b, out, anchor, ss);
    ok, op := PutLastLiterals(src, dst, anchor, op, limited);
    if ok {
      ret := op;
    }
  }

  /** All sequences are written: the block is complete with the last literals. */
  lemma LastRoom(src: seq<byte>, t: TableType, acceleration: nat, b: Block, out: seq<byte>, anchor: nat, ss: seq<Sequence>)
    requires 1 <= acceleration && Planned(src, t, acceleration, b) && Encoded(src, out, anchor, ss) && ss == Plan(src, t, acceleration)
    ensures anchor <= |src| && Serialize(b) == out + LiteralBytes(src[anchor..], 0)
    ensures |out| + |src| - anchor + (|src| - anchor) / 255 + 2 <= |src| + |src| / 255 + 16
    ensures |Serialize(b)| > 0
  {
    hide LiteralBytes, Plan;
    FinishBlock(src, out, anchor, ss);
    PlannedUnique(src, t, acceleration, b, Block(ss, src[anchor..]));
    CostsAdd(anchor, |src| - anchor);
    LiteralCost(src[anchor..]);
  }

  /** LZ4_compress_generic */
  method CompressGeneric(src: seq<byte>, dst: array<byte>, table: array<nat>, t: TableType, limited: bool, acceleration: nat)
    returns (ret: nat, ghost b: Block)
    requires table.Length == TableSize(t) && 1 <= acceleration
    requires forall h :: 0 <= h < table.Length ==> table[h] == 0
    requires !limited && |src| <= MAX_INPUT_SIZE ==> |src| + |src| / 255 + 16 <= dst.Length
    modifies dst, table
    ensures Planned(src, t, acceleration, b)
    ensures |src| > MAX_INPUT_SIZE ==> ret == 0
    ensures Fits(src, t) && |src| <= MAX_INPUT_SIZE ==> ret == if |Serialize(b)| <= dst.Length then |Serialize(b)| else 0
    ensures ret > 0 ==> ret <= dst.Length && dst[..ret] == Serialize(b)
  {
    hide Planned, Serialize;
    b := PlanEncodes(src, t, acceleration);
    ret := 0;
    if |src| > MAX_INPUT_SIZE {
      return;
    }
    if |src| == 0 {
      EmptyPlan(src, t, acceleration, b);
      if limited && dst.Length <= 0 {
        return;
      }
      dst[0] := 0;
      ret := 1;
      assert dst[..1] == [0];
      return;
    }
    ret, b := CompressValidated(src, dst, table, t, limited, acceleration);
  }

  lemma EmptyPlan(src: seq<byte>, t: TableType, acceleration: nat, b: Block)
    requires 1 <= acceleration && Planned(src, t, acceleration, b) && src == []
    ensures Writable(b.sequences) && Serialize(b) == [0]
  {
  }

  /** What the acceleration asked for amounts to. */
  function Clamped(acceleration: int): (r: nat)
    ensures 1 <= r
  {
    if acceleration < 1 then 1 else if acceleration > 65537 then 65537 else acceleration
  }

  /** 16-bit entries for inputs below 64 KB + 11. */
  function TableFor(n: nat): TableType {
    if n < 65547 then ByU16 else ByU32
  }

  /**
   LZ4_compress_fast and LZ4_compress_fast_extState: the block of the plan, exactly when there is room
   for it. So the capacity decides whether compression succeeds but never what is emitted, and with
   LZ4_compressBound of room it always succeeds.
   */
  method CompressFast(src: seq<byte>, dst: array<byte>, acceleration0: int) returns (ret: nat, ghost b: Block)
    modifies dst
    ensures Planned(src, TableFor(|src|), Clamped(acceleration0), b)
    ensures |src| > 0x7E00_0000 ==> ret == 0
    ensures |src| <= 0x7E00_0000 ==> ret == if |Serialize(b)| <= dst.Length then |Serialize(b)| else 0
    ensures ret > 0 ==> ret <= dst.Length && |src| <= 0x7E00_0000 && Compressed(src, dst[..ret], b)
    ensures |src| <= 0x7E00_0000 && CompressBound(|src|) <= dst.Length ==> 0 < ret <= CompressBound(|src|)
    ensures |src| <= 0x7E00_0000 && AllEqual(src) ==> ret == if RunSize(|src|) <= dst.Length then RunSize(|src|) else 0
  {
    hide Compressed, Serialize, Plan, AllEqual, RunSize;
    var acceleration := acceleration0;
    if acceleration < 1 { acceleration := ACCELERATION_DEFAULT; }
    if acceleration > ACCELERATION_MAX { acceleration := ACCELERATION_MAX; }
    var t := if |src| < LIMIT_64K then ByU16 else ByU32;
    var table := new nat[TableSize(t)](_ => 0);
    var limited := dst.Length < CompressBound(|src|);
    ret, b := CompressGeneric(src, dst, table, t, limited, acceleration);
    CompressedSize(src, Serialize(b), b);
    NonEmptyBlock(b);
    if AllEqual(src) { RunCompressed(src, t, acceleration, b); }
  }

  lemma NonEmptyBlock(b: Block)
    requires Writable(b.sequences)
    ensures |Serialize(b)| > 0
  {
  }
}
