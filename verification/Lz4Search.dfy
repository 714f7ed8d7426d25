/**
 What the encoder of src/lz4/lz4_all.c decides on, without its output: which positions are tried, what
 the hash table holds at each of them, and the sequences that follow from it. The block depends on the
 input and the acceleration alone, not on the room there is for it.
 */
module Lz4Search {
  import opened Common
  import opened Lz4Format
  import opened Lz4Block
  import opened Lz4Count

  const MIN_LENGTH := MFLIMIT + 1
  /** 1 << LZ4_skipTrigger: failed attempts before the search step grows. */
  const SKIP_UNIT := 64
  const LIMIT_64K := 65536 + (MFLIMIT - 1)
  /** 1 << LZ4_HASHLOG */
  const HASH_SIZE := 4096

  datatype TableType = ByU32 | ByU16

  // ----- Hash table -----------------------------------------------------------------------------

  function TableSize(t: TableType): nat {
    if t == ByU16 then 2 * HASH_SIZE else HASH_SIZE
  }

  /** LZ4_hash4: the top 13 bits of a 32-bit product. */
  function Hash4(sequence: nat): (h: nat)
    ensures h < TableSize(ByU16)
  {
    sequence * 2654435761 % 0x1_0000_0000 / 0x8_0000
  }

  /** LZ4_hash5: the top 12 bits of a 64-bit product of the low five bytes. */
  function Hash5(sequence: nat): (h: nat)
    ensures h < TableSize(ByU32)
  {
    sequence * 0x100_0000 % 0x1_0000_0000_0000_0000 * 889523592379 % 0x1_0000_0000_0000_0000 / 0x10_0000_0000_0000
  }

  /** Bits 19 to 31 of the product. */
  lemma Hash4Bits(sequence: nat)
    ensures Hash4(sequence) == sequence * 2654435761 / 0x8_0000 % 0x2000
  {
    MiddleBits(sequence * 2654435761, 0x8_0000, 0x2000);
  }

  /** Bits 28 to 39 of the product of the low five bytes: what follows them does not count. */
  lemma Hash5Bits(sequence: nat)
    ensures Hash5(sequence) == sequence % 0x100_0000_0000 * 889523592379 / 0x1000_0000 % 0x1000
  {
    var low := sequence % 0x100_0000_0000;
    ScaledMod(sequence, 0x100_0000, 0x100_0000_0000);
    var product := low * 889523592379;
    ScaledMod(product, 0x100_0000, 0x100_0000_0000);
    assert low * 0x100_0000 * 889523592379 == product * 0x100_0000;
    MiddleBits(product * 0x100_0000, 0x10_0000_0000_0000, 0x1000);
    assert product * 0x100_0000 / 0x10_0000_0000_0000 == product / 0x1000_0000;
  }

  lemma MiddleBits(x: nat, a: nat, b: nat)
    requires a > 0 && b > 0
    ensures a * b > 0 && x % (a * b) / a == x / a % b
  {
    var q, r := x / a, x % a;
    var q', r' := q / b, q % b;
    DivMod(x, a);
    DivMod(q, b);
    Pieces(a, b, q', r', r);
    ModUnique(x, q', r' * a + r, a * b);
    ModUnique(r' * a + r, r', r, a);
  }

  lemma Pieces(a: nat, b: nat, q: nat, s: nat, r: nat)
    requires s < b && r < a
    ensures (q * b + s) * a + r == q * (a * b) + (s * a + r)
    ensures 0 <= s * a + r < a * b
  {
    MulAtLeast(b - s, a);
    assert (b - s) * a == a * b - s * a;
  }

  lemma ScaledMod(x: nat, a: nat, b: nat)
    requires a > 0 && b > 0
    ensures a * b > 0 && x * a % (a * b) == x % b * a
  {
    DivMod(x, b);
    var q, r := x / b, x % b;
    Pieces(a, b, q, r, 0);
    ModUnique(x * a, q, r * a, a * b);
  }

  function HashPosition(src: seq<byte>, p: nat, t: TableType): (h: nat)
    requires p + 8 <= |src|
    ensures h < TableSize(t)
  {
    if t == ByU32 then Hash5(ReadLE(src, p, 8)) else Hash4(ReadLE(src, p, 4))
  }

  function Le32(b0: nat, b1: nat, b2: nat, b3: nat): nat {
    b0 + 0x100 * b1 + 0x1_0000 * b2 + 0x100_0000 * b3
  }

  /** The hash in plain bytes: of the four bytes at `p` in 16-bit tables, of five otherwise. */
  lemma HashOfBytes(src: seq<byte>, p: nat, t: TableType)
    requires p + 8 <= |src|
    ensures var four := Le32(src[p], src[p + 1], src[p + 2], src[p + 3]);
            HashPosition(src, p, t)
            == if t == ByU16 then four * 2654435761 / 0x8_0000 % 0x2000
               else (four + 0x1_0000_0000 * (src[p + 4] as int)) * 889523592379 / 0x1000_0000 % 0x1000
  {
    var four := Le32(src[p], src[p + 1], src[p + 2], src[p + 3]);
    FourRead(src, p);
    var five, rest := four + 0x1_0000_0000 * (src[p + 4] as int), ReadLE(src, p + 5, 3);
    assert ReadLE(src, p + 4, 4) == src[p + 4] as int + 0x100 * rest;
    hide Hash4, Hash5;
    ModUnique(five + 0x100_0000_0000 * rest, rest, five, 0x100_0000_0000);
    Hash4Bits(four);
    Hash5Bits(ReadLE(src, p, 8));
  }

  lemma FourRead(src: seq<byte>, p: nat)
    requires p + 8 <= |src|
    ensures ReadLE(src, p, 4) == Le32(src[p], src[p + 1], src[p + 2], src[p + 3])
    ensures ReadLE(src, p, 8) == ReadLE(src, p, 4) + 0x1_0000_0000 * ReadLE(src, p + 4, 4)
  {
    assert ReadLE(src, p + 4, 0) == 0 && ReadLE(src, p + 3, 1) == src[p + 3];
    assert ReadLE(src, p + 3, 5) == src[p + 3] as int + 0x100 * ReadLE(src, p + 4, 4);
    assert ReadLE(src, p + 2, 6) == src[p + 2] as int + 0x100 * ReadLE(src, p + 3, 5);
    assert ReadLE(src, p + 1, 7) == src[p + 1] as int + 0x100 * ReadLE(src, p + 2, 6);
    assert ReadLE(src, p + 2, 2) == src[p + 2] as int + 0x100 * ReadLE(src, p + 3, 1);
    assert ReadLE(src, p + 1, 3) == src[p + 1] as int + 0x100 * ReadLE(src, p + 2, 2);
  }

  /** A usable match: four equal bytes at a legal distance. */
  ghost predicate Candidate(src: seq<byte>, ip: nat, match0: nat) {
    match0 < ip && ip - match0 <= DISTANCE_MAX && Repeats(src, ip, MINMATCH, ip - match0)
  }

  /** The input sizes a table type is used on. */
  ghost predicate Fits(src: seq<byte>, t: TableType) {
    t == ByU16 ==> |src| < LIMIT_64K
  }

  // ----- Where a match is looked for ------------------------------------------------------------

  /** Attempt `k` from `ip`: next door first, then `acceleration` apart, one more after every 64 attempts. */
  function Probe(ip: nat, acceleration: nat, k: nat): (p: nat)
    ensures ip <= p
  {
    if k == 0 then ip
    else if k == 1 then ip + 1
    else Probe(ip, acceleration, k - 1) + acceleration + (k - 2) / 64
  }

  /** Attempt `k` is made: the one after it would still be in reach of a match. */
  predicate Tried(src: seq<byte>, ip: nat, acceleration: nat, k: nat) {
    Probe(ip, acceleration, k + 1) + MFLIMIT <= |src| + 1
  }

  /** LZ4_putPosition */
  function Register(src: seq<byte>, t: TableType, table: seq<nat>, p: nat): (r: seq<nat>)
    requires |table| == TableSize(t) && p + 8 <= |src|
    ensures |r| == |table|
  {
    table[HashPosition(src, p, t) := p]
  }

  /** The table after attempts 0 to k - 1, each of which registers its own position. */
  function Registered(src: seq<byte>, t: TableType, table: seq<nat>, ip: nat, acceleration: nat, k: nat): (r: seq<nat>)
    requires |table| == TableSize(t) && (k > 0 ==> Tried(src, ip, acceleration, k - 1))
    ensures |r| == |table|
  {
    if k == 0 then table
    else
      var p := Probe(ip, acceleration, k - 1);
      ProbeGrows(ip, acceleration, k - 1);
      Register(src, t, Registered(src, t, table, ip, acceleration, k - 1), p)
  }

  /** What attempt `k` finds in the table. */
  function Entry(src: seq<byte>, t: TableType, table: seq<nat>, ip: nat, acceleration: nat, k: nat): nat
    requires |table| == TableSize(t) && Tried(src, ip, acceleration, k)
  {
    ProbeGrows(ip, acceleration, k);
    Registered(src, t, table, ip, acceleration, k)[HashPosition(src, Probe(ip, acceleration, k), t)]
  }

  /** Attempt `k` is made and finds a match. */
  ghost predicate Hit(src: seq<byte>, t: TableType, table: seq<nat>, ip: nat, acceleration: nat, k: nat)
    requires |table| == TableSize(t)
  {
    && Tried(src, ip, acceleration, k)
    && Candidate(src, Probe(ip, acceleration, k), Entry(src, t, table, ip, acceleration, k))
  }

  ghost predicate FirstHit(src: seq<byte>, t: TableType, table: seq<nat>, ip: nat, acceleration: nat, k: nat)
    requires |table| == TableSize(t)
  {
    && Hit(src, t, table, ip, acceleration, k)
    && forall j: nat :: j < k ==> !Hit(src, t, table, ip, acceleration, j)
  }

  lemma ProbeGrows(ip: nat, acceleration: nat, k: nat)
    ensures Probe(ip, acceleration, k) <= Probe(ip, acceleration, k + 1)
    ensures 1 <= acceleration ==> Probe(ip, acceleration, k) < Probe(ip, acceleration, k + 1)
  {
  }

  lemma {:induction false} TriedBefore(src: seq<byte>, ip: nat, acceleration: nat, j: nat, k: nat)
    requires j <= k && Tried(src, ip, acceleration, k)
    ensures Tried(src, ip, acceleration, j)
    decreases k
  {
    if j < k {
      ProbeGrows(ip, acceleration, k);
      hide Probe;
      TriedBefore(src, ip, acceleration, j, k - 1);
    }
  }

  // ----- What is made of it ---------------------------------------------------------------------

  /** How far the bytes from `i` on repeat those `dist` back. */
  function LongestRepeat(src: seq<byte>, i: nat, dist: nat, limit: nat): (n: nat)
    requires 0 < dist <= i <= limit <= |src|
    ensures IsLongestRepeat(src, i, dist, limit, n)
    decreases limit - i
  {
    if i < limit && src[i] == src[i - dist] then 1 + LongestRepeat(src, i + 1, dist, limit) else 0
  }

  lemma {:induction false} LongestUnique(src: seq<byte>, i: nat, dist: nat, limit: nat, n: nat)
    requires 0 < dist <= i <= limit <= |src| && IsLongestRepeat(src, i, dist, limit, n)
    ensures n == LongestRepeat(src, i, dist, limit)
    decreases n
  {
    if n > 0 {
      LongestUnique(src, i + 1, dist, limit, n - 1);
    }
  }

  /** How far a match extends backwards, over bytes that would otherwise be literals. */
  function Back(src: seq<byte>, anchor: nat, ip: nat, start: nat): (n: nat)
    requires start < ip <= |src|
    ensures n <= start && (n > 0 ==> anchor + n <= ip) && Repeats(src, ip - n, n, ip - start)
  {
    if ip > anchor && start > 0 && src[ip - 1] == src[start - 1] then 1 + Back(src, anchor, ip - 1, start - 1) else 0
  }

  /** Matching is maximal, so the encoder ends up past every position it has registered. */
  lemma PastFilled(src: seq<byte>, ip: nat, filled: nat, dist: nat, end: nat)
    requires ip <= filled && filled + MFLIMIT <= |src| && ip + MINMATCH <= end
    requires Repeats(src, ip, filled - ip + MINMATCH, dist)
    requires IsLongestRepeat(src, ip + MINMATCH, dist, |src| - LASTLITERALS, end - ip - MINMATCH)
    ensures filled + MINMATCH <= end && Repeats(src, ip, end - ip, dist)
  {
  }

  /** A match to be written: it starts at `ip` and was noticed at `filled`. */
  ghost predicate Noticed(src: seq<byte>, anchor: nat, ip: nat, start: nat, filled: nat) {
    && anchor <= ip <= filled && filled + MFLIMIT <= |src|
    && start < ip && ip - start <= DISTANCE_MAX && Repeats(src, ip, filled - ip + MINMATCH, ip - start)
  }

  function MatchEnd(src: seq<byte>, ip: nat, start: nat): (end: nat)
    requires start < ip && ip + MFLIMIT <= |src|
    ensures ip + MINMATCH <= end
    ensures IsLongestRepeat(src, ip + MINMATCH, ip - start, |src| - LASTLITERALS, end - ip - MINMATCH)
  {
    ip + MINMATCH + LongestRepeat(src, ip + MINMATCH, ip - start, |src| - LASTLITERALS)
  }

  /** What a successful search hands over. */
  datatype Find = Find(filled: nat, start: nat, table: seq<nat>)

  ghost function Search(src: seq<byte>, t: TableType, acceleration: nat, table: seq<nat>, ip: nat): (r: Option<Find>)
    requires |table| == TableSize(t) && 1 <= acceleration
    ensures r.Some? ==> |r.value.table| == TableSize(t) && ip <= r.value.filled && r.value.filled + MFLIMIT <= |src|
    ensures r.Some? ==> Candidate(src, r.value.filled, r.value.start)
  {
    if exists k: nat :: FirstHit(src, t, table, ip, acceleration, k) then
      var k: nat :| FirstHit(src, t, table, ip, acceleration, k);
      ProbeGrows(ip, acceleration, k);
      hide Probe, HashPosition;
      Some(Find(Probe(ip, acceleration, k), Entry(src, t, table, ip, acceleration, k), Registered(src, t, table, ip, acceleration, k + 1)))
    else None
  }

  /** The sequences that follow when a match is looked for from `ip` on, `anchor` being the end of the last one. */
  ghost function FromSearch(src: seq<byte>, t: TableType, acceleration: nat, table: seq<nat>, anchor: nat, ip: nat): seq<Sequence>
    requires |table| == TableSize(t) && anchor <= ip && 0 < ip && ip + MFLIMIT <= |src| + 1 && 1 <= acceleration
    decreases |src| - ip, 1
  {
    hide Search, Back, Repeats;
    match Search(src, t, acceleration, table, ip)
    case None => []
    case Some(f) =>
      var back := Back(src, anchor, f.filled, f.start);
      NoticedFrom(src, anchor, f.filled, f.start);
      FromMatch(src, t, acceleration, f.table, anchor, f.filled - back, f.start - back, f.filled)
  }

  /** ... and when a match has been noticed: as long as possible, then on from its end. */
  ghost function FromMatch(src: seq<byte>, t: TableType, acceleration: nat, table: seq<nat>, anchor: nat, ip: nat, start: nat, filled: nat): seq<Sequence>
    requires |table| == TableSize(t) && Noticed(src, anchor, ip, start, filled) && 1 <= acceleration
    decreases |src| - filled, 0
  {
    hide HashPosition, MatchEnd, IsLongestRepeat;
    var end := MatchEnd(src, ip, start);
    PastFilled(src, ip, filled, ip - start, end);
    [Sequence(src[anchor..ip], ip - start, end - ip)] +
    if end + MFLIMIT > |src| then []
    else
      var next := Register(src, t, table, end - 2);
      var start' := next[HashPosition(src, end, t)];
      var table' := Register(src, t, next, end);
      hide Register, Repeats;
      if Candidate(src, end, start') then
        NoticedAt(src, end, start');
        FromMatch(src, t, acceleration, table', end, end, start', end)
      else FromSearch(src, t, acceleration, table', end, end + 1)
  }

  lemma NoticedAt(src: seq<byte>, end: nat, start: nat)
    requires end + MFLIMIT <= |src| && Candidate(src, end, start)
    ensures Noticed(src, end, end, start, end)
  {
  }

  lemma NoticedFrom(src: seq<byte>, anchor: nat, filled: nat, start: nat)
    requires anchor <= filled && filled + MFLIMIT <= |src| && Candidate(src, filled, start)
    ensures var back := Back(src, anchor, filled, start); Noticed(src, anchor, filled - back, start - back, filled)
  {
  }

  /** A search, and what comes of it. */
  lemma AfterSearch(src: seq<byte>, t: TableType, acceleration: nat, table: seq<nat>, anchor: nat, ip: nat)
    requires |table| == TableSize(t) && anchor <= ip && 0 < ip && ip + MFLIMIT <= |src| + 1 && 1 <= acceleration
    ensures match Search(src, t, acceleration, table, ip)
            case None => FromSearch(src, t, acceleration, table, anchor, ip) == []
            case Some(f) =>
              var back := Back(src, anchor, f.filled, f.start);
              && Noticed(src, anchor, f.filled - back, f.start - back, f.filled)
              && FromSearch(src, t, acceleration, table, anchor, ip)
                 == FromMatch(src, t, acceleration, f.table, anchor, f.filled - back, f.start - back, f.filled)
  {
    hide Search, FromMatch, Back, Repeats;
    match Search(src, t, acceleration, table, ip)
    case None =>
    case Some(f) => NoticedFrom(src, anchor, f.filled, f.start);
  }

  /** After a match up to `end`: nothing near the end of the input, else a match right there, else a search. */
  ghost predicate Continues(src: seq<byte>, t: TableType, acceleration: nat, table: seq<nat>, end: nat, rest: seq<Sequence>)
    requires |table| == TableSize(t) && 1 <= acceleration && 4 <= end
  {
    if end + MFLIMIT > |src| then rest == []
    else
      var next := Register(src, t, table, end - 2);
      var start := next[HashPosition(src, end, t)];
      var table' := Register(src, t, next, end);
      if Candidate(src, end, start) then Noticed(src, end, end, start, end) && rest == FromMatch(src, t, acceleration, table', end, end, start, end)
      else rest == FromSearch(src, t, acceleration, table', end, end + 1)
  }

  /** One match, and what comes after it. */
  lemma AfterMatch(src: seq<byte>, t: TableType, acceleration: nat, table: seq<nat>, anchor: nat, ip: nat, start: nat, filled: nat)
    returns (rest: seq<Sequence>)
    requires |table| == TableSize(t) && Noticed(src, anchor, ip, start, filled) && 1 <= acceleration
    ensures var end := MatchEnd(src, ip, start);
            && filled < end && Repeats(src, ip, end - ip, ip - start)
            && FromMatch(src, t, acceleration, table, anchor, ip, start, filled) == [Sequence(src[anchor..ip], ip - start, end - ip)] + rest
            && Continues(src, t, acceleration, table, end, rest)
  {
    hide HashPosition, MatchEnd, Register, FromSearch;
    var end := MatchEnd(src, ip, start);
    PastFilled(src, ip, filled, ip - start, end);
    rest := FromMatch(src, t, acceleration, table, anchor, ip, start, filled)[1..];
  }
}
