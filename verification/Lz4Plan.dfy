/**
 The block the encoder decides on: the sequences of the search, then what is left as literals. It is a
 legal block for the input, and how large it is decides alone whether compression succeeds.
 */
module Lz4Plan {
  import opened Common
  import opened Lz4Format
  import opened Lz4Block
  import opened Lz4Count
  import opened Lz4Search

  // ----- What has been encoded so far -----------------------------------------------------------

  /** The output holds the sequences `ss`, which stand for the input up to `anchor`. */
  ghost predicate Encoded(src: seq<byte>, out: seq<byte>, anchor: nat, ss: seq<Sequence>) {
    && anchor <= |src|
    && LegalSequences(ss, |src|) && Writable(ss)
    && ExpandSequences(ss) == src[..anchor]
    && out == SequencesBytes(ss)
    && |out| <= anchor + anchor / 255
  }

  /** A run of input that repeats earlier input is what the match expands to. */
  lemma MatchExpands(src: seq<byte>, ip: nat, len: nat, offset: nat)
    requires 0 < offset && Repeats(src, ip, len, offset)
    ensures CopyMatch(src[..ip], offset, len) == src[..ip + len]
  {
    var a := src[..ip + len];
    assert a[..ip] == src[..ip];
    assert Follows(src[..ip], offset, src[..ip]);
    assert offset % offset == 0 by { ModUnique(offset, 1, 0, offset); }
    ExtendPeriodic(src[..ip], offset, a, ip, offset);
    FollowsIsCopyMatch(src[..ip], offset, a);
  }

  lemma AddSequence(src: seq<byte>, out: seq<byte>, anchor: nat, ss: seq<Sequence>, ip: nat, match0: nat, end: nat)
    requires Encoded(src, out, anchor, ss)
    requires anchor <= ip && match0 < ip && ip - match0 <= DISTANCE_MAX
    requires ip + MFLIMIT <= |src| && ip + MINMATCH <= end <= |src| - LASTLITERALS
    requires Repeats(src, ip, end - ip, ip - match0)
    ensures var s := Sequence(src[anchor..ip], ip - match0, end - ip);
            Encoded(src, out + SequenceBytes(s), end, ss + [s])
  {
    hide CopyMatch;
    hide SequenceBytes;
    var s := Sequence(src[anchor..ip], ip - match0, end - ip);
    var ss' := ss + [s];
    assert ss'[..|ss|] == ss;
    assert src[..anchor] + s.literals == src[..ip];
    MatchExpands(src, ip, end - ip, ip - match0);
    SequenceCost(s);
    CostsAdd(anchor, ip - anchor);
  }

  /** The bytes are a legal block that stands for the input. */
  ghost predicate Compressed(src: seq<byte>, out: seq<byte>, b: Block) {
    && Expand(b) == src && LegalBlock(b) && Writable(b.sequences)
    && out == Serialize(b)
  }

  lemma FinishBlock(src: seq<byte>, out: seq<byte>, anchor: nat, ss: seq<Sequence>)
    requires Encoded(src, out, anchor, ss)
    ensures Compressed(src, out + LiteralBytes(src[anchor..], 0), Block(ss, src[anchor..]))
  {
    hide LiteralBytes;
    assert src == src[..anchor] + src[anchor..];
  }

  /** Whatever the encoder decided on, its output is within the bound the library promises. */
  lemma CompressedSize(src: seq<byte>, out: seq<byte>, b: Block)
    requires Compressed(src, out, b)
    ensures |out| <= |src| + |src| / 255 + 2
  {
    SerializedSize(b);
  }

  // ----- The plan -------------------------------------------------------------------------------

  /** The sequences decided on for the whole input, starting from an empty table. */
  ghost function Plan(src: seq<byte>, t: TableType, acceleration: nat): seq<Sequence>
    requires 1 <= acceleration
  {
    if |src| < MIN_LENGTH then [] else FromSearch(src, t, acceleration, seq(TableSize(t), _ => 0), 0, 1)
  }

  /** `b` is the block of the plan. */
  ghost predicate Planned(src: seq<byte>, t: TableType, acceleration: nat, b: Block)
    requires 1 <= acceleration
  {
    b.sequences == Plan(src, t, acceleration) && Writable(b.sequences) && Compressed(src, Serialize(b), b)
  }

  lemma PlannedUnique(src: seq<byte>, t: TableType, acceleration: nat, b: Block, b': Block)
    requires 1 <= acceleration && Planned(src, t, acceleration, b) && Planned(src, t, acceleration, b')
    ensures b == b'
  {
    hide Plan, ExpandSequences, LegalSequences, Serialize;
    var n := |ExpandSequences(b.sequences)|;
    assert b.lastLiterals == src[n..] && b'.lastLiterals == src[n..];
  }

  /** Whatever the search finds from here on continues what has been encoded. */
  lemma {:induction false} SearchEncodes(src: seq<byte>, t: TableType, acceleration: nat, table: seq<nat>, anchor: nat, ip: nat,
                                         ss: seq<Sequence>, out: seq<byte>) returns (end: nat, out': seq<byte>)
    requires |table| == TableSize(t) && anchor <= ip && 0 < ip && ip + MFLIMIT <= |src| + 1 && 1 <= acceleration
    requires Encoded(src, out, anchor, ss)
    ensures Encoded(src, out', end, ss + FromSearch(src, t, acceleration, table, anchor, ip))
    decreases |src| - ip, 1
  {
    hide Encoded, Search, Back, Noticed, FromMatch, Repeats;
    match Search(src, t, acceleration, table, ip)
    case None =>
      end, out' := anchor, out;
      assert ss + [] == ss;
    case Some(f) =>
      var back := Back(src, anchor, f.filled, f.start);
      NoticedFrom(src, anchor, f.filled, f.start);
      end, out' := MatchEncodes(src, t, acceleration, f.table, anchor, f.filled - back, f.start - back, f.filled, ss, out);
  }

  lemma {:induction false} MatchEncodes(src: seq<byte>, t: TableType, acceleration: nat, table: seq<nat>, anchor: nat, ip: nat, start: nat,
                                        filled: nat, ss: seq<Sequence>, out: seq<byte>) returns (end: nat, out': seq<byte>)
    requires |table| == TableSize(t) && Noticed(src, anchor, ip, start, filled) && 1 <= acceleration
    requires Encoded(src, out, anchor, ss)
    ensures Encoded(src, out', end, ss + FromMatch(src, t, acceleration, table, anchor, ip, start, filled))
    decreases |src| - filled, 0
  {
    hide Encoded, FromSearch, FromMatch, HashPosition, MatchEnd, SequenceBytes, Register, Repeats, Candidate;
    var e := MatchEnd(src, ip, start);
    var rest := AfterMatch(src, t, acceleration, table, anchor, ip, start, filled);
    var s := Sequence(src[anchor..ip], ip - start, e - ip);
    AddSequence(src, out, anchor, ss, ip, start, e);
    end, out' := e, out + SequenceBytes(s);
    assert ss + ([s] + rest) == ss + [s] + rest;
    if e + MFLIMIT <= |src| {
      var next := Register(src, t, table, e - 2);
      var start' := next[HashPosition(src, e, t)];
      var table' := Register(src, t, next, e);
      hide Noticed;
      if Candidate(src, e, start') {
        end, out' := MatchEncodes(src, t, acceleration, table', e, e, start', e, ss + [s], out');
      } else {
        end, out' := SearchEncodes(src, t, acceleration, table', e, e + 1, ss + [s], out');
      }
    } else {
      assert ss + [s] + rest == ss + [s];
    }
  }

  lemma NothingEncoded(src: seq<byte>)
    ensures Encoded(src, [], 0, [])
  {
  }

  /** There is a block of the plan, and it stands for the input. */
  lemma PlanEncodes(src: seq<byte>, t: TableType, acceleration: nat) returns (b: Block)
    requires 1 <= acceleration
    ensures Planned(src, t, acceleration, b)
  {
    hide FromSearch, Compressed, Serialize, LiteralBytes;
    NothingEncoded(src);
    var end, out := 0, [];
    if |src| >= MIN_LENGTH {
      end, out := SearchEncodes(src, t, acceleration, seq(TableSize(t), _ => 0), 0, 1, [], []);
      assert [] + Plan(src, t, acceleration) == Plan(src, t, acceleration);
    }
    b := Block(Plan(src, t, acceleration), src[end..]);
    FinishBlock(src, out, end, b.sequences);
    BytesOf(src, out + LiteralBytes(src[end..], 0), b);
  }

  lemma BytesOf(src: seq<byte>, out: seq<byte>, b: Block)
    requires Compressed(src, out, b)
    ensures Writable(b.sequences) && out == Serialize(b)
  {
  }

  // ----- Room -----------------------------------------------------------------------------------

  /** With `room` bytes, some sequence leaves no room for a token and the last literals after it. */
  ghost predicate Overflows(plan: seq<Sequence>, room: nat) {
    exists k :: 0 < k <= |plan| && Writable(plan[..k]) && |SequencesBytes(plan[..k])| + 1 + LASTLITERALS > room
  }

  lemma OverflowsAt(plan: seq<Sequence>, ss: seq<Sequence>, s: Sequence, rest: seq<Sequence>, room: nat)
    requires plan == ss + ([s] + rest) && Writable(ss) && s.offset <= DISTANCE_MAX && MINMATCH <= s.matchLen
    requires |SequencesBytes(ss)| + |SequenceBytes(s)| + 1 + LASTLITERALS > room
    ensures Overflows(plan, room)
  {
    hide SequenceBytes;
    assert plan[..|ss| + 1] == ss + [s];
    assert (ss + [s])[..|ss|] == ss;
  }

  /** Then the whole block does not fit either: it has that token and at least as many literals. */
  lemma OverflowsMeans(src: seq<byte>, t: TableType, acceleration: nat, b: Block, room: nat)
    requires 1 <= acceleration && Planned(src, t, acceleration, b) && Overflows(Plan(src, t, acceleration), room)
    ensures |Serialize(b)| > room
  {
    hide Plan, LegalSequence;
    var ss := b.sequences;
    var k :| 0 < k <= |ss| && Writable(ss[..k]) && |SequencesBytes(ss[..k])| + 1 + LASTLITERALS > room;
    hide SequencesBytes;
    SequencesBytesPrefix(ss, k);
    LastLiteralsLeft(b);
    LiteralCost(b.lastLiterals);
  }

  lemma LastLiteralsLeft(b: Block)
    requires LegalBlock(b) && b.sequences != []
    ensures |b.lastLiterals| >= LASTLITERALS
  {
  }

  // ----- Runs of one byte -----------------------------------------------------------------------

  predicate AllEqual(src: seq<byte>) {
    forall i, j :: 0 <= i < j < |src| ==> src[i] == src[j]
  }

  /** What `n` equal bytes compress to: 13 or more are one literal, a match at distance 1, five literals. */
  function RunSize(n: nat): nat {
    if n < 13 then 1 + n
    else if n < 25 then 10
    else 11 + (n - 25) / 255
  }

  lemma RunPlan(src: seq<byte>, t: TableType, acceleration: nat)
    requires 1 <= acceleration && AllEqual(src) && |src| >= MIN_LENGTH
    ensures Plan(src, t, acceleration) == [Sequence([src[0]], 1, |src| - 6)]
  {
    hide Search, AllEqual, FromMatch, Back, Repeats;
    var table := seq(TableSize(t), _ => 0);
    RunFound(src, t, acceleration, table);
    var f := Search(src, t, acceleration, table, 1).value;
    NothingBefore(src);
    NoticedFrom(src, 0, 1, 0);
    RunMatch(src, t, acceleration, f.table);
  }

  lemma NothingBefore(src: seq<byte>)
    requires |src| >= MIN_LENGTH
    ensures Back(src, 0, 1, 0) == 0
  {
  }

  /** The match runs up to the last literals. */
  lemma RunMatch(src: seq<byte>, t: TableType, acceleration: nat, table: seq<nat>)
    requires 1 <= acceleration && AllEqual(src) && |src| >= MIN_LENGTH && |table| == TableSize(t) && Noticed(src, 0, 1, 0, 1)
    ensures FromMatch(src, t, acceleration, table, 0, 1, 0, 1) == [Sequence([src[0]], 1, |src| - 6)]
  {
    RunLength(src);
    hide MatchEnd, AllEqual, Noticed, FromSearch, Register, HashPosition;
    assert src[0..1] == [src[0]];
  }

  lemma RunLength(src: seq<byte>)
    requires AllEqual(src) && |src| >= MIN_LENGTH
    ensures MatchEnd(src, 1, 0) == |src| - 5
  {
    LongestUnique(src, 5, 1, |src| - LASTLITERALS, |src| - 10);
  }

  /** The very first attempt finds position 0 in the empty table. */
  lemma RunFound(src: seq<byte>, t: TableType, acceleration: nat, table: seq<nat>)
    requires 1 <= acceleration && AllEqual(src) && |src| >= MIN_LENGTH
    requires |table| == TableSize(t) && forall h :: 0 <= h < |table| ==> table[h] == 0
    ensures var r := Search(src, t, acceleration, table, 1); r.Some? && r.value.filled == 1 && r.value.start == 0
  {
    hide HashPosition, AllEqual;
    assert Probe(1, acceleration, 0) == 1 && Probe(1, acceleration, 1) == 2;
    assert Registered(src, t, table, 1, acceleration, 0) == table;
    assert Candidate(src, 1, 0) by { RunRepeats(src); }
    assert Hit(src, t, table, 1, acceleration, 0);
    assert FirstHit(src, t, table, 1, acceleration, 0);
    hide Hit, Registered, Probe;
    forall k: nat | FirstHit(src, t, table, 1, acceleration, k)
      ensures k == 0
    {
    }
  }

  lemma RunRepeats(src: seq<byte>)
    requires AllEqual(src) && |src| >= MIN_LENGTH
    ensures Candidate(src, 1, 0)
  {
  }

  /** n equal bytes take about n / 255 bytes. */
  lemma RunCompressed(src: seq<byte>, t: TableType, acceleration: nat, b: Block)
    requires 1 <= acceleration && AllEqual(src) && Planned(src, t, acceleration, b)
    ensures |Serialize(b)| == RunSize(|src|)
  {
    if |src| >= MIN_LENGTH {
      RunPlan(src, t, acceleration);
    }
    hide Plan;
    RunBytes(src, b);
  }

  lemma RunBytes(src: seq<byte>, b: Block)
    requires Writable(b.sequences) && Compressed(src, Serialize(b), b)
    requires b.sequences == if |src| < MIN_LENGTH then [] else [Sequence([src[0]], 1, |src| - 6)]
    ensures |Serialize(b)| == RunSize(|src|)
  {
    LiteralCost(b.lastLiterals);
    if |src| >= MIN_LENGTH {
      hide LiteralBytes, SequenceBytes, CopyMatch, LengthTail;
      var s := Sequence([src[0]], 1, |src| - 6);
      OneSequence(s);
      OneBytes(s);
      assert |src| == 1 + (|src| - 6) + |b.lastLiterals|;
    } else {
      assert SequencesBytes([]) == [] && ExpandSequences([]) == [];
    }
  }

  lemma OneSequence(s: Sequence)
    requires s.offset <= DISTANCE_MAX && MINMATCH <= s.matchLen && s.offset <= |s.literals|
    ensures |ExpandSequences([s])| == |s.literals| + s.matchLen && SequencesBytes([s]) == SequenceBytes(s)
  {
    hide SequenceBytes, CopyMatch;
    assert [s][..0] == [];
    assert ExpandSequences([]) == [] && SequencesBytes([]) == [];
  }

  lemma OneBytes(s: Sequence)
    requires s.offset <= DISTANCE_MAX && MINMATCH <= s.matchLen && |s.literals| == 1
    ensures |SequenceBytes(s)| == 4 + (s.matchLen - MINMATCH + 240) / 255
  {
    hide LengthTail;
    LengthTailSize(s.matchLen - MINMATCH);
    LengthTailSize(1);
  }
}
