/**
 Abstract LZ4 blocks: the list of sequences an encoder decides on, the bytes that stand for it and
 the data it stands for. The theorem of this module is that the reference decoder inverts the
 serialiser on every legal block, and that the serialised block meets the parsing restrictions.
 */
module Lz4Block {
  import opened Common
  import opened Lz4Format

  datatype Sequence = Sequence(literals: seq<byte>, offset: nat, matchLen: nat)
  datatype Block = Block(sequences: seq<Sequence>, lastLiterals: seq<byte>)

  // ----- Meaning ------------------------------------------------------------------------------

  /** The data after `s`, given the data before it. A match that reaches before the start adds nothing. */
  function Apply(out: seq<byte>, s: Sequence): (r: seq<byte>) {
    var withLiterals := out + s.literals;
    if s.offset <= |withLiterals| then CopyMatch(withLiterals, s.offset, s.matchLen) else withLiterals
  }

  function ExpandSequences(ss: seq<Sequence>): (r: seq<byte>) {
    if ss == [] then [] else Apply(ExpandSequences(ss[..|ss| - 1]), ss[|ss| - 1])
  }

  function Expand(b: Block): seq<byte> {
    ExpandSequences(b.sequences) + b.lastLiterals
  }

  /** A sequence placed at output position `pos` of a block of `n` bytes obeys the restrictions. */
  ghost predicate LegalSequence(s: Sequence, pos: nat, n: nat) {
    && 1 <= s.offset <= DISTANCE_MAX
    && s.offset <= pos + |s.literals|
    && MINMATCH <= s.matchLen
    && pos + |s.literals| + MFLIMIT <= n
    && pos + |s.literals| + s.matchLen + LASTLITERALS <= n
  }

  ghost predicate LegalSequences(ss: seq<Sequence>, n: nat) {
    ss != [] ==>
      var init := ss[..|ss| - 1];
      LegalSequences(init, n) && LegalSequence(ss[|ss| - 1], |ExpandSequences(init)|, n)
  }

  ghost predicate LegalBlock(b: Block) {
    LegalSequences(b.sequences, |Expand(b)|)
  }

  // ----- Bytes --------------------------------------------------------------------------------

  function ExtensionBytes(v: nat): (r: seq<byte>)
    ensures |r| == v / 255 + 1
  {
    if v < 255 then [v] else [255] + ExtensionBytes(v - 255)
  }

  function LengthTail(v: nat): (r: seq<byte>) {
    if v < NIBBLE_MAX then [] else ExtensionBytes(v - NIBBLE_MAX)
  }

  function Nibble(v: nat): (r: nat)
    ensures r <= NIBBLE_MAX
  {
    if v < NIBBLE_MAX then v else NIBBLE_MAX
  }

  function OffsetBytes(offset: nat): (r: seq<byte>)
    requires offset <= DISTANCE_MAX
    ensures |r| == 2
  {
    [offset % 256, offset / 256]
  }

  function LiteralBytes(literals: seq<byte>, matchNibble: nat): (r: seq<byte>)
    requires matchNibble <= NIBBLE_MAX
  {
    [Nibble(|literals|) * 16 + matchNibble] + LengthTail(|literals|) + literals
  }

  function SequenceBytes(s: Sequence): (r: seq<byte>)
    requires s.offset <= DISTANCE_MAX && MINMATCH <= s.matchLen
  {
    LiteralBytes(s.literals, Nibble(s.matchLen - MINMATCH)) + OffsetBytes(s.offset)
    + LengthTail(s.matchLen - MINMATCH)
  }

  ghost predicate Writable(ss: seq<Sequence>) {
    forall k :: 0 <= k < |ss| ==> ss[k].offset <= DISTANCE_MAX && MINMATCH <= ss[k].matchLen
  }

  function SequencesBytes(ss: seq<Sequence>): (r: seq<byte>)
    requires Writable(ss)
  {
    if ss == [] then [] else SequencesBytes(ss[..|ss| - 1]) + SequenceBytes(ss[|ss| - 1])
  }

  function Serialize(b: Block): (r: seq<byte>)
    requires Writable(b.sequences)
  {
    SequencesBytes(b.sequences) + LiteralBytes(b.lastLiterals, 0)
  }

  lemma {:induction false} LegalIsWritable(ss: seq<Sequence>, n: nat)
    requires LegalSequences(ss, n)
    ensures Writable(ss)
    decreases |ss|
  {
    if ss != [] {
      LegalIsWritable(ss[..|ss| - 1], n);
      forall k | 0 <= k < |ss|
        ensures ss[k].offset <= DISTANCE_MAX && MINMATCH <= ss[k].matchLen
      {
        if k < |ss| - 1 {
          assert ss[k] == ss[..|ss| - 1][k];
        }
      }
    }
  }

  // ----- Reading back what was written --------------------------------------------------------

  /** The bytes `chunk` stand at position `ip` of `src`. */
  ghost predicate At(src: seq<byte>, ip: nat, chunk: seq<byte>) {
    ip + |chunk| <= |src| && src[ip..ip + |chunk|] == chunk
  }

  lemma AtSplit(src: seq<byte>, ip: nat, a: seq<byte>, b: seq<byte>)
    requires At(src, ip, a + b)
    ensures At(src, ip, a) && At(src, ip + |a|, b)
  {
    assert src[ip..ip + |a|] == src[ip..ip + |a + b|][..|a|];
    assert src[ip + |a|..ip + |a + b|] == src[ip..ip + |a + b|][|a|..];
  }

  lemma AtByte(src: seq<byte>, ip: nat, chunk: seq<byte>, i: nat)
    requires At(src, ip, chunk) && i < |chunk|
    ensures src[ip + i] == chunk[i]
  {
    assert src[ip + i] == src[ip..ip + |chunk|][i];
  }

  lemma {:induction false} ReadExtensionAt(src: seq<byte>, ip: nat, v: nat)
    requires At(src, ip, ExtensionBytes(v))
    ensures ReadExtension(src, ip) == Some((v, ip + |ExtensionBytes(v)|))
    decreases v
  {
    AtByte(src, ip, ExtensionBytes(v), 0);
    if v >= 255 {
      AtSplit(src, ip, [255], ExtensionBytes(v - 255));
      ReadExtensionAt(src, ip + 1, v - 255);
    }
  }

  lemma ReadLengthAt(src: seq<byte>, ip: nat, v: nat)
    requires At(src, ip, LengthTail(v))
    ensures ReadLength(Unbounded, src, ip, Nibble(v)) == Some((v, ip + |LengthTail(v)|))
  {
    if v >= NIBBLE_MAX {
      ReadExtensionAt(src, ip, v - NIBBLE_MAX);
    }
  }

  lemma TokenNibbles(hi: nat, lo: nat)
    requires hi <= NIBBLE_MAX && lo <= NIBBLE_MAX
    ensures (hi * 16 + lo) / 16 == hi && (hi * 16 + lo) % 16 == lo
  {
  }

  /** The literal part of an element reads back: length and position of the literals. */
  lemma ReadLiteralsAt(src: seq<byte>, ip: nat, literals: seq<byte>, matchNibble: nat)
    requires matchNibble <= NIBBLE_MAX
    requires At(src, ip, LiteralBytes(literals, matchNibble))
    ensures var lit := ip + 1 + |LengthTail(|literals|)|;
            && src[ip] / 16 == Nibble(|literals|) && src[ip] % 16 == matchNibble
            && ReadLength(Unbounded, src, ip + 1, Nibble(|literals|)) == Some((|literals|, lit))
            && At(src, lit, literals)
            && lit + |literals| == ip + |LiteralBytes(literals, matchNibble)|
  {
    hide LengthTail;
    hide ReadLength;
    hide Nibble;
    var token: byte := Nibble(|literals|) * 16 + matchNibble;
    var tail := LengthTail(|literals|);
    AtSplit(src, ip, [token] + tail, literals);
    AtSplit(src, ip, [token], tail);
    AtByte(src, ip, [token], 0);
    TokenNibbles(Nibble(|literals|), matchNibble);
    ReadLengthAt(src, ip + 1, |literals|);
  }

  lemma ReadOffsetAt(src: seq<byte>, m: nat, offset: nat)
    requires offset <= DISTANCE_MAX
    requires At(src, m, OffsetBytes(offset))
    ensures Le16(src[m], src[m + 1]) == offset
  {
    AtByte(src, m, OffsetBytes(offset), 0);
    AtByte(src, m, OffsetBytes(offset), 1);
  }

  /** A sequence at `ip` splits into its literal part, offset and match-length extension. */
  lemma SequencePartsAt(src: seq<byte>, ip: nat, s: Sequence)
    requires s.offset <= DISTANCE_MAX && MINMATCH <= s.matchLen
    requires At(src, ip, SequenceBytes(s))
    ensures var code := s.matchLen - MINMATCH;
            var head := LiteralBytes(s.literals, Nibble(code));
            && At(src, ip, head)
            && At(src, ip + |head|, OffsetBytes(s.offset))
            && At(src, ip + |head| + 2, LengthTail(code))
            && ip + |head| + 2 + |LengthTail(code)| == ip + |SequenceBytes(s)| <= |src|
  {
    hide LiteralBytes;
    hide LengthTail;
    hide OffsetBytes;
    hide Nibble;
    var code := s.matchLen - MINMATCH;
    var head := LiteralBytes(s.literals, Nibble(code));
    AtSplit(src, ip, head + OffsetBytes(s.offset), LengthTail(code));
    AtSplit(src, ip, head, OffsetBytes(s.offset));
  }

  lemma ReadSequenceAt(src: seq<byte>, ip: nat, s: Sequence)
    requires s.offset <= DISTANCE_MAX && MINMATCH <= s.matchLen
    requires At(src, ip, SequenceBytes(s))
    ensures ip + |SequenceBytes(s)| <= |src|
    ensures var e := ReadElement(Unbounded, src, ip);
            && e.Copy? && At(src, e.lit, s.literals) && e.len == |s.literals|
            && e.offset == s.offset && e.matchLen == s.matchLen
            && e.next == ip + |SequenceBytes(s)|
  {
    hide SequenceBytes;
    hide LiteralBytes;
    hide LengthTail;
    hide Nibble;
    hide OffsetBytes;
    hide ReadLength;
    var code := s.matchLen - MINMATCH;
    SequencePartsAt(src, ip, s);
    var m := ip + |LiteralBytes(s.literals, Nibble(code))|;
    ReadLiteralsAt(src, ip, s.literals, Nibble(code));
    ReadOffsetAt(src, m, s.offset);
    ReadLengthAt(src, m + 2, code);
  }

  lemma ReadFinalAt(src: seq<byte>, ip: nat, literals: seq<byte>)
    requires At(src, ip, LiteralBytes(literals, 0)) && ip + |LiteralBytes(literals, 0)| == |src|
    ensures var e := ReadElement(Unbounded, src, ip);
            e.Final? && e.len == |literals| && src[e.lit..] == literals && src[ip] % 16 == 0
  {
    ReadLiteralsAt(src, ip, literals, 0);
  }

  /**
   Position k of a legal block: reading on from there yields the whole block, within the rules.
   By induction from the last sequence back to the first.
   */
  lemma {:induction false} DecodeFrom(b: Block, k: nat)
    requires k <= |b.sequences|
    requires LegalBlock(b)
    requires Writable(b.sequences) && Writable(b.sequences[..k])
    ensures var ip := |SequencesBytes(b.sequences[..k])|;
            var out := ExpandSequences(b.sequences[..k]);
            && ip <= |Serialize(b)|
            && Decode(Unbounded, Serialize(b), ip, out) == Some(Expand(b))
            && Conforms(Serialize(b), ip, |out|, |Expand(b)|)
    decreases |b.sequences| - k
  {
    hide Decode;
    hide Conforms;
    hide SequenceBytes;
    hide LiteralBytes;
    var ss := b.sequences;
    var ip := |SequencesBytes(ss[..k])|;
    if k == |ss| {
      assert ss[..k] == ss;
      DecodeFinal(Serialize(b), ip, ExpandSequences(ss), b.lastLiterals);
    } else {
      assert ss[..k + 1][..k] == ss[..k];
      LegalPrefix(ss, k + 1, |Expand(b)|);
      SequenceInPlace(b, k);
      DecodeFrom(b, k + 1);
      assert ExpandSequences(ss[..k + 1]) == Apply(ExpandSequences(ss[..k]), ss[k]);
      DecodeStep(Serialize(b), ip, ss[k], ExpandSequences(ss[..k]), Expand(b));
    }
  }

  lemma DecodeFinal(src: seq<byte>, ip: nat, out: seq<byte>, literals: seq<byte>)
    requires At(src, ip, LiteralBytes(literals, 0)) && ip + |LiteralBytes(literals, 0)| == |src|
    ensures Decode(Unbounded, src, ip, out) == Some(out + literals)
    ensures Conforms(src, ip, |out|, |out + literals|)
  {
    ReadFinalAt(src, ip, literals);
  }

  /** One step of the induction: reading `s` at `ip` leads to the position after it. */
  lemma DecodeStep(src: seq<byte>, ip: nat, s: Sequence, out: seq<byte>, r: seq<byte>)
    requires LegalSequence(s, |out|, |r|)
    requires At(src, ip, SequenceBytes(s))
    requires var next := ip + |SequenceBytes(s)|;
             Decode(Unbounded, src, next, Apply(out, s)) == Some(r) && Conforms(src, next, |Apply(out, s)|, |r|)
    ensures Decode(Unbounded, src, ip, out) == Some(r)
    ensures Conforms(src, ip, |out|, |r|)
  {
    hide SequenceBytes;
    hide ReadElement;
    hide CopyMatch;
    hide Decode;
    hide Conforms;
    ReadSequenceAt(src, ip, s);
    CopyStep(src, ip, out, |r|);
  }

  lemma {:induction false} LegalPrefix(ss: seq<Sequence>, k: nat, n: nat)
    requires k <= |ss| && LegalSequences(ss, n)
    ensures LegalSequences(ss[..k], n)
    decreases |ss|
  {
    if k == |ss| {
      assert ss[..k] == ss;
    } else {
      LegalPrefix(ss[..|ss| - 1], k, n);
      assert ss[..|ss| - 1][..k] == ss[..k];
    }
  }

  lemma {:induction false} SequencesBytesPrefix(ss: seq<Sequence>, k: nat)
    requires k <= |ss| && Writable(ss)
    ensures SequencesBytes(ss[..k]) <= SequencesBytes(ss)
    decreases |ss|
  {
    if k == |ss| {
      assert ss[..k] == ss;
    } else {
      SequencesBytesPrefix(ss[..|ss| - 1], k);
      assert ss[..|ss| - 1][..k] == ss[..k];
    }
  }

  lemma PrefixPlace(src: seq<byte>, a: seq<byte>, b: seq<byte>)
    requires a + b <= src
    ensures At(src, |a|, b)
  {
    AtSplit(src, 0, a, b);
  }

  lemma SequenceInPlace(b: Block, k: nat)
    requires k < |b.sequences| && Writable(b.sequences)
    ensures var ip := |SequencesBytes(b.sequences[..k])|;
            && At(Serialize(b), ip, SequenceBytes(b.sequences[k]))
            && ip + |SequenceBytes(b.sequences[k])| == |SequencesBytes(b.sequences[..k + 1])|
  {
    hide SequenceBytes;
    hide LiteralBytes;
    var ss := b.sequences;
    assert ss[..k + 1][..k] == ss[..k];
    SequencesBytesPrefix(ss, k + 1);
    PrefixPlace(Serialize(b), SequencesBytes(ss[..k]), SequenceBytes(ss[k]));
  }

  /** The reference decoder inverts the serialiser, and serialised legal blocks conform. */
  lemma SerializeDecodes(b: Block)
    requires LegalBlock(b)
    ensures Writable(b.sequences)
    ensures Decode(Unbounded, Serialize(b), 0, []) == Some(Expand(b))
    ensures Conforms(Serialize(b), 0, 0, |Expand(b)|)
  {
    LegalIsWritable(b.sequences, |Expand(b)|);
    assert b.sequences[..0] == [];
    DecodeFrom(b, 0);
  }

  // ----- Size -----------------------------------------------------------------------------------

  lemma LengthTailSize(v: nat)
    ensures |LengthTail(v)| == if v < NIBBLE_MAX then 0 else (v - NIBBLE_MAX) / 255 + 1
    ensures |LengthTail(v)| == (v + 240) / 255
    ensures |LengthTail(v)| <= v / 255 + 1
  {
  }

  /** A sequence never costs more than it covers, except one byte per 255 literals. */
  lemma SequenceCost(s: Sequence)
    requires s.offset <= DISTANCE_MAX && MINMATCH <= s.matchLen
    ensures |SequenceBytes(s)| <= |s.literals| + s.matchLen + |s.literals| / 255
  {
    hide LengthTail;
    LengthTailSize(|s.literals|);
    LengthTailSize(s.matchLen - MINMATCH);
  }

  lemma CostsAdd(a: nat, b: nat)
    ensures a / 255 + b / 255 <= (a + b) / 255
  {
  }

  lemma LiteralCost(literals: seq<byte>)
    ensures |LiteralBytes(literals, 0)| <= |literals| + |literals| / 255 + 2
    ensures |LiteralBytes(literals, 0)| == 1 + |literals| + (|literals| + 240) / 255
  {
    LengthTailSize(|literals|);
  }

  lemma {:induction false} SequencesCost(ss: seq<Sequence>, n: nat)
    requires LegalSequences(ss, n) && Writable(ss)
    ensures |SequencesBytes(ss)| <= |ExpandSequences(ss)| + |ExpandSequences(ss)| / 255
    decreases |ss|
  {
    hide SequenceBytes;
    if ss != [] {
      var init, s := ss[..|ss| - 1], ss[|ss| - 1];
      LegalIsWritable(init, n);
      SequencesCost(init, n);
      SequenceCost(s);
      CostsAdd(|ExpandSequences(init)|, |s.literals| + s.matchLen);
      assert |s.literals| / 255 <= (|s.literals| + s.matchLen) / 255;
    }
  }

  /** However an encoder chooses its sequences, a legal block has at most n + n / 255 + 2 bytes. */
  lemma SerializedSize(b: Block)
    requires LegalBlock(b)
    ensures Writable(b.sequences)
    ensures |Serialize(b)| <= |Expand(b)| + |Expand(b)| / 255 + 2
  {
    hide LiteralBytes;
    LegalIsWritable(b.sequences, |Expand(b)|);
    SequencesCost(b.sequences, |Expand(b)|);
    LiteralCost(b.lastLiterals);
    CostsAdd(|ExpandSequences(b.sequences)|, |b.lastLiterals|);
  }
}
