/**
 The LZ4 block format, as an independent reference: a byte-at-a-time decoder, the abstract
 blocks an encoder means to write, and the end-of-block parsing restrictions.
 Nothing here follows the control flow of src/lz4/lz4_all.c; the encoder and the decoder
 modules are proved against these definitions.
 */
module Lz4Format {
  import opened Common

  const MINMATCH := 4
  const MFLIMIT := 12
  const LASTLITERALS := 5
  /** A 4-bit length equal to this value is continued in extension bytes. */
  const NIBBLE_MAX := 15
  const U32_RANGE := 0x1_0000_0000
  const DISTANCE_MAX := 65535

  // ----- Reading one element ---------------------------------------------------------------

  /** The extension bytes at `ip`: their sum, and the position after the first byte below 255. */
  function ReadExtension(src: seq<byte>, ip: nat): (r: Option<(nat, nat)>)
    requires ip <= |src|
    ensures r.Some? ==> ip < r.value.1 <= |src|
    decreases |src| - ip
  {
    if ip == |src| then None
    else if src[ip] != 255 then Some((src[ip], ip + 1))
    else match ReadExtension(src, ip + 1)
      case None => None
      case Some((sum, next)) => Some((255 + sum, next))
  }

  /**
   How length bytes are added up: without bound, as the format means them, or in a 32-bit variable.
   The format is the `Unbounded` reading throughout; the other one exists to say where a decoder that
   accumulates in 32 bits departs from it.
   */
  datatype Width = Unbounded | Bits32

  function Held(w: Width, sum: nat): nat {
    if w == Bits32 then sum % U32_RANGE else sum
  }

  /** A length field: its value and the position after its extension bytes, if it has any. */
  function ReadLength(w: Width, src: seq<byte>, ip: nat, nibble: nat): (r: Option<(nat, nat)>)
    requires ip <= |src|
    ensures r.Some? ==> ip <= r.value.1 <= |src|
  {
    if nibble < NIBBLE_MAX then Some((nibble, ip))
    else match ReadExtension(src, ip)
      case None => None
      case Some((sum, next)) => Some((NIBBLE_MAX + Held(w, sum), next))
  }

  /** One sequence of a block: literals at [lit, lit + len), then (unless final) a match. */
  datatype Element =
    | Malformed
    | Final(lit: nat, len: nat)
    | Copy(lit: nat, len: nat, offset: nat, matchLen: nat, next: nat)

  function Le16(lo: byte, hi: byte): (v: nat)
    ensures v <= DISTANCE_MAX
  {
    lo as int + 256 * (hi as int)
  }

  function ReadElement(w: Width, src: seq<byte>, ip: nat): (e: Element)
    requires ip <= |src|
    ensures e.Final? ==> ip < e.lit && e.lit + e.len == |src|
    ensures e.Copy? ==> ip < e.lit && e.lit + e.len + 2 <= e.next <= |src| && MINMATCH <= e.matchLen
  {
    if ip == |src| then Malformed
    else match ReadLength(w, src, ip + 1, src[ip] / 16)
      case None => Malformed
      case Some((len, lit)) =>
        var m := lit + len;
        if m == |src| then Final(lit, len)
        else if m + 2 > |src| then Malformed
        else match ReadLength(w, src, m + 2, src[ip] % 16)
          case None => Malformed
          case Some((code, next)) => Copy(lit, len, Le16(src[m], src[m + 1]), code + MINMATCH, next)
  }

  // ----- Reference decoder ------------------------------------------------------------------

  /** Append `len` bytes, each a copy of the byte `offset` positions back (zero for offset 0). */
  function CopyMatch(out: seq<byte>, offset: nat, len: nat): (r: seq<byte>)
    requires offset <= |out|
    ensures |r| == |out| + len
    decreases len
  {
    if len == 0 then out
    else CopyMatch(out + [if offset == 0 then 0 else out[|out| - offset]], offset, len - 1)
  }

  /** Decode the elements from `ip` on, appending to `out`; None when the block is malformed. */
  function Decode(w: Width, src: seq<byte>, ip: nat, out: seq<byte>): (r: Option<seq<byte>>)
    requires ip <= |src|
    decreases |src| - ip
  {
    match ReadElement(w, src, ip)
    case Malformed => None
    case Final(lit, len) => Some(out + src[lit..])
    case Copy(lit, len, offset, matchLen, next) =>
      var withLiterals := out + src[lit..lit + len];
      if offset > |withLiterals| then None
      else Decode(w, src, next, CopyMatch(withLiterals, offset, matchLen))
  }

  /**
   The parsing restrictions, for a block that expands from `pos` to exactly `n` bytes:
   matches have a legal non-zero offset, start at least MFLIMIT bytes before the end and end at
   least LASTLITERALS before it. The empty block is the single byte 0.
   */
  ghost predicate Conforms(src: seq<byte>, ip: nat, pos: nat, n: nat)
    requires ip <= |src|
    decreases |src| - ip
  {
    match ReadElement(Unbounded, src, ip)
    case Malformed => false
    case Final(lit, len) => pos + len == n && (n == 0 ==> src[ip] == 0)
    case Copy(lit, len, offset, matchLen, next) =>
      && 1 <= offset <= pos + len
      && pos + len + MFLIMIT <= n
      && pos + len + matchLen + LASTLITERALS <= n
      && Conforms(src, next, pos + len + matchLen, n)
  }

  /** Unfolding of both recursions at a Copy element. */
  lemma CopyStep(src: seq<byte>, ip: nat, out: seq<byte>, n: nat)
    requires ip <= |src|
    requires ReadElement(Unbounded, src, ip).Copy?
    requires var e := ReadElement(Unbounded, src, ip); e.offset <= |out| + e.len
    ensures var e := ReadElement(Unbounded, src, ip);
            var out' := CopyMatch(out + src[e.lit..e.lit + e.len], e.offset, e.matchLen);
            && Decode(Unbounded, src, ip, out) == Decode(Unbounded, src, e.next, out')
            && (Conforms(src, ip, |out|, n) <==>
                  && 1 <= e.offset
                  && |out| + e.len + MFLIMIT <= n
                  && |out'| + LASTLITERALS <= n
                  && Conforms(src, e.next, |out'|, n))
  {
    hide ReadElement;
    hide CopyMatch;
  }

  /** A conforming block that still owes LASTLITERALS output bytes has a token and those literals left. */
  lemma {:induction false} ConformsRoom(src: seq<byte>, ip: nat, pos: nat, n: nat)
    requires ip <= |src|
    requires Conforms(src, ip, pos, n)
    ensures pos <= n
    ensures pos + LASTLITERALS <= n ==> ip + 1 + LASTLITERALS <= |src|
    decreases |src| - ip
  {
    var e := ReadElement(Unbounded, src, ip);
    if e.Copy? {
      ConformsRoom(src, e.next, pos + e.len + e.matchLen, n);
    }
  }

  /** What a conforming block promises about the element at `ip`: these are the decoder's own tests. */
  lemma ConformsElement(src: seq<byte>, ip: nat, pos: nat, n: nat)
    requires ip <= |src|
    requires Conforms(src, ip, pos, n)
    ensures var e := ReadElement(Unbounded, src, ip);
            && !e.Malformed?
            && (e.Final? ==> pos + e.len == n)
            && (e.Copy? ==>
                  && 1 <= e.offset <= pos + e.len
                  && pos + e.len + MFLIMIT <= n
                  && pos + e.len + e.matchLen + LASTLITERALS <= n
                  && e.next + 1 + LASTLITERALS <= |src|
                  && Conforms(src, e.next, pos + e.len + e.matchLen, n))
  {
    var e := ReadElement(Unbounded, src, ip);
    if e.Copy? {
      ConformsRoom(src, e.next, pos + e.len + e.matchLen, n);
    }
  }

  /** A conforming block decodes, to exactly `n` bytes. */
  lemma {:induction false} ConformsDecodes(src: seq<byte>, ip: nat, out: seq<byte>, n: nat)
    requires ip <= |src|
    requires Conforms(src, ip, |out|, n)
    ensures var r := Decode(Unbounded, src, ip, out); r.Some? && |r.value| == n
    decreases |src| - ip
  {
    hide ReadElement;
    hide CopyMatch;
    match ReadElement(Unbounded, src, ip)
    case Final(lit, len) =>
    case Copy(lit, len, offset, matchLen, next) =>
      ConformsDecodes(src, next, CopyMatch(out + src[lit..lit + len], offset, matchLen), n);
  }

  /** Decoding only ever adds to the output. */
  lemma {:induction false} DecodeGrows(w: Width, src: seq<byte>, ip: nat, out: seq<byte>)
    requires ip <= |src|
    ensures var r := Decode(w, src, ip, out); r.Some? ==> |out| <= |r.value|
    decreases |src| - ip
  {
    hide CopyMatch;
    var e := ReadElement(w, src, ip);
    if e.Copy? && e.offset <= |out| + e.len {
      DecodeGrows(w, src, e.next, CopyMatch(out + src[e.lit..e.lit + e.len], e.offset, e.matchLen));
    }
  }

  // ----- Lengths beyond 32 bits -------------------------------------------------------------

  predicate NarrowLength(src: seq<byte>, ip: nat, nibble: nat)
    requires ip <= |src|
  {
    nibble == NIBBLE_MAX && ReadExtension(src, ip).Some? ==> ReadExtension(src, ip).value.0 < U32_RANGE
  }

  /** The length fields of the element at `ip` are below 2^32. */
  predicate NarrowElement(src: seq<byte>, ip: nat)
    requires ip <= |src|
  {
    ip < |src| ==>
      && NarrowLength(src, ip + 1, src[ip] / 16)
      && var e := ReadElement(Bits32, src, ip);
      (e.Copy? ==> NarrowLength(src, e.lit + e.len + 2, src[ip] % 16))
  }

  /** Every length field met from `ip` on is below 2^32. */
  ghost predicate Narrow(src: seq<byte>, ip: nat)
    requires ip <= |src|
    decreases |src| - ip
  {
    && NarrowElement(src, ip)
    && var e := ReadElement(Bits32, src, ip);
    (e.Copy? ==> Narrow(src, e.next))
  }

  lemma NarrowReads(src: seq<byte>, ip: nat, nibble: nat)
    requires ip <= |src| && nibble <= NIBBLE_MAX && NarrowLength(src, ip, nibble)
    ensures ReadLength(Bits32, src, ip, nibble) == ReadLength(Unbounded, src, ip, nibble)
  {
    hide ReadExtension;
  }

  lemma NarrowSame(src: seq<byte>, ip: nat)
    requires ip <= |src| && NarrowElement(src, ip)
    ensures ReadElement(Bits32, src, ip) == ReadElement(Unbounded, src, ip)
  {
    if ip < |src| {
      NarrowReads(src, ip + 1, src[ip] / 16);
      var e := ReadElement(Bits32, src, ip);
      if e.Copy? {
        NarrowReads(src, e.lit + e.len + 2, src[ip] % 16);
      } else {
        SameEnding(src);
      }
    }
  }

  /** Whether a length field ends at all does not depend on how it is added up. */
  lemma SameEnding(src: seq<byte>)
    ensures forall i: nat, nibble: nat :: i <= |src| ==>
      (ReadLength(Bits32, src, i, nibble).None? <==> ReadLength(Unbounded, src, i, nibble).None?)
  {
  }

  /** A wide literal length leaves no block; a wide match length leaves only a huge expansion. */
  lemma WideElement(src: seq<byte>, ip: nat)
    requires ip <= |src| < U32_RANGE && !NarrowElement(src, ip)
    ensures var e := ReadElement(Unbounded, src, ip); e.Malformed? || (e.Copy? && e.matchLen >= U32_RANGE)
  {
    hide ReadExtension;
  }

  /**
   A block that the 32-bit reading expands to fewer than 2^32 bytes is expanded correctly exactly
   when every length field is below 2^32.
   */
  lemma {:induction false} DecodeExactIff(src: seq<byte>, ip: nat, out: seq<byte>)
    requires ip <= |src| < U32_RANGE
    requires var r := Decode(Bits32, src, ip, out); r.Some? && |r.value| < U32_RANGE
    ensures Decode(Unbounded, src, ip, out) == Decode(Bits32, src, ip, out) <==> Narrow(src, ip)
    decreases |src| - ip
  {
    hide CopyMatch;
    hide ReadElement;
    if NarrowElement(src, ip) {
      NarrowSame(src, ip);
      var e := ReadElement(Bits32, src, ip);
      if e.Copy? {
        DecodeExactIff(src, e.next, CopyMatch(out + src[e.lit..e.lit + e.len], e.offset, e.matchLen));
      }
    } else {
      WideElement(src, ip);
      var e := ReadElement(Unbounded, src, ip);
      if e.Copy? && e.offset <= |out| + e.len {
        DecodeGrows(Unbounded, src, e.next, CopyMatch(out + src[e.lit..e.lit + e.len], e.offset, e.matchLen));
      }
    }
  }

  /** A run of length bytes is worth at most 255 each, and less than that because the last one is smaller. */
  lemma {:induction false} ExtensionBounded(src: seq<byte>, ip: nat)
    requires ip <= |src|
    ensures var r := ReadExtension(src, ip); r.Some? ==> r.value.0 < 255 * (r.value.1 - ip)
    decreases |src| - ip
  {
    if ip < |src| && src[ip] == 255 {
      ExtensionBounded(src, ip + 1);
    }
  }

  /** Blocks up to 16 MiB have no length field beyond 32 bits. */
  lemma {:induction false} NarrowBelow16MiB(src: seq<byte>, ip: nat)
    requires ip <= |src| <= 16843010
    ensures Narrow(src, ip)
    decreases |src| - ip
  {
    if ip < |src| {
      ExtensionBounded(src, ip + 1);
      var e := ReadElement(Bits32, src, ip);
      if e.Copy? {
        ExtensionBounded(src, e.lit + e.len + 2);
        NarrowBelow16MiB(src, e.next);
      }
    }
  }

  /** Neither has any block that conforms and expands to less than 2^32 bytes. */
  lemma {:induction false} ConformsNarrow(src: seq<byte>, ip: nat, pos: nat, n: nat)
    requires ip <= |src| < U32_RANGE && Conforms(src, ip, pos, n) && n < U32_RANGE
    ensures Narrow(src, ip)
    decreases |src| - ip
  {
    hide ReadElement;
    if !NarrowElement(src, ip) {
      WideElement(src, ip);
    } else {
      NarrowSame(src, ip);
      var e := ReadElement(Bits32, src, ip);
      if e.Copy? {
        ConformsNarrow(src, e.next, pos + e.len + e.matchLen, n);
      }
    }
  }

  // ----- Matches as periodic patterns -------------------------------------------------------

  /** Byte `i` of a match against `out`. */
  function MatchByte(out: seq<byte>, offset: nat, i: nat): byte
    requires offset <= |out|
  {
    if offset == 0 then 0 else out[|out| - offset + i % offset]
  }

  /** `a` is `out` followed by bytes of the match. */
  ghost predicate Follows(out: seq<byte>, offset: nat, a: seq<byte>)
    requires offset <= |out|
  {
    && |out| <= |a|
    && a[..|out|] == out
    && forall j :: |out| <= j < |a| ==> a[j] == MatchByte(out, offset, j - |out|)
  }

  lemma ModShift(x: int, d: int, m: int)
    requires 0 < m
    requires d % m == 0
    ensures (x - d) % m == x % m
  {
    var q := d / m;
    assert d == q * m;
    var k := x / m;
    assert x == k * m + x % m;
    assert x - d == (k - q) * m + x % m;
    ModUnique(x - d, k - q, x % m, m);
  }

  /** The byte-at-a-time copy is the periodic pattern. */
  lemma {:induction false} CopyMatchFollows(out: seq<byte>, offset: nat, len: nat)
    requires offset <= |out|
    ensures Follows(out, offset, CopyMatch(out, offset, len))
    decreases len
  {
    if len > 0 {
      var b: byte := if offset == 0 then 0 else out[|out| - offset];
      var out' := out + [b];
      CopyMatchFollows(out', offset, len - 1);
      FollowsStep(out, b, offset, CopyMatch(out', offset, len - 1));
    }
  }

  lemma FollowsStep(out: seq<byte>, b: byte, offset: nat, a: seq<byte>)
    requires offset <= |out|
    requires b == MatchByte(out, offset, 0)
    requires Follows(out + [b], offset, a)
    ensures Follows(out, offset, a)
  {
    assert a[..|out|] == a[..|out| + 1][..|out|] == out;
    forall j | |out| <= j < |a|
      ensures a[j] == MatchByte(out, offset, j - |out|)
    {
      if j == |out| {
        assert a[j] == a[..|out| + 1][j];
      } else if offset > 0 {
        MatchByteShift(out, b, offset, j - |out| - 1);
      }
    }
  }

  /** Extending the history by the first match byte only rotates the pattern. */
  lemma MatchByteShift(out: seq<byte>, b: byte, offset: nat, i: nat)
    requires 0 < offset <= |out|
    requires b == out[|out| - offset]
    ensures MatchByte(out + [b], offset, i) == MatchByte(out, offset, i + 1)
  {
    var r := i % offset;
    var q := i / offset;
    assert i == q * offset + r;
    if r + 1 < offset {
      ModUnique(i + 1, q, r + 1, offset);
    } else {
      assert i + 1 == (q + 1) * offset;
      ModUnique(i + 1, q + 1, 0, offset);
    }
  }

  lemma FollowsIsCopyMatch(out: seq<byte>, offset: nat, a: seq<byte>)
    requires offset <= |out|
    requires Follows(out, offset, a)
    ensures a == CopyMatch(out, offset, |a| - |out|)
  {
    CopyMatchFollows(out, offset, |a| - |out|);
    var c := CopyMatch(out, offset, |a| - |out|);
    forall j | 0 <= j < |a|
      ensures a[j] == c[j]
    {
      if j < |out| {
        assert a[j] == a[..|out|][j] == c[..|out|][j] == c[j];
      }
    }
  }

  /**
   The law every overlapping copy rests on: if `a` follows the match up to `d`, and each later byte
   repeats the one `dist` back, where `dist` is a multiple of the offset and the source never starts
   before the match, then all of `a` follows the match.
   */
  lemma {:induction false} ExtendPeriodic(out: seq<byte>, offset: nat, a: seq<byte>, d: nat, dist: nat)
    requires offset <= |out|
    requires |out| <= d <= |a|
    requires Follows(out, offset, a[..d])
    requires 0 < dist <= d
    requires if offset == 0 then |out| + dist <= d else dist % offset == 0 && |out| + dist <= d + offset
    requires forall j :: d <= j < |a| ==> a[j] == a[j - dist]
    ensures Follows(out, offset, a)
    decreases |a| - d
  {
    if d == |a| {
      assert a[..d] == a;
    } else {
      var i := d - |out|;
      var s := d - dist;
      assert a[d] == a[s] == a[..d][s];
      if offset > 0 {
        ModShift(i, dist, offset);
        if s < |out| {
          assert a[..d][s] == a[..d][..|out|][s] == out[s];
          assert i - dist == -1 * offset + (i - dist + offset);
          ModUnique(i - dist, -1, i - dist + offset, offset);
        }
      }
      var next := a[..d + 1];
      assert next[..|out|] == a[..d][..|out|];
      forall j | |out| <= j < d + 1
        ensures next[j] == MatchByte(out, offset, j - |out|)
      {
        if j < d {
          assert next[j] == a[..d][j];
        }
      }
      ExtendPeriodic(out, offset, a, d + 1, dist);
    }
  }

  lemma FollowsPrefix(out: seq<byte>, offset: nat, a: seq<byte>, k: nat)
    requires offset <= |out| <= k <= |a|
    requires Follows(out, offset, a)
    ensures Follows(out, offset, a[..k])
  {
    assert a[..k][..|out|] == a[..|out|];
  }

  /** Offset 0, which the format forbids, stands for zero bytes here: that is what the copy routines store. */
  lemma ZeroOffset(out: seq<byte>, len: nat)
    ensures CopyMatch(out, 0, len) == out + seq(len, _ => 0)
  {
    CopyMatchFollows(out, 0, len);
    var a := CopyMatch(out, 0, len);
    assert a == a[..|out|] + a[|out|..];
  }

  // ----- The format in plain bytes ----------------------------------------------------------

  lemma {:induction false} CopyMatchLooksBack(out: seq<byte>, offset: nat, len: nat)
    requires 0 < offset <= |out|
    ensures var r := CopyMatch(out, offset, len);
            r[..|out|] == out && forall j :: |out| <= j < |r| ==> r[j] == r[j - offset]
    decreases len
  {
    if len > 0 {
      var more := out + [out[|out| - offset]];
      CopyMatchLooksBack(more, offset, len - 1);
      var r := CopyMatch(out, offset, len);
      assert r[..|out|] == r[..|more|][..|out|];
      assert r[|out|] == r[..|more|][|out|] && r[|out| - offset] == r[..|more|][|out| - offset];
    }
  }

  /**
   A sequence of fewer than 15 literals and a match of 4 to 18: both lengths in the token, the offset
   with its low-order byte first, and every byte of the match equal to the one `offset` before it.
   */
  lemma PlainSequence(w: Width, src: seq<byte>, out: seq<byte>, literals: seq<byte>, offset: nat, matchLen: nat, rest: seq<byte>)
    returns (out': seq<byte>)
    requires |literals| < 15 && 4 <= matchLen <= 18 && 1 <= offset <= |out| + |literals| && offset < 65536
    requires src == [16 * |literals| + (matchLen - 4)] + literals + [offset % 256, offset / 256] + rest
    ensures Decode(w, src, 0, out) == Decode(w, src, |literals| + 3, out')
    ensures |out'| == |out| + |literals| + matchLen && out + literals <= out'
    ensures forall j :: |out| + |literals| <= j < |out'| ==> out'[j] == out'[j - offset]
  {
    hide CopyMatch, ReadElement;
    PlainElement(w, src, literals, offset, matchLen, rest);
    out' := CopyMatch(out + literals, offset, matchLen);
    CopyMatchLooksBack(out + literals, offset, matchLen);
    assert out' == out'[..|out + literals|] + out'[|out + literals|..];
  }

  lemma PlainElement(w: Width, src: seq<byte>, literals: seq<byte>, offset: nat, matchLen: nat, rest: seq<byte>)
    requires |literals| < 15 && 4 <= matchLen <= 18 && offset < 65536
    requires src == [16 * |literals| + (matchLen - 4)] + literals + [offset % 256, offset / 256] + rest
    ensures ReadElement(w, src, 0) == Copy(1, |literals|, offset, matchLen, |literals| + 3)
    ensures src[1..1 + |literals|] == literals
  {
    hide ReadExtension;
    var n := |literals|;
    TokenHalves(n, matchLen - 4);
    assert src[1 + n] == offset % 256 && src[2 + n] == offset / 256;
  }

  lemma TokenHalves(hi: nat, lo: nat)
    requires lo < 16
    ensures (16 * hi + lo) / 16 == hi && (16 * hi + lo) % 16 == lo
  {
  }

  /** Fewer than 15 last literals: their number in the high half of the token. */
  lemma PlainLast(w: Width, out: seq<byte>, literals: seq<byte>)
    requires |literals| < 15
    ensures Decode(w, [16 * |literals|] + literals, 0, out) == Some(out + literals)
  {
    var src: seq<byte> := [16 * |literals|] + literals;
    assert src[0] / 16 == |literals| && src[1..] == literals;
    assert ReadElement(w, src, 0) == Final(1, |literals|);
  }

  /** Longer lengths: 15 in the token, then the rest in full bytes and one that is not full. */
  lemma {:induction false} PlainExtension(src: seq<byte>, ip: nat, full: nat)
    requires ip + full < |src| && src[ip + full] < 255 && forall i :: ip <= i < ip + full ==> src[i] == 255
    ensures ReadLength(Unbounded, src, ip, 15) == Some((15 + 255 * full + src[ip + full], ip + full + 1))
    decreases full
  {
    if full > 0 {
      PlainExtension(src, ip + 1, full - 1);
    }
  }
}
