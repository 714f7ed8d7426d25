/**
 The copy routines of src/lz4/lz4_all.c over one output buffer. Pointers are indices. `memcpy` is a
 copy between ranges that must not overlap, so each call site below is also a proof that the C code
 never hands overlapping ranges to `memcpy`. The routines may write past the end they are given
 ("wild" copies); array bounds are what keeps those writes inside the buffer.
 */
module Lz4Copy {
  import opened Common
  import opened Lz4Format

  const WILDCOPYLENGTH := 8
  const MATCH_SAFEGUARD_DISTANCE := 2 * WILDCOPYLENGTH - MINMATCH

  // ----- Copies from the input block ----------------------------------------------------------

  /** `after` is `before` with `bytes` stored at `d`, and nothing else changed. */
  ghost predicate Wrote(before: seq<byte>, after: seq<byte>, d: nat, bytes: seq<byte>) {
    d + |bytes| <= |before| && after == before[..d] + bytes + before[d + |bytes|..]
  }

  lemma WroteByIndex(before: seq<byte>, after: seq<byte>, d: nat, bytes: seq<byte>)
    requires |after| == |before| && d + |bytes| <= |before|
    requires forall i :: 0 <= i < |before| && !(d <= i < d + |bytes|) ==> after[i] == before[i]
    requires forall i :: d <= i < d + |bytes| ==> after[i] == bytes[i - d]
    ensures Wrote(before, after, d, bytes)
  {
  }

  lemma WroteThen(orig: seq<byte>, before: seq<byte>, after: seq<byte>, d: nat, x: seq<byte>, y: seq<byte>)
    requires Wrote(orig, before, d, x) && Wrote(before, after, d + |x|, y)
    ensures Wrote(orig, after, d, x + y)
  {
    assert before[..d + |x|] == orig[..d] + x;
    assert before[d + |x| + |y|..] == orig[d + |x| + |y|..];
  }

  lemma WroteParts(before: seq<byte>, after: seq<byte>, d: nat, bytes: seq<byte>, k: nat)
    requires Wrote(before, after, d, bytes) && k <= |bytes|
    ensures |after| == |before| && d + |bytes| <= |after|
    ensures after[..d + k] == before[..d] + bytes[..k] && after[d + k..d + |bytes|] == bytes[k..]
    ensures after[d + |bytes|..] == before[d + |bytes|..]
  {
  }

  /** memcpy from the input block. */
  method CopyInput(dst: array<byte>, d: nat, src: seq<byte>, s: nat, n: nat)
    requires d + n <= dst.Length && s + n <= |src|
    modifies dst
    ensures Wrote(old(dst[..]), dst[..], d, src[s..s + n])
  {
    forall i | 0 <= i < n { dst[d + i] := src[s + i]; }
    assert dst[d + n..] == old(dst[..])[d + n..];
    assert dst[..] == dst[..d] + dst[d..d + n] + dst[d + n..];
  }

  /** How many bytes a wild copy of `n` bytes moves: whole strides, and always at least one. */
  function WildLength(n: nat, stride: nat): (r: nat)
    requires stride > 0
    ensures n <= r && stride <= r && (r == stride || r < n + stride)
  {
    if n <= stride then stride else stride + WildLength(n - stride, stride)
  }

  /** LZ4_wildCopy8 and LZ4_wildCopy32 from the input block: whole strides until `e` is reached. */
  method WildCopyInput(dst: array<byte>, d0: nat, src: seq<byte>, s0: nat, e: nat, stride: nat)
    requires stride == 8 || stride == 32
    requires d0 <= e
    requires d0 + WildLength(e - d0, stride) <= dst.Length
    requires s0 + WildLength(e - d0, stride) <= |src|
    modifies dst
    ensures Wrote(old(dst[..]), dst[..], d0, src[s0..s0 + WildLength(e - d0, stride)])
  {
    hide Wrote;
    hide WildLength;
    var d, s := d0, s0;
    ghost var orig, w := dst[..], WildLength(e - d0, stride);
    WildUnfold(e - d0, stride);
    CopyInput(dst, d, src, s, stride);
    d, s := d + stride, s + stride;
    while d < e
      invariant d0 + stride <= d <= d0 + w && s - s0 == d - d0
      invariant if d < e then d + WildLength(e - d, stride) == d0 + w else d == d0 + w
      invariant Wrote(orig, dst[..], d0, src[s0..s])
      decreases e - d
    {
      WildUnfold(e - d, stride);
      NextStride(dst, orig, d0, d, src, s0, s, stride);
      d, s := d + stride, s + stride;
    }
  }

  method NextStride(dst: array<byte>, ghost orig: seq<byte>, ghost d0: nat, d: nat, src: seq<byte>, ghost s0: nat, s: nat, stride: nat)
    requires s0 <= s && s + stride <= |src| && d == d0 + (s - s0) && d + stride <= dst.Length
    requires Wrote(orig, dst[..], d0, src[s0..s])
    modifies dst
    ensures Wrote(orig, dst[..], d0, src[s0..s + stride])
  {
    hide Wrote;
    ghost var before := dst[..];
    CopyInput(dst, d, src, s, stride);
    WroteMore(orig, before, dst[..], d0, src, s0, s, stride);
  }

  lemma WildUnfold(n: nat, stride: nat)
    requires stride > 0
    ensures WildLength(n, stride) == if n <= stride then stride else stride + WildLength(n - stride, stride)
  {
  }

  lemma WroteMore(orig: seq<byte>, before: seq<byte>, after: seq<byte>, d: nat, src: seq<byte>, s0: nat, s: nat, n: nat)
    requires s0 <= s && s + n <= |src|
    requires Wrote(orig, before, d, src[s0..s]) && Wrote(before, after, d + (s - s0), src[s..s + n])
    ensures Wrote(orig, after, d, src[s0..s + n])
  {
    WroteThen(orig, before, after, d, src[s0..s], src[s..s + n]);
    assert src[s0..s + n] == src[s0..s] + src[s..s + n];
  }

  /** The first `n` bytes of what was copied. */
  lemma InputKept(orig: seq<byte>, after: seq<byte>, d: nat, src: seq<byte>, s: nat, w: nat, n: nat)
    requires n <= w && s + w <= |src| && Wrote(orig, after, d, src[s..s + w])
    ensures d + n <= |after| == |orig| && after[..d + n] == orig[..d] + src[s..s + n]
  {
    WroteParts(orig, after, d, src[s..s + w], n);
    assert src[s..s + w][..n] == src[s..s + n];
  }

  // ----- Copies inside the output -------------------------------------------------------------

  /** memcpy inside the output buffer, from an earlier range. */
  method CopyBack(dst: array<byte>, d: nat, s: nat, n: nat)
    requires s + n <= d && d + n <= dst.Length
    modifies dst
    ensures forall j :: 0 <= j < dst.Length && !(d <= j < d + n) ==> dst[j] == old(dst[j])
    ensures forall j :: d <= j < d + n ==> dst[j] == dst[j - (d - s)]
  {
    forall i | 0 <= i < n { dst[d + i] := dst[s + i]; }
  }

  /** LZ4_wildCopy8 (stride 8) and LZ4_wildCopy32 (two 16-byte halves) inside the output buffer. */
  method WildCopyBack(dst: array<byte>, d0: nat, s0: nat, e: nat, stride: nat)
    requires (stride == 8 && s0 + 8 <= d0) || (stride == 32 && s0 + 16 <= d0)
    requires d0 + stride <= dst.Length && e + stride - 1 <= dst.Length
    modifies dst
    ensures forall j :: 0 <= j < d0 ==> dst[j] == old(dst[j])
    ensures forall j :: d0 <= j < e ==> dst[j] == dst[j - (d0 - s0)]
  {
    var d, s := d0, s0;
    var first := true;
    while first || d < e
      invariant d0 <= d && s == s0 + (d - d0)
      invariant first ==> d == d0
      invariant !first ==> d < e + stride || d == d0 + stride
      invariant forall j :: 0 <= j < d0 ==> dst[j] == old(dst[j])
      invariant d <= dst.Length
      invariant forall j :: d0 <= j < d ==> dst[j] == dst[j - (d0 - s0)]
      decreases first, e - d
    {
      if stride == 8 {
        CopyBack(dst, d, s, 8);
      } else {
        CopyBack(dst, d, s, 16);
        CopyBack(dst, d + 16, s + 16, 16);
      }
      d, s := d + stride, s + stride;
      first := false;
    }
  }

  // ----- Match copies ---------------------------------------------------------------------------

  const INC32TABLE: seq<int> := [0, 1, 2, 1, 0, 4, 4, 4]
  const DEC64TABLE: seq<int> := [0, 0, 0, -1, -4, 1, 2, 3]

  /**
   The distance between destination and source after the first eight bytes: a multiple of the offset
   that is at least eight, so that the rest can be copied in non-overlapping words.
   */
  function WideDistance(offset: nat): (dist: nat)
    ensures dist >= 8
    ensures offset > 0 ==> dist % offset == 0
    ensures offset == 0 ==> dist == 8
    ensures dist <= 8 + offset
  {
    if offset >= 8 then assert offset % offset == 0 by { ModUnique(offset, 1, 0, offset); } offset
    else offset + 8 - INC32TABLE[offset] + DEC64TABLE[offset]
  }

  /** First eight bytes of a match, returning the source of the remaining bytes. */
  method CopyFirst8(dst: array<byte>, op: nat, match0: nat, offset: nat) returns (from: nat)
    requires match0 + offset == op && op + 8 <= dst.Length
    modifies dst
    ensures Follows(old(dst[..op]), offset, dst[..op + 8])
    ensures from == op + 8 - WideDistance(offset)
  {
    ghost var out := dst[..op];
    if offset < 8 {
      CopyFirst4(dst, op, match0, offset);
      var from4 := match0 + INC32TABLE[offset];
      label Four:
      assert dst[..op + 4] == dst[..][..op + 4];
      CopyBack(dst, op + 4, from4, 4);
      assert dst[..op + 4] == old@Four(dst[..op + 4]);
      assert dst[..op + 8][..op + 4] == dst[..op + 4];
      ExtendPeriodic(out, offset, dst[..op + 8], op + 4, op + 4 - from4);
      from := from4 - DEC64TABLE[offset];
    } else {
      CopyBack(dst, op, match0, 8);
      assert dst[..op] == out;
      assert dst[..op + 8][..op] == out;
      assert offset % offset == 0 by { ModUnique(offset, 1, 0, offset); }
      ExtendPeriodic(out, offset, dst[..op + 8], op, offset);
      from := match0 + 8;
    }
  }

  /** Four zero bytes, then four single-byte copies: correct for any overlap, and zeros for offset 0. */
  method CopyFirst4(dst: array<byte>, op: nat, match0: nat, offset: nat)
    requires match0 + offset == op && op + 8 <= dst.Length && offset < 8
    modifies dst
    ensures dst[..op] == old(dst[..op])
    ensures Follows(old(dst[..op]), offset, dst[..op + 4])
  {
    ghost var out := dst[..op];
    dst[op], dst[op + 1], dst[op + 2], dst[op + 3] := 0, 0, 0, 0;
    dst[op] := dst[match0];
    dst[op + 1] := dst[match0 + 1];
    dst[op + 2] := dst[match0 + 2];
    dst[op + 3] := dst[match0 + 3];
    assert dst[..op] == out;
    var a := dst[..op + 4];
    assert a[..op] == out;
    if offset > 0 {
      assert offset % offset == 0 by { ModUnique(offset, 1, 0, offset); }
      ExtendPeriodic(out, offset, a, op, offset);
    }
  }

  /** Continue a match word by word from distance `WideDistance`, then cut at `cpy`. */
  method CopyRest(dst: array<byte>, ghost out: seq<byte>, offset: nat, op: nat, from: nat, cpy: nat)
    requires offset <= |out| && |out| + 8 == op && cpy >= |out|
    requires from == op - WideDistance(offset)
    requires op + 8 <= dst.Length && cpy + 7 <= dst.Length
    requires Follows(out, offset, dst[..op])
    modifies dst
    ensures dst[..cpy] == CopyMatch(out, offset, cpy - |out|)
  {
    WildCopyBack(dst, op, from, cpy, 8);
    assert dst[..op] == old(dst[..op]);
    FinishMatch(out, offset, dst[..], op, cpy, op - from);
  }

  /** A buffer that follows the match to `d` and repeats with period `dist` to `cpy` holds the match. */
  lemma FinishMatch(out: seq<byte>, offset: nat, a: seq<byte>, d: nat, cpy: nat, dist: nat)
    requires offset <= |out| <= d <= |a| && |out| <= cpy <= |a|
    requires Follows(out, offset, a[..d])
    requires 0 < dist <= d
    requires if offset == 0 then |out| + dist <= d else dist % offset == 0 && |out| + dist <= d + offset
    requires forall j :: d <= j < cpy ==> a[j] == a[j - dist]
    ensures a[..cpy] == CopyMatch(out, offset, cpy - |out|)
  {
    if d <= cpy {
      assert a[..cpy][..d] == a[..d];
      ExtendPeriodic(out, offset, a[..cpy], d, dist);
    } else {
      assert a[..d][..cpy] == a[..cpy];
      FollowsPrefix(out, offset, a[..d], cpy);
    }
    FollowsIsCopyMatch(out, offset, a[..cpy]);
  }

  /** The 18-byte copy of the shortcuts: offsets of at least eight, no loop. */
  method CopyMatch18(dst: array<byte>, op: nat, match0: nat, offset: nat, length: nat)
    requires match0 + offset == op && offset >= 8
    requires length <= 18 && op + 18 <= dst.Length
    modifies dst
    ensures dst[..op + length] == CopyMatch(old(dst[..op]), offset, length)
  {
    ghost var out := dst[..op];
    CopyBack(dst, op, match0, 8);
    CopyBack(dst, op + 8, match0 + 8, 8);
    CopyBack(dst, op + 16, match0 + 16, 2);
    assert dst[..][..op] == out;
    FollowsStart(out, offset);
    assert offset % offset == 0 by { ModUnique(offset, 1, 0, offset); }
    FinishMatch(out, offset, dst[..], op, op + length, offset);
    assert dst[..][..op + length] == dst[..op + length];
  }

  /** LZ4_wildCopy32 on a match whose offset is at least sixteen. */
  method CopyMatch32(dst: array<byte>, op: nat, match0: nat, cpy: nat, offset: nat)
    requires match0 + offset == op <= cpy && offset >= 16
    requires op + 32 <= dst.Length && cpy + 31 <= dst.Length
    modifies dst
    ensures dst[..cpy] == CopyMatch(old(dst[..op]), offset, cpy - op)
  {
    ghost var out := dst[..op];
    WildCopyBack(dst, op, match0, cpy, 32);
    assert dst[..][..op] == out;
    FollowsStart(out, offset);
    assert offset % offset == 0 by { ModUnique(offset, 1, 0, offset); }
    FinishMatch(out, offset, dst[..], op, cpy, offset);
    assert dst[..][..cpy] == dst[..cpy];
  }

  /** Near the end of the buffer: words while they fit, then single bytes. */
  method CopyNearEnd(dst: array<byte>, op0: nat, from0: nat, cpy: nat)
    requires from0 + 8 <= op0 && op0 <= dst.Length && cpy + LASTLITERALS <= dst.Length
    requires dst.Length >= 7
    modifies dst
    ensures forall j :: 0 <= j < op0 ==> dst[j] == old(dst[j])
    ensures forall j :: op0 <= j < cpy ==> dst[j] == dst[j - (op0 - from0)]
  {
    var op, from := op0, from0;
    var copyLimit := dst.Length - (WILDCOPYLENGTH - 1);
    if op < copyLimit {
      WildCopyBack(dst, op, from, copyLimit, 8);
      from := from + (copyLimit - op);
      op := copyLimit;
    }
    while op < cpy
      invariant op0 <= op <= dst.Length && from - from0 == op - op0
      invariant forall j :: 0 <= j < op0 ==> dst[j] == old(dst[j])
      invariant forall j :: op0 <= j < op ==> dst[j] == dst[j - (op0 - from0)]
      decreases cpy - op
    {
      dst[op] := dst[from];
      op, from := op + 1, from + 1;
    }
  }

  /**
   The match copy of the safe loop. The first eight bytes are written before the end-of-block test;
   `ok` is false when fewer than LASTLITERALS bytes would remain.
   */
  method CopyMatchSafe(dst: array<byte>, op0: nat, match0: nat, offset: nat, length: nat) returns (ok: bool)
    requires match0 + offset == op0 && MINMATCH <= length
    requires op0 + MFLIMIT <= dst.Length
    modifies dst
    ensures ok <==> op0 + length + LASTLITERALS <= dst.Length
    ensures ok ==> dst[..op0 + length] == CopyMatch(old(dst[..op0]), offset, length)
  {
    hide CopyMatch;
    hide Follows;
    ghost var out := dst[..op0];
    var cpy := op0 + length;
    var from := CopyFirst8(dst, op0, match0, offset);
    var op := op0 + 8;
    ghost var first := dst[..op];
    if cpy > dst.Length - MATCH_SAFEGUARD_DISTANCE {
      if cpy > dst.Length - LASTLITERALS {
        return false;
      }
      CopyNearEnd(dst, op, from, cpy);
    } else {
      CopyBack(dst, op, from, 8);
      if length > 16 {
        WildCopyBack(dst, op + 8, from + 8, cpy, 8);
      }
    }
    ok := true;
    assert dst[..][..op] == first;
    FinishMatch(out, offset, dst[..], op, cpy, op - from);
    assert dst[..][..cpy] == dst[..cpy];
  }

  /** LZ4_memcpy_using_offset_base. */
  method CopyMatchBase(dst: array<byte>, op: nat, match0: nat, cpy: nat, offset: nat)
    requires match0 + offset == op && op <= cpy
    requires op + 16 <= dst.Length && cpy + 7 <= dst.Length
    modifies dst
    ensures dst[..cpy] == CopyMatch(old(dst[..op]), offset, cpy - op)
  {
    ghost var out := dst[..op];
    var from := CopyFirst8(dst, op, match0, offset);
    CopyRest(dst, out, offset, op + 8, from, cpy);
  }

  /**
   LZ4_memcpy_using_offset: for offsets 1, 2 and 4 an eight-byte pattern is stored repeatedly;
   any other offset goes through the base routine.
   */
  method CopyMatchUsingOffset(dst: array<byte>, op: nat, match0: nat, cpy: nat, offset: nat)
    requires match0 + offset == op && op + MINMATCH <= cpy
    requires op + 16 <= dst.Length && cpy + 8 <= dst.Length
    modifies dst
    ensures dst[..cpy] == CopyMatch(old(dst[..op]), offset, cpy - op)
  {
    if offset != 1 && offset != 2 && offset != 4 {
      CopyMatchBase(dst, op, match0, cpy, offset);
      return;
    }
    var v := PatternWord(dst, match0, offset);
    StorePattern(dst, op, offset, v, cpy);
  }

  /** The eight-byte pattern of a match with offset 1, 2 or 4. */
  method PatternWord(dst: array<byte>, match0: nat, offset: nat) returns (v: seq<byte>)
    requires offset == 1 || offset == 2 || offset == 4
    requires match0 + offset <= dst.Length
    ensures |v| == 8
    ensures forall i :: 0 <= i < 8 ==> v[i] == MatchByte(dst[..match0 + offset], offset, i)
  {
    if offset == 1 {
      var b := dst[match0];
      v := [b, b, b, b, b, b, b, b];
    } else if offset == 2 {
      v := dst[match0..match0 + 2] + dst[match0..match0 + 2];
      v := v + v[..4];
    } else {
      v := dst[match0..match0 + 4] + dst[match0..match0 + 4];
    }
  }

  method StorePattern(dst: array<byte>, op: nat, offset: nat, v: seq<byte>, cpy: nat)
    requires offset == 1 || offset == 2 || offset == 4
    requires offset <= op <= cpy
    requires op + 8 <= dst.Length && cpy + 8 <= dst.Length
    requires |v| == 8
    requires forall i :: 0 <= i < 8 ==> v[i] == MatchByte(dst[..op], offset, i)
    modifies dst
    ensures dst[..cpy] == CopyMatch(old(dst[..op]), offset, cpy - op)
  {
    hide MatchByte;
    hide Follows;
    hide CopyMatch;
    ghost var out := dst[..op];
    CopyInput(dst, op, v, 0, 8);
    var d := op + 8;
    assert dst[..d] == out + v;
    FollowsStart(out, offset);
    PatternStep(out, offset, v, out, 0);
    ghost var k := 1;
    while d < cpy
      invariant op + 8 <= d == op + 8 * k <= dst.Length
      invariant Follows(out, offset, dst[..d])
      decreases cpy - d
    {
      ghost var before := dst[..d];
      CopyInput(dst, d, v, 0, 8);
      assert dst[..d + 8] == before + v;
      PatternStep(out, offset, v, before, k);
      d, k := d + 8, k + 1;
    }
    assert dst[..d][..cpy] == dst[..cpy];
    FollowsPrefix(out, offset, dst[..d], cpy);
    FollowsIsCopyMatch(out, offset, dst[..cpy]);
  }

  lemma FollowsStart(out: seq<byte>, offset: nat)
    requires offset <= |out|
    ensures Follows(out, offset, out)
  {
  }

  /** One more eight-byte word continues a match whose offset divides eight. */
  lemma PatternStep(out: seq<byte>, offset: nat, v: seq<byte>, a: seq<byte>, k: nat)
    requires offset == 1 || offset == 2 || offset == 4
    requires offset <= |out| && |a| == |out| + 8 * k
    requires |v| == 8 && forall i :: 0 <= i < 8 ==> v[i] == MatchByte(out, offset, i)
    requires Follows(out, offset, a)
    ensures Follows(out, offset, a + v)
  {
    hide MatchByte;
    assert (a + v)[..|out|] == a[..|out|];
    forall j | |a| <= j < |a + v|
      ensures (a + v)[j] == MatchByte(out, offset, j - |out|)
    {
      MatchByteRepeats(out, offset, j - |a|, k);
    }
  }

  lemma MatchByteRepeats(out: seq<byte>, offset: nat, i: nat, k: nat)
    requires offset == 1 || offset == 2 || offset == 4
    requires offset <= |out|
    ensures MatchByte(out, offset, i + 8 * k) == MatchByte(out, offset, i)
  {
    ModUnique(8 * k, 8 / offset * k, 0, offset);
    ModShift(i + 8 * k, 8 * k, offset);
  }
}
