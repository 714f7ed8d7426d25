/**
 LZ4_decompress_generic as LZ4_decompress_safe instantiates it (endOnInputSize, decode_full_block,
 noDict), with its fast loop, the 16/18-byte shortcut and all match-copy strategies. The C labels
 that its gotos jump to are the constructors of `Label`; `At` says what holds at each of them.
 `dst` is exactly the caller's buffer, so every array access proved in bounds here is a memory
 access of the C code proved in bounds, including the deliberate over-writes.
 */
module Lz4Decoder {
  import opened Common
  import opened Lz4Format
  import opened Lz4Copy

  const FASTLOOP_SAFE_DISTANCE := 64
  /** Sizes are C ints. */
  const INT_RANGE := 0x8000_0000

  // ----- What is accepted -----------------------------------------------------------------------

  /** Short literals with 17 bytes of input and 32 of output to spare are copied without a look at the ends. */
  predicate Roomy(src: seq<byte>, ip: nat, pos: nat, cap: nat)
    requires ip < |src|
  {
    src[ip] / 16 < NIBBLE_MAX && ip + 1 + 17 <= |src| && pos + 32 <= cap
  }

  /** Such literals with a short match at a distance of eight or more are not checked at all. */
  predicate Unchecked(src: seq<byte>, ip: nat, pos: nat, cap: nat, offset: nat)
    requires ip < |src|
  {
    Roomy(src, ip, pos, cap) && src[ip] % 16 < NIBBLE_MAX && 8 <= offset
  }

  predicate LiteralsAdmitted(src: seq<byte>, ip: nat, pos: nat, cap: nat, lit: nat, len: nat)
    requires ip < |src|
  {
    Roomy(src, ip, pos, cap) || (pos + len + MFLIMIT <= cap && lit + len + 3 + LASTLITERALS <= |src|)
  }

  /** A long match length must end LASTLITERALS before the end of the input. */
  predicate LengthAdmitted(src: seq<byte>, ip: nat, next: nat)
    requires ip < |src|
  {
    src[ip] % 16 == NIBBLE_MAX ==> next + LASTLITERALS <= |src|
  }

  predicate ElementAdmitted(src: seq<byte>, ip: nat, pos: nat, cap: nat)
    requires ip <= |src|
  {
    match ReadElement(Bits32, src, ip)
    case Malformed => false
    case Final(lit, len) => pos + len <= cap
    case Copy(lit, len, offset, matchLen, next) =>
      && LiteralsAdmitted(src, ip, pos, cap, lit, len)
      && LengthAdmitted(src, ip, next)
      && offset <= pos + len
      && (pos + len + matchLen + LASTLITERALS <= cap || Unchecked(src, ip, pos, cap, offset))
  }

  /**
   Exactly what the decoder accepts, element by element. Neither the fast loop nor the choice of copy
   strategy shows: both loops accept the same blocks.
   */
  ghost predicate Accepts(src: seq<byte>, ip: nat, pos: nat, cap: nat)
    requires ip <= |src|
    decreases |src| - ip
  {
    && ElementAdmitted(src, ip, pos, cap)
    && var e := ReadElement(Bits32, src, ip);
    (e.Copy? ==> Accepts(src, e.next, pos + e.len + e.matchLen, cap))
  }

  /** The first element the decoder does not admit. */
  ghost function FirstRejected(src: seq<byte>, ip: nat, pos: nat, cap: nat): Option<nat>
    requires ip <= |src|
    decreases |src| - ip
  {
    if !ElementAdmitted(src, ip, pos, cap) then Some(ip)
    else
      var e := ReadElement(Bits32, src, ip);
      if e.Copy? then FirstRejected(src, e.next, pos + e.len + e.matchLen, cap) else None
  }

  lemma {:induction false} AcceptsIff(src: seq<byte>, ip: nat, pos: nat, cap: nat)
    requires ip <= |src|
    ensures Accepts(src, ip, pos, cap) <==> FirstRejected(src, ip, pos, cap) == None
    decreases |src| - ip
  {
    hide ReadElement;
    var e := ReadElement(Bits32, src, ip);
    if ElementAdmitted(src, ip, pos, cap) && e.Copy? {
      ElementPlaces(Bits32, src, ip);
      AcceptsIff(src, e.next, pos + e.len + e.matchLen, cap);
    }
  }

  ghost predicate Accepted(src: seq<byte>, cap: nat) {
    if cap == 0 then src == [0] else Accepts(src, 0, 0, cap)
  }

  /** Every block that obeys the format's restrictions and fits is among them. */
  lemma {:induction false} ConformsAccepted(src: seq<byte>, ip: nat, pos: nat, n: nat, cap: nat)
    requires ip <= |src| < U32_RANGE && Conforms(src, ip, pos, n) && n <= cap && n < U32_RANGE
    ensures Accepts(src, ip, pos, cap)
    decreases |src| - ip
  {
    hide ReadElement;
    ConformsNarrow(src, ip, pos, n);
    NarrowSame(src, ip);
    ConformsElement(src, ip, pos, n);
    ElementPlaces(Bits32, src, ip);
    var e := ReadElement(Bits32, src, ip);
    if e.Copy? {
      ConformsAccepted(src, e.next, pos + e.len + e.matchLen, n, cap);
    }
  }

  /** Whatever is accepted expands, within the capacity. */
  lemma {:induction false} AcceptsExpands(src: seq<byte>, ip: nat, out: seq<byte>, cap: nat)
    requires ip <= |src| && Accepts(src, ip, |out|, cap)
    ensures var r := Decode(Bits32, src, ip, out); r.Some? && |r.value| <= cap
    decreases |src| - ip
  {
    hide CopyMatch;
    hide ReadElement;
    var e := ReadElement(Bits32, src, ip);
    if e.Copy? {
      AcceptsExpands(src, e.next, CopyMatch(out + src[e.lit..e.lit + e.len], e.offset, e.matchLen), cap);
    }
  }

  lemma ElementPlaces(w: Width, src: seq<byte>, ip: nat)
    requires ip <= |src|
    ensures var e := ReadElement(w, src, ip);
            && (e.Copy? ==> ip < |src| && e.lit + e.len + 2 <= e.next)
            && (e.Final? ==> ip < |src|)
  {
  }

  // ----- Invariants -----------------------------------------------------------------------------

  /** Having produced `out` and standing at `ip`, the decoder has lost nothing of the block. */
  ghost predicate Tracks(src: seq<byte>, cap: nat, ip: nat, out: seq<byte>) {
    && ip <= |src|
    && Decode(Bits32, src, 0, []) == Decode(Bits32, src, ip, out)
    && FirstRejected(src, 0, 0, cap) == FirstRejected(src, ip, |out|, cap)
  }

  datatype Label =
    | SafeDecode
    | SafeLiteralCopy(token: byte, length: nat)
    | CopyMatchLabel(token: byte, offset: nat)
    | SafeMatchCopy(offset: nat, length: nat)
    | OutputError
    | EndOfBlock

  /**
   The literal length is known. When the length field runs into the last 15 input bytes the C code
   goes on with a partial sum; such a block is malformed and the run overshoots the input.
   */
  ghost predicate LiteralLength(src: seq<byte>, start: nat, ip: nat, length: nat)
    requires start < |src|
  {
    || ReadLength(Bits32, src, start + 1, src[start] / 16) == Some((length, ip))
    || (ReadElement(Bits32, src, start) == Malformed && ip + length > |src|)
  }

  /** Literals of the element at `start` are admitted and copied, and its offset is read. */
  ghost predicate LiteralsDone(src: seq<byte>, buf: seq<byte>, start: nat, ip: nat, op: nat, token: byte, offset: nat) {
    && start < |src| && token == src[start]
    && ReadLength(Bits32, src, start + 1, token / 16).Some?
    && var (len, lit) := ReadLength(Bits32, src, start + 1, token / 16).value;
    && lit + len + 2 == ip < |src|
    && offset == Le16(src[ip - 2], src[ip - 1])
    && len <= op && op + MFLIMIT <= |buf|
    && buf[op - len..op] == src[lit..lit + len]
    && LiteralsAdmitted(src, start, op - len, |buf|, lit, len)
    && Tracks(src, |buf|, start, buf[..op - len])
  }

  /** What is left of the element at `start` is to be checked: nothing the shortcut takes fails the check. */
  ghost predicate Checkable(src: seq<byte>, cap: nat, start: nat, op: nat, offset: nat) {
    && start < |src| && ReadLength(Bits32, src, start + 1, src[start] / 16).Some?
    && var len := ReadLength(Bits32, src, start + 1, src[start] / 16).value.0;
    && len <= op
    && (Unchecked(src, start, op - len, cap, offset) && offset <= op ==>
          op + src[start] % 16 + MINMATCH + LASTLITERALS <= cap)
  }

  /** The whole element at `start` is read; only its match remains to be copied. */
  ghost predicate MatchPending(src: seq<byte>, buf: seq<byte>, start: nat, ip: nat, op: nat, offset: nat, length: nat) {
    && start < |src|
    && var e := ReadElement(Bits32, src, start);
    && e.Copy? && e.offset == offset && e.matchLen == length && e.next == ip < |src|
    && e.len <= op && op + MFLIMIT <= |buf|
    && buf[op - e.len..op] == src[e.lit..e.lit + e.len]
    && LiteralsAdmitted(src, start, op - e.len, |buf|, e.lit, e.len)
    && LengthAdmitted(src, start, ip)
    && Tracks(src, |buf|, start, buf[..op - e.len])
  }

  ghost predicate At(src: seq<byte>, buf: seq<byte>, at: Label, start: nat, ip: nat, op: nat) {
    && op <= |buf|
    && match at
       case SafeDecode => start == ip < |src| && Tracks(src, |buf|, ip, buf[..op])
       case SafeLiteralCopy(token, length) =>
         && start < ip <= |src| && token == src[start]
         && Tracks(src, |buf|, start, buf[..op])
         && LiteralLength(src, start, ip, length)
         && !Roomy(src, start, op, |buf|)
       case CopyMatchLabel(token, offset) =>
         LiteralsDone(src, buf, start, ip, op, token, offset) && Checkable(src, |buf|, start, op, offset)
       case SafeMatchCopy(offset, length) =>
         MatchPending(src, buf, start, ip, op, offset, length) && Checkable(src, |buf|, start, op, offset)
       case OutputError => start < ip <= |src| && FirstRejected(src, 0, 0, |buf|) == Some(start)
       case EndOfBlock => Decode(Bits32, src, 0, []) == Some(buf[..op]) && FirstRejected(src, 0, 0, |buf|) == None
  }

  // ----- Steps of the invariant -----------------------------------------------------------------

  lemma RejectMalformed(src: seq<byte>, cap: nat, start: nat, out: seq<byte>)
    requires Tracks(src, cap, start, out)
    requires ReadElement(Bits32, src, start).Malformed?
    ensures FirstRejected(src, 0, 0, cap) == Some(start)
  {
  }

  /** Too long a literal run for a middle sequence, and not exactly the final one. */
  lemma RejectLiterals(src: seq<byte>, cap: nat, start: nat, out: seq<byte>, ip: nat, length: nat)
    requires Tracks(src, cap, start, out) && start < |src| && !Roomy(src, start, |out|, cap)
    requires LiteralLength(src, start, ip, length)
    requires |out| + length + MFLIMIT > cap || ip + length + 3 + LASTLITERALS > |src|
    requires ip + length != |src| || |out| + length > cap
    ensures FirstRejected(src, 0, 0, cap) == Some(start)
  {
  }

  lemma FinalLiterals(src: seq<byte>, cap: nat, start: nat, out: seq<byte>, ip: nat, length: nat)
    requires Tracks(src, cap, start, out) && start < |src|
    requires LiteralLength(src, start, ip, length)
    requires ip + length == |src| && |out| + length <= cap
    ensures Decode(Bits32, src, 0, []) == Some(out + src[ip..])
    ensures FirstRejected(src, 0, 0, cap) == None
  {
  }

  lemma RejectPending(src: seq<byte>, buf: seq<byte>, start: nat, ip: nat, op: nat, offset: nat, length: nat)
    requires MatchPending(src, buf, start, ip, op, offset, length) && Checkable(src, |buf|, start, op, offset)
    requires offset > op || op + length + LASTLITERALS > |buf|
    ensures FirstRejected(src, 0, 0, |buf|) == Some(start)
  {
    hide Decode;
    hide ReadExtension;
  }

  /** Unfolding of both recursions at an admitted Copy element. */
  lemma AdmittedStep(src: seq<byte>, ip: nat, out: seq<byte>, cap: nat)
    requires ip <= |src|
    requires ReadElement(Bits32, src, ip).Copy? && ElementAdmitted(src, ip, |out|, cap)
    ensures var e := ReadElement(Bits32, src, ip);
            && e.offset <= |out| + e.len
            && var out' := CopyMatch(out + src[e.lit..e.lit + e.len], e.offset, e.matchLen);
            && Decode(Bits32, src, ip, out) == Decode(Bits32, src, e.next, out')
            && FirstRejected(src, ip, |out|, cap) == FirstRejected(src, e.next, |out'|, cap)
  {
    hide ReadElement;
    hide CopyMatch;
  }

  lemma PendingDone(src: seq<byte>, buf: seq<byte>, start: nat, ip: nat, op: nat, offset: nat, length: nat, buf': seq<byte>)
    requires MatchPending(src, buf, start, ip, op, offset, length)
    requires offset <= op && op + length <= |buf| == |buf'|
    requires op + length + LASTLITERALS <= |buf| ||
             Unchecked(src, start, op - ReadElement(Bits32, src, start).len, |buf|, offset)
    requires buf'[..op + length] == CopyMatch(buf[..op], offset, length)
    ensures At(src, buf', SafeDecode, ip, ip, op + length)
  {
    hide CopyMatch;
    hide ReadElement;
    hide Decode;
    hide FirstRejected;
    var e := ReadElement(Bits32, src, start);
    var out := buf[..op - e.len];
    assert buf[..op] == out + src[e.lit..e.lit + e.len];
    AdmittedStep(src, start, out, |buf|);
  }

  /** A complete match length turns `LiteralsDone` into `MatchPending`. */
  lemma LengthRead(src: seq<byte>, buf: seq<byte>, start: nat, ip: nat, op: nat, token: byte, offset: nat, code: nat, next: nat)
    requires LiteralsDone(src, buf, start, ip, op, token, offset)
    requires ReadLength(Bits32, src, ip, token % 16) == Some((code, next)) && next < |src|
    requires LengthAdmitted(src, start, next)
    ensures MatchPending(src, buf, start, next, op, offset, code + MINMATCH)
  {
    hide FirstRejected;
  }

  /** The match length field ends too close to the end of the input, or not at all. */
  lemma RejectLength(src: seq<byte>, buf: seq<byte>, start: nat, ip: nat, op: nat, token: byte, offset: nat)
    requires LiteralsDone(src, buf, start, ip, op, token, offset) && token % 16 == NIBBLE_MAX
    requires var r := ReadLength(Bits32, src, ip, token % 16); r.None? || r.value.1 + LASTLITERALS > |src| || offset > op
    ensures FirstRejected(src, 0, 0, |buf|) == Some(start)
  {
    hide Decode;
    hide ReadLength;
  }

  // ----- read_variable_length -------------------------------------------------------------------

  datatype VarLenError = LoopError | InitialError | Ok

  /** Skipping full bytes adds 255 each. */
  lemma {:induction false} ReadExtensionSkip(src: seq<byte>, ip0: nat, ip: nat)
    requires ip0 <= ip <= |src|
    requires forall i :: ip0 <= i < ip ==> src[i] == 255
    ensures var r0, r := ReadExtension(src, ip0), ReadExtension(src, ip);
            && r0.Some? == r.Some?
            && (r.Some? ==> r0.value == (255 * (ip - ip0) + r.value.0, r.value.1))
    decreases ip - ip0
  {
    if ip0 < ip {
      ReadExtensionSkip(src, ip0 + 1, ip);
    }
  }

  /** 255 is odd, so a 32-bit sum of fewer than 2^32 full bytes never wraps to zero. */
  lemma FullBytesNotZero(k: nat)
    requires 0 < k < U32_RANGE
    ensures 255 * k % U32_RANGE != 0
  {
  }

  lemma SumWraps(a: nat, b: nat)
    ensures (a % U32_RANGE + b) % U32_RANGE == (a + b) % U32_RANGE
  {
  }

  /** What the loop of `ReadVariableLength` has established after reading [ip0, ip). */
  ghost predicate PartialLength(src: seq<byte>, ip0: nat, ip: nat, length: nat) {
    && ip0 < ip <= |src|
    && var r := ReadExtension(src, ip0);
    if src[ip - 1] == 255
    then length == 255 * (ip - ip0) % U32_RANGE && (r.None? || r.value.1 > ip)
    else r.Some? && r.value.1 == ip && length == r.value.0 % U32_RANGE
  }

  lemma PartialLengthStep(src: seq<byte>, ip0: nat, ip: nat, length: nat)
    requires ip0 <= ip < |src|
    requires forall i :: ip0 <= i < ip ==> src[i] == 255
    requires length == 255 * (ip - ip0) % U32_RANGE
    ensures PartialLength(src, ip0, ip + 1, (length + src[ip]) % U32_RANGE)
  {
    SumWraps(255 * (ip - ip0), src[ip]);
    ReadExtensionSkip(src, ip0, ip);
    if src[ip] == 255 {
      ReadExtensionSkip(src, ip0, ip + 1);
    }
  }

  method ReadVariableLength(src: seq<byte>, ip0: nat, lencheck: int, initialCheck: bool)
    returns (length: nat, ip: nat, error: VarLenError)
    requires ip0 <= |src| && lencheck <= |src|
    requires !initialCheck ==> ip0 < |src|
    ensures error == InitialError <==> initialCheck && ip0 >= lencheck
    ensures error == InitialError ==> ip == ip0 && length == 0
    ensures error != InitialError ==>
              && ip0 < ip <= |src|
              && (error == LoopError <==> ip >= lencheck)
              && (ip <= lencheck || ip == ip0 + 1)
              && (src[ip - 1] == 255 ==> error == LoopError)
              && PartialLength(src, ip0, ip, length)
  {
    hide ReadExtension;
    length, ip, error := 0, ip0, Ok;
    if initialCheck && ip >= lencheck {
      error := InitialError;
      return;
    }
    var s: byte := 255;
    while s == 255
      invariant ip0 <= ip < |src| || (ip0 < ip && s != 255)
      invariant ip == ip0 ==> s == 255 && (initialCheck ==> ip < lencheck)
      invariant ip > ip0 ==> PartialLength(src, ip0, ip, length) && s == src[ip - 1] && ip < lencheck
      invariant s == 255 ==> forall i :: ip0 <= i < ip ==> src[i] == 255
      invariant s == 255 ==> length == 255 * (ip - ip0) % U32_RANGE
      decreases |src| - ip
    {
      PartialLengthStep(src, ip0, ip, length);
      s := src[ip];
      ip := ip + 1;
      length := (length + s) % U32_RANGE;
      if ip >= lencheck {
        error := LoopError;
        return;
      }
    }
  }

  // ----- The safe loop, label by label ----------------------------------------------------------

  lemma LiteralsCopied(src: seq<byte>, buf: seq<byte>, buf': seq<byte>, start: nat, ip: nat, op: nat, length: nat)
    requires start < |src| && op + length + MFLIMIT <= |buf| == |buf'| && ip + length + 2 < |src|
    requires Tracks(src, |buf|, start, buf[..op])
    requires ReadLength(Bits32, src, start + 1, src[start] / 16) == Some((length, ip))
    requires LiteralsAdmitted(src, start, op, |buf|, ip, length)
    requires buf'[..op + length] == buf[..op] + src[ip..ip + length]
    ensures var m := ip + length;
            LiteralsDone(src, buf', start, m + 2, op + length, src[start], Le16(src[m], src[m + 1]))
  {
    hide Decode;
    hide FirstRejected;
    hide ReadLength;
    assert buf'[..op] == buf'[..op + length][..op] == buf[..op];
    assert buf'[op..op + length] == buf'[..op + length][op..];
  }

  /** The length field of the literals, from the byte after the token. */
  method LiteralLengthStep(src: seq<byte>, cap: nat, start: nat, ghost out: seq<byte>) returns (error: bool, length: nat, ip: nat)
    requires start < |src| < INT_RANGE
    requires Tracks(src, cap, start, out)
    ensures start < ip <= |src|
    ensures error ==> FirstRejected(src, 0, 0, cap) == Some(start)
    ensures !error ==> LiteralLength(src, start, ip, length)
    ensures src[start] / 16 < NIBBLE_MAX ==> !error && length == src[start] / 16 && ip == start + 1
  {
    hide Decode;
    hide FirstRejected;
    hide ReadExtension;
    error, length, ip := false, src[start] / 16, start + 1;
    if length == NIBBLE_MAX {
      var more, next, e := ReadVariableLength(src, ip, |src| - NIBBLE_MAX, true);
      if e == InitialError {
        RejectMalformed(src, cap, start, out);
        error := true;
        return;
      }
      length, ip := length + more, next;
    }
  }

  /** Label safe_decode: read a token, and take the two-stage shortcut when there is room. */
  method TokenStep(src: seq<byte>, dst: array<byte>, ip0: nat, op0: nat) returns (next: Label, ip: nat, op: nat)
    requires |src| < INT_RANGE
    requires At(src, dst[..], SafeDecode, ip0, ip0, op0)
    modifies dst
    ensures ip0 < ip
    ensures next.SafeDecode? || next.SafeLiteralCopy? || next.CopyMatchLabel? || next.OutputError?
    ensures At(src, dst[..], next, if next.SafeDecode? then ip else ip0, ip, op)
  {
    var token := src[ip0];
    ip, op := ip0 + 1, op0;
    if token / 16 != NIBBLE_MAX && ip < |src| - 16 && op <= dst.Length - 32 {
      next, ip, op := Shortcut(src, dst, ip0, op0);
      return;
    }
    var error, length;
    error, length, ip := LiteralLengthStep(src, dst.Length, ip0, dst[..op]);
    next := if error then OutputError else SafeLiteralCopy(token, length);
  }

  method Shortcut(src: seq<byte>, dst: array<byte>, ip0: nat, op0: nat) returns (next: Label, ip: nat, op: nat)
    requires At(src, dst[..], SafeDecode, ip0, ip0, op0)
    requires src[ip0] / 16 != NIBBLE_MAX && ip0 + 1 < |src| - 16 && op0 <= dst.Length - 32
    modifies dst
    ensures ip0 < ip
    ensures next.SafeDecode? || next.CopyMatchLabel?
    ensures At(src, dst[..], next, if next.SafeDecode? then ip else ip0, ip, op)
  {
    hide LiteralsDone;
    hide Tracks;
    var token := src[ip0];
    var offset := ShortLiterals(src, dst, ip0, op0);
    ip, op := ip0 + 1 + token / 16 + 2, op0 + token / 16;
    var length := token % 16;
    if length != NIBBLE_MAX && offset >= 8 && offset <= op {
      ShortMatch(src, dst, token, offset, ip0, ip, op);
      op := op + length + MINMATCH;
      next := SafeDecode;
    } else {
      next := CopyMatchLabel(token, offset);
    }
  }

  /** Sixteen bytes on behalf of at most fourteen literals, then the offset behind them. */
  method ShortLiterals(src: seq<byte>, dst: array<byte>, ip0: nat, op0: nat) returns (offset: nat)
    requires At(src, dst[..], SafeDecode, ip0, ip0, op0) && Roomy(src, ip0, op0, dst.Length)
    modifies dst
    ensures LiteralsDone(src, dst[..], ip0, ip0 + 1 + src[ip0] / 16 + 2, op0 + src[ip0] / 16, src[ip0], offset)
  {
    hide Wrote;
    hide Decode;
    hide FirstRejected;
    hide ReadExtension;
    var ip, length := ip0 + 1, src[ip0] / 16;
    ghost var buf := dst[..];
    CopyInput(dst, op0, src, ip, 16);
    InputKept(buf, dst[..], op0, src, ip, 16, length);
    LiteralsCopied(src, buf, dst[..], ip0, ip, op0, length);
    offset := Le16(src[ip + length], src[ip + length + 1]);
  }

  /** The 18-byte match copy shared by the shortcut and the fast loop. */
  method ShortMatch(src: seq<byte>, dst: array<byte>, token: byte, offset: nat, ghost start: nat, ip: nat, op: nat)
    requires LiteralsDone(src, dst[..], start, ip, op, token, offset)
    requires token % 16 != NIBBLE_MAX && 8 <= offset <= op && op + 18 <= dst.Length
    requires op + token % 16 + MINMATCH + LASTLITERALS <= dst.Length || Roomy(src, start, op - token / 16, dst.Length)
    modifies dst
    ensures At(src, dst[..], SafeDecode, ip, ip, op + token % 16 + MINMATCH)
  {
    hide Decode;
    hide FirstRejected;
    hide CopyMatch;
    hide ReadExtension;
    var length := token % 16;
    ghost var buf := dst[..];
    LengthRead(src, buf, start, ip, op, token, offset, length, ip);
    CopyMatch18(dst, op, op - offset, offset, length + MINMATCH);
    PendingDone(src, buf, start, ip, op, offset, length + MINMATCH, dst[..]);
  }

  /** Label safe_literal_copy: the last run of literals, or a middle one followed by an offset. */
  method LiteralStep(src: seq<byte>, dst: array<byte>, token: byte, length: nat, ghost start: nat, ip0: nat, op0: nat)
    returns (next: Label, ip: nat, op: nat)
    requires At(src, dst[..], SafeLiteralCopy(token, length), start, ip0, op0)
    modifies dst
    ensures ip0 <= ip
    ensures next.CopyMatchLabel? || next.OutputError? || next.EndOfBlock?
    ensures At(src, dst[..], next, start, ip, op)
  {
    hide Wrote;
    hide WildLength;
    hide Decode;
    hide FirstRejected;
    hide ReadLength;
    ip, op := ip0, op0;
    var cpy := op + length;
    ghost var buf := dst[..];
    if cpy > dst.Length - MFLIMIT || ip + length > |src| - (2 + 1 + LASTLITERALS) {
      if ip + length != |src| || cpy > dst.Length {
        RejectLiterals(src, dst.Length, start, dst[..op], ip, length);
        next := OutputError;
        return;
      }
      FinalLiterals(src, dst.Length, start, dst[..op], ip, length);
      CopyInput(dst, op, src, ip, length);
      assert dst[..cpy] == buf[..op] + src[ip..];
      ip, op := ip + length, cpy;
      next := EndOfBlock;
    } else {
      WildCopyInput(dst, op, src, ip, cpy, 8);
      InputKept(buf, dst[..], op, src, ip, WildLength(length, 8), length);
      LiteralsCopied(src, buf, dst[..], start, ip, op, length);
      next := CopyMatchLabel(token, Le16(src[ip + length], src[ip + length + 1]));
      ip, op := ip + length + 2, cpy;
    }
  }

  /** Label _copy_match: the length field of the match. */
  method MatchLengthStep(src: seq<byte>, ghost buf: seq<byte>, token: byte, offset: nat, ghost start: nat, ip0: nat, ghost op: nat)
    returns (next: Label, ip: nat)
    requires At(src, buf, CopyMatchLabel(token, offset), start, ip0, op)
    ensures ip0 <= ip
    ensures next.SafeMatchCopy? || next.OutputError?
    ensures At(src, buf, next, start, ip, op)
    ensures next.SafeMatchCopy? ==> next.offset == offset && next.length >= MINMATCH
  {
    hide Decode;
    hide FirstRejected;
    hide ReadExtension;
    var length := token % 16;
    ip := ip0;
    if length == NIBBLE_MAX {
      var more, ip', e := ReadVariableLength(src, ip, |src| - LASTLITERALS + 1, false);
      if e != Ok {
        RejectLength(src, buf, start, ip0, op, token, offset);
        next := OutputError;
        return;
      }
      length, ip := length + more, ip';
    }
    LengthRead(src, buf, start, ip0, op, token, offset, length, ip);
    next := SafeMatchCopy(offset, length + MINMATCH);
  }

  /** Label safe_match_copy: check the offset, then copy the match. */
  method MatchCopyStep(src: seq<byte>, dst: array<byte>, offset: nat, length: nat, ghost start: nat, ip: nat, op0: nat)
    returns (next: Label, op: nat)
    requires At(src, dst[..], SafeMatchCopy(offset, length), start, ip, op0)
    modifies dst
    ensures next.SafeDecode? || next.OutputError?
    ensures At(src, dst[..], next, if next.SafeDecode? then ip else start, ip, op)
  {
    hide Decode;
    hide FirstRejected;
    hide ReadLength;
    hide CopyMatch;
    op := op0;
    ghost var buf := dst[..];
    if offset > op {
      RejectPending(src, buf, start, ip, op, offset, length);
      next := OutputError;
      return;
    }
    var ok := CopyMatchSafe(dst, op, op - offset, offset, length);
    if !ok {
      RejectPending(src, buf, start, ip, op, offset, length);
      next := OutputError;
      return;
    }
    PendingDone(src, buf, start, ip, op, offset, length, dst[..]);
    op := op + length;
    next := SafeDecode;
  }

  // ----- The fast loop --------------------------------------------------------------------------

  /** Token, literals and offset in the fast loop: wide copies unless the input is nearly used up. */
  method FastLiterals(src: seq<byte>, dst: array<byte>, ip0: nat, op0: nat) returns (next: Label, ip: nat, op: nat)
    requires |src| < INT_RANGE
    requires At(src, dst[..], SafeDecode, ip0, ip0, op0) && op0 + FASTLOOP_SAFE_DISTANCE <= dst.Length
    modifies dst
    ensures ip0 < ip
    ensures next.SafeLiteralCopy? || next.CopyMatchLabel? || next.OutputError?
    ensures At(src, dst[..], next, ip0, ip, op)
  {
    hide Wrote;
    hide Decode;
    hide FirstRejected;
    hide ReadExtension;
    var token := src[ip0];
    ghost var buf := dst[..];
    var error, length;
    op := op0;
    error, length, ip := LiteralLengthStep(src, dst.Length, ip0, dst[..op]);
    if error {
      next := OutputError;
      return;
    }
    var cpy := op + length;
    if token / 16 == NIBBLE_MAX {
      if cpy > dst.Length - 32 || ip + length > |src| - 32 {
        next := SafeLiteralCopy(token, length);
        return;
      }
      WildCopyInput(dst, op, src, ip, cpy, 32);
      InputKept(buf, dst[..], op, src, ip, WildLength(length, 32), length);
      LiteralsCopied(src, buf, dst[..], ip0, ip, op, length);
      next := CopyMatchLabel(token, Le16(src[ip + length], src[ip + length + 1]));
    } else {
      if ip > |src| - (16 + 1) {
        next := SafeLiteralCopy(token, length);
        return;
      }
      var offset := ShortLiterals(src, dst, ip0, op);
      next := CopyMatchLabel(token, offset);
    }
    ip, op := ip + length + 2, cpy;
  }

  /** Match length and match copy in the fast loop; label SafeDecode stands for `continue`. */
  method FastMatch(src: seq<byte>, dst: array<byte>, token: byte, offset: nat, ghost start: nat, ip0: nat, op0: nat)
    returns (next: Label, ip: nat, op: nat)
    requires At(src, dst[..], CopyMatchLabel(token, offset), start, ip0, op0)
    modifies dst
    ensures ip0 <= ip
    ensures next.SafeMatchCopy? || next.SafeDecode? || next.OutputError?
    ensures At(src, dst[..], next, if next.SafeDecode? then ip else start, ip, op)
    ensures next.SafeDecode? ==> op + FASTLOOP_SAFE_DISTANCE <= dst.Length
  {
    hide Decode;
    hide FirstRejected;
    hide ReadExtension;
    hide CopyMatch;
    ip, op := ip0, op0;
    if token % 16 == NIBBLE_MAX && offset > op {
      RejectLength(src, dst[..], start, ip, op, token, offset);
      next := OutputError;
      return;
    }
    next, ip := MatchLengthStep(src, dst[..], token, offset, start, ip, op);
    if next.OutputError? || op + next.length >= dst.Length - FASTLOOP_SAFE_DISTANCE {
      return;
    }
    var length := next.length;
    if token % 16 != NIBBLE_MAX && 8 <= offset <= op {
      ShortMatch(src, dst, token, offset, start, ip0, op);
    } else {
      if offset > op {
        RejectPending(src, dst[..], start, ip, op, offset, length);
        next := OutputError;
        return;
      }
      FastCopy(src, dst, offset, length, start, ip, op);
    }
    op := op + length;
    next := SafeDecode;
  }

  method FastCopy(src: seq<byte>, dst: array<byte>, offset: nat, length: nat, ghost start: nat, ip: nat, op: nat)
    requires At(src, dst[..], SafeMatchCopy(offset, length), start, ip, op)
    requires offset <= op && MINMATCH <= length && op + length + FASTLOOP_SAFE_DISTANCE <= dst.Length
    modifies dst
    ensures At(src, dst[..], SafeDecode, ip, ip, op + length)
  {
    hide Decode;
    hide FirstRejected;
    hide CopyMatch;
    ghost var buf := dst[..];
    if offset < 16 {
      CopyMatchUsingOffset(dst, op, op - offset, op + length, offset);
    } else {
      CopyMatch32(dst, op, op - offset, op + length, offset);
    }
    PendingDone(src, buf, start, ip, op, offset, length, dst[..]);
  }

  method FastLoop(src: seq<byte>, dst: array<byte>) returns (next: Label, ghost start: nat, ip: nat, op: nat)
    requires 0 < |src| < INT_RANGE && dst.Length >= FASTLOOP_SAFE_DISTANCE
    modifies dst
    ensures next.SafeLiteralCopy? || next.SafeMatchCopy? || next.OutputError?
    ensures At(src, dst[..], next, start, ip, op)
  {
    hide Decode;
    hide FirstRejected;
    next, start, ip, op := SafeDecode, 0, 0, 0;
    while next.SafeDecode?
      invariant next.SafeDecode? || next.SafeLiteralCopy? || next.SafeMatchCopy? || next.OutputError?
      invariant At(src, dst[..], next, start, ip, op)
      invariant next.SafeDecode? ==> op + FASTLOOP_SAFE_DISTANCE <= dst.Length
      decreases |src| - ip, next.SafeDecode?
    {
      next, ip, op := FastLiterals(src, dst, ip, op);
      if next.CopyMatchLabel? {
        next, ip, op := FastMatch(src, dst, next.token, next.offset, start, ip, op);
        if next.SafeDecode? {
          start := ip;
        }
      }
    }
  }

  // ----- The decoder ----------------------------------------------------------------------------

  /** Progress through one element: every label lies between two tokens. */
  function Rank(next: Label): nat {
    match next
    case SafeDecode => 4
    case SafeLiteralCopy(_, _) => 3
    case CopyMatchLabel(_, _) => 2
    case SafeMatchCopy(_, _) => 1
    case OutputError => 0
    case EndOfBlock => 0
  }

  method SafeLoop(src: seq<byte>, dst: array<byte>, next0: Label, ghost start0: nat, ip0: nat, op0: nat)
    returns (next: Label, ghost start: nat, ip: nat, op: nat)
    requires |src| < INT_RANGE
    requires At(src, dst[..], next0, start0, ip0, op0)
    modifies dst
    ensures next.OutputError? || next.EndOfBlock?
    ensures At(src, dst[..], next, start, ip, op)
  {
    hide Decode;
    hide FirstRejected;
    hide ReadElement;
    hide ReadLength;
    next, start, ip, op := next0, start0, ip0, op0;
    // a match takes at least the two offset bytes, so a pass over the labels consumes input
    while !next.OutputError? && !next.EndOfBlock?
      invariant At(src, dst[..], next, start, ip, op)
      decreases |src| - start, Rank(next)
    {
      match next
      case SafeDecode =>
        next, ip, op := TokenStep(src, dst, ip, op);
        if next.SafeDecode? { start := ip; }
      case SafeLiteralCopy(token, length) =>
        next, ip, op := LiteralStep(src, dst, token, length, start, ip, op);
      case CopyMatchLabel(token, offset) =>
        next, ip := MatchLengthStep(src, dst[..], token, offset, start, ip, op);
      case SafeMatchCopy(offset, length) =>
        next, op := MatchCopyStep(src, dst, offset, length, start, ip, op);
        if next.SafeDecode? { start := ip; }
    }
  }

  /**
   LZ4_decompress_safe into a buffer of exactly `dst.Length` bytes. It terminates on every input and
   accepts exactly the blocks described by `Accepted`. The output is what a byte-at-a-time decoder
   produces that adds up lengths in 32 bits; it is the expansion the format defines exactly when
   every length field is below 2^32. Every conforming block that fits is among the accepted ones. A
   negative result names a position after the token of the first element that is not admitted.
   */
  method DecompressSafe(src: seq<byte>, dst: array<byte>) returns (ret: int)
    requires |src| < INT_RANGE && dst.Length < INT_RANGE
    modifies dst
    ensures ret >= 0 <==> Accepted(src, dst.Length)
    ensures ret < 0 && (src == [] || dst.Length == 0) ==> ret == -1
    ensures ret < 0 && src != [] && dst.Length > 0 ==>
      var r := FirstRejected(src, 0, 0, dst.Length); r.Some? && r.value < -ret - 1 <= |src|
    ensures ret >= 0 ==> ret <= dst.Length && Decode(Bits32, src, 0, []) == Some(dst[..ret])
    ensures ret >= 0 ==> (Decode(Unbounded, src, 0, []) == Some(dst[..ret]) <==> Narrow(src, 0))
    ensures forall n: nat :: n <= dst.Length && Conforms(src, 0, 0, n) ==> ret == n
  {
    hide FirstRejected;
    hide Decode;
    hide Narrow;
    hide Conforms;
    ConformingResult(src, dst.Length);
    if dst.Length == 0 {
      ret := if |src| == 1 && src[0] == 0 then 0 else -1;
      EmptyCapacity(src);
      if ret == 0 {
        DecodeExactIff(src, 0, []);
      }
      return;
    }
    if |src| == 0 {
      ret := -1;
      NothingAccepted(dst.Length);
      return;
    }
    var next, ip, op := SafeDecode, 0, 0;
    ghost var start := 0;
    if dst.Length >= FASTLOOP_SAFE_DISTANCE {
      next, start, ip, op := FastLoop(src, dst);
    }
    next, start, ip, op := SafeLoop(src, dst, next, start, ip, op);
    AcceptsIff(src, 0, 0, dst.Length);
    if next.OutputError? {
      return -(ip as int) - 1;
    }
    DecodeExactIff(src, 0, []);
    return op;
  }

  lemma NothingAccepted(cap: nat)
    ensures !Accepts([], 0, 0, cap)
  {
  }

  /** Conforming blocks are accepted, and decoded to the promised length by either reading. */
  lemma ConformingResult(src: seq<byte>, cap: nat)
    requires |src| < U32_RANGE && cap < U32_RANGE
    ensures forall n: nat :: n <= cap && Conforms(src, 0, 0, n) ==>
      && Accepted(src, cap) && Narrow(src, 0)
      && Decode(Unbounded, src, 0, []).Some? && |Decode(Unbounded, src, 0, []).value| == n
  {
    hide FirstRejected;
    hide Decode;
    hide Narrow;
    forall n: nat | n <= cap && Conforms(src, 0, 0, n)
      ensures Accepted(src, cap) && Narrow(src, 0)
      ensures Decode(Unbounded, src, 0, []).Some? && |Decode(Unbounded, src, 0, []).value| == n
    {
      ConformsAccepted(src, 0, 0, n, cap);
      ConformsNarrow(src, 0, 0, n);
      ConformsDecodes(src, 0, [], n);
      EmptyCapacity(src);
    }
  }

  /** Into an empty buffer only the one-byte block 0 decodes. */
  lemma EmptyCapacity(src: seq<byte>)
    ensures src == [0] ==> Decode(Bits32, src, 0, []) == Some([])
    ensures Conforms(src, 0, 0, 0) <==> src == [0]
  {
    if src == [0] {
      assert ReadElement(Bits32, src, 0) == Final(1, 0) && src[1..] == [];
      assert ReadElement(Unbounded, src, 0) == Final(1, 0);
    }
  }

  // ----- A block whose length wraps -------------------------------------------------------------

  /** One literal run: a length of 2^32 + 15 in 16843010 length bytes, and fifteen literals. */
  function WrappedBlock(literals: seq<byte>): seq<byte> {
    [0xF0] + seq(16843009, _ => 255) + [1] + literals
  }

  /**
   The format gives this block 2^32 + 15 literals, of which it has fifteen, so it is malformed. In
   32 bits the length is 15, and every buffer of fifteen bytes or more is filled with them.
   */
  lemma WrappedBlockAccepted(literals: seq<byte>, cap: nat)
    requires |literals| == 15 <= cap
    ensures var src := WrappedBlock(literals);
            && |src| == 16843026
            && Accepted(src, cap) && Decode(Bits32, src, 0, []) == Some(literals)
            && Decode(Unbounded, src, 0, []) == None && !Narrow(src, 0)
  {
    var src := WrappedBlock(literals);
    hide WrappedBlock;
    WrappedBytes(literals);
    assert src[0] == 0xF0 && src[16843010] == 1;
    ReadExtensionSkip(src, 1, 16843010);
    assert ReadExtension(src, 16843010) == Some((1, 16843011));
    assert ReadExtension(src, 1) == Some((U32_RANGE, 16843011));
    hide ReadExtension;
    assert ReadElement(Bits32, src, 0) == Final(16843011, 15);
    assert ReadElement(Unbounded, src, 0).Malformed?;
    assert !NarrowElement(src, 0);
    assert [] + src[16843011..] == literals;
  }

  lemma WrappedBytes(literals: seq<byte>)
    requires |literals| == 15
    ensures var src := WrappedBlock(literals);
            && |src| == 16843026 && src[0] == 0xF0 && src[16843010] == 1 && src[16843011..] == literals
            && forall i :: 1 <= i < 16843010 ==> src[i] == 255
  {
  }
}
