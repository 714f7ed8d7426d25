/**
 The incremental MD5 of tool/md5.cpp against RFC 1321. The 64-step block function is a parameter:
 whatever it is, the streamed state is its fold over the message padded as in sections 3.1 and 3.2.
 */
module Md5 {
  import opened Common

  type word = x: int | 0 <= x < 0x1_0000_0000

  const U32 := 0x1_0000_0000
  const U64 := 0x1_0000_0000_0000_0000
  const BLOCKSIZE := 64

  datatype Chain = Chain(a: word, b: word, c: word, d: word)

  /** Section 3.3 of RFC 1321. */
  const INITIAL := Chain(0x67452301, 0xefcdab89, 0x98badcfe, 0x10325476)

  type BlockFunction = (Chain, seq<byte>) -> Chain

  // ----- Specification --------------------------------------------------------------------------

  /** `k` bytes of `v`, low-order byte first. */
  function LeBytes(v: nat, k: nat): (r: seq<byte>)
    ensures |r| == k
    decreases k
  {
    if k == 0 then [] else [v % 256] + LeBytes(v / 256, k - 1)
  }

  /** Section 3.4: every 16-word block in turn. */
  function Absorb(f: BlockFunction, s: Chain, msg: seq<byte>): Chain
    requires |msg| % BLOCKSIZE == 0
    decreases |msg|
  {
    if msg == [] then s else Absorb(f, f(s, msg[..BLOCKSIZE]), msg[BLOCKSIZE..])
  }

  /** Section 3.1: a single one bit, then zeros until 56 bytes modulo 64. */
  function Padding(n: nat): (r: seq<byte>)
    ensures 1 <= |r| <= BLOCKSIZE && (n + |r|) % BLOCKSIZE == 56
  {
    var zeros := (55 - n % BLOCKSIZE + BLOCKSIZE) % BLOCKSIZE;
    [0x80] + seq(zeros, _ => 0)
  }

  /** Sections 3.1 and 3.2: padding, then the bit length modulo 2^64. */
  function Padded(msg: seq<byte>): (r: seq<byte>)
    ensures |r| % BLOCKSIZE == 0 && msg <= r
  {
    hide Padding, LeBytes;
    CountFills(|msg| + |Padding(|msg|)|);
    msg + (Padding(|msg|) + LeBytes(8 * |msg| % U64, 8))
  }

  lemma CountFills(n: nat)
    requires n % BLOCKSIZE == 56
    ensures (n + 8) % BLOCKSIZE == 0
  {
    ModUnique(n + 8, n / BLOCKSIZE + 1, 0, BLOCKSIZE);
  }

  /** Section 3.5. */
  function Digest(f: BlockFunction, msg: seq<byte>): seq<byte> {
    EncodeChain(Absorb(f, INITIAL, Padded(msg)))
  }

  lemma DigestLength(f: BlockFunction, msg: seq<byte>)
    ensures |Digest(f, msg)| == 16
  {
  }

  function EncodeChain(s: Chain): seq<byte> {
    LeBytes(s.a, 4) + LeBytes(s.b, 4) + LeBytes(s.c, 4) + LeBytes(s.d, 4)
  }

  /** Word `j` of a chain. */
  function Word(s: Chain, j: nat): word {
    if j == 0 then s.a else if j == 1 then s.b else if j == 2 then s.c else s.d
  }

  /** The digest in plain bytes: the four words in order, each low-order byte first. */
  lemma DigestBytes(f: BlockFunction, msg: seq<byte>, j: nat)
    requires j < 4
    ensures |Digest(f, msg)| == 16
    ensures var digest, w := Digest(f, msg), Word(Absorb(f, INITIAL, Padded(msg)), j);
            && digest[4 * j] == w % 0x100 && digest[4 * j + 1] == w / 0x100 % 0x100
            && digest[4 * j + 2] == w / 0x1_0000 % 0x100 && digest[4 * j + 3] == w / 0x100_0000
  {
    hide Absorb, Padded, LeBytes;
    var s := Absorb(f, INITIAL, Padded(msg));
    FourBytes(s.a);
    FourBytes(s.b);
    FourBytes(s.c);
    FourBytes(s.d);
  }

  lemma FourBytes(w: word)
    ensures LeBytes(w, 4) == [w % 0x100, w / 0x100 % 0x100, w / 0x1_0000 % 0x100, w / 0x100_0000]
  {
    LeBytesAt(w, 4, 0);
    LeBytesAt(w, 4, 1);
    LeBytesAt(w, 4, 2);
    LeBytesAt(w, 4, 3);
  }

  lemma {:induction false} LeBytesAt(v: nat, k: nat, i: nat)
    requires i < k
    ensures LeBytes(v, k)[i] == v / Pow256(i) % 256
    decreases k
  {
    if i > 0 {
      LeBytesAt(v / 256, k - 1, i - 1);
      NextDigit(v, i);
    }
  }

  lemma NextDigit(v: nat, i: nat)
    requires i > 0
    ensures v / 256 / Pow256(i - 1) == v / Pow256(i)
  {
    DivDiv(v, 256, Pow256(i - 1));
  }

  lemma DivDiv(v: nat, a: nat, b: nat)
    requires a > 0 && b > 0
    ensures a * b > 0 && v / a / b == v / (a * b)
  {
    var q, r := v / a, v % a;
    var q', r' := q / b, q % b;
    DivMod(v, a);
    DivMod(q, b);
    Nested(a, b, q', r', r);
    ModUnique(v, q', a * r' + r, a * b);
  }

  lemma Nested(a: nat, b: nat, q: nat, s: nat, r: nat)
    requires s < b && r < a
    ensures 0 <= a * s + r < a * b
    ensures (q * b + s) * a + r == q * (a * b) + (a * s + r)
  {
    MulAtLeast(b - s, a);
    assert (b - s) * a == a * b - a * s;
  }

  /** The initial chain of section 3.3 of RFC 1321, written there as bytes. */
  lemma InitialBytes()
    ensures EncodeChain(INITIAL)
         == [0x01, 0x23, 0x45, 0x67, 0x89, 0xab, 0xcd, 0xef, 0xfe, 0xdc, 0xba, 0x98, 0x76, 0x54, 0x32, 0x10]
  {
    hide LeBytes;
    WordBytes(INITIAL.a, 0x01, 0x23, 0x45, 0x67);
    WordBytes(INITIAL.b, 0x89, 0xab, 0xcd, 0xef);
    WordBytes(INITIAL.c, 0xfe, 0xdc, 0xba, 0x98);
    WordBytes(INITIAL.d, 0x76, 0x54, 0x32, 0x10);
  }

  lemma WordBytes(w: word, b0: byte, b1: byte, b2: byte, b3: byte)
    requires w == b0 + 0x100 * b1 + 0x1_0000 * b2 + 0x100_0000 * b3
    ensures LeBytes(w, 4) == [b0, b1, b2, b3]
  {
    var w2 := b2 + 0x100 * b3;
    var w1 := b1 + 0x100 * w2;
    assert LeBytes(0, 0) == [];
    hide LeBytes;
    LeCons(b3, 0, 0);
    LeCons(b2, b3, 1);
    LeCons(b1, w2, 2);
    LeCons(b0, w1, 3);
  }

  lemma LeCons(b: byte, rest: nat, k: nat)
    ensures LeBytes(b + 0x100 * rest, k + 1) == [b] + LeBytes(rest, k)
  {
    LowByte(b, rest);
  }

  /** The padded message in plain bytes: one bit, as few zeros as give whole blocks, the bit length. */
  lemma PaddedBytes(msg: seq<byte>)
    ensures var r, n := Padded(msg), |msg|;
            && |r| % 64 == 0 && n + 9 <= |r| < n + 9 + 64
            && r[..n] == msg && r[n] == 0x80
            && (forall i :: n < i < |r| - 8 ==> r[i] == 0)
            && forall i: nat :: i < 8 ==> r[|r| - 8 + i] == 8 * n / Pow256(i) % 256
  {
    hide LeBytes, Pow256;
    var r, n, bits := Padded(msg), |msg|, LeBytes(8 * |msg| % U64, 8);
    forall i: nat | i < 8
      ensures r[|r| - 8 + i] == 8 * n / Pow256(i) % 256
    {
      assert r[|r| - 8 + i] == bits[i];
      LeBytesAt(8 * n % U64, 8, i);
      LowDigits(8 * n, i);
    }
  }

  lemma LowDigits(v: nat, i: nat)
    requires i < 8
    ensures v % U64 / Pow256(i) % 256 == v / Pow256(i) % 256
  {
    hide Pow256;
    DivMod(v, U64);
    AllDigits(i);
    var q, r := v / U64, v % U64;
    DigitBelow(q, r, Pow256(i), Pow256(7 - i));
    assert q * (Pow256(i) * (256 * Pow256(7 - i))) + r == v;
  }

  lemma AllDigits(i: nat)
    requires i < 8
    ensures Pow256(i) * (256 * Pow256(7 - i)) == U64
  {
    PowSum(i, 8 - i);
    assert Pow256(8) == U64;
  }

  lemma {:induction false} PowSum(a: nat, b: nat)
    ensures Pow256(a) * Pow256(b) == Pow256(a + b)
  {
    if a > 0 {
      PowSum(a - 1, b);
      assert Pow256(a) * Pow256(b) == 256 * (Pow256(a - 1) * Pow256(b));
    }
  }

  /** A digit does not see what is added far above it. */
  lemma DigitBelow(q: nat, r: nat, p: nat, high: nat)
    requires p > 0
    ensures (q * (p * (256 * high)) + r) / p % 256 == r / p % 256
  {
    var m := high * q;
    Rearrange(q, p, high);
    DivMod(r, p);
    assert (r / p + 256 * m) * p == r / p * p + 256 * m * p;
    ModUnique(q * (p * (256 * high)) + r, r / p + 256 * m, r % p, p);
    LowByte(r / p, m);
  }

  lemma Rearrange(q: nat, p: nat, high: nat)
    ensures q * (p * (256 * high)) == 256 * (high * q) * p
  {
  }

  lemma {:induction false} AbsorbAppend(f: BlockFunction, s: Chain, x: seq<byte>, y: seq<byte>)
    requires |x| % BLOCKSIZE == 0 && |y| % BLOCKSIZE == 0
    ensures |x + y| % BLOCKSIZE == 0
    ensures Absorb(f, s, x + y) == Absorb(f, Absorb(f, s, x), y)
    decreases |x|
  {
    if x == [] {
      assert x + y == y;
    } else {
      assert (x + y)[..BLOCKSIZE] == x[..BLOCKSIZE];
      assert (x + y)[BLOCKSIZE..] == x[BLOCKSIZE..] + y;
      AbsorbAppend(f, f(s, x[..BLOCKSIZE]), x[BLOCKSIZE..], y);
    }
  }

  lemma AbsorbOne(f: BlockFunction, s: Chain, x: seq<byte>, block: seq<byte>)
    requires |x| % BLOCKSIZE == 0 && |block| == BLOCKSIZE
    ensures |x + block| % BLOCKSIZE == 0
    ensures Absorb(f, s, x + block) == f(Absorb(f, s, x), block)
  {
    AbsorbAppend(f, s, x, block);
    assert block[..BLOCKSIZE] == block && block[BLOCKSIZE..] == [];
  }

  lemma LowByte(lo: nat, high: nat)
    ensures (lo + 256 * high) % 256 == lo % 256 && (lo + 256 * high) / 256 == lo / 256 + high
  {
  }

  lemma {:induction false} LeBytesJoin(lo: nat, hi: nat, k: nat, m: nat)
    requires lo < Pow256(k)
    ensures LeBytes(lo, k) + LeBytes(hi, m) == LeBytes(lo + Pow256(k) * hi, k + m)
    decreases k
  {
    if k > 0 {
      var high := Pow256(k - 1) * hi;
      assert Pow256(k) * hi == 256 * high;
      LowByte(lo, high);
      LeBytesJoin(lo / 256, hi, k - 1, m);
    }
  }

  function Pow256(k: nat): (p: nat)
    ensures p >= 1
  {
    if k == 0 then 1 else 256 * Pow256(k - 1)
  }

  // ----- The two-word bit counter ---------------------------------------------------------------

  /** Bits so far, modulo 2^64, as the low and high word. */
  ghost predicate Counts(lo: nat, hi: nat, n: nat) {
    lo < U32 && hi < U32 && lo + U32 * hi == 8 * n % U64
  }

  lemma CounterAdvances(lo: nat, hi: nat, n: nat, length: nat)
    requires Counts(lo, hi, n) && length < U32
    ensures var add := 8 * length % U32;
            var lo' := (lo + add) % U32;
            var hi1 := if lo' < add then (hi + 1) % U32 else hi;
            Counts(lo', (hi1 + length / 0x2000_0000) % U32, n + length)
  {
    var add, q := 8 * length % U32, length / 0x2000_0000;
    assert 8 * length == U32 * q + add;
    var lo' := (lo + add) % U32;
    var carry := if lo' < add then 1 else 0;
    assert lo + add == lo' + U32 * carry;
    var hi1 := hi + carry + q;
    var hi' := hi1 % U32;
    TwoStep(hi, carry, q);
    var k := 8 * n / U64;
    var over := hi1 / U32;
    assert 8 * n == U64 * k + (lo + U32 * hi);
    assert 8 * (n + length) == U64 * (k + over) + (lo' + U32 * hi');
    ModUnique(8 * (n + length), k + over, lo' + U32 * hi', U64);
  }

  lemma TwoStep(hi: nat, carry: nat, q: nat)
    requires hi < U32 && carry <= 1
    ensures ((if carry == 1 then (hi + 1) % U32 else hi) + q) % U32 == (hi + carry + q) % U32
  {
  }

  /** The low word alone gives the number of buffered bytes. */
  lemma CounterIndex(lo: nat, hi: nat, n: nat)
    requires Counts(lo, hi, n)
    ensures lo / 8 % BLOCKSIZE == n % BLOCKSIZE
  {
    var k := 8 * n / U64;
    assert 8 * n == U64 * k + lo + U32 * hi;
    var m := 0x80_0000 * hi + 0x80_0000_0000_0000 * k;
    assert n == lo / 8 + 64 * m;
    ModUnique(n, lo / 8 / 64 + m, lo / 8 % 64, 64);
  }

  // ----- The 32-bit loop test -------------------------------------------------------------------

  /** Where the remainder of the input starts once its whole blocks are absorbed. */
  function LastStart(index: nat, length: nat): nat
    requires index < BLOCKSIZE
  {
    if length < (length + index) % BLOCKSIZE then 0 else length - (length + index) % BLOCKSIZE
  }

  /** The test `i + 64 <= length` is not disturbed by wrap-around. */
  predicate LoopFits(index: nat, length: nat)
    requires index < BLOCKSIZE
  {
    length < U32 && (length < BLOCKSIZE - index || LastStart(index, length) + BLOCKSIZE < U32)
  }

  lemma ShortInputsFit(index: nat, length: nat)
    requires index < BLOCKSIZE && length < U32 - BLOCKSIZE
    ensures LoopFits(index, length)
  {
  }

  /** The loop runs past the input exactly otherwise: its wrapped test succeeds at the remainder too. */
  lemma LongInputsOverrun(index: nat, length: nat)
    requires index < BLOCKSIZE && length < U32
    ensures !LoopFits(index, length) <==>
      length >= BLOCKSIZE - index && (LastStart(index, length) + BLOCKSIZE) % U32 <= length
  {
    if length >= BLOCKSIZE - index {
      var i := LastStart(index, length);
      assert i <= length < i + BLOCKSIZE;
      if i + BLOCKSIZE >= U32 {
        ModUnique(i + BLOCKSIZE, 1, i + BLOCKSIZE - U32, U32);
      }
    }
  }

  lemma NotPastLast(n: nat, length: nat, i: nat)
    requires i <= length && (n + i) % BLOCKSIZE == 0 && LastStart(n % BLOCKSIZE, length) + BLOCKSIZE < U32
    ensures i + BLOCKSIZE < U32
  {
    var index := n % BLOCKSIZE;
    var r := (length + index) % BLOCKSIZE;
    var m, q := (n + i) / BLOCKSIZE, n / BLOCKSIZE;
    assert n + i == BLOCKSIZE * m && n == BLOCKSIZE * q + index;
    var w := (length + index) / BLOCKSIZE;
    assert length + index == BLOCKSIZE * w + r;
    assert i + index == BLOCKSIZE * (m - q);
    assert m - q <= w;
  }

  // ----- The object -----------------------------------------------------------------------------

  class Hasher {
    const transform: BlockFunction
    const buffer: array<byte>
    var finalized: bool
    var countLo: nat
    var countHi: nat
    var state: Chain
    var digest: seq<byte>
    ghost var message: seq<byte>

    /** The full blocks of the message are absorbed, the rest is buffered, the bits are counted. */
    ghost predicate Valid()
      reads this, buffer
    {
      && buffer.Length == BLOCKSIZE
      && (finalized ==> digest == Digest(transform, message))
      && (!finalized ==> Streaming(transform, message, countLo, countHi, state, buffer[..]))
    }

    constructor (f: BlockFunction)
      ensures Valid() && !finalized && message == [] && transform == f && fresh(buffer)
    {
      transform := f;
      buffer := new byte[BLOCKSIZE](_ => 0);
      finalized := false;
      countLo, countHi := 0, 0;
      state := INITIAL;
      digest := [];
      message := [];
      new;
    }

    /** MD5::update, for lengths whose block loop stays within 32-bit arithmetic. */
    method Update(input: seq<byte>)
      requires Valid() && !finalized && LoopFits(|message| % BLOCKSIZE, |input|)
      modifies this`countLo, this`countHi, this`state, this`message, buffer
      ensures Valid() && message == old(message) + input
    {
      hide Absorbed;
      hide LastStart;
      hide Counts;
      hide Digest;
      var length := |input|;
      var index := countLo / 8 % BLOCKSIZE;
      CounterIndex(countLo, countHi, |message|);
      CounterAdvances(countLo, countHi, |message|, length);
      var add := 8 * length % U32;
      countLo := (countLo + add) % U32;
      if countLo < add {
        countHi := (countHi + 1) % U32;
      }
      countHi := (countHi + length / 0x2000_0000) % U32;
      AbsorbInput(input, index);
      message := message + input;
      assert Streaming(transform, message, countLo, countHi, state, buffer[..]);
    }

    /** Fill the buffer, transform whole blocks straight from the input, buffer the rest. */
    method AbsorbInput(input: seq<byte>, index: nat)
      requires buffer.Length == BLOCKSIZE && index == |message| % BLOCKSIZE && LoopFits(index, |input|)
      requires Absorbed(transform, message, state, buffer[..])
      modifies this`state, buffer
      ensures Absorbed(transform, message + input, state, buffer[..])
    {
      hide Absorb;
      hide LastStart;
      var firstpart := BLOCKSIZE - index;
      if |input| >= firstpart {
        Copy(index, input, 0, firstpart);
        var block := buffer[..];
        FirstBlock(transform, message, input, firstpart, state, block);
        state := transform(state, block);
        var i := AbsorbBlocks(input, firstpart);
        Copy(0, input, i, |input| - i);
        RestBuffered(transform, message, input, i, state, buffer[..]);
      } else {
        Copy(index, input, 0, |input|);
        ShortBuffered(transform, message, input, state, buffer[..]);
      }
    }

    /** Whole blocks of the input, from `start` on. */
    method AbsorbBlocks(input: seq<byte>, start: nat) returns (i: nat)
      requires start <= |input| && (|message| + start) % BLOCKSIZE == 0 && LastStart(|message| % BLOCKSIZE, |input|) + BLOCKSIZE < U32
      requires state == Absorb(transform, INITIAL, message + input[..start])
      modifies this`state
      ensures i <= |input| < i + BLOCKSIZE && (|message| + i) % BLOCKSIZE == 0
      ensures state == Absorb(transform, INITIAL, message + input[..i])
    {
      hide Absorb;
      hide LastStart;
      i := start;
      NotPastLast(|message|, |input|, i);
      while (i + BLOCKSIZE) % U32 <= |input|
        invariant i <= |input| && (|message| + i) % BLOCKSIZE == 0 && i + BLOCKSIZE < U32
        invariant state == Absorb(transform, INITIAL, message + input[..i])
      {
        AbsorbOne(transform, INITIAL, message + input[..i], input[i..i + BLOCKSIZE]);
        assert message + input[..i] + input[i..i + BLOCKSIZE] == message + input[..i + BLOCKSIZE];
        state := transform(state, input[i..i + BLOCKSIZE]);
        i := i + BLOCKSIZE;
        NotPastLast(|message|, |input|, i);
      }
    }

    /** MD5::finalize: pad to 56 modulo 64, append the bit count taken before padding, encode the state. */
    method Finalize()
      requires Valid()
      modifies this`countLo, this`countHi, this`state, this`message, this`finalized, this`digest, buffer
      ensures Valid() && finalized && message == old(message)
      ensures !old(finalized) ==> digest == Digest(transform, old(message))
      ensures old(finalized) ==> digest == old(digest)
      ensures !old(finalized) ==> countLo == 0 && countHi == 0 && forall k :: 0 <= k < BLOCKSIZE ==> buffer[k] == 0
    {
      if finalized {
        return;
      }
      hide Digest, Absorbed, Counts, Padded;
      ghost var msg := message;
      AppendPadding();
      FinalState(transform, msg, message, state, buffer[..]);
      digest := EncodeChain(state);
      forall k | 0 <= k < BLOCKSIZE { buffer[k] := 0; }
      countLo, countHi := 0, 0;
      message := msg;
      finalized := true;
    }

    /** Up to 56 modulo 64, then the bit count taken before padding. */
    method AppendPadding()
      requires Valid() && !finalized
      modifies this`countLo, this`countHi, this`state, this`message, buffer
      ensures Valid() && message == Padded(old(message))
    {
      hide Digest, Absorbed, LeBytes;
      ghost var msg := message;
      assert Counts(countLo, countHi, |msg|);
      var bits := LeBytes(countLo, 4) + LeBytes(countHi, 4);
      LengthBytes(countLo, countHi, |msg|);
      var index := countLo / 8 % BLOCKSIZE;
      CounterIndex(countLo, countHi, |msg|);
      hide Counts;
      var padLen := if index < 56 then 56 - index else 120 - index;
      PadLength(|msg|, padLen);
      ShortInputsFit(|message| % BLOCKSIZE, padLen);
      Update([0x80] + seq(padLen - 1, _ => 0));
      ShortInputsFit(|message| % BLOCKSIZE, 8);
      Update(bits);
      PaddedParts(msg);
    }

    /** memcpy into the buffer */
    method Copy(at: nat, input: seq<byte>, from: nat, n: nat)
      requires at + n <= buffer.Length && from + n <= |input|
      modifies buffer
      ensures buffer[..at] == old(buffer[..at]) && buffer[at..at + n] == input[from..from + n]
    {
      forall k | 0 <= k < n { buffer[at + k] := input[from + k]; }
    }
  }

  /** State and buffer for a message, without the counter. */
  ghost predicate Absorbed(f: BlockFunction, message: seq<byte>, state: Chain, buffer: seq<byte>) {
    && |buffer| == BLOCKSIZE
    && var rest := |message| % BLOCKSIZE;
    && state == Absorb(f, INITIAL, message[..|message| - rest])
    && buffer[..rest] == message[|message| - rest..]
  }

  ghost predicate Streaming(f: BlockFunction, message: seq<byte>, lo: nat, hi: nat, state: Chain, buffer: seq<byte>) {
    Counts(lo, hi, |message|) && Absorbed(f, message, state, buffer)
  }

  lemma RestBuffered(f: BlockFunction, message: seq<byte>, input: seq<byte>, i: nat, state: Chain, buffer: seq<byte>)
    requires i <= |input| < i + BLOCKSIZE && (|message| + i) % BLOCKSIZE == 0 && |buffer| == BLOCKSIZE
    requires state == Absorb(f, INITIAL, message + input[..i]) && buffer[..|input| - i] == input[i..]
    ensures Absorbed(f, message + input, state, buffer)
  {
    hide Absorb;
    var all := message + input;
    var rest := |all| % BLOCKSIZE;
    ModUnique(|all|, (|message| + i) / BLOCKSIZE, |input| - i, BLOCKSIZE);
    assert rest == |input| - i;
    assert all[..|all| - rest] == message + input[..i];
    assert all[|all| - rest..] == input[i..];
  }

  lemma ShortBuffered(f: BlockFunction, message: seq<byte>, input: seq<byte>, state: Chain, buffer: seq<byte>)
    requires |message| % BLOCKSIZE + |input| < BLOCKSIZE == |buffer|
    requires state == Absorb(f, INITIAL, message[..|message| - |message| % BLOCKSIZE])
    requires buffer[..|message| % BLOCKSIZE] == message[|message| - |message| % BLOCKSIZE..]
    requires buffer[|message| % BLOCKSIZE..|message| % BLOCKSIZE + |input|] == input
    ensures Absorbed(f, message + input, state, buffer)
  {
    var all, index := message + input, |message| % BLOCKSIZE;
    var rest := |all| % BLOCKSIZE;
    assert rest == index + |input|;
    assert all[..|all| - rest] == message[..|message| - index];
    assert all[|all| - rest..] == message[|message| - index..] + input;
    assert buffer[..rest] == buffer[..index] + buffer[index..rest];
  }

  lemma FirstBlock(f: BlockFunction, message: seq<byte>, input: seq<byte>, firstpart: nat, state: Chain, block: seq<byte>)
    requires firstpart == BLOCKSIZE - |message| % BLOCKSIZE <= |input| && |block| == BLOCKSIZE
    requires state == Absorb(f, INITIAL, message[..|message| - |message| % BLOCKSIZE])
    requires block[..|message| % BLOCKSIZE] == message[|message| - |message| % BLOCKSIZE..]
    requires block[|message| % BLOCKSIZE..] == input[..firstpart]
    ensures (|message| + firstpart) % BLOCKSIZE == 0
    ensures f(state, block) == Absorb(f, INITIAL, message + input[..firstpart])
  {
    hide Absorb;
    WholeBlocks(|message|);
    FillBlock(f, message, |message| - |message| % BLOCKSIZE, block, |message| % BLOCKSIZE, input[..firstpart]);
  }

  lemma WholeBlocks(n: nat)
    ensures (n - n % BLOCKSIZE) % BLOCKSIZE == 0 && (n + (BLOCKSIZE - n % BLOCKSIZE)) % BLOCKSIZE == 0
  {
  }

  lemma FillBlock(f: BlockFunction, message: seq<byte>, cut: nat, block: seq<byte>, index: nat, rest: seq<byte>)
    requires cut <= |message| && cut % BLOCKSIZE == 0 && index <= |block| == BLOCKSIZE
    requires block[..index] == message[cut..] && block[index..] == rest
    ensures |message + rest| % BLOCKSIZE == 0
    ensures f(Absorb(f, INITIAL, message[..cut]), block) == Absorb(f, INITIAL, message + rest)
  {
    Rejoin(message, cut, block, index, rest);
    AbsorbOne(f, INITIAL, message[..cut], block);
  }

  lemma Rejoin(message: seq<byte>, cut: nat, block: seq<byte>, index: nat, rest: seq<byte>)
    requires cut <= |message| && index <= |block|
    requires block[..index] == message[cut..] && block[index..] == rest
    ensures message[..cut] + block == message + rest
  {
    assert block == block[..index] + block[index..];
  }

  lemma FinalState(f: BlockFunction, msg: seq<byte>, all: seq<byte>, state: Chain, buffer: seq<byte>)
    requires all == Padded(msg) && Absorbed(f, all, state, buffer)
    ensures EncodeChain(state) == Digest(f, msg)
  {
    hide Padded;
    hide EncodeChain;
    hide Absorb;
    assert all[..|all|] == all;
  }

  lemma PaddedParts(msg: seq<byte>)
    ensures Padded(msg) == msg + Padding(|msg|) + LeBytes(8 * |msg| % U64, 8)
  {
    hide LeBytes;
    hide Padding;
  }

  lemma LengthBytes(lo: nat, hi: nat, n: nat)
    requires Counts(lo, hi, n)
    ensures LeBytes(lo, 4) + LeBytes(hi, 4) == LeBytes(8 * n % U64, 8)
  {
    hide LeBytes;
    assert Pow256(4) == U32;
    LeBytesJoin(lo, hi, 4, 4);
  }

  lemma PadLength(n: nat, padLen: nat)
    requires padLen == if n % BLOCKSIZE < 56 then 56 - n % BLOCKSIZE else 120 - n % BLOCKSIZE
    ensures [0x80] + seq(padLen - 1, _ => 0) == Padding(n)
  {
  }

  // ----- Hashing a section ----------------------------------------------------------------------

  /**
   calcSectionMD5 on an uncompressed section: `size` bytes, read 1024 at a time. The size is a C int;
   a negative one asks for a read of negative length into the 1024-byte buffer, which is undefined.
   */
  method SectionMd5(f: BlockFunction, section: seq<byte>, size0: int32) returns (digest: Option<seq<byte>>)
    requires size0 <= |section|
    ensures digest == if size0 >= 0 then Some(Digest(f, section[..size0])) else None
  {
    hide Digest, Streaming, LoopFits;
    var md5 := new Hasher(f);
    var buf := new byte[1024](_ => 0);
    var offset, size := 0, size0;
    while true
      invariant fresh(md5) && fresh(md5.buffer) && fresh(buf) && buf != md5.buffer && md5.Valid() && !md5.finalized && md5.transform == f
      invariant 0 <= offset && offset + size == size0 && (size0 < 0 ==> offset == 0)
      invariant size0 >= 0 ==> size >= 0 && md5.message == section[..offset]
      decreases if size < 0 then 0 else size
    {
      var len := if size > 1024 then 1024 else size;
      if len < 0 {
        return None;
      }
      HashChunk(md5, section, offset, buf, len);
      assert section[..offset] + section[offset..offset + len] == section[..offset + len];
      offset, size := offset + len, size - len;
      if size == 0 {
        break;
      }
    }
    md5.Finalize();
    digest := Some(md5.digest);
  }

  /** One chunk, read into the buffer and hashed from there. */
  method HashChunk(md5: Hasher, section: seq<byte>, offset: nat, buf: array<byte>, len: nat)
    requires md5.Valid() && !md5.finalized && buf != md5.buffer && len <= buf.Length == 1024 && offset + len <= |section|
    modifies md5`countLo, md5`countHi, md5`state, md5`message, md5.buffer, buf
    ensures md5.Valid() && md5.message == old(md5.message) + section[offset..offset + len]
  {
    hide Digest, Streaming;
    Read(section, offset, buf, len);
    ShortInputsFit(|md5.message| % BLOCKSIZE, len);
    md5.Update(buf[..len]);
  }

  /** FileStream::read */
  method Read(section: seq<byte>, offset: nat, buf: array<byte>, n: nat)
    requires n <= buf.Length && offset + n <= |section|
    modifies buf
    ensures buf[..n] == section[offset..offset + n]
  {
    forall k | 0 <= k < n { buf[k] := section[offset + k]; }
  }

  /** Any way of splitting a message into updates gives the digest of the whole. */
  method HashPieces(f: BlockFunction, pieces: seq<seq<byte>>) returns (digest: seq<byte>)
    requires forall k :: 0 <= k < |pieces| ==> |pieces[k]| < U32 - BLOCKSIZE
    ensures digest == Digest(f, Concat(pieces))
  {
    var md5 := new Hasher(f);
    for k := 0 to |pieces|
      invariant fresh(md5) && fresh(md5.buffer) && md5.Valid() && !md5.finalized && md5.transform == f
      invariant md5.message == Concat(pieces[..k])
    {
      ShortInputsFit(|md5.message| % BLOCKSIZE, |pieces[k]|);
      md5.Update(pieces[k]);
      assert pieces[..k + 1][..k] == pieces[..k];
    }
    assert pieces[..|pieces|] == pieces;
    md5.Finalize();
    digest := md5.digest;
  }

  function Concat(pieces: seq<seq<byte>>): seq<byte> {
    if pieces == [] then [] else Concat(pieces[..|pieces| - 1]) + pieces[|pieces| - 1]
  }
}
