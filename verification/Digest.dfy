/** The streaming digests of vox_crypto.c. */
module Digest {
  import opened Prelude
  import opened Bits

  /*
   MD5, SHA-1 and SHA-256 share one scheme of buffering, counting and padding around their compression functions. The
   compression function is a parameter here.
   */

  /**
   One of the algorithms: its compression function on 64-byte blocks, its initial state, the byte order of its length
   field, its output encoding, and whether its byte index has only 32 bits (MD5 and SHA-1) or is a size_t (SHA-256).
   */
  datatype Algorithm<!S> = Algorithm(
    compress: (S, seq<Byte>) -> S, init: S, bigEndian: bool, output: S -> seq<Byte>, narrow: bool)

  // ---------- What the standards define ----------

  function Fold<S>(alg: Algorithm<S>, s: S, data: seq<Byte>): S
    requires |data| % 64 == 0
  {
    if data == [] then s else Fold(alg, alg.compress(s, data[..64]), data[64..])
  }

  function Zeros(n: nat): (z: seq<Byte>)
    ensures |z| == n && forall i | 0 <= i < n :: z[i] == 0
  {
    seq(n, i => 0)
  }

  /** The k least significant bytes of v, least significant first. */
  function LittleEndian(v: nat, k: nat): (b: seq<Byte>)
    ensures |b| == k
  {
    if k == 0 then [] else [v % 256] + LittleEndian(v / 256, k - 1)
  }

  function BigEndian(v: nat, k: nat): (b: seq<Byte>)
    ensures |b| == k
  {
    if k == 0 then [] else BigEndian(v / 256, k - 1) + [v % 256]
  }

  function LengthField<S>(alg: Algorithm<S>, bits: nat): (b: seq<Byte>)
    ensures |b| == 8
  {
    if alg.bigEndian then BigEndian(bits, 8) else LittleEndian(bits, 8)
  }

  /** How many bytes bring a length of n to 56 modulo 64; at least one. */
  function PadLength(n: nat): (k: nat)
    ensures 1 <= k <= 64 && (n + k) % 64 == 56
  {
    if n % 64 < 56 then 56 - n % 64 else 120 - n % 64
  }

  /** The message, a one bit, zeros, and the length in bits modulo 2^64. */
  function Padded<S>(alg: Algorithm<S>, m: seq<Byte>): (p: seq<Byte>)
    ensures |p| % 64 == 0
  {
    PaddedLength(|m|);
    m + ([0x80] + Zeros(PadLength(|m|) - 1)) + LengthField(alg, 8 * |m| % TWO_64)
  }

  lemma PaddedLength(n: nat)
    ensures (n + PadLength(n) + 8) % 64 == 0
  {
  }

  function Hash<S>(alg: Algorithm<S>, m: seq<Byte>): seq<Byte> {
    alg.output(Fold(alg, alg.init, Padded(alg, m)))
  }

  // ---------- Lemmas ----------

  /** Folding over one more block. */
  lemma {:induction false} FoldBlock<S>(alg: Algorithm<S>, s: S, a: seq<Byte>, b: seq<Byte>)
    requires |a| % 64 == 0 && |b| == 64
    ensures Fold(alg, s, a + b) == alg.compress(Fold(alg, s, a), b)
    decreases |a|
  {
    if a == [] {
      assert a + b == b && b[..64] == b && b[64..] == [];
    } else {
      assert (a + b)[..64] == a[..64] && (a + b)[64..] == a[64..] + b;
      FoldBlock(alg, alg.compress(s, a[..64]), a[64..], b);
    }
  }

  /** The index in the buffer is what the low word of the bit count says, also after the count has wrapped. */
  lemma IndexFromCount(n: nat, lo: nat, hi: nat)
    requires lo < TWO_32 && hi * TWO_32 + lo == 8 * n % TWO_64
    ensures lo / 8 % 64 == n % 64
  {
    var q, r := 8 * n / TWO_64, 8 * n % TWO_64;
    assert 8 * n == TWO_64 * q + r;
    CountParts(n, lo, TWO_64 / 8 * q + TWO_32 / 8 * hi);
    SameRemainder(lo / 8, n, TWO_64 / 512 * q + TWO_32 / 512 * hi);
  }

  lemma CountParts(n: nat, lo: nat, whole: nat)
    requires 8 * n == 8 * whole + lo
    ensures n == whole + lo / 8
  {
  }

  lemma SameRemainder(a: nat, n: nat, k: int)
    requires n == a + 64 * k
    ensures a % 64 == n % 64
  {
  }

  lemma CountAdds(n: nat, len: nat)
    ensures (8 * n % TWO_64 + 8 * len) % TWO_64 == 8 * (n + len) % TWO_64
  {
    var q := 8 * n / TWO_64;
    assert 8 * n == q * TWO_64 + 8 * n % TWO_64;
    var r := 8 * n % TWO_64 + 8 * len;
    assert 8 * (n + len) == r + q * TWO_64;
    assert (r + q * TWO_64) % TWO_64 == r % TWO_64 by { AddMultiple(r, q, TWO_64); }
  }

  lemma AddMultiple(r: nat, q: nat, m: nat)
    requires m > 0
    ensures (r + q * m) % m == r % m
  {
    var d, e := r / m, r % m;
    assert r + q * m == (d + q) * m + e;
    ModUnique(r + q * m, m, d + q, e);
  }

  /** A 64-bit sum split into words again. */
  lemma Words(v: nat)
    requires v < TWO_64
    ensures v / TWO_32 < TWO_32 && v / TWO_32 * TWO_32 + v % TWO_32 == v
  {
  }

  /** The largest multiple of the block size up to n. */
  function Whole(n: nat): (w: nat)
    ensures w <= n < w + 64 && w % 64 == 0
  {
    n / 64 * 64
  }

  lemma WholeIs(n: nat, w: nat)
    requires w <= n < w + 64 && w % 64 == 0
    ensures w == Whole(n) && n - w == n % 64
  {
  }

  // ---------- The context ----------

  /** The count words hold the length in bits of n bytes. */
  ghost predicate Counted(n: nat, lo: nat, hi: nat) {
    lo < TWO_32 && hi < TWO_32 && hi * TWO_32 + lo == 8 * n % TWO_64
  }

  /** The state has taken in the whole blocks of m, the buffer begins with the rest. */
  ghost predicate Holding<S>(alg: Algorithm<S>, m: seq<Byte>, state: S, buffer: seq<Byte>) {
    && |buffer| == 64 && state == Fold(alg, alg.init, m[..Whole(|m|)])
    && buffer[..|m| - Whole(|m|)] == m[Whole(|m|)..]
  }

  /** More bytes that do not complete a block. */
  lemma HoldMore<S>(alg: Algorithm<S>, m: seq<Byte>, input: seq<Byte>, state: S, b: seq<Byte>, b': seq<Byte>)
    requires Holding(alg, m, state, b) && |m| - Whole(|m|) + |input| < 64 && |b'| == 64
    requires b'[..|m| - Whole(|m|) + |input|] == b[..|m| - Whole(|m|)] + input
    ensures Holding(alg, m + input, state, b')
  {
    hide Fold, Whole;
    WholeIs(|m| + |input|, Whole(|m|));
    assert (m + input)[..Whole(|m|)] == m[..Whole(|m|)];
    assert (m + input)[Whole(|m|)..] == m[Whole(|m|)..] + input;
  }

  /** The rest of the input after the last whole block, at the start of the buffer. */
  lemma HoldRest<S>(alg: Algorithm<S>, m: seq<Byte>, input: seq<Byte>, i: nat, state: S, b: seq<Byte>)
    requires i <= |input| && |m| + i == Whole(|m| + |input|) && state == Fold(alg, alg.init, (m + input)[..|m| + i])
    requires |b| == 64 && |input| - i < 64 && b[..|input| - i] == input[i..]
    ensures Holding(alg, m + input, state, b)
  {
    hide Fold, Whole;
    assert (m + input)[|m| + i..] == input[i..];
  }

  /** One block further in the message. */
  lemma NextBlock<S>(alg: Algorithm<S>, m: seq<Byte>, k: nat, b: seq<Byte>)
    requires k % 64 == 0 && k + 64 <= |m| && b == m[k..k + 64]
    ensures Fold(alg, alg.init, m[..k + 64]) == alg.compress(Fold(alg, alg.init, m[..k]), b)
  {
    hide Fold;
    assert m[..k + 64] == m[..k] + b;
    FoldBlock(alg, alg.init, m[..k], b);
  }

  /** The block that the buffer begins and the input completes. */
  lemma FirstBlock<S>(alg: Algorithm<S>, m: seq<Byte>, input: seq<Byte>, state: S, b: seq<Byte>, b': seq<Byte>)
    requires Holding(alg, m, state, b) && |m| - Whole(|m|) + |input| >= 64
    requires var k := 64 - (|m| - Whole(|m|)); b' == b[..64 - k] + input[..k]
    ensures Fold(alg, alg.init, (m + input)[..Whole(|m|) + 64]) == alg.compress(state, b')
  {
    hide Fold, Whole;
    var w := Whole(|m|);
    assert (m + input)[..w] == m[..w];
    assert (m + input)[w..w + 64] == m[w..] + input[..64 - (|m| - w)];
    NextBlock(alg, m + input, w, b');
  }

  lemma InputBlock(m: seq<Byte>, input: seq<Byte>, i: nat)
    requires i + 64 <= |input|
    ensures input[i..i + 64] == (m + input)[|m| + i..|m| + i + 64]
  {
  }

  class Context<S> {
    const alg: Algorithm<S>
    var state: S
    /** The two words of the bit count; SHA-256 keeps them as one. */
    var lo: nat
    var hi: nat
    const buffer: array<Byte>
    /** All bytes taken in so far. */
    ghost var message: seq<Byte>

    ghost predicate Valid()
      reads this, buffer
    {
      Counted(|message|, lo, hi) && Holding(alg, message, state, buffer[..])
    }

    /** md5_init, sha1_init, sha256_init */
    constructor (alg: Algorithm<S>)
      ensures Valid() && message == [] && this.alg == alg && fresh(buffer)
    {
      this.alg := alg;
      state := alg.init;
      lo, hi := 0, 0;
      buffer := new Byte[64](i => 0);
      message := [];
    }

    /** md5_update, sha1_update, sha256_update; the 32-bit index of the first two bounds the length of one call. */
    method Update(input: seq<Byte>)
      requires Valid() && (alg.narrow ==> |input| <= TWO_32 - 64) && |input| < TWO_64
      modifies this, buffer
      ensures Valid() && message == old(message) + input
    {
      hide Holding;
      IndexFromCount(|message|, lo, hi);
      CountAdds(|message|, |input|);
      WholeIs(|message|, Whole(|message|));
      var index := lo / 8 % 64;
      var bitCount := (hi * TWO_32 + lo + |input| * 8) % TWO_64;
      Words(bitCount);
      lo, hi := bitCount % TWO_32, bitCount / TWO_32;
      Absorb(input, index);
      message := message + input;
    }

    /** The copying and compressing of an update. */
    method Absorb(input: seq<Byte>, index: nat)
      requires Holding(alg, message, state, buffer[..]) && index == |message| - Whole(|message|)
      requires (alg.narrow ==> |input| <= TWO_32 - 64) && |input| < TWO_64
      modifies `state, buffer
      ensures Holding(alg, message + input, state, buffer[..])
    {
      hide Fold, Whole;
      var partLen := 64 - index;
      ghost var before := buffer[..];
      if |input| >= partLen {
        var i := Compress(input, index);
        Fill(0, input[i..]);
        assert buffer[..][..|input| - i] == buffer[..|input| - i];
        HoldRest(alg, message, input, i, state, buffer[..]);
      } else {
        Fill(index, input);
        assert buffer[..][..index + |input|] == buffer[..index + |input|];
        HoldMore(alg, message, input, state, before, buffer[..]);
      }
    }

    /** The full blocks of an update: the one that the buffer begins, and those in the input. */
    method Compress(input: seq<Byte>, index: nat) returns (i: nat)
      requires Holding(alg, message, state, buffer[..]) && index == |message| - Whole(|message|) && |input| >= 64 - index
      requires (alg.narrow ==> |input| <= TWO_32 - 64) && |input| < TWO_64
      modifies `state, buffer
      ensures i <= |input| && |message| + i == Whole(|message| + |input|)
      ensures state == Fold(alg, alg.init, (message + input)[..|message| + i])
    {
      hide Fold, Whole;
      var len := |input|;
      var partLen := 64 - index;
      ghost var m, n := message + input, |message|;
      ghost var before := buffer[..];
      Fill(index, input[..partLen]);
      assert buffer[..64] == buffer[..] == before[..index] + input[..partLen];
      FirstBlock(alg, message, input, state, before, buffer[..]);
      hide Holding;
      state := alg.compress(state, buffer[..]);
      i := CompressBlocks(input, partLen);
    }

    /** The block loop of an update. */
    method CompressBlocks(input: seq<Byte>, partLen: nat) returns (i: nat)
      requires partLen <= 64 && partLen <= |input| && (|message| + partLen) % 64 == 0
      requires (alg.narrow ==> |input| <= TWO_32 - 64) && |input| < TWO_64
      requires state == Fold(alg, alg.init, (message + input)[..|message| + partLen])
      modifies `state
      ensures i <= |input| && |message| + i == Whole(|message| + |input|)
      ensures state == Fold(alg, alg.init, (message + input)[..|message| + i])
    {
      hide Fold, Whole;
      var len := |input|;
      ghost var m, n := message + input, |message|;
      i := partLen;
      while i + 63 < len
        invariant partLen <= i <= len && (n + i) % 64 == 0
        invariant alg.narrow ==> i + 63 < TWO_32
        invariant state == Fold(alg, alg.init, m[..n + i])
      {
        state := alg.compress(state, input[i..i + 64]);
        InputBlock(message, input, i);
        NextBlock(alg, m, n + i, input[i..i + 64]);
        i := i + 64;
      }
      WholeIs(n + len, n + i);
    }

    /** A memcpy into the buffer. */
    method Fill(index: nat, bytes: seq<Byte>)
      requires buffer.Length == 64 && index + |bytes| <= 64
      modifies buffer
      ensures buffer[..index + |bytes|] == old(buffer[..index]) + bytes
    {
      forall k | 0 <= k < |bytes| {
        buffer[index + k] := bytes[k];
      }
    }

    /** md5_final, sha1_final, sha256_final */
    method Final() returns (digest: seq<Byte>)
      requires Valid()
      modifies this, buffer
      ensures Valid() && message == Padded(alg, old(message)) && |message| % 64 == 0
      ensures digest == Hash(alg, old(message))
    {
      hide Holding, Fold, LengthField, Zeros;
      ghost var m := message;
      IndexFromCount(|m|, lo, hi);
      var bits := LengthField(alg, hi * TWO_32 + lo);
      assert bits == LengthField(alg, 8 * |m| % TWO_64);
      var index := lo / 8 % 64;
      var padLen := if index < 56 then 56 - index else 120 - index;
      assert padLen == PadLength(|m|);
      hide Counted, PadLength;
      var padding := [0x80] + Zeros(padLen - 1);
      Update(padding);
      Update(bits);
      assert message == Padded(alg, m);
      hide Padded;
      WholeState();
      digest := alg.output(state);
    }

    /** With no partial block left the state is the fold over the whole message. */
    lemma WholeState()
      requires Valid() && |message| % 64 == 0
      ensures state == Fold(alg, alg.init, message)
    {
      hide Fold;
      WholeIs(|message|, |message|);
      assert message[..|message|] == message;
    }
  }

  // ---------- Whole messages ----------

  /** However a message is cut into update calls, the digest is that of the padded message. */
  method HashParts<S>(alg: Algorithm<S>, parts: seq<seq<Byte>>) returns (digest: seq<Byte>)
    requires forall i | 0 <= i < |parts| :: |parts[i]| < TWO_64 && (alg.narrow ==> |parts[i]| <= TWO_32 - 64)
    ensures digest == Hash(alg, Concat(parts))
  {
    hide Hash;
    var ctx := new Context(alg);
    for i := 0 to |parts|
      invariant ctx.Valid() && ctx.alg == alg && fresh(ctx) && fresh(ctx.buffer)
      invariant ctx.message == Concat(parts[..i])
    {
      ctx.Update(parts[i]);
      assert parts[..i + 1][..i] == parts[..i];
    }
    assert parts[..|parts|] == parts;
    digest := ctx.Final();
  }

  /** The padding tells messages apart: no two have the same padded form, up to the length that the count can hold. */
  lemma PaddingIsInjective<S>(alg: Algorithm<S>, a: seq<Byte>, b: seq<Byte>)
    requires Padded(alg, a) == Padded(alg, b) && 8 * |a| < TWO_64 && 8 * |b| < TWO_64
    ensures a == b
  {
    hide PadLength, LengthField;
    var p := Padded(alg, a);
    assert p[|p| - 8..] == LengthField(alg, 8 * |a|) == LengthField(alg, 8 * |b|);
    FieldIsInjective(alg, 8 * |a|, 8 * |b|);
    assert p[..|a|] == a && p[..|b|] == b;
  }

  lemma FieldIsInjective<S>(alg: Algorithm<S>, u: nat, v: nat)
    requires LengthField(alg, u) == LengthField(alg, v) && u < TWO_64 && v < TWO_64
    ensures u == v
  {
    hide BigEndian, LittleEndian;
    if alg.bigEndian {
      BigEndianBack(u, 8);
      BigEndianBack(v, 8);
    } else {
      LittleEndianBack(u, 8);
      LittleEndianBack(v, 8);
    }
    assert Power256(8) == TWO_64 by { PowerEight(); }
  }

  function Power256(k: nat): nat { if k == 0 then 1 else 256 * Power256(k - 1) }

  lemma PowerEight()
    ensures Power256(8) == TWO_64
  {
    assert Power256(2) == 0x1_0000;
    assert Power256(4) == 256 * (256 * Power256(2)) == TWO_32;
    assert Power256(6) == 256 * (256 * Power256(4));
    assert Power256(8) == 256 * (256 * Power256(6));
  }

  function FromLittle(b: seq<Byte>): nat {
    if b == [] then 0 else b[0] + 256 * FromLittle(b[1..])
  }

  function FromBig(b: seq<Byte>): nat {
    if b == [] then 0 else FromBig(b[..|b| - 1]) * 256 + b[|b| - 1]
  }

  lemma {:induction false} LittleEndianBack(v: nat, k: nat)
    ensures v < Power256(k) ==> FromLittle(LittleEndian(v, k)) == v
  {
    if k > 0 {
      LittleEndianBack(v / 256, k - 1);
      assert LittleEndian(v, k)[1..] == LittleEndian(v / 256, k - 1);
    }
  }

  lemma {:induction false} BigEndianBack(v: nat, k: nat)
    ensures v < Power256(k) ==> FromBig(BigEndian(v, k)) == v
  {
    if k > 0 {
      BigEndianBack(v / 256, k - 1);
      assert BigEndian(v, k)[..k - 1] == BigEndian(v / 256, k - 1);
    }
  }

  // ---------- The three algorithms ----------

  type Word = x: int | 0 <= x < 0x1_0000_0000

  function WordsOut(words: seq<Word>, bigEndian: bool): (b: seq<Byte>)
    ensures |b| == 4 * |words|
  {
    if words == [] then []
    else (if bigEndian then BigEndian(words[0], 4) else LittleEndian(words[0], 4)) + WordsOut(words[1..], bigEndian)
  }

  function Md5(compress: (seq<Word>, seq<Byte>) -> seq<Word>): Algorithm<seq<Word>> {
    Algorithm(compress, [0x67452301, 0xefcdab89, 0x98badcfe, 0x10325476], false, s => WordsOut(s, false), true)
  }

  function Sha1(compress: (seq<Word>, seq<Byte>) -> seq<Word>): Algorithm<seq<Word>> {
    Algorithm(compress, [0x67452301, 0xefcdab89, 0x98badcfe, 0x10325476, 0xc3d2e1f0], true, s => WordsOut(s, true), true)
  }

  function Sha256(compress: (seq<Word>, seq<Byte>) -> seq<Word>): Algorithm<seq<Word>> {
    Algorithm(compress,
              [0x6a09e667, 0xbb67ae85, 0x3c6ef372, 0xa54ff53a, 0x510e527f, 0x9b05688c, 0x1f83d9ab, 0x5be0cd19],
              true, s => WordsOut(s, true), false)
  }

  /** The digests are as long as the standards say: 16, 20 and 32 bytes, if compression keeps the number of words. */
  lemma DigestSizes(compress: (seq<Word>, seq<Byte>) -> seq<Word>, m: seq<Byte>)
    requires forall s, b :: |compress(s, b)| == |s|
    ensures |Hash(Md5(compress), m)| == 16 && |Hash(Sha1(compress), m)| == 20 && |Hash(Sha256(compress), m)| == 32
  {
    FoldSize(Md5(compress), Md5(compress).init, Padded(Md5(compress), m));
    FoldSize(Sha1(compress), Sha1(compress).init, Padded(Sha1(compress), m));
    FoldSize(Sha256(compress), Sha256(compress).init, Padded(Sha256(compress), m));
  }

  lemma {:induction false} FoldSize(alg: Algorithm<seq<Word>>, s: seq<Word>, data: seq<Byte>)
    requires |data| % 64 == 0 && forall s, b :: |alg.compress(s, b)| == |s|
    ensures |Fold(alg, s, data)| == |s|
    decreases |data|
  {
    if data != [] {
      FoldSize(alg, alg.compress(s, data[..64]), data[64..]);
    }
  }

  // ---------- Bytes by position ----------

  /** Eight bytes as a number, the most or the least significant first. */
  function EightBytes(big: bool, f: seq<Byte>): nat
    requires |f| == 8
  {
    if big then TWO_32 * LittleWord(f[3], f[2], f[1], f[0]) + LittleWord(f[7], f[6], f[5], f[4])
    else LittleWord(f[0], f[1], f[2], f[3]) + TWO_32 * LittleWord(f[4], f[5], f[6], f[7])
  }

  /** p is the message m, then 0x80, then zeros, then the length of m in bits modulo 2^64, and no longer than needed. */
  ghost predicate PaddedAs(big: bool, m: seq<Byte>, p: seq<Byte>) {
    && |p| % 64 == 0 && |m| + 9 <= |p| < |m| + 73
    && p[..|m|] == m && p[|m|] == 0x80 && (forall i | |m| < i < |p| - 8 :: p[i] == 0)
    && EightBytes(big, p[|p| - 8..]) == 8 * |m| % TWO_64
  }

  /** MD5 puts the length's least significant byte first (section 3.2 of RFC 1321), the SHA algorithms its most significant
      one (section 5.1.1 of FIPS 180-4). */
  lemma PaddedBytes(compress: (seq<Word>, seq<Byte>) -> seq<Word>, m: seq<Byte>)
    ensures PaddedAs(false, m, Padded(Md5(compress), m))
    ensures PaddedAs(true, m, Padded(Sha1(compress), m)) && PaddedAs(true, m, Padded(Sha256(compress), m))
  {
    PaddedIs(Md5(compress), m);
    PaddedIs(Sha1(compress), m);
    PaddedIs(Sha256(compress), m);
  }

  lemma PaddedIs<S>(alg: Algorithm<S>, m: seq<Byte>)
    ensures PaddedAs(alg.bigEndian, m, Padded(alg, m))
  {
    hide EightBytes, LengthField;
    var p, bits := Padded(alg, m), 8 * |m| % TWO_64;
    assert p[|p| - 8..] == LengthField(alg, bits);
    FieldValue(alg, bits);
  }

  lemma FieldValue<S>(alg: Algorithm<S>, bits: nat)
    requires bits < TWO_64
    ensures EightBytes(alg.bigEndian, LengthField(alg, bits)) == bits
  {
    hide EightBytes, BigEndian, LittleEndian;
    PowerEight();
    if alg.bigEndian {
      BigEndianBack(bits, 8);
      EightFromBig(BigEndian(bits, 8));
    } else {
      LittleEndianBack(bits, 8);
      EightFromLittle(LittleEndian(bits, 8));
    }
  }

  lemma EightFromLittle(f: seq<Byte>)
    requires |f| == 8
    ensures FromLittle(f) == EightBytes(false, f)
  {
    FourFromLittle(f);
    FourFromLittle(f[4..]);
    assert f[4..][4..] == [];
  }

  /** Four steps of the reading. */
  lemma FourFromLittle(f: seq<Byte>)
    requires |f| >= 4
    ensures FromLittle(f) == LittleWord(f[0], f[1], f[2], f[3]) + TWO_32 * FromLittle(f[4..])
  {
    assert f[1..][0] == f[1] && f[1..][1..] == f[2..];
    assert f[2..][0] == f[2] && f[2..][1..] == f[3..];
    assert f[3..][0] == f[3] && f[3..][1..] == f[4..];
    assert FromLittle(f[3..]) == f[3] + 256 * FromLittle(f[4..]);
    assert FromLittle(f[2..]) == f[2] + 256 * FromLittle(f[3..]);
    assert FromLittle(f[1..]) == f[1] + 256 * FromLittle(f[2..]);
  }

  lemma EightFromBig(f: seq<Byte>)
    requires |f| == 8
    ensures FromBig(f) == EightBytes(true, f)
  {
    FourFromBig(f);
    FourFromBig(f[..4]);
    assert f[..4][..0] == [];
  }

  lemma FourFromBig(f: seq<Byte>)
    requires |f| >= 4
    ensures var n := |f|;
            FromBig(f) == TWO_32 * FromBig(f[..n - 4]) + LittleWord(f[n - 1], f[n - 2], f[n - 3], f[n - 4])
  {
    var n := |f|;
    assert f[..n - 1][..n - 2] == f[..n - 2] && f[..n - 2][..n - 3] == f[..n - 3] && f[..n - 3][..n - 4] == f[..n - 4];
    assert FromBig(f[..n - 3]) == FromBig(f[..n - 4]) * 256 + f[n - 4];
    assert FromBig(f[..n - 2]) == FromBig(f[..n - 3]) * 256 + f[n - 3];
    assert FromBig(f[..n - 1]) == FromBig(f[..n - 2]) * 256 + f[n - 2];
  }

  /** The initial words by what they mean: bytes that count up and down for MD5 and SHA-1 (section 3.3 of RFC 1321,
      section 5.3.1 of FIPS 180-4), and for SHA-256 the fractions of the square roots of the first eight primes
      (section 5.3.3 of FIPS 180-4). */
  lemma InitialWords(compress: (seq<Word>, seq<Byte>) -> seq<Word>)
    ensures Md5(compress).init == [LittleWord(0x01, 0x23, 0x45, 0x67), LittleWord(0x89, 0xab, 0xcd, 0xef),
                                   LittleWord(0xfe, 0xdc, 0xba, 0x98), LittleWord(0x76, 0x54, 0x32, 0x10)]
    ensures Sha1(compress).init == Md5(compress).init + [LittleWord(0xf0, 0xe1, 0xd2, 0xc3)]
    ensures |Sha256(compress).init| == 8
    ensures var h := Sha256(compress).init;
            && IsRoot(2, 1, h[0]) && IsRoot(3, 1, h[1]) && IsRoot(5, 2, h[2]) && IsRoot(7, 2, h[3])
            && IsRoot(11, 3, h[4]) && IsRoot(13, 3, h[5]) && IsRoot(17, 4, h[6]) && IsRoot(19, 4, h[7])
  {
  }

  /** The word with these bytes, the least significant first. */
  function LittleWord(a: Byte, b: Byte, c: Byte, d: Byte): Word { a + 0x100 * b + 0x1_0000 * c + 0x100_0000 * d }

  /** The first 32 bits of the square root of p are those of the whole part k and the fraction h. */
  predicate IsRoot(p: nat, k: nat, h: Word) {
    var r := k * TWO_32 + h;
    r * r <= p * TWO_64 < (r + 1) * (r + 1)
  }

  /** The i-th word of the state makes bytes 4 i to 4 i + 3 of the digest. */
  lemma {:induction false} DigestBytes(words: seq<Word>, big: bool, i: nat)
    requires i < |words|
    ensures var b := WordsOut(words, big)[4 * i..4 * i + 4];
            words[i] == if big then LittleWord(b[3], b[2], b[1], b[0]) else LittleWord(b[0], b[1], b[2], b[3])
  {
    var w := if big then BigEndian(words[0], 4) else LittleEndian(words[0], 4);
    var rest := WordsOut(words[1..], big);
    if i == 0 {
      assert (w + rest)[0..4] == w;
      WordBytes(words[0], big);
    } else {
      DigestBytes(words[1..], big, i - 1);
      hide BigEndian, LittleEndian;
      SliceBehind(w, rest, 4 * (i - 1));
    }
  }

  lemma SliceBehind(w: seq<Byte>, rest: seq<Byte>, k: nat)
    requires |w| == 4 && k + 4 <= |rest|
    ensures (w + rest)[k + 4..k + 8] == rest[k..k + 4]
  {
  }

  lemma WordBytes(v: Word, big: bool)
    ensures var b := if big then BigEndian(v, 4) else LittleEndian(v, 4);
            v == if big then LittleWord(b[3], b[2], b[1], b[0]) else LittleWord(b[0], b[1], b[2], b[3])
  {
    PowerFour();
    if big {
      var b := BigEndian(v, 4);
      BigEndianBack(v, 4);
      FourFromBig(b);
      assert b[..0] == [];
    } else {
      var b := LittleEndian(v, 4);
      LittleEndianBack(v, 4);
      FourFromLittle(b);
      assert b[4..] == [];
    }
  }

  lemma PowerFour()
    ensures Power256(4) == TWO_32
  {
    assert Power256(2) == 0x1_0000;
    assert Power256(4) == 256 * (256 * Power256(2));
  }
}
