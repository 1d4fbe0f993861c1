/**
 * SHA-1 as specified by FIPS PUB 180-1, and the incremental context of
 * imf/sha1.c that computes it: `sha1_reset`, `sha1_input`,
 * `SHA1ProcessMessageBlock`, `SHA1PadMessage` and `sha1_result`.
 *
 * The specification half (`Pad`, `Compress`, `HashBlocks`, `Sha1`) is
 * written from the standard; the class half follows the C code step by
 * step and is proved to compute the specification.
 */
module Sha1 {

  /** 2^32 and 2^61: the length counters are two 32-bit words of a 64-bit bit count. */
  const Two32: int := 0x1_0000_0000
  const Two61: int := 0x2000_0000_0000_0000

  /** Initial hash value H(0), section 7 of FIPS PUB 180-1. */
  const H0: seq<bv32> := [0x67452301, 0xEFCDAB89, 0x98BADCFE, 0x10325476, 0xC3D2E1F0]

  /** The circular left shift S^n(X) of section 3 (the `SHA1CircularShift` macro). */
  function RotL(x: bv32, n: bv32): (r: bv32)
    requires 0 < n < 32
    ensures r >> n == x & (0xFFFF_FFFF >> n)
    ensures r & (0xFFFF_FFFF >> (32 - n)) == x >> (32 - n)
  {
    (x << n) | (x >> (32 - n))
  }

  /** The logical functions of section 5: f for 0 <= t <= 19 ... */
  function Ch(b: bv32, c: bv32, d: bv32): bv32
  {
    (b & c) | (!b & d)
  }

  /** ... for 20 <= t <= 39 and 60 <= t <= 79 ... */
  function Parity(b: bv32, c: bv32, d: bv32): bv32
  {
    b ^ c ^ d
  }

  /** ... and for 40 <= t <= 59. */
  function Maj(b: bv32, c: bv32, d: bv32): bv32
  {
    (b & c) | (b & d) | (c & d)
  }

  /**
   * The five-term sum of step (d), added left to right modulo 2^32.  It is
   * kept as one function so that the loop and the specification build the
   * very same term (the solver cannot re-associate word additions cheaply).
   */
  function Add5(v: bv32, w: bv32, x: bv32, y: bv32, z: bv32): bv32
  {
    v + w + x + y + z
  }

  /** Word addition modulo 2^32 (step (e)), kept as a function for the same reason. */
  function Add(x: bv32, y: bv32): bv32
  {
    x + y
  }

  /** Byte k (0 = least significant) of a word: the word shifted right by 8k bits, truncated to 8 bits. */
  function ByteOf(w: bv32, k: nat): bv8
    requires k < 4
  {
    if k == 3 then (w >> 24) as bv8
    else if k == 2 then ((w >> 16) & 0xFF) as bv8
    else if k == 1 then ((w >> 8) & 0xFF) as bv8
    else (w & 0xFF) as bv8
  }

  /** A word as four bytes, most significant first. */
  function BigEndian(w: bv32): (r: seq<bv8>)
    ensures |r| == 4
  {
    [ByteOf(w, 3), ByteOf(w, 2), ByteOf(w, 1), ByteOf(w, 0)]
  }

  /** Byte k (0 = least significant) of an unsigned 32-bit integer. */
  function ByteOfInt(x: int, k: nat): bv8
    requires 0 <= x < Two32 && k < 4
  {
    if k == 3 then (x / 0x100_0000) as bv8
    else if k == 2 then ((x / 0x1_0000) % 256) as bv8
    else if k == 1 then ((x / 0x100) % 256) as bv8
    else (x % 256) as bv8
  }

  /** An unsigned 32-bit integer as four bytes, most significant first. */
  function BigEndianInt(x: int): (r: seq<bv8>)
    requires 0 <= x < Two32
    ensures |r| == 4
  {
    [ByteOfInt(x, 3), ByteOfInt(x, 2), ByteOfInt(x, 1), ByteOfInt(x, 0)]
  }

  /** Four bytes, most significant first, as a word. */
  function WordOf(b0: bv8, b1: bv8, b2: bv8, b3: bv8): bv32
  {
    ((b0 as bv32) << 24) | ((b1 as bv32) << 16) | ((b2 as bv32) << 8) | (b3 as bv32)
  }

  /** Word t of a 64-byte block, read big-endian (step (a) of section 7). */
  function WordAt(block: seq<bv8>, t: nat): bv32
    requires |block| == 64 && t < 16
  {
    WordOf(block[4 * t], block[4 * t + 1], block[4 * t + 2], block[4 * t + 3])
  }

  /** Step (b) of section 7: W(t) = S^1(W(t-3) XOR W(t-8) XOR W(t-14) XOR W(t-16)). */
  function Expand(w3: bv32, w8: bv32, w14: bv32, w16: bv32): bv32
  {
    RotL(w3 ^ w8 ^ w14 ^ w16, 1)
  }

  /** The first n words W(0) .. W(n-1) of the message schedule (steps (a) and (b)). */
  function Schedule(block: seq<bv8>, n: nat): (w: seq<bv32>)
    requires |block| == 64 && n <= 80
    ensures |w| == n
  {
    if n == 0 then []
    else
      var w := Schedule(block, n - 1);
      var t := n - 1;
      w + [if t < 16 then WordAt(block, t) else Expand(w[t - 3], w[t - 8], w[t - 14], w[t - 16])]
  }

  /** The five working registers A .. E. */
  datatype Regs = Regs(a: bv32, b: bv32, c: bv32, d: bv32, e: bv32)

  /** One step of the compression loop (step (d)) with logical value f and constant k. */
  function Step(r: Regs, f: bv32, k: bv32, w: bv32): Regs
  {
    Regs(Add5(RotL(r.a, 5), f, r.e, w, k), r.a, RotL(r.b, 30), r.c, r.d)
  }

  /** Step t of the compression loop, with f(t;B,C,D) and K(t) of section 5. */
  function Round(r: Regs, t: nat, w: bv32): Regs
    requires t < 80
  {
    if t < 20 then Step(r, Ch(r.b, r.c, r.d), 0x5A827999, w)
    else if t < 40 then Step(r, Parity(r.b, r.c, r.d), 0x6ED9EBA1, w)
    else if t < 60 then Step(r, Maj(r.b, r.c, r.d), 0x8F1BBCDC, w)
    else Step(r, Parity(r.b, r.c, r.d), 0xCA62C1D6, w)
  }

  /** The registers after the first n steps of the compression loop. */
  function Rounds(r: Regs, w: seq<bv32>, n: nat): Regs
    requires |w| == 80 && n <= 80
  {
    if n == 0 then r else Round(Rounds(r, w, n - 1), n - 1, w[n - 1])
  }

  /** The processing of one 512-bit block (steps (a) to (e) of section 7). */
  function Compress(h: seq<bv32>, block: seq<bv8>): (h': seq<bv32>)
    requires |h| == 5 && |block| == 64
    ensures |h'| == 5
  {
    var r := Rounds(Regs(h[0], h[1], h[2], h[3], h[4]), Schedule(block, 80), 80);
    [Add(h[0], r.a), Add(h[1], r.b), Add(h[2], r.c), Add(h[3], r.d), Add(h[4], r.e)]
  }

  /** The intermediate hash after processing a whole number of blocks. */
  function HashBlocks(h: seq<bv32>, m: seq<bv8>): (h': seq<bv32>)
    requires |h| == 5 && |m| % 64 == 0
    ensures |h'| == 5
    decreases |m|
  {
    if m == [] then h else Compress(HashBlocks(h, m[..|m| - 64]), m[|m| - 64..])
  }

  /** n zero bytes. */
  function Zeros(n: nat): (z: seq<bv8>)
    ensures |z| == n && forall i :: 0 <= i < n ==> z[i] == 0
  {
    seq(n, _ => 0)
  }

  /** The last 64 bits of the padding: the bit length of an n-byte message, modulo 2^64, big-endian. */
  function LengthField(n: nat): (f: seq<bv8>)
    ensures |f| == 8
  {
    var bits := (8 * n) % (Two32 * Two32);
    BigEndianInt(bits / Two32) + BigEndianInt(bits % Two32)
  }

  /**
   * Message padding (section 4): a one bit (the byte 0x80), zero bytes up
   * to 56 mod 64, then the length field.
   */
  function Pad(m: seq<bv8>): (p: seq<bv8>)
    ensures |p| % 64 == 0 && |m| < |p| <= |m| + 72
  {
    PadLength(|m|);
    m + [0x80] + Zeros((55 - |m|) % 64) + LengthField(|m|)
  }

  /** The padding brings every message length to a multiple of 64 bytes. */
  lemma PadLength(n: nat)
    ensures (n + 9 + (55 - n) % 64) % 64 == 0
  {
    var q := (55 - n) / 64;
    assert 55 - n == 64 * q + (55 - n) % 64;
    assert n + 9 + (55 - n) % 64 == 64 * (1 - q);
  }

  /** The 160-bit digest: the five words of the final hash, big-endian. */
  function Digest(h: seq<bv32>): (d: seq<bv8>)
    requires |h| == 5
    ensures |d| == 20
  {
    BigEndian(h[0]) + BigEndian(h[1]) + BigEndian(h[2]) + BigEndian(h[3]) + BigEndian(h[4])
  }

  /** The SHA-1 message digest of a message of bytes. */
  function Sha1(m: seq<bv8>): (d: seq<bv8>)
    ensures |d| == 20
  {
    Digest(HashBlocks(H0, Pad(m)))
  }

  /** An array prefix one element longer (stated for any element type). */
  lemma SliceExtend<T>(a: array<T>, t: nat)
    requires t < a.Length
    ensures a[..t + 1] == a[..t] + [a[t]]
  {
  }

  /** Indexing into a concatenation of four parts (stated for any element type). */
  lemma {:induction false} ConcatParts<T>(a: seq<T>, x: T, z: seq<T>, l: seq<T>)
    ensures (a + [x] + z + l)[..|a|] == a && (a + [x] + z + l)[|a|] == x
    ensures forall i :: |a| < i <= |a| + |z| ==> (a + [x] + z + l)[i] == z[i - |a| - 1]
    ensures (a + [x] + z + l)[|a| + 1 + |z|..] == l
  {
    var s := a + [x] + z + l;
    assert s == a + ([x] + z + l);
    assert s[|a| + 1 + |z|..] == l by {
      assert s == (a + [x] + z) + l;
    }
  }

  /**
   * The padded message starts with the message, then the byte 0x80, then
   * zeros, and ends with the length field (see `LengthFieldWords`).
   */
  lemma PadShape(m: seq<bv8>)
    ensures Pad(m)[..|m|] == m && Pad(m)[|m|] == 0x80
    ensures forall i :: |m| < i < |Pad(m)| - 8 ==> Pad(m)[i] == 0
    ensures Pad(m)[|Pad(m)| - 8..] == LengthField(|m|)
  {
    ConcatParts(m, 0x80, Zeros((55 - |m|) % 64), LengthField(|m|));
  }

  /** Indexing into five concatenated four-element parts (stated for any element type). */
  lemma Concat5At<T>(p: seq<seq<T>>, q: nat, j: nat)
    requires |p| == 5 && (forall k :: 0 <= k < 5 ==> |p[k]| == 4) && q < 5 && j < 4
    ensures (p[0] + p[1] + p[2] + p[3] + p[4])[4 * q + j] == p[q][j]
  {
    if q == 0 {} else if q == 1 {} else if q == 2 {} else if q == 3 {} else {}
  }

  /** Byte j of the big-endian form of a word is the word's byte 3 - j. */
  lemma BigEndianAt(w: bv32, j: nat)
    requires j < 4
    ensures BigEndian(w)[j] == ByteOf(w, 3 - j)
  {
    if j == 0 {} else if j == 1 {} else if j == 2 {} else {}
  }

  /** The byte-indexed form of the digest that `sha1_result` writes: byte 4q + j is word q shifted right by 8(3 - j). */
  lemma DigestAt(h: seq<bv32>, q: nat, j: nat)
    requires |h| == 5 && q < 5 && j < 4
    ensures Digest(h)[4 * q + j] == ByteOf(h[q], 3 - j)
  {
    var p := [BigEndian(h[0]), BigEndian(h[1]), BigEndian(h[2]), BigEndian(h[3]), BigEndian(h[4])];
    Concat5At(p, q, j);
    BigEndianAt(h[q], j);
  }

  /** The compressed block is the old hash plus the registers after the 80 rounds. */
  lemma CompressFromRounds(h: seq<bv32>, block: seq<bv8>, r: Regs)
    requires |h| == 5 && |block| == 64
    requires r == Rounds(Regs(h[0], h[1], h[2], h[3], h[4]), Schedule(block, 80), 80)
    ensures Compress(h, block) == [Add(h[0], r.a), Add(h[1], r.b), Add(h[2], r.c), Add(h[3], r.d), Add(h[4], r.e)]
  {
  }

  /** Processing one more block extends the hash of the blocks before it. */
  lemma HashBlocksAppend(h: seq<bv32>, m: seq<bv8>, b: seq<bv8>)
    requires |h| == 5 && |m| % 64 == 0 && |b| == 64
    ensures HashBlocks(h, m + b) == Compress(HashBlocks(h, m), b)
  {
    assert (m + b)[..|m + b| - 64] == m;
    assert (m + b)[|m + b| - 64..] == b;
  }

  /**
   * The bit counters after one more byte: the low word wraps and carries
   * into the high word, and the high word wraps to 0 exactly when the
   * message reaches 2^61 bytes (2^64 bits).
   */
  lemma CounterStep(n: nat)
    requires n < Two61
    ensures (8 * (n + 1)) % Two32 == ((8 * n) % Two32 + 8) % Two32
    ensures (8 * (n + 1)) % Two32 != 0 ==> (8 * (n + 1)) / Two32 == (8 * n) / Two32 && n + 1 < Two61
    ensures (8 * (n + 1)) % Two32 == 0 && n + 1 < Two61 ==>
      ((8 * n) / Two32 + 1) % Two32 == (8 * (n + 1)) / Two32 && 0 < (8 * (n + 1)) / Two32 < Two32
    ensures (8 * (n + 1)) % Two32 == 0 && n + 1 == Two61 ==> ((8 * n) / Two32 + 1) % Two32 == 0
  {
    var q, r := (8 * n) / Two32, (8 * n) % Two32;
    assert 8 * n == q * Two32 + r;
    assert r % 8 == 0 by {
      assert Two32 == 8 * 0x2000_0000;
      assert 8 * n == 8 * (q * 0x2000_0000) + r;
    }
    assert q < Two32 by {
      assert 8 * n < Two32 * Two32;
    }
    if r + 8 == Two32 {
      assert 8 * (n + 1) == (q + 1) * Two32;
      if n + 1 == Two61 {
        assert q + 1 == Two32;
      } else {
        assert (q + 1) * Two32 < Two32 * Two32;
      }
    } else {
      assert 8 * (n + 1) == q * Two32 + (r + 8);
      assert 8 * n != Two32 * Two32 - 8;
    }
  }

  /** A five-element array as a sequence display (for any element type). */
  lemma Elements5<T>(a: array<T>)
    requires a.Length == 5
    ensures a[..] == [a[0], a[1], a[2], a[3], a[4]]
  {
  }

  /** The whole of an array is its longest prefix (for any element type). */
  lemma ArrayPrefix<T>(a: array<T>)
    ensures a[..] == a[..a.Length]
  {
  }

  /** The whole of a sequence is its longest prefix (for any element type). */
  lemma SeqPrefix<T>(s: seq<T>)
    ensures s[..|s|] == s
  {
  }

  /** A sequence prefix one element longer (for any element type). */
  lemma SeqExtend<T>(s: seq<T>, i: nat)
    requires i < |s|
    ensures s[..i + 1] == s[..i] + [s[i]]
  {
  }

  /** Appending one element to a sequence keeps its prefixes and extends its suffixes (for any element type). */
  lemma AppendOne<T>(s: seq<T>, x: T, d: nat)
    requires d <= |s|
    ensures (s + [x])[..d] == s[..d] && (s + [x])[d..] == s[d..] + [x]
  {
  }

  /** A sequence is its prefix followed by its suffix (for any element type). */
  lemma SplitAt<T>(s: seq<T>, d: nat)
    requires d <= |s|
    ensures s[..d] + s[d..] == s
  {
  }

  lemma ZerosExtend(n: nat)
    ensures Zeros(n + 1) == Zeros(n) + [0]
  {
  }

  /** The padding of a message whose last partial block has room for the length field (at most 55 bytes). */
  lemma PadOneBlock(m: seq<bv8>, D: nat, body: seq<bv8>)
    requires D <= |m| && D % 64 == 0 && |m| - D <= 55
    requires body == m[D..] + [0x80] + Zeros(55 - (|m| - D))
    ensures m[..D] + body + LengthField(|m|) == Pad(m)
  {
    assert (55 - |m|) % 64 == 55 - (|m| - D);
    SplitAt(m, D);
  }

  /** The padding of a message whose last partial block has no room for the length field: a second block follows. */
  lemma PadTwoBlocks(m: seq<bv8>, D: nat, b1: seq<bv8>, body: seq<bv8>)
    requires D <= |m| && D % 64 == 0 && 56 <= |m| - D < 64
    requires b1 == m[D..] + [0x80] + Zeros(63 - (|m| - D)) && body == Zeros(56)
    ensures m[..D] + b1 + body + LengthField(|m|) == Pad(m)
  {
    assert (55 - |m|) % 64 == 119 - (|m| - D);
    assert Zeros(63 - (|m| - D)) + Zeros(56) == Zeros(119 - (|m| - D));
    SplitAt(m, D);
  }

  /**
   * The buffering part of the state invariant, stated over values: `msg`
   * is the message input so far, whose last `index` bytes (the partial
   * block) wait at the front of `blk`, and the two counters hold its bit
   * length.
   */
  ghost predicate Buffered(msg: seq<bv8>, index: int, blk: seq<bv8>, low: int, high: int)
  {
    && |blk| == 64
    && |msg| < Two61
    && 0 <= index < 64 && index <= |msg| && |msg| % 64 == index
    && blk[..index] == msg[|msg| - index..]
    && low == (8 * |msg|) % Two32
    && high == (8 * |msg|) / Two32
  }

  /** The state invariant of a context: the whole blocks of the message are compressed into `h`. */
  ghost predicate Inv(msg: seq<bv8>, index: int, blk: seq<bv8>, h: seq<bv32>, low: int, high: int)
  {
    |h| == 5 && Buffered(msg, index, blk, low, high) &&
    (BlockPosition(|msg|, index); h == HashBlocks(H0, msg[..|msg| - index]))
  }

  /**
   * One byte of `sha1_input`: store it and count 8 more bits with carry
   * into the high word.  The counters overflow exactly when the message
   * reaches 2^61 bytes; otherwise the buffer holds the longer message, a
   * full block once it has 64 bytes, and the bytes already compressed are
   * unchanged.
   */
  lemma InputStep(msg: seq<bv8>, index: int, blk: seq<bv8>, low: int, high: int, x: bv8)
    requires Buffered(msg, index, blk, low, high)
    ensures var low' := (low + 8) % Two32;
            var high' := if low' == 0 then (high + 1) % Two32 else high;
            && (low' == 0 && high' == 0 <==> |msg| + 1 == Two61)
            && (msg + [x])[..|msg| - index] == msg[..|msg| - index]
            && (|msg| + 1 < Two61 && index + 1 < 64 ==> Buffered(msg + [x], index + 1, blk[index := x], low', high'))
            && (|msg| + 1 < Two61 && index + 1 == 64 ==> Buffered(msg + [x], 0, blk[index := x], low', high'))
  {
    CounterStep(|msg|);
    BlockPosition(|msg|, index);
    StoreByte(msg, blk, |msg| - index, index, x);
  }

  /** When the 64th byte of a block arrives, compressing the block extends the hash to the whole message. */
  lemma FullBlock(msg: seq<bv8>, blk: seq<bv8>, low: int, high: int, x: bv8)
    requires Buffered(msg, 63, blk, low, high)
    ensures HashBlocks(H0, msg + [x]) == Compress(HashBlocks(H0, msg[..|msg| - 63]), blk[63 := x])
  {
    var D := |msg| - 63;
    BlockPosition(|msg|, 63);
    StoreByte(msg, blk, D, 63, x);
    HashBlocksAppend(H0, msg[..D], (msg + [x])[D..]);
    SplitAt(msg + [x], D);
  }

  /** The state invariant after one byte of `sha1_input` that did not overflow the counters. */
  lemma InputByteInv(msg: seq<bv8>, index: int, blk: seq<bv8>, h: seq<bv32>, low: int, high: int, x: bv8,
                     index': int, blk': seq<bv8>, h': seq<bv32>, low': int, high': int)
    requires Inv(msg, index, blk, h, low, high)
    requires low' == (low + 8) % Two32 && high' == (if low' == 0 then (high + 1) % Two32 else high)
    requires !(low' == 0 && high' == 0)
    requires blk' == blk[index := x]
    requires index + 1 < 64 ==> index' == index + 1 && h' == h
    requires index + 1 == 64 ==> index' == 0 && h' == Compress(h, blk')
    ensures Inv(msg + [x], index', blk', h', low', high')
  {
    InputStep(msg, index, blk, low, high, x);
    if index + 1 == 64 {
      FullBlock(msg, blk, low, high, x);
      SeqPrefix(msg + [x]);
    }
  }

  /** The position of the next byte in its block. */
  lemma BlockPosition(n: nat, index: int)
    requires 0 <= index < 64 && n % 64 == index
    ensures index <= n && (n - index) % 64 == 0 && (n - index + 64) % 64 == 0
    ensures index + 1 < 64 ==> (n + 1) % 64 == index + 1
    ensures index + 1 == 64 ==> (n + 1) % 64 == 0
  {
  }

  /**
   * Storing one element at the end of a partial block that mirrors the
   * tail of a sequence keeps the mirror for the extended sequence (for
   * any element type).
   */
  lemma StoreByte<T>(msg: seq<T>, blk: seq<T>, D: nat, index: nat, x: T)
    requires D + index == |msg| && index < |blk| && blk[..index] == msg[D..]
    ensures (msg + [x])[..D] == msg[..D]
    ensures blk[index := x][..index + 1] == (msg + [x])[D..]
    ensures index + 1 == |blk| ==> blk[index := x] == (msg + [x])[D..]
  {
    AppendOne(msg, x, D);
    assert blk[index := x][..index + 1] == blk[..index] + [x];
  }

  /** The length field of a message shorter than 2^61 bytes is its bit length as two big-endian words. */
  lemma LengthFieldWords(n: nat)
    requires n < Two61
    ensures LengthField(n) == BigEndianInt((8 * n) / Two32) + BigEndianInt((8 * n) % Two32)
  {
    assert (8 * n) % (Two32 * Two32) == 8 * n;
  }

  /** Regrouping the last block of a padded message: the body followed by the two halves of the length field. */
  lemma LastBlock<T>(pre: seq<T>, body: seq<T>, hi: seq<T>, lo: seq<T>)
    ensures pre + body + (hi + lo) == pre + (body + hi + lo)
  {
  }

  /** The last block of the padded message: its hash is the compression of that block into the hash of the blocks before it. */
  lemma PadLast(m: seq<bv8>, pre: seq<bv8>, body: seq<bv8>, last: seq<bv8>)
    requires |m| < Two61 && |pre| % 64 == 0 && |body| == 56
    requires pre + body + LengthField(|m|) == Pad(m)
    requires last == body + BigEndianInt((8 * |m|) / Two32) + BigEndianInt((8 * |m|) % Two32)
    ensures |last| == 64 && HashBlocks(H0, Pad(m)) == Compress(HashBlocks(H0, pre), last)
  {
    LengthFieldWords(|m|);
    LastBlock(pre, body, BigEndianInt((8 * |m|) / Two32), BigEndianInt((8 * |m|) % Two32));
    HashBlocksAppend(H0, pre, last);
  }

  /**
   * The hash computed by `SHA1PadMessage`: from the state invariant, the
   * block (if any) processed before the length field and the last block
   * holding the length field, the hash is that of the padded message.
   */
  lemma PadMessageHash(m: seq<bv8>, index: int, blk: seq<bv8>, h0: seq<bv32>, low: int, high: int,
                       extra: seq<bv8>, h1: seq<bv32>, body: seq<bv8>, last: seq<bv8>)
    requires Inv(m, index, blk, h0, low, high)
    requires index <= 55 ==> extra == [] && h1 == h0 && body == blk[..index] + [0x80] + Zeros(55 - index)
    requires index > 55 ==> extra == blk[..index] + [0x80] + Zeros(63 - index) && h1 == Compress(h0, extra) && body == Zeros(56)
    requires last == body + BigEndianInt(high) + BigEndianInt(low)
    ensures |last| == 64 && Compress(h1, last) == HashBlocks(H0, Pad(m))
  {
    if index > 55 {
      PadTwoHash(m, index, blk, h0, extra, h1, body, last);
    } else {
      PadOneHash(m, index, blk, h0, body, last);
    }
  }

  /** `PadMessageHash` when the length field fits after the message in the buffered block. */
  lemma PadOneHash(m: seq<bv8>, index: int, blk: seq<bv8>, h0: seq<bv32>, body: seq<bv8>, last: seq<bv8>)
    requires Inv(m, index, blk, h0, (8 * |m|) % Two32, (8 * |m|) / Two32) && index <= 55
    requires body == blk[..index] + [0x80] + Zeros(55 - index)
    requires last == body + BigEndianInt((8 * |m|) / Two32) + BigEndianInt((8 * |m|) % Two32)
    ensures |last| == 64 && Compress(h0, last) == HashBlocks(H0, Pad(m))
  {
    var D := |m| - index;
    BlockPosition(|m|, index);
    PadOneBlock(m, D, body);
    PadLast(m, m[..D], body, last);
  }

  /** `PadMessageHash` when the length field needs a block of its own. */
  lemma PadTwoHash(m: seq<bv8>, index: int, blk: seq<bv8>, h0: seq<bv32>, extra: seq<bv8>, h1: seq<bv32>,
                   body: seq<bv8>, last: seq<bv8>)
    requires Inv(m, index, blk, h0, (8 * |m|) % Two32, (8 * |m|) / Two32) && index > 55
    requires extra == blk[..index] + [0x80] + Zeros(63 - index) && h1 == Compress(h0, extra) && body == Zeros(56)
    requires last == body + BigEndianInt((8 * |m|) / Two32) + BigEndianInt((8 * |m|) % Two32)
    ensures |last| == 64 && Compress(h1, last) == HashBlocks(H0, Pad(m))
  {
    var D := |m| - index;
    BlockPosition(|m|, index);
    PadTwoBlocks(m, D, extra, body);
    HashBlocksAppend(H0, m[..D], extra);
    PadLast(m, m[..D] + extra, body, last);
  }

  /** The last eight bytes of a block, written one by one after the first 56. */
  lemma Split56<T>(a: array<T>, body: seq<T>, t0: T, t1: T, t2: T, t3: T, t4: T, t5: T, t6: T, t7: T)
    requires a.Length == 64 && a[..56] == body
    requires a[56] == t0 && a[57] == t1 && a[58] == t2 && a[59] == t3
    requires a[60] == t4 && a[61] == t5 && a[62] == t6 && a[63] == t7
    ensures a[..] == body + [t0, t1, t2, t3] + [t4, t5, t6, t7]
  {
    assert a[..] == a[..56] + a[56..];
    assert a[56..] == [t0, t1, t2, t3] + [t4, t5, t6, t7];
  }

  /**
   * The `Sha1Context` structure: the intermediate hash, the 64-bit bit
   * count as two words, and the partial block.  The ghost `msg` is the
   * message input so far.
   */
  class Sha1Context {
    const H: array<bv32>     // Intermediate_Hash
    var lengthLow: int       // Length_Low, an unsigned 32-bit counter
    var lengthHigh: int      // Length_High, an unsigned 32-bit counter
    var index: int           // Message_Block_Index
    const block: array<bv8>  // message_block

    ghost var msg: seq<bv8>

    /** The context holds a valid state for a message shorter than 2^64 bits. */
    ghost predicate Valid()
      reads this, H, block
    {
      H.Length == 5 && block.Length == 64 && Inv(msg, index, block[..], H[..], lengthLow, lengthHigh)
    }

    /** A context with fresh storage, reset as `sha1_reset` does. */
    constructor ()
      ensures Valid() && msg == []
      ensures fresh(H) && fresh(block)
    {
      H := new bv32[5];
      block := new bv8[64];
      new;
      Reset();
    }

    /** `sha1_reset`: start a new message. */
    method Reset()
      requires H.Length == 5 && block.Length == 64
      modifies this, H
      ensures Valid() && msg == []
    {
      lengthLow := 0;
      lengthHigh := 0;
      index := 0;
      H[0], H[1], H[2], H[3], H[4] := 0x67452301, 0xEFCDAB89, 0x98BADCFE, 0x10325476, 0xC3D2E1F0;
      msg := [];
      assert H[..] == H0;
    }

    /** Steps (a) and (b) of section 7: the 80-word message schedule of a block. */
    static method MessageSchedule(block: array<bv8>) returns (W: array<bv32>)
      requires block.Length == 64
      ensures fresh(W) && W[..] == Schedule(block[..], 80)
    {
      ghost var b := block[..];
      W := new bv32[80];
      var t := 0;
      while t < 16
        invariant 0 <= t <= 16
        invariant W[..t] == Schedule(b, t)
      {
        W[t] := WordOf(block[t * 4], block[t * 4 + 1], block[t * 4 + 2], block[t * 4 + 3]);
        SliceExtend(W, t);
        t := t + 1;
      }
      while t < 80
        invariant 16 <= t <= 80
        invariant W[..t] == Schedule(b, t)
      {
        W[t] := Expand(W[t - 3], W[t - 8], W[t - 14], W[t - 16]);
        SliceExtend(W, t);
        t := t + 1;
      }
      assert W[..] == W[..80];
    }

    /** Step (c) and the four loops of step (d) of section 7: the 80 rounds over the working registers. */
    static method CompressionLoop(W: array<bv32>, a: bv32, b: bv32, c: bv32, d: bv32, e: bv32)
      returns (A: bv32, B: bv32, C: bv32, D: bv32, E: bv32)
      requires W.Length == 80
      ensures Regs(A, B, C, D, E) == Rounds(Regs(a, b, c, d, e), W[..], 80)
    {
      ghost var init := Regs(a, b, c, d, e);
      A, B, C, D, E := a, b, c, d, e;
      var t := 0;
      while t < 20
        invariant 0 <= t <= 20
        invariant Regs(A, B, C, D, E) == Rounds(init, W[..], t)
      {
        var temp := Add5(RotL(A, 5), Ch(B, C, D), E, W[t], 0x5A827999);
        E := D;
        D := C;
        C := RotL(B, 30);
        B := A;
        A := temp;
        t := t + 1;
      }
      while t < 40
        invariant 20 <= t <= 40
        invariant Regs(A, B, C, D, E) == Rounds(init, W[..], t)
      {
        var temp := Add5(RotL(A, 5), Parity(B, C, D), E, W[t], 0x6ED9EBA1);
        E := D;
        D := C;
        C := RotL(B, 30);
        B := A;
        A := temp;
        t := t + 1;
      }
      while t < 60
        invariant 40 <= t <= 60
        invariant Regs(A, B, C, D, E) == Rounds(init, W[..], t)
      {
        var temp := Add5(RotL(A, 5), Maj(B, C, D), E, W[t], 0x8F1BBCDC);
        E := D;
        D := C;
        C := RotL(B, 30);
        B := A;
        A := temp;
        t := t + 1;
      }
      while t < 80
        invariant 60 <= t <= 80
        invariant Regs(A, B, C, D, E) == Rounds(init, W[..], t)
      {
        var temp := Add5(RotL(A, 5), Parity(B, C, D), E, W[t], 0xCA62C1D6);
        E := D;
        D := C;
        C := RotL(B, 30);
        B := A;
        A := temp;
        t := t + 1;
      }
    }

    /** `SHA1ProcessMessageBlock`: compress the full block into the intermediate hash. */
    method ProcessMessageBlock()
      requires H.Length == 5 && block.Length == 64
      modifies this`index, H
      ensures H[..] == Compress(old(H[..]), old(block[..]))
      ensures index == 0
    {
      var W := MessageSchedule(block);
      var A, B, C, D, E := CompressionLoop(W, H[0], H[1], H[2], H[3], H[4]);
      CompressFromRounds(H[..], block[..], Regs(A, B, C, D, E));
      AddWords(H, A, B, C, D, E);
      index := 0;
    }

    /** The last step of the compression: add the working variables into the intermediate hash. */
    static method AddWords(H: array<bv32>, A: bv32, B: bv32, C: bv32, D: bv32, E: bv32)
      requires H.Length == 5
      modifies H
      ensures H[..] == [Add(old(H[0]), A), Add(old(H[1]), B), Add(old(H[2]), C), Add(old(H[3]), D), Add(old(H[4]), E)]
    {
      H[0] := Add(H[0], A);
      H[1] := Add(H[1], B);
      H[2] := Add(H[2], C);
      H[3] := Add(H[3], D);
      H[4] := Add(H[4], E);
      Elements5(H);
    }

    /**
     * `sha1_input`: append bytes to the message.  The error result is
     * raised exactly when the bit count reaches 2^64.  The counters have then
     * wrapped to 0 and the context can still be used, but its length no
     * longer counts the message, which `Valid` cannot describe; the model
     * states nothing about that state.
     */
    method Input(bytes: seq<bv8>) returns (err: bool)
      requires Valid()
      modifies this, H, block
      ensures err <==> |old(msg)| + |bytes| >= Two61
      ensures !err ==> Valid() && msg == old(msg) + bytes
    {
      err := false;
      var j := 0;
      while j < |bytes| && !err
        invariant 0 <= j <= |bytes|
        invariant !err ==> Valid() && msg == old(msg) + bytes[..j]
        invariant err ==> |old(msg)| + j == Two61
        decreases |bytes| - j
      {
        err := InputByte(bytes[j]);
        j := j + 1;
        assert bytes[..j] == bytes[..j - 1] + [bytes[j - 1]];
      }
    }

    /**
     * The body of the loop of `sha1_input`: store one byte, count 8 more
     * bits with carry into the high word, and compress the block once it
     * is full.
     */
    method InputByte(x: bv8) returns (err: bool)
      requires Valid()
      modifies this, H, block
      ensures err <==> |old(msg)| + 1 == Two61
      ensures !err ==> Valid() && msg == old(msg) + [x]
    {
      ghost var m, blk, h, r, low, high := msg, block[..], H[..], index, lengthLow, lengthHigh;
      InputStep(m, r, blk, low, high, x);
      block[index] := x;
      index := index + 1;
      msg := msg + [x];
      err := CountBits();
      if index == 64 {
        ProcessMessageBlock();
      }
      if !err {
        InputByteInv(m, r, blk, h, low, high, x, index, block[..], H[..], lengthLow, lengthHigh);
      }
    }

    /** Count 8 more message bits in the two 32-bit words, with carry; an error when both wrap to zero. */
    method CountBits() returns (err: bool)
      modifies this`lengthLow, this`lengthHigh
      ensures lengthLow == (old(lengthLow) + 8) % Two32
      ensures lengthHigh == if lengthLow == 0 then (old(lengthHigh) + 1) % Two32 else old(lengthHigh)
      ensures err <==> lengthLow == 0 && lengthHigh == 0
    {
      lengthLow := (lengthLow + 8) % Two32;
      err := false;
      if lengthLow == 0 {
        lengthHigh := (lengthHigh + 1) % Two32;
        err := lengthHigh == 0;
      }
    }

    /** `SHA1PadMessage`: pad the message and process the last block (or two). */
    method PadMessage()
      requires Valid()
      modifies this`index, H, block
      ensures H[..] == HashBlocks(H0, Pad(msg)) && index == 0
    {
      ghost var r, blk, h0 := index, block[..], H[..];
      ghost var extra := PadBeforeLength();
      ghost var body := block[..56];
      StoreLength(block, lengthHigh, lengthLow);
      ghost var h1 := H[..];
      PadMessageHash(msg, r, blk, h0, lengthLow, lengthHigh, extra, h1, body, block[..]);
      ProcessMessageBlock();
    }

    /**
     * The first part of `SHA1PadMessage`: the 0x80 byte and zero bytes up to
     * the length field, which takes the last 8 bytes of a block.  When fewer
     * than 9 bytes of the block are left, that block is filled with zeros
     * and processed first; `extra` is that block.
     */
    method PadBeforeLength() returns (ghost extra: seq<bv8>)
      requires H.Length == 5 && block.Length == 64 && 0 <= index < 64
      modifies this`index, H, block
      ensures index == 56
      ensures old(index) <= 55 ==>
        && extra == [] && H[..] == old(H[..])
        && block[..56] == old(block[..index]) + [0x80] + Zeros(55 - old(index))
      ensures old(index) > 55 ==>
        && extra == old(block[..index]) + [0x80] + Zeros(63 - old(index))
        && H[..] == Compress(old(H[..]), extra)
        && block[..56] == Zeros(56)
    {
      if index > 55 {
        block[index] := 0x80;
        SliceExtend(block, index);
        index := index + 1;
        ZeroFill(64);
        extra := block[..];
        ArrayPrefix(block);
        ProcessMessageBlock();
        ZeroFill(56);
      } else {
        extra := [];
        block[index] := 0x80;
        SliceExtend(block, index);
        index := index + 1;
        ZeroFill(56);
      }
    }

    /** The zero-filling loops of `SHA1PadMessage`: the bytes from the index up to `to` become 0. */
    method ZeroFill(to: int)
      requires block.Length == 64 && 0 <= index <= to <= 64
      modifies this`index, block
      ensures index == to
      ensures block[..to] == old(block[..index]) + Zeros(to - old(index))
    {
      ghost var start, prefix := index, block[..index];
      while index < to
        invariant start <= index <= to
        invariant block[..index] == prefix + Zeros(index - start)
      {
        block[index] := 0;
        SliceExtend(block, index);
        ZerosExtend(index - start);
        index := index + 1;
      }
    }

    /** The end of `SHA1PadMessage`: store the 64-bit bit length, big-endian, as the last 8 bytes of the block. */
    static method StoreLength(block: array<bv8>, high: int, low: int)
      requires block.Length == 64 && 0 <= high < Two32 && 0 <= low < Two32
      modifies block
      ensures block[..] == old(block[..56]) + BigEndianInt(high) + BigEndianInt(low)
    {
      ghost var body := block[..56];
      block[56] := ByteOfInt(high, 3);
      block[57] := ByteOfInt(high, 2);
      block[58] := ByteOfInt(high, 1);
      block[59] := ByteOfInt(high, 0);
      block[60] := ByteOfInt(low, 3);
      block[61] := ByteOfInt(low, 2);
      block[62] := ByteOfInt(low, 1);
      block[63] := ByteOfInt(low, 0);
      Split56(block, body, ByteOfInt(high, 3), ByteOfInt(high, 2), ByteOfInt(high, 1), ByteOfInt(high, 0),
              ByteOfInt(low, 3), ByteOfInt(low, 2), ByteOfInt(low, 1), ByteOfInt(low, 0));
    }

    /**
     * `sha1_result`: finish the message and write its 20-byte digest; the
     * partial block and the length counters are cleared, and the hash words
     * are left holding the final hash with no byte buffered.
     */
    method Result(digest: array<bv8>)
      requires Valid() && digest.Length == 20 && digest != block
      modifies this, H, block, digest
      ensures digest[..] == Sha1(old(msg))
      ensures block[..] == Zeros(64) && lengthLow == 0 && lengthHigh == 0
      ensures H[..] == HashBlocks(H0, Pad(old(msg))) && index == 0
    {
      PadMessage();
      ClearBlock(block);
      lengthLow := 0;
      lengthHigh := 0;
      WriteDigest(H, digest);
    }

    /** The first loop of `sha1_result`: clear the (possibly sensitive) message block. */
    static method ClearBlock(block: array<bv8>)
      modifies block
      ensures block[..] == Zeros(block.Length)
    {
      var i := 0;
      while i < block.Length
        invariant 0 <= i <= block.Length
        invariant block[..i] == Zeros(i)
      {
        block[i] := 0;
        SliceExtend(block, i);
        i := i + 1;
      }
      ArrayPrefix(block);
    }

    /** The second loop of `sha1_result`: byte i of the digest is word i/4 shifted right by 8(3 - i mod 4). */
    static method WriteDigest(H: array<bv32>, digest: array<bv8>)
      requires H.Length == 5 && digest.Length == 20
      modifies digest
      ensures digest[..] == Digest(H[..])
    {
      ghost var d := Digest(H[..]);
      var i := 0;
      while i < 20
        invariant 0 <= i <= 20
        invariant digest[..i] == d[..i]
      {
        digest[i] := ByteOf(H[i / 4], 3 - i % 4);
        DigestAt(H[..], i / 4, i % 4);
        SliceExtend(digest, i);
        SeqExtend(d, i);
        i := i + 1;
      }
      ArrayPrefix(digest);
      SeqPrefix(d);
    }
  }
}
