/** SHA-256 (FIPS 180-4) and HMAC (RFC 2104) as functions of whole messages. */
module Sha256Spec {
  import opened Common

  type Word = bv32

  /** The constants of section 4.2.2, sixteen at a time. */
  const K0: seq<Word> := [
    0x428a2f98, 0x71374491, 0xb5c0fbcf, 0xe9b5dba5, 0x3956c25b, 0x59f111f1, 0x923f82a4, 0xab1c5ed5,
    0xd807aa98, 0x12835b01, 0x243185be, 0x550c7dc3, 0x72be5d74, 0x80deb1fe, 0x9bdc06a7, 0xc19bf174]

  const K1: seq<Word> := [
    0xe49b69c1, 0xefbe4786, 0x0fc19dc6, 0x240ca1cc, 0x2de92c6f, 0x4a7484aa, 0x5cb0a9dc, 0x76f988da,
    0x983e5152, 0xa831c66d, 0xb00327c8, 0xbf597fc7, 0xc6e00bf3, 0xd5a79147, 0x06ca6351, 0x14292967]

  const K2: seq<Word> := [
    0x27b70a85, 0x2e1b2138, 0x4d2c6dfc, 0x53380d13, 0x650a7354, 0x766a0abb, 0x81c2c92e, 0x92722c85,
    0xa2bfe8a1, 0xa81a664b, 0xc24b8b70, 0xc76c51a3, 0xd192e819, 0xd6990624, 0xf40e3585, 0x106aa070]

  const K3: seq<Word> := [
    0x19a4c116, 0x1e376c08, 0x2748774c, 0x34b0bcb5, 0x391c0cb3, 0x4ed8aa4a, 0x5b9cca4f, 0x682e6ff3,
    0x748f82ee, 0x78a5636f, 0x84c87814, 0x8cc70208, 0x90befffa, 0xa4506ceb, 0xbef9a3f7, 0xc67178f2]

  const K: seq<Word> := K0 + K1 + K2 + K3

  lemma KAt(t: nat)
    requires t < 64
    ensures |K| == 64
    ensures K[t] == if t < 16 then K0[t] else if t < 32 then K1[t - 16] else if t < 48 then K2[t - 32] else K3[t - 48]
  {
  }

  /** Eight words: a hash value, or the working variables of the compression. */
  datatype Words = Words(a: Word, b: Word, c: Word, d: Word, e: Word, f: Word, g: Word, h: Word)

  const INITIAL: Words := Words(
    0x6a09e667, 0xbb67ae85, 0x3c6ef372, 0xa54ff53a, 0x510e527f, 0x9b05688c, 0x1f83d9ab, 0x5be0cd19)

  // ------------------------------------------ section 4.1.2 of FIPS 180-4

  /** Addition modulo 2 to the 32. */
  function Add(x: Word, y: Word): Word {
    x + y
  }

  function Rotr(x: Word, n: Word): Word
    requires 0 < n < 32
  {
    (x >> n) | (x << (32 - n))
  }

  function Shr(x: Word, n: Word): Word
    requires n < 32
  {
    x >> n
  }

  function Ch(x: Word, y: Word, z: Word): Word {
    (x & y) ^ (!x & z)
  }

  function Maj(x: Word, y: Word, z: Word): Word {
    (x & y) ^ (x & z) ^ (y & z)
  }

  function BigSigma0(x: Word): Word {
    Rotr(x, 2) ^ Rotr(x, 13) ^ Rotr(x, 22)
  }

  function BigSigma1(x: Word): Word {
    Rotr(x, 6) ^ Rotr(x, 11) ^ Rotr(x, 25)
  }

  function SmallSigma0(x: Word): Word {
    Rotr(x, 7) ^ Rotr(x, 18) ^ Shr(x, 3)
  }

  function SmallSigma1(x: Word): Word {
    Rotr(x, 17) ^ Rotr(x, 19) ^ Shr(x, 10)
  }

  // ---------------------------------------------- section 6.2.2: one block

  type Block = b: Bytes | |b| == 64 witness seq(64, _ => 0)

  /** Four octets as a word, most significant first. */
  function ToWord(b0: byte, b1: byte, b2: byte, b3: byte): Word {
    Pack(b0 as Word, b1 as Word, b2 as Word, b3 as Word)
  }

  function Pack(a: Word, b: Word, c: Word, d: Word): Word {
    (a << 24) | (b << 16) | (c << 8) | d
  }

  /** The message schedule, word `t`. */
  function W(m: Block, t: nat): Word {
    if t < 16 then ToWord(m[4 * t], m[4 * t + 1], m[4 * t + 2], m[4 * t + 3])
    else Add(Add(Add(W(m, t - 16), SmallSigma0(W(m, t - 15))), W(m, t - 7)), SmallSigma1(W(m, t - 2)))
  }

  lemma WordOfBlock(m: Block, t: nat)
    requires t < 16
    ensures W(m, t) == ToWord(m[4 * t], m[4 * t + 1], m[4 * t + 2], m[4 * t + 3])
  {
  }

  lemma WordOfEarlier(m: Block, t: nat)
    requires t >= 16
    ensures W(m, t) == Add(Add(Add(W(m, t - 16), SmallSigma0(W(m, t - 15))), W(m, t - 7)), SmallSigma1(W(m, t - 2)))
  {
    hide Add, SmallSigma0, SmallSigma1;
  }

  function Round(v: Words, k: Word, w: Word): Words {
    var t1 := Add(Add(Add(Add(v.h, BigSigma1(v.e)), Ch(v.e, v.f, v.g)), k), w);
    var t2 := Add(BigSigma0(v.a), Maj(v.a, v.b, v.c));
    Words(Add(t1, t2), v.a, v.b, v.c, Add(v.d, t1), v.e, v.f, v.g)
  }

  /** The working variables after `t` rounds. */
  function Rounds(h: Words, m: Block, t: nat): Words
    requires t <= 64
  {
    if t == 0 then h else Round(Rounds(h, m, t - 1), K[t - 1], W(m, t - 1))
  }

  function Sum(x: Words, y: Words): Words {
    Words(Add(x.a, y.a), Add(x.b, y.b), Add(x.c, y.c), Add(x.d, y.d),
          Add(x.e, y.e), Add(x.f, y.f), Add(x.g, y.g), Add(x.h, y.h))
  }

  function Compress(h: Words, m: Block): Words {
    Sum(h, Rounds(h, m, 64))
  }

  lemma DropBlock(n: nat)
    requires n > 0 && n % 64 == 0
    ensures n >= 64 && (n - 64) % 64 == 0
  {
  }

  /** The hash value after the blocks of `s`, in order. */
  function Absorb(h: Words, s: Bytes): Words
    requires |s| % 64 == 0
    decreases |s|
  {
    if s == [] then h else
    DropBlock(|s|);
    Absorb(Compress(h, s[..64]), s[64..])
  }

  // ------------------------------------------------ section 5.1.1: padding

  /** How many zero octets follow the octet 0x80. */
  function ZeroCount(len: nat): (k: nat)
    ensures k < 64 && (len + 1 + k) % 64 == 56
  {
    if len % 64 <= 55 then 55 - len % 64 else 119 - len % 64
  }

  function Padding(len: nat): (r: Bytes)
    ensures (len + |r|) % 64 == 0
  {
    PaddingFills(len);
    [0x80] + Zeros(ZeroCount(len)) + ToBigEndian(8 * len, 8)
  }

  function Zeros(n: nat): (r: Bytes)
    ensures |r| == n
  {
    seq(n, _ => 0)
  }

  lemma PaddingFills(len: nat)
    ensures (len + (1 + ZeroCount(len) + 8)) % 64 == 0
  {
    var x := len + 1 + ZeroCount(len);
    assert x == 64 * (x / 64) + 56;
  }

  function WordBytes(x: Word): (r: Bytes)
    ensures |r| == 4
  {
    [((x >> 24) & 0xFF) as int, ((x >> 16) & 0xFF) as int, ((x >> 8) & 0xFF) as int, (x & 0xFF) as int]
  }

  function WordAt(h: Words, i: nat): Word
    requires i < 8
  {
    if i == 0 then h.a else if i == 1 then h.b else if i == 2 then h.c else if i == 3 then h.d
    else if i == 4 then h.e else if i == 5 then h.f else if i == 6 then h.g else h.h
  }

  /** The octets of the first `n` words. */
  function WordsBytes(h: Words, n: nat): (r: Bytes)
    requires n <= 8
    ensures |r| == 4 * n
  {
    if n == 0 then [] else WordsBytes(h, n - 1) + WordBytes(WordAt(h, n - 1))
  }

  lemma WordsBytesStep(h: Words, i: nat)
    requires i < 8
    ensures WordsBytes(h, i + 1) == WordsBytes(h, i) + WordBytes(WordAt(h, i))
  {
  }

  function Digest(h: Words): (r: Bytes)
    ensures |r| == 32
  {
    WordsBytes(h, 8)
  }

  /** SHA-256 of a whole message; the standard defines it below 2 to the 64 bits. */
  function Sha256(m: Bytes): (r: Bytes)
    ensures |r| == 32
  {
    Digest(Absorb(INITIAL, m + Padding(|m|)))
  }

  lemma AbsorbNone(h: Words)
    ensures Absorb(h, []) == h
  {
    hide Compress;
  }

  lemma {:induction false} AbsorbConcat(h: Words, s: Bytes, t: Bytes)
    requires |s| % 64 == 0 && |t| % 64 == 0 && |s + t| % 64 == 0
    ensures Absorb(h, s + t) == Absorb(Absorb(h, s), t)
    decreases |s|
  {
    hide Compress;
    if s == [] {
      assert s + t == t;
    } else {
      assert (s + t)[..64] == s[..64] && (s + t)[64..] == s[64..] + t;
      AbsorbConcat(Compress(h, s[..64]), s[64..], t);
    }
  }

  // --------------------------------------------- section 2 of RFC 2104

  function XorWith(s: Bytes, b: byte): (r: Bytes)
    ensures |r| == |s|
  {
    seq(|s|, i requires 0 <= i < |s| => Xor(s[i], b))
  }

  /** The key, hashed first if longer than a block, then filled with zeros to a block. */
  function KeyBlock(key: Bytes): Block {
    var k := if |key| > 64 then Sha256(key) else key;
    k + Zeros(64 - |k|)
  }

  function Hmac(key: Bytes, text: Bytes): Bytes {
    Sha256(XorWith(KeyBlock(key), 0x5C) + Sha256(XorWith(KeyBlock(key), 0x36) + text))
  }
}
