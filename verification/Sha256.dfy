/** The incremental hasher, and HMAC over it. */
module Sha256Engine {
  import opened Common
  import opened Sha256Spec

  /** `bits` is the length of `len` octets in bits, as a 64-bit count. */
  ghost predicate Counted(bits: nat, len: nat) {
    bits == 8 * len % TWO_TO_THE_64
  }

  function AddBits(bits: nat, octets: int): nat {
    (bits + 8 * octets) % TWO_TO_THE_64
  }

  /** Whole blocks of `msg` are in the hash value, the rest is `buffered`. */
  ghost predicate StandsFor(buffered: Bytes, hash: Words, msg: Bytes) {
    && |buffered| <= |msg| && (|msg| - |buffered|) % 64 == 0
    && buffered == msg[|msg| - |buffered|..]
    && hash == Absorb(INITIAL, msg[..|msg| - |buffered|])
  }

  lemma StandsForNothing()
    ensures StandsFor([], INITIAL, [])
  {
    AbsorbNone(INITIAL);
  }

  lemma StandsForMore(buffered: Bytes, hash: Words, msg: Bytes, piece: Bytes)
    requires StandsFor(buffered, hash, msg)
    ensures StandsFor(buffered + piece, hash, msg + piece)
  {
    hide Absorb;
    var start := |msg| - |buffered|;
    assert (msg + piece)[..start] == msg[..start] && (msg + piece)[start..] == msg[start..] + piece;
  }

  lemma StandsForBlock(block: Block, hash: Words, msg: Bytes)
    requires StandsFor(block, hash, msg)
    ensures StandsFor([], Compress(hash, block), msg)
  {
    hide Absorb, Compress;
    var start := |msg| - 64;
    assert msg == msg[..start] + block && msg[..|msg|] == msg && msg[|msg|..] == [];
    AbsorbOne(msg[..start], block);
  }

  class Hasher {
    const state: array<Word>
    const buffer: array<byte>
    var bitlen: nat
    var buflen: nat
    /** Everything fed to the hasher since it was reset. */
    ghost var fed: Bytes

    constructor ()
      ensures Valid() && fed == [] && fresh(state) && fresh(buffer)
    {
      state := new Word[8];
      buffer := new byte[64];
      new;
      Reset();
    }

    ghost function Hash(): Words
      requires state.Length == 8
      reads state
    {
      Words(state[0], state[1], state[2], state[3], state[4], state[5], state[6], state[7])
    }

    /** Whole blocks of `msg` are in the hash value, the rest is in the buffer. */
    ghost predicate Holds(msg: Bytes)
      reads this`buflen, state, buffer
      ensures Holds(msg) ==> state.Length == 8 && buffer.Length == 64 && buflen < 64
    {
      state.Length == 8 && buffer.Length == 64 && buflen < 64 && StandsFor(buffer[..buflen], Hash(), msg)
    }

    ghost predicate Valid()
      reads this, state, buffer
    {
      Holds(fed) && Counted(bitlen, |fed|)
    }

    method Reset()
      requires state.Length == 8 && buffer.Length == 64
      modifies this, state
      ensures Valid() && fed == []
    {
      hide StandsFor, Counted, Hash;
      StandsForNothing();
      NothingCounted();
      SetInitial();
      bitlen, buflen, fed := 0, 0, [];
      assert buffer[..0] == [];
    }

    method SetInitial()
      requires state.Length == 8
      modifies state
      ensures Hash() == INITIAL
    {
      state[0], state[1], state[2], state[3] := 0x6a09e667, 0xbb67ae85, 0x3c6ef372, 0xa54ff53a;
      state[4], state[5], state[6], state[7] := 0x510e527f, 0x9b05688c, 0x1f83d9ab, 0x5be0cd19;
    }

    /** The message schedule of the buffered block. */
    method Schedule() returns (w: array<Word>)
      requires buffer.Length == 64
      ensures fresh(w) && w.Length == 64
      ensures forall t :: 0 <= t < 64 ==> w[t] == W(buffer[..], t)
    {
      hide Add, ToWord, SmallSigma0, SmallSigma1, Rounds, Compress, Absorb, W;
      w := new Word[64];
      ghost var block := buffer[..];
      for i := 0 to 16
        modifies w
        invariant forall t :: 0 <= t < i ==> w[t] == W(block, t)
      {
        WordOfBlock(block, i);
        w[i] := ToWord(buffer[i * 4], buffer[i * 4 + 1], buffer[i * 4 + 2], buffer[i * 4 + 3]);
      }
      for i := 16 to 64
        modifies w
        invariant forall t :: 0 <= t < i ==> w[t] == W(block, t)
      {
        WordOfEarlier(block, i);
        var s0 := SmallSigma0(w[i - 15]);
        var s1 := SmallSigma1(w[i - 2]);
        w[i] := Add(Add(Add(w[i - 16], s0), w[i - 7]), s1);
      }
    }

    /** The working variables after the 64 rounds over the buffered block. */
    method Rounded() returns (v: Words)
      requires state.Length == 8 && buffer.Length == 64
      ensures v == Rounds(Hash(), buffer[..], 64)
    {
      hide Add, W, BigSigma0, BigSigma1, Ch, Maj, Absorb;
      var w := Schedule();
      var a, b, c, d := state[0], state[1], state[2], state[3];
      var e, f, g, h := state[4], state[5], state[6], state[7];
      ghost var before := Hash();
      for i := 0 to 64
        invariant Words(a, b, c, d, e, f, g, h) == Rounds(before, buffer[..], i)
      {
        var s1 := BigSigma1(e);
        var ch := Ch(e, f, g);
        var t1 := Add(Add(Add(Add(h, s1), ch), K[i]), w[i]);
        var s0 := BigSigma0(a);
        var mj := Maj(a, b, c);
        var t2 := Add(s0, mj);
        h := g;
        g := f;
        f := e;
        e := Add(d, t1);
        d := c;
        c := b;
        b := a;
        a := Add(t1, t2);
      }
      v := Words(a, b, c, d, e, f, g, h);
    }

    /** Absorbs the buffered block into the hash value. */
    method Block()
      requires state.Length == 8 && buffer.Length == 64
      modifies state
      ensures Hash() == Compress(old(Hash()), buffer[..])
    {
      hide Add, Rounds, Absorb;
      var v := Rounded();
      ghost var before := Hash();
      state[0] := Add(state[0], v.a);
      state[1] := Add(state[1], v.b);
      state[2] := Add(state[2], v.c);
      state[3] := Add(state[3], v.d);
      state[4] := Add(state[4], v.e);
      state[5] := Add(state[5], v.f);
      state[6] := Add(state[6], v.g);
      state[7] := Add(state[7], v.h);
      assert Hash() == Sum(before, v);
    }

    /** Feeds `data` to the hasher; the bit count wraps at 2 to the 64. */
    method Update(data: Bytes)
      requires Holds(fed)
      modifies this, state, buffer
      ensures Holds(fed) && fed == old(fed) + data
      ensures bitlen == AddBits(old(bitlen), |data|)
      ensures old(Valid()) ==> Valid()
    {
      hide AddBits, Counted, Holds;
      bitlen := AddBits(bitlen, |data|);
      var p := 0;
      assert data[..0] == [] && fed + [] == fed;
      while p < |data|
        invariant 0 <= p <= |data|
        invariant Holds(old(fed) + data[..p])
        invariant fed == old(fed) && bitlen == AddBits(old(bitlen), |data|)
      {
        var take := 64 - buflen;
        if take > |data| - p {
          take := |data| - p;
        }
        ghost var msg := old(fed) + data[..p];
        assert old(fed) + data[..p + take] == msg + data[p..p + take];
        Feed(data[p..p + take], msg);
        p := p + take;
      }
      assert data[..|data|] == data;
      fed := fed + data;
      if Counted(old(bitlen), |old(fed)|) {
        BitCount(old(bitlen), |old(fed)|, |data|);
      }
    }

    /** Appends to the buffer as much as fits, and absorbs it once it is full. */
    method Feed(piece: Bytes, ghost msg: Bytes)
      requires Holds(msg) && buflen + |piece| <= 64
      modifies this`buflen, state, buffer
      ensures Holds(msg + piece)
    {
      hide StandsFor, Hash, Compress;
      StandsForMore(buffer[..buflen], Hash(), msg, piece);
      Put(piece);
      buflen := buflen + |piece|;
      if buflen == 64 {
        assert buffer[..64] == buffer[..];
        StandsForBlock(buffer[..], Hash(), msg + piece);
        Block();
        buflen := 0;
        assert buffer[..0] == [];
      }
    }

    /** Copies a piece behind what is buffered. */
    method Put(piece: Bytes)
      requires buffer.Length == 64 && buflen + |piece| <= 64
      modifies buffer
      ensures buffer[..buflen + |piece|] == old(buffer[..buflen]) + piece
    {
      forall i | 0 <= i < |piece| {
        buffer[buflen + i] := piece[i];
      }
    }

    /** Pads the message and reads the digest off; the hasher is spent afterwards. */
    method Finish() returns (digest: Bytes)
      requires Valid()
      modifies this, state, buffer
      ensures |digest| == 32
      ensures |old(fed)| < 0x2000_0000_0000_0000 ==> digest == Sha256(old(fed))
    {
      hide Holds, AddBits, Counted, ToBigEndian, Padding, Absorb, Digest, ZeroCount;
      ghost var m := fed;
      var count := bitlen;
      Pad();
      var lenbuf := new byte[8];
      for i := 0 to 8
        modifies lenbuf
        invariant lenbuf[..i] == ToBigEndian(count, 8)[..i]
      {
        lenbuf[i] := ShiftOctets(count, 7 - i) % 256;
        ToBigEndianAt(count, 8, i);
        assert lenbuf[..i + 1] == lenbuf[..i] + [lenbuf[i]];
      }
      assert lenbuf[..] == ToBigEndian(count, 8);
      Update(lenbuf[..]);
      digest := ReadDigest();
      if |m| < 0x2000_0000_0000_0000 {
        CountExact(count, |m|);
        PaddedWhole(m);
        assert fed == m + Padding(|m|);
        WholeBlocks();
      }
    }

    lemma WholeBlocks()
      requires Holds(fed) && |fed| % 64 == 0
      ensures Hash() == Absorb(INITIAL, fed)
    {
      hide Absorb;
      assert fed[..|fed|] == fed;
    }

    /** The octet 0x80, then zeros until eight octets are missing from the block. */
    method Pad()
      requires Valid()
      modifies this, state, buffer
      ensures Holds(fed) && buflen == 56
      ensures fed == old(fed) + ([0x80] + Zeros(ZeroCount(|old(fed)|)))
    {
      hide Holds, AddBits, Counted, ZeroCount;
      ghost var m := fed;
      Update([0x80]);
      bitlen := AddBits(bitlen, -1);
      PadZeros(m);
      assert m + ([0x80] + Zeros(ZeroCount(|m|))) == m + [0x80] + Zeros(ZeroCount(|m|));
    }

    /** Feeds zeros until the buffer is 56 octets full. */
    method PadZeros(ghost m: Bytes)
      requires Holds(fed) && fed == m + [0x80]
      modifies this, state, buffer
      ensures Holds(fed) && buflen == 56 && fed == old(fed) + Zeros(ZeroCount(|m|))
    {
      hide Holds, AddBits, Counted, ZeroCount;
      ghost var zeros := 0;
      assert fed == old(fed) + Zeros(zeros);
      while buflen != 56
        invariant Holds(fed) && fed == old(fed) + Zeros(zeros)
        invariant 0 <= zeros <= ZeroCount(|m|)
        decreases ZeroCount(|m|) - zeros
      {
        HoldsAligned(fed);
        PadProgress(|m|, zeros, buflen);
        Update([0]);
        bitlen := AddBits(bitlen, -1);
        zeros := zeros + 1;
        assert Zeros(zeros) == Zeros(zeros - 1) + [0];
      }
      HoldsAligned(fed);
      PadProgress(|m|, zeros, 56);
    }

    lemma HoldsAligned(msg: Bytes)
      requires Holds(msg)
      ensures (|msg| - buflen) % 64 == 0
    {
    }

    lemma HashAt(i: nat)
      requires state.Length == 8 && i < 8
      ensures WordAt(Hash(), i) == state[i]
    {
    }

    method ReadDigest() returns (digest: Bytes)
      requires state.Length == 8
      ensures digest == Digest(Hash())
    {
      hide WordBytes, WordsBytes, WordAt, Hash;
      assert WordsBytes(Hash(), 0) == [];
      var out := new byte[32];
      ghost var h := Hash();
      for i := 0 to 8
        modifies out
        invariant out[..4 * i] == WordsBytes(h, i)
      {
        var four := WordBytes(state[i]);
        WordsBytesStep(h, i);
        HashAt(i);
        out[4 * i], out[4 * i + 1], out[4 * i + 2], out[4 * i + 3] := four[0], four[1], four[2], four[3];
        assert out[..4 * (i + 1)] == out[..4 * i] + four;
      }
      digest := out[..];
    }
  }

  lemma AbsorbOne(s: Bytes, block: Block)
    requires |s| % 64 == 0
    ensures Absorb(INITIAL, s + block) == Compress(Absorb(INITIAL, s), block)
  {
    hide Compress;
    AbsorbConcat(INITIAL, s, block);
    assert block[..64] == block && block[64..] == [];
  }

  lemma NothingCounted()
    ensures Counted(0, 0)
  {
  }

  lemma BitCount(bits: nat, fed: nat, more: nat)
    requires Counted(bits, fed)
    ensures Counted(AddBits(bits, more), fed + more)
  {
    AddModulo(8 * fed, 8 * more);
  }

  lemma AddModulo(a: nat, b: nat)
    ensures (a % TWO_TO_THE_64 + b) % TWO_TO_THE_64 == (a + b) % TWO_TO_THE_64
  {
    var q := a / TWO_TO_THE_64;
    assert a == q * TWO_TO_THE_64 + a % TWO_TO_THE_64;
  }

  lemma CountExact(bits: nat, len: nat)
    requires Counted(bits, len) && len < 0x2000_0000_0000_0000
    ensures bits == 8 * len
  {
  }

  /** The buffer is 56 octets full exactly when all the padding zeros are in. */
  lemma PadProgress(len: nat, zeros: nat, buflen: nat)
    requires zeros <= ZeroCount(len) && buflen < 64 && (len + 1 + zeros - buflen) % 64 == 0
    ensures buflen == 56 <==> zeros == ZeroCount(len)
  {
  }

  lemma PaddedWhole(m: Bytes)
    ensures m + ([0x80] + Zeros(ZeroCount(|m|))) + ToBigEndian(8 * |m|, 8) == m + Padding(|m|)
  {
    hide Zeros, ToBigEndian, ZeroCount;
    Reassociate(m, [0x80] + Zeros(ZeroCount(|m|)), ToBigEndian(8 * |m|, 8));
  }

  /** SHA-256 of one message. */
  method HashOf(data: Bytes) returns (digest: Bytes)
    ensures |digest| == 32
    ensures |data| < 0x2000_0000_0000_0000 ==> digest == Sha256(data)
  {
    hide Sha256, Absorb, Hasher.Holds, Counted, AddBits;
    var h := new Hasher();
    h.Update(data);
    assert [] + data == data;
    digest := h.Finish();
  }

  /** However a message is cut into updates, the digest is that of the whole message. */
  method HashPieces(pieces: seq<Bytes>) returns (digest: Bytes)
    ensures |Joined(pieces)| < 0x2000_0000_0000_0000 ==> digest == Sha256(Joined(pieces))
  {
    hide Sha256, Absorb, Hasher.Holds, Counted, AddBits;
    var h := new Hasher();
    assert pieces[0..] == pieces;
    for i := 0 to |pieces|
      invariant h.Valid() && fresh(h) && fresh(h.state) && fresh(h.buffer)
      invariant h.fed + Joined(pieces[i..]) == Joined(pieces)
    {
      assert pieces[i..][1..] == pieces[i + 1..];
      ghost var before := h.fed;
      h.Update(pieces[i]);
      assert before + (pieces[i] + Joined(pieces[i + 1..])) == h.fed + Joined(pieces[i + 1..]);
    }
    assert pieces[|pieces|..] == [] && h.fed + [] == h.fed;
    digest := h.Finish();
  }

  function Joined(pieces: seq<Bytes>): Bytes {
    if pieces == [] then [] else pieces[0] + Joined(pieces[1..])
  }

  /** The block a key fills: hashed first if it is longer, then padded with zeros. */
  method FillKeyBlock(key: Bytes) returns (kblock: Bytes)
    ensures |kblock| == 64
    ensures |key| < 0x2000_0000_0000_0000 ==> kblock == KeyBlock(key)
  {
    hide Sha256;
    var block := new byte[64](_ => 0);
    var k := key;
    if |key| > 64 {
      k := HashOf(key);
    }
    for i := 0 to |k|
      invariant block[..] == k[..i] + Zeros(64 - i)
    {
      block[i] := k[i];
    }
    assert k[..|k|] == k;
    kblock := block[..];
  }

  method XorBlock(kblock: Bytes, b: byte) returns (pad: Bytes)
    requires |kblock| == 64
    ensures pad == XorWith(kblock, b)
  {
    hide Xor;
    var buf := new byte[64];
    for i := 0 to 64
      invariant buf[..i] == XorWith(kblock, b)[..i]
    {
      buf[i] := Xor(kblock[i], b);
      assert buf[..i + 1] == buf[..i] + [buf[i]];
    }
    pad := buf[..];
  }

  /** HMAC-SHA256 for keys of every length. */
  method HmacOf(key: Bytes, msg: Bytes) returns (mac: Bytes)
    ensures |key| < 0x2000_0000_0000_0000 && |msg| + 64 < 0x2000_0000_0000_0000 ==> mac == Hmac(key, msg)
  {
    hide Sha256, Absorb, Hasher.Holds, Counted, AddBits, KeyBlock, XorWith, INITIAL, Compress;
    var kblock := FillKeyBlock(key);
    var ipad := XorBlock(kblock, 0x36);
    var opad := XorBlock(kblock, 0x5C);
    var inner := new Hasher();
    inner.Update(ipad);
    inner.Update(msg);
    assert [] + ipad == ipad;
    var innerDigest := inner.Finish();
    var outer := new Hasher();
    outer.Update(opad);
    outer.Update(innerDigest);
    assert [] + opad == opad;
    mac := outer.Finish();
  }
}
