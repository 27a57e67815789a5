/** SHA-256 against its standard: what its functions do to bits, where its constants come from, and a digest. */
module Sha256Standard {
  import opened Common
  import opened Sha256Spec

  // ------------------------------------- sections 2.2.2 and 4.1.2 of FIPS 180-4

  /** A place in a word, counted modulo 32. */
  type Place = bv5

  /** Bit `j` of a word, the lowest being bit 0. */
  predicate BitOf(x: Word, j: Place) {
    if j == 0 then Lowest(x) else BitOf(Half(x), j - 1)
  }

  predicate Lowest(x: Word) {
    x & 1 == 1
  }

  function Half(x: Word): Word {
    x >> 1
  }

  /** The lowest bit of a word shifted down. */
  function Low(x: Word, j: Word): Word
    requires j < 32
  {
    (x >> j) & 1
  }

  lemma ShiftOnce(x: Word, j: Place)
    requires j > 0
    ensures Low(Half(x), (j - 1) as Word) == Low(x, j as Word)
  {
  }

  lemma {:induction false} BitIsLow(x: Word, j: Place)
    ensures BitOf(x, j) <==> Low(x, j as Word) == 1
    decreases j
  {
    if j > 0 {
      hide Low, Half, Lowest;
      ShiftOnce(x, j);
      BitIsLow(Half(x), j - 1);
    }
  }

  lemma LowOfBoth(x: Word, n: Word, j: Word)
    requires 0 < n < 32 && j < 32
    ensures Low((x >> n) | (x << (32 - n)), j) == Low(x, (j + n) % 32)
  {
  }

  lemma LowOfRotr(x: Word, n: Word, j: Word)
    requires 0 < n < 32 && j < 32
    ensures Low(Rotr(x, n), j) == Low(x, (j + n) % 32)
  {
    hide Low;
    LowOfBoth(x, n, j);
  }

  lemma LowOfShift(x: Word, n: Word, j: Word)
    requires 0 < n < 32 && j < 32
    ensures Low(Shr(x, n), j) == if j + n < 32 then Low(x, j + n) else 0
  {
  }

  lemma Around(n: Place, j: Place)
    ensures (j + n) as Word == (j as Word + n as Word) % 32
  {
  }

  /** A rotation to the right by `n` takes each bit from `n` places up, around the word. */
  lemma RotrBit(x: Word, n: Place, j: Place)
    requires n > 0
    ensures BitOf(Rotr(x, n as Word), j) <==> BitOf(x, j + n)
  {
    hide Rotr, BitOf, Low;
    Around(n, j);
    LowOfRotr(x, n as Word, j as Word);
    BitIsLow(Rotr(x, n as Word), j);
    BitIsLow(x, j + n);
  }

  /** A shift takes it from there too, but nothing from around the word. */
  lemma ShiftBit(x: Word, n: Place, j: Place)
    requires n > 0
    ensures BitOf(Shr(x, n as Word), j) <==> (j as Word + n as Word) < 32 && BitOf(x, j + n)
  {
    hide BitOf, Low, Shr;
    Around(n, j);
    LowOfShift(x, n as Word, j as Word);
    BitIsLow(Shr(x, n as Word), j);
    BitIsLow(x, j + n);
  }

  function Exclusive(x: Word, y: Word, z: Word): Word {
    x ^ y ^ z
  }

  lemma ParityOnce(x: Word, y: Word, z: Word)
    ensures Half(Exclusive(x, y, z)) == Exclusive(Half(x), Half(y), Half(z))
    ensures Lowest(Exclusive(x, y, z)) <==> (Lowest(x) != Lowest(y)) != Lowest(z)
  {
  }

  lemma {:induction false} Parity(x: Word, y: Word, z: Word, j: Place)
    ensures BitOf(Exclusive(x, y, z), j) <==> (BitOf(x, j) != BitOf(y, j)) != BitOf(z, j)
    decreases j
  {
    hide Exclusive, Half, Lowest;
    ParityOnce(x, y, z);
    if j > 0 {
      Parity(Half(x), Half(y), Half(z), j - 1);
    }
  }

  lemma ChOnce(x: Word, y: Word, z: Word)
    ensures Half(Ch(x, y, z)) == Ch(Half(x), Half(y), Half(z))
    ensures Lowest(Ch(x, y, z)) <==> if Lowest(x) then Lowest(y) else Lowest(z)
  {
  }

  /** The first word chooses between the other two. */
  lemma {:induction false} ChBit(x: Word, y: Word, z: Word, j: Place)
    ensures BitOf(Ch(x, y, z), j) <==> if BitOf(x, j) then BitOf(y, j) else BitOf(z, j)
    decreases j
  {
    hide Ch, Half, Lowest;
    ChOnce(x, y, z);
    if j > 0 {
      ChBit(Half(x), Half(y), Half(z), j - 1);
    }
  }

  predicate Majority(a: bool, b: bool, c: bool) {
    (a && b) || (a && c) || (b && c)
  }

  lemma MajOnce(x: Word, y: Word, z: Word)
    ensures Half(Maj(x, y, z)) == Maj(Half(x), Half(y), Half(z))
    ensures Lowest(Maj(x, y, z)) <==> Majority(Lowest(x), Lowest(y), Lowest(z))
  {
  }

  /** At least two of the three. */
  lemma {:induction false} MajBit(x: Word, y: Word, z: Word, j: Place)
    ensures BitOf(Maj(x, y, z), j) <==> Majority(BitOf(x, j), BitOf(y, j), BitOf(z, j))
    decreases j
  {
    hide Maj, Half, Lowest;
    MajOnce(x, y, z);
    if j > 0 {
      MajBit(Half(x), Half(y), Half(z), j - 1);
    }
  }

  lemma BigSigma0Bit(x: Word, j: Place)
    ensures BitOf(BigSigma0(x), j) <==>
            (BitOf(x, j + 2) != BitOf(x, j + 13)) != BitOf(x, j + 22)
  {
    hide BitOf, Rotr, Shr, Exclusive, BigSigma0;
    BigSigma0Is(x);
    BigSigma0Parts(x, Rotr(x, 2), Rotr(x, 13), Rotr(x, 22), j);
  }

  lemma BigSigma0Is(x: Word)
    ensures BigSigma0(x) == Exclusive(Rotr(x, 2), Rotr(x, 13), Rotr(x, 22))
  {
    hide Rotr, Shr;
  }

  lemma BigSigma0Parts(x: Word, a: Word, b: Word, c: Word, j: Place)
    requires a == Rotr(x, 2) && b == Rotr(x, 13) && c == Rotr(x, 22)
    ensures BitOf(Exclusive(a, b, c), j) <==>
            (BitOf(x, j + 2) != BitOf(x, j + 13)) != BitOf(x, j + 22)
  {
    hide BitOf, Rotr, Shr, Exclusive;
    Parity(a, b, c, j);
    RotrBit(x, 2, j);
    RotrBit(x, 13, j);
    RotrBit(x, 22, j);
  }

  lemma BigSigma1Bit(x: Word, j: Place)
    ensures BitOf(BigSigma1(x), j) <==>
            (BitOf(x, j + 6) != BitOf(x, j + 11)) != BitOf(x, j + 25)
  {
    hide BitOf, Rotr, Shr, Exclusive, BigSigma1;
    BigSigma1Is(x);
    BigSigma1Parts(x, Rotr(x, 6), Rotr(x, 11), Rotr(x, 25), j);
  }

  lemma BigSigma1Is(x: Word)
    ensures BigSigma1(x) == Exclusive(Rotr(x, 6), Rotr(x, 11), Rotr(x, 25))
  {
    hide Rotr, Shr;
  }

  lemma BigSigma1Parts(x: Word, a: Word, b: Word, c: Word, j: Place)
    requires a == Rotr(x, 6) && b == Rotr(x, 11) && c == Rotr(x, 25)
    ensures BitOf(Exclusive(a, b, c), j) <==>
            (BitOf(x, j + 6) != BitOf(x, j + 11)) != BitOf(x, j + 25)
  {
    hide BitOf, Rotr, Shr, Exclusive;
    Parity(a, b, c, j);
    RotrBit(x, 6, j);
    RotrBit(x, 11, j);
    RotrBit(x, 25, j);
  }

  lemma SmallSigma0Bit(x: Word, j: Place)
    ensures BitOf(SmallSigma0(x), j) <==>
            (BitOf(x, j + 7) != BitOf(x, j + 18)) != (j as Word + 3 < 32 && BitOf(x, j + 3))
  {
    hide BitOf, Rotr, Shr, Exclusive, SmallSigma0;
    SmallSigma0Is(x);
    SmallSigma0Parts(x, Rotr(x, 7), Rotr(x, 18), Shr(x, 3), j);
  }

  lemma SmallSigma0Is(x: Word)
    ensures SmallSigma0(x) == Exclusive(Rotr(x, 7), Rotr(x, 18), Shr(x, 3))
  {
    hide Rotr, Shr;
  }

  lemma SmallSigma0Parts(x: Word, a: Word, b: Word, c: Word, j: Place)
    requires a == Rotr(x, 7) && b == Rotr(x, 18) && c == Shr(x, 3)
    ensures BitOf(Exclusive(a, b, c), j) <==>
            (BitOf(x, j + 7) != BitOf(x, j + 18)) != (j as Word + 3 < 32 && BitOf(x, j + 3))
  {
    hide BitOf, Rotr, Shr, Exclusive;
    Parity(a, b, c, j);
    RotrBit(x, 7, j);
    RotrBit(x, 18, j);
    ShiftBit(x, 3, j);
  }

  lemma SmallSigma1Bit(x: Word, j: Place)
    ensures BitOf(SmallSigma1(x), j) <==>
            (BitOf(x, j + 17) != BitOf(x, j + 19)) != (j as Word + 10 < 32 && BitOf(x, j + 10))
  {
    hide BitOf, Rotr, Shr, Exclusive, SmallSigma1;
    SmallSigma1Is(x);
    SmallSigma1Parts(x, Rotr(x, 17), Rotr(x, 19), Shr(x, 10), j);
  }

  lemma SmallSigma1Is(x: Word)
    ensures SmallSigma1(x) == Exclusive(Rotr(x, 17), Rotr(x, 19), Shr(x, 10))
  {
    hide Rotr, Shr;
  }

  lemma SmallSigma1Parts(x: Word, a: Word, b: Word, c: Word, j: Place)
    requires a == Rotr(x, 17) && b == Rotr(x, 19) && c == Shr(x, 10)
    ensures BitOf(Exclusive(a, b, c), j) <==>
            (BitOf(x, j + 17) != BitOf(x, j + 19)) != (j as Word + 10 < 32 && BitOf(x, j + 10))
  {
    hide BitOf, Rotr, Shr, Exclusive;
    Parity(a, b, c, j);
    RotrBit(x, 17, j);
    RotrBit(x, 19, j);
    ShiftBit(x, 10, j);
  }

  // ------------------------------------- sections 4.2.2 and 5.3.3: constants

  /** `w` is the first 32 fractional bits of the square root of `p`, whose whole part is `r`. */
  predicate SquareRoot(w: Word, r: nat, p: nat) {
    var x := r * TWO_TO_THE_32 + w as int;
    x * x <= p * TWO_TO_THE_64 < (x + 1) * (x + 1)
  }

  /** The same for the cube root. */
  predicate CubeRoot(w: Word, r: nat, p: nat) {
    var x := r * TWO_TO_THE_32 + w as int;
    x * x * x <= p * TWO_TO_THE_32 * TWO_TO_THE_64 < (x + 1) * (x + 1) * (x + 1)
  }

  /** The initial hash value: the square roots of the first eight primes. */
  lemma InitialIsSquareRoots()
    ensures SquareRoot(INITIAL.a, 1, 2)
    ensures SquareRoot(INITIAL.b, 1, 3)
    ensures SquareRoot(INITIAL.c, 2, 5)
    ensures SquareRoot(INITIAL.d, 2, 7)
    ensures SquareRoot(INITIAL.e, 3, 11)
    ensures SquareRoot(INITIAL.f, 3, 13)
    ensures SquareRoot(INITIAL.g, 4, 17)
    ensures SquareRoot(INITIAL.h, 4, 19)
  {
  }

  lemma CubeRoots0()
    ensures CubeRoot(K[0], 1, 2) && CubeRoot(K[1], 1, 3)
    ensures CubeRoot(K[2], 1, 5) && CubeRoot(K[3], 1, 7)
  {
    Row0();
  }

  lemma CubeRoots1()
    ensures CubeRoot(K[4], 2, 11) && CubeRoot(K[5], 2, 13)
    ensures CubeRoot(K[6], 2, 17) && CubeRoot(K[7], 2, 19)
  {
    Row0();
  }

  lemma CubeRoots2()
    ensures CubeRoot(K[8], 2, 23) && CubeRoot(K[9], 3, 29)
    ensures CubeRoot(K[10], 3, 31) && CubeRoot(K[11], 3, 37)
  {
    Row1();
  }

  lemma CubeRoots3()
    ensures CubeRoot(K[12], 3, 41) && CubeRoot(K[13], 3, 43)
    ensures CubeRoot(K[14], 3, 47) && CubeRoot(K[15], 3, 53)
  {
    Row1();
  }

  lemma CubeRoots4()
    ensures CubeRoot(K[16], 3, 59) && CubeRoot(K[17], 3, 61)
    ensures CubeRoot(K[18], 4, 67) && CubeRoot(K[19], 4, 71)
  {
    Row2();
  }

  lemma CubeRoots5()
    ensures CubeRoot(K[20], 4, 73) && CubeRoot(K[21], 4, 79)
    ensures CubeRoot(K[22], 4, 83) && CubeRoot(K[23], 4, 89)
  {
    Row2();
  }

  lemma CubeRoots6()
    ensures CubeRoot(K[24], 4, 97) && CubeRoot(K[25], 4, 101)
    ensures CubeRoot(K[26], 4, 103) && CubeRoot(K[27], 4, 107)
  {
    Row3();
  }

  lemma CubeRoots7()
    ensures CubeRoot(K[28], 4, 109) && CubeRoot(K[29], 4, 113)
    ensures CubeRoot(K[30], 5, 127) && CubeRoot(K[31], 5, 131)
  {
    Row3();
  }

  lemma CubeRoots8()
    ensures CubeRoot(K[32], 5, 137) && CubeRoot(K[33], 5, 139)
    ensures CubeRoot(K[34], 5, 149) && CubeRoot(K[35], 5, 151)
  {
    Row4();
  }

  lemma CubeRoots9()
    ensures CubeRoot(K[36], 5, 157) && CubeRoot(K[37], 5, 163)
    ensures CubeRoot(K[38], 5, 167) && CubeRoot(K[39], 5, 173)
  {
    Row4();
  }

  lemma CubeRoots10()
    ensures CubeRoot(K[40], 5, 179) && CubeRoot(K[41], 5, 181)
    ensures CubeRoot(K[42], 5, 191) && CubeRoot(K[43], 5, 193)
  {
    Row5();
  }

  lemma CubeRoots11()
    ensures CubeRoot(K[44], 5, 197) && CubeRoot(K[45], 5, 199)
    ensures CubeRoot(K[46], 5, 211) && CubeRoot(K[47], 6, 223)
  {
    Row5();
  }

  lemma CubeRoots12()
    ensures CubeRoot(K[48], 6, 227) && CubeRoot(K[49], 6, 229)
    ensures CubeRoot(K[50], 6, 233) && CubeRoot(K[51], 6, 239)
  {
    Row6();
  }

  lemma CubeRoots13()
    ensures CubeRoot(K[52], 6, 241) && CubeRoot(K[53], 6, 251)
    ensures CubeRoot(K[54], 6, 257) && CubeRoot(K[55], 6, 263)
  {
    Row6();
  }

  lemma CubeRoots14()
    ensures CubeRoot(K[56], 6, 269) && CubeRoot(K[57], 6, 271)
    ensures CubeRoot(K[58], 6, 277) && CubeRoot(K[59], 6, 281)
  {
    Row7();
  }

  lemma CubeRoots15()
    ensures CubeRoot(K[60], 6, 283) && CubeRoot(K[61], 6, 293)
    ensures CubeRoot(K[62], 6, 307) && CubeRoot(K[63], 6, 311)
  {
    Row7();
  }

  /** The first sixteen constants are the cube roots of the first sixteen primes. */
  lemma FirstCubeRoots()
    ensures CubeRoot(K[0], 1, 2) && CubeRoot(K[1], 1, 3) && CubeRoot(K[2], 1, 5) && CubeRoot(K[3], 1, 7)
    ensures CubeRoot(K[4], 2, 11) && CubeRoot(K[5], 2, 13) && CubeRoot(K[6], 2, 17) && CubeRoot(K[7], 2, 19)
    ensures CubeRoot(K[8], 2, 23) && CubeRoot(K[9], 3, 29) && CubeRoot(K[10], 3, 31) && CubeRoot(K[11], 3, 37)
    ensures CubeRoot(K[12], 3, 41) && CubeRoot(K[13], 3, 43) && CubeRoot(K[14], 3, 47) && CubeRoot(K[15], 3, 53)
  {
    hide CubeRoot, K;
    CubeRoots0(); CubeRoots1(); CubeRoots2(); CubeRoots3();
  }

  /** The second sixteen constants are the cube roots of the second sixteen primes. */
  lemma SecondCubeRoots()
    ensures CubeRoot(K[16], 3, 59) && CubeRoot(K[17], 3, 61) && CubeRoot(K[18], 4, 67) && CubeRoot(K[19], 4, 71)
    ensures CubeRoot(K[20], 4, 73) && CubeRoot(K[21], 4, 79) && CubeRoot(K[22], 4, 83) && CubeRoot(K[23], 4, 89)
    ensures CubeRoot(K[24], 4, 97) && CubeRoot(K[25], 4, 101) && CubeRoot(K[26], 4, 103) && CubeRoot(K[27], 4, 107)
    ensures CubeRoot(K[28], 4, 109) && CubeRoot(K[29], 4, 113) && CubeRoot(K[30], 5, 127) && CubeRoot(K[31], 5, 131)
  {
    hide CubeRoot, K;
    CubeRoots4(); CubeRoots5(); CubeRoots6(); CubeRoots7();
  }

  /** The third sixteen constants are the cube roots of the third sixteen primes. */
  lemma ThirdCubeRoots()
    ensures CubeRoot(K[32], 5, 137) && CubeRoot(K[33], 5, 139) && CubeRoot(K[34], 5, 149) && CubeRoot(K[35], 5, 151)
    ensures CubeRoot(K[36], 5, 157) && CubeRoot(K[37], 5, 163) && CubeRoot(K[38], 5, 167) && CubeRoot(K[39], 5, 173)
    ensures CubeRoot(K[40], 5, 179) && CubeRoot(K[41], 5, 181) && CubeRoot(K[42], 5, 191) && CubeRoot(K[43], 5, 193)
    ensures CubeRoot(K[44], 5, 197) && CubeRoot(K[45], 5, 199) && CubeRoot(K[46], 5, 211) && CubeRoot(K[47], 6, 223)
  {
    hide CubeRoot, K;
    CubeRoots8(); CubeRoots9(); CubeRoots10(); CubeRoots11();
  }

  /** The fourth sixteen constants are the cube roots of the fourth sixteen primes. */
  lemma FourthCubeRoots()
    ensures CubeRoot(K[48], 6, 227) && CubeRoot(K[49], 6, 229) && CubeRoot(K[50], 6, 233) && CubeRoot(K[51], 6, 239)
    ensures CubeRoot(K[52], 6, 241) && CubeRoot(K[53], 6, 251) && CubeRoot(K[54], 6, 257) && CubeRoot(K[55], 6, 263)
    ensures CubeRoot(K[56], 6, 269) && CubeRoot(K[57], 6, 271) && CubeRoot(K[58], 6, 277) && CubeRoot(K[59], 6, 281)
    ensures CubeRoot(K[60], 6, 283) && CubeRoot(K[61], 6, 293) && CubeRoot(K[62], 6, 307) && CubeRoot(K[63], 6, 311)
  {
    hide CubeRoot, K;
    CubeRoots12(); CubeRoots13(); CubeRoots14(); CubeRoots15();
  }

  /** The constants as numbers. */
  lemma ConstantsAre()
    ensures |K| == 64
    ensures K[0] == 0x428a2f98 && K[1] == 0x71374491 && K[2] == 0xb5c0fbcf && K[3] == 0xe9b5dba5
    ensures K[4] == 0x3956c25b && K[5] == 0x59f111f1 && K[6] == 0x923f82a4 && K[7] == 0xab1c5ed5
    ensures K[8] == 0xd807aa98 && K[9] == 0x12835b01 && K[10] == 0x243185be && K[11] == 0x550c7dc3
    ensures K[12] == 0x72be5d74 && K[13] == 0x80deb1fe && K[14] == 0x9bdc06a7 && K[15] == 0xc19bf174
    ensures K[16] == 0xe49b69c1 && K[17] == 0xefbe4786 && K[18] == 0x0fc19dc6 && K[19] == 0x240ca1cc
    ensures K[20] == 0x2de92c6f && K[21] == 0x4a7484aa && K[22] == 0x5cb0a9dc && K[23] == 0x76f988da
    ensures K[24] == 0x983e5152 && K[25] == 0xa831c66d && K[26] == 0xb00327c8 && K[27] == 0xbf597fc7
    ensures K[28] == 0xc6e00bf3 && K[29] == 0xd5a79147 && K[30] == 0x06ca6351 && K[31] == 0x14292967
    ensures K[32] == 0x27b70a85 && K[33] == 0x2e1b2138 && K[34] == 0x4d2c6dfc && K[35] == 0x53380d13
    ensures K[36] == 0x650a7354 && K[37] == 0x766a0abb && K[38] == 0x81c2c92e && K[39] == 0x92722c85
    ensures K[40] == 0xa2bfe8a1 && K[41] == 0xa81a664b && K[42] == 0xc24b8b70 && K[43] == 0xc76c51a3
    ensures K[44] == 0xd192e819 && K[45] == 0xd6990624 && K[46] == 0xf40e3585 && K[47] == 0x106aa070
    ensures K[48] == 0x19a4c116 && K[49] == 0x1e376c08 && K[50] == 0x2748774c && K[51] == 0x34b0bcb5
    ensures K[52] == 0x391c0cb3 && K[53] == 0x4ed8aa4a && K[54] == 0x5b9cca4f && K[55] == 0x682e6ff3
    ensures K[56] == 0x748f82ee && K[57] == 0x78a5636f && K[58] == 0x84c87814 && K[59] == 0x8cc70208
    ensures K[60] == 0x90befffa && K[61] == 0xa4506ceb && K[62] == 0xbef9a3f7 && K[63] == 0xc67178f2
  {
    Row0(); Row1(); Row2(); Row3();
    Row4(); Row5(); Row6(); Row7();
  }

  lemma Row0()
    ensures |K| == 64
    ensures K[0] == 0x428a2f98 && K[1] == 0x71374491 && K[2] == 0xb5c0fbcf && K[3] == 0xe9b5dba5
    ensures K[4] == 0x3956c25b && K[5] == 0x59f111f1 && K[6] == 0x923f82a4 && K[7] == 0xab1c5ed5
  {
    KAt(0); KAt(1); KAt(2); KAt(3); KAt(4); KAt(5); KAt(6); KAt(7);
  }

  lemma Row1()
    ensures |K| == 64
    ensures K[8] == 0xd807aa98 && K[9] == 0x12835b01 && K[10] == 0x243185be && K[11] == 0x550c7dc3
    ensures K[12] == 0x72be5d74 && K[13] == 0x80deb1fe && K[14] == 0x9bdc06a7 && K[15] == 0xc19bf174
  {
    KAt(8); KAt(9); KAt(10); KAt(11); KAt(12); KAt(13); KAt(14); KAt(15);
  }

  lemma Row2()
    ensures |K| == 64
    ensures K[16] == 0xe49b69c1 && K[17] == 0xefbe4786 && K[18] == 0x0fc19dc6 && K[19] == 0x240ca1cc
    ensures K[20] == 0x2de92c6f && K[21] == 0x4a7484aa && K[22] == 0x5cb0a9dc && K[23] == 0x76f988da
  {
    KAt(16); KAt(17); KAt(18); KAt(19); KAt(20); KAt(21); KAt(22); KAt(23);
  }

  lemma Row3()
    ensures |K| == 64
    ensures K[24] == 0x983e5152 && K[25] == 0xa831c66d && K[26] == 0xb00327c8 && K[27] == 0xbf597fc7
    ensures K[28] == 0xc6e00bf3 && K[29] == 0xd5a79147 && K[30] == 0x06ca6351 && K[31] == 0x14292967
  {
    KAt(24); KAt(25); KAt(26); KAt(27); KAt(28); KAt(29); KAt(30); KAt(31);
  }

  lemma Row4()
    ensures |K| == 64
    ensures K[32] == 0x27b70a85 && K[33] == 0x2e1b2138 && K[34] == 0x4d2c6dfc && K[35] == 0x53380d13
    ensures K[36] == 0x650a7354 && K[37] == 0x766a0abb && K[38] == 0x81c2c92e && K[39] == 0x92722c85
  {
    KAt(32); KAt(33); KAt(34); KAt(35); KAt(36); KAt(37); KAt(38); KAt(39);
  }

  lemma Row5()
    ensures |K| == 64
    ensures K[40] == 0xa2bfe8a1 && K[41] == 0xa81a664b && K[42] == 0xc24b8b70 && K[43] == 0xc76c51a3
    ensures K[44] == 0xd192e819 && K[45] == 0xd6990624 && K[46] == 0xf40e3585 && K[47] == 0x106aa070
  {
    KAt(40); KAt(41); KAt(42); KAt(43); KAt(44); KAt(45); KAt(46); KAt(47);
  }

  lemma Row6()
    ensures |K| == 64
    ensures K[48] == 0x19a4c116 && K[49] == 0x1e376c08 && K[50] == 0x2748774c && K[51] == 0x34b0bcb5
    ensures K[52] == 0x391c0cb3 && K[53] == 0x4ed8aa4a && K[54] == 0x5b9cca4f && K[55] == 0x682e6ff3
  {
    KAt(48); KAt(49); KAt(50); KAt(51); KAt(52); KAt(53); KAt(54); KAt(55);
  }

  lemma Row7()
    ensures |K| == 64
    ensures K[56] == 0x748f82ee && K[57] == 0x78a5636f && K[58] == 0x84c87814 && K[59] == 0x8cc70208
    ensures K[60] == 0x90befffa && K[61] == 0xa4506ceb && K[62] == 0xbef9a3f7 && K[63] == 0xc67178f2
  {
    KAt(56); KAt(57); KAt(58); KAt(59); KAt(60); KAt(61); KAt(62); KAt(63);
  }

  // ---------------------------------- octets and words, and section 5.1.1: padding

  /** A word read from octets weighs each 256 times as heavy as the next, and its octets are those. */
  lemma PackPlaces(a: Word, b: Word, c: Word, d: Word)
    requires a < 256 && b < 256 && c < 256 && d < 256
    ensures var w := Pack(a, b, c, d);
            && w == 0x1000000 * a + 0x10000 * b + 0x100 * c + d
            && WordBytes(w) == [a as int, b as int, c as int, d as int]
  {
    hide WordBytes;
    FourInWord(a, b, c, d);
    BytesOfParts(Pack(a, b, c, d), a, b, c, d);
  }

  lemma BytesOfParts(w: Word, a: Word, b: Word, c: Word, d: Word)
    requires (w >> 24) & 0xFF == a && (w >> 16) & 0xFF == b && (w >> 8) & 0xFF == c && w & 0xFF == d
    ensures WordBytes(w) == [a as int, b as int, c as int, d as int]
  {
  }

  lemma FourInWord(a: Word, b: Word, c: Word, d: Word)
    requires a < 256 && b < 256 && c < 256 && d < 256
    ensures var w := (a << 24) | (b << 16) | (c << 8) | d;
            && w == 0x1000000 * a + 0x10000 * b + 0x100 * c + d
            && (w >> 24) & 0xFF == a && (w >> 16) & 0xFF == b && (w >> 8) & 0xFF == c && w & 0xFF == d
  {
  }

  /** Padding: a one bit, as few zeros as fill a block, and the length in bits as eight octets. */
  lemma PaddingLayout(n: nat)
    requires n < 0x2000_0000_0000_0000
    ensures var p := Padding(n);
            var z := |p| - 8;
            && 9 <= |p| < 73 && (n + |p|) % 64 == 0
            && p[0] == 0x80 && (forall i :: 1 <= i < z ==> p[i] == 0)
            && 8 * n == 0x100000000000000 * (p[z] as int) + 0x1000000000000 * (p[z + 1] as int) +
                        0x10000000000 * (p[z + 2] as int) + 0x100000000 * (p[z + 3] as int) +
                        0x1000000 * (p[z + 4] as int) + 0x10000 * (p[z + 5] as int) +
                        0x100 * (p[z + 6] as int) + p[z + 7]
  {
    EightPlaces(8 * n);
    assert Padding(n)[|Padding(n)| - 8..] == ToBigEndian(8 * n, 8);
  }

  // ------------------------------------------------------ a digest of one block

  /** The message "abc", padded to one block. */
  function Abc(): (b: Block)
  {
    [0x61, 0x62, 0x63, 0x80] + Zeros(59) + [24]
  }

  lemma AbcIsPadded()
    ensures Ascii("abc") + Padding(3) == Abc()
  {
    assert Ascii("abc") == [0x61, 0x62, 0x63];
    assert ZeroCount(3) == 52;
    TwentyFour();
    assert Zeros(52) + Zeros(7) == Zeros(59);
  }

  lemma TwentyFour()
    ensures ToBigEndian(8 * 3, 8) == Zeros(7) + [24]
  {
    assert ToBigEndian(0, 2) == ToBigEndian(0, 1) + [0] == [0, 0];
    assert ToBigEndian(0, 4) == ToBigEndian(0, 3) + [0] == [0, 0, 0, 0];
    assert ToBigEndian(0, 6) == ToBigEndian(0, 5) + [0] == [0, 0, 0, 0, 0, 0];
    assert ToBigEndian(0, 7) == [0, 0, 0, 0, 0, 0, 0];
    assert ToBigEndian(24, 8) == ToBigEndian(0, 7) + [24];
    assert Zeros(7) == [0, 0, 0, 0, 0, 0, 0];
  }

  /** One more word of the schedule. */
  lemma NextWord(m: Block, t: nat, w16: Word, w15: Word, w7: Word, w2: Word, w: Word)
    requires t >= 16
    requires W(m, t - 16) == w16 && W(m, t - 15) == w15 && W(m, t - 7) == w7 && W(m, t - 2) == w2
    requires Add(Add(Add(w16, SmallSigma0(w15)), w7), SmallSigma1(w2)) == w
    ensures W(m, t) == w
  {
    hide W, Add, SmallSigma0, SmallSigma1;
    WordOfEarlier(m, t);
  }

  lemma BlockWords()
    ensures ToWord(0x61, 0x62, 0x63, 0x80) == 0x61626380 && ToWord(0, 0, 0, 0) == 0 && ToWord(0, 0, 0, 24) == 24
  {
  }

  /** A block with the sixteen words of the padded "abc". */
  predicate AbcWords(m: Block) {
    forall t: nat :: t < 16 ==> W(m, t) == if t == 0 then 0x61626380 else if t == 15 then 24 else 0
  }

  lemma AbcHasWords()
    ensures AbcWords(Abc())
  {
    hide ToWord, W;
    BlockWords();
    forall t: nat | t < 16
      ensures W(Abc(), t) == if t == 0 then 0x61626380 else if t == 15 then 24 else 0
    {
      WordOfBlock(Abc(), t);
    }
  }

  lemma Words0(m: Block)
    requires AbcWords(m)
    ensures W(m, 0) == 0x61626380 && W(m, 1) == 0x00000000 && W(m, 2) == 0x00000000 && W(m, 3) == 0x00000000
    ensures W(m, 4) == 0x00000000 && W(m, 5) == 0x00000000 && W(m, 6) == 0x00000000 && W(m, 7) == 0x00000000
    ensures W(m, 8) == 0x00000000 && W(m, 9) == 0x00000000 && W(m, 10) == 0x00000000 && W(m, 11) == 0x00000000
    ensures W(m, 12) == 0x00000000 && W(m, 13) == 0x00000000 && W(m, 14) == 0x00000000 && W(m, 15) == 0x00000018
  {
    hide W;
  }

  lemma Words1(m: Block)
    requires AbcWords(m)
    ensures W(m, 16) == 0x61626380 && W(m, 17) == 0x000f0000 && W(m, 18) == 0x7da86405 && W(m, 19) == 0x600003c6
    ensures W(m, 20) == 0x3e9d7b78 && W(m, 21) == 0x0183fc00 && W(m, 22) == 0x12dcbfdb && W(m, 23) == 0xe2e2c38e
  {
    hide W, AbcWords;
    Words0(m);
    NextWord(m, 16, 0x61626380, 0x00000000, 0x00000000, 0x00000000, 0x61626380);
    NextWord(m, 17, 0x00000000, 0x00000000, 0x00000000, 0x00000018, 0x000f0000);
    NextWord(m, 18, 0x00000000, 0x00000000, 0x00000000, 0x61626380, 0x7da86405);
    NextWord(m, 19, 0x00000000, 0x00000000, 0x00000000, 0x000f0000, 0x600003c6);
    NextWord(m, 20, 0x00000000, 0x00000000, 0x00000000, 0x7da86405, 0x3e9d7b78);
    NextWord(m, 21, 0x00000000, 0x00000000, 0x00000000, 0x600003c6, 0x0183fc00);
    NextWord(m, 22, 0x00000000, 0x00000000, 0x00000018, 0x3e9d7b78, 0x12dcbfdb);
    NextWord(m, 23, 0x00000000, 0x00000000, 0x61626380, 0x0183fc00, 0xe2e2c38e);
  }

  lemma Words2(m: Block)
    requires AbcWords(m)
    ensures W(m, 24) == 0xc8215c1a && W(m, 25) == 0xb73679a2 && W(m, 26) == 0xe5bc3909 && W(m, 27) == 0x32663c5b
    ensures W(m, 28) == 0x9d209d67 && W(m, 29) == 0xec8726cb && W(m, 30) == 0x702138a4 && W(m, 31) == 0xd3b7973b
  {
    hide W, AbcWords;
    Words0(m);
    Words1(m);
    NextWord(m, 24, 0x00000000, 0x00000000, 0x000f0000, 0x12dcbfdb, 0xc8215c1a);
    NextWord(m, 25, 0x00000000, 0x00000000, 0x7da86405, 0xe2e2c38e, 0xb73679a2);
    NextWord(m, 26, 0x00000000, 0x00000000, 0x600003c6, 0xc8215c1a, 0xe5bc3909);
    NextWord(m, 27, 0x00000000, 0x00000000, 0x3e9d7b78, 0xb73679a2, 0x32663c5b);
    NextWord(m, 28, 0x00000000, 0x00000000, 0x0183fc00, 0xe5bc3909, 0x9d209d67);
    NextWord(m, 29, 0x00000000, 0x00000000, 0x12dcbfdb, 0x32663c5b, 0xec8726cb);
    NextWord(m, 30, 0x00000000, 0x00000018, 0xe2e2c38e, 0x9d209d67, 0x702138a4);
    NextWord(m, 31, 0x00000018, 0x61626380, 0xc8215c1a, 0xec8726cb, 0xd3b7973b);
  }

  lemma Words3(m: Block)
    requires AbcWords(m)
    ensures W(m, 32) == 0x93f5997f && W(m, 33) == 0x3b68ba73 && W(m, 34) == 0xaff4ffc1 && W(m, 35) == 0xf10a5c62
    ensures W(m, 36) == 0x0a8b3996 && W(m, 37) == 0x72af830a && W(m, 38) == 0x9409e33e && W(m, 39) == 0x24641522
  {
    hide W, AbcWords;
    Words1(m);
    Words2(m);
    NextWord(m, 32, 0x61626380, 0x000f0000, 0xb73679a2, 0x702138a4, 0x93f5997f);
    NextWord(m, 33, 0x000f0000, 0x7da86405, 0xe5bc3909, 0xd3b7973b, 0x3b68ba73);
    NextWord(m, 34, 0x7da86405, 0x600003c6, 0x32663c5b, 0x93f5997f, 0xaff4ffc1);
    NextWord(m, 35, 0x600003c6, 0x3e9d7b78, 0x9d209d67, 0x3b68ba73, 0xf10a5c62);
    NextWord(m, 36, 0x3e9d7b78, 0x0183fc00, 0xec8726cb, 0xaff4ffc1, 0x0a8b3996);
    NextWord(m, 37, 0x0183fc00, 0x12dcbfdb, 0x702138a4, 0xf10a5c62, 0x72af830a);
    NextWord(m, 38, 0x12dcbfdb, 0xe2e2c38e, 0xd3b7973b, 0x0a8b3996, 0x9409e33e);
    NextWord(m, 39, 0xe2e2c38e, 0xc8215c1a, 0x93f5997f, 0x72af830a, 0x24641522);
  }

  lemma Words4(m: Block)
    requires AbcWords(m)
    ensures W(m, 40) == 0x9f47bf94 && W(m, 41) == 0xf0a64f5a && W(m, 42) == 0x3e246a79 && W(m, 43) == 0x27333ba3
    ensures W(m, 44) == 0x0c4763f2 && W(m, 45) == 0x840abf27 && W(m, 46) == 0x7a290d5d && W(m, 47) == 0x065c43da
  {
    hide W, AbcWords;
    Words2(m);
    Words3(m);
    NextWord(m, 40, 0xc8215c1a, 0xb73679a2, 0x3b68ba73, 0x9409e33e, 0x9f47bf94);
    NextWord(m, 41, 0xb73679a2, 0xe5bc3909, 0xaff4ffc1, 0x24641522, 0xf0a64f5a);
    NextWord(m, 42, 0xe5bc3909, 0x32663c5b, 0xf10a5c62, 0x9f47bf94, 0x3e246a79);
    NextWord(m, 43, 0x32663c5b, 0x9d209d67, 0x0a8b3996, 0xf0a64f5a, 0x27333ba3);
    NextWord(m, 44, 0x9d209d67, 0xec8726cb, 0x72af830a, 0x3e246a79, 0x0c4763f2);
    NextWord(m, 45, 0xec8726cb, 0x702138a4, 0x9409e33e, 0x27333ba3, 0x840abf27);
    NextWord(m, 46, 0x702138a4, 0xd3b7973b, 0x24641522, 0x0c4763f2, 0x7a290d5d);
    NextWord(m, 47, 0xd3b7973b, 0x93f5997f, 0x9f47bf94, 0x840abf27, 0x065c43da);
  }

  lemma Words5(m: Block)
    requires AbcWords(m)
    ensures W(m, 48) == 0xfb3e89cb && W(m, 49) == 0xcc7617db && W(m, 50) == 0xb9e66c34 && W(m, 51) == 0xa9993667
    ensures W(m, 52) == 0x84badedd && W(m, 53) == 0xc21462bc && W(m, 54) == 0x1487472c && W(m, 55) == 0xb20f7a99
  {
    hide W, AbcWords;
    Words3(m);
    Words4(m);
    NextWord(m, 48, 0x93f5997f, 0x3b68ba73, 0xf0a64f5a, 0x7a290d5d, 0xfb3e89cb);
    NextWord(m, 49, 0x3b68ba73, 0xaff4ffc1, 0x3e246a79, 0x065c43da, 0xcc7617db);
    NextWord(m, 50, 0xaff4ffc1, 0xf10a5c62, 0x27333ba3, 0xfb3e89cb, 0xb9e66c34);
    NextWord(m, 51, 0xf10a5c62, 0x0a8b3996, 0x0c4763f2, 0xcc7617db, 0xa9993667);
    NextWord(m, 52, 0x0a8b3996, 0x72af830a, 0x840abf27, 0xb9e66c34, 0x84badedd);
    NextWord(m, 53, 0x72af830a, 0x9409e33e, 0x7a290d5d, 0xa9993667, 0xc21462bc);
    NextWord(m, 54, 0x9409e33e, 0x24641522, 0x065c43da, 0x84badedd, 0x1487472c);
    NextWord(m, 55, 0x24641522, 0x9f47bf94, 0xfb3e89cb, 0xc21462bc, 0xb20f7a99);
  }

  lemma Words6(m: Block)
    requires AbcWords(m)
    ensures W(m, 56) == 0xef57b9cd && W(m, 57) == 0xebe6b238 && W(m, 58) == 0x9fe3095e && W(m, 59) == 0x78bc8d4b
    ensures W(m, 60) == 0xa43fcf15 && W(m, 61) == 0x668b2ff8 && W(m, 62) == 0xeeaba2cc && W(m, 63) == 0x12b1edeb
  {
    hide W, AbcWords;
    Words4(m);
    Words5(m);
    NextWord(m, 56, 0x9f47bf94, 0xf0a64f5a, 0xcc7617db, 0x1487472c, 0xef57b9cd);
    NextWord(m, 57, 0xf0a64f5a, 0x3e246a79, 0xb9e66c34, 0xb20f7a99, 0xebe6b238);
    NextWord(m, 58, 0x3e246a79, 0x27333ba3, 0xa9993667, 0xef57b9cd, 0x9fe3095e);
    NextWord(m, 59, 0x27333ba3, 0x0c4763f2, 0x84badedd, 0xebe6b238, 0x78bc8d4b);
    NextWord(m, 60, 0x0c4763f2, 0x840abf27, 0xc21462bc, 0x9fe3095e, 0xa43fcf15);
    NextWord(m, 61, 0x840abf27, 0x7a290d5d, 0x1487472c, 0x78bc8d4b, 0x668b2ff8);
    NextWord(m, 62, 0x7a290d5d, 0x065c43da, 0xb20f7a99, 0xa43fcf15, 0xeeaba2cc);
    NextWord(m, 63, 0x065c43da, 0xfb3e89cb, 0xef57b9cd, 0x668b2ff8, 0x12b1edeb);
  }

  /** One more round: two new words, and six that move on. */
  lemma NextRound(m: Block, t: nat, v: Words, a: Word, e: Word) returns (u: Words)
    requires t < 64 && Rounds(INITIAL, m, t) == v
    requires Round(v, K[t], W(m, t)).a == a && Round(v, K[t], W(m, t)).e == e
    ensures u == Words(a, v.a, v.b, v.c, e, v.e, v.f, v.g) && Rounds(INITIAL, m, t + 1) == u
  {
    hide W;
    u := Words(a, v.a, v.b, v.c, e, v.e, v.f, v.g);
  }

  lemma Rounds0(m: Block)
    requires AbcWords(m)
    ensures Rounds(INITIAL, m, 8) ==
            Words(0x85a07b5f, 0xe5030380, 0x2b4209f5, 0x04409a6a, 0x0c657a79, 0x9b27a401, 0x714260ad, 0x43ada245)
  {
    hide W, AbcWords, Rounds, K;
    NoRounds(m);
    var v := INITIAL;
    ConstantsAre();
    Words0(m);
    v := NextRound(m, 0, v, 0x5d6aebcd, 0xfa2a4622);
    v := NextRound(m, 1, v, 0x5a6ad9ad, 0x78ce7989);
    v := NextRound(m, 2, v, 0xc8c347a7, 0xf92939eb);
    v := NextRound(m, 3, v, 0xd550f666, 0x24e00850);
    v := NextRound(m, 4, v, 0x04409a6a, 0x43ada245);
    v := NextRound(m, 5, v, 0x2b4209f5, 0x714260ad);
    v := NextRound(m, 6, v, 0xe5030380, 0x9b27a401);
    v := NextRound(m, 7, v, 0x85a07b5f, 0x0c657a79);
  }

  lemma Rounds1(m: Block)
    requires AbcWords(m)
    ensures Rounds(INITIAL, m, 16) ==
            Words(0xb0fa238e, 0xc0645fde, 0xd932eb16, 0x87912990, 0x07590dcd, 0x0b92f20c, 0x745a48de, 0x1e578218)
  {
    hide W, AbcWords, Rounds, K;
    Rounds0(m);
    var v := Words(0x85a07b5f, 0xe5030380, 0x2b4209f5, 0x04409a6a, 0x0c657a79, 0x9b27a401, 0x714260ad, 0x43ada245);
    ConstantsAre();
    Words0(m);
    v := NextRound(m, 8, v, 0x8e04ecb9, 0x32ca2d8c);
    v := NextRound(m, 9, v, 0x8c87346b, 0x1cc92596);
    v := NextRound(m, 10, v, 0x4798a3f4, 0x436b23e8);
    v := NextRound(m, 11, v, 0xf71fc5a9, 0x816fd6e9);
    v := NextRound(m, 12, v, 0x87912990, 0x1e578218);
    v := NextRound(m, 13, v, 0xd932eb16, 0x745a48de);
    v := NextRound(m, 14, v, 0xc0645fde, 0x0b92f20c);
    v := NextRound(m, 15, v, 0xb0fa238e, 0x07590dcd);
  }

  lemma Rounds2(m: Block)
    requires AbcWords(m)
    ensures Rounds(INITIAL, m, 24) ==
            Words(0xc5d53d8d, 0xa7a3623f, 0xc2606d6d, 0x9dc68b63, 0xaa47c347, 0x49f5114a, 0xe1257970, 0x8ada8930)
  {
    hide W, AbcWords, Rounds, K;
    Rounds1(m);
    var v := Words(0xb0fa238e, 0xc0645fde, 0xd932eb16, 0x87912990, 0x07590dcd, 0x0b92f20c, 0x745a48de, 0x1e578218);
    ConstantsAre();
    Words1(m);
    v := NextRound(m, 16, v, 0x21da9a9b, 0x8034229c);
    v := NextRound(m, 17, v, 0xc2fbd9d1, 0x846ee454);
    v := NextRound(m, 18, v, 0xfe777bbf, 0xcc899961);
    v := NextRound(m, 19, v, 0xe1f20c33, 0xb0638179);
    v := NextRound(m, 20, v, 0x9dc68b63, 0x8ada8930);
    v := NextRound(m, 21, v, 0xc2606d6d, 0xe1257970);
    v := NextRound(m, 22, v, 0xa7a3623f, 0x49f5114a);
    v := NextRound(m, 23, v, 0xc5d53d8d, 0xaa47c347);
  }

  lemma Rounds3(m: Block)
    requires AbcWords(m)
    ensures Rounds(INITIAL, m, 32) ==
            Words(0x73b33bf5, 0xea992a22, 0xa0060b30, 0x363482c9, 0xba591112, 0x0109ab3a, 0xade79437, 0x6112a3b7)
  {
    hide W, AbcWords, Rounds, K;
    Rounds2(m);
    var v := Words(0xc5d53d8d, 0xa7a3623f, 0xc2606d6d, 0x9dc68b63, 0xaa47c347, 0x49f5114a, 0xe1257970, 0x8ada8930);
    ConstantsAre();
    Words2(m);
    v := NextRound(m, 24, v, 0x1c2c2838, 0x2823ef91);
    v := NextRound(m, 25, v, 0xcde8037d, 0x14383d8e);
    v := NextRound(m, 26, v, 0xb62ec4bc, 0xc74c6516);
    v := NextRound(m, 27, v, 0x77d37528, 0xedffbff8);
    v := NextRound(m, 28, v, 0x363482c9, 0x6112a3b7);
    v := NextRound(m, 29, v, 0xa0060b30, 0xade79437);
    v := NextRound(m, 30, v, 0xea992a22, 0x0109ab3a);
    v := NextRound(m, 31, v, 0x73b33bf5, 0xba591112);
  }

  lemma Rounds4(m: Block)
    requires AbcWords(m)
    ensures Rounds(INITIAL, m, 40) ==
            Words(0x79ea687a, 0x6dc57a8a, 0x34df1604, 0x41a65cb1, 0x1efbc0a0, 0xf0781bc8, 0xa507a53d, 0x0772a26b)
  {
    hide W, AbcWords, Rounds, K;
    Rounds3(m);
    var v := Words(0x73b33bf5, 0xea992a22, 0xa0060b30, 0x363482c9, 0xba591112, 0x0109ab3a, 0xade79437, 0x6112a3b7);
    ConstantsAre();
    Words3(m);
    v := NextRound(m, 32, v, 0x98e12507, 0x9cd9f5f6);
    v := NextRound(m, 33, v, 0xfe604df5, 0x59249dd3);
    v := NextRound(m, 34, v, 0xa9a7738c, 0x085f3833);
    v := NextRound(m, 35, v, 0x65a0cfe4, 0xf4b002d6);
    v := NextRound(m, 36, v, 0x41a65cb1, 0x0772a26b);
    v := NextRound(m, 37, v, 0x34df1604, 0xa507a53d);
    v := NextRound(m, 38, v, 0x6dc57a8a, 0xf0781bc8);
    v := NextRound(m, 39, v, 0x79ea687a, 0x1efbc0a0);
  }

  lemma Rounds5(m: Block)
    requires AbcWords(m)
    ensures Rounds(INITIAL, m, 48) ==
            Words(0x4172328d, 0xa14c14b0, 0x72ab4b91, 0x26628815, 0xfecf0bc6, 0xd57b94a9, 0xb7755da1, 0xa80f11f0)
  {
    hide W, AbcWords, Rounds, K;
    Rounds4(m);
    var v := Words(0x79ea687a, 0x6dc57a8a, 0x34df1604, 0x41a65cb1, 0x1efbc0a0, 0xf0781bc8, 0xa507a53d, 0x0772a26b);
    ConstantsAre();
    Words4(m);
    v := NextRound(m, 40, v, 0xd6670766, 0x26352d63);
    v := NextRound(m, 41, v, 0xdf46652f, 0x838b2711);
    v := NextRound(m, 42, v, 0x17aa0dfe, 0xdecd4715);
    v := NextRound(m, 43, v, 0x9d4baf93, 0xfda24c2e);
    v := NextRound(m, 44, v, 0x26628815, 0xa80f11f0);
    v := NextRound(m, 45, v, 0x72ab4b91, 0xb7755da1);
    v := NextRound(m, 46, v, 0xa14c14b0, 0xd57b94a9);
    v := NextRound(m, 47, v, 0x4172328d, 0xfecf0bc6);
  }

  lemma Rounds6(m: Block)
    requires AbcWords(m)
    ensures Rounds(INITIAL, m, 56) ==
            Words(0x38cc9913, 0x3ec45cdb, 0xf5702fdb, 0x101fd28f, 0x54cb266b, 0xe50e1b4f, 0x9f4787c3, 0x529e7d00)
  {
    hide W, AbcWords, Rounds, K;
    Rounds5(m);
    var v := Words(0x4172328d, 0xa14c14b0, 0x72ab4b91, 0x26628815, 0xfecf0bc6, 0xd57b94a9, 0xb7755da1, 0xa80f11f0);
    ConstantsAre();
    Words5(m);
    v := NextRound(m, 48, v, 0x05757ceb, 0xbd714038);
    v := NextRound(m, 49, v, 0xf11bfaa8, 0x6e5c390c);
    v := NextRound(m, 50, v, 0x7a0508a1, 0x52f1ccf7);
    v := NextRound(m, 51, v, 0x886e7a22, 0x49231c1e);
    v := NextRound(m, 52, v, 0x101fd28f, 0x529e7d00);
    v := NextRound(m, 53, v, 0xf5702fdb, 0x9f4787c3);
    v := NextRound(m, 54, v, 0x3ec45cdb, 0xe50e1b4f);
    v := NextRound(m, 55, v, 0x38cc9913, 0x54cb266b);
  }

  lemma Rounds7(m: Block)
    requires AbcWords(m)
    ensures Rounds(INITIAL, m, 64) ==
            Words(0x506e3058, 0xd39a2165, 0x04d24d6c, 0xb85e2ce9, 0x5ef50f24, 0xfb121210, 0x948d25b6, 0x961f4894)
  {
    hide W, AbcWords, Rounds, K;
    Rounds6(m);
    var v := Words(0x38cc9913, 0x3ec45cdb, 0xf5702fdb, 0x101fd28f, 0x54cb266b, 0xe50e1b4f, 0x9f4787c3, 0x529e7d00);
    ConstantsAre();
    Words6(m);
    v := NextRound(m, 56, v, 0xfcd1887b, 0x9b5e906c);
    v := NextRound(m, 57, v, 0xc062d46f, 0x7e44008e);
    v := NextRound(m, 58, v, 0xffb70472, 0x6d83bfc6);
    v := NextRound(m, 59, v, 0xb6ae8fff, 0xb21bad3d);
    v := NextRound(m, 60, v, 0xb85e2ce9, 0x961f4894);
    v := NextRound(m, 61, v, 0x04d24d6c, 0x948d25b6);
    v := NextRound(m, 62, v, 0xd39a2165, 0xfb121210);
    v := NextRound(m, 63, v, 0x506e3058, 0x5ef50f24);
  }

  lemma NoRounds(m: Block)
    ensures Rounds(INITIAL, m, 0) == INITIAL
  {
  }

  lemma AbcCompressed()
    ensures Compress(INITIAL, Abc()) ==
            Words(0xba7816bf, 0x8f01cfea, 0x414140de, 0x5dae2223, 0xb00361a3, 0x96177a9c, 0xb410ff61, 0xf20015ad)
  {
    hide Rounds, Abc, AbcWords;
    AbcHasWords();
    Rounds7(Abc());
  }

  /** The digest of "abc" is the one the standard publishes. */
  lemma AbcDigest()
    ensures Sha256(Ascii("abc")) == [
              0xba, 0x78, 0x16, 0xbf, 0x8f, 0x01, 0xcf, 0xea, 0x41, 0x41, 0x40, 0xde, 0x5d, 0xae, 0x22, 0x23,
              0xb0, 0x03, 0x61, 0xa3, 0x96, 0x17, 0x7a, 0x9c, 0xb4, 0x10, 0xff, 0x61, 0xf2, 0x00, 0x15, 0xad]
  {
    hide Compress, Abc, Padding, WordBytes, WordsBytes, Absorb;
    AbcIsPadded();
    AbcCompressed();
    OneBlock(INITIAL, Abc());
    DigestOfWords(Compress(INITIAL, Abc()));
    DigestOctets();
  }

  lemma DigestOctets()
    ensures WordBytes(0xba7816bf) == [0xba, 0x78, 0x16, 0xbf]
    ensures WordBytes(0x8f01cfea) == [0x8f, 0x01, 0xcf, 0xea]
    ensures WordBytes(0x414140de) == [0x41, 0x41, 0x40, 0xde]
    ensures WordBytes(0x5dae2223) == [0x5d, 0xae, 0x22, 0x23]
    ensures WordBytes(0xb00361a3) == [0xb0, 0x03, 0x61, 0xa3]
    ensures WordBytes(0x96177a9c) == [0x96, 0x17, 0x7a, 0x9c]
    ensures WordBytes(0xb410ff61) == [0xb4, 0x10, 0xff, 0x61]
    ensures WordBytes(0xf20015ad) == [0xf2, 0x00, 0x15, 0xad]
  {
  }

  lemma OneBlock(h: Words, m: Block)
    ensures Absorb(h, m) == Compress(h, m)
  {
    hide Compress;
    assert m[..64] == m && m[64..] == [];
  }

  lemma DigestOfWords(h: Words)
    ensures Digest(h) ==
            WordBytes(h.a) + WordBytes(h.b) + WordBytes(h.c) + WordBytes(h.d) +
            WordBytes(h.e) + WordBytes(h.f) + WordBytes(h.g) + WordBytes(h.h)
  {
    hide WordBytes, WordsBytes;
    NoWordsBytes(h);
    WordsBytesStep(h, 0);
    WordsBytesStep(h, 1);
    WordsBytesStep(h, 2);
    WordsBytesStep(h, 3);
    WordsBytesStep(h, 4);
    WordsBytesStep(h, 5);
    WordsBytesStep(h, 6);
    WordsBytesStep(h, 7);
  }

  lemma NoWordsBytes(h: Words)
    ensures WordsBytes(h, 0) == []
  {
  }

  // -------------------------------------------------- section 2 of RFC 2104

  /** `k` is the block of the key: the key, or its digest if it is longer than a block, and zeros. */
  predicate KeyFills(key: Bytes, k: Bytes) {
    var start := if |key| <= 64 then key else Sha256(key);
    |k| == 64 && start <= k && forall i :: |start| <= i < 64 ==> k[i] == 0
  }

  /** `p` is `k` with each bit turned over where `b` has a one. */
  predicate Turned(k: Bytes, b: byte, p: Bytes) {
    |p| == |k| && forall i, j :: 0 <= i < |k| && 0 <= j < 8 ==> (Bit(p[i], j) <==> Bit(k[i], j) != Bit(b, j))
  }

  /** HMAC is the digest of the outer pad and of the digest of the inner pad and the text. */
  lemma HmacIs(key: Bytes, text: Bytes, k: Bytes, ipad: Bytes, opad: Bytes)
    requires KeyFills(key, k) && Turned(k, 0x36, ipad) && Turned(k, 0x5C, opad)
    ensures Hmac(key, text) == Sha256(opad + Sha256(ipad + text))
  {
    hide Sha256, Bit, Xor;
    assert k == KeyBlock(key);
    TurnedIs(k, 0x36, ipad);
    TurnedIs(k, 0x5C, opad);
  }

  lemma TurnedIs(k: Bytes, b: byte, p: Bytes)
    requires Turned(k, b, p)
    ensures p == XorWith(k, b)
  {
    hide Bit, Xor;
    forall i | 0 <= i < |k| ensures p[i] == Xor(k[i], b) {
      forall j | 0 <= j < 8 ensures Bit(p[i], j) <==> Bit(Xor(k[i], b), j) {
        XorBit(k[i], b, j);
      }
      Pow2Eight();
      BitsDetermine(p[i], Xor(k[i], b), 8);
    }
  }

  /** There are such blocks for every key. */
  lemma PadsExist(key: Bytes) returns (k: Bytes, ipad: Bytes, opad: Bytes)
    ensures KeyFills(key, k) && Turned(k, 0x36, ipad) && Turned(k, 0x5C, opad)
  {
    hide Sha256, Bit, Xor;
    k, ipad, opad := KeyBlock(key), XorWith(KeyBlock(key), 0x36), XorWith(KeyBlock(key), 0x5C);
    forall i, j | 0 <= i < 64 && 0 <= j < 8
      ensures Bit(ipad[i], j) <==> Bit(k[i], j) != Bit(0x36, j)
      ensures Bit(opad[i], j) <==> Bit(k[i], j) != Bit(0x5C, j)
    {
      XorBit(k[i], 0x36, j);
      XorBit(k[i], 0x5C, j);
    }
  }
}
