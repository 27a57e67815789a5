/** Bytes, results and the few helpers every other module uses. */
module Common {

  /** An octet. `std::uint8_t` and `unsigned char` in the C++ code. */
  type byte = x: int | 0 <= x < 256

  type Bytes = seq<byte>

  const TWO_TO_THE_32: int := 0x1_0000_0000
  const TWO_TO_THE_64: int := 0x1_0000_0000_0000_0000

  datatype Option<+T> = None | Some(value: T)

  /** The error categories the modelled code returns. */
  datatype ErrorCode = Fail | InvalidArg | NotFound | Io | Timeout | Closed | Protocol | Tls

  datatype Result<+T> = Ok(value: T) | Err(error: ErrorCode)

  function Pow2(k: nat): (r: nat)
    ensures r >= 1
  {
    if k == 0 then 1 else 2 * Pow2(k - 1)
  }

  /** Exclusive or of the low `n` bits. */
  function XorBits(a: nat, b: nat, n: nat): (r: nat)
    ensures r < Pow2(n)
  {
    if n == 0 then 0 else 2 * XorBits(a / 2, b / 2, n - 1) + if a % 2 == b % 2 then 0 else 1
  }

  lemma {:induction false} XorBitsTwice(a: nat, b: nat, n: nat)
    requires a < Pow2(n)
    ensures XorBits(XorBits(a, b, n), b, n) == a
  {
    if n > 0 {
      XorBitsTwice(a / 2, b / 2, n - 1);
      var x := XorBits(a, b, n);
      assert x / 2 == XorBits(a / 2, b / 2, n - 1);
      assert x % 2 == if a % 2 == b % 2 then 0 else 1;
    }
  }

  lemma Pow2Eight()
    ensures Pow2(8) == 256
  {
    assert Pow2(4) == 2 * (2 * (2 * (2 * Pow2(0)))) by { assert Pow2(2) == 2 * (2 * Pow2(0)); }
    assert Pow2(6) == 2 * (2 * Pow2(4));
    assert Pow2(8) == 2 * (2 * Pow2(6));
  }

  /** Exclusive or of two octets. */
  function Xor(a: byte, b: byte): byte {
    Pow2Eight();
    XorBits(a, b, 8)
  }

  /** Masking twice with the same octet gives the first octet back. */
  lemma XorTwice(a: byte, b: byte)
    ensures Xor(Xor(a, b), b) == a
  {
    Pow2Eight();
    XorBitsTwice(a, b, 8);
  }

  /** The number a big-endian octet string denotes. */
  function BigEndian(s: Bytes): nat {
    if s == [] then 0 else 256 * BigEndian(s[..|s| - 1]) + s[|s| - 1]
  }

  /** The low `width` octets of `n`, most significant first. */
  function ToBigEndian(n: nat, width: nat): (s: Bytes)
    ensures |s| == width
  {
    if width == 0 then [] else ToBigEndian(n / 256, width - 1) + [n % 256]
  }

  lemma BigEndianSnoc(s: Bytes, b: byte)
    ensures BigEndian(s + [b]) == 256 * BigEndian(s) + b
  {
    assert (s + [b])[..|s|] == s;
  }

  lemma BigEndianTwo(s: Bytes)
    requires |s| == 2
    ensures BigEndian(s) == 256 * (s[0] as int) + s[1]
  {
    assert s[..1][..0] == [];
    assert BigEndian(s[..1]) == s[0];
  }

  function Pow256(k: nat): (r: nat)
    ensures r >= 1
  {
    if k == 0 then 1 else 256 * Pow256(k - 1)
  }

  /** Reading back a big-endian number gives the number, when it fits. */
  lemma {:induction false} BigEndianRoundTrip(n: nat, width: nat)
    requires n < Pow256(width)
    ensures BigEndian(ToBigEndian(n, width)) == n
  {
    if width > 0 {
      BigEndianRoundTrip(n / 256, width - 1);
      var s := ToBigEndian(n, width);
      assert s[..width - 1] == ToBigEndian(n / 256, width - 1);
    }
  }

  /** Two octets, the first 256 times as heavy. */
  lemma TwoPlaces(n: nat)
    requires n <= 0xFFFF
    ensures var s := ToBigEndian(n, 2); n == 256 * (s[0] as int) + s[1]
  {
    BigEndianTwo(ToBigEndian(n, 2));
    assert Pow256(2) == 65536 by { assert Pow256(1) == 256; }
    BigEndianRoundTrip(n, 2);
  }

  lemma FourPlaces(n: nat)
    requires n <= 0xFFFF_FFFF
    ensures var s := ToBigEndian(n, 4);
            n == 0x1000000 * (s[0] as int) + 0x10000 * (s[1] as int) + 0x100 * (s[2] as int) + s[3]
  {
    var m := n / 256 / 256;
    TwoPlaces(m);
    assert ToBigEndian(n, 4) == ToBigEndian(n / 256, 3) + [n % 256];
    assert ToBigEndian(n / 256, 3) == ToBigEndian(m, 2) + [n / 256 % 256];
  }

  /** Eight octets, each 256 times as heavy as the next. */
  lemma EightPlaces(n: nat)
    requires n <= 0xFFFF_FFFF_FFFF_FFFF
    ensures var s := ToBigEndian(n, 8);
            n == 0x100000000000000 * (s[0] as int) + 0x1000000000000 * (s[1] as int) +
                 0x10000000000 * (s[2] as int) + 0x100000000 * (s[3] as int) +
                 0x1000000 * (s[4] as int) + 0x10000 * (s[5] as int) + 0x100 * (s[6] as int) + s[7]
  {
    var a, c := n / 0x1_0000_0000, n % 0x1_0000_0000;
    FourPlaces(a);
    FourPlaces(c);
    HalvesOfEight(n);
  }

  lemma HalvesOfEight(n: nat)
    ensures ToBigEndian(n, 8) == ToBigEndian(n / 0x1_0000_0000, 4) + ToBigEndian(n % 0x1_0000_0000, 4)
  {
    ShiftedFour(n);
    LowFour(n, n % 0x1_0000_0000);
  }

  lemma ShiftedFour(n: nat)
    ensures n / 256 / 256 / 256 / 256 == n / 0x1_0000_0000
    ensures ToBigEndian(n, 8) ==
            ToBigEndian(n / 256 / 256 / 256 / 256, 4) +
            [n / 256 / 256 / 256 % 256, n / 256 / 256 % 256, n / 256 % 256, n % 256]
  {
    var a := ToBigEndian(n / 256 / 256 / 256 / 256, 4);
    assert ToBigEndian(n / 256 / 256 / 256, 5) == a + [n / 256 / 256 / 256 % 256];
    assert ToBigEndian(n / 256 / 256, 6) == a + [n / 256 / 256 / 256 % 256, n / 256 / 256 % 256];
    assert ToBigEndian(n / 256, 7) == a + [n / 256 / 256 / 256 % 256, n / 256 / 256 % 256, n / 256 % 256];
  }

  lemma LowFour(n: nat, c: nat)
    requires c == n % 0x1_0000_0000
    ensures ToBigEndian(c, 4) == [n / 256 / 256 / 256 % 256, n / 256 / 256 % 256, n / 256 % 256, n % 256]
  {
    var q := n / 0x1_0000_0000;
    assert n == 0x1_0000_0000 * q + c;
    assert n % 256 == c % 256 && n / 256 == 0x100_0000 * q + c / 256;
    assert n / 256 % 256 == c / 256 % 256 && n / 256 / 256 == 0x1_0000 * q + c / 256 / 256;
    assert n / 256 / 256 % 256 == c / 256 / 256 % 256 && n / 256 / 256 / 256 == 0x100 * q + c / 256 / 256 / 256;
    assert n / 256 / 256 / 256 % 256 == c / 256 / 256 / 256 % 256;
    assert ToBigEndian(c / 256 / 256 / 256, 1) == [c / 256 / 256 / 256 % 256];
    assert ToBigEndian(c / 256 / 256, 2) == [c / 256 / 256 / 256 % 256, c / 256 / 256 % 256];
    assert ToBigEndian(c / 256, 3) == [c / 256 / 256 / 256 % 256, c / 256 / 256 % 256, c / 256 % 256];
  }

  /** `n` shifted right by `k` octets. */
  function ShiftOctets(n: nat, k: nat): nat {
    if k == 0 then n else ShiftOctets(n / 256, k - 1)
  }

  /** Each octet of a big-endian number is a shift of it. */
  lemma {:induction false} ToBigEndianAt(n: nat, width: nat, j: nat)
    requires j < width
    ensures ToBigEndian(n, width)[j] == ShiftOctets(n, width - 1 - j) % 256
  {
    if j < width - 1 {
      ToBigEndianAt(n / 256, width - 1, j);
    }
  }

  lemma Reassociate<T>(a: seq<T>, b: seq<T>, c: seq<T>)
    ensures (a + b) + c == a + (b + c)
  {
  }

  lemma FirstOfDrop<T>(s: seq<T>, q: nat)
    requires q < |s|
    ensures s[q..] != [] && s[q..][0] == s[q] && s[q..][1..] == s[q + 1..]
  {
  }

  lemma DropTwice<T>(s: seq<T>, p: nat, q: nat)
    requires p <= q <= |s|
    ensures s[p..][q - p..] == s[q..] && s[p..][..q - p] == s[p..q]
  {
  }

  lemma ThreeParts<T>(a: seq<T>, b: seq<T>, c: seq<T>)
    ensures (a + (b + c))[..|a|] == a && (a + (b + c))[|a|..|a| + |b|] == b
  {
  }

  lemma SliceOfDrop<T>(s: seq<T>, p: nat, q: nat, r: nat)
    requires p + q <= p + r <= |s|
    ensures s[p..][q..r] == s[p + q..p + r]
  {
  }

  /** The octets of an ASCII literal. */
  function Ascii(s: string): (r: Bytes)
    ensures |r| == |s|
  {
    seq(|s|, i requires 0 <= i < |s| => s[i] as int % 256)
  }

  lemma LowerHexAt(v: nat)
    requires v < 16
    ensures Ascii("0123456789abcdef")[v] == if v < 10 then 0x30 + v else 0x61 + (v - 10)
  {
  }

  lemma UpperHexAt(v: nat)
    requires v < 16
    ensures Ascii("0123456789ABCDEF")[v] == if v < 10 then 0x30 + v else 0x41 + (v - 10)
  {
  }

  /** `tolower` of the C locale. */
  function Lower(c: byte): byte {
    if 65 <= c <= 90 then c + 32 else c
  }

  /** Equality up to the case of letters. */
  predicate EqualsCi(a: Bytes, b: Bytes) {
    |a| == |b| && forall i :: 0 <= i < |a| ==> Lower(a[i]) == Lower(b[i])
  }

  /** One letter, or the same letter in the other case; any other octet is only itself. */
  predicate SameLetter(a: byte, b: byte) {
    a == b || (0x41 <= a <= 0x5A && b == a + 0x20) || (0x41 <= b <= 0x5A && a == b + 0x20)
  }

  /** The same name, up to the case of its ASCII letters. */
  predicate SameName(a: Bytes, b: Bytes) {
    |a| == |b| && forall i :: 0 <= i < |a| ==> SameLetter(a[i], b[i])
  }

  lemma LowerSame(a: byte, b: byte)
    ensures Lower(a) == Lower(b) <==> SameLetter(a, b)
  {
  }

  lemma EqualsCiIsSameName(a: Bytes, b: Bytes)
    ensures EqualsCi(a, b) <==> SameName(a, b)
  {
    forall i | 0 <= i < |a| && |a| == |b| ensures Lower(a[i]) == Lower(b[i]) <==> SameLetter(a[i], b[i]) {
      LowerSame(a[i], b[i]);
    }
  }

  // ------------------------------------------------------------------- bits

  /** Bit `k` of a number, the lowest being bit 0. */
  predicate Bit(n: nat, k: nat) {
    if k == 0 then n % 2 == 1 else Bit(n / 2, k - 1)
  }

  lemma {:induction false} XorBitsBit(a: nat, b: nat, n: nat, k: nat)
    requires k < n
    ensures Bit(XorBits(a, b, n), k) <==> Bit(a, k) != Bit(b, k)
  {
    if k > 0 {
      var x := XorBits(a, b, n);
      assert x / 2 == XorBits(a / 2, b / 2, n - 1);
      XorBitsBit(a / 2, b / 2, n - 1, k - 1);
    }
  }

  /** Each bit of an exclusive or says whether the bits differ. */
  lemma XorBit(a: byte, b: byte, k: nat)
    requires k < 8
    ensures Bit(Xor(a, b), k) <==> Bit(a, k) != Bit(b, k)
  {
    XorBitsBit(a, b, 8, k);
  }

  /** And its bits are all there is to an octet. */
  lemma {:induction false} BitsDetermine(a: nat, b: nat, n: nat)
    requires a < Pow2(n) && b < Pow2(n)
    requires forall k :: 0 <= k < n ==> (Bit(a, k) <==> Bit(b, k))
    ensures a == b
  {
    if n > 0 {
      assert Bit(a, 0) <==> Bit(b, 0);
      forall k | 0 <= k < n - 1 ensures Bit(a / 2, k) <==> Bit(b / 2, k) {
        assert Bit(a, k + 1) <==> Bit(b, k + 1);
      }
      BitsDetermine(a / 2, b / 2, n - 1);
    }
  }
}
