/** Base64 against its standard: the alphabet by name, and the bits that go in and come out. */
module Base64Standard {
  import opened Common
  import opened Base64

  /** Table 1 of RFC 4648. */
  const ALPHABET: Bytes := CAPITALS + SMALL + Ascii("0123456789+/")

  const CAPITALS: Bytes := Ascii("ABCDEFGHIJKLMNOPQRSTUVWXYZ")
  const SMALL: Bytes := Ascii("abcdefghijklmnopqrstuvwxyz")

  /** `s` is spelled with the letters whose places in the alphabet are `v`. */
  predicate Letters(s: Bytes, v: seq<nat>) {
    |s| == |v| && forall i :: 0 <= i < |s| ==> v[i] < 64 && s[i] == ALPHABET[v[i]]
  }

  /** The first `n` bits of the octets `d` are those of the six-bit values `v`, highest first in each. */
  predicate SameBits(d: Bytes, v: seq<nat>, n: nat)
    requires n <= 8 * |d| && n <= 6 * |v|
  {
    forall p :: 0 <= p < n ==> (Bit(d[p / 8], 7 - p % 8) <==> Bit(v[p / 6], 5 - p % 6))
  }

  // ------------------------------------------------------------ the alphabet

  lemma SymbolIs(v: nat)
    requires v < 64
    ensures ALPHABET[v] == Symbol(v)
  {
    hide CAPITALS, SMALL, Symbol;
    Pieces();
    if v < 26 {
      CapitalIs(v);
    } else if v < 52 {
      SmallIs(v - 26);
    } else {
      OtherIs(v - 52);
    }
  }

  lemma Pieces()
    ensures |CAPITALS| == 26 && |SMALL| == 26
  {
  }

  lemma CapitalIs(v: nat)
    requires v < 26
    ensures CAPITALS[v] == Symbol(v)
  {
  }

  lemma SmallIs(v: nat)
    requires v < 26
    ensures SMALL[v] == Symbol(v + 26)
  {
  }

  lemma OtherIs(v: nat)
    requires v < 12
    ensures Ascii("0123456789+/")[v] == Symbol(v + 52)
  {
  }

  lemma AlphabetHas(c: byte)
    ensures SymbolValue(c).Some? <==> c in ALPHABET
  {
    hide ALPHABET, Symbol, SymbolValue;
    SixtyFour();
    if SymbolValue(c).Some? {
      SymbolIs(SymbolValue(c).value);
    }
    if v :| 0 <= v < 64 && ALPHABET[v] == c {
      SymbolIs(v);
      SymbolReads(v);
    }
  }

  lemma SixtyFour()
    ensures |ALPHABET| == 64
  {
  }

  lemma LettersAre(a: Bytes, v: seq<nat>)
    requires Letters(a, v)
    ensures forall i :: 0 <= i < |a| ==> SymbolValue(a[i]) == Some(v[i])
    ensures Alphabetic(a)
  {
    hide ALPHABET, Symbol, SymbolValue;
    SixtyFour();
    forall i | 0 <= i < |a| ensures SymbolValue(a[i]) == Some(v[i]) {
      SymbolIs(v[i]);
      SymbolReads(v[i]);
    }
  }

  /** The places of the letters of `a`. */
  lemma PlacesOf(a: Bytes) returns (v: seq<nat>)
    requires Alphabetic(a)
    ensures Letters(a, v)
  {
    hide ALPHABET, Symbol, SymbolValue;
    SixtyFour();
    v := seq(|a|, i requires 0 <= i < |a| => SymbolValue(a[i]).value);
    forall i | 0 <= i < |a| ensures v[i] < 64 && a[i] == ALPHABET[v[i]] {
      SymbolIs(v[i]);
    }
  }

  // ------------------------------------------------------------------ bits

  /** The bits of a number put together from a high part and `w` low bits. */
  lemma {:induction false} JoinedBit(m: nat, v: nat, w: nat, k: nat)
    requires v < Pow2(w)
    ensures Bit(Pow2(w) * m + v, k) <==> if k < w then Bit(v, k) else Bit(m, k - w)
  {
    if w > 0 {
      var p := Pow2(w - 1) * m;
      Halved(Pow2(w - 1), m, v);
      if k > 0 {
        JoinedBit(m, v / 2, w - 1, k - 1);
      }
    }
  }

  lemma Halved(p: nat, m: nat, v: nat)
    ensures (2 * p * m + v) / 2 == p * m + v / 2 && (2 * p * m + v) % 2 == v % 2
  {
    assert 2 * p * m == 2 * (p * m);
  }

  /** The bits of a number in base 64, from the lowest. */
  lemma {:induction false} NumberBit(a: Bytes, v: seq<nat>, t: nat)
    requires Letters(a, v) && Alphabetic(a) && t < 6 * |a|
    ensures Bit(Number(a), t) <==> Bit(v[|a| - 1 - t / 6], t % 6)
  {
    hide ALPHABET, Symbol, SymbolValue, Bit;
    LettersAre(a, v);
    var last := |a| - 1;
    Powers();
    JoinedBit(Number(a[..last]), v[last], 6, t);
    if t >= 6 {
      NumberBit(a[..last], v[..last], t - 6);
      assert (t - 6) / 6 == t / 6 - 1 && (t - 6) % 6 == t % 6;
    }
  }

  lemma Powers()
    ensures Pow2(6) == 64 && Pow2(8) == 256
  {
    Shifts();
    Pow2Eight();
  }

  /** The bits of a number in octets, from the lowest. */
  lemma {:induction false} OctetBit(n: nat, w: nat, t: nat)
    requires t < 8 * w
    ensures Bit(ToBigEndian(n, w)[w - 1 - t / 8], t % 8) <==> Bit(n, t)
  {
    hide Bit;
    Powers();
    assert n == 256 * (n / 256) + n % 256;
    JoinedBit(n / 256, n % 256, 8, t);
    if t >= 8 {
      OctetBit(n / 256, w - 1, t - 8);
      assert (t - 8) / 8 == t / 8 - 1 && (t - 8) % 8 == t % 8;
    }
  }

  /** The bits that are left over. */
  function SpareBits(k: nat): (s: nat)
    ensures Pow2(s) == Spare(k) && 6 * k == 8 * (6 * k / 8) + s
  {
    assert Pow2(2) == 4 && Pow2(4) == 16 && Pow2(6) == 64 by {
      Shifts();
      assert Pow2(2) == 2 * (2 * Pow2(0)) && Pow2(4) == 2 * (2 * Pow2(2));
    }
    6 * k % 8
  }

  lemma OctetsBits(a: Bytes, v: seq<nat>)
    requires Letters(a, v) && Alphabetic(a)
    ensures SameBits(Octets(a), v, 8 * |Octets(a)|)
  {
    hide Bit, Letters, Alphabetic, Octets;
    LettersLength(a, v);
    forall p | 0 <= p < 8 * |Octets(a)|
      ensures Bit(Octets(a)[p / 8], 7 - p % 8) <==> Bit(v[p / 6], 5 - p % 6)
    {
      OctetsBit(a, v, p);
    }
  }

  lemma OctetsBit(a: Bytes, v: seq<nat>, p: nat)
    requires Letters(a, v) && Alphabetic(a) && p < 8 * (6 * |a| / 8) && |v| == |a|
    ensures Bit(Octets(a)[p / 8], 7 - p % 8) <==> Bit(v[p / 6], 5 - p % 6)
  {
    hide Bit, Letters, Alphabetic, Number, Spare, Pow2, ToBigEndian;
    var n, m, s := Number(a), 6 * |a| / 8, SpareBits(|a|);
    var q, r := Divided(n, |a|);
    FromTheBack(p, m, 8);
    FromTheBack(p, |a|, 6);
    OctetBit(q, m, 8 * m - 1 - p);
    JoinedBit(q, r, s, 6 * |a| - 1 - p);
    NumberBit(a, v, 6 * |a| - 1 - p);
  }

  lemma Divided(n: nat, k: nat) returns (q: nat, r: nat)
    ensures q == n / Spare(k) && n == Pow2(SpareBits(k)) * q + r && r < Pow2(SpareBits(k))
  {
    hide Pow2;
    var p := Pow2(SpareBits(k));
    if k % 4 == 0 {
      q, r := n, 0;
      assert p * q == q;
    } else if k % 4 == 1 {
      q, r := n / 64, n % 64;
    } else if k % 4 == 2 {
      q, r := n / 16, n % 16;
    } else {
      q, r := n / 4, n % 4;
    }
  }

  lemma LettersLength(a: Bytes, v: seq<nat>)
    requires Letters(a, v)
    ensures |v| == |a|
  {
  }

  lemma FromTheBack(p: nat, m: nat, w: nat)
    requires (w == 6 || w == 8) && p < w * m
    ensures (w * m - 1 - p) / w == m - 1 - p / w && (w * m - 1 - p) % w == w - 1 - p % w
  {
  }

  // ---------------------------------------------------------------- results

  /**
   Decoding, in full: letters of the alphabet, then whatever starts with
   something else, with white space anywhere. It succeeds exactly when the
   latter is all padding and the letters are not one too many, and the octets
   are then the bits of the letters, as many as make whole octets.
   */
  lemma DecodesBits(text: Bytes, a: Bytes, v: seq<nat>, rest: Bytes)
    requires Interspersed(text, a + rest) && Letters(a, v) && (rest != [] ==> rest[0] !in ALPHABET)
    ensures Decoded(text).Some? <==> (forall i :: 0 <= i < |rest| ==> rest[i] == 0x3D) && |a| % 4 != 1
    ensures Decoded(text).Some? ==>
              var d := Decoded(text).value;
              |d| == 6 * |a| / 8 && SameBits(d, v, 8 * |d|)
  {
    hide Interspersed, Letters, SymbolValue, ALPHABET, Decoded, Alphabetic, Octets, SameBits;
    LettersAre(a, v);
    LettersLength(a, v);
    if rest != [] {
      AlphabetHas(rest[0]);
    }
    DecodesExactly(text, a, rest);
    OctetsBits(a, v);
  }

  /**
   Encoding, in full: six bits a letter, the last filled with zeros, and padding
   to a multiple of four.
   */
  lemma EncodedBits(d: Bytes) returns (a: Bytes, v: seq<nat>)
    ensures a <= Encoded(d) && Letters(a, v) && |a| == (8 * |d| + 5) / 6
    ensures SameBits(d, v, 8 * |d|)
    ensures forall p :: 8 * |d| <= p < 6 * |v| ==> !Bit(v[p / 6], 5 - p % 6)
    ensures |Encoded(d)| == (|d| + 2) / 3 * 4
    ensures forall i :: |a| <= i < |Encoded(d)| ==> Encoded(d)[i] == 0x3D
  {
    hide Interspersed, Letters, ALPHABET, Decoded, SameBits, Encoded, Bit;
    EncodedIsBare(d);
    var pads: Bytes;
    a, v, pads := EncodedParts(d);
    PadIsNone(pads);
    DecodeInvertsEncode(d, Encoded(d));
    DecodesBits(Encoded(d), a, v, pads);
    forall p | 8 * |d| <= p < 6 * |v| ensures !Bit(v[p / 6], 5 - p % 6) {
      FilledUp(d, a, v, p);
    }
  }

  lemma EncodedParts(d: Bytes) returns (a: Bytes, v: seq<nat>, pads: Bytes)
    ensures Encoded(d) == a + pads && Letters(a, v) && |v| == |a| == (4 * |d| + 2) / 3 && 6 * |a| / 8 == |d|
    ensures forall i :: 0 <= i < |pads| ==> pads[i] == 0x3D
    ensures Alphabetic(a) && Number(a) == BigEndian(d) * Spare(|a|)
  {
    hide Letters, SymbolValue, ALPHABET, Alphabetic, Number, BigEndian, Spare, Symbols, Above;
    var width := (4 * |d| + 2) / 3;
    var n := BigEndian(d) * Spare(width);
    DataFits(d);
    NumberOfSymbols(n, width);
    a, pads := Symbols(n, width), seq((3 - |d| % 3) % 3, _ => PAD);
    v := PlacesOf(a);
    LettersLength(a, v);
    Width(|d| / 3, |d| % 3);
  }

  lemma FilledUp(d: Bytes, a: Bytes, v: seq<nat>, p: nat)
    requires Letters(a, v) && |v| == |a| && 6 * |a| / 8 == |d| && 8 * |d| <= p < 6 * |v|
    requires Alphabetic(a) && Number(a) == BigEndian(d) * Spare(|a|)
    ensures !Bit(v[p / 6], 5 - p % 6)
  {
    hide Letters, Alphabetic, Number, BigEndian, Spare, Bit;
    var s, t := SpareBits(|a|), 6 * |a| - 1 - p;
    FromTheBack(p, |a|, 6);
    NumberBit(a, v, t);
    JoinedBit(BigEndian(d), 0, s, t);
    NoBits(t);
  }

  lemma PadIsNone(pads: Bytes)
    requires forall i :: 0 <= i < |pads| ==> pads[i] == 0x3D
    ensures pads != [] ==> pads[0] !in ALPHABET
  {
    hide ALPHABET;
    AlphabetHas(0x3D);
  }

  lemma {:induction false} NoBits(k: nat)
    ensures !Bit(0, k)
  {
    if k > 0 {
      NoBits(k - 1);
    }
  }
}
