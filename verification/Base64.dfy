/** Base64 (section 4 of RFC 4648), with a decoder that skips white space. */
module Base64 {
  import opened Common

  const PAD: byte := 0x3D

  /** The character for a six-bit value. */
  function Symbol(v: nat): byte
    requires v < 64
  {
    if v < 26 then 0x41 + v
    else if v < 52 then 0x61 + (v - 26)
    else if v < 62 then 0x30 + (v - 52)
    else if v == 62 then 0x2B
    else 0x2F
  }

  /** The six-bit value of a character of the alphabet. */
  function SymbolValue(c: byte): (r: Option<nat>)
    ensures r.Some? ==> r.value < 64 && Symbol(r.value) == c
  {
    if 0x41 <= c <= 0x5A then Some(c as int - 0x41)
    else if 0x61 <= c <= 0x7A then Some(c as int - 0x61 + 26)
    else if 0x30 <= c <= 0x39 then Some(c as int - 0x30 + 52)
    else if c == 0x2B then Some(62)
    else if c == 0x2F then Some(63)
    else None
  }

  predicate Space(c: byte) {
    c == 0x20 || c == 9 || c == 13 || c == 10
  }

  predicate Alphabetic(s: Bytes) {
    forall i :: 0 <= i < |s| ==> SymbolValue(s[i]).Some?
  }

  predicate AllPad(s: Bytes) {
    forall i :: 0 <= i < |s| ==> s[i] == PAD
  }

  /** The number whose base-64 digits are the six-bit values of `s`. */
  function Number(s: Bytes): nat
    requires Alphabetic(s)
  {
    if s == [] then 0 else 64 * Number(s[..|s| - 1]) + SymbolValue(s[|s| - 1]).value
  }

  /** The low `width` base-64 digits of `n`, as characters. */
  function Symbols(n: nat, width: nat): (s: Bytes)
    ensures |s| == width
  {
    if width == 0 then [] else Symbols(n / 64, width - 1) + [Symbol(n % 64)]
  }

  /** Bits left over from `k` six-bit values once whole octets are taken. */
  function Spare(k: nat): (r: nat)
    ensures r > 0
  {
    if k % 4 == 0 then 1 else if k % 4 == 1 then 64 else if k % 4 == 2 then 16 else 4
  }

  /** The whole octets in the concatenation of the six-bit values of `s`. */
  function Octets(s: Bytes): (r: Bytes)
    requires Alphabetic(s)
    ensures |r| == 6 * |s| / 8
  {
    ToBigEndian(Number(s) / Spare(|s|), 6 * |s| / 8)
  }

  // --------------------------------------------------------------- encoding

  /** The data as one number, extended by zero bits to whole six-bit values, then padded. */
  function Encoded(d: Bytes): Bytes {
    var width := (4 * |d| + 2) / 3;
    Symbols(BigEndian(d) * Spare(width), width) + seq((3 - |d| % 3) % 3, _ => PAD)
  }

  lemma BigEndianMore(d: Bytes, i: nat)
    requires i < |d|
    ensures BigEndian(d[..i + 1]) == 256 * BigEndian(d[..i]) + d[i] as int
  {
    assert d[..i + 1][..i] == d[..i];
  }

  lemma SymbolsMore(n: nat, r: nat, k: nat)
    requires r < 64
    ensures Symbols(64 * n + r, k + 1) == Symbols(n, k) + [Symbol(r)]
  {
    hide Symbol;
    assert (64 * n + r) / 64 == n && (64 * n + r) % 64 == r;
  }

  /** The six bits of `v` that start `shift` bits up. */
  function Field(v: nat, shift: nat): (r: nat)
    ensures r < 64
  {
    v / Pow2(shift) % 64
  }

  lemma Shifts()
    ensures Pow2(0) == 1 && Pow2(6) == 64 && Pow2(12) == 0x1000 && Pow2(18) == 0x4_0000
  {
    assert Pow2(3) == 2 * (2 * (2 * Pow2(0)));
    assert Pow2(6) == 2 * (2 * (2 * Pow2(3)));
    assert Pow2(9) == 2 * (2 * (2 * Pow2(6)));
    assert Pow2(12) == 2 * (2 * (2 * Pow2(9)));
    assert Pow2(15) == 2 * (2 * (2 * Pow2(12)));
    assert Pow2(18) == 2 * (2 * (2 * Pow2(15)));
  }

  /** A number of 24 bits, put together from its four six-bit values. */
  lemma Fields(w: nat, x: nat, y: nat, z: nat)
    requires w < 64 && x < 64 && y < 64 && z < 64
    ensures var v := 0x4_0000 * w + 0x1000 * x + 64 * y + z;
            Field(v, 18) == w && Field(v, 12) == x && Field(v, 6) == y && Field(v, 0) == z
  {
    hide Pow2;
    Shifts();
    var v := 0x4_0000 * w + 0x1000 * x + 64 * y + z;
    assert v / 0x4_0000 == w;
    assert v / 0x1000 == 64 * w + x;
    assert v / 64 == 64 * (64 * w + x) + y;
    assert v / 1 == 64 * (64 * (64 * w + x) + y) + z;
  }

  /** The four six-bit values of three octets. */
  lemma Sextets(a: nat, b: nat, c: nat)
    requires a < 256 && b < 256 && c < 256
    ensures var v := a * 0x1_0000 + b * 0x100 + c;
            && Field(v, 18) == a / 4 && Field(v, 12) == a % 4 * 16 + b / 16
            && Field(v, 6) == b % 16 * 4 + c / 64 && Field(v, 0) == c % 64
  {
    hide Field;
    Fields(a / 4, a % 4 * 16 + b / 16, b % 16 * 4 + c / 64, c % 64);
  }

  /** The number of `3 * g` octets and three more. */
  lemma BigEndianGroup(d: Bytes, i: nat)
    requires i + 3 <= |d|
    ensures BigEndian(d[..i + 3]) ==
            64 * (64 * (64 * (64 * BigEndian(d[..i]) + d[i] as int / 4) + (d[i] as int % 4 * 16 + d[i + 1] as int / 16)) +
                  (d[i + 1] as int % 16 * 4 + d[i + 2] as int / 64)) + d[i + 2] as int % 64
  {
    hide BigEndian;
    BigEndianMore(d, i);
    BigEndianMore(d, i + 1);
    BigEndianMore(d, i + 2);
  }

  method Encode(d: Bytes) returns (out: Bytes)
    ensures out == Encoded(d)
  {
    hide Symbols, Symbol, BigEndian, Encoded, Field;
    out := [];
    var i := 0;
    ghost var g := 0;
    NothingEncoded(d);
    while i + 3 <= |d|
      invariant i == 3 * g <= |d|
      invariant out == Symbols(BigEndian(d[..i]), 4 * g)
    {
      var v := d[i] as int * 0x1_0000 + d[i + 1] as int * 0x100 + d[i + 2] as int;
      EncodedGroup(d, g);
      out := out + [Symbol(Field(v, 18)), Symbol(Field(v, 12)), Symbol(Field(v, 6)), Symbol(Field(v, 0))];
      i := i + 3;
      g := g + 1;
    }
    var rem := |d| - i;
    EncodedRest(d, g);
    if rem == 1 {
      var v := d[i] as int * 0x1_0000;
      out := out + [Symbol(Field(v, 18)), Symbol(Field(v, 12)), PAD, PAD];
    } else if rem == 2 {
      var v := d[i] as int * 0x1_0000 + d[i + 1] as int * 0x100;
      out := out + [Symbol(Field(v, 18)), Symbol(Field(v, 12)), Symbol(Field(v, 6)), PAD];
    }
  }

  lemma NothingEncoded(d: Bytes)
    ensures Symbols(BigEndian(d[..0]), 0) == [] && Above(BigEndian(d[..0]), 0) == 0
  {
  }

  lemma EncodedGroup(d: Bytes, g: nat)
    requires 3 * g + 3 <= |d|
    ensures var i := 3 * g;
            var v := d[i] as int * 0x1_0000 + d[i + 1] as int * 0x100 + d[i + 2] as int;
            Symbols(BigEndian(d[..i + 3]), 4 * g + 4) ==
            Symbols(BigEndian(d[..i]), 4 * g) +
            [Symbol(Field(v, 18)), Symbol(Field(v, 12)), Symbol(Field(v, 6)), Symbol(Field(v, 0))]
  {
    hide Symbols, Symbol, BigEndian, Field;
    var n, a, b, c := BigEndian(d[..3 * g]), d[3 * g] as int, d[3 * g + 1] as int, d[3 * g + 2] as int;
    BigEndianGroup(d, 3 * g);
    Sextets(a, b, c);
    FourSymbols(n, a / 4, a % 4 * 16 + b / 16, b % 16 * 4 + c / 64, c % 64, 4 * g);
  }

  lemma FourSymbols(n: nat, w: nat, x: nat, y: nat, z: nat, k: nat)
    requires w < 64 && x < 64 && y < 64 && z < 64
    ensures Symbols(64 * (64 * (64 * (64 * n + w) + x) + y) + z, k + 4) ==
            Symbols(n, k) + [Symbol(w), Symbol(x), Symbol(y), Symbol(z)]
    ensures Symbols(64 * (64 * (64 * n + w) + x) + y, k + 3) == Symbols(n, k) + [Symbol(w), Symbol(x), Symbol(y)]
    ensures Symbols(64 * (64 * n + w) + x, k + 2) == Symbols(n, k) + [Symbol(w), Symbol(x)]
  {
    hide Symbols, Symbol;
    SymbolsMore(n, w, k);
    SymbolsMore(64 * n + w, x, k + 1);
    SymbolsMore(64 * (64 * n + w) + x, y, k + 2);
    SymbolsMore(64 * (64 * (64 * n + w) + x) + y, z, k + 3);
  }

  /** How many digits `3 * g + rem` octets have, and how many bits are added to fill them. */
  lemma Width(g: nat, rem: nat)
    requires rem <= 2
    ensures var width := (4 * (3 * g + rem) + 2) / 3;
            && width == (if rem == 0 then 4 * g else if rem == 1 then 4 * g + 2 else 4 * g + 3)
            && Spare(width) == (if rem == 0 then 1 else if rem == 1 then 16 else 4)
            && width % 4 != 1 && 6 * width / 8 == 3 * g + rem
            && (3 - (3 * g + rem) % 3) % 3 == (if rem == 0 then 0 else 3 - rem)
  {
  }

  /** The number that is written, in terms of what precedes its last, incomplete group. */
  lemma LastGroup(d: Bytes, g: nat, rem: nat)
    requires |d| == 3 * g + rem && rem <= 2
    ensures var n, a := BigEndian(d[..3 * g]), BigEndian(d) * Spare((4 * |d| + 2) / 3);
            var x := if rem >= 1 then d[3 * g] as int else 0;
            var y := if rem == 2 then d[3 * g + 1] as int else 0;
            && (rem == 0 ==> a == n)
            && (rem == 1 ==> a == 64 * (64 * n + x / 4) + x % 4 * 16)
            && (rem == 2 ==> a == 64 * (64 * (64 * n + x / 4) + (x % 4 * 16 + y / 16)) + y % 16 * 4)
  {
    hide BigEndian, Spare;
    Width(g, rem);
    assert d[..|d|] == d;
    if rem >= 1 {
      BigEndianMore(d, 3 * g);
    }
    if rem == 2 {
      BigEndianMore(d, 3 * g + 1);
    }
  }

  lemma EncodedRest(d: Bytes, g: nat)
    requires 3 * g <= |d| <= 3 * g + 2
    ensures var i := 3 * g;
            var front := Symbols(BigEndian(d[..i]), 4 * g);
            && (|d| == i ==> Encoded(d) == front)
            && (|d| == i + 1 ==>
                  var v := d[i] as int * 0x1_0000;
                  Encoded(d) == front + [Symbol(Field(v, 18)), Symbol(Field(v, 12)), PAD, PAD])
            && (|d| == i + 2 ==>
                  var v := d[i] as int * 0x1_0000 + d[i + 1] as int * 0x100;
                  Encoded(d) == front + [Symbol(Field(v, 18)), Symbol(Field(v, 12)), Symbol(Field(v, 6)), PAD])
  {
    hide Symbols, Symbol, BigEndian, Spare, Field;
    var n, rem := BigEndian(d[..3 * g]), |d| - 3 * g;
    LastGroup(d, g, rem);
    Width(g, rem);
    Pads(0);
    if rem == 1 {
      var x := d[3 * g] as int;
      Sextets(x, 0, 0);
      FourSymbols(n, x / 4, x % 4 * 16, 0, 0, 4 * g);
    } else if rem == 2 {
      var x, y := d[3 * g] as int, d[3 * g + 1] as int;
      Sextets(x, y, 0);
      FourSymbols(n, x / 4, x % 4 * 16 + y / 16, y % 16 * 4, 0, 4 * g);
    }
  }

  lemma Pads(k: nat)
    ensures AllPad(seq(k, _ => PAD))
    ensures seq(0, _ => PAD) == [] && seq(1, _ => PAD) == [PAD] && seq(2, _ => PAD) == [PAD, PAD]
  {
  }

  // --------------------------------------------------------------- decoding

  /** The text without its white space. */
  function Strip(text: Bytes): Bytes {
    if text == [] then []
    else Strip(text[..|text| - 1]) + if Space(text[|text| - 1]) then [] else [text[|text| - 1]]
  }

  /** How many characters of the alphabet `s` starts with. */
  function Body(s: Bytes): (n: nat)
    ensures n <= |s| && Alphabetic(s[..n])
    ensures n < |s| ==> SymbolValue(s[n]).None?
  {
    if s == [] || SymbolValue(s[0]).None? then 0
    else
      var n := 1 + Body(s[1..]);
      assert forall i :: 1 <= i < n ==> s[..n][i] == s[1..][..n - 1][i - 1];
      n
  }

  /** Alphabet then padding, with no lone last character. */
  predicate Acceptable(s: Bytes) {
    AllPad(s[Body(s)..]) && Body(s) % 4 != 1
  }

  function Decoded(text: Bytes): Option<Bytes> {
    var s := Strip(text);
    if Acceptable(s) then Some(Octets(s[..Body(s)])) else None
  }

  lemma Unmasked(n: nat, acc: nat, v: nat)
    requires acc == n % TWO_TO_THE_32 && v < 64
    ensures acc * 64 % TWO_TO_THE_32 + v == (64 * n + v) % TWO_TO_THE_32
  {
    var q := n / TWO_TO_THE_32;
    assert n == TWO_TO_THE_32 * q + acc;
    var hi, lo := acc / 0x400_0000, acc % 0x400_0000;
    assert acc * 64 == TWO_TO_THE_32 * hi + lo * 64;
    Residue(hi, lo * 64);
    assert 64 * n + v == TWO_TO_THE_32 * (64 * q + hi) + (lo * 64 + v);
    Residue(64 * q + hi, lo * 64 + v);
  }

  lemma Residue(q: nat, r: nat)
    requires r < TWO_TO_THE_32
    ensures (TWO_TO_THE_32 * q + r) % TWO_TO_THE_32 == r
  {
  }

  lemma LowOctet(n: nat, p: nat)
    requires p == 1 || p == 4 || p == 16
    ensures n % TWO_TO_THE_32 / p % 256 == n / p % 256
  {
    var q, r := n / TWO_TO_THE_32, n % TWO_TO_THE_32;
    assert n == TWO_TO_THE_32 * q + r;
    if p == 1 {
      DropHigh(0x100_0000 * q, r);
    } else if p == 4 {
      DropHigh(0x40_0000 * q, r / 4);
      assert n / 4 == 256 * (0x40_0000 * q) + r / 4;
    } else {
      DropHigh(0x10_0000 * q, r / 16);
      assert n / 16 == 256 * (0x10_0000 * q) + r / 16;
    }
  }

  lemma DropHigh(m: nat, t: nat)
    ensures (256 * m + t) % 256 == t % 256
  {
  }

  lemma SpareMore(k: nat, n: nat, v: nat)
    requires v < 64
    ensures k % 4 == 0 ==> (64 * n + v) / Spare(k + 1) == n / Spare(k)
    ensures k % 4 != 0 ==> (64 * n + v) / Spare(k + 1) / 256 == n / Spare(k)
  {
    var m := 64 * n + v;
    SixBits(n, v);
    Quotients(m);
  }

  lemma SixBits(n: nat, v: nat)
    requires v < 64
    ensures (64 * n + v) / 64 == n
  {
  }

  lemma Quotients(m: nat)
    ensures m / 16 / 256 == m / 64 / 64 && m / 4 / 256 == m / 64 / 16 && m / 256 == m / 64 / 4
  {
  }

  /** How many octets, spare bits and powers of two go with `k` characters. */
  lemma Counts(k: nat)
    ensures 6 * (k + 1) / 8 == 6 * k / 8 + if k % 4 == 0 then 0 else 1
    ensures k % 4 != 0 ==> Spare(k + 1) == 1 || Spare(k + 1) == 4 || Spare(k + 1) == 16
    ensures 6 * k % 8 == (if k % 4 == 0 then 0 else if k % 4 == 1 then 6 else if k % 4 == 2 then 4 else 2)
    ensures k % 4 != 0 ==> 6 * k % 8 >= 2 && Spare(k + 1) == Two(6 * k % 8 - 2)
    ensures 6 * (k + 1) % 8 == if k % 4 == 0 then 6 else 6 * k % 8 - 2
  {
    var q := k / 4;
    assert k == 4 * q + k % 4;
  }

  lemma NumberMore(s: Bytes, c: byte)
    requires Alphabetic(s) && SymbolValue(c).Some?
    ensures Alphabetic(s + [c]) && Number(s + [c]) == 64 * Number(s) + SymbolValue(c).value
  {
    assert (s + [c])[..|s|] == s;
  }

  /** One more character: the accumulator is never masked, yet its low bits are right. */
  lemma OctetsSnoc(s: Bytes, c: byte, acc: nat)
    requires Alphabetic(s) && SymbolValue(c).Some?
    requires acc == Number(s) % TWO_TO_THE_32
    ensures Alphabetic(s + [c])
    ensures var next := (acc * 64 % TWO_TO_THE_32) + SymbolValue(c).value;
            && next == Number(s + [c]) % TWO_TO_THE_32
            && Octets(s + [c]) ==
               Octets(s) + if |s| % 4 == 0 then [] else [next / Spare(|s| + 1) % 256]
  {
    hide Number, SymbolValue, Alphabetic, Spare;
    var n, v := Number(s), SymbolValue(c).value;
    NumberMore(s, c);
    Unmasked(n, acc, v);
    SpareMore(|s|, n, v);
    Counts(|s|);
    if |s| % 4 != 0 {
      LowOctet(64 * n + v, Spare(|s| + 1));
    }
  }

  /** Where the decoder is: what it has seen is `a` and then `pads`. */
  ghost predicate Progress(seen: Bytes, out: Bytes, acc: nat, bits: int, done: bool, a: Bytes, pads: Bytes) {
    && seen == a + pads && Alphabetic(a) && AllPad(pads) && (done <==> pads != [])
    && out == Octets(a) && acc == Number(a) % TWO_TO_THE_32 && bits == 6 * |a| % 8
  }

  lemma Padded(seen: Bytes, out: Bytes, acc: nat, bits: int, done: bool, a: Bytes, pads: Bytes)
    requires Progress(seen, out, acc, bits, done, a, pads)
    ensures Progress(seen + [PAD], out, acc, bits, true, a, pads + [PAD])
  {
    hide Octets, Number, Alphabetic;
    assert (a + pads) + [PAD] == a + (pads + [PAD]);
  }

  lemma Symbolic(seen: Bytes, out: Bytes, acc: nat, bits: int, a: Bytes, pads: Bytes, c: byte)
    requires Progress(seen, out, acc, bits, false, a, pads) && SymbolValue(c).Some?
    ensures var next := acc * 64 % TWO_TO_THE_32 + SymbolValue(c).value;
            if bits + 6 >= 8
            then bits >= 2 && Progress(seen + [c], out + [next / Two(bits - 2) % 256], next, bits - 2, false, a + [c], pads)
            else Progress(seen + [c], out, next, bits + 6, false, a + [c], pads)
  {
    hide Octets, Number, Alphabetic, SymbolValue, AllPad, Spare, Two;
    Counts(|a|);
    OctetsSnoc(a, c, acc);
    assert (a + pads) + [c] == (a + [c]) + pads;
    assert Octets(a) + [] == Octets(a);
  }

  method Decode(text: Bytes) returns (r: Option<Bytes>)
    ensures r == Decoded(text)
  {
    hide Decoded, Progress, Strip, SymbolValue;
    var out: Bytes := [];
    var acc: nat := 0;
    var bits := 0;
    var done := false;
    ghost var a: Bytes := [];
    ghost var pads: Bytes := [];
    NothingYet(text);
    for i := 0 to |text|
      invariant Progress(Strip(text[..i]), out, acc, bits, done, a, pads)
    {
      var c := text[i];
      StripStep(text, i);
      if Space(c) {
        assert Strip(text[..i]) + [] == Strip(text[..i]);
        continue;
      }
      if c == PAD {
        Padded(Strip(text[..i]), out, acc, bits, done, a, pads);
        done := true;
        pads := pads + [c];
        continue;
      }
      Misplaced(text, i, out, acc, bits, done, a, pads);
      if done {
        return None;
      }
      var v := SymbolValue(c);
      if v.None? {
        return None;
      }
      Symbolic(Strip(text[..i]), out, acc, bits, a, pads, c);
      acc := acc * 64 % TWO_TO_THE_32 + v.value;
      bits := bits + 6;
      if bits >= 8 {
        bits := bits - 8;
        out := out + [acc / Two(bits) % 256];
      }
      a := a + [c];
    }
    Complete(text, out, acc, bits, done, a, pads);
    if bits == 6 {
      return None;
    }
    return Some(out);
  }

  lemma Complete(text: Bytes, out: Bytes, acc: nat, bits: int, done: bool, a: Bytes, pads: Bytes)
    requires Progress(Strip(text[..|text|]), out, acc, bits, done, a, pads)
    ensures Decoded(text) == if bits == 6 then None else Some(out)
  {
    hide Octets, Number, Alphabetic, Strip, Acceptable, AllPad;
    Counts(|a|);
    assert text[..|text|] == text;
    NoSpaces(a, pads);
    BodyOf(a, pads);
  }

  /** A shift by `bits`, as a division. */
  function Two(bits: nat): (r: nat)
    ensures bits == 0 ==> r == 1
    ensures bits == 2 ==> r == 4
    ensures bits == 4 ==> r == 16
    ensures r > 0
  {
    assert Pow2(2) == 2 * (2 * Pow2(0));
    assert Pow2(4) == 2 * (2 * Pow2(2));
    Pow2(bits)
  }

  lemma NothingYet(text: Bytes)
    ensures Progress(Strip(text[..0]), [], 0, 0, false, [], [])
  {
    assert text[..0] == [];
  }

  lemma StripStep(text: Bytes, i: nat)
    requires i < |text|
    ensures Strip(text[..i + 1]) == Strip(text[..i]) + if Space(text[i]) then [] else [text[i]]
  {
    assert text[..i + 1][..i] == text[..i];
  }

  lemma {:induction false} StripConcat(s: Bytes, t: Bytes)
    ensures Strip(s + t) == Strip(s) + Strip(t)
    decreases |t|
  {
    hide Space;
    if t == [] {
      assert s + t == s;
    } else {
      var last := |t| - 1;
      assert (s + t)[..|s + t| - 1] == s + t[..last];
      StripConcat(s, t[..last]);
    }
  }

  lemma {:induction false} BodyOf(a: Bytes, rest: Bytes)
    requires Alphabetic(a) && (rest != [] ==> SymbolValue(rest[0]).None?)
    ensures Body(a + rest) == |a| && (a + rest)[..|a|] == a && (a + rest)[|a|..] == rest
    ensures Acceptable(a + rest) <==> AllPad(rest) && |a| % 4 != 1
  {
    if a != [] {
      BodyOf(a[1..], rest);
      assert (a + rest)[1..] == a[1..] + rest;
    }
  }

  /** A character that is neither white space nor padding cannot follow padding, nor be outside the alphabet. */
  lemma Misplaced(text: Bytes, i: nat, out: Bytes, acc: nat, bits: int, done: bool, a: Bytes, pads: Bytes)
    requires i < |text| && Progress(Strip(text[..i]), out, acc, bits, done, a, pads)
    requires !Space(text[i]) && text[i] != PAD
    ensures done || SymbolValue(text[i]).None? ==> Decoded(text) == None
  {
    hide Strip, Alphabetic, Acceptable, Octets, Number;
    var c, more := text[i], Strip(text[i + 1..]);
    StripStep(text, i);
    assert text == text[..i + 1] + text[i + 1..];
    StripConcat(text[..i + 1], text[i + 1..]);
    var rest := pads + ([c] + more);
    assert Strip(text) == a + rest;
    assert rest[|pads|] == c;
    if done || SymbolValue(c).None? {
      BodyOf(a, rest);
    }
  }

  // ------------------------------------------------------------ round trip

  /** `n` without its low `width` base-64 digits. */
  function Above(n: nat, width: nat): nat {
    if width == 0 then n else Above(n / 64, width - 1)
  }

  lemma {:induction false} NumberOfSymbols(n: nat, width: nat)
    requires Above(n, width) == 0
    ensures Alphabetic(Symbols(n, width)) && Number(Symbols(n, width)) == n
  {
    hide Symbol, SymbolValue;
    if width > 0 {
      NumberOfSymbols(n / 64, width - 1);
      SymbolReads(n % 64);
      NumberMore(Symbols(n / 64, width - 1), Symbol(n % 64));
    }
  }

  lemma SymbolReads(v: nat)
    requires v < 64
    ensures SymbolValue(Symbol(v)) == Some(v)
  {
  }

  lemma AboveMore(n: nat, r: nat, k: nat)
    requires r < 64
    ensures Above(64 * n + r, k + 1) == Above(n, k)
  {
    assert (64 * n + r) / 64 == n;
  }

  lemma {:induction false} GroupsFit(d: Bytes, g: nat)
    requires 3 * g <= |d|
    ensures Above(BigEndian(d[..3 * g]), 4 * g) == 0
  {
    hide Above, BigEndian;
    if g > 0 {
      var i, k := 3 * (g - 1), 4 * (g - 1);
      GroupsFit(d, g - 1);
      BigEndianGroup(d, i);
      var a, b, c := d[i] as int, d[i + 1] as int, d[i + 2] as int;
      AboveFour(BigEndian(d[..i]), a / 4, a % 4 * 16 + b / 16, b % 16 * 4 + c / 64, c % 64, k);
    } else {
      NothingEncoded(d);
    }
  }

  lemma AboveFour(n: nat, w: nat, x: nat, y: nat, z: nat, k: nat)
    requires w < 64 && x < 64 && y < 64 && z < 64
    ensures Above(64 * (64 * (64 * (64 * n + w) + x) + y) + z, k + 4) == Above(n, k)
    ensures Above(64 * (64 * (64 * n + w) + x) + y, k + 3) == Above(n, k)
    ensures Above(64 * (64 * n + w) + x, k + 2) == Above(n, k)
  {
    hide Above;
    AboveMore(n, w, k);
    AboveMore(64 * n + w, x, k + 1);
    AboveMore(64 * (64 * n + w) + x, y, k + 2);
    AboveMore(64 * (64 * (64 * n + w) + x) + y, z, k + 3);
  }

  /** The data fits in its digits. */
  lemma DataFits(d: Bytes)
    ensures var width := (4 * |d| + 2) / 3; Above(BigEndian(d) * Spare(width), width) == 0
  {
    hide Above, BigEndian, Spare;
    var g, rem := |d| / 3, |d| % 3;
    GroupsFit(d, g);
    LastGroup(d, g, rem);
    Width(g, rem);
    var n := BigEndian(d[..3 * g]);
    if rem == 1 {
      var x := d[3 * g] as int;
      AboveFour(n, x / 4, x % 4 * 16, 0, 0, 4 * g);
    } else if rem == 2 {
      var x, y := d[3 * g] as int, d[3 * g + 1] as int;
      AboveFour(n, x / 4, x % 4 * 16 + y / 16, y % 16 * 4, 0, 4 * g);
    }
  }

  lemma {:induction false} OctetsOfNumber(d: Bytes)
    ensures ToBigEndian(BigEndian(d), |d|) == d
  {
    if d != [] {
      OctetsOfNumber(d[..|d| - 1]);
    }
  }

  /** `text` is `bare` with spaces, tabs, carriage returns and line feeds inserted. */
  predicate Interspersed(text: Bytes, bare: Bytes) {
    if text == [] then bare == []
    else
      var c := text[|text| - 1];
      if c in Ascii(" \t\r\n") then Interspersed(text[..|text| - 1], bare)
      else bare != [] && bare[|bare| - 1] == c && Interspersed(text[..|text| - 1], bare[..|bare| - 1])
  }

  lemma SpaceIs(c: byte)
    ensures Space(c) <==> c in Ascii(" \t\r\n")
  {
    var s := Ascii(" \t\r\n");
    assert s == [0x20, 9, 13, 10];
  }

  lemma {:induction false} InterspersedIs(text: Bytes, bare: Bytes)
    ensures Interspersed(text, bare) <==> Strip(text) == bare
  {
    hide Space;
    if text != [] {
      var front, c := text[..|text| - 1], text[|text| - 1];
      SpaceIs(c);
      if Space(c) {
        InterspersedIs(front, bare);
      } else if bare != [] {
        InterspersedIs(front, bare[..|bare| - 1]);
        assert bare == bare[..|bare| - 1] + [bare[|bare| - 1]];
      }
    }
  }

  /** Decoding inverts encoding, with white space inserted anywhere. */
  lemma DecodeInvertsEncode(d: Bytes, text: Bytes)
    requires Interspersed(text, Encoded(d))
    ensures Decoded(text) == Some(d)
  {
    InterspersedIs(text, Encoded(d));
    hide Interspersed, Strip, Symbols, Acceptable, Body, Spare, Alphabetic, Number, BigEndian, ToBigEndian;
    var width := (4 * |d| + 2) / 3;
    Width(|d| / 3, |d| % 3);
    var n := BigEndian(d) * Spare(width);
    var a, pads := Symbols(n, width), seq((3 - |d| % 3) % 3, _ => PAD);
    DataFits(d);
    NumberOfSymbols(n, width);
    BodyOf(a, pads);
    OctetsOfNumber(d);
    assert BigEndian(d) * Spare(width) / Spare(width) == BigEndian(d) by { Undo(BigEndian(d), Spare(width)); }
  }

  lemma Undo(n: nat, p: nat)
    requires p == 1 || p == 4 || p == 16
    ensures n * p / p == n
  {
    if p == 1 {
      assert n * 1 / 1 == n;
    } else if p == 4 {
      assert n * 4 / 4 == n;
    } else {
      assert n * 16 / 16 == n;
    }
  }

  lemma NoSpaces(a: Bytes, pads: Bytes)
    requires Alphabetic(a) && AllPad(pads)
    ensures forall i :: 0 <= i < |a + pads| ==> !Space((a + pads)[i])
    ensures pads != [] ==> SymbolValue(pads[0]).None?
  {
  }

  /** The encoded form has no white space in it, and its length is a multiple of four. */
  lemma EncodedIsBare(d: Bytes)
    ensures Interspersed(Encoded(d), Encoded(d))
    ensures |Encoded(d)| == (|d| + 2) / 3 * 4
  {
    hide Interspersed, Strip, Symbols, Spare, BigEndian, Space, Alphabetic, Number, AllPad, Above;
    var g, rem := |d| / 3, |d| % 3;
    Width(g, rem);
    var width := (4 * |d| + 2) / 3;
    DataFits(d);
    NumberOfSymbols(BigEndian(d) * Spare(width), width);
    var a, pads := Symbols(BigEndian(d) * Spare(width), width), seq((3 - |d| % 3) % 3, _ => PAD);
    Pads((3 - |d| % 3) % 3);
    NoSpaces(a, pads);
    StripKeeps(a + pads);
    InterspersedIs(a + pads, a + pads);
    assert (3 * g + rem + 2) / 3 == g + if rem == 0 then 0 else 1;
  }

  lemma {:induction false} StripKeeps(s: Bytes)
    requires forall i :: 0 <= i < |s| ==> !Space(s[i])
    ensures Strip(s) == s
  {
    if s != [] {
      StripKeeps(s[..|s| - 1]);
    }
  }

  /**
   A text is decoded exactly when, without its white space, it is characters of
   the alphabet and then padding, with a count of the former that is not 1
   modulo 4; and it gives the whole octets of their six-bit values.
   */
  lemma DecodesExactly(text: Bytes, a: Bytes, pads: Bytes)
    requires Interspersed(text, a + pads) && Alphabetic(a) && (pads != [] ==> SymbolValue(pads[0]).None?)
    ensures Decoded(text) == if AllPad(pads) && |a| % 4 != 1 then Some(Octets(a)) else None
  {
    hide Interspersed, Strip, Acceptable, Body, Octets;
    InterspersedIs(text, a + pads);
    BodyOf(a, pads);
  }
}
