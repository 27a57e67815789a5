/**
 UTF-8 (section 4 of RFC 3629), as an automaton over octets and as the
 encoding of a list of scalar values, with a proof that the two agree.
 */
module Utf8 {
  import opened Common

  // -------------------------------------------------------------- automaton

  /** What may come next: a new character, or the rest of one. */
  datatype State = Start | Tail1 | Tail2 | Tail3 | AfterE0 | AfterED | AfterF0 | AfterF4 | Bad

  predicate Between(lo: int, b: byte, hi: int) {
    lo <= b <= hi
  }

  function Step(st: State, b: byte): State {
    match st
    case Start =>
      if b < 0x80 then Start
      else if Between(0xC2, b, 0xDF) then Tail1
      else if b == 0xE0 then AfterE0
      else if b == 0xED then AfterED
      else if Between(0xE1, b, 0xEF) then Tail2
      else if b == 0xF0 then AfterF0
      else if Between(0xF1, b, 0xF3) then Tail3
      else if b == 0xF4 then AfterF4
      else Bad
    case Tail1 => if Between(0x80, b, 0xBF) then Start else Bad
    case Tail2 => if Between(0x80, b, 0xBF) then Tail1 else Bad
    case Tail3 => if Between(0x80, b, 0xBF) then Tail2 else Bad
    case AfterE0 => if Between(0xA0, b, 0xBF) then Tail1 else Bad
    case AfterED => if Between(0x80, b, 0x9F) then Tail1 else Bad
    case AfterF0 => if Between(0x90, b, 0xBF) then Tail2 else Bad
    case AfterF4 => if Between(0x80, b, 0x8F) then Tail2 else Bad
    case Bad => Bad
  }

  function Run(st: State, s: Bytes): State
    decreases |s|
  {
    if s == [] then st else Run(Step(st, s[0]), s[1..])
  }

  predicate Valid(s: Bytes) {
    Run(Start, s) == Start
  }

  lemma {:induction false} RunConcat(st: State, s: Bytes, t: Bytes)
    ensures Run(st, s + t) == Run(Run(st, s), t)
    decreases |s|
  {
    if s == [] {
      assert s + t == t;
    } else {
      assert (s + t)[1..] == s[1..] + t;
      RunConcat(Step(st, s[0]), s[1..], t);
    }
  }

  lemma {:induction false} BadForever(s: Bytes)
    ensures Run(Bad, s) == Bad
  {
    if s != [] {
      BadForever(s[1..]);
    }
  }

  lemma ValidConcat(s: Bytes, t: Bytes)
    requires Valid(s) && Valid(t)
    ensures Valid(s + t)
  {
    RunConcat(Start, s, t);
  }

  /** An ASCII octet can only stand between characters. */
  lemma AsciiBetweenCharacters(st: State, s: Bytes)
    requires s != [] && s[0] < 0x80 && Run(st, s) == Start
    ensures st == Start && Valid(s[1..])
  {
    if st != Start {
      BadForever(s[1..]);
    }
  }

  // ---------------------------------------------------------- scalar values

  /** A Unicode scalar value: a code point that is not a surrogate. */
  type Scalar = cp: nat | cp <= 0x10FFFF && !(0xD800 <= cp <= 0xDFFF)

  function Encode(cp: Scalar): (r: Bytes)
    ensures 1 <= |r| <= 4
  {
    if cp < 0x80 then [cp]
    else if cp < 0x800 then [0xC0 + cp / 64, 0x80 + cp % 64]
    else if cp < 0x10000 then [0xE0 + cp / 4096, 0x80 + cp / 64 % 64, 0x80 + cp % 64]
    else [0xF0 + cp / 262144, 0x80 + cp / 4096 % 64, 0x80 + cp / 64 % 64, 0x80 + cp % 64]
  }

  function EncodeAll(cps: seq<Scalar>): Bytes {
    if cps == [] then [] else Encode(cps[0]) + EncodeAll(cps[1..])
  }

  lemma RunShort(st: State, a: byte, b: byte, c: byte, d: byte)
    ensures Run(st, [a]) == Step(st, a)
    ensures Run(st, [a, b]) == Step(Step(st, a), b)
    ensures Run(st, [a, b, c]) == Step(Step(Step(st, a), b), c)
    ensures Run(st, [a, b, c, d]) == Step(Step(Step(Step(st, a), b), c), d)
  {
    hide Step;
    RunOne(st, a, []);
    RunOne(st, a, [b]);
    RunOne(st, a, [b, c]);
    RunOne(st, a, [b, c, d]);
    var st1 := Step(st, a);
    RunOne(st1, b, []);
    RunOne(st1, b, [c]);
    RunOne(st1, b, [c, d]);
    var st2 := Step(st1, b);
    RunOne(st2, c, []);
    RunOne(st2, c, [d]);
    RunOne(Step(st2, c), d, []);
  }

  lemma RunOne(st: State, a: byte, s: Bytes)
    ensures Run(st, [a] + s) == Run(Step(st, a), s)
    ensures Run(st, []) == st
  {
    hide Step;
    assert ([a] + s)[1..] == s;
  }

  lemma RunOctet(st: State, a: byte)
    ensures Run(st, [a]) == Step(st, a)
  {
    RunOne(st, a, []);
  }

  /** The leading octets that section 4 of RFC 3629 restricts, told by code point. */
  lemma Ranges(cp: Scalar)
    ensures 0x80 <= cp < 0x800 ==> 2 <= cp / 64 <= 31
    ensures 0x800 <= cp < 0x10000 ==>
              cp / 4096 <= 15 && (cp / 4096 == 0 ==> cp / 64 % 64 >= 32) && (cp / 4096 == 13 ==> cp / 64 % 64 < 32)
    ensures 0x10000 <= cp ==>
              cp / 262144 <= 4 && (cp / 262144 == 0 ==> cp / 4096 % 64 >= 16) &&
              (cp / 262144 == 4 ==> cp / 4096 % 64 < 16)
  {
    DivTwice(cp);
  }

  lemma DivTwice(n: int)
    ensures n / 4096 == n / 64 / 64 && n / 262144 == n / 4096 / 64
  {
  }

  lemma EncodeValid(cp: Scalar)
    ensures Valid(Encode(cp))
  {
    hide Run;
    var r := Encode(cp);
    Ranges(cp);
    RunShort(Start, r[0], if |r| > 1 then r[1] else 0, if |r| > 2 then r[2] else 0, if |r| > 3 then r[3] else 0);
  }

  /** The six bits a trailing octet carries. */
  function Tail(b: byte): int {
    b - 0x80
  }

  /** The code point at the front of a valid text. */
  function First(s: Bytes): (cp: int)
    requires s != [] && Valid(s)
  {
    Lead(s);
    if s[0] < 0x80 then s[0]
    else if s[0] < 0xE0 then (s[0] as int - 0xC0) * 64 + Tail(s[1])
    else if s[0] < 0xF0 then (s[0] as int - 0xE0) * 4096 + Tail(s[1]) * 64 + Tail(s[2])
    else (s[0] as int - 0xF0) * 262144 + Tail(s[1]) * 4096 + Tail(s[2]) * 64 + Tail(s[3])
  }

  lemma Digits(cp: nat)
    ensures cp == cp / 64 * 64 + cp % 64
    ensures cp == cp / 4096 * 4096 + cp / 64 % 64 * 64 + cp % 64
    ensures cp == cp / 262144 * 262144 + cp / 4096 % 64 * 4096 + cp / 64 % 64 * 64 + cp % 64
  {
    DivTwice(cp);
  }

  /** The octets of section 3 of RFC 3629, as their leading bits and the bits of the code point they carry. */
  lemma EncodeLayout(cp: Scalar)
    ensures var r := Encode(cp);
            && |r| == (if cp < 0x80 then 1 else if cp < 0x800 then 2 else if cp < 0x10000 then 3 else 4)
            && (forall i :: 1 <= i < |r| ==> 0x80 <= r[i] < 0xC0)
            && (|r| == 1 ==> cp == r[0])
            && (|r| == 2 ==> 0xC0 <= r[0] < 0xE0 && cp == 0x40 * (r[0] as int - 0xC0) + (r[1] as int - 0x80))
            && (|r| == 3 ==>
                  0xE0 <= r[0] < 0xF0 &&
                  cp == 0x1000 * (r[0] as int - 0xE0) + 0x40 * (r[1] as int - 0x80) + (r[2] as int - 0x80))
            && (|r| == 4 ==>
                  0xF0 <= r[0] < 0xF8 &&
                  cp == 0x40000 * (r[0] as int - 0xF0) + 0x1000 * (r[1] as int - 0x80) +
                        0x40 * (r[2] as int - 0x80) + (r[3] as int - 0x80))
  {
    Digits(cp);
    Ranges(cp);
  }

  lemma EncodeFirst(cp: Scalar)
    ensures Valid(Encode(cp)) && First(Encode(cp)) == cp
  {
    hide Valid, Run, Step;
    EncodeValid(cp);
    Digits(cp);
    var s := Encode(cp);
    if 0x80 <= cp < 0x800 {
      assert s[0] as int - 0xC0 == cp / 64 && Tail(s[1]) == cp % 64;
    } else if 0x800 <= cp < 0x10000 {
      assert s[0] as int - 0xE0 == cp / 4096 && Tail(s[1]) == cp / 64 % 64 && Tail(s[2]) == cp % 64;
    } else if 0x10000 <= cp {
      assert s[0] as int - 0xF0 == cp / 262144 && Tail(s[1]) == cp / 4096 % 64;
      assert Tail(s[2]) == cp / 64 % 64 && Tail(s[3]) == cp % 64;
    }
  }

  /** An encoding denotes its code point, and nothing else. */
  lemma EncodeDenotes(cp: Scalar)
    ensures Valid(Encode(cp)) && First(Encode(cp)) == cp && Scalars(Encode(cp)) == [cp]
  {
    hide Valid, Run, Step, Encode, First;
    EncodeFirst(cp);
    var s := Encode(cp);
    FirstEncodes(s);
    assert s[|s|..] == [];
    assert Scalars(s[|s|..]) == [];
  }

  /** The digits of a code point to the base 64 are read off it by division. */
  lemma Sextets(a: int, b: int, c: int, d: int)
    requires 0 <= b < 64 && 0 <= c < 64 && 0 <= d < 64
    ensures var cp := a * 262144 + b * 4096 + c * 64 + d;
            cp % 64 == d && cp / 64 % 64 == c && cp / 4096 % 64 == b && cp / 262144 == a
  {
    var cp := a * 262144 + b * 4096 + c * 64 + d;
    LastSextet(a * 4096 + b * 64 + c, d);
    LastSextet(a * 64 + b, c);
    LastSextet(a, b);
    DivTwice(cp);
  }

  lemma LastSextet(n: int, d: int)
    requires 0 <= d < 64
    ensures (64 * n + d) / 64 == n && (64 * n + d) % 64 == d
  {
  }

  lemma EncodeTwo(a: int, b: int)
    requires 2 <= a < 32 && 0 <= b < 64
    ensures Encode(a * 64 + b) == [0xC0 + a, 0x80 + b]
  {
    LastSextet(a, b);
  }

  lemma EncodeThree(a: int, b: int, c: int)
    requires 0 <= a < 16 && 0 <= b < 64 && 0 <= c < 64 && (a == 0 ==> b >= 32) && (a == 13 ==> b < 32)
    ensures Encode(a * 4096 + b * 64 + c) == [0xE0 + a, 0x80 + b, 0x80 + c]
  {
    Sextets(0, a, b, c);
  }

  lemma EncodeFour(a: int, b: int, c: int, d: int)
    requires 0 <= a <= 4 && 0 <= b < 64 && 0 <= c < 64 && 0 <= d < 64 && (a == 0 ==> b >= 16) && (a == 4 ==> b < 16)
    ensures Encode(a * 262144 + b * 4096 + c * 64 + d) == [0xF0 + a, 0x80 + b, 0x80 + c, 0x80 + d]
  {
    Sextets(a, b, c, d);
  }

  /** It is a scalar value, and its encoding is what the text begins with. */
  lemma FirstEncodes(s: Bytes)
    requires s != [] && Valid(s)
    ensures var cp := First(s);
            0 <= cp <= 0x10FFFF && !(0xD800 <= cp <= 0xDFFF) &&
            Encode(cp) <= s && Valid(s[|Encode(cp)|..])
  {
    Lead(s);
    hide Valid, Encode;
    if s[0] < 0x80 {
      EncodeOne(s[0]);
    } else if s[0] < 0xE0 {
      EncodeTwo(s[0] - 0xC0, Tail(s[1]));
    } else if s[0] < 0xF0 {
      EncodeThree(s[0] - 0xE0, Tail(s[1]), Tail(s[2]));
    } else {
      EncodeFour(s[0] - 0xF0, Tail(s[1]), Tail(s[2]), Tail(s[3]));
    }
  }

  lemma EncodeOne(a: byte)
    requires a < 0x80
    ensures Encode(a) == [a]
  {
  }

  /** The shapes a character at the front of a valid text can have. */
  lemma Lead(s: Bytes)
    requires s != [] && Valid(s)
    ensures s[0] < 0x80 ==> Valid(s[1..])
    ensures 0x80 <= s[0] < 0xE0 ==> 0xC2 <= s[0] && |s| >= 2 && 0x80 <= s[1] <= 0xBF && Valid(s[2..])
    ensures 0xE0 <= s[0] < 0xF0 ==>
              && |s| >= 3 && 0x80 <= s[1] <= 0xBF && 0x80 <= s[2] <= 0xBF && Valid(s[3..])
              && (s[0] == 0xE0 ==> s[1] >= 0xA0) && (s[0] == 0xED ==> s[1] <= 0x9F)
    ensures 0xF0 <= s[0] ==>
              && s[0] <= 0xF4 && |s| >= 4
              && 0x80 <= s[1] <= 0xBF && 0x80 <= s[2] <= 0xBF && 0x80 <= s[3] <= 0xBF && Valid(s[4..])
              && (s[0] == 0xF0 ==> s[1] >= 0x90) && (s[0] == 0xF4 ==> s[1] <= 0x8F)
  {
    var st1 := Step(Start, s[0]);
    Continues(st1, s[1..]);
    if st1 != Start {
      var st2 := Step(st1, s[1]);
      Continues(st2, s[1..][1..]);
      assert s[1..][1..] == s[2..];
      if st2 != Start {
        var st3 := Step(st2, s[2]);
        Continues(st3, s[2..][1..]);
        assert s[2..][1..] == s[3..];
        if st3 != Start {
          assert s[3..][1..] == s[4..];
          Continues(Step(st3, s[3]), s[3..][1..]);
        }
      }
    }
  }

  lemma Continues(st: State, s: Bytes)
    requires Run(st, s) == Start
    ensures st != Bad
    ensures st != Start ==> s != []
  {
    BadForever(s);
  }

  function Scalars(s: Bytes): (cps: seq<Scalar>)
    requires Valid(s)
    decreases |s|
  {
    if s == [] then [] else
    FirstEncodes(s);
    [First(s)] + Scalars(s[|Encode(First(s))|..])
  }

  lemma {:induction false} ScalarsEncode(s: Bytes)
    requires Valid(s)
    ensures EncodeAll(Scalars(s)) == s
    decreases |s|
  {
    hide Encode, Run, First;
    if s != [] {
      FirstEncodes(s);
      var n := |Encode(First(s))|;
      ScalarsEncode(s[n..]);
      assert Scalars(s)[1..] == Scalars(s[n..]);
      assert s[..n] + s[n..] == s;
    }
  }

  lemma {:induction false} EncodeAllValid(cps: seq<Scalar>)
    ensures Valid(EncodeAll(cps))
  {
    if cps != [] {
      EncodeValid(cps[0]);
      EncodeAllValid(cps[1..]);
      ValidConcat(Encode(cps[0]), EncodeAll(cps[1..]));
    }
  }

  /** The automaton accepts exactly the encodings of lists of scalar values. */
  lemma ValidIffEncoded(s: Bytes)
    ensures Valid(s) <==> exists cps: seq<Scalar> :: EncodeAll(cps) == s
  {
    if Valid(s) {
      ScalarsEncode(s);
    }
    if exists cps: seq<Scalar> :: EncodeAll(cps) == s {
      var cps: seq<Scalar> :| EncodeAll(cps) == s;
      EncodeAllValid(cps);
    }
  }
}
