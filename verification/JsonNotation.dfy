/** The characters of JSON text and what they stand for, in the terms of RFC 8259 itself. */
module JsonNotation {
  import opened Common
  import opened Json
  import opened JsonText
  import JsonRoundTrip

  // ---------------------------------------------------------------- numbers

  type Digit = d: nat | d < 10

  function Spelled(ds: seq<Digit>): (r: Bytes)
    ensures |r| == |ds|
  {
    seq(|ds|, i requires 0 <= i < |ds| => Ascii("0123456789")[ds[i]])
  }

  /** The number decimal digits denote. */
  function Numeral(ds: seq<Digit>): nat {
    if ds == [] then 0 else 10 * Numeral(ds[..|ds| - 1]) + ds[|ds| - 1]
  }

  /** Ten to the power of `k`. */
  function TenTo(k: int): (r: real)
    ensures r > 0.0
    decreases if k < 0 then -k else k
  {
    if k == 0 then 1.0 else if k > 0 then 10.0 * TenTo(k - 1) else TenTo(k + 1) / 10.0
  }

  /** An exponent part: its letter, its sign if it has one, and its digits. */
  datatype Power = Power(letter: char, sign: string, digits: seq<Digit>)

  /** A number in decimal notation. */
  datatype Decimal = Decimal(negative: bool, whole: seq<Digit>, fraction: Option<seq<Digit>>, power: Option<Power>)

  predicate WellFormed(d: Decimal) {
    && (d.whole != [] || (d.fraction.Some? && d.fraction.value != []))
    && (d.power.Some? ==>
          && d.power.value.digits != []
          && (d.power.value.letter == 'e' || d.power.value.letter == 'E')
          && (d.power.value.sign == "" || d.power.value.sign == "+" || d.power.value.sign == "-"))
  }

  function FractionText(d: Decimal): Bytes {
    match d.fraction
    case None => []
    case Some(f) => Ascii(".") + Spelled(f)
  }

  function PowerText(d: Decimal): Bytes {
    match d.power
    case None => []
    case Some(p) => Ascii([p.letter]) + (Ascii(p.sign) + Spelled(p.digits))
  }

  function Unsigned(d: Decimal): Bytes {
    Spelled(d.whole) + (FractionText(d) + PowerText(d))
  }

  function Written(d: Decimal): Bytes {
    Ascii(if d.negative then "-" else "") + Unsigned(d)
  }

  function FractionDigits(d: Decimal): seq<Digit> {
    match d.fraction case None => [] case Some(f) => f
  }

  function PowerValue(d: Decimal): int {
    match d.power
    case None => 0
    case Some(p) => if p.sign == "-" then -(Numeral(p.digits) as int) else Numeral(p.digits)
  }

  /** The digits before and behind the point as one number, scaled by the exponent less the digits behind it. */
  function Denoted(d: Decimal): real {
    var m := Numeral(d.whole + FractionDigits(d)) as real;
    (if d.negative then -m else m) * TenTo(PowerValue(d) - |FractionDigits(d)|)
  }

  lemma {:induction false} SpelledValue(ds: seq<Digit>)
    ensures forall i :: 0 <= i < |ds| ==> IsDigit(Spelled(ds)[i])
    ensures DecimalValue(Spelled(ds)) == Numeral(ds)
  {
    if ds != [] {
      var last := |ds| - 1;
      SpelledValue(ds[..last]);
      assert Spelled(ds)[..last] == Spelled(ds[..last]);
      DigitCode(ds[last]);
      assert Spelled(ds)[last] == Ascii("0123456789")[ds[last]];
      forall i | 0 <= i < last ensures IsDigit(Spelled(ds)[i]) {
        assert Spelled(ds)[i] == Spelled(ds[..last])[i];
      }
    }
  }

  lemma DigitCode(d: Digit)
    ensures Ascii("0123456789")[d] == 0x30 + d as int
  {
    var s := "0123456789";
    assert s[0] == '0' && s[1] == '1' && s[2] == '2' && s[3] == '3' && s[4] == '4';
    assert s[5] == '5' && s[6] == '6' && s[7] == '7' && s[8] == '8' && s[9] == '9';
  }

  lemma {:induction false} NumeralConcat(a: seq<Digit>, b: seq<Digit>)
    ensures Numeral(a + b) == Numeral(a) * Pow10(|b|) + Numeral(b)
    decreases |b|
  {
    if b == [] {
      assert a + b == a;
      NumeralOfNothing(Numeral(a));
    } else {
      var last := |b| - 1;
      assert (a + b)[..|a + b| - 1] == a + b[..last];
      NumeralConcat(a, b[..last]);
      TimesTen(Numeral(a), Pow10(last), Numeral(b[..last]), b[last]);
    }
  }

  lemma TimesTen(n: nat, p: nat, m: nat, d: nat)
    ensures 10 * (n * p + m) + d == n * (10 * p) + (10 * m + d)
  {
  }

  lemma {:induction false} PowerIsTenTo(k: nat)
    ensures Pow10(k) as real == TenTo(k)
    ensures TenTo(-(k as int)) * Pow10(k) as real == 1.0
  {
    if k > 0 {
      PowerIsTenTo(k - 1);
      var p, q := Pow10(k - 1) as real, TenTo(1 - k);
      assert TenTo(-(k as int)) == q / 10.0;
      assert Pow10(k) as real == 10.0 * p;
      Cancelled(p, q);
    }
  }

  lemma Cancelled(p: real, q: real)
    ensures (q / 10.0) * (10.0 * p) == q * p
  {
  }

  lemma {:induction false} RealProduct(m: int, p: nat)
    ensures (m * p) as real == m as real * p as real
  {
    if p > 0 {
      RealProduct(m, p - 1);
      assert m * p == m * (p - 1) + m;
      assert p as real == (p - 1) as real + 1.0;
      assert m as real * ((p - 1) as real + 1.0) == m as real * (p - 1) as real + m as real;
    }
  }

  lemma ScaleIsTenTo(m: int, e: int)
    ensures Scale(m, e) == m as real * TenTo(e)
  {
    hide Pow10, TenTo;
    if e >= 0 {
      PowerIsTenTo(e);
      RealProduct(m, Pow10(e));
    } else {
      PowerIsTenTo(-e);
      Quotient(m as real, Pow10(-e) as real, TenTo(e));
    }
  }

  lemma Quotient(m: real, p: real, q: real)
    requires p > 0.0 && q * p == 1.0
    ensures m / p == m * q
  {
    assert m * q * p == m * (q * p);
    assert m / p * p == m;
  }

  lemma {:induction false} DigitRunStops(ds: Bytes, rest: Bytes)
    requires forall i :: 0 <= i < |ds| ==> IsDigit(ds[i])
    requires rest == [] || !IsDigit(rest[0])
    ensures DigitRun(ds + rest) == |ds|
    decreases |ds|
  {
    if ds == [] {
      assert ds + rest == rest;
    } else {
      assert (ds + rest)[1..] == ds[1..] + rest;
      DigitRunStops(ds[1..], rest);
    }
  }

  lemma {:induction false} NumberRunStops(s: Bytes, rest: Bytes)
    requires forall i :: 0 <= i < |s| ==> IsNumberChar(s[i])
    requires JsonRoundTrip.Delimited(rest)
    ensures NumberRun(s + rest) == |s|
    decreases |s|
  {
    if s == [] {
      assert s + rest == rest;
    } else {
      assert (s + rest)[1..] == s[1..] + rest;
      NumberRunStops(s[1..], rest);
    }
  }

  lemma Marks()
    ensures Ascii("-") == [MINUS] && Ascii("+") == [PLUS] && Ascii(".") == [POINT]
    ensures Ascii("e") == [0x65] && Ascii("E") == [0x45] && Ascii("") == []
  {
  }

  lemma PowerTextIs(d: Decimal)
    requires WellFormed(d)
    ensures forall i :: 0 <= i < |PowerText(d)| ==> IsNumberChar(PowerText(d)[i])
    ensures PowerText(d) != [] ==> !IsDigit(PowerText(d)[0]) && PowerText(d)[0] != POINT
    ensures Exponent(PowerText(d)) == (|PowerText(d)|, PowerValue(d))
  {
    hide Exponent, Numeral, IsNumberChar, IsDigit, Ascii, Spelled;
    Marks();
    if d.power.Some? {
      var p := d.power.value;
      PowerReads(Ascii([p.letter])[0], Ascii(p.sign), p.digits);
    } else {
      NoPower();
    }
  }

  lemma NoPower()
    ensures Exponent([]) == (0, 0)
  {
  }

  lemma PowerReads(letter: byte, sign: Bytes, ds: seq<Digit>)
    requires (letter == 0x65 || letter == 0x45) && (sign == [] || sign == [PLUS] || sign == [MINUS]) && ds != []
    ensures var t := [letter] + (sign + Spelled(ds));
            && (forall i :: 0 <= i < |t| ==> IsNumberChar(t[i]))
            && !IsDigit(t[0]) && t[0] != POINT
            && Exponent(t) == (|t|, if sign == [MINUS] then -(Numeral(ds) as int) else Numeral(ds))
  {
    hide Spelled, Numeral, DigitRun, DecimalValue;
    SpelledValue(ds);
    var digits := Spelled(ds);
    var t := [letter] + (sign + digits);
    assert t[1 + |sign|..] == digits;
    DigitRunStops(digits, []);
    assert digits + [] == digits && digits[..|digits|] == digits;
    assert IsDigit(digits[0]);
    assert sign == [] ==> t[1] == digits[0];
  }

  lemma FractionTextIs(d: Decimal)
    ensures forall i :: 0 <= i < |FractionText(d)| ==> IsNumberChar(FractionText(d)[i])
    ensures FractionText(d) != [] ==> FractionText(d)[0] == POINT
    ensures |FractionText(d)| == if d.fraction.None? then 0 else 1 + |FractionDigits(d)|
    ensures d.fraction.Some? ==> FractionText(d)[1..] == Spelled(FractionDigits(d))
  {
    Marks();
    SpelledValue(FractionDigits(d));
  }

  lemma MagnitudeReads(d: Decimal)
    requires WellFormed(d)
    ensures var f := FractionDigits(d);
            ReadMagnitude(Unsigned(d)) ==
            Some(Magnitude(Numeral(d.whole + f), PowerValue(d) - |f|, |Unsigned(d)|))
  {
    hide DecimalValue, Pow10, DigitRun, Exponent, FractionText, PowerText, IsDigit, Numeral, Spelled, ReadMagnitude;
    var f := FractionDigits(d);
    SpelledValue(d.whole);
    SpelledValue(f);
    FractionTextIs(d);
    PowerTextIs(d);
    RunsOf(d.whole, FractionText(d), f, PowerText(d));
    NumeralConcat(d.whole, f);
    NumeralOfNothing(Numeral(d.whole));
    if d.fraction.Some? {
      PointedMagnitude(Unsigned(d), |d.whole|, |f|);
    } else {
      assert f == [] && d.whole + f == d.whole;
      WholeMagnitude(Unsigned(d), |d.whole|);
    }
  }

  lemma PointedMagnitude(t: Bytes, w: nat, f: nat)
    requires DigitRun(t) == w < |t| && t[w] == POINT && DigitRun(t[w + 1..]) == f && w + f > 0
    ensures var n := DecimalValue(t[..w]) * Pow10(f) + if f == 0 then 0 else DecimalValue(t[w + 1..][..f]);
            var e := Exponent(t[w + 1 + f..]);
            ReadMagnitude(t) == Some(Magnitude(n, e.1 - f, w + 1 + f + e.0))
  {
    hide DigitRun, DecimalValue, Pow10, Exponent;
  }

  lemma WholeMagnitude(t: Bytes, w: nat)
    requires DigitRun(t) == w > 0 && (w == |t| || t[w] != POINT)
    ensures var e := Exponent(t[w..]);
            ReadMagnitude(t) == Some(Magnitude(DecimalValue(t[..w]), e.1, w + e.0))
  {
    hide DigitRun, DecimalValue, Exponent;
    assert Pow10(0) == 1;
  }

  /** Where the digits end, and what follows them. */
  lemma RunsOf(whole: seq<Digit>, ft: Bytes, f: seq<Digit>, pt: Bytes)
    requires if ft == [] then f == [] else ft[0] == POINT && ft[1..] == Spelled(f)
    requires pt == [] || (!IsDigit(pt[0]) && pt[0] != POINT)
    ensures var t, w := Spelled(whole) + (ft + pt), |whole|;
            && DigitRun(t) == w && t[..w] == Spelled(whole)
            && (ft == [] ==> t[w..] == pt)
            && (ft != [] ==>
                  && t[w] == POINT && DigitRun(t[w + 1..]) == |f| && t[w + 1..][..|f|] == Spelled(f)
                  && t[w + 1 + |f|..] == pt)
  {
    hide DecimalValue, DigitRun, IsDigit, Numeral, Spelled;
    var w := Spelled(whole);
    var t := w + (ft + pt);
    SpelledValue(whole);
    SpelledValue(f);
    PointIsNoDigit();
    DigitRunStops(w, ft + pt);
    assert t[|w|..] == ft + pt;
    if ft != [] {
      assert ft == [POINT] + Spelled(f);
      assert t[|w| + 1..] == Spelled(f) + pt;
      DigitRunStops(Spelled(f), pt);
    } else {
      assert ft + pt == pt;
    }
  }

  lemma PointIsNoDigit()
    ensures !IsDigit(POINT)
  {
  }

  lemma NumeralOfNothing(n: nat)
    ensures Numeral([]) == 0 && n * Pow10(0) == n
  {
    assert Pow10(0) == 1;
  }

  lemma UnsignedIs(d: Decimal)
    requires WellFormed(d)
    ensures Unsigned(d) != [] && Unsigned(d)[0] != MINUS && Unsigned(d)[0] != PLUS
    ensures forall i :: 0 <= i < |Unsigned(d)| ==> IsNumberChar(Unsigned(d)[i])
  {
    hide FractionText, PowerText, Spelled;
    SpelledValue(d.whole);
    FractionTextIs(d);
    PowerTextIs(d);
  }

  lemma TokenIs(d: Decimal, rest: Bytes)
    requires WellFormed(d) && JsonRoundTrip.Delimited(rest)
    ensures NumberToken(Written(d) + rest) == Written(d) && Written(d) != []
  {
    hide Unsigned;
    Marks();
    UnsignedIs(d);
    var u, s := Unsigned(d), Written(d) + rest;
    NumberRunStops(u, rest);
    var n := if d.negative then 1 else 0;
    assert s[n..] == u + rest;
    assert s[0] == if d.negative then MINUS else u[0];
    assert s[..n + |u|] == Written(d);
  }

  lemma ConvertIs(d: Decimal)
    requires WellFormed(d)
    ensures Strtod(Written(d)) == Some((Denoted(d), |Written(d)|))
  {
    hide Unsigned, ReadMagnitude, Scale, Numeral, TenTo;
    Marks();
    UnsignedIs(d);
    MagnitudeReads(d);
    var s, u := Written(d), Unsigned(d);
    var n := if d.negative then 1 else 0;
    assert s[n..] == u;
    assert s[0] == if d.negative then MINUS else u[0];
    var m, e := Numeral(d.whole + FractionDigits(d)), PowerValue(d) - |FractionDigits(d)|;
    ScaleIsTenTo(if d.negative then -(m as int) else m, e);
  }

  /** What ends a number: the end of the text, or a character no number holds. */
  predicate EndsNumber(rest: Bytes) {
    rest == [] || rest[0] !in Ascii("0123456789+-.eE")
  }

  lemma NumberEnds(rest: Bytes)
    requires EndsNumber(rest)
    ensures JsonRoundTrip.Delimited(rest)
  {
    NumberChars();
  }

  lemma NumberChars()
    ensures forall c: byte :: IsNumberChar(c) <==> c in Ascii("0123456789+-.eE")
  {
    var s := Ascii("0123456789+-.eE");
    assert s == [0x30, 0x31, 0x32, 0x33, 0x34, 0x35, 0x36, 0x37, 0x38, 0x39, PLUS, MINUS, POINT, 0x65, 0x45];
    assert s[0] == 0x30 && s[1] == 0x31 && s[2] == 0x32 && s[3] == 0x33 && s[4] == 0x34;
    assert s[5] == 0x35 && s[6] == 0x36 && s[7] == 0x37 && s[8] == 0x38 && s[9] == 0x39;
    assert s[10] == PLUS && s[11] == MINUS && s[12] == POINT && s[13] == 0x65 && s[14] == 0x45;
  }

  /**
   A number in decimal notation, with or without a fraction and an exponent, is
   read as what it denotes, exactly, up to its last character.
   */
  lemma NumberReads(d: Decimal, rest: Bytes)
    requires WellFormed(d) && |Written(d)| < 512 && EndsNumber(rest)
    ensures ParseNumber(Written(d) + rest) == Done(Number(Denoted(d)), rest)
  {
    hide Strtod, NumberToken, Written, Denoted;
    NumberEnds(rest);
    TokenIs(d, rest);
    ConvertIs(d);
    assert (Written(d) + rest)[|Written(d)|..] == rest;
  }

  // --------------------------------------------------- white space and words

  /** White space between tokens is the four characters of section 2 of RFC 8259. */
  lemma SpacesAre(c: byte)
    ensures IsSpace(c) <==> c in Ascii(" \t\n\r")
  {
    var s := " \t\n\r";
    assert s[0] == ' ' && s[1] == '\t' && s[2] == '\n' && s[3] == '\r';
    assert Ascii(s) == [0x20, 9, 10, 13];
  }

  /** The words and punctuation a value is written with. */
  lemma DumpLooks(v: Value)
    requires Safe(v)
    ensures v == Null ==> Dump(v) == Ascii("null")
    ensures v == Bool(true) ==> Dump(v) == Ascii("true")
    ensures v == Bool(false) ==> Dump(v) == Ascii("false")
    ensures v.String? ==> Dump(v) == Ascii("\"") + EscapeBody(v.s) + Ascii("\"")
    ensures v.Array? ==> Dump(v) == Ascii("[") + DumpItems(v.items) + Ascii("]")
    ensures v.Object? ==> Dump(v) == Ascii("{") + DumpMembers(v.members) + Ascii("}")
  {
    hide EscapeBody, IntegerText;
    assert Ascii("null") == NULL && Ascii("true") == TRUE && Ascii("false") == FALSE;
    assert Ascii("\"") == [QUOTE] && Ascii("[") == [OPEN_BRACKET] && Ascii("]") == [CLOSE_BRACKET];
    assert Ascii("{") == [OPEN_BRACE] && Ascii("}") == [CLOSE_BRACE];
  }

  /** How each octet of a string is written: one after the other, all but the listed ones as they are. */
  lemma StringLooks(s: Bytes, c: byte)
    ensures EscapeBody([]) == []
    ensures EscapeBody([c] + s) ==
            (if c == 0x22 then Ascii("\\\"")
             else if c == 0x5C then Ascii("\\\\")
             else if c == 8 then Ascii("\\b")
             else if c == 12 then Ascii("\\f")
             else if c == 10 then Ascii("\\n")
             else if c == 13 then Ascii("\\r")
             else if c == 9 then Ascii("\\t")
             else if c < 0x20 then Ascii("\\u00") + HexPair(c)
             else [c]) + EscapeBody(s)
  {
    hide Ascii, HexDigit;
    EscapeTexts();
    HexPairIs(c);
    assert ([c] + s)[1..] == s;
  }

  lemma EscapeTexts()
    ensures Ascii("\\\"") == [BACKSLASH, QUOTE] && Ascii("\\\\") == [BACKSLASH, BACKSLASH]
    ensures Ascii("\\b") == [BACKSLASH, 0x62] && Ascii("\\f") == [BACKSLASH, 0x66] && Ascii("\\n") == [BACKSLASH, 0x6E]
    ensures Ascii("\\r") == [BACKSLASH, 0x72] && Ascii("\\t") == [BACKSLASH, 0x74]
    ensures Ascii("\\u00") == [BACKSLASH, 0x75, ZERO, ZERO]
  {
  }

  /** The two digits of an octet in base 16. */
  function HexPair(c: byte): Bytes {
    var digits := Ascii("0123456789abcdef");
    [digits[c / 16], digits[c % 16]]
  }

  lemma HexPairIs(c: byte)
    ensures HexPair(c) == [HexDigit(c / 16), HexDigit(c % 16)]
  {
    hide Ascii;
    LowerHexAt(c / 16);
    LowerHexAt(c % 16);
  }

  /** A whole number is written in decimal, without leading zeros, behind a minus sign if it is negative. */
  lemma NumberLooks(n: real) returns (ds: seq<Digit>)
    requires Safe(Number(n))
    ensures Dump(Number(n)) == Ascii(if n < 0.0 then "-" else "") + Spelled(ds)
    ensures |ds| >= 1 && (|ds| > 1 ==> ds[0] != 0)
    ensures n == if n < 0.0 then -(Numeral(ds) as real) else Numeral(ds) as real
  {
    hide Spelled, Numeral;
    var m := if n.Floor < 0 then -n.Floor else n.Floor;
    ds := DigitsSpell(m);
    assert Ascii("-") == [MINUS];
    assert Ascii("") + Spelled(ds) == Spelled(ds);
  }

  lemma {:induction false} DigitsSpell(n: nat) returns (ds: seq<Digit>)
    ensures Digits(n) == Spelled(ds) && Numeral(ds) == n
    ensures |ds| >= 1 && (n > 0 ==> ds[0] != 0) && (n == 0 ==> ds == [0])
  {
    hide Spelled, Numeral;
    if n < 10 {
      ds := [n];
      SpelledMore([], n);
    } else {
      var front := DigitsSpell(n / 10);
      ds := front + [n % 10];
      SpelledMore(front, n % 10);
    }
  }

  lemma SpelledMore(front: seq<Digit>, d: Digit)
    ensures Spelled(front + [d]) == Spelled(front) + [ZERO + d]
    ensures Numeral(front + [d]) == 10 * Numeral(front) + d
    ensures front == [] ==> front + [d] == [d] && Spelled(front) == [] && Numeral(front) == 0
  {
    hide Ascii;
    DigitIs(d);
    assert (front + [d])[..|front|] == front;
  }

  lemma DigitIs(d: nat)
    requires d < 10
    ensures Ascii("0123456789")[d] == ZERO + d
  {
  }

  lemma ItemsLook(items: seq<Value>)
    requires SafeItems(items) && items != []
    ensures DumpItems(items) == Dump(items[0]) + if |items| == 1 then [] else Ascii(",") + DumpItems(items[1..])
  {
    hide Dump, Ascii;
    Comma();
  }

  lemma MembersLook(members: seq<Member>)
    requires SafeMembers(members) && members != []
    ensures DumpMembers(members) ==
            MemberText(members[0]) + if |members| == 1 then [] else Ascii(",") + DumpMembers(members[1..])
  {
    hide Dump, Ascii, MemberText;
    Comma();
    MemberLooks(members[0]);
  }

  lemma Comma()
    ensures Ascii(",") == [COMMA]
  {
  }

  /** A member: its name in quotation marks, a colon, and its value. */
  function MemberText(m: Member): Bytes
    requires Safe(m.value)
  {
    Ascii("\"") + EscapeBody(m.key) + Ascii("\":") + Dump(m.value)
  }

  lemma MemberLooks(m: Member)
    requires Safe(m.value)
    ensures DumpMember(m) == MemberText(m)
  {
    hide Dump, EscapeBody;
    assert Ascii("\"") == [QUOTE] && Ascii("\":") == [QUOTE, COLON];
    var front := [QUOTE] + EscapeBody(m.key);
    assert (front + [QUOTE]) + [COLON] == front + [QUOTE, COLON];
  }
}
