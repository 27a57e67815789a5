/** Parsing and writing keep text valid UTF-8. */
module JsonUtf8 {
  import opened Common
  import opened Json
  import opened JsonText
  import Utf8

  /** Every key and string in the value is valid UTF-8. */
  predicate Utf8Value(v: Value)
    decreases v, 1
  {
    match v
    case String(s) => Utf8.Valid(s)
    case Array(items) => Utf8Items(items)
    case Object(members) => Utf8Members(members)
    case _ => true
  }

  predicate Utf8Items(items: seq<Value>)
    decreases items, 0
  {
    items == [] || (Utf8Value(items[0]) && Utf8Items(items[1..]))
  }

  predicate Utf8Members(members: seq<Member>)
    decreases members, 0
  {
    members == [] || (Utf8.Valid(members[0].key) && Utf8Value(members[0].value) && Utf8Members(members[1..]))
  }

  // ---------------------------------------------------------------- parsing

  lemma {:induction false} SkipSpaceValid(s: Bytes)
    requires Utf8.Valid(s)
    ensures Utf8.Valid(SkipSpace(s))
  {
    if s != [] && IsSpace(s[0]) {
      SkipSpaceValid(s[1..]);
    }
  }

  /** `n` leading ASCII octets taken off a valid text leave a valid text. */
  lemma {:induction false} DropAscii(s: Bytes, n: nat)
    requires Utf8.Valid(s) && n <= |s| && forall i :: 0 <= i < n ==> s[i] < 0x80
    ensures Utf8.Valid(s[n..])
  {
    if n > 0 {
      DropAscii(s[1..], n - 1);
      assert s[1..][n - 1..] == s[n..];
    } else {
      assert s[0..] == s;
    }
  }

  lemma HexIsAscii(s: Bytes)
    requires Hex4(s).Some?
    ensures forall i :: 0 <= i < 4 ==> s[i] < 0x80
  {
  }

  /** An escape stands for one character, whole. */
  lemma EscapeValid(s: Bytes)
    requires Utf8.Valid(s) && Escape(s).Done?
    ensures Utf8.Valid(Escape(s).value) && Utf8.Valid(Escape(s).rest)
  {
    if s[0] == 0x75 {
      UnicodeEscapeValid(s[1..]);
    } else {
      Utf8.RunOctet(Utf8.Start, SimpleEscape(s[0]).value);
    }
  }

  lemma UnicodeEscapeValid(s: Bytes)
    requires Utf8.Valid(s) && UnicodeEscape(s).Done?
    ensures Utf8.Valid(UnicodeEscape(s).value) && Utf8.Valid(UnicodeEscape(s).rest)
  {
    hide Utf8.Run, Utf8.Valid, Utf8.Encode;
    var u := Hex4(s).value;
    HexIsAscii(s);
    DropAscii(s, 4);
    if IsHighSurrogate(u) {
      var t := s[4..];
      HexIsAscii(t[2..]);
      var lo := Hex4(t[2..]).value;
      forall i | 0 <= i < 6
        ensures t[i] < 0x80
      {
        if i >= 2 {
          assert t[i] == t[2..][i - 2];
        }
      }
      DropAscii(t, 6);
      Utf8.EncodeValid(0x10000 + (u - 0xD800) * 1024 + (lo - 0xDC00));
    } else {
      Utf8.EncodeValid(u);
    }
  }

  /** Read from state `st`, the string's octets run the automaton as its source text does. */
  lemma {:induction false} StringBodyValid(st: Utf8.State, s: Bytes)
    requires Utf8.Run(st, s) == Utf8.Start && StringBody(s).Done?
    ensures Utf8.Run(st, StringBody(s).value) == Utf8.Start
    ensures Utf8.Valid(StringBody(s).rest)
    decreases |s|
  {
    hide Escape, Utf8.Step;
    if s[0] == QUOTE {
      Utf8.AsciiBetweenCharacters(st, s);
    } else if s[0] == BACKSLASH {
      Utf8.AsciiBetweenCharacters(st, s);
      var e := Escape(s[1..]);
      EscapeValid(s[1..]);
      StringBodyValid(Utf8.Start, e.rest);
      Utf8.ValidConcat(e.value, StringBody(e.rest).value);
    } else {
      StringBodyValid(Utf8.Step(st, s[0]), s[1..]);
      var t := StringBody(s[1..]).value;
      assert ([s[0]] + t)[1..] == t;
    }
  }

  lemma ParseStringValid(s: Bytes)
    requires Utf8.Valid(s) && ParseString(s).Done?
    ensures Utf8.Valid(ParseString(s).value) && Utf8.Valid(ParseString(s).rest)
  {
    StringBodyValid(Utf8.Start, s[1..]);
  }

  lemma LiteralValid(word: Bytes, v: Value, s: Bytes)
    requires word == TRUE || word == FALSE || word == NULL
    requires Utf8.Valid(s) && Literal(word, v, s).Done?
    ensures Literal(word, v, s).value == v && Utf8.Valid(Literal(word, v, s).rest)
  {
    assert forall i :: 0 <= i < |word| ==> s[i] == word[i];
    DropAscii(s, |word|);
  }

  lemma {:induction false} NumberRunAscii(s: Bytes)
    ensures forall i :: 0 <= i < NumberRun(s) ==> s[i] < 0x80
  {
    if s != [] && IsNumberChar(s[0]) {
      NumberRunAscii(s[1..]);
      forall i | 0 < i < NumberRun(s)
        ensures s[i] < 0x80
      {
        assert s[i] == s[1..][i - 1];
      }
    }
  }

  lemma ParseNumberValid(s: Bytes)
    requires Utf8.Valid(s) && ParseNumber(s).Done?
    ensures Utf8.Valid(ParseNumber(s).rest)
  {
    hide Strtod, Utf8.Run, Utf8.Valid;
    var token := NumberToken(s);
    NumberRunAscii(s);
    NumberRunAscii(s[1..]);
    forall i | 0 <= i < |token|
      ensures s[i] < 0x80
    {
      if i > 0 {
        assert s[i] == s[1..][i - 1];
      }
    }
    DropAscii(s, Strtod(token).value.1);
  }

  lemma {:induction false} ParseValueValid(text: Bytes, depth: int)
    requires Utf8.Valid(text) && ParseValue(text, depth).Done?
    ensures Utf8Value(ParseValue(text, depth).value) && Utf8.Valid(ParseValue(text, depth).rest)
    decreases |text|, 2
  {
    hide ParseString, ParseNumber, Utf8.Run, Utf8.Valid, Literal, IsSpace;
    var s := SkipSpace(text);
    SkipSpaceValid(text);
    if s[0] == OPEN_BRACE {
      DropAscii(s, 1);
      SkipSpaceValid(s[1..]);
      var t := SkipSpace(s[1..]);
      if t != [] && t[0] == CLOSE_BRACE {
        DropAscii(t, 1);
      } else {
        ParseMembersValid(t, depth + 1);
      }
    } else if s[0] == OPEN_BRACKET {
      DropAscii(s, 1);
      SkipSpaceValid(s[1..]);
      var t := SkipSpace(s[1..]);
      if t != [] && t[0] == CLOSE_BRACKET {
        DropAscii(t, 1);
      } else {
        ParseItemsValid(t, depth + 1);
      }
    } else if s[0] == QUOTE {
      ParseStringValid(s);
    } else if s[0] == 0x74 {
      LiteralValid(TRUE, Bool(true), s);
    } else if s[0] == 0x66 {
      LiteralValid(FALSE, Bool(false), s);
    } else if s[0] == 0x6E {
      LiteralValid(NULL, Null, s);
    } else {
      ParseNumberValid(s);
    }
  }

  lemma {:induction false} ParseItemsValid(text: Bytes, depth: int)
    requires Utf8.Valid(text) && ParseItems(text, depth).Done?
    ensures Utf8Items(ParseItems(text, depth).value) && Utf8.Valid(ParseItems(text, depth).rest)
    decreases |text|, 3
  {
    hide Utf8.Run, Utf8.Valid, ParseValue, IsSpace;
    ParseValueValid(text, depth);
    var v := ParseValue(text, depth);
    SkipSpaceValid(v.rest);
    var s := SkipSpace(v.rest);
    DropAscii(s, 1);
    if s[0] == COMMA {
      ParseItemsValid(s[1..], depth);
      assert ParseItems(text, depth).value[1..] == ParseItems(s[1..], depth).value;
    }
  }

  lemma {:induction false} ParseMembersValid(text: Bytes, depth: int)
    requires Utf8.Valid(text) && ParseMembers(text, depth).Done?
    ensures Utf8Members(ParseMembers(text, depth).value) && Utf8.Valid(ParseMembers(text, depth).rest)
    decreases |text|, 2
  {
    hide Utf8.Run, Utf8.Valid, ParseValue, ParseString, IsSpace;
    var m := ParseMember(text, depth);
    SkipSpaceValid(text);
    ParseStringValid(SkipSpace(text));
    var key := ParseString(SkipSpace(text));
    SkipSpaceValid(key.rest);
    var t := SkipSpace(key.rest);
    DropAscii(t, 1);
    ParseValueValid(t[1..], depth);
    SkipSpaceValid(m.rest);
    var s := SkipSpace(m.rest);
    DropAscii(s, 1);
    if s[0] == COMMA {
      ParseMembersValid(s[1..], depth);
      assert ParseMembers(text, depth).value[1..] == ParseMembers(s[1..], depth).value;
    }
  }

  /** Every key and string parsed out of a valid UTF-8 document is valid UTF-8. */
  lemma DocumentStringsValid(text: Bytes)
    requires Utf8.Valid(text) && ParseDocument(text).Ok?
    ensures Utf8Value(ParseDocument(text).value)
  {
    ParseValueValid(text, 0);
  }

  // ---------------------------------------------------------------- writing

  lemma {:induction false} AsciiValid(s: Bytes)
    requires forall i :: 0 <= i < |s| ==> s[i] < 0x80
    ensures Utf8.Valid(s)
  {
    if s != [] {
      AsciiValid(s[1..]);
    }
  }

  /** Escaping runs the automaton as the string itself does. */
  lemma {:induction false} EscapeBodyRuns(st: Utf8.State, s: Bytes)
    requires Utf8.Run(st, s) == Utf8.Start
    ensures Utf8.Run(st, EscapeBody(s)) == Utf8.Start
    decreases |s|
  {
    if s != [] {
      var e := EscapeByte(s[0]);
      Utf8.RunConcat(st, e, EscapeBody(s[1..]));
      EscapeBodyRuns(Utf8.Step(st, s[0]), s[1..]);
      if |e| == 1 {
        Utf8.RunOctet(st, e[0]);
      } else {
        Utf8.AsciiBetweenCharacters(st, s);
        AsciiValid(e);
      }
    }
  }

  lemma QuotedValid(s: Bytes)
    requires Utf8.Valid(s)
    ensures Utf8.Valid(Quoted(s))
  {
    hide Utf8.Run;
    EscapeBodyRuns(Utf8.Start, s);
    AsciiValid([QUOTE]);
    Utf8.ValidConcat([QUOTE], EscapeBody(s));
    Utf8.ValidConcat([QUOTE] + EscapeBody(s), [QUOTE]);
  }

  lemma {:induction false} DigitsAscii(n: nat)
    ensures forall i :: 0 <= i < |Digits(n)| ==> Digits(n)[i] < 0x80
  {
    if n >= 10 {
      DigitsAscii(n / 10);
    }
  }

  lemma IntegerValid(n: int)
    ensures Utf8.Valid(IntegerText(n))
  {
    DigitsAscii(if n < 0 then -n else n);
    AsciiValid(IntegerText(n));
  }

  /** Text between two ASCII brackets, or before an ASCII separator. */
  lemma AroundValid(l: byte, s: Bytes, r: byte)
    requires Utf8.Valid(s) && l < 0x80 && r < 0x80
    ensures Utf8.Valid([l] + s + [r])
  {
    AsciiValid([l]);
    AsciiValid([r]);
    Utf8.ValidConcat([l], s);
    Utf8.ValidConcat([l] + s, [r]);
  }

  lemma BesideValid(s: Bytes, sep: byte, t: Bytes)
    requires Utf8.Valid(s) && Utf8.Valid(t) && sep < 0x80
    ensures Utf8.Valid(s + ([sep] + t)) && Utf8.Valid(s + [sep] + t)
  {
    AsciiValid([sep]);
    Utf8.ValidConcat([sep], t);
    Utf8.ValidConcat(s, [sep] + t);
    assert s + [sep] + t == s + ([sep] + t);
  }

  /** The text written for a value whose strings are valid UTF-8 is valid UTF-8. */
  lemma {:induction false} DumpValid(v: Value)
    requires Safe(v) && Utf8Value(v)
    ensures Utf8.Valid(Dump(v))
    decreases v, 1
  {
    hide Utf8.Run, Utf8.Valid;
    match v
    case Null => AsciiValid(NULL);
    case Bool(b) => AsciiValid(TRUE); AsciiValid(FALSE);
    case Number(n) => IntegerValid(n.Floor);
    case String(s) => QuotedValid(s);
    case Array(items) =>
      DumpItemsValid(items);
      AroundValid(OPEN_BRACKET, DumpItems(items), CLOSE_BRACKET);
    case Object(members) =>
      DumpMembersValid(members);
      AroundValid(OPEN_BRACE, DumpMembers(members), CLOSE_BRACE);
  }

  lemma {:induction false} DumpItemsValid(items: seq<Value>)
    requires SafeItems(items) && Utf8Items(items)
    ensures Utf8.Valid(DumpItems(items))
    decreases items, 0
  {
    hide Utf8.Run, Utf8.Valid, Dump;
    if items == [] {
      AsciiValid([]);
    } else {
      DumpValid(items[0]);
      if |items| == 1 {
        assert DumpItems(items) == Dump(items[0]);
      } else {
        DumpItemsValid(items[1..]);
        BesideValid(Dump(items[0]), COMMA, DumpItems(items[1..]));
      }
    }
  }

  lemma {:induction false} DumpMembersValid(members: seq<Member>)
    requires SafeMembers(members) && Utf8Members(members)
    ensures Utf8.Valid(DumpMembers(members))
    decreases members, 0
  {
    hide Utf8.Run, Utf8.Valid, Dump, Quoted;
    if members == [] {
      AsciiValid([]);
    } else {
      QuotedValid(members[0].key);
      DumpValid(members[0].value);
      BesideValid(Quoted(members[0].key), COLON, Dump(members[0].value));
      if |members| == 1 {
        assert DumpMembers(members) == DumpMember(members[0]);
      } else {
        DumpMembersValid(members[1..]);
        BesideValid(DumpMember(members[0]), COMMA, DumpMembers(members[1..]));
      }
    }
  }

  // ------------------------------------------------- what an escape stands for

  /** An escape read as octets that denote exactly this scalar value, with the text behind it left. */
  ghost predicate Denotes(r: Parsed<Bytes>, cp: Utf8.Scalar, rest: Bytes) {
    r.Done? && r.rest == rest && Utf8.Valid(r.value) && Utf8.Scalars(r.value) == [cp] && r.value == Utf8.Encode(cp)
  }

  /** A hexadecimal digit, in either case, and its value. */
  predicate HexDigitIs(c: byte, v: nat) {
    v < 16 && (c == Ascii("0123456789abcdef")[v] || c == Ascii("0123456789ABCDEF")[v])
  }

  lemma HexDigits(c: byte, v: nat)
    ensures HexValue(c) == Some(v) <==> HexDigitIs(c, v)
    ensures HexValue(c).Some? ==> HexValue(c).value < 16
  {
    hide Ascii;
    if v < 16 {
      LowerHexAt(v);
      UpperHexAt(v);
    }
  }

  /** Four hexadecimal digits, most significant first, and the number they spell. */
  predicate SpellsUnit(s: Bytes, u: nat) {
    |s| >= 4 && u < 65536 && HexDigitIs(s[0], u / 4096) && HexDigitIs(s[1], u / 256 % 16) &&
    HexDigitIs(s[2], u / 16 % 16) && HexDigitIs(s[3], u % 16)
  }

  lemma Hex4Spells(s: Bytes, u: nat)
    ensures Hex4(s) == Some(u) <==> SpellsUnit(s, u)
  {
    hide HexDigitIs, HexValue;
    if |s| >= 4 && u < 65536 {
      HexDigits(s[0], u / 4096);
      HexDigits(s[1], u / 256 % 16);
      HexDigits(s[2], u / 16 % 16);
      HexDigits(s[3], u % 16);
      if Hex4(s) == Some(u) {
        var a, b, c, d := HexValue(s[0]).value, HexValue(s[1]).value, HexValue(s[2]).value, HexValue(s[3]).value;
        HexDigits(s[0], a);
        HexDigits(s[1], b);
        HexDigits(s[2], c);
        HexDigits(s[3], d);
        Nibbles(a, b, c, d);
      } else if SpellsUnit(s, u) {
        NibblesOf(u);
      }
    }
  }

  lemma Nibbles(a: nat, b: nat, c: nat, d: nat)
    requires a < 16 && b < 16 && c < 16 && d < 16
    ensures var u := 4096 * a + 256 * b + 16 * c + d;
            u / 4096 == a && u / 256 % 16 == b && u / 16 % 16 == c && u % 16 == d
  {
    var u := 4096 * a + 256 * b + 16 * c + d;
    assert u / 16 == 256 * a + 16 * b + c;
    assert u / 256 == 16 * a + b;
  }

  lemma NibblesOf(u: nat)
    ensures u == 4096 * (u / 4096) + 256 * (u / 256 % 16) + 16 * (u / 16 % 16) + u % 16
  {
    assert u / 256 == u / 16 / 16 && u / 4096 == u / 256 / 16;
  }

  /** The letters of section 7 of RFC 8259 and what they stand for. */
  predicate SpellsLetter(c: byte, cp: nat) {
    || (c == cp && (c == '\"' as int || c == '\\' as int || c == '/' as int))
    || (c == 'b' as int && cp == 0x08) || (c == 'f' as int && cp == 0x0C) || (c == 'n' as int && cp == 0x0A)
    || (c == 'r' as int && cp == 0x0D) || (c == 't' as int && cp == 0x09)
  }

  /** The first `n` octets behind a backslash spell a scalar value: as a letter, a unit, or a surrogate pair. */
  predicate Spells(s: Bytes, cp: Utf8.Scalar, n: nat) {
    && 1 <= n <= |s|
    && match n
       case 1 => SpellsLetter(s[0], cp)
       case 5 => s[0] == 'u' as int && SpellsUnit(s[1..], cp)
       case 11 =>
         && cp >= 0x10000 && s[0] == 'u' as int && s[5] == '\\' as int && s[6] == 'u' as int
         && SpellsUnit(s[1..], 0xD800 + (cp - 0x10000) / 1024)
         && SpellsUnit(s[7..], 0xDC00 + (cp - 0x10000) % 1024)
       case _ => false
  }

  /** The same in terms of the reader's own functions. */
  predicate Reads(s: Bytes, cp: Utf8.Scalar, n: nat) {
    && 1 <= n <= |s|
    && match n
       case 1 => SimpleEscape(s[0]) == Some(cp)
       case 5 => s[0] == 0x75 && Hex4(s[1..]) == Some(cp)
       case 11 =>
         && cp >= 0x10000 && s[0] == 0x75 && s[5] == BACKSLASH && s[6] == 0x75
         && Hex4(s[1..]) == Some(0xD800 + (cp - 0x10000) / 1024)
         && Hex4(s[7..]) == Some(0xDC00 + (cp - 0x10000) % 1024)
       case _ => false
  }

  lemma ReadsIsSpells(s: Bytes, cp: Utf8.Scalar, n: nat)
    ensures Reads(s, cp, n) <==> Spells(s, cp, n)
  {
    hide Hex4, SpellsUnit;
    if n == 5 && |s| >= 5 {
      Hex4Spells(s[1..], cp);
    } else if n == 11 && |s| >= 11 && cp >= 0x10000 {
      Hex4Spells(s[1..], 0xD800 + (cp - 0x10000) / 1024);
      Hex4Spells(s[7..], 0xDC00 + (cp - 0x10000) % 1024);
    }
  }

  lemma LetterEscape(s: Bytes)
    requires s != [] && s[0] != 0x75
    ensures if SimpleEscape(s[0]).None? then Escape(s).Rejected?
            else SimpleEscape(s[0]).value < 0x80 && Denotes(Escape(s), SimpleEscape(s[0]).value, s[1..])
  {
    hide Utf8.Valid, Utf8.Scalars;
    var c := SimpleEscape(s[0]);
    if c.Some? {
      Utf8.EncodeDenotes(c.value);
    }
  }

  lemma UnitEscape(s: Bytes)
    requires |s| >= 5 && s[0] == 0x75 && Hex4(s[1..]).Some?
    requires !IsHighSurrogate(Hex4(s[1..]).value)
    ensures if IsLowSurrogate(Hex4(s[1..]).value) then Escape(s).Rejected?
            else Denotes(Escape(s), Hex4(s[1..]).value, s[5..])
  {
    hide Utf8.Encode, Utf8.Valid, Utf8.Scalars;
    assert s[1..][4..] == s[5..];
    var u := Hex4(s[1..]).value;
    if !IsLowSurrogate(u) {
      Utf8.EncodeDenotes(u);
    }
  }

  /** A high surrogate is read with an escaped low one, or refused. */
  lemma PairEscape(s: Bytes) returns (cp: Utf8.Scalar)
    requires |s| >= 5 && s[0] == 0x75 && Hex4(s[1..]).Some? && IsHighSurrogate(Hex4(s[1..]).value)
    ensures Escape(s).Done? ==> |s| >= 11 && Reads(s, cp, 11) && Denotes(Escape(s), cp, s[11..])
    ensures |s| >= 11 && s[5] == BACKSLASH && s[6] == 0x75 && Hex4(s[7..]).Some? && IsLowSurrogate(Hex4(s[7..]).value) ==>
              Escape(s).Done?
  {
    hide Utf8.Encode, Utf8.Valid, Utf8.Scalars, Hex4;
    var t := s[1..][4..];
    assert t == s[5..];
    cp := 0x10000;
    if Escape(s).Done? {
      var high, low := Hex4(s[1..]).value - 0xD800, Hex4(t[2..]).value - 0xDC00;
      cp := 0x10000 + high * 1024 + low;
      assert t[2..] == s[7..] && t[6..] == s[11..];
      Utf8.EncodeDenotes(cp);
    } else if |s| >= 11 {
      assert t[2..] == s[7..];
    }
  }

  /**
   An escape is accepted if and only if it spells a scalar value, and then gives
   the octets that denote it and leaves the text behind it. In particular no
   surrogate is accepted but in a pair.
   */
  lemma EscapesDenote(s: Bytes)
    ensures forall cp: Utf8.Scalar, n: nat :: Spells(s, cp, n) ==> Denotes(Escape(s), cp, s[n..])
    ensures Escape(s).Done? ==> exists cp: Utf8.Scalar, n: nat :: Spells(s, cp, n)
  {
    hide Spells, Reads;
    EscapesRead(s);
    forall cp: Utf8.Scalar, n: nat ensures Reads(s, cp, n) <==> Spells(s, cp, n) {
      ReadsIsSpells(s, cp, n);
    }
  }

  lemma EscapesRead(s: Bytes)
    ensures forall cp: Utf8.Scalar, n: nat :: Reads(s, cp, n) ==> Denotes(Escape(s), cp, s[n..])
    ensures Escape(s).Done? ==> exists cp: Utf8.Scalar, n: nat :: Reads(s, cp, n)
  {
    hide Denotes, Hex4;
    if s == [] {
    } else if s[0] != 0x75 {
      LetterEscape(s);
      if Escape(s).Done? {
        assert Reads(s, SimpleEscape(s[0]).value, 1);
      }
    } else if Hex4(s[1..]).Some? {
      LongEnough(s[1..]);
      if IsHighSurrogate(Hex4(s[1..]).value) {
        var cp := PairEscape(s);
      } else {
        UnitEscape(s);
        if Escape(s).Done? {
          assert Reads(s, Hex4(s[1..]).value, 5);
        }
      }
    }
  }

  lemma LongEnough(s: Bytes)
    requires Hex4(s).Some?
    ensures |s| >= 4 && Hex4(s).value < 0x10000
  {
  }
}
