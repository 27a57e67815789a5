/** The parser undoes the writer, exactly as deep as the parser goes. */
module JsonRoundTrip {
  import opened Common
  import opened Json
  import opened JsonText

  // ---------------------------------------------------------------- strings

  lemma HexDigitReads(n: nat)
    requires n < 16
    ensures HexValue(HexDigit(n)) == Some(n)
  {
  }

  lemma EscapedByteReads(c: byte, t: Bytes)
    ensures StringBody(EscapeByte(c) + t) == Following([c], StringBody(t))
  {
    var s := EscapeByte(c) + t;
    if |EscapeByte(c)| == 1 {
      assert s[1..] == t;
    } else if |EscapeByte(c)| == 2 {
      assert s[1..][1..] == t;
      assert Escape(s[1..]) == Done([c], t);
    } else {
      ControlEscapeReads(c, t);
      assert s[1..] == [0x75, ZERO, ZERO, HexDigit(c / 16), HexDigit(c % 16)] + t;
    }
  }

  lemma ControlEscapeReads(c: byte, t: Bytes)
    requires c < 0x20
    ensures Escape([0x75, ZERO, ZERO, HexDigit(c / 16), HexDigit(c % 16)] + t) == Done([c], t)
  {
    hide StringBody;
    var s := [0x75, ZERO, ZERO, HexDigit(c / 16), HexDigit(c % 16)] + t;
    HexDigitReads(c / 16);
    HexDigitReads(c % 16);
    var u := s[1..];
    assert u[0] == ZERO && u[1] == ZERO && u[2] == HexDigit(c / 16) && u[3] == HexDigit(c % 16);
    assert Hex4(u) == Some(c);
    assert u[4..] == t;
  }

  lemma {:induction false} StringReads(s: Bytes, t: Bytes)
    ensures StringBody(EscapeBody(s) + ([QUOTE] + t)) == Done(s, t)
    decreases |s|
  {
    hide Escape;
    var tail := [QUOTE] + t;
    if s == [] {
      assert [] + tail == tail && tail[1..] == t;
    } else {
      assert EscapeBody(s) + tail == EscapeByte(s[0]) + (EscapeBody(s[1..]) + tail);
      EscapedByteReads(s[0], EscapeBody(s[1..]) + tail);
      StringReads(s[1..], t);
      assert [s[0]] + s[1..] == s;
    }
  }

  /** A quoted string reads back as itself, whatever octets it holds. */
  lemma QuotedReads(s: Bytes, t: Bytes)
    ensures ParseString(Quoted(s) + t) == Done(s, t)
  {
    hide StringBody, EscapeBody;
    assert (Quoted(s) + t)[1..] == EscapeBody(s) + ([QUOTE] + t);
    StringReads(s, t);
  }

  // ---------------------------------------------------------------- numbers

  lemma {:induction false} DigitsAreDigits(n: nat)
    ensures forall i :: 0 <= i < |Digits(n)| ==> IsDigit(Digits(n)[i])
  {
    if n >= 10 {
      DigitsAreDigits(n / 10);
    }
  }

  lemma {:induction false} DigitsValue(n: nat)
    requires forall i :: 0 <= i < |Digits(n)| ==> IsDigit(Digits(n)[i])
    ensures DecimalValue(Digits(n)) == n
  {
    var r := Digits(n);
    if n >= 10 {
      DigitsAreDigits(n / 10);
      DigitsValue(n / 10);
      assert r[..|r| - 1] == Digits(n / 10);
    } else {
      assert r[..0] == [];
    }
  }

  lemma {:induction false} DigitsLength(n: nat, k: nat)
    requires k >= 1 && n < Pow10(k)
    ensures |Digits(n)| <= k
  {
    if n >= 10 {
      assert Pow10(1) == 10 * Pow10(0);
      DigitsLength(n / 10, k - 1);
    }
  }

  lemma SafeIsShort(n: nat)
    requires n <= SAFE_MAX
    ensures |Digits(n)| <= 16
  {
    assert Pow10(2) == 10 * (10 * Pow10(0));
    assert Pow10(4) == 10 * (10 * Pow10(2));
    assert Pow10(6) == 10 * (10 * Pow10(4));
    assert Pow10(8) == 10 * (10 * Pow10(6));
    assert Pow10(10) == 10 * (10 * Pow10(8));
    assert Pow10(12) == 10 * (10 * Pow10(10));
    assert Pow10(14) == 10 * (10 * Pow10(12));
    assert Pow10(16) == 10 * (10 * Pow10(14));
    DigitsLength(n, 16);
  }

  /** What may follow a number without becoming part of it. */
  predicate Delimited(rest: Bytes) {
    rest == [] || !IsNumberChar(rest[0])
  }

  lemma {:induction false} RunsStop(ds: Bytes, rest: Bytes)
    requires forall i :: 0 <= i < |ds| ==> IsDigit(ds[i])
    requires Delimited(rest)
    ensures NumberRun(ds + rest) == |ds| && DigitRun(ds + rest) == |ds|
    decreases |ds|
  {
    if ds == [] {
      assert ds + rest == rest;
    } else {
      assert (ds + rest)[1..] == ds[1..] + rest;
      RunsStop(ds[1..], rest);
    }
  }

  function Signed(sign: Bytes, n: nat): int {
    if sign == [] then n as int else -(n as int)
  }

  lemma DigitsMagnitude(ds: Bytes)
    requires |ds| >= 1 && forall i :: 0 <= i < |ds| ==> IsDigit(ds[i])
    ensures ReadMagnitude(ds) == Some(Magnitude(DecimalValue(ds), 0, |ds|))
  {
    hide DecimalValue, Pow10, DigitRun, Exponent, NumberRun;
    RunsStop(ds, []);
    assert ds + [] == ds;
    ScaleByOne(DecimalValue(ds));
    assert ds[..|ds|] == ds;
    assert ds[|ds|..] == [];
    ScaleByOne(0);
  }

  /** A token of nothing but an optional sign and digits converts to the integer it spells. */
  lemma DigitsConvert(ds: Bytes, sign: Bytes)
    requires |ds| >= 1 && forall i :: 0 <= i < |ds| ==> IsDigit(ds[i])
    requires sign == [] || sign == [MINUS]
    ensures Strtod(sign + ds) == Some((Signed(sign, DecimalValue(ds)) as real, |sign| + |ds|))
  {
    hide DecimalValue, Scale, ReadMagnitude;
    DigitsMagnitude(ds);
    ScaleByOne(Signed(sign, DecimalValue(ds)));
    assert (sign + ds)[0] == if sign == [] then ds[0] else MINUS;
    assert (sign + ds)[|sign|..] == ds;
  }

  lemma ScaleByOne(m: int)
    ensures Exponent([]) == (0, 0)
    ensures Scale(m, 0) == m as real && m * Pow10(0) == m && Pow10(0) == 1
  {
    assert m * Pow10(0) == m;
  }

  lemma TokenOfInteger(sign: Bytes, ds: Bytes, rest: Bytes)
    requires |ds| >= 1 && forall i :: 0 <= i < |ds| ==> IsDigit(ds[i])
    requires sign == [] || sign == [MINUS]
    requires NumberRun(ds + rest) == |ds|
    ensures NumberToken(sign + (ds + rest)) == sign + ds
  {
    var s := sign + (ds + rest);
    assert s[|sign|..] == ds + rest;
    assert s[0] == if sign == [] then ds[0] else MINUS;
    assert s[..|sign| + |ds|] == sign + ds;
  }

  lemma IntegerReads(n: int, rest: Bytes)
    requires -0x20_0000_0000_0000 <= n <= 0x20_0000_0000_0000 && Delimited(rest)
    ensures ParseNumber(IntegerText(n) + rest) == Done(Number(n as real), rest)
  {
    var m := if n < 0 then -n else n;
    var sign := if n < 0 then [MINUS] else [];
    var ds := Digits(m);
    DigitsAreDigits(m);
    DigitsValue(m);
    SafeIsShort(m);
    assert IntegerText(n) == sign + ds;
    assert Signed(sign, DecimalValue(ds)) == n;
    SignedReads(ds, sign, rest);
  }

  lemma SignedReads(ds: Bytes, sign: Bytes, rest: Bytes)
    requires 1 <= |ds| <= 16 && forall i :: 0 <= i < |ds| ==> IsDigit(ds[i])
    requires (sign == [] || sign == [MINUS]) && Delimited(rest)
    ensures ParseNumber(sign + ds + rest) == Done(Number(Signed(sign, DecimalValue(ds)) as real), rest)
  {
    hide Strtod, DecimalValue, NumberRun, DigitRun, NumberToken, Delimited;
    RunsStop(ds, rest);
    TokenOfInteger(sign, ds, rest);
    DigitsConvert(ds, sign);
    var s := sign + ds + rest;
    assert s == sign + (ds + rest);
    assert s[|sign| + |ds|..] == rest;
  }

  // ----------------------------------------------------------------- values

  /** The first character of a value's text; none of these is white space. */
  lemma DumpBegins(v: Value)
    requires Safe(v)
    ensures Dump(v) != []
    ensures var c := Dump(v)[0];
            && !IsSpace(c) && c != CLOSE_BRACKET && c != CLOSE_BRACE
            && match v
               case Null => c == 0x6E
               case Bool(b) => c == if b then 0x74 else 0x66
               case Number(_) => c == MINUS || IsDigit(c)
               case String(_) => c == QUOTE
               case Array(_) => c == OPEN_BRACKET
               case Object(_) => c == OPEN_BRACE
  {
    if v.Number? {
      DigitsAreDigits(if v.n.Floor < 0 then -v.n.Floor else v.n.Floor);
    }
  }

  lemma NoSpace(s: Bytes)
    requires s == [] || !IsSpace(s[0])
    ensures SkipSpace(s) == s
  {
  }

  ghost predicate Reads(v: Value, depth: int, rest: Bytes)
    requires Safe(v)
  {
    ParseValue(Dump(v) + rest, depth) ==
    if depth + Height(v) <= MAX_DEPTH then Done(v, rest) else Rejected
  }

  lemma ScalarReads(v: Value, depth: int, rest: Bytes)
    requires Safe(v) && !v.Array? && !v.Object? && Delimited(rest)
    ensures Reads(v, depth, rest)
  {
    DumpBegins(v);
    var s := Dump(v) + rest;
    NoSpace(s);
    match v
    case Null => assert s[..4] == NULL && s[4..] == rest;
    case Bool(b) => assert s[|Dump(v)|..] == rest && s[..|Dump(v)|] == Dump(v);
    case Number(n) => IntegerReads(n.Floor, rest);
    case String(t) => QuotedReads(t, rest);
  }

  /**
   A value written by `dump` reads back as itself exactly when it and the
   values around it are nested at most 128 deep; otherwise it is refused.
   */
  lemma {:induction false} DumpReads(v: Value, depth: int, rest: Bytes)
    requires Safe(v) && Delimited(rest)
    ensures Reads(v, depth, rest)
    decreases v, 1
  {
    match v
    case Array(items) =>
      if items != [] {
        ItemsRead(items, depth + 1, rest);
      }
      ArrayReads(items, depth, rest);
    case Object(members) =>
      if members != [] {
        MembersRead(members, depth + 1, rest);
      }
      ObjectReads(members, depth, rest);
    case _ => ScalarReads(v, depth, rest);
  }

  /** What the items of a written array read as. */
  ghost predicate ItemsReadBack(items: seq<Value>, depth: int, rest: Bytes)
    requires SafeItems(items)
  {
    && DumpItems(items) != [] && !IsSpace(DumpItems(items)[0]) && DumpItems(items)[0] != CLOSE_BRACKET
    && ParseItems(DumpItems(items) + ([CLOSE_BRACKET] + rest), depth) ==
       if depth + ItemsHeight(items) <= MAX_DEPTH then Done(items, rest) else Rejected
  }

  ghost predicate MembersReadBack(members: seq<Member>, depth: int, rest: Bytes)
    requires SafeMembers(members)
  {
    && DumpMembers(members) != [] && !IsSpace(DumpMembers(members)[0]) && DumpMembers(members)[0] != CLOSE_BRACE
    && ParseMembers(DumpMembers(members) + ([CLOSE_BRACE] + rest), depth) ==
       if depth + MembersHeight(members) <= MAX_DEPTH then Done(members, rest) else Rejected
  }

  lemma ArrayText(items: seq<Value>, rest: Bytes)
    requires SafeItems(items)
    ensures Dump(Array(items)) + rest == [OPEN_BRACKET] + (DumpItems(items) + ([CLOSE_BRACKET] + rest))
    ensures items == [] ==> DumpItems(items) == [] && ItemsHeight(items) == 0
  {
  }

  lemma ObjectText(members: seq<Member>, rest: Bytes)
    requires SafeMembers(members)
    ensures Dump(Object(members)) + rest == [OPEN_BRACE] + (DumpMembers(members) + ([CLOSE_BRACE] + rest))
    ensures members == [] ==> DumpMembers(members) == [] && MembersHeight(members) == 0
  {
  }

  lemma ArrayReads(items: seq<Value>, depth: int, rest: Bytes)
    requires SafeItems(items) && (items != [] ==> ItemsReadBack(items, depth + 1, rest))
    ensures Reads(Array(items), depth, rest)
  {
    hide ParseValue, ParseItems, Dump, DumpItems;
    var body := DumpItems(items) + ([CLOSE_BRACKET] + rest);
    ArrayText(items, rest);
    if items == [] {
      assert body == [CLOSE_BRACKET] + rest && body[1..] == rest;
    }
    ArrayOpens(body, depth);
  }

  lemma ObjectReads(members: seq<Member>, depth: int, rest: Bytes)
    requires SafeMembers(members) && (members != [] ==> MembersReadBack(members, depth + 1, rest))
    ensures Reads(Object(members), depth, rest)
  {
    hide ParseValue, ParseMembers, Dump, DumpMembers;
    var body := DumpMembers(members) + ([CLOSE_BRACE] + rest);
    ObjectText(members, rest);
    if members == [] {
      assert body == [CLOSE_BRACE] + rest && body[1..] == rest;
    }
    ObjectOpens(body, depth);
  }

  lemma ArrayOpens(body: Bytes, depth: int)
    requires body != [] && !IsSpace(body[0])
    ensures ParseValue([OPEN_BRACKET] + body, depth) ==
            if depth + 1 > MAX_DEPTH then Rejected
            else if body[0] == CLOSE_BRACKET then Done(Array([]), body[1..])
            else match ParseItems(body, depth + 1)
              case Rejected => Rejected
              case Done(vs, rest) => Done(Array(vs), rest)
  {
    assert ([OPEN_BRACKET] + body)[1..] == body;
    NoSpace([OPEN_BRACKET] + body);
    NoSpace(body);
  }

  lemma ObjectOpens(body: Bytes, depth: int)
    requires body != [] && !IsSpace(body[0])
    ensures ParseValue([OPEN_BRACE] + body, depth) ==
            if depth + 1 > MAX_DEPTH then Rejected
            else if body[0] == CLOSE_BRACE then Done(Object([]), body[1..])
            else match ParseMembers(body, depth + 1)
              case Rejected => Rejected
              case Done(ms, rest) => Done(Object(ms), rest)
  {
    assert ([OPEN_BRACE] + body)[1..] == body;
    NoSpace([OPEN_BRACE] + body);
    NoSpace(body);
  }

  lemma {:induction false} ItemsRead(items: seq<Value>, depth: int, rest: Bytes)
    requires items != [] && SafeItems(items)
    ensures ItemsReadBack(items, depth, rest)
    decreases items, 0
  {
    hide Dump, ParseValue;
    DumpBegins(items[0]);
    var close := [CLOSE_BRACKET] + rest;
    if |items| == 1 {
      assert DumpItems(items) + close == Dump(items[0]) + close;
      DumpReads(items[0], depth, close);
      assert close[1..] == rest;
      assert items == [items[0]] && items[1..] == [];
      assert CLOSE_BRACKET == 0x5D;
      NoSpace(close);
      assert ItemsHeight(items) == Height(items[0]);
    } else {
      var tail := DumpItems(items[1..]) + close;
      var sep := [COMMA] + tail;
      assert DumpItems(items) + close == Dump(items[0]) + sep;
      DumpReads(items[0], depth, sep);
      assert sep[1..] == tail;
      ItemsRead(items[1..], depth, rest);
      assert [items[0]] + items[1..] == items;
    }
  }

  lemma MemberReads(m: Member, depth: int, rest: Bytes)
    requires Safe(m.value) && Reads(m.value, depth, rest)
    ensures DumpMember(m) != [] && !IsSpace(DumpMember(m)[0]) && DumpMember(m)[0] != CLOSE_BRACE
    ensures ParseMember(DumpMember(m) + rest, depth) ==
            if depth + Height(m.value) <= MAX_DEPTH then Done(m, rest) else Rejected
  {
    hide Dump, ParseValue, EscapeBody;
    var value := Dump(m.value) + rest;
    var colon := [COLON] + value;
    var s := DumpMember(m) + rest;
    assert s == Quoted(m.key) + colon;
    NoSpace(s);
    QuotedReads(m.key, colon);
    NoSpace(colon);
    assert colon[1..] == value;
  }

  lemma {:induction false} MembersRead(members: seq<Member>, depth: int, rest: Bytes)
    requires members != [] && SafeMembers(members)
    ensures MembersReadBack(members, depth, rest)
    decreases members, 0
  {
    hide ParseMember, DumpMember, ParseValue, Dump;
    var close := [CLOSE_BRACE] + rest;
    if |members| == 1 {
      assert DumpMembers(members) + close == DumpMember(members[0]) + close;
      DumpReads(members[0].value, depth, close);
      MemberReads(members[0], depth, close);
      assert close[1..] == rest;
      assert members == [members[0]] && members[1..] == [];
    } else {
      var tail := DumpMembers(members[1..]) + close;
      var sep := [COMMA] + tail;
      assert DumpMembers(members) + close == DumpMember(members[0]) + sep;
      DumpReads(members[0].value, depth, sep);
      MemberReads(members[0], depth, sep);
      assert sep[1..] == tail;
      MembersRead(members[1..], depth, rest);
      assert [members[0]] + members[1..] == members;
    }
  }

  /** `parse(dump(v))` succeeds, with `v`, exactly when `v` is at most 128 deep. */
  lemma DocumentRoundTrip(v: Value)
    requires Safe(v)
    ensures ParseDocument(Dump(v)) == if Height(v) <= 128 then Ok(v) else Err(Protocol)
  {
    DumpReads(v, 0, []);
    assert Dump(v) + [] == Dump(v);
  }

  // ------------------------------------------------------------ normal form

  /** Whatever the parser accepts is nested at most as deep as it goes. */
  lemma {:induction false} AcceptedIsShallow(text: Bytes, depth: int)
    ensures var r := ParseValue(text, depth); r.Done? ==> depth + Height(r.value) <= MAX_DEPTH
    decreases |text|, 2
  {
    var s := SkipSpace(text);
    if s == [] || depth + 1 > MAX_DEPTH {
    } else if s[0] == OPEN_BRACE {
      var t := SkipSpace(s[1..]);
      if t != [] {
        MembersAreShallow(t, depth + 1);
      }
    } else if s[0] == OPEN_BRACKET {
      var t := SkipSpace(s[1..]);
      if t != [] {
        ItemsAreShallow(t, depth + 1);
      }
    }
  }

  lemma {:induction false} ItemsAreShallow(text: Bytes, depth: int)
    ensures var r := ParseItems(text, depth); r.Done? ==> depth + ItemsHeight(r.value) <= MAX_DEPTH
    decreases |text|, 3
  {
    AcceptedIsShallow(text, depth);
    var v := ParseValue(text, depth);
    if v.Done? {
      var s := SkipSpace(v.rest);
      if s != [] && s[0] == COMMA {
        ItemsAreShallow(s[1..], depth);
      }
    }
  }

  lemma {:induction false} MembersAreShallow(text: Bytes, depth: int)
    ensures var r := ParseMembers(text, depth); r.Done? ==> depth + MembersHeight(r.value) <= MAX_DEPTH
    decreases |text|, 2
  {
    var m := ParseMember(text, depth);
    if m.Done? {
      var key := ParseString(SkipSpace(text));
      var t := SkipSpace(key.rest);
      AcceptedIsShallow(t[1..], depth);
      var s := SkipSpace(m.rest);
      if s != [] && s[0] == COMMA {
        MembersAreShallow(s[1..], depth);
      }
    }
  }

  /** Writing an accepted document again and reading that gives the same value. */
  lemma DumpIsNormalForm(text: Bytes)
    requires ParseDocument(text).Ok? && Safe(ParseDocument(text).value)
    ensures ParseDocument(Dump(ParseDocument(text).value)) == ParseDocument(text)
  {
    AcceptedIsShallow(text, 0);
    DocumentRoundTrip(ParseDocument(text).value);
  }

  /** So two documents, however spaced and spelled, mean the same exactly when they are rewritten alike. */
  lemma DumpIsCanonical(text: Bytes, other: Bytes)
    requires ParseDocument(text).Ok? && Safe(ParseDocument(text).value)
    requires ParseDocument(other).Ok? && Safe(ParseDocument(other).value)
    ensures ParseDocument(text) == ParseDocument(other) <==>
            Dump(ParseDocument(text).value) == Dump(ParseDocument(other).value)
  {
    DumpIsNormalForm(text);
    DumpIsNormalForm(other);
  }
}
