/** The grammar of JSON documents as syntax trees: which texts are accepted, and as which values. */
module JsonGrammar {
  import opened Common
  import opened Json
  import opened JsonText
  import opened JsonNotation
  import JsonUtf8
  import JsonRoundTrip
  import Utf8

  // ------------------------------------------------------------------ trees

  /** A character of a string: an octet as it is, or an escape for a code point. */
  datatype Piece = Plain(octet: byte) | Escaped(text: Bytes, code: Utf8.Scalar)

  datatype Tree =
    | NullWord | TrueWord | FalseWord
    | Numeral(number: Decimal)
    | Text(pieces: seq<Piece>)
    | NoItems(gap: Bytes) | Items(items: ItemList)
    | NoMembers(gap: Bytes) | Members(members: MemberList)

  /** A value between white space. */
  datatype Spaced = Spaced(before: Bytes, tree: Tree, after: Bytes)

  /** A name between white space. */
  datatype Key = Key(before: Bytes, pieces: seq<Piece>, after: Bytes)

  datatype ItemList = LastItem(item: Spaced) | MoreItems(item: Spaced, others: ItemList)

  datatype MemberList = LastMember(key: Key, item: Spaced) | MoreMembers(key: Key, item: Spaced, others: MemberList)

  predicate Spaces(s: Bytes) {
    forall i :: 0 <= i < |s| ==> s[i] in Ascii(" \t\n\r")
  }

  predicate IsPiece(p: Piece) {
    match p
    case Plain(c) => c >= 0x20 && c !in Ascii("\"\\")
    case Escaped(text, code) => JsonUtf8.Spells(text, code, |text|)
  }

  predicate ArePieces(ps: seq<Piece>) {
    forall i :: 0 <= i < |ps| ==> IsPiece(ps[i])
  }

  /** A number starts with its sign or a digit, and is shorter than the scanner's buffer. */
  predicate IsNumeral(d: Decimal) {
    WellFormed(d) && (d.negative || d.whole != []) && |Written(d)| < 512
  }

  predicate IsTree(t: Tree)
    decreases t
  {
    match t
    case Numeral(d) => IsNumeral(d)
    case Text(ps) => ArePieces(ps)
    case NoItems(gap) => Spaces(gap)
    case NoMembers(gap) => Spaces(gap)
    case Items(items) => AreItems(items)
    case Members(members) => AreMembers(members)
    case _ => true
  }

  predicate IsSpaced(i: Spaced)
    decreases i
  {
    Spaces(i.before) && IsTree(i.tree) && Spaces(i.after)
  }

  predicate IsKey(k: Key) {
    Spaces(k.before) && ArePieces(k.pieces) && Spaces(k.after)
  }

  predicate AreItems(l: ItemList)
    decreases l
  {
    IsSpaced(l.item) && (l.MoreItems? ==> AreItems(l.others))
  }

  predicate AreMembers(l: MemberList)
    decreases l
  {
    IsKey(l.key) && IsSpaced(l.item) && (l.MoreMembers? ==> AreMembers(l.others))
  }

  // ------------------------------------------------ their text and their value

  function PieceText(p: Piece): Bytes {
    match p case Plain(c) => [c] case Escaped(text, _) => Ascii("\\") + text
  }

  /** The pieces, the closing quote, and what follows. */
  function PiecesText(ps: seq<Piece>, rest: Bytes): Bytes {
    if ps == [] then Ascii("\"") + rest else PieceText(ps[0]) + PiecesText(ps[1..], rest)
  }

  /** An octet as it is given, or those that denote the code point of an escape. */
  function PieceValue(p: Piece): Bytes {
    match p case Plain(c) => [c] case Escaped(_, code) => Utf8.Encode(code)
  }

  function PiecesValue(ps: seq<Piece>): Bytes {
    if ps == [] then [] else PieceValue(ps[0]) + PiecesValue(ps[1..])
  }

  /** The text of a value, and what follows it. */
  function TreeText(t: Tree, rest: Bytes): Bytes
    decreases t
  {
    match t
    case NullWord => Ascii("null") + rest
    case TrueWord => Ascii("true") + rest
    case FalseWord => Ascii("false") + rest
    case Numeral(d) => Written(d) + rest
    case Text(ps) => Ascii("\"") + PiecesText(ps, rest)
    case NoItems(gap) => Ascii("[") + (gap + (Ascii("]") + rest))
    case Items(items) => Ascii("[") + ItemsText(items, rest)
    case NoMembers(gap) => Ascii("{") + (gap + (Ascii("}") + rest))
    case Members(members) => Ascii("{") + MembersText(members, rest)
  }

  function SpacedText(i: Spaced, rest: Bytes): Bytes
    decreases i
  {
    i.before + TreeText(i.tree, i.after + rest)
  }

  /** The items between commas, the closing bracket, and what follows. */
  function ItemsText(l: ItemList, rest: Bytes): Bytes
    decreases l
  {
    match l
    case LastItem(i) => SpacedText(i, Ascii("]") + rest)
    case MoreItems(i, others) => SpacedText(i, Ascii(",") + ItemsText(others, rest))
  }

  function KeyText(k: Key, rest: Bytes): Bytes {
    k.before + (Ascii("\"") + PiecesText(k.pieces, k.after + (Ascii(":") + rest)))
  }

  function MembersText(l: MemberList, rest: Bytes): Bytes
    decreases l
  {
    match l
    case LastMember(k, i) => KeyText(k, SpacedText(i, Ascii("}") + rest))
    case MoreMembers(k, i, others) => KeyText(k, SpacedText(i, Ascii(",") + MembersText(others, rest)))
  }

  function ValueOf(t: Tree): Value
    decreases t
  {
    match t
    case NullWord => Null
    case TrueWord => Bool(true)
    case FalseWord => Bool(false)
    case Numeral(d) => Number(Denoted(d))
    case Text(ps) => String(PiecesValue(ps))
    case NoItems(_) => Array([])
    case Items(items) => Array(ItemsOf(items))
    case NoMembers(_) => Object([])
    case Members(members) => Object(MembersOf(members))
  }

  function ItemsOf(l: ItemList): (r: seq<Value>)
    decreases l
  {
    match l
    case LastItem(i) => [ValueOf(i.tree)]
    case MoreItems(i, others) => [ValueOf(i.tree)] + ItemsOf(others)
  }

  function MembersOf(l: MemberList): (r: seq<Member>)
    decreases l
  {
    match l
    case LastMember(k, i) => [Member(PiecesValue(k.pieces), ValueOf(i.tree))]
    case MoreMembers(k, i, others) => [Member(PiecesValue(k.pieces), ValueOf(i.tree))] + MembersOf(others)
  }

  /** How deep values are nested, a value without others in it counting one. */
  function Levels(t: Tree): nat
    decreases t
  {
    match t
    case Items(items) => 1 + ItemLevels(items)
    case Members(members) => 1 + MemberLevels(members)
    case _ => 1
  }

  function Deeper(a: nat, b: nat): nat {
    if a < b then b else a
  }

  function ItemLevels(l: ItemList): nat
    decreases l
  {
    match l
    case LastItem(i) => Levels(i.tree)
    case MoreItems(i, others) => Deeper(Levels(i.tree), ItemLevels(others))
  }

  function MemberLevels(l: MemberList): nat
    decreases l
  {
    match l
    case LastMember(_, i) => Levels(i.tree)
    case MoreMembers(_, i, others) => Deeper(Levels(i.tree), MemberLevels(others))
  }

  // ---------------------------------------------------------- small lemmas

  lemma MarksAre()
    ensures Ascii("\"") == [QUOTE] && Ascii("\\") == [BACKSLASH] && Ascii("\"\\") == [QUOTE, BACKSLASH]
    ensures Ascii("[") == [OPEN_BRACKET] && Ascii("]") == [CLOSE_BRACKET]
    ensures Ascii("{") == [OPEN_BRACE] && Ascii("}") == [CLOSE_BRACE]
    ensures Ascii(",") == [COMMA] && Ascii(":") == [COLON]
  {
  }

  lemma WordsAre()
    ensures Ascii("null") == NULL && Ascii("true") == TRUE && Ascii("false") == FALSE
  {
  }

  lemma {:induction false} SkipsSpaces(before: Bytes, s: Bytes)
    requires Spaces(before) && (s == [] || !IsSpace(s[0]))
    ensures SkipSpace(before + s) == s
  {
    hide Ascii, IsSpace;
    if before == [] {
      assert before + s == s;
    } else {
      SpacesAre(before[0]);
      assert (before + s)[1..] == before[1..] + s;
      SkipsSpaces(before[1..], s);
    }
  }

  lemma {:induction false} SkippedIs(s: Bytes) returns (before: Bytes)
    ensures s == before + SkipSpace(s) && Spaces(before)
  {
    hide Ascii, IsSpace;
    before := [];
    if s != [] && IsSpace(s[0]) {
      SpacesAre(s[0]);
      var more := SkippedIs(s[1..]);
      before := [s[0]] + more;
    }
  }

  /** White space does not go on a number. */
  lemma SpacedEnds(after: Bytes, c: byte, rest: Bytes)
    requires Spaces(after) && (c == COMMA || c == CLOSE_BRACKET || c == CLOSE_BRACE)
    ensures EndsNumber(after + ([c] + rest)) && !IsSpace(c)
  {
    NumberChars();
    hide Ascii;
    if after != [] {
      SpacesAre(after[0]);
    }
  }

  // ---------------------------------------------------------------- strings

  lemma SpellsLocal(s: Bytes, cp: Utf8.Scalar, n: nat)
    requires n <= |s|
    ensures JsonUtf8.Spells(s, cp, n) <==> JsonUtf8.Spells(s[..n], cp, n)
  {
    hide JsonUtf8.HexDigitIs, JsonUtf8.SpellsLetter;
    var t := s[..n];
    if n == 5 {
      assert t[1..] == s[1..][..4];
    } else if n == 11 {
      assert t[1..][..4] == s[1..][..4] && t[7..][..4] == s[7..][..4];
    }
  }

  /** What the reader of strings does with one escape. */
  lemma EscapeReads(text: Bytes, code: Utf8.Scalar, rest: Bytes)
    requires JsonUtf8.Spells(text, code, |text|)
    ensures Escape(text + rest) == Done(Utf8.Encode(code), rest)
  {
    hide JsonUtf8.Spells, Escape, Utf8.Encode, Utf8.Valid, Utf8.Scalars;
    var s := text + rest;
    assert s[..|text|] == text && s[|text|..] == rest;
    SpellsLocal(s, code, |text|);
    JsonUtf8.EscapesDenote(s);
  }

  lemma PieceReads(p: Piece, rest: Bytes)
    requires IsPiece(p)
    ensures StringBody(PieceText(p) + rest) == Following(PieceValue(p), StringBody(rest))
  {
    MarksAre();
    hide Ascii, Escape, Utf8.Encode, Following, JsonUtf8.Spells;
    match p
    case Plain(c) => assert ([c] + rest)[1..] == rest;
    case Escaped(text, code) =>
      EscapeReads(text, code, rest);
      assert ([BACKSLASH] + text + rest)[1..] == text + rest;
  }

  lemma {:induction false} PiecesRead(ps: seq<Piece>, rest: Bytes)
    requires ArePieces(ps)
    ensures StringBody(PiecesText(ps, rest)) == Done(PiecesValue(ps), rest)
  {
    hide StringBody, IsPiece, PieceText;
    if ps == [] {
      ClosingReads(rest);
    } else {
      PiecesRead(ps[1..], rest);
      PieceReads(ps[0], PiecesText(ps[1..], rest));
    }
  }

  lemma ClosingReads(rest: Bytes)
    ensures StringBody(Ascii("\"") + rest) == Done([], rest)
  {
    MarksAre();
    assert ([QUOTE] + rest)[1..] == rest;
  }

  /** The first piece of a string that is read. */
  lemma PieceFound(s: Bytes) returns (p: Piece, rest: Bytes)
    requires StringBody(s).Done? && s[0] != QUOTE
    ensures IsPiece(p) && s == PieceText(p) + rest && |rest| < |s|
    ensures StringBody(s) == Following(PieceValue(p), StringBody(rest)) && StringBody(rest).Done?
  {
    MarksAre();
    hide Ascii, Escape, Utf8.Encode, JsonUtf8.Spells;
    if s[0] == BACKSLASH {
      var t := s[1..];
      JsonUtf8.EscapesDenote(t);
      var cp: Utf8.Scalar, n: nat :| JsonUtf8.Spells(t, cp, n);
      SpelledWithin(t, cp, n);
      SpellsLocal(t, cp, n);
      p, rest := Escaped(t[..n], cp), t[n..];
      EscapeReads(t[..n], cp, rest);
      assert t == t[..n] + rest && s == [BACKSLASH] + t[..n] + rest;
    } else {
      p, rest := Plain(s[0]), s[1..];
    }
  }

  lemma SpelledWithin(s: Bytes, cp: Utf8.Scalar, n: nat)
    requires JsonUtf8.Spells(s, cp, n)
    ensures 1 <= n <= |s|
  {
  }

  lemma {:induction false} PiecesFound(s: Bytes) returns (ps: seq<Piece>)
    requires StringBody(s).Done?
    ensures ArePieces(ps) && s == PiecesText(ps, StringBody(s).rest) && StringBody(s).value == PiecesValue(ps)
    decreases |s|
  {
    hide PieceText, IsPiece, Ascii, Utf8.Encode;
    MarksAre();
    if s[0] == QUOTE {
      ps := [];
      assert s == [QUOTE] + s[1..];
    } else {
      var p, rest := PieceFound(s);
      var more := PiecesFound(rest);
      ps := [p] + more;
      assert ps[1..] == more;
    }
  }

  // ---------------------------------------------------------------- numbers

  lemma {:induction false} DigitsFound(s: Bytes) returns (ds: seq<Digit>)
    requires forall i :: 0 <= i < |s| ==> IsDigit(s[i])
    ensures Spelled(ds) == s
  {
    hide Spelled;
    if s == [] {
      ds := [];
      NothingSpelled();
    } else {
      var last := |s| - 1;
      var front := DigitsFound(s[..last]);
      ds := front + [s[last] - ZERO];
      SpelledMore(front, s[last] - ZERO);
      assert s == s[..last] + [s[last]];
    }
  }

  lemma NothingSpelled()
    ensures Spelled([]) == []
  {
  }

  /** The parts of an exponent that is read to its end. */
  lemma PowerParts(t: Bytes) returns (sign: Bytes, digits: Bytes)
    requires t != [] && Exponent(t).0 == |t|
    ensures t == [t[0]] + (sign + digits) && (t[0] == 0x65 || t[0] == 0x45)
    ensures (sign == [] || sign == [PLUS] || sign == [MINUS]) && digits != []
    ensures forall i :: 0 <= i < |digits| ==> IsDigit(digits[i])
  {
    hide DecimalValue;
    var n := if |t| > 1 && (t[1] == PLUS || t[1] == MINUS) then 1 else 0;
    sign, digits := t[1..1 + n], t[1 + n..];
    assert n == 1 ==> sign == [t[1]];
  }

  lemma PowerFound(t: Bytes) returns (p: Option<Power>)
    requires Exponent(t).0 == |t|
    ensures var d := Decimal(false, [0], None, p); WellFormed(d) && PowerText(d) == t
  {
    Marks();
    hide Spelled, Exponent, Ascii;
    if t == [] {
      p := None;
    } else {
      var sign, digits := PowerParts(t);
      var ds := DigitsFound(digits);
      NothingSpelled();
      p := Some(Power(if t[0] == 0x65 then 'e' else 'E',
                      if sign == [] then "" else if sign == [PLUS] then "+" else "-", ds));
      LetterText(p.value.letter);
    }
  }

  lemma LetterText(c: char)
    requires c == 'e' || c == 'E'
    ensures Ascii([c]) == Ascii(if c == 'e' then "e" else "E")
  {
  }

  /** An unsigned number that is read to its end. */
  lemma MagnitudeFound(t: Bytes) returns (whole: seq<Digit>, fraction: Option<seq<Digit>>, power: Option<Power>)
    requires ReadMagnitude(t).Some? && ReadMagnitude(t).value.used == |t|
    ensures var d := Decimal(false, whole, fraction, power); WellFormed(d) && Unsigned(d) == t
    ensures whole != [] <==> t != [] && IsDigit(t[0])
  {
    Marks();
    hide Spelled, DecimalValue, Exponent, Ascii, Pow10, PowerText, IsDigit;
    var w := DigitRun(t);
    whole := DigitsFound(t[..w]);
    var point := if w < |t| && t[w] == POINT then 1 else 0;
    var f := if point == 1 then DigitRun(t[w + 1..]) else 0;
    fraction := None;
    if point == 1 {
      var ds := DigitsFound(t[w + 1..][..f]);
      fraction := Some(ds);
    }
    var end := w + point + f;
    power := PowerFound(t[end..]);
    PowerOnly(power, whole, fraction);
    assert t == t[..w] + (t[w..end] + t[end..]);
    assert point == 1 ==> t[w..end] == [POINT] + t[w + 1..][..f];
    RunStarts(t);
  }

  lemma PowerOnly(power: Option<Power>, whole: seq<Digit>, fraction: Option<seq<Digit>>)
    ensures PowerText(Decimal(false, [0], None, power)) == PowerText(Decimal(false, whole, fraction, power))
  {
  }

  lemma RunStarts(t: Bytes)
    ensures DigitRun(t) > 0 <==> t != [] && IsDigit(t[0])
  {
  }

  /** A number that is accepted, with nothing behind it that could belong to one, is in decimal notation. */
  lemma NumeralFound(s: Bytes) returns (d: Decimal)
    requires ParseNumber(s).Done? && EndsNumber(ParseNumber(s).rest) && (s[0] == MINUS || IsDigit(s[0]))
    ensures IsNumeral(d) && s == Written(d) + ParseNumber(s).rest && ParseNumber(s).value == Number(Denoted(d))
  {
    Marks();
    hide Ascii, ReadMagnitude, Scale, Denoted, Unsigned, WellFormed, ParseNumber, NumberToken;
    var token := NumberToken(s);
    TokenRead(s);
    var sign := if token[0] == MINUS then 1 else 0;
    var whole, fraction, power := MagnitudeFound(token[sign..]);
    d := Decimal(sign == 1, whole, fraction, power);
    SameUnsigned(d, Decimal(false, whole, fraction, power));
    assert token == token[..sign] + token[sign..];
    assert Written(d) == token;
    NumberReads(d, ParseNumber(s).rest);
  }

  lemma SameUnsigned(d: Decimal, e: Decimal)
    requires d == e.(negative := d.negative)
    ensures Unsigned(d) == Unsigned(e) && WellFormed(d) == WellFormed(e)
  {
  }

  /** The whole token is read. */
  lemma TokenRead(s: Bytes)
    requires ParseNumber(s).Done? && EndsNumber(ParseNumber(s).rest) && (s[0] == MINUS || IsDigit(s[0]))
    ensures var token := NumberToken(s);
            && token != [] && |token| < 512 && token[0] == s[0] && s == token + ParseNumber(s).rest
            && (s[0] == MINUS || s[0] != PLUS)
            && var t := token[if token[0] == MINUS then 1 else 0..];
               ReadMagnitude(t).Some? && ReadMagnitude(t).value.used == |t|
  {
    hide ReadMagnitude, Scale, Ascii;
    NumberChars();
    var token := NumberToken(s);
    RunIsChars(s);
    RunIsChars(s[1..]);
    var used := Strtod(token).value.1;
    StopsOnChar(s, used, |token|);
    assert s == s[..|token|] + s[|token|..];
  }

  lemma StopsOnChar(s: Bytes, used: nat, len: nat)
    requires used <= len <= |s| && forall i :: 0 <= i < len ==> IsNumberChar(s[i])
    ensures used < len ==> s[used..] != [] && IsNumberChar(s[used..][0])
  {
  }

  lemma {:induction false} RunIsChars(s: Bytes)
    ensures forall i :: 0 <= i < NumberRun(s) ==> IsNumberChar(s[i])
  {
    if s != [] && IsNumberChar(s[0]) {
      RunIsChars(s[1..]);
    }
  }

  // ------------------------------------------------------ every tree is read

  lemma SkipTwice(s: Bytes)
    ensures SkipSpace(SkipSpace(s)) == SkipSpace(s)
  {
    JsonRoundTrip.NoSpace(SkipSpace(s));
  }

  /** White space before a value makes no difference. */
  lemma ValueSkips(text: Bytes, depth: int)
    ensures ParseValue(SkipSpace(text), depth) == ParseValue(text, depth)
  {
    hide ParseObject, ParseArray, ParseString, ParseNumber, Literal, SkipSpace, IsDigit;
    SkipTwice(text);
  }

  lemma ItemsSkip(text: Bytes, depth: int)
    ensures ParseItems(SkipSpace(text), depth) == ParseItems(text, depth)
  {
    hide ParseValue, SkipSpace;
    ValueSkips(text, depth);
  }

  lemma MemberSkips(text: Bytes, depth: int)
    ensures ParseMember(SkipSpace(text), depth) == ParseMember(text, depth)
  {
    hide ParseValue, ParseString, SkipSpace;
    SkipTwice(text);
  }

  lemma MembersSkip(text: Bytes, depth: int)
    ensures ParseMembers(SkipSpace(text), depth) == ParseMembers(text, depth)
  {
    hide ParseMember, SkipSpace;
    MemberSkips(text, depth);
  }

  /** How the text of a tree begins, which tells the reader its kind. */
  lemma TreeBegins(t: Tree, rest: Bytes)
    requires IsTree(t)
    ensures TreeText(t, rest) != []
    ensures var c := TreeText(t, rest)[0];
            && !IsSpace(c) && c != CLOSE_BRACKET && c != CLOSE_BRACE
            && match t
               case NullWord => c == 0x6E
               case TrueWord => c == 0x74
               case FalseWord => c == 0x66
               case Numeral(_) => c == MINUS || IsDigit(c)
               case Text(_) => c == QUOTE
               case NoItems(_) => c == OPEN_BRACKET
               case Items(_) => c == OPEN_BRACKET
               case NoMembers(_) => c == OPEN_BRACE
               case Members(_) => c == OPEN_BRACE
  {
    MarksAre();
    WordsAre();
    hide Ascii, Written;
    if t.Numeral? {
      NumeralBegins(t.number);
    }
  }

  lemma NumeralBegins(d: Decimal)
    requires IsNumeral(d)
    ensures Written(d) != [] && (Written(d)[0] == MINUS || IsDigit(Written(d)[0]))
  {
    Marks();
    hide Ascii, Spelled, FractionText, PowerText;
    SpelledValue(d.whole);
  }

  lemma ScalarReads(t: Tree, rest: Bytes, depth: int)
    requires IsTree(t) && EndsNumber(rest) && depth + 1 <= 128
    requires t.NullWord? || t.TrueWord? || t.FalseWord? || t.Numeral? || t.Text?
    ensures ParseValue(TreeText(t, rest), depth) == Done(ValueOf(t), rest)
  {
    TreeBegins(t, rest);
    var s := TreeText(t, rest);
    JsonRoundTrip.NoSpace(s);
    MarksAre();
    WordsAre();
    hide Ascii, ParseNumber, StringBody, Written, Denoted, SkipSpace, PiecesText, EndsNumber;
    match t
    case Numeral(d) => NumberReads(d, rest);
    case Text(ps) =>
      PiecesRead(ps, rest);
      assert s[1..] == PiecesText(ps, rest);
    case NullWord => assert s[4..] == rest;
    case TrueWord => assert s[4..] == rest;
    case FalseWord => assert s[5..] == rest;
    case _ =>
  }

  lemma {:induction false} TreeReads(t: Tree, rest: Bytes, depth: int)
    requires IsTree(t) && EndsNumber(rest) && depth + Levels(t) <= 128
    ensures ParseValue(TreeText(t, rest), depth) == Done(ValueOf(t), rest)
    decreases t
  {
    hide ParseValue, ParseItems, ParseMembers, Ascii, EndsNumber, Spaces, Written, SkipSpace;
    MarksAre();
    match t
    case NoItems(gap) =>
      SkipsSpaces(gap, [CLOSE_BRACKET] + rest);
      ArrayReads(gap + ([CLOSE_BRACKET] + rest), depth);
      assert ([CLOSE_BRACKET] + rest)[1..] == rest;
    case Items(items) =>
      ItemsRead(items, rest, depth + 1);
      ItemsBegin(items, rest);
      ArrayReads(ItemsText(items, rest), depth);
    case NoMembers(gap) =>
      SkipsSpaces(gap, [CLOSE_BRACE] + rest);
      ObjectReads(gap + ([CLOSE_BRACE] + rest), depth);
      assert ([CLOSE_BRACE] + rest)[1..] == rest;
    case Members(members) =>
      MembersRead(members, rest, depth + 1);
      MembersBegin(members, rest);
      ObjectReads(MembersText(members, rest), depth);
    case _ =>
      ScalarReads(t, rest, depth);
  }

  lemma ArrayReads(body: Bytes, depth: int)
    requires depth + 1 <= 128 && SkipSpace(body) != []
    ensures ParseValue([OPEN_BRACKET] + body, depth) ==
            if SkipSpace(body)[0] == CLOSE_BRACKET then Done(Array([]), SkipSpace(body)[1..])
            else match ParseItems(body, depth + 1)
              case Rejected => Rejected
              case Done(vs, rest) => Done(Array(vs), rest)
  {
    hide ParseItems, SkipSpace;
    var s := [OPEN_BRACKET] + body;
    JsonRoundTrip.NoSpace(s);
    assert s[1..] == body;
    ItemsSkip(body, depth + 1);
  }

  lemma ObjectReads(body: Bytes, depth: int)
    requires depth + 1 <= 128 && SkipSpace(body) != []
    ensures ParseValue([OPEN_BRACE] + body, depth) ==
            if SkipSpace(body)[0] == CLOSE_BRACE then Done(Object([]), SkipSpace(body)[1..])
            else match ParseMembers(body, depth + 1)
              case Rejected => Rejected
              case Done(ms, rest) => Done(Object(ms), rest)
  {
    hide ParseMembers, SkipSpace;
    var s := [OPEN_BRACE] + body;
    JsonRoundTrip.NoSpace(s);
    assert s[1..] == body;
    MembersSkip(body, depth + 1);
  }

  /** The first item behind its white space. */
  lemma ItemsBegin(l: ItemList, rest: Bytes)
    requires AreItems(l)
    ensures var s := SkipSpace(ItemsText(l, rest)); s != [] && s[0] != CLOSE_BRACKET
  {
    hide SkipSpace, TreeText, IsTree, Ascii;
    var i := l.item;
    var tail := if l.LastItem? then Ascii("]") + rest else Ascii(",") + ItemsText(l.others, rest);
    TreeBegins(i.tree, i.after + tail);
    SkipsSpaces(i.before, TreeText(i.tree, i.after + tail));
  }

  lemma MembersBegin(l: MemberList, rest: Bytes)
    requires AreMembers(l)
    ensures var s := SkipSpace(MembersText(l, rest)); s != [] && s[0] == QUOTE
  {
    MarksAre();
    hide SkipSpace, SpacedText, PiecesText, IsSpaced, ArePieces, Ascii;
    var tail := if l.LastMember? then Ascii("}") + rest else Ascii(",") + MembersText(l.others, rest);
    KeyBegins(l.key, SpacedText(l.item, tail));
  }

  lemma KeyBegins(k: Key, rest: Bytes)
    requires IsKey(k)
    ensures SkipSpace(KeyText(k, rest)) == [QUOTE] + PiecesText(k.pieces, k.after + ([COLON] + rest))
  {
    MarksAre();
    hide SkipSpace, PiecesText, ArePieces, Ascii;
    SkipsSpaces(k.before, [QUOTE] + PiecesText(k.pieces, k.after + ([COLON] + rest)));
  }

  /** What reading an item, and then the mark behind it, takes. */
  lemma SpacedReads(i: Spaced, c: byte, tail: Bytes, depth: int)
    requires IsSpaced(i) && (c == COMMA || c == CLOSE_BRACKET || c == CLOSE_BRACE)
    requires ParseValue(TreeText(i.tree, i.after + ([c] + tail)), depth) ==
             Done(ValueOf(i.tree), i.after + ([c] + tail))
    ensures ParseValue(SpacedText(i, [c] + tail), depth) == Done(ValueOf(i.tree), i.after + ([c] + tail))
    ensures SkipSpace(i.after + ([c] + tail)) == [c] + tail
  {
    hide ParseValue, TreeText, SkipSpace, IsTree;
    SpacedEnds(i.after, c, tail);
    SkipsSpaces(i.after, [c] + tail);
    TreeBegins(i.tree, i.after + ([c] + tail));
    SkipsSpaces(i.before, TreeText(i.tree, i.after + ([c] + tail)));
    ValueSkips(SpacedText(i, [c] + tail), depth);
  }

  lemma {:induction false} ItemsRead(l: ItemList, rest: Bytes, depth: int)
    requires AreItems(l) && depth + ItemLevels(l) <= 128
    ensures ParseItems(ItemsText(l, rest), depth) == Done(ItemsOf(l), rest)
    decreases l
  {
    hide ParseValue, TreeText, SpacedText, SkipSpace, IsTree, Ascii, EndsNumber;
    MarksAre();
    var i := l.item;
    match l
    case LastItem(_) =>
      SpacedEnds(i.after, CLOSE_BRACKET, rest);
      TreeReads(i.tree, i.after + ([CLOSE_BRACKET] + rest), depth);
      SpacedReads(i, CLOSE_BRACKET, rest, depth);
      assert ([CLOSE_BRACKET] + rest)[1..] == rest;
    case MoreItems(_, others) =>
      var tail := ItemsText(others, rest);
      SpacedEnds(i.after, COMMA, tail);
      TreeReads(i.tree, i.after + ([COMMA] + tail), depth);
      SpacedReads(i, COMMA, tail, depth);
      ItemsRead(others, rest, depth);
      assert ([COMMA] + tail)[1..] == tail;
  }

  lemma KeyReads(k: Key, rest: Bytes, depth: int)
    requires IsKey(k)
    ensures ParseMember(KeyText(k, rest), depth) ==
            match ParseValue(rest, depth)
            case Rejected => Rejected
            case Done(v, behind) => Done(Member(PiecesValue(k.pieces), v), behind)
  {
    hide ParseValue, SkipSpace, PiecesText, StringBody, ArePieces;
    KeyBegins(k, rest);
    var colon := k.after + ([COLON] + rest);
    PiecesRead(k.pieces, colon);
    assert ([QUOTE] + PiecesText(k.pieces, colon))[1..] == PiecesText(k.pieces, colon);
    SkipsSpaces(k.after, [COLON] + rest);
    assert ([COLON] + rest)[1..] == rest;
  }

  lemma {:induction false} MembersRead(l: MemberList, rest: Bytes, depth: int)
    requires AreMembers(l) && depth + MemberLevels(l) <= 128
    ensures ParseMembers(MembersText(l, rest), depth) == Done(MembersOf(l), rest)
    decreases l
  {
    hide ParseValue, ParseMember, TreeText, SpacedText, KeyText, SkipSpace, IsTree, Ascii, EndsNumber, PiecesValue;
    MarksAre();
    var i := l.item;
    match l
    case LastMember(k, _) =>
      SpacedEnds(i.after, CLOSE_BRACE, rest);
      TreeReads(i.tree, i.after + ([CLOSE_BRACE] + rest), depth);
      SpacedReads(i, CLOSE_BRACE, rest, depth);
      KeyReads(k, SpacedText(i, [CLOSE_BRACE] + rest), depth);
      assert ([CLOSE_BRACE] + rest)[1..] == rest;
    case MoreMembers(k, _, others) =>
      var tail := MembersText(others, rest);
      SpacedEnds(i.after, COMMA, tail);
      TreeReads(i.tree, i.after + ([COMMA] + tail), depth);
      SpacedReads(i, COMMA, tail, depth);
      KeyReads(k, SpacedText(i, [COMMA] + tail), depth);
      MembersRead(others, rest, depth);
      assert ([COMMA] + tail)[1..] == tail;
  }

  // ----------------------------------------------- all that is read is a tree

  lemma EndsBefore(text: Bytes) returns (after: Bytes)
    requires SkipSpace(text) != []
    requires SkipSpace(text)[0] == COMMA || SkipSpace(text)[0] == CLOSE_BRACKET || SkipSpace(text)[0] == CLOSE_BRACE
    ensures text == after + SkipSpace(text) && Spaces(after) && EndsNumber(text)
  {
    hide SkipSpace, EndsNumber;
    after := SkippedIs(text);
    var s := SkipSpace(text);
    assert s == [s[0]] + s[1..];
    SpacedEnds(after, s[0], s[1..]);
  }

  lemma ScalarFound(s: Bytes, depth: int) returns (t: Tree)
    requires ParseValue(s, depth).Done? && EndsNumber(ParseValue(s, depth).rest)
    requires s != [] && !IsSpace(s[0]) && s[0] != OPEN_BRACE && s[0] != OPEN_BRACKET
    ensures IsTree(t) && s == TreeText(t, ParseValue(s, depth).rest)
    ensures ValueOf(t) == ParseValue(s, depth).value && depth + 1 <= 128 && Levels(t) == 1
  {
    hide Ascii, ParseValue, ParseNumber, StringBody, Written, Denoted, PiecesText, EndsNumber, IsDigit, PiecesValue;
    MarksAre();
    ScalarIs(s, depth);
    if s[0] == QUOTE {
      var ps := PiecesFound(s[1..]);
      t := Text(ps);
      assert s == [QUOTE] + s[1..];
    } else if s[0] == MINUS || IsDigit(s[0]) {
      var d := NumeralFound(s);
      t := Numeral(d);
    } else {
      t := WordFound(s, depth);
    }
  }

  lemma ScalarIs(s: Bytes, depth: int)
    requires ParseValue(s, depth).Done?
    requires s != [] && !IsSpace(s[0]) && s[0] != OPEN_BRACE && s[0] != OPEN_BRACKET
    ensures depth + 1 <= 128
    ensures s[0] == QUOTE ==>
              var r := StringBody(s[1..]); r.Done? && ParseValue(s, depth) == Done(String(r.value), r.rest)
    ensures s[0] == MINUS || IsDigit(s[0]) ==> ParseNumber(s) == ParseValue(s, depth)
  {
    JsonRoundTrip.NoSpace(s);
    hide SkipSpace, StringBody, ParseNumber;
  }

  lemma WordFound(s: Bytes, depth: int) returns (t: Tree)
    requires ParseValue(s, depth).Done? && s != [] && !IsSpace(s[0])
    requires s[0] != OPEN_BRACE && s[0] != OPEN_BRACKET && s[0] != QUOTE && s[0] != MINUS && !IsDigit(s[0])
    ensures IsTree(t) && s == TreeText(t, ParseValue(s, depth).rest)
    ensures ValueOf(t) == ParseValue(s, depth).value && Levels(t) == 1
  {
    JsonRoundTrip.NoSpace(s);
    WordsAre();
    hide SkipSpace, Ascii;
    t := if s[0] == 0x74 then TrueWord else if s[0] == 0x66 then FalseWord else NullWord;
    assert s == s[..|s| - |ParseValue(s, depth).rest|] + ParseValue(s, depth).rest;
  }

  lemma {:induction false} TreeFound(text: Bytes, depth: int) returns (before: Bytes, t: Tree)
    requires ParseValue(text, depth).Done? && EndsNumber(ParseValue(text, depth).rest)
    ensures Spaces(before) && IsTree(t) && text == before + TreeText(t, ParseValue(text, depth).rest)
    ensures ValueOf(t) == ParseValue(text, depth).value && depth + Levels(t) <= 128
    decreases |text|, 2
  {
    hide ParseValue, ParseItems, ParseMembers, TreeText, SkipSpace, Ascii, IsSpace;
    before := SkippedIs(text);
    var s := SkipSpace(text);
    ValueSkips(text, depth);
    ValueStarts(text, depth);
    if s[0] == OPEN_BRACKET {
      t := ArrayFound(s, depth);
    } else if s[0] == OPEN_BRACE {
      t := ObjectFound(s, depth);
    } else {
      t := ScalarFound(s, depth);
    }
  }

  lemma ValueStarts(text: Bytes, depth: int)
    requires ParseValue(text, depth).Done?
    ensures SkipSpace(text) != [] && !IsSpace(SkipSpace(text)[0]) && depth + 1 <= 128
  {
    hide ParseObject, ParseArray, ParseString, ParseNumber, Literal;
  }

  lemma {:induction false} ArrayFound(s: Bytes, depth: int) returns (t: Tree)
    requires ParseValue(s, depth).Done? && s != [] && s[0] == OPEN_BRACKET && depth + 1 <= 128
    ensures IsTree(t) && s == TreeText(t, ParseValue(s, depth).rest)
    ensures ValueOf(t) == ParseValue(s, depth).value && depth + Levels(t) <= 128
    decreases |s|, 1
  {
    hide ParseValue, ParseItems, SkipSpace, Ascii, Spaces;
    MarksAre();
    var body := s[1..];
    assert s == [OPEN_BRACKET] + body;
    BodyStarts(s, depth);
    ArrayReads(body, depth);
    if SkipSpace(body)[0] == CLOSE_BRACKET {
      var gap := SkippedIs(body);
      t := NoItems(gap);
      assert SkipSpace(body) == [CLOSE_BRACKET] + SkipSpace(body)[1..];
    } else {
      var l := ItemsFound(body, depth + 1);
      t := Items(l);
    }
  }

  lemma {:induction false} ObjectFound(s: Bytes, depth: int) returns (t: Tree)
    requires ParseValue(s, depth).Done? && s != [] && s[0] == OPEN_BRACE && depth + 1 <= 128
    ensures IsTree(t) && s == TreeText(t, ParseValue(s, depth).rest)
    ensures ValueOf(t) == ParseValue(s, depth).value && depth + Levels(t) <= 128
    decreases |s|, 1
  {
    hide ParseValue, ParseMembers, SkipSpace, Ascii, Spaces;
    MarksAre();
    var body := s[1..];
    assert s == [OPEN_BRACE] + body;
    BodyStarts(s, depth);
    ObjectReads(body, depth);
    if SkipSpace(body)[0] == CLOSE_BRACE {
      var gap := SkippedIs(body);
      t := NoMembers(gap);
      assert SkipSpace(body) == [CLOSE_BRACE] + SkipSpace(body)[1..];
    } else {
      var l := MembersFound(body, depth + 1);
      t := Members(l);
    }
  }

  /** An array or object that is read does not end behind its opening mark. */
  lemma BodyStarts(s: Bytes, depth: int)
    requires ParseValue(s, depth).Done? && s != [] && (s[0] == OPEN_BRACKET || s[0] == OPEN_BRACE)
    ensures SkipSpace(s[1..]) != []
  {
    hide SkipSpace;
    JsonRoundTrip.NoSpace(s);
    NothingRead(depth + 1);
  }

  lemma NothingRead(depth: int)
    ensures ParseItems([], depth) == Rejected && ParseMembers([], depth) == Rejected
  {
  }

  lemma {:induction false} ItemsFound(text: Bytes, depth: int) returns (l: ItemList)
    requires ParseItems(text, depth).Done?
    ensures AreItems(l) && text == ItemsText(l, ParseItems(text, depth).rest)
    ensures ItemsOf(l) == ParseItems(text, depth).value && depth + ItemLevels(l) <= 128
    decreases |text|, 3
  {
    hide ParseValue, TreeText, SkipSpace, IsTree, Ascii, EndsNumber, Spaces;
    MarksAre();
    var v := ParseValue(text, depth);
    var after := EndsBefore(v.rest);
    var before, t := TreeFound(text, depth);
    var i, s := Spaced(before, t, after), SkipSpace(v.rest);
    assert s == [s[0]] + s[1..];
    if s[0] == COMMA {
      var others := ItemsFound(s[1..], depth);
      l := MoreItems(i, others);
    } else {
      l := LastItem(i);
    }
  }

  lemma KeyFound(text: Bytes, depth: int) returns (k: Key, rest: Bytes)
    requires ParseMember(text, depth).Done?
    ensures IsKey(k) && text == KeyText(k, rest) && |rest| < |text| && ParseValue(rest, depth).Done?
    ensures ParseMember(text, depth) ==
            Done(Member(PiecesValue(k.pieces), ParseValue(rest, depth).value), ParseValue(rest, depth).rest)
  {
    hide ParseValue, SkipSpace, Ascii, Spaces, ArePieces, StringBody, PiecesText, PiecesValue;
    MarksAre();
    var before := SkippedIs(text);
    var s := SkipSpace(text);
    var ps := PiecesFound(s[1..]);
    var behind := StringBody(s[1..]).rest;
    var after := SkippedIs(behind);
    rest := SkipSpace(behind)[1..];
    k := Key(before, ps, after);
    assert s == [QUOTE] + s[1..];
    assert SkipSpace(behind) == [COLON] + rest;
  }

  lemma {:induction false} MembersFound(text: Bytes, depth: int) returns (l: MemberList)
    requires ParseMembers(text, depth).Done?
    ensures AreMembers(l) && text == MembersText(l, ParseMembers(text, depth).rest)
    ensures MembersOf(l) == ParseMembers(text, depth).value && depth + MemberLevels(l) <= 128
    decreases |text|, 3
  {
    hide ParseValue, ParseMember, TreeText, KeyText, SkipSpace, IsTree, IsKey, Ascii, EndsNumber, Spaces, PiecesValue;
    MarksAre();
    var m := ParseMember(text, depth);
    var k, rest := KeyFound(text, depth);
    var after := EndsBefore(m.rest);
    var before, t := TreeFound(rest, depth);
    var i, s := Spaced(before, t, after), SkipSpace(m.rest);
    assert s == [s[0]] + s[1..];
    if s[0] == COMMA {
      var others := MembersFound(s[1..], depth);
      l := MoreMembers(k, i, others);
    } else {
      l := LastMember(k, i);
    }
  }

  // -------------------------------------------------------------- documents

  /** A text is the tree `t` between white space. */
  predicate Writes(text: Bytes, before: Bytes, t: Tree, after: Bytes) {
    Spaces(before) && IsTree(t) && Spaces(after) && text == before + TreeText(t, after)
  }

  /**
   Which texts are documents, and which values they stand for: exactly those
   that are some tree between white space, of at most 128 levels, and its value.
   */
  lemma DocumentGrammar(text: Bytes, v: Value)
    ensures ParseDocument(text) == Ok(v) <==>
            exists before, t, after :: Writes(text, before, t, after) && Levels(t) <= 128 && ValueOf(t) == v
  {
    hide ParseValue, TreeText, IsTree, Levels, ValueOf;
    if ParseDocument(text) == Ok(v) {
      var rest := ParseValue(text, 0).rest;
      var after := SkippedIs(rest);
      AfterEnds(after);
      assert rest == after;
      var before, t := TreeFound(text, 0);
      assert Writes(text, before, t, after);
    }
    forall before, t, after | Writes(text, before, t, after) && Levels(t) <= 128 && ValueOf(t) == v
      ensures ParseDocument(text) == Ok(v)
    {
      TreeIsDocument(text, before, t, after);
    }
  }

  lemma AfterEnds(after: Bytes)
    requires Spaces(after)
    ensures EndsNumber(after) && SkipSpace(after) == []
  {
    NumberChars();
    hide Ascii, SkipSpace;
    if after != [] {
      SpacesAre(after[0]);
    }
    SkipsSpaces(after, []);
    assert after + [] == after;
  }

  lemma TreeIsDocument(text: Bytes, before: Bytes, t: Tree, after: Bytes)
    requires Writes(text, before, t, after) && Levels(t) <= 128
    ensures ParseDocument(text) == Ok(ValueOf(t))
  {
    hide ParseValue, TreeText, IsTree, Levels, ValueOf, SkipSpace, EndsNumber, Spaces;
    AfterEnds(after);
    TreeReads(t, after, 0);
    TreeBegins(t, after);
    SkipsSpaces(before, TreeText(t, after));
    ValueSkips(text, 0);
  }
}
