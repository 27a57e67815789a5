/** What text the JSON parser accepts, and the value it stands for. */
module JsonText {
  import opened Common
  import opened Json
  import Utf8

  /** Nested deeper than this, a document is refused. */
  const MAX_DEPTH: int := 128

  /** Number tokens this long or longer are refused. */
  const TOKEN_LIMIT: nat := 512

  datatype Parsed<+T> = Done(value: T, rest: Bytes) | Rejected

  // ---------------------------------------------------------------- strings

  predicate IsSpace(c: byte) {
    c == 0x20 || c == 9 || c == 13 || c == 10
  }

  function SkipSpace(s: Bytes): (r: Bytes)
    ensures |r| <= |s|
    ensures r != [] ==> !IsSpace(r[0])
  {
    if s != [] && IsSpace(s[0]) then SkipSpace(s[1..]) else s
  }

  function HexValue(c: byte): Option<nat> {
    if ZERO <= c <= NINE then Some(c - ZERO)
    else if 0x61 <= c <= 0x66 then Some(c - 0x61 + 10)
    else if 0x41 <= c <= 0x46 then Some(c - 0x41 + 10)
    else None
  }

  /** The number four hexadecimal digits denote. */
  function Hex4(s: Bytes): (r: Option<nat>)
    ensures r.Some? ==> r.value < 65536
  {
    if |s| < 4 then None else
    var a, b, c, d := HexValue(s[0]), HexValue(s[1]), HexValue(s[2]), HexValue(s[3]);
    if a.Some? && b.Some? && c.Some? && d.Some? then
      assert a.value < 16 && b.value < 16 && c.value < 16 && d.value < 16;
      Some(4096 * a.value + 256 * b.value + 16 * c.value + d.value)
    else None
  }

  predicate IsHighSurrogate(cp: nat) {
    0xD800 <= cp <= 0xDBFF
  }

  predicate IsLowSurrogate(cp: nat) {
    0xDC00 <= cp <= 0xDFFF
  }

  /** The text after `\u`: one code unit, or a surrogate pair. */
  function UnicodeEscape(s: Bytes): (r: Parsed<Bytes>)
    ensures r.Done? ==> |r.rest| < |s|
  {
    var u := Hex4(s);
    if u.None? then Rejected
    else if IsHighSurrogate(u.value) then
      var t := s[4..];
      if |t| < 6 || t[0] != BACKSLASH || t[1] != 0x75 then Rejected else
      var lo := Hex4(t[2..]);
      if lo.None? || !IsLowSurrogate(lo.value) then Rejected
      else Done(Utf8.Encode(0x10000 + (u.value - 0xD800) * 1024 + (lo.value - 0xDC00)), t[6..])
    else if IsLowSurrogate(u.value) then Rejected
    else Done(Utf8.Encode(u.value), s[4..])
  }

  /** The octet a one-letter escape stands for. */
  function SimpleEscape(e: byte): Option<byte> {
    if e == QUOTE || e == BACKSLASH || e == 0x2F then Some(e)
    else if e == 0x62 then Some(8)
    else if e == 0x66 then Some(12)
    else if e == 0x6E then Some(10)
    else if e == 0x72 then Some(13)
    else if e == 0x74 then Some(9)
    else None
  }

  /** The text after a backslash. */
  function Escape(s: Bytes): (r: Parsed<Bytes>)
    ensures r.Done? ==> |r.rest| < |s|
  {
    if s == [] then Rejected
    else if s[0] == 0x75 then UnicodeEscape(s[1..])
    else match SimpleEscape(s[0])
      case None => Rejected
      case Some(c) => Done([c], s[1..])
  }

  function Following<T>(before: seq<T>, r: Parsed<seq<T>>): Parsed<seq<T>> {
    match r
    case Rejected => Rejected
    case Done(ts, rest) => Done(before + ts, rest)
  }

  /** The text after an opening quote, up to and including the closing one. */
  function StringBody(s: Bytes): (r: Parsed<Bytes>)
    ensures r.Done? ==> |r.rest| < |s|
    decreases |s|
  {
    if s == [] then Rejected
    else if s[0] == QUOTE then Done([], s[1..])
    else if s[0] == BACKSLASH then
      var e := Escape(s[1..]);
      if e.Rejected? then Rejected else Following(e.value, StringBody(e.rest))
    else if s[0] < 0x20 then Rejected
    else Following([s[0]], StringBody(s[1..]))
  }

  function ParseString(s: Bytes): (r: Parsed<Bytes>)
    ensures r.Done? ==> |r.rest| < |s|
  {
    if s == [] || s[0] != QUOTE then Rejected else StringBody(s[1..])
  }

  // ---------------------------------------------------------------- numbers

  predicate IsDigit(c: byte) {
    ZERO <= c <= NINE
  }

  predicate IsNumberChar(c: byte) {
    IsDigit(c) || c == POINT || c == 0x65 || c == 0x45 || c == PLUS || c == MINUS
  }

  /** How many characters at the front can belong to a number. */
  function NumberRun(s: Bytes): (n: nat)
    ensures n <= |s|
  {
    if s == [] || !IsNumberChar(s[0]) then 0 else 1 + NumberRun(s[1..])
  }

  function DigitRun(s: Bytes): (n: nat)
    ensures n <= |s|
    ensures forall i :: 0 <= i < n ==> IsDigit(s[i])
  {
    if s == [] || !IsDigit(s[0]) then 0 else 1 + DigitRun(s[1..])
  }

  function DecimalValue(s: Bytes): (n: nat)
    requires forall i :: 0 <= i < |s| ==> IsDigit(s[i])
  {
    if s == [] then 0 else
    assert IsDigit(s[|s| - 1]);
    10 * DecimalValue(s[..|s| - 1]) + (s[|s| - 1] - ZERO)
  }

  function Pow10(k: nat): (r: nat)
    ensures r >= 1
  {
    if k == 0 then 1 else 10 * Pow10(k - 1)
  }

  /** `m` times 10 to the `e`, exactly. */
  function Scale(m: int, e: int): real {
    if e >= 0 then (m * Pow10(e)) as real else m as real / Pow10(-e) as real
  }

  /** The length and value of an exponent part at the front, `(0, 0)` if there is none. */
  function Exponent(s: Bytes): (r: (nat, int))
    ensures r.0 <= |s|
  {
    if s == [] || (s[0] != 0x65 && s[0] != 0x45) then (0, 0) else
    var sign := if |s| > 1 && (s[1] == PLUS || s[1] == MINUS) then 1 else 0;
    var n := DigitRun(s[1 + sign..]);
    if n == 0 then (0, 0) else
    var k: int := DecimalValue(s[1 + sign..][..n]);
    (1 + sign + n, if sign == 1 && s[1] == MINUS then -k else k)
  }

  /** An unsigned number: its digits as an integer, the power of ten they stand for, its length. */
  datatype Magnitude = Magnitude(mantissa: nat, exponent: int, used: nat)

  /** The longest unsigned numeric prefix. */
  function ReadMagnitude(t: Bytes): (r: Option<Magnitude>)
    ensures r.Some? ==> 0 < r.value.used <= |t|
  {
    var whole := DigitRun(t);
    var point := if whole < |t| && t[whole] == POINT then 1 else 0;
    var frac := if point == 1 then DigitRun(t[whole + 1..]) else 0;
    if whole + frac == 0 then None else
    var mantissa := DecimalValue(t[..whole]) * Pow10(frac) +
                    if frac == 0 then 0 else DecimalValue(t[whole + 1..][..frac]);
    var exp := Exponent(t[whole + point + frac..]);
    Some(Magnitude(mantissa, exp.1 - frac, whole + point + frac + exp.0))
  }

  /** The longest numeric prefix of a token and its value, as `strtod` finds them. */
  function Strtod(s: Bytes): (r: Option<(real, nat)>)
    ensures r.Some? ==> 0 < r.value.1 <= |s|
  {
    var sign := if s != [] && (s[0] == PLUS || s[0] == MINUS) then 1 else 0;
    match ReadMagnitude(s[sign..])
    case None => None
    case Some(m) =>
      Some((Scale(if sign == 1 && s[0] == MINUS then -(m.mantissa as int) else m.mantissa, m.exponent), sign + m.used))
  }

  /** The number token at the front: everything that could be part of a number. */
  function NumberToken(s: Bytes): Bytes {
    if s != [] && (s[0] == MINUS || s[0] == PLUS) then s[..1 + NumberRun(s[1..])] else s[..NumberRun(s)]
  }

  function ParseNumber(s: Bytes): (r: Parsed<Value>)
    ensures r.Done? ==> |r.rest| < |s| && r.value.Number?
  {
    var token := NumberToken(s);
    if token == [] || |token| >= TOKEN_LIMIT then Rejected else
    match Strtod(token)
    case None => Rejected
    case Some((n, used)) => Done(Number(n), s[used..])
  }

  // ----------------------------------------------------------------- values

  function Literal(word: Bytes, v: Value, s: Bytes): (r: Parsed<Value>)
    requires word != []
    ensures r.Done? ==> |r.rest| < |s|
  {
    if word <= s then Done(v, s[|word|..]) else Rejected
  }

  /** A value inside `depth` others, and the text behind it. */
  function ParseValue(text: Bytes, depth: int): (r: Parsed<Value>)
    ensures r.Done? ==> |r.rest| < |text|
    decreases |text|, 2
  {
    var s := SkipSpace(text);
    if s == [] || depth + 1 > MAX_DEPTH then Rejected
    else if s[0] == OPEN_BRACE then ParseObject(s[1..], depth + 1)
    else if s[0] == OPEN_BRACKET then ParseArray(s[1..], depth + 1)
    else if s[0] == QUOTE then
      match ParseString(s)
      case Rejected => Rejected
      case Done(t, rest) => Done(String(t), rest)
    else if s[0] == 0x74 then Literal(TRUE, Bool(true), s)
    else if s[0] == 0x66 then Literal(FALSE, Bool(false), s)
    else if s[0] == 0x6E then Literal(NULL, Null, s)
    else if s[0] == MINUS || IsDigit(s[0]) then ParseNumber(s)
    else Rejected
  }

  /** The text after an opening brace. */
  function ParseObject(text: Bytes, depth: int): (r: Parsed<Value>)
    ensures r.Done? ==> |r.rest| < |text|
    decreases |text|, 3
  {
    var s := SkipSpace(text);
    if s != [] && s[0] == CLOSE_BRACE then Done(Object([]), s[1..]) else
    match ParseMembers(s, depth)
    case Rejected => Rejected
    case Done(ms, rest) => Done(Object(ms), rest)
  }

  /** The text after an opening bracket. */
  function ParseArray(text: Bytes, depth: int): (r: Parsed<Value>)
    ensures r.Done? ==> |r.rest| < |text|
    decreases |text|, 4
  {
    var s := SkipSpace(text);
    if s != [] && s[0] == CLOSE_BRACKET then Done(Array([]), s[1..]) else
    match ParseItems(s, depth)
    case Rejected => Rejected
    case Done(vs, rest) => Done(Array(vs), rest)
  }

  /** One member: a key, a colon and a value. */
  function ParseMember(text: Bytes, depth: int): (r: Parsed<Member>)
    ensures r.Done? ==> |r.rest| < |text|
    decreases |text|, 0
  {
    var key := ParseString(SkipSpace(text));
    if key.Rejected? then Rejected else
    var s := SkipSpace(key.rest);
    if s == [] || s[0] != COLON then Rejected else
    match ParseValue(s[1..], depth)
    case Rejected => Rejected
    case Done(v, rest) => Done(Member(key.value, v), rest)
  }

  /** The members up to and including the closing brace. */
  function ParseMembers(text: Bytes, depth: int): (r: Parsed<seq<Member>>)
    ensures r.Done? ==> |r.rest| < |text|
    decreases |text|, 2
  {
    var m := ParseMember(text, depth);
    if m.Rejected? then Rejected else
    var s := SkipSpace(m.rest);
    if s == [] then Rejected
    else if s[0] == COMMA then Following([m.value], ParseMembers(s[1..], depth))
    else if s[0] == CLOSE_BRACE then Done([m.value], s[1..])
    else Rejected
  }

  /** The items up to and including the closing bracket. */
  function ParseItems(text: Bytes, depth: int): (r: Parsed<seq<Value>>)
    ensures r.Done? ==> |r.rest| < |text|
    decreases |text|, 3
  {
    var v := ParseValue(text, depth);
    if v.Rejected? then Rejected else
    var s := SkipSpace(v.rest);
    if s == [] then Rejected
    else if s[0] == COMMA then Following([v.value], ParseItems(s[1..], depth))
    else if s[0] == CLOSE_BRACKET then Done([v.value], s[1..])
    else Rejected
  }

  /** A complete document. */
  function ParseDocument(text: Bytes): Result<Value> {
    match ParseValue(text, 0)
    case Rejected => Err(Protocol)
    case Done(v, rest) => if SkipSpace(rest) == [] then Ok(v) else Err(Protocol)
  }
}
