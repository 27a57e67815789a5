/** JSON values (RFC 8259) and the text they are written as. */
module Json {
  import opened Common

  const QUOTE: byte := 0x22
  const BACKSLASH: byte := 0x5C
  const COMMA: byte := 0x2C
  const COLON: byte := 0x3A
  const OPEN_BRACKET: byte := 0x5B
  const CLOSE_BRACKET: byte := 0x5D
  const OPEN_BRACE: byte := 0x7B
  const CLOSE_BRACE: byte := 0x7D
  const MINUS: byte := 0x2D
  const PLUS: byte := 0x2B
  const POINT: byte := 0x2E
  const ZERO: byte := 0x30
  const NINE: byte := 0x39
  const TRUE: Bytes := [0x74, 0x72, 0x75, 0x65]
  const FALSE: Bytes := [0x66, 0x61, 0x6C, 0x73, 0x65]
  const NULL: Bytes := [0x6E, 0x75, 0x6C, 0x6C]

  /** The largest integer up to which doubles hold every integer, 2 to the 53. */
  const SAFE_MAX: int := 9007199254740992

  /** A value; numbers are exact, object members keep their order and repetitions. */
  datatype Value =
    | Null
    | Bool(b: bool)
    | Number(n: real)
    | String(s: Bytes)
    | Array(items: seq<Value>)
    | Object(members: seq<Member>)

  datatype Member = Member(key: Bytes, value: Value)

  // ------------------------------------------------------------------ shape

  function Max(a: nat, b: nat): nat {
    if a < b then b else a
  }

  /** Nesting depth; a scalar counts 1. */
  function Height(v: Value): (h: nat)
    ensures h >= 1
    decreases v, 1
  {
    match v
    case Array(items) => 1 + ItemsHeight(items)
    case Object(members) => 1 + MembersHeight(members)
    case _ => 1
  }

  function ItemsHeight(items: seq<Value>): nat
    decreases items, 0
  {
    if items == [] then 0 else Max(Height(items[0]), ItemsHeight(items[1..]))
  }

  function MembersHeight(members: seq<Member>): nat
    decreases members, 0
  {
    if members == [] then 0 else Max(Height(members[0].value), MembersHeight(members[1..]))
  }

  predicate IsSafe(n: real) {
    n == n.Floor as real && -SAFE_MAX <= n.Floor <= SAFE_MAX
  }

  /** Every number in the value is an integer doubles hold exactly. */
  predicate Safe(v: Value)
    decreases v, 1
  {
    match v
    case Number(n) => IsSafe(n)
    case Array(items) => SafeItems(items)
    case Object(members) => SafeMembers(members)
    case _ => true
  }

  predicate SafeItems(items: seq<Value>)
    decreases items, 0
  {
    items == [] || (Safe(items[0]) && SafeItems(items[1..]))
  }

  predicate SafeMembers(members: seq<Member>)
    decreases members, 0
  {
    members == [] || (Safe(members[0].value) && SafeMembers(members[1..]))
  }

  // ----------------------------------------------------------------- writer

  function HexDigit(n: nat): byte
    requires n < 16
  {
    if n < 10 then ZERO + n else 0x61 + (n - 10)
  }

  function EscapeByte(c: byte): (r: Bytes)
    ensures |r| >= 1
  {
    if c == QUOTE then [BACKSLASH, QUOTE]
    else if c == BACKSLASH then [BACKSLASH, BACKSLASH]
    else if c == 8 then [BACKSLASH, 0x62]
    else if c == 12 then [BACKSLASH, 0x66]
    else if c == 10 then [BACKSLASH, 0x6E]
    else if c == 13 then [BACKSLASH, 0x72]
    else if c == 9 then [BACKSLASH, 0x74]
    else if c < 0x20 then [BACKSLASH, 0x75, ZERO, ZERO, HexDigit(c / 16), HexDigit(c % 16)]
    else [c]
  }

  function EscapeBody(s: Bytes): Bytes {
    if s == [] then [] else EscapeByte(s[0]) + EscapeBody(s[1..])
  }

  function Quoted(s: Bytes): Bytes {
    [QUOTE] + EscapeBody(s) + [QUOTE]
  }

  /** The decimal digits of `n`, without leading zeros. */
  function Digits(n: nat): (r: Bytes)
    ensures |r| >= 1
  {
    if n < 10 then [ZERO + n] else Digits(n / 10) + [ZERO + n % 10]
  }

  function IntegerText(n: int): Bytes {
    if n < 0 then [MINUS] + Digits(-n) else Digits(n)
  }

  /** A value as text, without any white space. */
  function Dump(v: Value): Bytes
    requires Safe(v)
    decreases v, 1
  {
    match v
    case Null => NULL
    case Bool(b) => if b then TRUE else FALSE
    case Number(n) => IntegerText(n.Floor)
    case String(s) => Quoted(s)
    case Array(items) => [OPEN_BRACKET] + DumpItems(items) + [CLOSE_BRACKET]
    case Object(members) => [OPEN_BRACE] + DumpMembers(members) + [CLOSE_BRACE]
  }

  function DumpItems(items: seq<Value>): Bytes
    requires SafeItems(items)
    decreases items, 0
  {
    if items == [] then []
    else Dump(items[0]) + if |items| == 1 then [] else [COMMA] + DumpItems(items[1..])
  }

  function DumpMember(m: Member): Bytes
    requires Safe(m.value)
    decreases m, 0
  {
    Quoted(m.key) + [COLON] + Dump(m.value)
  }

  function DumpMembers(members: seq<Member>): Bytes
    requires SafeMembers(members)
    decreases members, 0
  {
    if members == [] then []
    else DumpMember(members[0]) + if |members| == 1 then [] else [COMMA] + DumpMembers(members[1..])
  }

  lemma OneMember(m: Member)
    ensures SafeMembers([m]) == Safe(m.value)
    ensures MembersHeight([m]) == Height(m.value)
  {
    assert [m][1..] == [];
  }

  lemma {:induction false} MembersConcat(a: seq<Member>, b: seq<Member>)
    ensures SafeMembers(a + b) == (SafeMembers(a) && SafeMembers(b))
    ensures MembersHeight(a + b) == Max(MembersHeight(a), MembersHeight(b))
    decreases |a|
  {
    if a == [] {
      assert a + b == b;
    } else {
      assert (a + b)[1..] == a[1..] + b;
      MembersConcat(a[1..], b);
    }
  }
}
