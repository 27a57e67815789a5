/** The JSON parser and writer as they run: a cursor over the text, and a growing output. */
module JsonEngine {
  import opened Bits
  import opened Common
  import opened Json
  import T = JsonText
  import Utf8

  /** A step from `text[p..]` agrees with what the text means. */
  ghost predicate Agrees<V>(r: T.Parsed<V>, ok: bool, value: V, rest: Bytes) {
    (ok <==> r.Done?) && (ok ==> r == T.Done(value, rest))
  }

  /** Growing text, the `std::string&` every writer appends to. */
  class Output {
    var text: Bytes

    constructor ()
      ensures text == []
    {
      text := [];
    }

    method Append(s: Bytes)
      modifies this
      ensures text == old(text) + s
    {
      text := text + s;
    }
  }

  class Parser {
    const text: Bytes
    var p: nat
    var depth: int

    constructor (text: Bytes)
      ensures this.text == text && p == 0 && depth == 0
    {
      this.text, p, depth := text, 0, 0;
    }

    ghost predicate InBounds()
      reads this
    {
      p <= |text|
    }

    method SkipWs()
      requires InBounds()
      modifies this`p
      ensures InBounds() && text[p..] == T.SkipSpace(text[old(p)..])
    {
      while p < |text| && T.IsSpace(text[p])
        invariant InBounds()
        invariant T.SkipSpace(text[p..]) == T.SkipSpace(text[old(p)..])
      {
        assert text[p..][1..] == text[p + 1..];
        p := p + 1;
      }
    }

    method ParseHex4() returns (ok: bool, cp: nat)
      requires InBounds()
      modifies this`p
      ensures InBounds() && p == if ok then old(p) + 4 else old(p)
      ensures T.Hex4(text[old(p)..]) == if ok then Some(cp) else None
    {
      cp := 0;
      if |text| - p < 4 {
        return false, 0;
      }
      ghost var s := text[p..];
      for i := 0 to 4
        invariant forall k :: 0 <= k < i ==> T.HexValue(s[k]).Some?
        invariant cp == HexPrefix(s, i)
      {
        var c := text[p + i];
        cp := cp * 16;
        if ZERO <= c <= NINE {
          cp := cp + (c - ZERO);
        } else if 0x61 <= c <= 0x66 {
          cp := cp + (c - 0x61 + 10);
        } else if 0x41 <= c <= 0x46 {
          cp := cp + (c - 0x41 + 10);
        } else {
          return false, 0;
        }
      }
      HexPrefixIsHex4(s);
      p := p + 4;
      return true, cp;
    }

    /** The string literal at the cursor, without its quotes and escapes. */
    method ParseString() returns (ok: bool, out: Bytes)
      requires InBounds()
      modifies this`p
      ensures InBounds()
      ensures Agrees(T.ParseString(text[old(p)..]), ok, out, text[p..])
    {
      hide T.Escape, T.StringBody, T.Following;
      out := [];
      if p >= |text| || text[p] != QUOTE {
        return false, out;
      }
      FirstOfDrop(text, p);
      p := p + 1;
      ghost var body := T.StringBody(text[p..]);
      FollowingNone(body);
      while p < |text|
        invariant InBounds()
        invariant body == T.Following(out, T.StringBody(text[p..]))
        decreases |text| - p
      {
        var c := text[p];
        FirstOfDrop(text, p);
        StringGoesOn(out, text[p..]);
        if c == QUOTE {
          p := p + 1;
          return true, out;
        }
        if c == BACKSLASH {
          p := p + 1;
          var piece;
          ok, piece := ParseEscape();
          if !ok {
            return false, out;
          }
          out := out + piece;
        } else if c < 0x20 {
          return false, out;
        } else {
          out := out + [c];
          p := p + 1;
        }
      }
      assert text[p..] == [];
      StringGoesOn(out, text[p..]);
      return false, out;
    }

    /** What follows a backslash. */
    method ParseEscape() returns (ok: bool, piece: Bytes)
      requires InBounds()
      modifies this`p
      ensures InBounds()
      ensures Agrees(T.Escape(text[old(p)..]), ok, piece, text[p..])
    {
      piece := [];
      if p >= |text| {
        return false, piece;
      }
      var e := text[p];
      assert text[p..][1..] == text[p + 1..];
      p := p + 1;
      match e
      case 0x22 => return true, [0x22];
      case 0x5C => return true, [0x5C];
      case 0x2F => return true, [0x2F];
      case 0x62 => return true, [8];
      case 0x66 => return true, [12];
      case 0x6E => return true, [10];
      case 0x72 => return true, [13];
      case 0x74 => return true, [9];
      case 0x75 => ok, piece := ParseUnicode();
      case _ => return false, piece;
    }

    /** What follows `\u`: a code unit, or two that make a surrogate pair. */
    method ParseUnicode() returns (ok: bool, piece: Bytes)
      requires InBounds()
      modifies this`p
      ensures InBounds()
      ensures Agrees(T.UnicodeEscape(text[old(p)..]), ok, piece, text[p..])
    {
      hide Utf8.Encode, Utf8.Valid, Utf8.First, Utf8.Scalars, T.Hex4;
      ghost var s := text[p..];
      var cp;
      ok, cp := ParseHex4();
      if !ok {
        return false, [];
      }
      DropTwice(text, old(p), p);
      if 0xD800 <= cp <= 0xDBFF {
        if |text| - p < 6 || text[p] != BACKSLASH || text[p + 1] != 0x75 {
          return false, [];
        }
        DropTwice(text, p, p + 2);
        p := p + 2;
        var lo;
        ok, lo := ParseHex4();
        if !ok {
          return false, [];
        }
        if lo < 0xDC00 || lo > 0xDFFF {
          return false, [];
        }
        DropTwice(text, old(p) + 4, p);
        cp := 0x10000 + (cp - 0xD800) * 1024 + (lo - 0xDC00);
      } else if 0xDC00 <= cp <= 0xDFFF {
        return false, [];
      }
      piece := AppendUtf8(cp);
      return true, piece;
    }

    /** The octets of a scalar value, by shifts and masks: valid UTF-8 that denotes it. */
    method AppendUtf8(cp: Utf8.Scalar) returns (b: Bytes)
      ensures Utf8.Valid(b) && b != [] && Utf8.First(b) == cp && Utf8.Scalars(b) == [cp]
      ensures b == Utf8.Encode(cp)
    {
      hide Utf8.Encode, Utf8.Valid, Utf8.First, Utf8.Scalars, Or, And, ShiftRight;
      if cp < 0x80 {
        b := [Octet(cp)];
      } else if cp < 0x800 {
        b := [Octet(Or(0xC0, ShiftRight(cp, 6))),
              Octet(Or(0x80, And(cp, 0x3F)))];
      } else if cp < 0x10000 {
        b := [Octet(Or(0xE0, ShiftRight(cp, 12))),
              Octet(Or(0x80, And(ShiftRight(cp, 6), 0x3F))),
              Octet(Or(0x80, And(cp, 0x3F)))];
      } else {
        b := [Octet(Or(0xF0, ShiftRight(cp, 18))),
              Octet(Or(0x80, And(ShiftRight(cp, 12), 0x3F))),
              Octet(Or(0x80, And(ShiftRight(cp, 6), 0x3F))),
              Octet(Or(0x80, And(cp, 0x3F)))];
      }
      ShiftedOctets(cp);
      Utf8.EncodeDenotes(cp);
    }

    /** The end of the number token at the cursor. */
    method ScanToken() returns (q: nat)
      requires InBounds()
      ensures p <= q <= |text| && text[p..q] == T.NumberToken(text[p..])
    {
      ghost var s := text[p..];
      q := p;
      if q < |text| && (text[q] == MINUS || text[q] == PLUS) {
        q := q + 1;
      }
      ghost var q0 := q;
      DropTwice(text, p, q0);
      while q < |text| && T.IsNumberChar(text[q])
        invariant q0 <= q <= |text|
        invariant T.NumberRun(text[q0..]) == q - q0 + T.NumberRun(text[q..])
      {
        NumberRunStep(text, q);
        q := q + 1;
      }
      NumberRunStep(text, q);
      DropTwice(text, p, q);
    }

    /** The number at the cursor: the token is scanned here, its value is `strtod`'s. */
    method ParseNumber() returns (ok: bool, out: Value)
      requires InBounds()
      modifies this`p
      ensures InBounds()
      ensures Agrees(T.ParseNumber(text[old(p)..]), ok, out, text[p..])
    {
      hide T.Strtod, T.NumberToken;
      ghost var s := text[p..];
      var q := ScanToken();
      var token := text[p..q];
      if |token| > 0 && |token| < T.TOKEN_LIMIT {
        var d := T.Strtod(token);
        if d.Some? {
          assert text[p + d.value.1..] == s[d.value.1..];
          p := p + d.value.1;
          return true, Number(d.value.0);
        }
      }
      return false, Null;
    }

    /** A literal word at the cursor, if it is there whole. */
    method Word(word: Bytes, v: Value) returns (ok: bool, out: Value)
      requires InBounds() && word != []
      modifies this`p
      ensures InBounds()
      ensures Agrees(T.Literal(word, v, text[old(p)..]), ok, out, text[p..])
    {
      ok := |text| - p >= |word| && text[p..p + |word|] == word;
      out := v;
      ghost var s := text[p..];
      if ok {
        assert s[..|word|] == text[p..p + |word|];
        assert s[|word|..] == text[p + |word|..];
        p := p + |word|;
      } else if |s| >= |word| {
        assert s[..|word|] == text[p..p + |word|];
      }
    }

    /** The value at the cursor; `depth` comes back unchanged on every exit. */
    method ParseValue() returns (ok: bool, out: Value)
      requires InBounds()
      modifies this
      ensures InBounds() && depth == old(depth)
      ensures Agrees(T.ParseValue(text[old(p)..], depth), ok, out, text[p..])
      decreases |text| - p, 2
    {
      hide T.ParseString, T.ParseNumber, T.ParseObject, T.ParseArray;
      out := Null;
      ghost var entry := text[p..];
      SkipWs();
      if p >= |text| {
        return false, out;
      }
      depth := depth + 1;
      if depth > T.MAX_DEPTH {
        depth := depth - 1;
        return false, out;
      }
      var c := text[p];
      ghost var s := text[p..];
      ok := false;
      if c == OPEN_BRACE {
        ok, out := ParseObject();
      } else if c == OPEN_BRACKET {
        ok, out := ParseArray();
      } else if c == QUOTE {
        var t;
        ok, t := ParseString();
        out := String(t);
      } else if c == 0x74 {
        ok, out := Word(TRUE, Bool(true));
      } else if c == 0x66 {
        ok, out := Word(FALSE, Bool(false));
      } else if c == 0x6E {
        ok, out := Word(NULL, Null);
      } else if c == MINUS || T.IsDigit(c) {
        ok, out := ParseNumber();
      }
      depth := depth - 1;
    }

    /** The object whose brace is at the cursor. */
    method ParseObject() returns (ok: bool, out: Value)
      requires p < |text|
      modifies this
      ensures InBounds() && depth == old(depth)
      ensures Agrees(T.ParseObject(text[old(p) + 1..], depth), ok, out, text[p..])
      decreases |text| - p, 1
    {
      hide T.ParseObject, T.ParseMembers, T.SkipSpace;
      ObjectStarts(text[p + 1..], depth);
      p := p + 1;
      SkipWs();
      if p < |text| && text[p] == CLOSE_BRACE {
        FirstOfDrop(text, p);
        p := p + 1;
        return true, Object([]);
      }
      var members;
      ok, members := ParseMembers();
      return ok, if ok then Object(members) else Null;
    }

    /** The loop of `ParseObject`, up to and including the closing bracket. */
    method ParseMembers() returns (ok: bool, members: seq<Member>)
      requires InBounds()
      modifies this
      ensures InBounds() && depth == old(depth)
      ensures Agrees(T.ParseMembers(text[old(p)..], depth), ok, members, text[p..])
      decreases |text| - p, 4
    {
      hide T.ParseMembers, T.ParseMember, T.SkipSpace, T.Following, AfterMember;
      members := [];
      ghost var goal := T.ParseMembers(text[p..], depth);
      FollowingNone(goal);
      while true
        invariant old(p) <= p <= |text| && depth == old(depth)
        invariant goal == T.Following(members, T.ParseMembers(text[p..], depth))
        decreases |text| - p
      {
        ghost var here := text[p..];
        var m;
        ok, m := ParseMember();
        MembersStep(here, depth);
        NothingFollows(members);
        if !ok {
          return false, members;
        }
        ghost var before := members;
        members := members + [m];
        SkipWs();
        MembersGoOn(before, m, text[p..], depth);
        if p >= |text| {
          return false, members;
        }
        FirstOfDrop(text, p);
        if text[p] == COMMA {
          p := p + 1;
          continue;
        }
        if text[p] == CLOSE_BRACE {
          p := p + 1;
          return true, members;
        }
        return false, members;
      }
    }

    /** A key, a colon and a value. */
    method ParseMember() returns (ok: bool, m: Member)
      requires InBounds()
      modifies this
      ensures InBounds() && depth == old(depth)
      ensures Agrees(T.ParseMember(text[old(p)..], depth), ok, m, text[p..])
      decreases |text| - p, 3
    {
      hide T.ParseValue, T.ParseString, T.SkipSpace;
      m := Member([], Null);
      SkipWs();
      var key;
      ok, key := ParseString();
      if !ok {
        return false, m;
      }
      SkipWs();
      if p >= |text| || text[p] != COLON {
        return false, m;
      }
      assert text[p..][1..] == text[p + 1..];
      p := p + 1;
      var v;
      ok, v := ParseValue();
      m := Member(key, v);
    }

    /** The array whose bracket is at the cursor. */
    method ParseArray() returns (ok: bool, out: Value)
      requires p < |text|
      modifies this
      ensures InBounds() && depth == old(depth)
      ensures Agrees(T.ParseArray(text[old(p) + 1..], depth), ok, out, text[p..])
      decreases |text| - p, 1
    {
      hide T.ParseArray, T.ParseItems, T.SkipSpace;
      ArrayStarts(text[p + 1..], depth);
      p := p + 1;
      SkipWs();
      if p < |text| && text[p] == CLOSE_BRACKET {
        FirstOfDrop(text, p);
        p := p + 1;
        return true, Array([]);
      }
      var items;
      ok, items := ParseItems();
      return ok, if ok then Array(items) else Null;
    }

    /** The loop of `ParseArray`, up to and including the closing bracket. */
    method ParseItems() returns (ok: bool, items: seq<Value>)
      requires InBounds()
      modifies this
      ensures InBounds() && depth == old(depth)
      ensures Agrees(T.ParseItems(text[old(p)..], depth), ok, items, text[p..])
      decreases |text| - p, 4
    {
      hide T.ParseItems, T.ParseValue, T.SkipSpace, T.Following, AfterItem;
      items := [];
      ghost var goal := T.ParseItems(text[p..], depth);
      FollowingNone(goal);
      while true
        invariant old(p) <= p <= |text| && depth == old(depth)
        invariant goal == T.Following(items, T.ParseItems(text[p..], depth))
        decreases |text| - p
      {
        ghost var here := text[p..];
        var v;
        ok, v := ParseValue();
        ItemsStep(here, depth);
        NothingFollows(items);
        if !ok {
          return false, items;
        }
        ghost var before := items;
        items := items + [v];
        SkipWs();
        ItemsGoOn(before, v, text[p..], depth);
        if p >= |text| {
          return false, items;
        }
        FirstOfDrop(text, p);
        if text[p] == COMMA {
          p := p + 1;
          continue;
        }
        if text[p] == CLOSE_BRACKET {
          p := p + 1;
          return true, items;
        }
        return false, items;
      }
    }
  }

  /** A trailing octet carries the low six bits. */
  lemma TrailingOctet(a: nat)
    ensures Octet(Or(0x80, And(a, 0x3F))) == 0x80 + a % 64
  {
    hide Or, And, Pow2;
    Powers();
    MaskSix(a);
    OrAdds(2, a % 64, 6);
  }

  /** The shifted and masked octets are those of the encoding. */
  lemma ShiftedOctets(cp: Utf8.Scalar)
    ensures cp < 0x80 ==> Utf8.Encode(cp) == [Octet(cp)]
    ensures 0x80 <= cp < 0x800 ==>
              Utf8.Encode(cp) == [Octet(Or(0xC0, ShiftRight(cp, 6))), Octet(Or(0x80, And(cp, 0x3F)))]
    ensures 0x800 <= cp < 0x10000 ==>
              Utf8.Encode(cp) == [Octet(Or(0xE0, ShiftRight(cp, 12))),
                                  Octet(Or(0x80, And(ShiftRight(cp, 6), 0x3F))), Octet(Or(0x80, And(cp, 0x3F)))]
    ensures 0x10000 <= cp ==>
              Utf8.Encode(cp) == [Octet(Or(0xF0, ShiftRight(cp, 18))), Octet(Or(0x80, And(ShiftRight(cp, 12), 0x3F))),
                                  Octet(Or(0x80, And(ShiftRight(cp, 6), 0x3F))), Octet(Or(0x80, And(cp, 0x3F)))]
  {
    hide Or, And, ShiftRight, Octet;
    Leads(cp);
    ShiftSixes(cp);
    TrailingOctet(cp);
    TrailingOctet(cp / 64);
    TrailingOctet(cp / 4096);
  }

  lemma Leads(cp: Utf8.Scalar)
    ensures cp < 0x80 ==> Octet(cp) == cp
    ensures 0x80 <= cp < 0x800 ==> Octet(Or(0xC0, ShiftRight(cp, 6))) == 0xC0 + cp / 64
    ensures 0x800 <= cp < 0x10000 ==> Octet(Or(0xE0, ShiftRight(cp, 12))) == 0xE0 + cp / 4096
    ensures 0x10000 <= cp ==> Octet(Or(0xF0, ShiftRight(cp, 18))) == 0xF0 + cp / 262144
  {
    hide Or, And, ShiftRight, Pow2;
    Powers();
    ShiftSixes(cp);
    if 0x80 <= cp < 0x800 { LeadingOctet(6, cp / 64, 5); }
    if 0x800 <= cp < 0x10000 { LeadingOctet(14, cp / 4096, 4); }
    if 0x10000 <= cp { LeadingOctet(15, cp / 262144, 4); }
  }

  lemma LeadingOctet(q: nat, x: nat, k: nat)
    requires 4 <= k <= 5 && x < Pow2(k) && Pow2(k) * q + x < 256
    ensures Octet(Or(Pow2(k) * q, x)) == Pow2(k) * q + x
  {
    hide Or, Pow2;
    OrAdds(q, x, k);
  }

  function HexPrefix(s: Bytes, n: nat): nat
    requires n <= |s| && forall k :: 0 <= k < n ==> T.HexValue(s[k]).Some?
  {
    if n == 0 then 0 else 16 * HexPrefix(s, n - 1) + T.HexValue(s[n - 1]).value
  }

  lemma HexPrefixIsHex4(s: Bytes)
    requires |s| >= 4 && forall k :: 0 <= k < 4 ==> T.HexValue(s[k]).Some?
    ensures T.Hex4(s) == Some(HexPrefix(s, 4))
  {
    assert HexPrefix(s, 1) == 16 * HexPrefix(s, 0) + T.HexValue(s[0]).value;
    assert HexPrefix(s, 3) == 16 * HexPrefix(s, 2) + T.HexValue(s[2]).value;
  }

  lemma FollowingNone<V>(r: T.Parsed<seq<V>>)
    ensures T.Following([], r) == r
  {
    if r.Done? {
      assert [] + r.value == r.value;
    }
  }

  /** One step of reading a string, behind what has been read of it. */
  lemma StringGoesOn(out: Bytes, s: Bytes)
    ensures T.Following(out, T.StringBody(s)) ==
            if s == [] then T.Rejected
            else if s[0] == QUOTE then T.Done(out, s[1..])
            else if s[0] == BACKSLASH then
              (if T.Escape(s[1..]).Rejected? then T.Rejected
               else T.Following(out + T.Escape(s[1..]).value, T.StringBody(T.Escape(s[1..]).rest)))
            else if s[0] < 0x20 then T.Rejected
            else T.Following(out + [s[0]], T.StringBody(s[1..]))
  {
    hide T.Escape;
    if s != [] {
      assert out + [] == out;
      FollowingTwice(out, [s[0]], T.StringBody(s[1..]));
      var e := T.Escape(s[1..]);
      if e.Done? {
        FollowingTwice(out, e.value, T.StringBody(e.rest));
      }
    }
  }

  lemma FollowingTwice<V>(a: seq<V>, b: seq<V>, r: T.Parsed<seq<V>>)
    ensures T.Following(a, T.Following(b, r)) == T.Following(a + b, r)
  {
    if r.Done? {
      assert a + (b + r.value) == (a + b) + r.value;
    }
  }

  lemma ObjectStarts(s: Bytes, depth: int)
    ensures var t := T.SkipSpace(s);
            T.ParseObject(s, depth) ==
            if t != [] && t[0] == CLOSE_BRACE then T.Done(Object([]), t[1..])
            else if T.ParseMembers(t, depth).Rejected? then T.Rejected
            else T.Done(Object(T.ParseMembers(t, depth).value), T.ParseMembers(t, depth).rest)
  {
    hide T.ParseMembers, T.SkipSpace;
  }

  lemma ArrayStarts(s: Bytes, depth: int)
    ensures var t := T.SkipSpace(s);
            T.ParseArray(s, depth) ==
            if t != [] && t[0] == CLOSE_BRACKET then T.Done(Array([]), t[1..])
            else if T.ParseItems(t, depth).Rejected? then T.Rejected
            else T.Done(Array(T.ParseItems(t, depth).value), T.ParseItems(t, depth).rest)
  {
    hide T.ParseItems, T.SkipSpace;
  }

  lemma MembersStep(s: Bytes, depth: int)
    ensures var m := T.ParseMember(s, depth);
            T.ParseMembers(s, depth) ==
            if m.Rejected? then T.Rejected else AfterMember(m.value, T.SkipSpace(m.rest), depth)
  {
  }

  function AfterMember(m: Member, t: Bytes, depth: int): T.Parsed<seq<Member>> {
    if t == [] then T.Rejected
    else if t[0] == COMMA then T.Following([m], T.ParseMembers(t[1..], depth))
    else if t[0] == CLOSE_BRACE then T.Done([m], t[1..])
    else T.Rejected
  }

  lemma NothingFollows<V>(before: seq<V>)
    ensures T.Following(before, T.Rejected) == T.Rejected
  {
  }

  lemma MembersGoOn(members: seq<Member>, m: Member, t: Bytes, depth: int)
    ensures T.Following(members, AfterMember(m, t, depth)) ==
            if t == [] then T.Rejected
            else if t[0] == COMMA then T.Following(members + [m], T.ParseMembers(t[1..], depth))
            else if t[0] == CLOSE_BRACE then T.Done(members + [m], t[1..])
            else T.Rejected
  {
    hide T.ParseMembers;
    if t != [] {
      FollowingTwice(members, [m], T.ParseMembers(t[1..], depth));
    }
  }

  lemma ItemsGoOn(items: seq<Value>, v: Value, t: Bytes, depth: int)
    ensures T.Following(items, AfterItem(v, t, depth)) ==
            if t == [] then T.Rejected
            else if t[0] == COMMA then T.Following(items + [v], T.ParseItems(t[1..], depth))
            else if t[0] == CLOSE_BRACKET then T.Done(items + [v], t[1..])
            else T.Rejected
  {
    hide T.ParseItems;
    if t != [] {
      FollowingTwice(items, [v], T.ParseItems(t[1..], depth));
    }
  }

  lemma NumberRunStep(text: Bytes, q: nat)
    requires q <= |text|
    ensures T.NumberRun(text[q..]) ==
            if q < |text| && T.IsNumberChar(text[q]) then 1 + T.NumberRun(text[q + 1..]) else 0
  {
    if q < |text| {
      FirstOfDrop(text, q);
    }
  }

  lemma ItemsStep(s: Bytes, depth: int)
    ensures var v := T.ParseValue(s, depth);
            T.ParseItems(s, depth) ==
            if v.Rejected? then T.Rejected else AfterItem(v.value, T.SkipSpace(v.rest), depth)
  {
  }

  function AfterItem(v: Value, t: Bytes, depth: int): T.Parsed<seq<Value>> {
    if t == [] then T.Rejected
    else if t[0] == COMMA then T.Following([v], T.ParseItems(t[1..], depth))
    else if t[0] == CLOSE_BRACKET then T.Done([v], t[1..])
    else T.Rejected
  }

  /** Parses a complete document; trailing text is an error. */
  method Parse(text: Bytes) returns (r: Result<Value>)
    ensures r == T.ParseDocument(text)
  {
    hide T.ParseValue;
    var ps := new Parser(text);
    assert text[0..] == text;
    var ok, v := ps.ParseValue();
    if !ok {
      return Err(Protocol);
    }
    ps.SkipWs();
    if ps.p != |text| {
      return Err(Protocol);
    }
    return Ok(v);
  }

  /** Appends one octet of a string, escaped if it has to be. */
  method EscapeByteTo(c: byte, out: Output)
    modifies out
    ensures out.text == old(out.text) + EscapeByte(c)
  {
    match c {
      case 0x22 => out.Append([BACKSLASH, 0x22]);
      case 0x5C => out.Append([BACKSLASH, 0x5C]);
      case 8 => out.Append([BACKSLASH, 0x62]);
      case 12 => out.Append([BACKSLASH, 0x66]);
      case 10 => out.Append([BACKSLASH, 0x6E]);
      case 13 => out.Append([BACKSLASH, 0x72]);
      case 9 => out.Append([BACKSLASH, 0x74]);
      case _ =>
        if c < 0x20 {
          out.Append([BACKSLASH, 0x75, ZERO, ZERO, HexDigit(c / 16), HexDigit(c % 16)]);
        } else {
          out.Append([c]);
        }
    }
  }

  /** Appends `s` as a quoted, escaped string. */
  method EscapeTo(s: Bytes, out: Output)
    modifies out
    ensures out.text == old(out.text) + Quoted(s)
  {
    hide EscapeByte;
    ghost var all := old(out.text) + [QUOTE] + EscapeBody(s);
    out.Append([QUOTE]);
    assert s[0..] == s;
    for i := 0 to |s|
      invariant out.text + EscapeBody(s[i..]) == all
    {
      assert s[i..][1..] == s[i + 1..];
      ghost var before := out.text;
      EscapeByteTo(s[i], out);
      assert before + (EscapeByte(s[i]) + EscapeBody(s[i + 1..])) == out.text + EscapeBody(s[i + 1..]);
    }
    assert out.text == all;
    out.Append([QUOTE]);
  }

  /** Appends the text of a value. */
  method DumpTo(v: Value, out: Output)
    requires Safe(v)
    modifies out
    ensures out.text == old(out.text) + Dump(v)
    decreases v, 1
  {
    hide EscapeBody, IntegerText, DumpItems, DumpMembers, Quoted;
    match v {
      case Null => out.Append(NULL);
      case Bool(b) => out.Append(if b then TRUE else FALSE);
      case Number(n) => out.Append(IntegerText(n.Floor));
      case String(s) => EscapeTo(s, out);
      case Array(items) =>
        ghost var before := out.text;
        out.Append([OPEN_BRACKET]);
        DumpItemsTo(items, out);
        Bracketed(before, OPEN_BRACKET, DumpItems(items), CLOSE_BRACKET);
        out.Append([CLOSE_BRACKET]);
      case Object(members) =>
        ghost var before := out.text;
        out.Append([OPEN_BRACE]);
        DumpMembersTo(members, out);
        Bracketed(before, OPEN_BRACE, DumpMembers(members), CLOSE_BRACE);
        out.Append([CLOSE_BRACE]);
    }
  }

  method DumpItemsTo(items: seq<Value>, out: Output)
    requires SafeItems(items)
    modifies out
    ensures out.text == old(out.text) + DumpItems(items)
    decreases items, 0
  {
    hide Dump, DumpItems, ItemsLeft, SafeItems, Safe;
    ghost var all := old(out.text) + DumpItems(items);
    ItemsAll(items);
    var i := 0;
    while i < |items|
      invariant 0 <= i <= |items| && SafeItems(items[i..])
      invariant out.text + ItemsLeft(items, i) == all
    {
      ghost var before := out.text;
      ItemsLeftStep(items, i);
      if i > 0 {
        out.Append([COMMA]);
      }
      DumpTo(items[i], out);
      Written(before, Comma(i), Dump(items[i]), ItemsLeft(items, i + 1));
      i := i + 1;
    }
    assert out.text + [] == out.text;
  }

  lemma Bracketed(before: Bytes, l: byte, inner: Bytes, r: byte)
    ensures before + ([l] + inner + [r]) == ((before + [l]) + inner) + [r]
  {
  }

  lemma Written(before: Bytes, comma: Bytes, one: Bytes, left: Bytes)
    ensures before + (comma + one + left) == ((before + comma) + one) + left
    ensures before + [] == before
  {
  }

  /** The separator before element `i`. */
  function Comma(i: nat): Bytes {
    if i > 0 then [COMMA] else []
  }

  /** The text of the items still to be written, with the comma before them. */
  function ItemsLeft(items: seq<Value>, i: nat): Bytes
    requires i <= |items| && SafeItems(items[i..])
  {
    if i == |items| then [] else Comma(i) + DumpItems(items[i..])
  }

  lemma ItemsAll(items: seq<Value>)
    requires SafeItems(items)
    ensures SafeItems(items[0..]) && ItemsLeft(items, 0) == DumpItems(items)
    ensures SafeItems(items[|items|..]) && ItemsLeft(items, |items|) == []
  {
    assert items[0..] == items && items[|items|..] == [];
  }

  lemma ItemsLeftStep(items: seq<Value>, i: nat)
    requires i < |items| && SafeItems(items[i..])
    ensures Safe(items[i]) && SafeItems(items[i + 1..])
    ensures ItemsLeft(items, i) == Comma(i) + Dump(items[i]) + ItemsLeft(items, i + 1)
  {
    assert items[i..][0] == items[i] && items[i..][1..] == items[i + 1..];
  }

  method DumpMemberTo(m: Member, out: Output)
    requires Safe(m.value)
    modifies out
    ensures out.text == old(out.text) + DumpMember(m)
    decreases m, 0
  {
    hide Dump, Quoted;
    EscapeTo(m.key, out);
    out.Append([COLON]);
    DumpTo(m.value, out);
  }

  method DumpMembersTo(members: seq<Member>, out: Output)
    requires SafeMembers(members)
    modifies out
    ensures out.text == old(out.text) + DumpMembers(members)
    decreases members, 0
  {
    hide Dump, DumpMembers, DumpMember, MembersLeft, SafeMembers, Safe;
    ghost var all := old(out.text) + DumpMembers(members);
    MembersAll(members);
    var i := 0;
    while i < |members|
      invariant 0 <= i <= |members| && SafeMembers(members[i..])
      invariant out.text + MembersLeft(members, i) == all
    {
      ghost var before := out.text;
      MembersLeftStep(members, i);
      if i > 0 {
        out.Append([COMMA]);
      }
      DumpMemberTo(members[i], out);
      Written(before, Comma(i), DumpMember(members[i]), MembersLeft(members, i + 1));
      i := i + 1;
    }
    assert out.text + [] == out.text;
  }

  function MembersLeft(members: seq<Member>, i: nat): Bytes
    requires i <= |members| && SafeMembers(members[i..])
  {
    if i == |members| then [] else Comma(i) + DumpMembers(members[i..])
  }

  lemma MembersAll(members: seq<Member>)
    requires SafeMembers(members)
    ensures SafeMembers(members[0..]) && MembersLeft(members, 0) == DumpMembers(members)
    ensures SafeMembers(members[|members|..]) && MembersLeft(members, |members|) == []
  {
    assert members[0..] == members && members[|members|..] == [];
  }

  lemma MembersLeftStep(members: seq<Member>, i: nat)
    requires i < |members| && SafeMembers(members[i..])
    ensures Safe(members[i].value) && SafeMembers(members[i + 1..])
    ensures MembersLeft(members, i) == Comma(i) + DumpMember(members[i]) + MembersLeft(members, i + 1)
  {
    assert members[i..][0] == members[i] && members[i..][1..] == members[i + 1..];
  }
}
