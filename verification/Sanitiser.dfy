/** What the logger does to a message before it is written: escape, mask, bound. */
module Sanitiser {
  import opened Common
  import Json
  import JsonRoundTrip
  import JsonText

  const TAB: byte := 9
  const NEWLINE: byte := 10
  const RETURN: byte := 13
  const SPACE: byte := 0x20
  const QUOTE: byte := 0x22
  const AMPERSAND: byte := 0x26
  const COMMA: byte := 0x2C
  const COLON: byte := 0x3A
  const EQUALS: byte := 0x3D
  const CLOSE_BRACE: byte := 0x7D

  /** The longest message written. */
  const MAX_MESSAGE: nat := 8192

  function SecretKeys(): seq<Bytes> {
    [Ascii("sb-hc-token"), Ascii("sig"), Ascii("password"), Ascii("accesskey"), Ascii("sharedaccesssignature")]
  }

  // ---------------------------------------------------------------- masking

  predicate StartsWithCi(s: Bytes, prefix: Bytes) {
    |s| >= |prefix| && EqualsCi(s[..|prefix|], prefix)
  }

  /** The length of the first of `keys` that `s` starts with, or 0. */
  function FirstKey(s: Bytes, keys: seq<Bytes>): (n: nat)
    ensures n <= |s|
  {
    if keys == [] then 0
    else if StartsWithCi(s, keys[0]) then |keys[0]|
    else FirstKey(s, keys[1..])
  }

  predicate Blank(c: byte) {
    c == SPACE || c == TAB
  }

  /** How many blanks `s` starts with. */
  function Blanks(s: Bytes): (n: nat)
    ensures n <= |s|
  {
    if s == [] || !Blank(s[0]) then 0 else 1 + Blanks(s[1..])
  }

  predicate EndsValue(c: byte, quoted: bool) {
    if quoted then c == QUOTE else c == AMPERSAND || c == COMMA || c == CLOSE_BRACE || c == SPACE
  }

  /** The length of the value `s` starts with. */
  function Run(s: Bytes, quoted: bool): (n: nat)
    ensures n <= |s|
    ensures forall i :: 0 <= i < n ==> !EndsValue(s[i], quoted)
    ensures n < |s| ==> EndsValue(s[n], quoted)
  {
    if s == [] || EndsValue(s[0], quoted) then 0 else 1 + Run(s[1..], quoted)
  }

  /** Where a key that `s` starts with has its separator. */
  function Separator(s: Bytes): (r: Option<nat>)
    ensures r.Some? ==> 0 < r.value < |s| && (s[r.value] == EQUALS || s[r.value] == COLON)
  {
    var key := FirstKey(s, SecretKeys());
    if key == 0 then None else
    var quote := if key < |s| && s[key] == QUOTE then 1 else 0;
    var at := key + quote + Blanks(s[key + quote..]);
    if at < |s| && (s[at] == EQUALS || s[at] == COLON) then Some(at) else None
  }

  function Stars(): Bytes {
    Ascii("***")
  }

  /** What is written for a value that is not empty. */
  function Cover(quoted: bool, closed: bool): Bytes {
    (if quoted then [QUOTE] else []) + Stars() + (if closed then [QUOTE] else [])
  }

  /** What is written for a value, and how much of `s` it is; `s` starts behind the separator. */
  function Veil(s: Bytes): (r: (Bytes, nat))
    ensures r.1 <= |s|
  {
    var blanks := Blanks(s);
    var quoted := blanks < |s| && s[blanks] == QUOTE;
    var start := blanks + if quoted then 1 else 0;
    var end := start + Run(s[start..], quoted);
    var closed := quoted && end < |s|;
    (if end == start then [] else Cover(quoted, closed), if closed then end + 1 else end)
  }

  /** The text with the values of secret keys starred out. */
  function Mask(s: Bytes): Bytes
    decreases |s|
  {
    if s == [] then [] else
    match Separator(s)
    case None => [s[0]] + Mask(s[1..])
    case Some(at) =>
      var (veil, taken) := Veil(s[at + 1..]);
      s[..at + 1] + veil + Mask(s[at + 1 + taken..])
  }

  method MaskSecrets(text: Bytes) returns (out: Bytes)
    ensures out == Mask(text)
  {
    hide Mask, Separator, Veil;
    out := [];
    var i := 0;
    while i < |text|
      invariant i <= |text|
      invariant out + Mask(text[i..]) == Mask(text)
    {
      MaskStep(text[i..]);
      var sep := FindSeparator(text, i);
      if sep.None? {
        assert text[i..][1..] == text[i + 1..];
        out := out + [text[i]];
        i := i + 1;
      } else {
        var j := sep.value;
        var veil, next := CoverValue(text, j + 1);
        assert text[i..][..j + 1 - i] == text[i..j + 1];
        assert text[i..][j + 1 - i..] == text[j + 1..];
        assert text[i..][next - i..] == text[next..];
        out := out + text[i..j + 1] + veil;
        i := next;
      }
    }
    assert text[i..] == [];
    MaskStep([]);
  }

  lemma MaskStep(s: Bytes)
    ensures s == [] ==> Mask(s) == []
    ensures s != [] && Separator(s).None? ==> Mask(s) == [s[0]] + Mask(s[1..])
    ensures Separator(s).Some? ==>
              var at := Separator(s).value;
              var (veil, taken) := Veil(s[at + 1..]);
              Mask(s) == s[..at + 1] + veil + Mask(s[at + 1 + taken..])
  {
    hide Separator, Veil;
  }

  /** The separator of a key at `i`, as a position in the whole text. */
  method FindSeparator(text: Bytes, i: nat) returns (r: Option<nat>)
    requires i < |text|
    ensures r == match Separator(text[i..]) case None => None case Some(at) => Some(i + at)
    ensures r.Some? ==> i < r.value < |text|
  {
    hide FirstKey, SecretKeys, Blanks;
    var key := FirstKey(text[i..], SecretKeys());
    if key == 0 {
      return None;
    }
    var j := i + key;
    if j < |text| && text[j] == QUOTE {
      j := j + 1;
    }
    assert text[i..][j - i..] == text[j..];
    j := SkipBlanks(text, j);
    if j >= |text| || (text[j] != EQUALS && text[j] != COLON) {
      return None;
    }
    return Some(j);
  }

  method SkipBlanks(text: Bytes, from: nat) returns (j: nat)
    requires from <= |text|
    ensures j == from + Blanks(text[from..])
  {
    j := from;
    while j < |text| && Blank(text[j])
      invariant from <= j <= |text|
      invariant Blanks(text[from..]) == j - from + Blanks(text[j..])
    {
      assert text[j..][1..] == text[j + 1..];
      j := j + 1;
    }
  }

  method SkipValue(text: Bytes, from: nat, quoted: bool) returns (j: nat)
    requires from <= |text|
    ensures j == from + Run(text[from..], quoted)
  {
    j := from;
    while j < |text| && !EndsValue(text[j], quoted)
      invariant from <= j <= |text|
      invariant Run(text[from..], quoted) == j - from + Run(text[j..], quoted)
    {
      assert text[j..][1..] == text[j + 1..];
      j := j + 1;
    }
  }

  /** What is written for the value at `from`, and where it ends. */
  method CoverValue(text: Bytes, from: nat) returns (veil: Bytes, next: nat)
    requires from <= |text|
    ensures (veil, next - from) == Veil(text[from..]) && from <= next <= |text|
  {
    hide Blanks, Run, EndsValue, Cover;
    var j := SkipBlanks(text, from);
    var quoted := j < |text| && text[j] == QUOTE;
    if quoted {
      j := j + 1;
    }
    var start := j;
    assert text[from..][start - from..] == text[start..];
    j := SkipValue(text, start, quoted);
    veil := if j > start then Cover(quoted, quoted && j < |text|) else [];
    next := if quoted && j < |text| then j + 1 else j;
  }

  // ------------------------------------------- values of keys leave no trace

  /** A secret key, in any mixture of cases. */
  ghost predicate SecretKey(key: Bytes) {
    exists i :: 0 <= i < |SecretKeys()| && EqualsCi(key, SecretKeys()[i])
  }

  predicate KeyChar(c: byte) {
    c == 0x2D || 0x41 <= c <= 0x5A || 0x61 <= c <= 0x7A
  }

  /** A value that an unquoted occurrence of a key covers whole. */
  predicate PlainValue(v: Bytes) {
    && v != [] && !Blank(v[0])
    && forall i :: 0 <= i < |v| ==> !EndsValue(v[i], true) && !EndsValue(v[i], false)
  }

  /** What may follow such a value: nothing, or something that ends it. */
  predicate Ends(tail: Bytes) {
    tail == [] || EndsValue(tail[0], false)
  }

  lemma KeyLetters(s: string)
    requires forall c :: c in s ==> c == '-' || 'a' <= c <= 'z'
    ensures forall j :: 0 <= j < |s| ==> KeyChar(Ascii(s)[j])
  {
    assert forall j :: 0 <= j < |s| ==> s[j] in s;
  }

  lemma KeyChars(i: nat, j: nat)
    requires i < |SecretKeys()| && j < |SecretKeys()[i]|
    ensures KeyChar(SecretKeys()[i][j])
  {
    hide Ascii, KeyChar;
    if i == 0 { KeyLetters("sb-hc-token"); }
    if i == 1 { KeyLetters("sig"); }
    if i == 2 { KeyLetters("password"); }
    if i == 3 { KeyLetters("accesskey"); }
    if i == 4 { KeyLetters("sharedaccesssignature"); }
  }

  lemma SecretChars(key: Bytes)
    requires SecretKey(key)
    ensures key != [] && forall j :: 0 <= j < |key| ==> KeyChar(key[j])
  {
    var i :| 0 <= i < |SecretKeys()| && EqualsCi(key, SecretKeys()[i]);
    forall j | 0 <= j < |key| ensures KeyChar(key[j]) {
      KeyChars(i, j);
    }
  }

  /** Keys are recognised by what precedes the next character that is in none. */
  lemma {:induction false} FirstKeyLocal(p: Bytes, x: Bytes, keys: seq<Bytes>)
    requires p != [] && !KeyChar(p[|p| - 1])
    requires forall i, j :: 0 <= i < |keys| && 0 <= j < |keys[i]| ==> KeyChar(keys[i][j])
    ensures FirstKey(p + x, keys) == FirstKey(p, keys) < |p|
  {
    if keys != [] {
      var k := keys[0];
      FirstKeyLocal(p, x, keys[1..]);
      if |k| >= |p| {
        assert KeyChar(k[|p| - 1]);
        if |p + x| >= |k| {
          assert (p + x)[..|k|][|p| - 1] == p[|p| - 1];
        }
        if |p| == |k| {
          assert p[..|k|][|p| - 1] == p[|p| - 1];
        }
      } else {
        assert (p + x)[..|k|] == p[..|k|];
      }
    }
  }

  /** No secret key is the beginning of another. */
  lemma OwnKey(key: Bytes, x: Bytes)
    requires SecretKey(key)
    ensures FirstKey(key + x, SecretKeys()) == |key|
  {
    var i :| 0 <= i < |SecretKeys()| && EqualsCi(key, SecretKeys()[i]);
    assert (key + x)[..|key|] == key;
    forall j | 0 <= j < i ensures Apart(SecretKeys()[j], SecretKeys()[i]) {
      KeysApart(j, i);
    }
    FirstKeyAt(key + x, SecretKeys(), i);
  }

  /** The first two letters tell two keys apart. */
  predicate Apart(a: Bytes, b: Bytes) {
    |a| >= 2 && |b| >= 2 && (Lower(a[0]) != Lower(b[0]) || Lower(a[1]) != Lower(b[1]))
  }

  lemma NotBoth(s: Bytes, a: Bytes, b: Bytes)
    requires Apart(a, b) && StartsWithCi(s, b)
    ensures !StartsWithCi(s, a)
  {
    assert s[..|b|][0] == s[0] && s[..|b|][1] == s[1];
    if |s| >= |a| {
      assert s[..|a|][0] == s[0] && s[..|a|][1] == s[1];
    }
  }

  lemma {:induction false} FirstKeyAt(s: Bytes, keys: seq<Bytes>, i: nat)
    requires i < |keys| && StartsWithCi(s, keys[i])
    requires forall j :: 0 <= j < i ==> Apart(keys[j], keys[i])
    ensures FirstKey(s, keys) == |keys[i]|
  {
    hide StartsWithCi, Apart;
    if i > 0 {
      NotBoth(s, keys[0], keys[i]);
      FirstKeyAt(s, keys[1..], i - 1);
    }
  }

  lemma KeysApart(j: nat, i: nat)
    requires j < i < |SecretKeys()|
    ensures Apart(SecretKeys()[j], SecretKeys()[i])
  {
    var literals := ["sb-hc-token", "sig", "password", "accesskey", "sharedaccesssignature"];
    var a, b := literals[j], literals[i];
    assert SecretKeys()[j] == Ascii(a) && SecretKeys()[i] == Ascii(b);
    assert Ascii(a)[0] == a[0] as int && Ascii(b)[0] == b[0] as int;
    assert Ascii(a)[1] == a[1] as int && Ascii(b)[1] == b[1] as int;
  }

  lemma {:induction false} BlanksLocal(p: Bytes, x: Bytes)
    requires x != [] && !Blank(x[0])
    ensures Blanks(p + x) == Blanks(p)
  {
    if p == [] {
      assert p + x == x;
    } else {
      assert (p + x)[1..] == p[1..] + x;
      BlanksLocal(p[1..], x);
    }
  }

  lemma {:induction false} RunConcat(p: Bytes, t: Bytes, quoted: bool)
    ensures Run(p + t, quoted) == if Run(p, quoted) < |p| then Run(p, quoted) else |p| + Run(t, quoted)
  {
    if p == [] {
      assert p + t == t;
    } else {
      assert (p + t)[1..] == p[1..] + t;
      RunConcat(p[1..], t, quoted);
    }
  }

  lemma {:induction false} RunAll(v: Bytes, quoted: bool)
    requires forall i :: 0 <= i < |v| ==> !EndsValue(v[i], quoted)
    ensures Run(v, quoted) == |v|
  {
    if v != [] {
      RunAll(v[1..], quoted);
    }
  }

  /** The separator of a key that starts before an equals sign or colon does not depend on what follows it. */
  lemma SeparatorLocal(p: Bytes, x: Bytes)
    requires p != [] && (p[|p| - 1] == EQUALS || p[|p| - 1] == COLON)
    ensures Separator(p + x) == Separator(p)
    ensures Separator(p).Some? ==> Separator(p).value < |p|
  {
    hide FirstKey, Blanks, SecretKeys;
    forall i, j | 0 <= i < |SecretKeys()| && 0 <= j < |SecretKeys()[i]| ensures KeyChar(SecretKeys()[i][j]) {
      KeyChars(i, j);
    }
    FirstKeyLocal(p, x, SecretKeys());
    var key := FirstKey(p, SecretKeys());
    var from := key + if p[key] == QUOTE then 1 else 0;
    var last := |p| - 1;
    assert p[from..] == p[from..last] + p[last..];
    assert (p + x)[from..] == p[from..last] + (p[last..] + x);
    BlanksLocal(p[from..last], p[last..]);
    BlanksLocal(p[from..last], p[last..] + x);
  }

  /** Whether the value that starts at the head of `r` is quoted, and where it starts. */
  function Opening(r: Bytes): (o: (bool, nat))
    ensures o.1 <= |r|
  {
    var blanks := Blanks(r);
    var quoted := blanks < |r| && r[blanks] == QUOTE;
    (quoted, blanks + if quoted then 1 else 0)
  }

  /** Does that value end within `r`? */
  predicate Inside(r: Bytes) {
    var (quoted, start) := Opening(r);
    Run(r[start..], quoted) < |r| - start
  }

  /** What is written for a value that runs out of `r` over a covered stretch, and how much of `tail` it takes. */
  function VeilBeyond(r: Bytes, tail: Bytes): (b: (Bytes, nat))
    ensures b.1 <= |tail|
  {
    var quoted := Opening(r).0;
    var more := Run(tail, quoted);
    var closed := quoted && more < |tail|;
    (Cover(quoted, closed), more + if closed then 1 else 0)
  }

  /** A value behind an earlier key either ends before a covered stretch `u`, or covers all of it. */
  lemma VeilOver(r: Bytes, u: Bytes, tail: Bytes)
    requires PlainValue(u)
    ensures Veil(r + (u + tail)) ==
            if Inside(r) then Veil(r) else (VeilBeyond(r, tail).0, |r| + |u| + VeilBeyond(r, tail).1)
  {
    hide Veil, Opening, Run, Cover, PlainValue;
    var (quoted, start) := Opening(r);
    var run, more := Run(r[start..], quoted), Run(tail, quoted);
    PlainNotEmpty(u);
    OpeningOver(r, u, tail);
    RunOver(r[start..], u, tail, quoted);
    DropOver(r, u + tail, start);
    VeilOpened(r);
    VeilOpened(r + (u + tail));
    if run < |r| - start {
      VeilEnds(quoted, start, run, |r|, |r| + |u| + |tail|);
    } else {
      VeilGoesOn(quoted, start, |r| - start + |u| + more, |r| + |u|, more, |tail|);
    }
  }

  lemma PlainNotEmpty(u: Bytes)
    requires PlainValue(u)
    ensures u != []
  {
  }

  /** A value of `run` octets from `start` on in `len` octets: what is written for it, and where it ends. */
  function VeilOf(quoted: bool, start: nat, run: nat, len: nat): (Bytes, nat) {
    var closed := quoted && start + run < len;
    (if run == 0 then [] else Cover(quoted, closed), start + run + if closed then 1 else 0)
  }

  lemma VeilEnds(quoted: bool, start: nat, run: nat, len: nat, longer: nat)
    requires start + run < len <= longer
    ensures VeilOf(quoted, start, run, longer) == VeilOf(quoted, start, run, len)
  {
    hide Cover;
  }

  lemma VeilGoesOn(quoted: bool, start: nat, run: nat, beyond: nat, more: nat, left: nat)
    requires start + run == beyond + more && run > more && more <= left
    ensures var closed := quoted && more < left;
            VeilOf(quoted, start, run, beyond + left) ==
            (Cover(quoted, closed), beyond + (more + if closed then 1 else 0))
  {
    hide Cover;
  }

  lemma DropOver(r: Bytes, x: Bytes, start: nat)
    requires start <= |r|
    ensures (r + x)[start..] == r[start..] + x
  {
  }

  lemma VeilOpened(s: Bytes)
    ensures var (quoted, start) := Opening(s);
            Veil(s) == VeilOf(quoted, start, Run(s[start..], quoted), |s|)
  {
    hide Blanks, Run, Cover;
  }

  lemma OpeningOver(r: Bytes, u: Bytes, tail: Bytes)
    requires PlainValue(u)
    ensures Blanks(r + (u + tail)) == Blanks(r)
    ensures Opening(r + (u + tail)) == Opening(r)
  {
    hide Blanks;
    assert (u + tail)[0] == u[0] && !EndsValue(u[0], true);
    BlanksLocal(r, u + tail);
  }

  lemma RunOver(r: Bytes, u: Bytes, tail: Bytes, quoted: bool)
    requires PlainValue(u)
    ensures Run(r + (u + tail), quoted) ==
            if Run(r, quoted) < |r| then Run(r, quoted) else |r| + |u| + Run(tail, quoted)
  {
    hide Run;
    RunConcat(r, u + tail, quoted);
    RunConcat(u, tail, quoted);
    RunAll(u, quoted);
  }

  function Line(pre: Bytes, key: Bytes, v: Bytes, tail: Bytes): (r: Bytes)
    ensures r != []
  {
    pre + (key + [EQUALS] + v + tail)
  }

  lemma LineSeparator(pre: Bytes, key: Bytes, v: Bytes, tail: Bytes)
    requires SecretKey(key)
    ensures Separator(Line(pre, key, v, tail)) == Separator(pre + (key + [EQUALS]))
    ensures pre == [] ==> Separator(pre + (key + [EQUALS])) == Some(|key|)
    ensures var sep := Separator(pre + (key + [EQUALS]));
            sep.Some? ==> sep.value < |pre| || sep.value == |pre| + |key|
  {
    hide Separator;
    SecretChars(key);
    var p := pre + (key + [EQUALS]);
    assert Line(pre, key, v, tail) == p + (v + tail);
    SeparatorLocal(p, v + tail);
    assert forall i :: |pre| <= i < |pre| + |key| ==> KeyChar(p[i]) by {
      assert forall i :: |pre| <= i < |pre| + |key| ==> p[i] == key[i - |pre|];
    }
    if pre == [] {
      assert p == key + [EQUALS];
      OwnSeparator(key);
    }
  }

  lemma OwnSeparator(key: Bytes)
    requires SecretKey(key)
    ensures Separator(key + [EQUALS]) == Some(|key|)
  {
    hide FirstKey, SecretKeys, SecretKey;
    SecretChars(key);
    OwnKey(key, [EQUALS]);
    assert (key + [EQUALS])[|key|..] == [EQUALS];
  }

  /** The key itself is found: its value is starred out. */
  lemma MaskOwn(pre: Bytes, key: Bytes, v: Bytes, tail: Bytes)
    requires PlainValue(v) && Ends(tail)
    requires Separator(Line(pre, key, v, tail)) == Some(|pre| + |key|)
    ensures Mask(Line(pre, key, v, tail)) == pre + (key + [EQUALS]) + Stars() + Mask(tail)
  {
    hide Mask, Separator, Veil, PlainValue, Ends, Inside, VeilBeyond, Stars;
    var s, at := Line(pre, key, v, tail), |pre| + |key|;
    MaskStep(s);
    assert s == (pre + (key + [EQUALS])) + (v + tail);
    assert s[..at + 1] == pre + (key + [EQUALS]);
    assert s[at + 1..] == [] + (v + tail);
    VeilOver([], v, tail);
    EndsAtOnce(tail);
    assert s[at + 1 + |v|..] == tail;
  }

  lemma EndsAtOnce(tail: Bytes)
    requires Ends(tail)
    ensures !Inside([]) && VeilBeyond([], tail) == (Stars(), 0)
  {
    assert [] + Stars() + [] == Stars();
  }

  /** A key found before this one: its value ends before this key, or covers this key and its value. */
  lemma MaskEarlier(pre: Bytes, key: Bytes, v: Bytes, tail: Bytes, at: nat)
    requires SecretKey(key) && PlainValue(v)
    requires Separator(Line(pre, key, v, tail)) == Some(at) && at < |pre|
    ensures var r := pre[at + 1..];
            && Veil(r).1 <= |r|
            && Mask(Line(pre, key, v, tail)) ==
               pre[..at + 1] +
               if Inside(r) then Veil(r).0 + Mask(Line(r[Veil(r).1..], key, v, tail))
               else VeilBeyond(r, tail).0 + Mask(tail[VeilBeyond(r, tail).1..])
  {
    hide Mask, Separator, Veil, PlainValue, SecretKey, Inside, VeilBeyond;
    var s, r, u := Line(pre, key, v, tail), pre[at + 1..], key + [EQUALS] + v;
    MaskStep(s);
    assert s[..at + 1] == pre[..at + 1];
    assert s[at + 1..] == r + (u + tail);
    KeyPlain(key, v);
    VeilOver(r, u, tail);
    var (veil, taken) := Veil(s[at + 1..]);
    if Inside(r) {
      assert s[at + 1 + taken..] == Line(r[taken..], key, v, tail);
    } else {
      assert s[at + 1 + taken..] == tail[VeilBeyond(r, tail).1..];
    }
    assert (pre[..at + 1] + veil) + Mask(s[at + 1 + taken..]) == pre[..at + 1] + (veil + Mask(s[at + 1 + taken..]));
  }

  lemma KeyPlain(key: Bytes, v: Bytes)
    requires SecretKey(key) && PlainValue(v)
    ensures PlainValue(key + [EQUALS] + v)
  {
    hide SecretKey;
    SecretChars(key);
    var u := key + [EQUALS] + v;
    forall i | 0 <= i < |u| ensures !EndsValue(u[i], true) && !EndsValue(u[i], false) {
      assert u[i] == if i < |key| then key[i] else if i == |key| then EQUALS else v[i - |key| - 1];
    }
    assert u[0] == key[0];
  }

  /**
   No output depends on the value behind a secret key in the `key=value` form,
   whatever precedes the key and whatever follows the value, for non-empty
   values that do not begin with a blank and hold no quote, space, `&`, `,` or `}`.
   */
  lemma {:induction false} MaskHides(pre: Bytes, key: Bytes, v1: Bytes, v2: Bytes, tail: Bytes)
    requires SecretKey(key) && PlainValue(v1) && PlainValue(v2) && Ends(tail)
    ensures Mask(Line(pre, key, v1, tail)) == Mask(Line(pre, key, v2, tail))
    decreases |pre|
  {
    hide Mask, Separator, Veil, SecretKey, PlainValue, Ends, Inside, VeilBeyond, Line;
    LineSeparator(pre, key, v1, tail);
    LineSeparator(pre, key, v2, tail);
    MaskStep(Line(pre, key, v1, tail));
    MaskStep(Line(pre, key, v2, tail));
    var sep := Separator(pre + (key + [EQUALS]));
    if sep.None? {
      LineFrom(pre, key, v1, tail);
      LineFrom(pre, key, v2, tail);
      MaskHides(pre[1..], key, v1, v2, tail);
    } else if sep.value >= |pre| {
      MaskOwn(pre, key, v1, tail);
      MaskOwn(pre, key, v2, tail);
    } else {
      var at := sep.value;
      var r := pre[at + 1..];
      MaskEarlier(pre, key, v1, tail, at);
      MaskEarlier(pre, key, v2, tail, at);
      if Inside(r) {
        MaskHides(r[Veil(r).1..], key, v1, v2, tail);
      }
    }
  }

  lemma LineFrom(pre: Bytes, key: Bytes, v: Bytes, tail: Bytes)
    requires pre != []
    ensures Line(pre, key, v, tail)[0] == pre[0]
    ensures Line(pre, key, v, tail)[1..] == Line(pre[1..], key, v, tail)
  {
  }

  /** The quoted form `key":"value"`: the value is starred out, whatever it holds but a quote. */
  lemma MaskQuoted(key: Bytes, v: Bytes, tail: Bytes)
    requires SecretKey(key) && v != [] && QUOTE !in v
    ensures Mask(key + [QUOTE, COLON, QUOTE] + (v + ([QUOTE] + tail))) ==
            key + [QUOTE, COLON, QUOTE] + Stars() + [QUOTE] + Mask(tail)
  {
    hide Mask, Separator, Veil, SecretKey;
    var rest := v + ([QUOTE] + tail);
    var s := key + [QUOTE, COLON, QUOTE] + rest;
    MaskStep(s);
    QuotedSeparator(key, [QUOTE] + rest);
    assert s == key + ([QUOTE, COLON] + ([QUOTE] + rest));
    assert s[|key| + 2..] == [QUOTE] + rest;
    VeilQuoted(v, tail);
    assert s[..|key| + 2] == key + [QUOTE, COLON];
    assert s[|key| + 2 + |v| + 2..] == tail;
    assert (key + [QUOTE, COLON]) + ([QUOTE] + Stars() + [QUOTE]) == key + [QUOTE, COLON, QUOTE] + Stars() + [QUOTE];
  }

  lemma QuotedSeparator(key: Bytes, rest: Bytes)
    requires SecretKey(key)
    ensures Separator(key + ([QUOTE, COLON] + rest)) == Some(|key| + 1)
  {
    hide FirstKey, SecretKeys, SecretKey;
    SecretChars(key);
    var s := key + ([QUOTE, COLON] + rest);
    OwnKey(key, [QUOTE, COLON] + rest);
    assert s[|key| + 1..] == [COLON] + rest;
  }

  lemma VeilQuoted(v: Bytes, tail: Bytes)
    requires v != [] && QUOTE !in v
    ensures Veil([QUOTE] + (v + ([QUOTE] + tail))) == ([QUOTE] + Stars() + [QUOTE], |v| + 2)
  {
    hide Stars;
    var s := [QUOTE] + (v + ([QUOTE] + tail));
    assert s[1..] == v + ([QUOTE] + tail);
    RunConcat(v, [QUOTE] + tail, true);
    RunAll(v, true);
  }

  /** A text in which no key has a separator is left as it is. */
  lemma {:induction false} MaskKeepsOthers(s: Bytes)
    requires forall i :: 0 <= i < |s| ==> Separator(s[i..]).None?
    ensures Mask(s) == s
  {
    if s != [] {
      assert s[0..] == s;
      forall i | 0 <= i < |s[1..]| ensures Separator(s[1..][i..]).None? {
        assert s[1..][i..] == s[i + 1..];
      }
      MaskKeepsOthers(s[1..]);
    }
  }

  // --------------------------------------------------------------- escaping

  predicate Control(c: byte) {
    c < 0x20 || c == 0x7F
  }

  function UpperHex(n: nat): byte
    requires n < 16
  {
    if n < 10 then 0x30 + n else 0x41 + (n - 10)
  }

  function EscapeByte(c: byte): (r: Bytes)
    ensures 1 <= |r| <= 4
  {
    if c == NEWLINE then [0x5C, 0x6E]
    else if c == RETURN then [0x5C, 0x72]
    else if c == TAB then [0x5C, 0x74]
    else if Control(c) then [0x5C, 0x78, UpperHex(c / 16), UpperHex(c % 16)]
    else [c]
  }

  function Escape(s: Bytes): Bytes {
    if s == [] then [] else EscapeByte(s[0]) + Escape(s[1..])
  }

  method AppendEscaped(out: Bytes, text: Bytes) returns (r: Bytes)
    ensures r == out + Escape(text)
  {
    hide EscapeByte;
    r := out;
    var i := 0;
    while i < |text|
      invariant i <= |text|
      invariant r + Escape(text[i..]) == out + Escape(text)
    {
      assert text[i..][1..] == text[i + 1..];
      assert r + (EscapeByte(text[i]) + Escape(text[i + 1..])) == (r + EscapeByte(text[i])) + Escape(text[i + 1..]);
      r := r + EscapeByte(text[i]);
      i := i + 1;
    }
    assert r + Escape(text[i..]) == r;
  }

  lemma {:induction false} EscapeConcat(a: Bytes, c: Bytes)
    ensures Escape(a + c) == Escape(a) + Escape(c)
  {
    hide EscapeByte;
    if a == [] {
      assert a + c == c;
    } else {
      assert (a + c)[1..] == a[1..] + c;
      EscapeConcat(a[1..], c);
    }
  }

  lemma {:induction false} EscapeClean(s: Bytes)
    ensures forall i :: 0 <= i < |Escape(s)| ==> !Control(Escape(s)[i])
    ensures |s| <= |Escape(s)| <= 4 * |s|
  {
    if s != [] {
      EscapeClean(s[1..]);
      assert forall i :: 0 <= i < |EscapeByte(s[0])| ==> !Control(EscapeByte(s[0])[i]);
    }
  }

  lemma {:induction false} EscapeNothing(s: Bytes)
    requires forall i :: 0 <= i < |s| ==> !Control(s[i])
    ensures Escape(s) == s
  {
    if s != [] {
      EscapeNothing(s[1..]);
    }
  }

  // ------------------------------------------------------- what is written

  /** A message cut to the longest that is written, with a marker that tells how much was cut. */
  function Bound(s: Bytes): Bytes {
    if |s| <= MAX_MESSAGE then s
    else s[..MAX_MESSAGE] + Ascii(" ... [truncated ") + Json.Digits(|s| - MAX_MESSAGE) + Ascii(" bytes]")
  }

  function Sanitised(message: Bytes): Bytes {
    Bound(Mask(Escape(message)))
  }

  method Sanitise(message: Bytes) returns (out: Bytes)
    ensures out == Sanitised(message)
  {
    hide Mask, Escape, Ascii, Json.Digits;
    var escaped := AppendEscaped([], message);
    assert [] + Escape(message) == Escape(message);
    out := MaskSecrets(escaped);
    if |out| > MAX_MESSAGE {
      var dropped := |out| - MAX_MESSAGE;
      out := out[..MAX_MESSAGE];
      out := out + Ascii(" ... [truncated ") + Json.Digits(dropped) + Ascii(" bytes]");
    }
  }

  predicate Clean(s: Bytes) {
    forall i :: 0 <= i < |s| ==> !Control(s[i])
  }

  lemma CleanConcat(a: Bytes, c: Bytes)
    requires Clean(a) && Clean(c)
    ensures Clean(a + c)
  {
  }

  lemma VeilClean(s: Bytes)
    ensures Clean(Veil(s).0) && |Veil(s).0| <= Veil(s).1 + 2
  {
    hide Blanks, Run, Cover, Clean;
    CoverClean(true, true);
    CoverClean(true, false);
    CoverClean(false, false);
  }

  lemma CoverClean(quoted: bool, closed: bool)
    ensures Clean([]) && Clean(Cover(quoted, closed))
    ensures |Cover(quoted, closed)| == 3 + (if quoted then 1 else 0) + (if closed then 1 else 0)
  {
    PrintableAscii("***");
  }

  /** Masking brings in no control characters and at most doubles a text. */
  lemma {:induction false} MaskClean(s: Bytes)
    requires Clean(s)
    ensures Clean(Mask(s)) && |Mask(s)| <= 2 * |s|
    decreases |s|
  {
    hide Mask, Separator, Veil;
    if s == [] {
      MaskStep([]);
    } else {
      MaskStep(s);
      if Separator(s).None? {
        MaskClean(s[1..]);
      } else {
        var at := Separator(s).value;
        var (veil, taken) := Veil(s[at + 1..]);
        VeilClean(s[at + 1..]);
        MaskClean(s[at + 1 + taken..]);
        CleanConcat(s[..at + 1] + veil, Mask(s[at + 1 + taken..]));
      }
    }
  }

  /** Whatever is logged, the written message holds no control character and is bounded. */
  lemma SanitisedIsClean(message: Bytes)
    requires |message| < TWO_TO_THE_32
    ensures Clean(Sanitised(message))
    ensures |Sanitised(message)| <= MAX_MESSAGE + 40
    ensures |Mask(Escape(message))| <= MAX_MESSAGE ==> Sanitised(message) == Mask(Escape(message))
  {
    hide Mask, Escape, Json.Digits;
    EscapeClean(message);
    MaskClean(Escape(message));
    var s := Mask(Escape(message));
    if |s| > MAX_MESSAGE {
      var n := |s| - MAX_MESSAGE;
      JsonRoundTrip.DigitsAreDigits(n);
      JsonRoundTrip.SafeIsShort(n);
      var digits := Json.Digits(n);
      assert Clean(digits) by {
        forall i | 0 <= i < |digits| ensures !Control(digits[i]) {
          assert JsonText.IsDigit(digits[i]);
        }
      }
      PrintableAscii(" ... [truncated ");
      PrintableAscii(" bytes]");
      assert |Ascii(" ... [truncated ")| == 16 && |Ascii(" bytes]")| == 7;
      CleanConcat(s[..MAX_MESSAGE], Ascii(" ... [truncated "));
      CleanConcat(s[..MAX_MESSAGE] + Ascii(" ... [truncated "), digits);
      CleanConcat(s[..MAX_MESSAGE] + Ascii(" ... [truncated ") + digits, Ascii(" bytes]"));
    }
  }

  lemma PrintableAscii(s: string)
    requires forall c :: c in s ==> ' ' <= c <= '~'
    ensures Clean(Ascii(s))
  {
    assert forall i :: 0 <= i < |s| ==> s[i] in s;
  }

  /** A value, as given to the logger, that an unquoted occurrence of a key covers whole. */
  predicate RawValue(v: Bytes) {
    v != [] && forall i :: 0 <= i < |v| ==> !EndsValue(v[i], true) && !EndsValue(v[i], false)
  }

  lemma {:induction false} EscapedIsPlain(v: Bytes)
    requires RawValue(v)
    ensures PlainValue(Escape(v))
  {
    var head := EscapeByte(v[0]);
    assert forall i :: 0 <= i < |head| ==> !EndsValue(head[i], true) && !EndsValue(head[i], false) && !Blank(head[i]);
    if |v| > 1 {
      EscapedIsPlain(v[1..]);
    }
  }

  /**
   What is written of a message is the same for any two values behind a secret
   key: the message may otherwise be anything, control characters included.
   */
  lemma SanitisedHides(pre: Bytes, key: Bytes, v1: Bytes, v2: Bytes, tail: Bytes)
    requires SecretKey(key) && RawValue(v1) && RawValue(v2) && Ends(tail)
    ensures Sanitised(Line(pre, key, v1, tail)) == Sanitised(Line(pre, key, v2, tail))
  {
    hide Mask, Escape, SecretKey, RawValue, Bound, Ends;
    EscapedIsPlain(v1);
    EscapedIsPlain(v2);
    EscapedLine(pre, key, v1, tail);
    EscapedLine(pre, key, v2, tail);
    EscapedEnds(tail);
    MaskHides(Escape(pre), key, Escape(v1), Escape(v2), Escape(tail));
  }

  lemma EscapedEnds(tail: Bytes)
    requires Ends(tail)
    ensures Ends(Escape(tail))
  {
  }

  lemma EscapedLine(pre: Bytes, key: Bytes, v: Bytes, tail: Bytes)
    requires SecretKey(key)
    ensures Escape(Line(pre, key, v, tail)) == Line(Escape(pre), key, Escape(v), Escape(tail))
  {
    hide Escape, SecretKey;
    SecretChars(key);
    EscapeConcat(pre, key + [EQUALS] + v + tail);
    EscapeConcat(key + [EQUALS] + v, tail);
    EscapeConcat(key + [EQUALS], v);
    EscapeNothing(key + [EQUALS]);
  }
}
