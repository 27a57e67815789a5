/** When the quoted form `key":"value"` hides its value, whatever stands before it. */
module QuotedSecrets {
  import opened Common
  import opened Sanitiser

  /** A text with a value in the quoted form. */
  function Quoted(pre: Bytes, key: Bytes, v: Bytes, tail: Bytes): Bytes {
    pre + (key + [QUOTE, COLON, QUOTE] + (v + ([QUOTE] + tail)))
  }

  predicate QuotedValue(v: Bytes) {
    v != [] && QUOTE !in v
  }

  /**
   Does the masker, reading `pre` from the left, come to stand at the key? It
   does not if a value of an earlier key is still open where the key begins.
   */
  predicate Reaches(pre: Bytes, key: Bytes)
    decreases |pre|
  {
    if pre == [] then true else
    match Separator(pre + (key + [QUOTE, COLON]))
    case None => Reaches(pre[1..], key)
    case Some(at) =>
      at >= |pre| || (Inside(pre[at + 1..]) && Reaches(pre[at + 1..][Veil(pre[at + 1..]).1..], key))
  }

  // -------------------------------------------------------- one step of reading

  lemma QuotedParts(pre: Bytes, key: Bytes, v: Bytes, tail: Bytes)
    ensures Quoted(pre, key, v, tail) == (pre + (key + [QUOTE, COLON])) + ([QUOTE] + (v + ([QUOTE] + tail)))
  {
  }

  lemma QuotedStep(pre: Bytes, key: Bytes, v: Bytes, tail: Bytes)
    requires SecretKey(key)
    ensures Separator(Quoted(pre, key, v, tail)) == Separator(pre + (key + [QUOTE, COLON]))
    ensures pre == [] ==> Separator(pre + (key + [QUOTE, COLON])) == Some(|key| + 1)
    ensures var sep := Separator(pre + (key + [QUOTE, COLON]));
            sep.Some? ==> sep.value < |pre| || sep.value == |pre| + |key| + 1
  {
    hide Separator, SecretKey;
    SecretChars(key);
    var p := pre + (key + [QUOTE, COLON]);
    QuotedParts(pre, key, v, tail);
    SeparatorLocal(p, [QUOTE] + (v + ([QUOTE] + tail)));
    assert forall i :: |pre| <= i < |pre| + |key| ==> KeyChar(p[i]) by {
      assert forall i :: |pre| <= i < |pre| + |key| ==> p[i] == key[i - |pre|];
    }
    assert p[|pre| + |key|] == QUOTE;
    if pre == [] {
      assert p == key + ([QUOTE, COLON] + []);
      QuotedSeparator(key, []);
    }
  }

  /** An earlier value that ends before the key is covered no matter what follows. */
  lemma VeilInside(r: Bytes, y: Bytes)
    requires Inside(r)
    ensures Veil(r + y) == Veil(r) && Veil(r).1 <= |r|
  {
    hide Blanks, Run, Cover;
    BlanksEarly(r, y);
    var (quoted, start) := Opening(r);
    assert (r + y)[start..] == r[start..] + y;
    RunConcat(r[start..], y, quoted);
  }

  lemma {:induction false} BlanksEarly(p: Bytes, x: Bytes)
    requires Blanks(p) < |p|
    ensures Blanks(p + x) == Blanks(p)
  {
    assert (p + x)[1..] == p[1..] + x;
    if Blank(p[0]) {
      BlanksEarly(p[1..], x);
    }
  }

  /** An earlier value open at the key, in quotes: it ends with the quote behind the key. */
  lemma VeilToQuote(r: Bytes, key: Bytes, y: Bytes)
    requires SecretKey(key) && !Inside(r) && Opening(r).0
    ensures Veil(r + (key + ([QUOTE] + y))) == (Cover(true, true), |r| + |key| + 1)
  {
    hide Blanks, Run, Cover, SecretKey;
    SecretChars(key);
    BlanksLocal(r, key + ([QUOTE] + y));
    var start := Opening(r).1;
    var s := r + (key + ([QUOTE] + y));
    assert s[start..] == r[start..] + (key + ([QUOTE] + y));
    RunConcat(r[start..], key + ([QUOTE] + y), true);
    RunConcat(key, [QUOTE] + y, true);
    RunAll(key, true);
    RunStops([QUOTE] + y, true);
  }

  lemma RunStops(s: Bytes, quoted: bool)
    requires s != [] && EndsValue(s[0], quoted)
    ensures Run(s, quoted) == 0
  {
  }

  /** An earlier value open at the key, without quotes: it covers all of `u` up to what ends it. */
  lemma VeilOverOpen(r: Bytes, u: Bytes, tail: Bytes)
    requires !Inside(r) && !Opening(r).0
    requires u != [] && !Blank(u[0]) && u[0] != QUOTE && forall i :: 0 <= i < |u| ==> !EndsValue(u[i], false)
    requires Ends(tail)
    ensures Veil(r + (u + tail)) == (Stars(), |r| + |u|)
  {
    hide Blanks, Run;
    BlanksLocal(r, u + tail);
    var start := Opening(r).1;
    var s := r + (u + tail);
    assert s[start..] == r[start..] + (u + tail);
    RunConcat(r[start..], u + tail, false);
    RunConcat(u, tail, false);
    RunAll(u, false);
    RunNone(tail);
    assert [] + Stars() + [] == Stars();
  }

  lemma RunNone(tail: Bytes)
    requires Ends(tail)
    ensures Run(tail, false) == 0
  {
  }

  // ------------------------------------------------------------ it is hidden

  lemma QuotedFrom(pre: Bytes, key: Bytes, v: Bytes, tail: Bytes, n: nat)
    requires n <= |pre|
    ensures Quoted(pre, key, v, tail)[n..] == Quoted(pre[n..], key, v, tail)
    ensures Quoted(pre, key, v, tail)[..n] == pre[..n]
  {
  }

  /** The step over an earlier key whose value ends before the key. */
  lemma MaskInside(pre: Bytes, key: Bytes, v: Bytes, tail: Bytes, at: nat)
    requires Separator(Quoted(pre, key, v, tail)) == Some(at) && at < |pre| && Inside(pre[at + 1..])
    ensures var r := pre[at + 1..];
            && Veil(r).1 <= |r|
            && Mask(Quoted(pre, key, v, tail)) ==
               pre[..at + 1] + Veil(r).0 + Mask(Quoted(r[Veil(r).1..], key, v, tail))
  {
    hide Mask, Separator, Veil, Inside, Quoted;
    var s, r := Quoted(pre, key, v, tail), pre[at + 1..];
    MaskStep(s);
    QuotedFrom(pre, key, v, tail, at + 1);
    QuotedAppends(r, key, v, tail);
    VeilInside(r, Quoted([], key, v, tail));
    QuotedFrom(r, key, v, tail, Veil(r).1);
    assert s[at + 1..][Veil(r).1..] == s[at + 1 + Veil(r).1..];
  }

  lemma QuotedAppends(pre: Bytes, key: Bytes, v: Bytes, tail: Bytes)
    ensures Quoted(pre, key, v, tail) == pre + Quoted([], key, v, tail)
  {
  }

  lemma MaskAtKey(pre: Bytes, key: Bytes, v: Bytes, tail: Bytes)
    requires SecretKey(key) && QuotedValue(v)
    requires Separator(Quoted(pre, key, v, tail)) == Some(|pre| + |key| + 1)
    ensures Mask(Quoted(pre, key, v, tail)) == pre + (key + [QUOTE, COLON]) + ([QUOTE] + Stars() + [QUOTE]) + Mask(tail)
  {
    hide Mask, Separator, Veil, SecretKey, Stars;
    var s, at := Quoted(pre, key, v, tail), |pre| + |key| + 1;
    MaskStep(s);
    QuotedParts(pre, key, v, tail);
    var p := pre + (key + [QUOTE, COLON]);
    assert s[..at + 1] == p && s[at + 1..] == [QUOTE] + (v + ([QUOTE] + tail));
    VeilQuoted(v, tail);
    assert s[at + 1 + |v| + 2..] == tail;
  }

  lemma {:induction false} ReachedHides(pre: Bytes, key: Bytes, v1: Bytes, v2: Bytes, tail: Bytes)
    requires SecretKey(key) && QuotedValue(v1) && QuotedValue(v2) && Reaches(pre, key)
    ensures Mask(Quoted(pre, key, v1, tail)) == Mask(Quoted(pre, key, v2, tail))
    decreases |pre|
  {
    hide Mask, Separator, Veil, SecretKey, QuotedValue, Inside, Quoted;
    QuotedStep(pre, key, v1, tail);
    QuotedStep(pre, key, v2, tail);
    var sep := Separator(pre + (key + [QUOTE, COLON]));
    if sep.None? {
      MaskOne(pre, key, v1, tail);
      MaskOne(pre, key, v2, tail);
      ReachedHides(pre[1..], key, v1, v2, tail);
    } else if sep.value >= |pre| {
      MaskAtKey(pre, key, v1, tail);
      MaskAtKey(pre, key, v2, tail);
    } else {
      var r := pre[sep.value + 1..];
      MaskInside(pre, key, v1, tail, sep.value);
      MaskInside(pre, key, v2, tail, sep.value);
      ReachedHides(r[Veil(r).1..], key, v1, v2, tail);
    }
  }

  lemma MaskOne(pre: Bytes, key: Bytes, v: Bytes, tail: Bytes)
    requires pre != [] && Separator(Quoted(pre, key, v, tail)).None?
    ensures Mask(Quoted(pre, key, v, tail)) == [pre[0]] + Mask(Quoted(pre[1..], key, v, tail))
  {
    hide Mask, Separator;
    MaskStep(Quoted(pre, key, v, tail));
    QuotedFrom(pre, key, v, tail, 1);
  }

  // ------------------------------------------------------------ it is not hidden

  const SHORT: Bytes := [0x31]
  const LONG: Bytes := [0x31, AMPERSAND, 0x31]

  lemma {:induction false} NoKeyChars(s: Bytes)
    requires forall i :: 0 <= i < |s| ==> !KeyChar(s[i])
    ensures Mask(s) == s
  {
    hide Separator;
    forall i | 0 <= i < |s| ensures Separator(s[i..]).None? {
      NoKeyHere(s[i..]);
    }
    MaskKeepsOthers(s);
  }

  lemma NoKeyHere(s: Bytes)
    requires s != [] && !KeyChar(s[0])
    ensures Separator(s).None?
  {
    hide SecretKeys;
    forall i, j | 0 <= i < |SecretKeys()| && 0 <= j < |SecretKeys()[i]| ensures KeyChar(SecretKeys()[i][j]) {
      KeyChars(i, j);
    }
    KeysNotEmpty();
    NoFirstKey(s, SecretKeys());
  }

  lemma KeysNotEmpty()
    ensures forall i :: 0 <= i < |SecretKeys()| ==> SecretKeys()[i] != []
  {
  }

  lemma {:induction false} NoFirstKey(s: Bytes, keys: seq<Bytes>)
    requires s != [] && !KeyChar(s[0])
    requires forall i :: 0 <= i < |keys| ==> keys[i] != [] && KeyChar(keys[i][0])
    ensures FirstKey(s, keys) == 0
  {
    if keys != [] {
      NoFirstKey(s, keys[1..]);
      if |s| >= |keys[0]| {
        assert s[..|keys[0]|][0] == s[0];
      }
    }
  }

  /** With an earlier value open at the key, the outputs for these two values differ in length. */
  lemma OpenDiffers(pre: Bytes, key: Bytes, at: nat)
    requires SecretKey(key) && at < |pre| && !Inside(pre[at + 1..])
    requires Separator(pre + (key + [QUOTE, COLON])) == Some(at)
    ensures |Mask(Quoted(pre, key, SHORT, []))| < |Mask(Quoted(pre, key, LONG, []))|
  {
    hide Mask, Separator, Veil, SecretKey, Inside, Quoted, Cover, Stars;
    var r := pre[at + 1..];
    if Opening(r).0 {
      QuotedOpen(pre, key, SHORT, at);
      QuotedOpen(pre, key, LONG, at);
    } else {
      PlainOpenShort(pre, key, at);
      PlainOpenLong(pre, key, at);
    }
  }

  lemma QuotedOpen(pre: Bytes, key: Bytes, v: Bytes, at: nat)
    requires SecretKey(key) && at < |pre| && !Inside(pre[at + 1..]) && Opening(pre[at + 1..]).0
    requires Separator(pre + (key + [QUOTE, COLON])) == Some(at) && (v == SHORT || v == LONG)
    ensures |Mask(Quoted(pre, key, v, []))| == at + 1 + |Cover(true, true)| + 3 + |v|
  {
    hide Mask, Separator, Veil, SecretKey, Inside, Cover;
    var s, r := Quoted(pre, key, v, []), pre[at + 1..];
    QuotedStep(pre, key, v, []);
    MaskStep(s);
    var y := [COLON, QUOTE] + (v + [QUOTE]);
    assert s[at + 1..] == r + (key + ([QUOTE] + y));
    VeilToQuote(r, key, y);
    assert s[at + 1 + |r| + |key| + 1..] == y;
    NoKeyChars(y);
  }

  lemma PlainOpenShort(pre: Bytes, key: Bytes, at: nat)
    requires SecretKey(key) && at < |pre| && !Inside(pre[at + 1..]) && !Opening(pre[at + 1..]).0
    requires Separator(pre + (key + [QUOTE, COLON])) == Some(at)
    ensures |Mask(Quoted(pre, key, SHORT, []))| == at + 1 + |Stars()|
  {
    hide Mask, Separator, Veil, SecretKey, Inside, Stars;
    var s, r := Quoted(pre, key, SHORT, []), pre[at + 1..];
    QuotedStep(pre, key, SHORT, []);
    MaskStep(s);
    var u := key + [QUOTE, COLON, QUOTE] + SHORT + [QUOTE];
    KeyOpens(key, SHORT + [QUOTE]);
    assert u == key + [QUOTE, COLON, QUOTE] + (SHORT + [QUOTE]);
    assert s[at + 1..] == r + (u + []);
    VeilOverOpen(r, u, []);
    assert s[at + 1 + |r| + |u|..] == [];
    MaskStep([]);
  }

  lemma PlainOpenLong(pre: Bytes, key: Bytes, at: nat)
    requires SecretKey(key) && at < |pre| && !Inside(pre[at + 1..]) && !Opening(pre[at + 1..]).0
    requires Separator(pre + (key + [QUOTE, COLON])) == Some(at)
    ensures |Mask(Quoted(pre, key, LONG, []))| == at + 1 + |Stars()| + 3
  {
    hide Mask, Separator, Veil, SecretKey, Inside, Stars;
    var s, r := Quoted(pre, key, LONG, []), pre[at + 1..];
    QuotedStep(pre, key, LONG, []);
    MaskStep(s);
    var u, rest := key + [QUOTE, COLON, QUOTE] + SHORT, [AMPERSAND, 0x31, QUOTE];
    KeyOpens(key, SHORT);
    assert s[at + 1..] == r + (u + rest);
    VeilOverOpen(r, u, rest);
    assert s[at + 1 + |r| + |u|..] == rest;
    NoKeyChars(rest);
  }

  lemma KeyOpens(key: Bytes, more: Bytes)
    requires SecretKey(key) && forall i :: 0 <= i < |more| ==> !EndsValue(more[i], false)
    ensures var u := key + [QUOTE, COLON, QUOTE] + more;
            u != [] && !Blank(u[0]) && u[0] != QUOTE && forall i :: 0 <= i < |u| ==> !EndsValue(u[i], false)
  {
    hide SecretKey;
    SecretChars(key);
    var u := key + [QUOTE, COLON, QUOTE] + more;
    forall i | 0 <= i < |u| ensures !EndsValue(u[i], false) {
      assert u[i] == if i < |key| then key[i] else if i < |key| + 3 then [QUOTE, COLON, QUOTE][i - |key|]
                     else more[i - |key| - 3];
    }
    assert u[0] == key[0];
  }

  lemma {:induction false} UnreachedDiffers(pre: Bytes, key: Bytes)
    requires SecretKey(key) && !Reaches(pre, key)
    ensures |Mask(Quoted(pre, key, SHORT, []))| < |Mask(Quoted(pre, key, LONG, []))|
    decreases |pre|
  {
    hide Mask, Separator, Veil, SecretKey, Inside, Quoted;
    QuotedStep(pre, key, SHORT, []);
    QuotedStep(pre, key, LONG, []);
    var sep := Separator(pre + (key + [QUOTE, COLON]));
    if sep.None? {
      MaskOne(pre, key, SHORT, []);
      MaskOne(pre, key, LONG, []);
      UnreachedDiffers(pre[1..], key);
    } else {
      var r := pre[sep.value + 1..];
      if Inside(r) {
        MaskInside(pre, key, SHORT, [], sep.value);
        MaskInside(pre, key, LONG, [], sep.value);
        UnreachedDiffers(r[Veil(r).1..], key);
      } else {
        OpenDiffers(pre, key, sep.value);
      }
    }
  }

  /** No output depends on the quoted value behind the key. */
  ghost predicate Hides(pre: Bytes, key: Bytes) {
    forall v1, v2, tail :: QuotedValue(v1) && QuotedValue(v2) ==>
      Mask(Quoted(pre, key, v1, tail)) == Mask(Quoted(pre, key, v2, tail))
  }

  /**
   The quoted form hides its value, for all values without a quote and whatever
   follows, if and only if no value of an earlier key in `pre` is still open
   where the key begins.
   */
  lemma QuotedFormHidesExactly(pre: Bytes, key: Bytes)
    requires SecretKey(key)
    ensures Hides(pre, key) <==> Reaches(pre, key)
  {
    hide Mask, SecretKey, Reaches, Quoted;
    if Reaches(pre, key) {
      forall v1, v2, tail | QuotedValue(v1) && QuotedValue(v2)
        ensures Mask(Quoted(pre, key, v1, tail)) == Mask(Quoted(pre, key, v2, tail))
      {
        ReachedHides(pre, key, v1, v2, tail);
      }
    } else {
      UnreachedDiffers(pre, key);
      assert QuotedValue(SHORT) && QuotedValue(LONG);
    }
  }

  /**
   Both cases occur: at the start of a text the quoted form hides its value;
   behind any key with an equals sign, as in `sig=sig":"x"`, it does not.
   */
  lemma BothOccur(other: Bytes, key: Bytes)
    requires SecretKey(other) && SecretKey(key)
    ensures Hides([], key) && !Hides(other + [EQUALS], key)
  {
    hide Hides, SecretKey, Separator;
    QuotedFormHidesExactly([], key);
    var pre := other + [EQUALS];
    QuotedFormHidesExactly(pre, key);
    OwnSeparator(other);
    SeparatorLocal(pre, key + [QUOTE, COLON]);
    assert pre[|other| + 1..] == [];
    assert !Inside([]);
  }
}
