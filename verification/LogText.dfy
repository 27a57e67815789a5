/** The text of the log in so many words: what is masked, how octets are escaped, and how a line is put together. */
module LogText {
  import opened Common
  import opened Sanitiser
  import LogFiles
  import Json
  import JsonNotation

  // -------------------------------------------------------- names and values

  /** The names whose values never reach the log, in any mixture of cases. */
  predicate Name(key: Bytes) {
    || SameName(key, Ascii("sb-hc-token"))
    || SameName(key, Ascii("sig"))
    || SameName(key, Ascii("password"))
    || SameName(key, Ascii("accesskey"))
    || SameName(key, Ascii("sharedaccesssignature"))
  }

  predicate AllIn(s: Bytes, letters: string) {
    forall i :: 0 <= i < |s| ==> s[i] in Ascii(letters)
  }

  predicate NoneIn(s: Bytes, letters: string) {
    forall i :: 0 <= i < |s| ==> s[i] !in Ascii(letters)
  }

  /** What precedes a value: a name, a quote behind it or not, blanks, and an equals sign or colon. */
  datatype Lead = Lead(key: Bytes, quote: bool, blanks: Bytes, colon: bool)

  predicate IsLead(l: Lead) {
    Name(l.key) && AllIn(l.blanks, " \t")
  }

  function LeadText(l: Lead): Bytes {
    l.key + (Ascii(if l.quote then "\"" else "") + (l.blanks + Ascii(if l.colon then ":" else "=")))
  }

  /** A value as it stands in a text: bare, in quotes, or in quotes that are never closed. */
  datatype Value = Bare(text: Bytes) | Quoted(text: Bytes) | Unclosed(text: Bytes)

  function ValueText(v: Value): Bytes {
    match v
    case Bare(t) => t
    case Quoted(t) => Ascii("\"") + (t + Ascii("\""))
    case Unclosed(t) => Ascii("\"") + t
  }

  /** `v` is a value when `tail` follows it. */
  predicate Fits(v: Value, tail: Bytes) {
    match v
    case Bare(t) =>
      && NoneIn(t, "&,} ") && (tail == [] || tail[0] in Ascii("&,} "))
      && (t + tail == [] || (t + tail)[0] !in Ascii(" \t\""))
    case Quoted(t) => NoneIn(t, "\"")
    case Unclosed(t) => NoneIn(t, "\"") && tail == []
  }

  /** What is written for it: nothing for an empty one, and otherwise three stars, in the quotes it has. */
  function Shown(v: Value): Bytes {
    if v.text == [] then []
    else match v
      case Bare(_) => Ascii("***")
      case Quoted(_) => Ascii("\"***\"")
      case Unclosed(_) => Ascii("\"***")
  }

  // --------------------------------------------- the characters by their names

  lemma NameIsSecret(key: Bytes)
    ensures Name(key) <==> SecretKey(key)
  {
    var names := SecretKeys();
    hide Ascii, SecretKeys, EqualsCi, SameName;
    FiveKeys();
    EqualsCiIsSameName(key, names[0]);
    EqualsCiIsSameName(key, names[1]);
    EqualsCiIsSameName(key, names[2]);
    EqualsCiIsSameName(key, names[3]);
    EqualsCiIsSameName(key, names[4]);
  }

  lemma FiveKeys()
    ensures var names := SecretKeys();
            && |names| == 5
            && names[0] == Ascii("sb-hc-token") && names[1] == Ascii("sig") && names[2] == Ascii("password")
            && names[3] == Ascii("accesskey") && names[4] == Ascii("sharedaccesssignature")
  {
  }

  lemma CharactersAre(c: byte)
    ensures c in Ascii(" \t") <==> Blank(c)
    ensures c in Ascii(" \t\"") <==> Blank(c) || c == QUOTE
    ensures c in Ascii("&,} ") <==> EndsValue(c, false)
    ensures c in Ascii("\"") <==> EndsValue(c, true)
  {
    assert Ascii(" \t") == [0x20, 9];
    assert Ascii(" \t\"") == [0x20, 9, 0x22];
    assert Ascii("&,} ") == [0x26, 0x2C, 0x7D, 0x20];
    assert Ascii("\"") == [0x22];
  }

  lemma TextsAre()
    ensures Ascii("") == [] && Ascii("\"") == [QUOTE] && Ascii(":") == [COLON] && Ascii("=") == [EQUALS]
    ensures Ascii("\"***\"") == [QUOTE] + Stars() + [QUOTE] && Ascii("\"***") == [QUOTE] + Stars()
    ensures Ascii("***") == Stars()
  {
  }

  lemma BlanksAre(b: Bytes)
    requires AllIn(b, " \t")
    ensures forall i :: 0 <= i < |b| ==> Blank(b[i])
  {
    hide Ascii, Blank;
    forall i | 0 <= i < |b| ensures Blank(b[i]) {
      CharactersAre(b[i]);
    }
  }

  lemma NoEnds(t: Bytes, quoted: bool)
    ensures NoneIn(t, if quoted then "\"" else "&,} ") <==> forall i :: 0 <= i < |t| ==> !EndsValue(t[i], quoted)
  {
    hide Ascii, EndsValue;
    forall i | 0 <= i < |t|
      ensures t[i] in Ascii("&,} ") <==> EndsValue(t[i], false)
      ensures t[i] in Ascii("\"") <==> EndsValue(t[i], true)
    {
      CharactersAre(t[i]);
    }
  }

  // ------------------------------------------------------------------ leads

  lemma {:induction false} BlanksAll(b: Bytes, x: Bytes)
    requires (forall i :: 0 <= i < |b| ==> Blank(b[i])) && (x == [] || !Blank(x[0]))
    ensures Blanks(b + x) == |b|
  {
    if b == [] {
      assert b + x == x;
    } else {
      assert (b + x)[1..] == b[1..] + x;
      BlanksAll(b[1..], x);
    }
  }

  lemma {:induction false} BlanksBlank(s: Bytes)
    ensures AllIn(s[..Blanks(s)], " \t")
  {
    hide Ascii, Blank;
    if s != [] && Blank(s[0]) {
      BlanksBlank(s[1..]);
      CharactersAre(s[0]);
      var n := Blanks(s[1..]);
      assert s[..n + 1] == [s[0]] + s[1..][..n];
    }
  }

  /** The parts of a text that starts with a lead: what is behind the name, and from the separator on. */
  lemma LeadParts(l: Lead, rest: Bytes) returns (q: nat, behind: Bytes, more: Bytes)
    requires l.key != [] && (l.blanks != [] ==> l.blanks[0] != QUOTE)
    ensures var s := LeadText(l) + rest;
            && s == l.key + behind && |l.key| + q + |l.blanks| + 1 == |LeadText(l)| <= |s|
            && s[|l.key| + q..] == l.blanks + more && more != [] && (more[0] == EQUALS || more[0] == COLON)
            && q == (if s[|l.key|] == QUOTE then 1 else 0)
            && s[|l.key| + q + |l.blanks|] == more[0]
  {
    hide Ascii;
    TextsAre();
    q := if l.quote then 1 else 0;
    more := [if l.colon then COLON else EQUALS] + rest;
    behind := (if l.quote then [QUOTE] else []) + (l.blanks + more);
    assert LeadText(l) + rest == l.key + behind;
  }

  lemma LeadFound(l: Lead, rest: Bytes)
    requires IsLead(l)
    ensures Separator(LeadText(l) + rest) == Some(|LeadText(l)| - 1)
  {
    hide Ascii, SecretKeys, SecretKey, Name, AllIn, FirstKey, Separator, Blanks, LeadText;
    NameIsSecret(l.key);
    SecretChars(l.key);
    BlanksAre(l.blanks);
    var q, behind, more := LeadParts(l, rest);
    OwnKey(l.key, behind);
    BlanksAll(l.blanks, more);
    SeparatorAt(LeadText(l) + rest, |l.key|, q, |l.blanks|);
  }

  lemma SeparatorAt(s: Bytes, key: nat, quote: nat, n: nat)
    requires 0 < key == FirstKey(s, SecretKeys()) && key + quote + n < |s|
    requires quote == if s[key] == QUOTE then 1 else 0
    requires Blanks(s[key + quote..]) == n && (s[key + quote + n] == EQUALS || s[key + quote + n] == COLON)
    ensures Separator(s) == Some(key + quote + n)
  {
    hide FirstKey, SecretKeys, Blanks;
  }

  lemma {:induction false} FirstKeyIs(s: Bytes, keys: seq<Bytes>)
    requires FirstKey(s, keys) > 0
    ensures exists i :: 0 <= i < |keys| && |keys[i]| == FirstKey(s, keys) && EqualsCi(s[..|keys[i]|], keys[i])
  {
    hide EqualsCi;
    if StartsWithCi(s, keys[0]) {
      assert EqualsCi(s[..|keys[0]|], keys[0]);
    } else {
      var rest := keys[1..];
      FirstKeyIs(s, rest);
      var i :| 0 <= i < |rest| && |rest[i]| == FirstKey(s, rest) && EqualsCi(s[..|rest[i]|], rest[i]);
      assert rest[i] == keys[i + 1];
    }
  }

  /** Where masking sees a separator, there is such a lead. */
  lemma FoundIsLead(s: Bytes) returns (l: Lead)
    requires Separator(s).Some?
    ensures IsLead(l) && LeadText(l) <= s
  {
    hide Ascii, FirstKey, SecretKeys, Name, AllIn, Blanks, EqualsCi;
    TextsAre();
    var n := FirstKey(s, SecretKeys());
    FirstKeyIs(s, SecretKeys());
    NameIsSecret(s[..n]);
    var from := n + if s[n] == QUOTE then 1 else 0;
    var at := from + Blanks(s[from..]);
    BlanksBlank(s[from..]);
    assert s[from..][..at - from] == s[from..at];
    l := Lead(s[..n], s[n] == QUOTE, s[from..at], s[at] == COLON);
    assert s[..at + 1] == s[..n] + (s[n..from] + (s[from..at] + s[at..at + 1]));
    assert s[n..from] == if l.quote then [QUOTE] else [];
    assert s[at..at + 1] == [if l.colon then COLON else EQUALS];
  }

  // ----------------------------------------------------------------- values

  lemma BareVeiled(b: Bytes, t: Bytes, tail: Bytes)
    requires AllIn(b, " \t") && Fits(Bare(t), tail)
    ensures Veil(b + (t + tail)) == (Shown(Bare(t)), |b| + |t|)
  {
    hide Ascii, Blanks, Blank, Run, EndsValue, Stars, Cover;
    CoversAre();
    TextsAre();
    BlanksAre(b);
    if t + tail != [] {
      CharactersAre((t + tail)[0]);
    }
    BlanksAll(b, t + tail);
    var s := b + (t + tail);
    assert s[|b|..] == t + tail;
    NoEnds(t, false);
    RunAll(t, false);
    RunConcat(t, tail, false);
    RunEnds(tail);
  }

  lemma RunEnds(tail: Bytes)
    requires tail == [] || tail[0] in Ascii("&,} ")
    ensures Run(tail, false) == 0
  {
    hide EndsValue, Ascii;
    if tail != [] {
      CharactersAre(tail[0]);
    }
  }

  lemma QuotedVeiled(b: Bytes, v: Value, tail: Bytes)
    requires AllIn(b, " \t") && !v.Bare? && Fits(v, tail)
    ensures Veil(b + (ValueText(v) + tail)) == (Shown(v), |b| + |ValueText(v)|)
  {
    hide Ascii, Blanks, Run, Veil, AllIn, NoneIn, EndsValue, Stars, ValueText;
    BlanksAre(b);
    NoEnds(v.text, true);
    var inQuotes, more := QuotedParts(b, v, tail);
    BlanksAll(b, inQuotes);
    RunAll(v.text, true);
    RunConcat(v.text, more, true);
    QuoteEnds(more);
    TextsAre();
    VeilAt(b + (ValueText(v) + tail), |b|, |v.text|);
  }

  lemma QuotedParts(b: Bytes, v: Value, tail: Bytes) returns (inQuotes: Bytes, more: Bytes)
    requires !v.Bare? && (v.Unclosed? ==> tail == [])
    ensures var s := b + (ValueText(v) + tail);
            && s == b + inQuotes && inQuotes != [] && inQuotes[0] == QUOTE == s[|b|] && s[|b| + 1..] == v.text + more
            && (if v.Quoted? then more != [] && more[0] == QUOTE else more == [])
            && |b| + 1 + |v.text| + |more| == |s| && |ValueText(v)| == 1 + |v.text| + if v.Quoted? then 1 else 0
  {
    hide Ascii;
    TextsAre();
    more := if v.Quoted? then [QUOTE] + tail else [];
    inQuotes := [QUOTE] + (v.text + more);
    assert ValueText(v) + tail == inQuotes;
  }

  lemma VeilAt(s: Bytes, n: nat, run: nat)
    requires Blanks(s) == n < |s| && s[n] == QUOTE && Run(s[n + 1..], true) == run
    ensures var closed := n + 1 + run < |s|;
            Veil(s) == (if run == 0 then []
                        else if closed then [QUOTE] + Stars() + [QUOTE] else [QUOTE] + Stars(),
                        n + 1 + run + if closed then 1 else 0)
  {
    hide Blanks, Run, Stars, Cover;
    CoversAre();
  }

  lemma CoversAre()
    ensures Cover(true, true) == [QUOTE] + Stars() + [QUOTE] && Cover(true, false) == [QUOTE] + Stars()
    ensures Cover(false, false) == Stars()
  {
    hide Stars;
  }

  lemma QuoteEnds(more: Bytes)
    requires more == [] || more[0] == QUOTE
    ensures Run(more, true) == 0
  {
  }

  /** A value behind a lead is never written: stars are, in the quotes it has, and masking goes on behind it. */
  lemma MaskForm(l: Lead, b: Bytes, v: Value, tail: Bytes)
    requires IsLead(l) && AllIn(b, " \t") && Fits(v, tail)
    ensures Mask(LeadText(l) + (b + (ValueText(v) + tail))) == LeadText(l) + Shown(v) + Mask(tail)
  {
    hide Mask, Separator, Veil, LeadText, IsLead, AllIn, Fits, Shown;
    var rest := b + (ValueText(v) + tail);
    var s := LeadText(l) + rest;
    MaskStep(s);
    LeadFound(l, rest);
    assert s[..|LeadText(l)|] == LeadText(l) && s[|LeadText(l)|..] == rest;
    if v.Bare? {
      BareVeiled(b, v.text, tail);
    } else {
      QuotedVeiled(b, v, tail);
    }
    assert rest[|b| + |ValueText(v)|..] == tail;
  }

  /** A text without a lead anywhere is written as it is. */
  lemma {:induction false} MaskKeeps(s: Bytes)
    requires forall l, i :: IsLead(l) && 0 <= i < |s| ==> !(LeadText(l) <= s[i..])
    ensures Mask(s) == s
  {
    hide IsLead, LeadText, Separator;
    forall i | 0 <= i < |s| ensures Separator(s[i..]).None? {
      if Separator(s[i..]).Some? {
        var l := FoundIsLead(s[i..]);
      }
    }
    MaskKeepsOthers(s);
  }

  /** A value that ends where one of `"`, `&`, `,`, `}` and the space does, and what follows it. */
  predicate Plain(v: Bytes, tail: Bytes) {
    v != [] && NoneIn(v, "\"") && NoneIn(v, "&,} ") && (tail == [] || tail[0] in Ascii("&,} "))
  }

  /**
   What is written of a message is the same for any two values behind a secret
   name and an equals sign, whatever precedes the name and follows the value.
   */
  lemma SecretsHidden(pre: Bytes, key: Bytes, v1: Bytes, v2: Bytes, tail: Bytes)
    requires Name(key) && Plain(v1, tail) && Plain(v2, tail)
    ensures Sanitised(pre + (key + Ascii("=") + v1 + tail)) == Sanitised(pre + (key + Ascii("=") + v2 + tail))
  {
    hide Ascii, Name, SecretKey, Sanitised, RawValue;
    TextsAre();
    NameIsSecret(key);
    PlainIsRaw(v1, tail);
    PlainIsRaw(v2, tail);
    SanitisedHides(pre, key, v1, v2, tail);
  }

  lemma PlainIsRaw(v: Bytes, tail: Bytes)
    requires Plain(v, tail)
    ensures RawValue(v) && Ends(tail)
  {
    hide Ascii, EndsValue;
    NoEnds(v, true);
    NoEnds(v, false);
    if tail != [] {
      CharactersAre(tail[0]);
    }
  }

  // ---------------------------------------------------------------- messages

  /** The two digits of an octet in base 16. */
  function HexPair(c: byte): Bytes {
    var digits := Ascii("0123456789ABCDEF");
    [digits[c / 16], digits[c % 16]]
  }

  lemma HexPairIs(c: byte)
    ensures HexPair(c) == [UpperHex(c / 16), UpperHex(c % 16)]
  {
    hide Ascii;
    UpperHexAt(c / 16);
    UpperHexAt(c % 16);
  }

  /** How each octet of a message is escaped: one after the other, all but control characters as they are. */
  lemma EscapeLooks(s: Bytes, c: byte)
    ensures Escape([]) == []
    ensures Escape([c] + s) ==
            (if c == 10 then Ascii("\\n")
             else if c == 13 then Ascii("\\r")
             else if c == 9 then Ascii("\\t")
             else if c < 0x20 || c == 0x7F then Ascii("\\x") + HexPair(c)
             else [c]) + Escape(s)
  {
    hide Ascii, UpperHex, HexPair;
    EscapeTexts();
    HexPairIs(c);
    assert ([c] + s)[1..] == s;
  }

  lemma EscapeTexts()
    ensures Ascii("\\n") == [0x5C, 0x6E] && Ascii("\\r") == [0x5C, 0x72] && Ascii("\\t") == [0x5C, 0x74]
    ensures Ascii("\\x") == [0x5C, 0x78]
  {
  }

  /** Messages of up to 8192 octets are written whole; of longer ones those, and how many more there were. */
  lemma SanitisedLooks(message: Bytes) returns (digits: seq<JsonNotation.Digit>)
    ensures var s := Mask(Escape(message));
            if |s| <= 8192 then Sanitised(message) == s
            else
              && Sanitised(message) ==
                 s[..8192] + Ascii(" ... [truncated ") + JsonNotation.Spelled(digits) + Ascii(" bytes]")
              && JsonNotation.Numeral(digits) == |s| - 8192 && digits != [] && digits[0] != 0
  {
    hide Mask, Escape, Ascii, Json.Digits, JsonNotation.Spelled, JsonNotation.Numeral;
    var s := Mask(Escape(message));
    digits := [];
    if |s| > 8192 {
      digits := JsonNotation.DigitsSpell(|s| - 8192);
    }
  }

  // ------------------------------------------------------------------- lines

  /** Which levels are written: all from the configured one on, and success wherever information is. */
  lemma AdmittedAre(cfg: LogFiles.Config, level: LogFiles.Level)
    ensures LogFiles.Admitted(cfg, level) <==>
            cfg.enabled &&
            match cfg.level
            case Trace => true
            case Debug => level != LogFiles.Trace
            case Info => level != LogFiles.Trace && level != LogFiles.Debug
            case Succ => level == LogFiles.Warn || level == LogFiles.Error
            case Warn => level == LogFiles.Warn || level == LogFiles.Error
            case Error => level == LogFiles.Error
  {
  }

  /** What stands between the time stamp and the text. */
  function Between(cfg: LogFiles.Config, level: LogFiles.Level): Bytes {
    if !cfg.showEventType then Ascii(" ")
    else match level
      case Trace => Ascii(" [TRACE] ")
      case Debug => Ascii(" [DEBUG] ")
      case Info => Ascii(" [INFO ] ")
      case Succ => Ascii(" [SUCC ] ")
      case Warn => Ascii(" [WARN ] ")
      case Error => Ascii(" [ERROR] ")
  }

  /** A line is the time stamp, its level if that is shown, the sanitised message, and a line feed. */
  lemma LineLooks(cfg: LogFiles.Config, e: LogFiles.Entry)
    ensures LogFiles.LineOf(cfg, e) ==
            e.stamp + (Between(cfg, e.level) + (Sanitised(e.message) + [10]))
  {
    hide Sanitised, Ascii, LogFiles.Tag, Between;
    BetweenIs(cfg, e.level);
    var text, tag := Sanitised(e.message), LogFiles.Tag(e.level);
    if cfg.showEventType {
      assert LogFiles.LineOf(cfg, e) == e.stamp + ((Ascii(" [") + tag + Ascii("] ")) + (text + [10]));
    } else {
      assert LogFiles.LineOf(cfg, e) == e.stamp + (Ascii(" ") + (text + [10]));
    }
  }

  lemma BetweenIs(cfg: LogFiles.Config, level: LogFiles.Level)
    ensures Between(cfg, level) ==
            if cfg.showEventType then Ascii(" [") + LogFiles.Tag(level) + Ascii("] ") else Ascii(" ")
  {
  }

  /** Files `1` to `n` are what `0` to `n - 1` were, and later ones are as they were. */
  ghost predicate MovedBack(before: LogFiles.Files, after: LogFiles.Files, n: nat) {
    && (forall k :: 1 <= k <= n ==> (k in after <==> k - 1 in before))
    && (forall k :: 1 <= k <= n && k in after ==> after[k] == before[k - 1])
    && (forall k :: k > n ==> (k in after <==> k in before))
    && (forall k :: k > n && k in after ==> after[k] == before[k])
  }

  lemma ShiftMoves(files: LogFiles.Files, n: nat)
    requires n >= 1
    ensures MovedBack(files, LogFiles.Shift(files, n), n) && 0 !in LogFiles.Shift(files, n)
    ensures MovedBack(files, LogFiles.Shift(files, n)[0 := []], n)
  {
    hide LogFiles.Shift;
    var f := LogFiles.Shift(files, n);
    LogFiles.ShiftAt(files, n, 0);
    forall k: nat | 1 <= k <= n
      ensures (k in f <==> k - 1 in files) && (k in f ==> f[k] == files[k - 1])
    {
      LogFiles.ShiftAt(files, n, k);
    }
    forall k: nat | k > n
      ensures (k in f <==> k in files) && (k in f ==> f[k] == files[k])
    {
      LogFiles.ShiftAt(files, n, k);
    }
  }

  /**
   What one writing does to the files. A message whose level is not admitted
   leaves them alone. Any other adds its line to the current file; if that then
   has as many megabytes as are allowed, every file moves one place further
   back, the last of them is gone, and the current one starts anew.
   */
  lemma WriteLooks(cfg: LogFiles.Config, s: LogFiles.Store, e: LogFiles.Entry)
    requires s.open ==> 0 in s.files && s.written == |s.files[0]|
    ensures var after := LogFiles.Written(cfg, s, e);
            if !LogFiles.Admitted(cfg, e.level) || !s.open then after == s
            else
              var current := s.files[0] + LogFiles.LineOf(cfg, e);
              var n := if cfg.maxRotate > 0 then cfg.maxRotate else 5;
              if cfg.maxSizeMb <= 0 || |current| < cfg.maxSizeMb * 0x10_0000
              then after == LogFiles.Store(s.files[0 := current], true, |current|)
              else
                && MovedBack(s.files[0 := current], after.files, n)
                && after.open == e.reopens && after.written == 0
                && (0 in after.files <==> e.reopens) && (e.reopens ==> after.files[0] == [])
  {
    hide LogFiles.LineOf, LogFiles.Admitted, LogFiles.Shift, MovedBack;
    if s.open {
      var files := s.files[0 := s.files[0] + LogFiles.LineOf(cfg, e)];
      ShiftMoves(files, LogFiles.Rotations(cfg));
    }
  }
}
