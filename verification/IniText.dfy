/** The file form of the INI store in so many words: each kind of line, and the text of an entry. */
module IniText {
  import opened Common
  import opened Ini

  predicate AllSpace(s: Bytes) {
    forall i :: 0 <= i < |s| ==> s[i] in SPACES
  }

  /** What `isspace` of the C locale accepts. */
  const SPACES: Bytes := [0x20, 9, 10, 11, 12, 13]

  /** Text without white space at its ends. */
  predicate Bare(s: Bytes) {
    s == [] || (s[0] !in SPACES && s[|s| - 1] !in SPACES)
  }

  /** Text between white space. */
  datatype Padded = Padded(before: Bytes, text: Bytes, after: Bytes)

  predicate IsPadded(p: Padded) {
    AllSpace(p.before) && Bare(p.text) && AllSpace(p.after)
  }

  function PaddedText(p: Padded): Bytes {
    p.before + (p.text + p.after)
  }

  /** The lines that mean something, and those that do not. */
  datatype Line =
    | Remark(before: Bytes, mark: char, rest: Bytes)
    | Header(before: Bytes, name: Padded, rest: Bytes)
    | Item(key: Padded, value: Padded)
    | Other(text: Padded)

  predicate IsLine(l: Line) {
    match l
    case Remark(before, mark, rest) => AllSpace(before) && (mark == ';' || mark == '#')
    case Header(before, name, rest) => AllSpace(before) && IsPadded(name) && Ascii("]")[0] !in PaddedText(name)
    case Item(key, value) =>
      && IsPadded(key) && IsPadded(value) && Ascii("=")[0] !in key.text
      && (key.text != [] ==> key.text[0] !in Ascii(";#["))
    case Other(p) =>
      && IsPadded(p)
      && (p.text != [] ==> if p.text[0] == Ascii("[")[0] then Ascii("]")[0] !in p.text else Ascii("=")[0] !in p.text)
  }

  function LineText(l: Line): Bytes {
    match l
    case Remark(before, mark, rest) => before + (Ascii([mark]) + rest)
    case Header(before, name, rest) => before + (Ascii("[") + (PaddedText(name) + (Ascii("]") + rest)))
    case Item(key, value) => PaddedText(key) + (Ascii("=") + PaddedText(value))
    case Other(p) => PaddedText(p)
  }

  // ------------------------------------------------------------- characters

  lemma SpaceIs(c: byte)
    ensures IsSpace(c) <==> c in SPACES
  {
  }

  lemma MarksAre()
    ensures Ascii("[") == [OPEN] && Ascii("]") == [CLOSE] && Ascii("=") == [ASSIGN]
    ensures Ascii(";") == [SEMICOLON] && Ascii("#") == [HASH] && Ascii(";#[") == [SEMICOLON, HASH, OPEN]
  {
  }

  /** Names are the same up to the case of ASCII letters. */
  lemma SameIs(a: Bytes, b: Bytes)
    ensures Same(a, b) <==> SameName(a, b)
  {
    hide SameName, Lower;
    EqualsCiIsSameName(a, b);
    if Same(a, b) {
      assert |LowerAll(a)| == |LowerAll(b)|;
      forall i | 0 <= i < |a| ensures Lower(a[i]) == Lower(b[i]) {
        assert LowerAll(a)[i] == LowerAll(b)[i];
      }
    }
  }

  // --------------------------------------------------------------- trimming

  lemma {:induction false} TrimsLeft(before: Bytes, rest: Bytes)
    requires AllSpace(before) && (rest == [] || rest[0] !in SPACES)
    ensures TrimLeft(before + rest) == rest
  {
    hide IsSpace;
    if before == [] {
      assert before + rest == rest;
      if rest != [] {
        SpaceIs(rest[0]);
      }
    } else {
      SpaceIs(before[0]);
      assert (before + rest)[1..] == before[1..] + rest;
      TrimsLeft(before[1..], rest);
    }
  }

  lemma {:induction false} TrimsRight(front: Bytes, after: Bytes)
    requires AllSpace(after) && (front == [] || front[|front| - 1] !in SPACES)
    ensures TrimRight(front + after) == front
    decreases |after|
  {
    hide IsSpace;
    if after == [] {
      assert front + after == front;
      if front != [] {
        SpaceIs(front[|front| - 1]);
      }
    } else {
      var last := |after| - 1;
      SpaceIs(after[last]);
      assert (front + after)[..|front + after| - 1] == front + after[..last];
      TrimsRight(front, after[..last]);
    }
  }

  /** Trimming at the end stops at what is not white space. */
  lemma {:induction false} TrimsBehind(front: Bytes, rest: Bytes)
    requires front != [] && front[|front| - 1] !in SPACES
    ensures TrimRight(front + rest) == front + TrimRight(rest)
    decreases |rest|
  {
    hide IsSpace;
    if rest == [] {
      assert front + rest == front;
      SpaceIs(front[|front| - 1]);
    } else {
      var last := |rest| - 1;
      assert (front + rest)[..|front + rest| - 1] == front + rest[..last];
      TrimsBehind(front, rest[..last]);
    }
  }

  lemma TrimsPadded(p: Padded)
    requires IsPadded(p)
    ensures Trimmed(PaddedText(p)) == p.text
  {
    hide SPACES, TrimRight, TrimLeft;
    if p.text == [] {
      assert PaddedText(p) == (p.before + p.after) + [];
      TrimsLeft(p.before + p.after, []);
      TrimsRight([], []);
      assert PaddedText(p) == p.before + p.after;
    } else {
      TrimsLeft(p.before, p.text + p.after);
      TrimsRight(p.text, p.after);
    }
  }

  lemma TrimsTail(before: Bytes, rest: Bytes)
    requires AllSpace(before) && rest != [] && rest[0] !in SPACES
    ensures Trimmed(before + rest) == TrimRight(rest)
  {
    hide SPACES, TrimRight, TrimLeft;
    TrimsLeft(before, rest);
  }

  lemma TrimsEnd(p: Padded) returns (q: Padded)
    requires IsPadded(p)
    ensures TrimRight(PaddedText(p)) == PaddedText(q) && IsPadded(q) && q.text == p.text
  {
    hide SPACES, TrimRight;
    if p.text == [] {
      q := Padded([], [], []);
      assert PaddedText(p) == [] + (p.before + p.after);
      TrimsRight([], p.before + p.after);
    } else {
      q := Padded(p.before, p.text, []);
      assert PaddedText(p) == (p.before + p.text) + p.after;
      TrimsRight(p.before + p.text, p.after);
    }
  }

  // ------------------------------------------------------------------ lines

  /** What a line does to the section and the entries read so far. */
  function Meaning(r: Reader, l: Line): Reader {
    match l
    case Header(_, name, _) => r.(section := name.text)
    case Item(key, value) =>
      if key.text == [] then r else r.(entries := Stored(r.entries, r.section, key.text, value.text))
    case _ => r
  }

  lemma RemarkReads(r: Reader, l: Line)
    requires l.Remark? && IsLine(l)
    ensures ReadLine(r, LineText(l)) == r
  {
    hide TrimRight, TrimLeft, SPACES;
    MarksAre();
    NoSpaces();
    var mark := Ascii([l.mark]);
    assert mark == if l.mark == ';' then Ascii(";") else Ascii("#");
    TrimsTail(l.before, mark + l.rest);
    TrimsBehind(mark, l.rest);
  }

  lemma HeaderReads(r: Reader, l: Line)
    requires l.Header? && IsLine(l)
    ensures ReadLine(r, LineText(l)) == r.(section := l.name.text)
  {
    hide TrimRight, TrimLeft, SPACES, Ascii, PaddedText, IsPadded, AllSpace;
    MarksAre();
    NoSpaces();
    var name := PaddedText(l.name);
    var front := [OPEN] + name + [CLOSE];
    assert [OPEN] + (name + ([CLOSE] + l.rest)) == front + l.rest;
    TrimsTail(l.before, front + l.rest);
    TrimsBehind(front, l.rest);
    FindsFirst([OPEN] + name, CLOSE, TrimRight(l.rest));
    TrimsPadded(l.name);
    assert (front + TrimRight(l.rest))[1..|name| + 1] == name;
  }

  lemma NoSpaces()
    ensures OPEN !in SPACES && CLOSE !in SPACES && SEMICOLON !in SPACES && HASH !in SPACES && ASSIGN !in SPACES
  {
  }

  lemma ItemReads(r: Reader, l: Line)
    requires l.Item? && IsLine(l)
    ensures ReadLine(r, LineText(l)) == Meaning(r, l)
  {
    hide TrimRight, TrimLeft, SPACES, Ascii, IsPadded, PaddedText, Stored;
    MarksAre();
    NoSpaces();
    var before, front := KeyParts(l.key);
    var value := PaddedText(l.value);
    var start := front + [ASSIGN];
    assert LineText(l) == before + (start + value);
    TrimsTail(before, start + value);
    TrimsBehind(start, value);
    var q := TrimsEnd(l.value);
    FindsFirst(front, ASSIGN, PaddedText(q));
    TrimsPadded(q);
    var s := start + PaddedText(q);
    assert s[..|front|] == front && s[|front| + 1..] == PaddedText(q);
  }

  /** The white space a line starts with, and the rest up to the equals sign. */
  lemma KeyParts(key: Padded) returns (before: Bytes, front: Bytes)
    requires IsPadded(key) && ASSIGN !in key.text
    ensures PaddedText(key) == before + front && AllSpace(before) && ASSIGN !in front
    ensures Trimmed(front) == key.text && (front == [] <==> key.text == [])
    ensures front != [] ==> front[0] == key.text[0] && front[0] !in SPACES
  {
    hide Trimmed, SPACES;
    NoSpaces();
    if key.text == [] {
      before, front := key.before + key.after, [];
      TrimsPadded(Padded([], [], []));
      assert PaddedText(Padded([], [], [])) == front;
    } else {
      before, front := key.before, key.text + key.after;
      TrimsPadded(Padded([], key.text, key.after));
      assert PaddedText(Padded([], key.text, key.after)) == front;
    }
  }

  /** Every line is read as what it means. */
  lemma LineMeans(r: Reader, l: Line)
    requires IsLine(l)
    ensures ReadLine(r, LineText(l)) == Meaning(r, l)
  {
    hide ReadLine, LineText, Ascii, IsPadded;
    match l
    case Remark(_, _, _) => RemarkReads(r, l);
    case Header(_, _, _) => HeaderReads(r, l);
    case Item(_, _) => ItemReads(r, l);
    case Other(p) => OtherReads(r, l);
  }

  lemma OtherReads(r: Reader, l: Line)
    requires l.Other? && IsLine(l)
    ensures ReadLine(r, LineText(l)) == r
  {
    hide Trimmed, Ascii, IsPadded;
    MarksAre();
    TrimsPadded(l.text);
  }

  function FileText(lines: seq<Line>): Bytes {
    if lines == [] then [] else FileText(lines[..|lines| - 1]) + LineText(lines[|lines| - 1]) + [10]
  }

  function MeaningAll(r: Reader, lines: seq<Line>): Reader {
    if lines == [] then r else Meaning(MeaningAll(r, lines[..|lines| - 1]), lines[|lines| - 1])
  }

  /** A file is read line by line, from no section and no entries, whether or not its last line is ended. */
  lemma FileMeans(lines: seq<Line>, last: Line)
    requires forall l :: l in lines + [last] ==> IsLine(l) && 10 !in LineText(l)
    ensures Loaded(FileText(lines)) == MeaningAll(Reader([], []), lines).entries
    ensures Loaded(FileText(lines) + LineText(last)) == Meaning(MeaningAll(Reader([], []), lines), last).entries
  {
    hide ReadLines, ReadLine, IsLine, Meaning, LineText;
    var start := Reader([], []);
    assert last in lines + [last];
    assert forall l :: l in lines ==> l in lines + [last];
    LinesRead(start, lines, []);
    assert FileText(lines) + [] == FileText(lines);
    NoLines(MeaningAll(start, lines));
    LinesRead(start, lines, LineText(last));
    LastRead(MeaningAll(start, lines), LineText(last));
    LineMeans(MeaningAll(start, lines), last);
  }

  lemma NoLines(r: Reader)
    ensures ReadLines(r, []) == r && ReadLine(r, []) == r
  {
  }

  lemma LastRead(r: Reader, line: Bytes)
    requires 10 !in line
    ensures ReadLines(r, line) == ReadLine(r, line)
  {
    hide ReadLine;
    NoLines(r);
  }

  lemma {:induction false} LinesRead(r: Reader, lines: seq<Line>, rest: Bytes)
    requires forall l :: l in lines ==> IsLine(l) && 10 !in LineText(l)
    ensures ReadLines(r, FileText(lines) + rest) == ReadLines(MeaningAll(r, lines), rest)
    decreases |lines|
  {
    hide ReadLines, ReadLine, IsLine, Meaning, LineText;
    if lines == [] {
      assert FileText(lines) + rest == rest;
    } else {
      var front, last := lines[..|lines| - 1], lines[|lines| - 1];
      var line := LineText(last);
      assert FileText(lines) + rest == FileText(front) + (line + [10] + rest);
      LinesRead(r, front, line + [10] + rest);
      LineReads(MeaningAll(r, front), line, rest);
      LineMeans(MeaningAll(r, front), last);
    }
  }

  /** What is written for a store of one entry. */
  lemma SavedLooks(e: Entry)
    ensures Saved([e]) ==
            Ascii("[") + e.section + Ascii("]") + [10] + e.key + Ascii("=") + e.value + [10] + [10]
  {
    hide Ascii, Saved;
    MarksAre();
    OneBlock(e);
    var front := Heading(e.section);
    assert front == [OPEN] + e.section + [CLOSE] + [10];
    assert front + ItemText(e) == front + e.key + [ASSIGN] + e.value + [10];
  }

  lemma OneBlock(e: Entry)
    ensures Saved([e]) == Heading(e.section) + ItemText(e) + [10]
  {
    hide Same, Heading, ItemText;
    SameAsItself(e.section);
    var entries := [e];
    assert entries[..0] == [] && Sections(entries) == [] + [e.section];
    assert Items(entries, e.section) == [] + ItemText(e);
    assert [e.section][..0] == [];
    assert Blocks(entries, [e.section]) == [] + Block(entries, e.section);
  }
}
