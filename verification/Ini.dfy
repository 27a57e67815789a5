/** The INI store: an ordered list of entries, looked up without regard to case, with its file form. */
module Ini {
  import opened Common

  const NEWLINE: byte := 10
  const OPEN: byte := 0x5B
  const CLOSE: byte := 0x5D
  const ASSIGN: byte := 0x3D
  const SEMICOLON: byte := 0x3B
  const HASH: byte := 0x23

  datatype Entry = Entry(section: Bytes, key: Bytes, value: Bytes)

  function LowerAll(s: Bytes): (r: Bytes)
    ensures |r| == |s|
  {
    seq(|s|, i requires 0 <= i < |s| => Lower(s[i]))
  }

  /** Equality up to case. */
  predicate Same(a: Bytes, b: Bytes) {
    LowerAll(a) == LowerAll(b)
  }

  method IEquals(a: Bytes, b: Bytes) returns (r: bool)
    ensures r == Same(a, b)
  {
    if |a| != |b| {
      return false;
    }
    for i := 0 to |a|
      invariant forall j :: 0 <= j < i ==> Lower(a[j]) == Lower(b[j])
    {
      if Lower(a[i]) != Lower(b[i]) {
        assert LowerAll(a)[i] != LowerAll(b)[i];
        return false;
      }
    }
    return true;
  }

  // ------------------------------------------------------------- the store

  predicate Matches(e: Entry, section: Bytes, key: Bytes) {
    Same(e.section, section) && Same(e.key, key)
  }

  /** The place of the first entry for a section and key, or the number of entries. */
  function Place(entries: seq<Entry>, section: Bytes, key: Bytes): (n: nat)
    ensures n <= |entries|
    ensures forall i :: 0 <= i < n ==> !Matches(entries[i], section, key)
    ensures n < |entries| ==> Matches(entries[n], section, key)
  {
    if entries == [] || Matches(entries[0], section, key) then 0 else 1 + Place(entries[1..], section, key)
  }

  function Stored(entries: seq<Entry>, section: Bytes, key: Bytes, value: Bytes): seq<Entry> {
    var n := Place(entries, section, key);
    if n < |entries| then entries[n := entries[n].(value := value)]
    else entries + [Entry(section, key, value)]
  }

  /** No two entries for the same section and key. */
  ghost predicate Unique(entries: seq<Entry>) {
    forall i, j :: 0 <= i < j < |entries| ==> !Matches(entries[i], entries[j].section, entries[j].key)
  }

  /** The store as a map; the first entry for a key counts. */
  function AsMap(entries: seq<Entry>): map<(Bytes, Bytes), Bytes> {
    if entries == [] then map[]
    else AsMap(entries[1..])[(LowerAll(entries[0].section), LowerAll(entries[0].key)) := entries[0].value]
  }

  /** Setting a value keeps entries unique. */
  lemma StoredIsUnique(entries: seq<Entry>, section: Bytes, key: Bytes, value: Bytes)
    requires Unique(entries)
    ensures Unique(Stored(entries, section, key, value))
  {
    hide LowerAll;
  }

  /** Setting a value is a map update. */
  lemma {:induction false} StoredUpdatesMap(entries: seq<Entry>, section: Bytes, key: Bytes, value: Bytes)
    ensures AsMap(Stored(entries, section, key, value)) == AsMap(entries)[(LowerAll(section), LowerAll(key)) := value]
  {
    hide LowerAll;
    var n := Place(entries, section, key);
    var s := Stored(entries, section, key, value);
    if entries == [] {
      assert s[1..] == [];
    } else if n == 0 {
      assert s[1..] == entries[1..];
    } else {
      StoredUpdatesMap(entries[1..], section, key, value);
      assert s[1..] == Stored(entries[1..], section, key, value);
    }
  }

  /** A sequence of `set` calls, each given as the entry it would add. */
  function StoredAll(entries: seq<Entry>, calls: seq<Entry>): seq<Entry> {
    if calls == [] then entries
    else
      var last := calls[|calls| - 1];
      Stored(StoredAll(entries, calls[..|calls| - 1]), last.section, last.key, last.value)
  }

  function Updates(m: map<(Bytes, Bytes), Bytes>, calls: seq<Entry>): map<(Bytes, Bytes), Bytes> {
    if calls == [] then m
    else
      var last := calls[|calls| - 1];
      Updates(m, calls[..|calls| - 1])[(LowerAll(last.section), LowerAll(last.key)) := last.value]
  }

  /** Every sequence of `set` calls keeps entries unique and refines the same map updates. */
  lemma {:induction false} StoresRefineUpdates(entries: seq<Entry>, calls: seq<Entry>)
    requires Unique(entries)
    ensures Unique(StoredAll(entries, calls))
    ensures AsMap(StoredAll(entries, calls)) == Updates(AsMap(entries), calls)
    decreases |calls|
  {
    hide Unique, Stored, AsMap, LowerAll;
    if calls != [] {
      var front, last := calls[..|calls| - 1], calls[|calls| - 1];
      StoresRefineUpdates(entries, front);
      StoredIsUnique(StoredAll(entries, front), last.section, last.key, last.value);
      StoredUpdatesMap(StoredAll(entries, front), last.section, last.key, last.value);
    }
  }

  /** Looking up finds what the map holds. */
  lemma {:induction false} PlaceReadsMap(entries: seq<Entry>, section: Bytes, key: Bytes)
    ensures var n, id := Place(entries, section, key), (LowerAll(section), LowerAll(key));
            if n < |entries| then id in AsMap(entries) && AsMap(entries)[id] == entries[n].value
            else id !in AsMap(entries)
  {
    hide LowerAll;
    if entries != [] && !Matches(entries[0], section, key) {
      PlaceReadsMap(entries[1..], section, key);
    }
  }

  // --------------------------------------------------------------- reading

  /** `isspace` of the C locale. */
  predicate IsSpace(c: byte) {
    c == 0x20 || 9 <= c <= 13
  }

  function TrimLeft(s: Bytes): (r: Bytes)
    ensures |r| <= |s|
  {
    if s != [] && IsSpace(s[0]) then TrimLeft(s[1..]) else s
  }

  function TrimRight(s: Bytes): (r: Bytes)
    ensures |r| <= |s|
  {
    if s != [] && IsSpace(s[|s| - 1]) then TrimRight(s[..|s| - 1]) else s
  }

  function Trimmed(s: Bytes): Bytes {
    TrimRight(TrimLeft(s))
  }

  method Trim(text: Bytes) returns (s: Bytes)
    ensures s == Trimmed(text)
  {
    s := text;
    while s != [] && IsSpace(s[0])
      invariant TrimLeft(s) == TrimLeft(text)
      decreases |s|
    {
      s := s[1..];
    }
    while s != [] && IsSpace(s[|s| - 1])
      invariant TrimRight(s) == Trimmed(text)
      decreases |s|
    {
      s := s[..|s| - 1];
    }
  }

  /** Where `c` first occurs in `s`. */
  function FindByte(s: Bytes, c: byte): (r: Option<nat>)
    ensures r.Some? ==> r.value < |s| && s[r.value] == c && c !in s[..r.value]
    ensures r.None? ==> c !in s
  {
    if s == [] then None
    else if s[0] == c then Some(0)
    else
      match FindByte(s[1..], c)
      case None => None
      case Some(n) =>
        assert s[..n + 1] == [s[0]] + s[1..][..n];
        Some(n + 1)
  }

  /** The section being read and the entries so far. */
  datatype Reader = Reader(section: Bytes, entries: seq<Entry>)

  function ReadLine(r: Reader, raw: Bytes): Reader {
    var s := Trimmed(raw);
    if s == [] || s[0] == SEMICOLON || s[0] == HASH then r
    else if s[0] == OPEN then
      match FindByte(s, CLOSE)
      case None => r
      case Some(close) => r.(section := Trimmed(s[1..close]))
    else
      match FindByte(s, ASSIGN)
      case None => r
      case Some(eq) =>
        var key, val := Trimmed(s[..eq]), Trimmed(s[eq + 1..]);
        if key == [] then r else r.(entries := Stored(r.entries, r.section, key, val))
  }

  function ReadLines(r: Reader, text: Bytes): Reader
    decreases |text|
  {
    if text == [] then r else
    match FindByte(text, NEWLINE)
    case None => ReadLine(r, text)
    case Some(nl) => ReadLines(ReadLine(r, text[..nl]), text[nl + 1..])
  }

  function Loaded(text: Bytes): seq<Entry> {
    ReadLines(Reader([], []), text).entries
  }

  // --------------------------------------------------------------- writing

  predicate Seen(entries: seq<Entry>, i: nat)
    requires i < |entries|
  {
    exists j :: 0 <= j < i && Same(entries[j].section, entries[i].section)
  }

  /** The sections, each as it is spelled where it is first seen. */
  function Sections(entries: seq<Entry>): seq<Bytes> {
    if entries == [] then []
    else
      var last := |entries| - 1;
      Sections(entries[..last]) + if Seen(entries, last) then [] else [entries[last].section]
  }

  function ItemText(e: Entry): Bytes {
    e.key + [ASSIGN] + e.value + [NEWLINE]
  }

  /** The lines of one section's entries. */
  function Items(entries: seq<Entry>, section: Bytes): Bytes {
    if entries == [] then []
    else
      var last := entries[|entries| - 1];
      Items(entries[..|entries| - 1], section) + if Same(last.section, section) then ItemText(last) else []
  }

  function Heading(section: Bytes): Bytes {
    [OPEN] + section + [CLOSE, NEWLINE]
  }

  function Block(entries: seq<Entry>, section: Bytes): Bytes {
    Heading(section) + Items(entries, section) + [NEWLINE]
  }

  function Blocks(entries: seq<Entry>, sections: seq<Bytes>): Bytes {
    if sections == [] then []
    else
      var last := |sections| - 1;
      Blocks(entries, sections[..last]) + Block(entries, sections[last])
  }

  function Saved(entries: seq<Entry>): Bytes {
    Blocks(entries, Sections(entries))
  }

  // -------------------------------------------------------- the class itself

  class Store {
    var entries: seq<Entry>

    constructor ()
      ensures entries == []
    {
      entries := [];
    }

    /** The place of an entry, or none. */
    method Find(section: Bytes, key: Bytes) returns (r: Option<nat>)
      ensures r == if Place(entries, section, key) < |entries| then Some(Place(entries, section, key)) else None
    {
      hide LowerAll;
      for i := 0 to |entries|
        invariant Place(entries, section, key) == i + Place(entries[i..], section, key)
      {
        assert entries[i..][1..] == entries[i + 1..];
        var e := entries[i];
        var sameSection := IEquals(e.section, section);
        var sameKey := IEquals(e.key, key);
        if sameSection && sameKey {
          return Some(i);
        }
      }
      assert entries[|entries|..] == [];
      return None;
    }

    /** What the map holds for a key. */
    method Get(section: Bytes, key: Bytes) returns (r: Option<Bytes>)
      ensures var id := (LowerAll(section), LowerAll(key));
              r == if id in AsMap(entries) then Some(AsMap(entries)[id]) else None
    {
      hide LowerAll, AsMap;
      PlaceReadsMap(entries, section, key);
      var e := Find(section, key);
      if e.None? {
        return None;
      }
      return Some(entries[e.value].value);
    }

    /** Updates the map, and keeps entries unique and in their order. */
    method Set(section: Bytes, key: Bytes, value: Bytes)
      modifies this
      ensures entries == Stored(old(entries), section, key, value)
      ensures AsMap(entries) == old(AsMap(entries))[(LowerAll(section), LowerAll(key)) := value]
      ensures old(Unique(entries)) ==> Unique(entries)
    {
      hide LowerAll, AsMap, Unique;
      StoredUpdatesMap(entries, section, key, value);
      if Unique(entries) {
        StoredIsUnique(entries, section, key, value);
      }
      var e := Find(section, key);
      if e.Some? {
        entries := entries[e.value := entries[e.value].(value := value)];
        return;
      }
      entries := entries + [Entry(section, key, value)];
    }

    /** Reads the text of a file into an empty store. */
    method Load(text: Bytes)
      requires entries == []
      modifies this
      ensures entries == Loaded(text)
      ensures Unique(entries)
    {
      hide ReadLine, AsMap, Unique;
      var section: Bytes := [];
      var pos := 0;
      assert text[0..] == text;
      EmptyStore();
      while pos < |text|
        invariant pos <= |text|
        invariant ReadLines(Reader(section, entries), text[pos..]).entries == Loaded(text)
        invariant Unique(entries)
      {
        var nl := FindByte(text[pos..], NEWLINE);
        var raw := if nl.None? then text[pos..] else text[pos..][..nl.value];
        ghost var rest := if nl.None? then [] else text[pos..][nl.value + 1..];
        ghost var before := Reader(section, entries);
        pos := if nl.None? then |text| else pos + nl.value + 1;
        assert text[pos..] == rest;
        section := LoadLine(section, raw);
        assert Reader(section, entries) == ReadLine(before, raw);
      }
      assert text[pos..] == [];
    }

    method LoadLine(section: Bytes, raw: Bytes) returns (next: Bytes)
      modifies this
      ensures Reader(next, entries) == ReadLine(Reader(section, old(entries)), raw)
      ensures old(Unique(entries)) ==> Unique(entries)
    {
      hide Trimmed, Stored, AsMap, Unique;
      next := section;
      var s := Trim(raw);
      if s == [] || s[0] == SEMICOLON || s[0] == HASH {
        return;
      }
      if s[0] == OPEN {
        var close := FindByte(s, CLOSE);
        if close.Some? {
          next := Trim(s[1..close.value]);
        }
      } else {
        var eq := FindByte(s, ASSIGN);
        if eq.Some? {
          var key := Trim(s[..eq.value]);
          var val := Trim(s[eq.value + 1..]);
          if key != [] {
            Set(section, key, val);
          }
        }
      }
    }

    /** The text of the file this store is saved to. */
    method Save() returns (out: Bytes)
      ensures out == Saved(entries)
    {
      hide Block, Same, Seen;
      out := [];
      assert Sections(entries[..0]) == [];
      for i := 0 to |entries|
        invariant out == Blocks(entries, Sections(entries[..i]))
      {
        SectionsStep(entries, i);
        var seen := SeenBefore(i);
        if seen {
          assert Sections(entries[..i]) + [] == Sections(entries[..i]);
          continue;
        }
        var block := SaveBlock(entries[i].section);
        ghost var before, section := Sections(entries[..i]), entries[i].section;
        assert (before + [section])[..|before|] == before;
        out := out + block;
      }
      assert entries[..|entries|] == entries;
    }

    method SeenBefore(i: nat) returns (seen: bool)
      requires i < |entries|
      ensures seen == Seen(entries, i)
    {
      hide Same;
      seen := false;
      for j := 0 to i
        invariant !seen && forall k :: 0 <= k < j ==> !Same(entries[k].section, entries[i].section)
      {
        seen := IEquals(entries[j].section, entries[i].section);
        if seen {
          return;
        }
      }
    }

    method SaveBlock(section: Bytes) returns (out: Bytes)
      ensures out == Block(entries, section)
    {
      hide Same;
      out := [OPEN];
      out := out + section;
      out := out + [CLOSE, NEWLINE];
      assert out == Heading(section);
      assert entries[..0] == [];
      for i := 0 to |entries|
        invariant out == Heading(section) + Items(entries[..i], section)
      {
        assert entries[..i + 1][..i] == entries[..i];
        var same := IEquals(entries[i].section, section);
        if same {
          assert out + entries[i].key + [ASSIGN] + entries[i].value + [NEWLINE] == out + ItemText(entries[i]);
          out := out + entries[i].key;
          out := out + [ASSIGN];
          out := out + entries[i].value;
          out := out + [NEWLINE];
        }
      }
      assert entries[..|entries|] == entries;
      out := out + [NEWLINE];
    }
  }

  lemma EmptyStore()
    ensures Unique([]) && Sections([]) == []
  {
  }

  lemma SectionsStep(entries: seq<Entry>, i: nat)
    requires i < |entries|
    ensures Sections(entries[..i + 1]) == Sections(entries[..i]) + if Seen(entries, i) then [] else [entries[i].section]
  {
    var front := entries[..i + 1];
    assert front[..i] == entries[..i];
    assert Seen(front, i) <==> Seen(entries, i);
  }

  // ------------------------------------------------------------ round trip

  /** Text without blanks at either end. */
  predicate Neat(s: Bytes) {
    s == [] || (!IsSpace(s[0]) && !IsSpace(s[|s| - 1]))
  }

  predicate SavableSection(s: Bytes) {
    Neat(s) && NEWLINE !in s && CLOSE !in s
  }

  /** An entry whose form in the file can be read back. */
  predicate Savable(e: Entry) {
    && SavableSection(e.section)
    && Neat(e.key) && NEWLINE !in e.key && ASSIGN !in e.key
    && e.key != [] && e.key[0] != SEMICOLON && e.key[0] != HASH && e.key[0] != OPEN
    && Neat(e.value) && NEWLINE !in e.value
  }

  /** The entries of one section, under one spelling of it. */
  function Group(entries: seq<Entry>, section: Bytes): seq<Entry> {
    if entries == [] then []
    else
      var last := entries[|entries| - 1];
      Group(entries[..|entries| - 1], section) +
      if Same(last.section, section) then [last.(section := section)] else []
  }

  function Groups(entries: seq<Entry>, sections: seq<Bytes>): seq<Entry> {
    if sections == [] then []
    else
      var last := |sections| - 1;
      Groups(entries, sections[..last]) + Group(entries, sections[last])
  }

  /** The entries, section by section. */
  function Regrouped(entries: seq<Entry>): seq<Entry> {
    Groups(entries, Sections(entries))
  }

  lemma NeatIsTrimmed(s: Bytes)
    requires Neat(s)
    ensures Trimmed(s) == s
  {
  }

  lemma {:induction false} FindsFirst(a: Bytes, c: byte, b: Bytes)
    requires c !in a
    ensures FindByte(a + [c] + b, c) == Some(|a|)
  {
    var s := a + [c] + b;
    assert s[|a|] == c;
    if a != [] {
      assert s[1..] == a[1..] + [c] + b;
      FindsFirst(a[1..], c, b);
    }
  }

  /** A complete line is read before the rest. */
  lemma LineReads(r: Reader, line: Bytes, rest: Bytes)
    requires NEWLINE !in line
    ensures ReadLines(r, line + [NEWLINE] + rest) == ReadLines(ReadLine(r, line), rest)
  {
    hide ReadLine;
    var text := line + [NEWLINE] + rest;
    FindsFirst(line, NEWLINE, rest);
    assert text[..|line|] == line && text[|line| + 1..] == rest;
  }

  lemma BlankReads(r: Reader)
    ensures ReadLine(r, []) == r && ReadLines(r, []) == r
  {
  }

  lemma HeadingReads(r: Reader, e: Entry)
    requires Savable(e)
    ensures ReadLine(r, [OPEN] + e.section + [CLOSE]) == r.(section := e.section)
  {
    hide Trimmed;
    var s := [OPEN] + e.section + [CLOSE];
    NeatIsTrimmed(s);
    assert s == ([OPEN] + e.section) + [CLOSE] + [];
    assert CLOSE !in [OPEN] + e.section;
    FindsFirst([OPEN] + e.section, CLOSE, []);
    assert s[1..|e.section| + 1] == e.section;
    NeatIsTrimmed(e.section);
  }

  lemma ItemReads(r: Reader, e: Entry)
    requires Savable(e)
    ensures ReadLine(r, e.key + [ASSIGN] + e.value) ==
            r.(entries := Stored(r.entries, r.section, e.key, e.value))
  {
    hide Trimmed, Stored;
    var s := e.key + [ASSIGN] + e.value;
    assert s[|s| - 1] == if e.value == [] then ASSIGN else e.value[|e.value| - 1];
    NeatIsTrimmed(s);
    FindsFirst(e.key, ASSIGN, e.value);
    assert s[..|e.key|] == e.key && s[|e.key| + 1..] == e.value;
    NeatIsTrimmed(e.key);
    NeatIsTrimmed(e.value);
  }

  ghost predicate AllSavable(entries: seq<Entry>) {
    forall i :: 0 <= i < |entries| ==> Savable(entries[i])
  }

  /** None of `acc` is of this section. */
  ghost predicate Absent(acc: seq<Entry>, section: Bytes) {
    forall i :: 0 <= i < |acc| ==> !Same(acc[i].section, section)
  }

  /** Entries of a group come from the entries it is taken from. */
  lemma {:induction false} GroupFrom(entries: seq<Entry>, section: Bytes, i: nat) returns (j: nat)
    requires i < |Group(entries, section)|
    ensures j < |entries| && Same(entries[j].section, section)
    ensures Group(entries, section)[i] == entries[j].(section := section)
  {
    hide Same;
    var last := |entries| - 1;
    if i < |Group(entries[..last], section)| {
      j := GroupFrom(entries[..last], section, i);
    } else {
      j := last;
    }
  }

  lemma PlaceAtEnd(acc: seq<Entry>, section: Bytes, key: Bytes)
    requires forall i :: 0 <= i < |acc| ==> !Matches(acc[i], section, key)
    ensures Place(acc, section, key) == |acc|
  {
  }

  /** The last entry of a section is new to what has been read. */
  lemma LastIsNew(acc: seq<Entry>, entries: seq<Entry>, section: Bytes)
    requires entries != [] && Unique(entries) && Absent(acc, section)
    requires Same(entries[|entries| - 1].section, section)
    ensures var last := |entries| - 1;
            var before := acc + Group(entries[..last], section);
            Stored(before, section, entries[last].key, entries[last].value) ==
            before + [entries[last].(section := section)]
  {
    hide LowerAll;
    var last := |entries| - 1;
    var group := Group(entries[..last], section);
    forall i | 0 <= i < |acc + group| ensures !Matches((acc + group)[i], section, entries[last].key) {
      if i >= |acc| {
        var j := GroupFrom(entries[..last], section, i - |acc|);
        assert !Matches(entries[j], entries[last].section, entries[last].key);
      }
    }
    PlaceAtEnd(acc + group, section, entries[last].key);
  }

  /** Reading the lines of a section appends its group. */
  lemma {:induction false} ItemsRead(acc: seq<Entry>, entries: seq<Entry>, section: Bytes, rest: Bytes)
    requires Unique(entries) && AllSavable(entries) && Absent(acc, section)
    ensures ReadLines(Reader(section, acc), Items(entries, section) + rest) ==
            ReadLines(Reader(section, acc + Group(entries, section)), rest)
    decreases |entries|
  {
    hide ReadLines, Same, Matches, Savable, Absent, Stored;
    if entries == [] {
      assert [] + rest == rest && acc + [] == acc;
    } else {
      var front, last := entries[..|entries| - 1], entries[|entries| - 1];
      var group := Group(front, section);
      if Same(last.section, section) {
        ItemsRead(acc, front, section, ItemText(last) + rest);
        Reassociate(Items(front, section), ItemText(last), rest);
        LastIsNew(acc, entries, section);
        OneItem(Reader(section, acc + group), last, rest);
        Reassociate(acc, group, [last.(section := section)]);
      } else {
        ItemsRead(acc, front, section, rest);
        assert Items(front, section) + [] == Items(front, section) && group + [] == group;
      }
    }
  }

  lemma OneItem(r: Reader, e: Entry, rest: Bytes)
    requires Savable(e)
    ensures ReadLines(r, ItemText(e) + rest) ==
            ReadLines(r.(entries := Stored(r.entries, r.section, e.key, e.value)), rest)
  {
    hide ReadLines, ReadLine, Stored, Neat;
    var line := e.key + [ASSIGN] + e.value;
    LineReads(r, line, rest);
    ItemReads(r, e);
    assert ItemText(e) == line + [NEWLINE];
  }

  lemma BlockReads(r: Reader, entries: seq<Entry>, e: Entry, rest: Bytes)
    requires Unique(entries) && AllSavable(entries) && Savable(e) && Absent(r.entries, e.section)
    ensures ReadLines(r, Block(entries, e.section) + rest) ==
            ReadLines(Reader(e.section, r.entries + Group(entries, e.section)), rest)
  {
    hide ReadLines, ReadLine, Unique, AllSavable, Absent, Neat;
    var heading, items := [OPEN] + e.section + [CLOSE], Items(entries, e.section);
    BlockText(entries, e.section, rest);
    LineReads(r, heading, items + ([NEWLINE] + rest));
    HeadingReads(r, e);
    ItemsRead(r.entries, entries, e.section, [NEWLINE] + rest);
    var r2 := Reader(e.section, r.entries + Group(entries, e.section));
    assert [NEWLINE] + rest == [] + [NEWLINE] + rest;
    LineReads(r2, [], rest);
    BlankReads(r2);
  }

  lemma BlockText(entries: seq<Entry>, section: Bytes, rest: Bytes)
    ensures Block(entries, section) + rest ==
            [OPEN] + section + [CLOSE] + [NEWLINE] + (Items(entries, section) + ([NEWLINE] + rest))
  {
    var items := Items(entries, section);
    assert Heading(section) == [OPEN] + section + [CLOSE] + [NEWLINE];
    Reassociate(Heading(section) + items, [NEWLINE], rest);
    Reassociate(Heading(section), items, [NEWLINE] + rest);
  }

  ghost predicate OfSome(entries: seq<Entry>, section: Bytes) {
    exists i :: 0 <= i < |entries| && entries[i].section == section
  }

  /** Sections that are pairwise different, each that of some entry. */
  ghost predicate Listed(entries: seq<Entry>, sections: seq<Bytes>) {
    && (forall k :: 0 <= k < |sections| ==> OfSome(entries, sections[k]))
    && (forall k, l :: 0 <= k < l < |sections| ==> !Same(sections[k], sections[l]))
  }

  lemma ListedFront(entries: seq<Entry>, sections: seq<Bytes>)
    requires sections != [] && Listed(entries, sections)
    ensures Listed(entries, sections[..|sections| - 1])
  {
    hide Same, OfSome;
  }

  lemma GroupSections(entries: seq<Entry>, section: Bytes, i: nat)
    requires i < |Group(entries, section)|
    ensures Group(entries, section)[i].section == section
  {
    var _ := GroupFrom(entries, section, i);
  }

  /** Groups of other sections hold nothing of this one. */
  lemma {:induction false} GroupsAbsent(entries: seq<Entry>, sections: seq<Bytes>, section: Bytes)
    requires forall k :: 0 <= k < |sections| ==> !Same(sections[k], section)
    ensures Absent(Groups(entries, sections), section)
  {
    hide Same, Group;
    if sections != [] {
      var last := |sections| - 1;
      GroupsAbsent(entries, sections[..last], section);
      var group := Group(entries, sections[last]);
      forall i | 0 <= i < |group| ensures group[i].section == sections[last] {
        GroupSections(entries, sections[last], i);
      }
    }
  }

  lemma {:induction false} BlocksRead(entries: seq<Entry>, sections: seq<Bytes>, rest: Bytes) returns (section: Bytes)
    requires Unique(entries) && AllSavable(entries) && Listed(entries, sections)
    ensures ReadLines(Reader([], []), Blocks(entries, sections) + rest) ==
            ReadLines(Reader(section, Groups(entries, sections)), rest)
  {
    hide ReadLines, Same, Block, Group, Savable, Unique, Absent;
    if sections == [] {
      section := [];
      assert [] + rest == rest;
    } else {
      var last := |sections| - 1;
      var i :| 0 <= i < |entries| && entries[i].section == sections[last];
      var block := Block(entries, sections[last]);
      ListedFront(entries, sections);
      var before := BlocksRead(entries, sections[..last], block + rest);
      Reassociate(Blocks(entries, sections[..last]), block, rest);
      GroupsAbsent(entries, sections[..last], sections[last]);
      BlockReads(Reader(before, Groups(entries, sections[..last])), entries, entries[i], rest);
      section := sections[last];
    }
  }

  ghost predicate Covers(sections: seq<Bytes>, section: Bytes) {
    exists k :: 0 <= k < |sections| && Same(sections[k], section)
  }

  /** The sections are those of the entries, once each. */
  lemma {:induction false} SectionsListed(entries: seq<Entry>)
    ensures Listed(entries, Sections(entries))
    ensures forall i :: 0 <= i < |entries| ==> Covers(Sections(entries), entries[i].section)
  {
    hide Same, OfSome, Covers, Seen;
    if entries != [] {
      var last := |entries| - 1;
      var front, all := Sections(entries[..last]), Sections(entries);
      SectionsListed(entries[..last]);
      forall k | 0 <= k < |all| ensures OfSome(entries, all[k]) {
        if k < |front| {
          OfSomeMore(entries[..last], entries, front[k]);
        } else {
          OwnSection(entries, last);
        }
      }
      if !Seen(entries, last) {
        forall k | 0 <= k < |front| ensures !Same(front[k], entries[last].section) {
          Unseen(entries, front[k]);
        }
      }
      forall i | 0 <= i < last ensures Covers(all, entries[i].section) {
        assert entries[..last][i] == entries[i];
        CoversMore(front, all, entries[i].section);
      }
      LastCovered(entries, front, all);
    }
  }

  lemma OfSomeMore(a: seq<Entry>, b: seq<Entry>, section: Bytes)
    requires a <= b && OfSome(a, section)
    ensures OfSome(b, section)
  {
  }

  lemma OwnSection(entries: seq<Entry>, i: nat)
    requires i < |entries|
    ensures OfSome(entries, entries[i].section)
  {
  }

  lemma Unseen(entries: seq<Entry>, section: Bytes)
    requires entries != [] && !Seen(entries, |entries| - 1)
    requires OfSome(entries[..|entries| - 1], section)
    ensures !Same(section, entries[|entries| - 1].section)
  {
    hide Same;
  }

  lemma CoversMore(a: seq<Bytes>, b: seq<Bytes>, section: Bytes)
    requires a <= b && Covers(a, section)
    ensures Covers(b, section)
  {
    hide Same;
  }

  lemma LastCovered(entries: seq<Entry>, front: seq<Bytes>, all: seq<Bytes>)
    requires entries != []
    requires forall i :: 0 <= i < |entries| - 1 ==> Covers(front, entries[i].section)
    requires all == front + if Seen(entries, |entries| - 1) then [] else [entries[|entries| - 1].section]
    ensures Covers(all, entries[|entries| - 1].section)
  {
    hide LowerAll;
    var last := |entries| - 1;
    if Seen(entries, last) {
      var j :| 0 <= j < last && Same(entries[j].section, entries[last].section);
      var k :| 0 <= k < |front| && Same(front[k], entries[j].section);
      assert Same(all[k], entries[last].section);
    } else {
      assert Same(all[|front|], entries[last].section);
    }
  }

  /** The text saved for any savable store reads back as its entries, section by section. */
  lemma SavedLoads(entries: seq<Entry>)
    requires Unique(entries) && AllSavable(entries)
    ensures Loaded(Saved(entries)) == Regrouped(entries)
  {
    hide ReadLines, Blocks, Groups, Sections, AllSavable, Unique, Listed;
    SectionsListed(entries);
    var section := BlocksRead(entries, Sections(entries), []);
    assert Saved(entries) + [] == Saved(entries);
    BlankReads(Reader(section, Regrouped(entries)));
  }

  // --------------------------------------------- the map and the text survive

  lemma {:induction false} GroupConcat(a: seq<Entry>, b: seq<Entry>, section: Bytes)
    ensures Group(a + b, section) == Group(a, section) + Group(b, section)
    decreases |b|
  {
    hide Same;
    if b == [] {
      assert a + b == a;
    } else {
      var last := |b| - 1;
      assert (a + b)[..|a + b| - 1] == a + b[..last];
      GroupConcat(a, b[..last], section);
    }
  }

  lemma {:induction false} GroupOfAbsent(entries: seq<Entry>, section: Bytes)
    requires Absent(entries, section)
    ensures Group(entries, section) == []
  {
    hide Same;
    if entries != [] {
      GroupOfAbsent(entries[..|entries| - 1], section);
    }
  }

  lemma SameAsItself(s: Bytes)
    ensures Same(s, s)
  {
  }

  lemma {:induction false} GroupOfOwn(entries: seq<Entry>, section: Bytes)
    requires forall i :: 0 <= i < |entries| ==> entries[i].section == section
    ensures Group(entries, section) == entries
  {
    hide Same;
    if entries != [] {
      var last := entries[|entries| - 1];
      GroupOfOwn(entries[..|entries| - 1], section);
      assert Same(last.section, section) by { SameAsItself(section); }
      assert last.(section := section) == last;
    }
  }

  lemma GroupOfGroup(entries: seq<Entry>, section: Bytes)
    ensures Group(Group(entries, section), section) == Group(entries, section)
  {
    forall i | 0 <= i < |Group(entries, section)| ensures Group(entries, section)[i].section == section {
      GroupSections(entries, section, i);
    }
    GroupOfOwn(Group(entries, section), section);
  }

  lemma GroupAbsent(entries: seq<Entry>, section: Bytes, other: Bytes)
    requires !Same(other, section)
    ensures Absent(Group(entries, section), other)
  {
    hide LowerAll, Group;
    forall i | 0 <= i < |Group(entries, section)| ensures Group(entries, section)[i].section == section {
      GroupSections(entries, section, i);
    }
  }

  /** Regrouping leaves each group as it is. */
  lemma {:induction false} GroupOfGroups(entries: seq<Entry>, sections: seq<Bytes>, k: nat)
    requires k < |sections| && Listed(entries, sections)
    ensures Group(Groups(entries, sections), sections[k]) == Group(entries, sections[k])
  {
    hide Same, Group, Absent;
    var last := |sections| - 1;
    var front, own := Groups(entries, sections[..last]), Group(entries, sections[last]);
    GroupConcat(front, own, sections[k]);
    ListedFront(entries, sections);
    if k < last {
      GroupOfGroups(entries, sections[..last], k);
      GroupAbsent(entries, sections[last], sections[k]);
      GroupOfAbsent(own, sections[k]);
    } else {
      GroupsAbsent(entries, sections[..last], sections[last]);
      GroupOfAbsent(front, sections[last]);
      GroupOfGroup(entries, sections[last]);
    }
  }

  /** A group that is new adds its section. */
  lemma {:induction false} SectionsConcat(a: seq<Entry>, g: seq<Entry>, section: Bytes)
    requires g != [] && Absent(a, section) && forall i :: 0 <= i < |g| ==> g[i].section == section
    ensures Sections(a + g) == Sections(a) + [section]
    decreases |g|
  {
    hide LowerAll;
    var last := |g| - 1;
    var all := a + g;
    assert all[..|all| - 1] == a + g[..last];
    if last == 0 {
      assert a + g[..last] == a;
      assert !Seen(all, |a|);
    } else {
      SectionsConcat(a, g[..last], section);
      assert Same(all[|a|].section, all[|all| - 1].section);
      assert Seen(all, |all| - 1);
    }
  }

  lemma {:induction false} GroupNotEmpty(entries: seq<Entry>, section: Bytes, i: nat)
    requires i < |entries| && entries[i].section == section
    ensures Group(entries, section) != []
  {
    if i < |entries| - 1 {
      GroupNotEmpty(entries[..|entries| - 1], section, i);
    }
  }

  lemma {:induction false} SectionsOfGroups(entries: seq<Entry>, sections: seq<Bytes>)
    requires Listed(entries, sections)
    ensures Sections(Groups(entries, sections)) == sections
  {
    hide Same, Group, Absent, Sections;
    if sections == [] {
      EmptyStore();
    } else {
      var last := |sections| - 1;
      var i :| 0 <= i < |entries| && entries[i].section == sections[last];
      ListedFront(entries, sections);
      SectionsOfGroups(entries, sections[..last]);
      GroupsAbsent(entries, sections[..last], sections[last]);
      var group := Group(entries, sections[last]);
      GroupNotEmpty(entries, sections[last], i);
      forall j | 0 <= j < |group| ensures group[j].section == sections[last] {
        GroupSections(entries, sections[last], j);
      }
      SectionsConcat(Groups(entries, sections[..last]), group, sections[last]);
    }
  }

  function ItemTexts(entries: seq<Entry>): Bytes {
    if entries == [] then [] else ItemTexts(entries[..|entries| - 1]) + ItemText(entries[|entries| - 1])
  }

  /** The lines of a section are those of its group. */
  lemma {:induction false} ItemsOfGroup(entries: seq<Entry>, section: Bytes)
    ensures Items(entries, section) == ItemTexts(Group(entries, section))
  {
    hide Same;
    if entries != [] {
      var front, last := entries[..|entries| - 1], entries[|entries| - 1];
      ItemsOfGroup(front, section);
      if Same(last.section, section) {
        var group := Group(entries, section);
        assert group[..|group| - 1] == Group(front, section);
      } else {
        assert Group(front, section) + [] == Group(front, section);
      }
    }
  }

  lemma BlockSame(a: seq<Entry>, b: seq<Entry>, section: Bytes)
    requires Group(a, section) == Group(b, section)
    ensures Block(a, section) == Block(b, section)
  {
    hide Items, Group, ItemTexts;
    ItemsOfGroup(a, section);
    ItemsOfGroup(b, section);
  }

  lemma {:induction false} BlocksSame(a: seq<Entry>, b: seq<Entry>, sections: seq<Bytes>)
    requires forall k :: 0 <= k < |sections| ==> Group(a, sections[k]) == Group(b, sections[k])
    ensures Blocks(a, sections) == Blocks(b, sections)
  {
    hide Block, Group;
    if sections != [] {
      var last := |sections| - 1;
      BlocksSame(a, b, sections[..last]);
      BlockSame(a, b, sections[last]);
    }
  }

  /** Saving what was loaded from a saved store gives the same text, octet for octet. */
  lemma SaveIsStable(entries: seq<Entry>)
    requires Unique(entries) && AllSavable(entries)
    ensures Saved(Loaded(Saved(entries))) == Saved(entries)
  {
    hide Loaded, Blocks, Groups, Sections, AllSavable, Unique, Listed, Group;
    var sections := Sections(entries);
    SavedLoads(entries);
    SectionsListed(entries);
    SectionsOfGroups(entries, sections);
    forall k | 0 <= k < |sections| ensures Group(Groups(entries, sections), sections[k]) == Group(entries, sections[k]) {
      GroupOfGroups(entries, sections, k);
    }
    BlocksSame(Groups(entries, sections), entries, sections);
  }

  /** What the map holds, some entry holds. */
  lemma {:induction false} MapKeys(entries: seq<Entry>, id: (Bytes, Bytes)) returns (i: nat)
    requires id in AsMap(entries)
    ensures i < |entries| && id == (LowerAll(entries[i].section), LowerAll(entries[i].key))
  {
    if id == (LowerAll(entries[0].section), LowerAll(entries[0].key)) {
      i := 0;
    } else {
      var j := MapKeys(entries[1..], id);
      i := j + 1;
    }
  }

  lemma {:induction false} MapHolds(entries: seq<Entry>, i: nat)
    requires Unique(entries) && i < |entries|
    ensures var id := (LowerAll(entries[i].section), LowerAll(entries[i].key));
            id in AsMap(entries) && AsMap(entries)[id] == entries[i].value
  {
    hide LowerAll;
    if i > 0 {
      MapHolds(entries[1..], i - 1);
      assert !Matches(entries[0], entries[i].section, entries[i].key);
    }
  }

  lemma {:induction false} ReadLinesUnique(r: Reader, text: Bytes)
    requires Unique(r.entries)
    ensures Unique(ReadLines(r, text).entries)
    decreases |text|
  {
    hide Unique, ReadLine;
    if text != [] {
      var nl := FindByte(text, NEWLINE);
      if nl.None? {
        ReadLineUnique(r, text);
      } else {
        ReadLineUnique(r, text[..nl.value]);
        ReadLinesUnique(ReadLine(r, text[..nl.value]), text[nl.value + 1..]);
      }
    }
  }

  lemma ReadLineUnique(r: Reader, raw: Bytes)
    requires Unique(r.entries)
    ensures Unique(ReadLine(r, raw).entries)
  {
    hide Unique, Trimmed, Stored;
    var s := Trimmed(raw);
    var eq := FindByte(s, ASSIGN);
    if eq.Some? {
      StoredIsUnique(r.entries, r.section, Trimmed(s[..eq.value]), Trimmed(s[eq.value + 1..]));
    }
  }

  lemma {:induction false} InGroup(entries: seq<Entry>, section: Bytes, i: nat) returns (j: nat)
    requires i < |entries| && Same(entries[i].section, section)
    ensures j < |Group(entries, section)| && Group(entries, section)[j] == entries[i].(section := section)
  {
    hide Same;
    var last := |entries| - 1;
    if i < last {
      j := InGroup(entries[..last], section, i);
    } else {
      j := |Group(entries[..last], section)|;
    }
  }

  lemma {:induction false} InGroups(entries: seq<Entry>, sections: seq<Bytes>, k: nat, j: nat) returns (m: nat)
    requires k < |sections| && j < |Group(entries, sections[k])|
    ensures m < |Groups(entries, sections)| && Groups(entries, sections)[m] == Group(entries, sections[k])[j]
  {
    hide Group;
    var last := |sections| - 1;
    if k < last {
      m := InGroups(entries, sections[..last], k, j);
    } else {
      m := |Groups(entries, sections[..last])| + j;
    }
  }

  lemma {:induction false} GroupsFrom(entries: seq<Entry>, sections: seq<Bytes>, m: nat) returns (k: nat, i: nat)
    requires m < |Groups(entries, sections)|
    ensures k < |sections| && i < |entries| && Same(entries[i].section, sections[k])
    ensures Groups(entries, sections)[m] == entries[i].(section := sections[k])
  {
    hide Group, Same;
    var last := |sections| - 1;
    var front := |Groups(entries, sections[..last])|;
    if m < front {
      k, i := GroupsFrom(entries, sections[..last], m);
    } else {
      k := last;
      i := GroupFrom(entries, sections[last], m - front);
    }
  }

  /** A lookup that finds a value before saving finds it after loading. */
  lemma LookupSurvives(entries: seq<Entry>, id: (Bytes, Bytes))
    requires Unique(entries) && Unique(Regrouped(entries)) && id in AsMap(entries)
    ensures id in AsMap(Regrouped(entries)) && AsMap(Regrouped(entries))[id] == AsMap(entries)[id]
  {
    hide LowerAll, Groups, Group, Sections, AsMap, Unique;
    var sections := Sections(entries);
    var i := MapKeys(entries, id);
    MapHolds(entries, i);
    SectionsListed(entries);
    assert Covers(sections, entries[i].section);
    var k :| 0 <= k < |sections| && Same(sections[k], entries[i].section);
    var j := InGroup(entries, sections[k], i);
    var m := InGroups(entries, sections, k, j);
    MapHolds(Regrouped(entries), m);
  }

  /** And nothing is found after loading that was not found before saving. */
  lemma LookupWasThere(entries: seq<Entry>, id: (Bytes, Bytes))
    requires Unique(entries) && id in AsMap(Regrouped(entries))
    ensures id in AsMap(entries)
  {
    hide LowerAll, Groups, Group, Sections, AsMap, Unique;
    var m := MapKeys(Regrouped(entries), id);
    var k, i := GroupsFrom(entries, Sections(entries), m);
    MapHolds(entries, i);
  }

  /** Saving and loading keeps the map, in any mixture of cases, duplicates of sections included. */
  lemma SavableSurvives(entries: seq<Entry>)
    requires Unique(entries) && AllSavable(entries)
    ensures AsMap(Loaded(Saved(entries))) == AsMap(entries)
  {
    hide AsMap, Regrouped, Unique, AllSavable, Saved;
    SavedLoads(entries);
    LoadedUnique(Saved(entries));
    var after := Regrouped(entries);
    forall id | id in AsMap(entries) ensures id in AsMap(after) && AsMap(after)[id] == AsMap(entries)[id] {
      LookupSurvives(entries, id);
    }
    forall id | id in AsMap(after) ensures id in AsMap(entries) {
      LookupWasThere(entries, id);
    }
  }

  lemma LoadedUnique(text: Bytes)
    ensures Unique(Loaded(text))
  {
    hide Unique;
    EmptyStore();
    ReadLinesUnique(Reader([], []), text);
  }

  // ------------------------------------------- what a file can hold at all

  lemma {:induction false} TrimmedLeft(s: Bytes)
    ensures var r := TrimLeft(s); (r == [] || !IsSpace(r[0])) && (forall c :: c in r ==> c in s)
    ensures s != [] && !IsSpace(s[0]) ==> TrimLeft(s) == s
  {
    if s != [] && IsSpace(s[0]) {
      TrimmedLeft(s[1..]);
    }
  }

  lemma {:induction false} TrimmedRight(s: Bytes)
    ensures var r := TrimRight(s); (r == [] || (!IsSpace(r[|r| - 1]) && r[0] == s[0])) && (forall c :: c in r ==> c in s)
  {
    if s != [] && IsSpace(s[|s| - 1]) {
      TrimmedRight(s[..|s| - 1]);
    }
  }

  lemma TrimmedIsNeat(s: Bytes)
    ensures Neat(Trimmed(s)) && (forall c :: c in Trimmed(s) ==> c in s)
    ensures s != [] && !IsSpace(s[0]) && Trimmed(s) != [] ==> Trimmed(s)[0] == s[0]
  {
    TrimmedLeft(s);
    TrimmedRight(TrimLeft(s));
  }

  /** Whatever a line holds, the section and the entry it gives can be saved. */
  lemma ReadLineSavable(r: Reader, raw: Bytes)
    requires NEWLINE !in raw && SavableSection(r.section) && AllSavable(r.entries)
    ensures SavableSection(ReadLine(r, raw).section) && AllSavable(ReadLine(r, raw).entries)
  {
    hide Trimmed, Stored;
    var s := Trimmed(raw);
    TrimmedIsNeat(raw);
    var close, eq := FindByte(s, CLOSE), FindByte(s, ASSIGN);
    if s != [] && s[0] == OPEN && close.Some? {
      TrimmedIsNeat(s[1..close.value]);
    } else if s != [] && eq.Some? {
      TrimmedIsNeat(s[..eq.value]);
      TrimmedIsNeat(s[eq.value + 1..]);
      var e := Entry(r.section, Trimmed(s[..eq.value]), Trimmed(s[eq.value + 1..]));
      if e.key != [] && s[0] != SEMICOLON && s[0] != HASH && s[0] != OPEN {
        assert e.key[0] in e.key;
        StoredSavable(r.entries, e);
      }
    }
  }

  lemma StoredSavable(entries: seq<Entry>, e: Entry)
    requires AllSavable(entries) && Savable(e)
    ensures AllSavable(Stored(entries, e.section, e.key, e.value))
  {
  }

  lemma {:induction false} ReadLinesSavable(r: Reader, text: Bytes)
    requires SavableSection(r.section) && AllSavable(r.entries)
    ensures AllSavable(ReadLines(r, text).entries)
    decreases |text|
  {
    hide AllSavable, SavableSection, ReadLine;
    if text != [] {
      var nl := FindByte(text, NEWLINE);
      if nl.None? {
        ReadLineSavable(r, text);
      } else {
        ReadLineSavable(r, text[..nl.value]);
        ReadLinesSavable(ReadLine(r, text[..nl.value]), text[nl.value + 1..]);
      }
    }
  }

  /** Case folding touches none of the characters that matter. */
  lemma LowerKeeps(c: byte)
    ensures IsSpace(Lower(c)) <==> IsSpace(c)
    ensures forall d :: d in [NEWLINE, OPEN, CLOSE, ASSIGN, SEMICOLON, HASH] ==> (Lower(c) == d <==> c == d)
  {
  }

  lemma SameHolds(a: Bytes, b: Bytes, d: byte)
    requires Same(a, b) && d in [NEWLINE, OPEN, CLOSE, ASSIGN, SEMICOLON, HASH]
    ensures d in a <==> d in b
    ensures a != [] ==> (a[0] == d <==> b[0] == d)
  {
    assert |a| == |LowerAll(a)| == |b|;
    forall i | 0 <= i < |a| ensures a[i] == d <==> b[i] == d {
      assert LowerAll(a)[i] == LowerAll(b)[i];
      LowerKeeps(a[i]);
      LowerKeeps(b[i]);
    }
  }

  lemma SameNeat(a: Bytes, b: Bytes)
    requires Same(a, b)
    ensures |a| == |b| && (Neat(a) <==> Neat(b))
  {
    assert |a| == |LowerAll(a)| == |b|;
    if a != [] {
      var last := |a| - 1;
      assert LowerAll(a)[0] == LowerAll(b)[0] && LowerAll(a)[last] == LowerAll(b)[last];
      LowerKeeps(a[0]);
      LowerKeeps(b[0]);
      LowerKeeps(a[last]);
      LowerKeeps(b[last]);
    }
  }

  /** The file may bring back another spelling, but it cannot be savable if the first is not. */
  lemma SavableUpToCase(e: Entry, f: Entry)
    requires Savable(e) && Matches(e, f.section, f.key) && e.value == f.value
    ensures Savable(f)
  {
    hide Same, Neat;
    SameNeat(e.section, f.section);
    SameNeat(e.key, f.key);
    SameHolds(e.section, f.section, NEWLINE);
    SameHolds(e.section, f.section, CLOSE);
    SameHolds(e.key, f.key, NEWLINE);
    SameHolds(e.key, f.key, ASSIGN);
    SameHolds(e.key, f.key, SEMICOLON);
    SameHolds(e.key, f.key, HASH);
    SameHolds(e.key, f.key, OPEN);
  }

  /** What survives saving and loading can be saved. */
  lemma SurvivorSavable(entries: seq<Entry>, i: nat)
    requires Unique(entries) && i < |entries| && AsMap(Loaded(Saved(entries))) == AsMap(entries)
    ensures Savable(entries[i])
  {
    hide AsMap, Unique, Savable, Saved, LowerAll;
    var after := Loaded(Saved(entries));
    assert AllSavable([]) && SavableSection([]);
    ReadLinesSavable(Reader([], []), Saved(entries));
    LoadedUnique(Saved(entries));
    MapHolds(entries, i);
    var m := MapKeys(after, (LowerAll(entries[i].section), LowerAll(entries[i].key)));
    MapHolds(after, m);
    SavableUpToCase(after[m], entries[i]);
  }

  /**
   Saving and loading keeps the map if and only if every entry is savable: names
   and values without blanks at their ends or line feeds, no `]` in a section, no
   `=` in a key, and no key that is empty or starts like a comment or a heading.
   */
  lemma MapSurvives(entries: seq<Entry>)
    requires Unique(entries)
    ensures AsMap(Loaded(Saved(entries))) == AsMap(entries) <==> AllSavable(entries)
    ensures Unique(Loaded(Saved(entries)))
  {
    hide AsMap, Unique, Savable, Saved;
    LoadedUnique(Saved(entries));
    if AllSavable(entries) {
      SavableSurvives(entries);
    } else if AsMap(Loaded(Saved(entries))) == AsMap(entries) {
      forall i | 0 <= i < |entries| ensures Savable(entries[i]) {
        SurvivorSavable(entries, i);
      }
    }
  }

  /** So a key with `=` in it, which `set` takes, is lost. */
  lemma AssignInKeyIsLost(value: Bytes)
    ensures var entries := Stored([], [], [ASSIGN], value); AsMap(Loaded(Saved(entries))) != AsMap(entries)
  {
    hide AsMap, Saved;
    var entries := Stored([], [], [ASSIGN], value);
    assert entries == [Entry([], [ASSIGN], value)];
    MapSurvives(entries);
    assert ASSIGN in entries[0].key && !Savable(entries[0]);
  }
}
