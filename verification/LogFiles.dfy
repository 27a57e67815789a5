/** The log file and its rotation: what is written, what is kept, and how big it grows. */
module LogFiles {
  import opened Common
  import Sanitiser

  datatype Level = Trace | Debug | Info | Succ | Warn | Error

  datatype Config = Config(level: Level, enabled: bool, showEventType: bool, maxSizeMb: int, maxRotate: int)

  function Rank(level: Level): nat {
    match level
    case Trace => 0
    case Debug => 1
    case Info => 2
    case Succ => 3
    case Warn => 4
    case Error => 5
  }

  /** A message of success counts as information; the level configured counts as it is. */
  function Effective(level: Level): Level {
    if level == Succ then Info else level
  }

  function Tag(level: Level): Bytes {
    match level
    case Trace => Ascii("TRACE")
    case Debug => Ascii("DEBUG")
    case Info => Ascii("INFO ")
    case Succ => Ascii("SUCC ")
    case Warn => Ascii("WARN ")
    case Error => Ascii("ERROR")
  }

  predicate Admitted(cfg: Config, level: Level) {
    cfg.enabled && Rank(Effective(level)) >= Rank(cfg.level)
  }

  /** One line of the log, from its time stamp to its line feed. */
  function Line(cfg: Config, level: Level, stamp: Bytes, text: Bytes): Bytes {
    if cfg.showEventType then stamp + Ascii(" [") + Tag(level) + Ascii("] ") + text + [Sanitiser.NEWLINE]
    else stamp + Ascii(" ") + text + [Sanitiser.NEWLINE]
  }

  function Rotations(cfg: Config): (n: nat)
    ensures n >= 1
  {
    if cfg.maxRotate > 0 then cfg.maxRotate else 5
  }

  /** The size at which the file is rotated, if it ever is. */
  function Limit(cfg: Config): Option<nat> {
    if cfg.maxSizeMb <= 0 then None else Some(cfg.maxSizeMb * 1024 * 1024)
  }

  /** The log's files: 0 is the one being written, `k` its `k`-th predecessor. */
  type Files = map<nat, Bytes>

  /** The files, whether the current one is open, and its size as accounted. */
  datatype Store = Store(files: Files, open: bool, written: nat)

  function At(files: Files, k: nat): Bytes {
    if k in files then files[k] else []
  }

  /** What reading the files from the `n`-th predecessor to the current one gives. */
  function Whole(files: Files, n: nat): Bytes {
    At(files, n) + if n == 0 then [] else Whole(files, n - 1)
  }

  // ------------------------------------------------------------ one writing

  /** Every file one place further back; the last is gone, and so is the current one. */
  function Shift(files: Files, n: nat): Files {
    (map k | k in files && k > n :: files[k]) + (map k: nat | 1 <= k <= n && Precedes(files, k) :: files[k - 1])
  }

  predicate Precedes(files: Files, k: nat) {
    k >= 1 && k - 1 in files
  }

  function Rotated(cfg: Config, s: Store, reopens: bool): Store {
    if !s.open || Limit(cfg).None? || s.written < Limit(cfg).value then s else
    var moved := Shift(s.files, Rotations(cfg));
    Store(if reopens then moved[0 := []] else moved, reopens, 0)
  }

  function Put(cfg: Config, s: Store, line: Bytes, reopens: bool): Store {
    if !s.open then s
    else Rotated(cfg, Store(s.files[0 := At(s.files, 0) + line], true, s.written + |line|), reopens)
  }

  /** A call to the logger, and whether a rotation it causes can open the next file. */
  datatype Entry = Entry(level: Level, stamp: Bytes, message: Bytes, reopens: bool)

  function LineOf(cfg: Config, e: Entry): Bytes {
    Line(cfg, e.level, e.stamp, Sanitiser.Sanitised(e.message))
  }

  function Written(cfg: Config, s: Store, e: Entry): Store {
    if Admitted(cfg, e.level) then Put(cfg, s, LineOf(cfg, e), e.reopens) else s
  }

  // ------------------------------------------------------------- whole runs

  function WriteAll(cfg: Config, s: Store, entries: seq<Entry>): Store
    decreases |entries|
  {
    if entries == [] then s else WriteAll(cfg, Written(cfg, s, entries[0]), entries[1..])
  }

  /** Everything that reached the files over such a run. */
  function History(cfg: Config, s: Store, entries: seq<Entry>): Bytes
    decreases |entries|
  {
    if entries == [] then []
    else
      (if Admitted(cfg, entries[0].level) && s.open then LineOf(cfg, entries[0]) else []) +
      History(cfg, Written(cfg, s, entries[0]), entries[1..])
  }

  /** The store once the logger has opened its file among those it finds. */
  function Opened(files: Files): Store {
    Store(files[0 := At(files, 0)], true, |At(files, 0)|)
  }

  predicate IsSuffix(a: Bytes, b: Bytes) {
    |a| <= |b| && a == b[|b| - |a|..]
  }

  /** Sizes: no line is longer than `longest`; the current file stays below `base`. */
  datatype Sizes = Sizes(base: nat, longest: nat)

  /** What holds after every writing; `all` is everything ever written. */
  ghost predicate Sound(cfg: Config, s: Store, all: Bytes, z: Sizes) {
    var n := Rotations(cfg);
    && (s.open ==> 0 in s.files && s.written == |s.files[0]|)
    && IsSuffix(Whole(s.files, n), all)
    && (Limit(cfg).Some? ==> Limit(cfg).value <= z.base)
    && (Limit(cfg).Some? && s.open ==> |At(s.files, 0)| < z.base)
    && (Limit(cfg).Some? ==> forall k :: k in s.files && k <= n ==> |s.files[k]| < z.base + z.longest)
  }

  /** The rotated files are numbered from 1, without gaps, up to `n` at most. */
  ghost predicate Gapless(files: Files, n: nat) {
    && (forall k :: k in files ==> k <= n)
    && (forall j, k :: k in files && 1 <= j <= k ==> j in files)
  }

  ghost predicate AllFull(files: Files, limit: nat) {
    forall k :: k in files && k >= 1 ==> |files[k]| >= limit
  }

  lemma ShiftGapless(files: Files, n: nat)
    requires n >= 1 && 0 in files && Gapless(files, n)
    ensures Gapless(Shift(files, n), n) && Gapless(Shift(files, n)[0 := []], n)
    ensures (forall k :: 1 <= k <= n ==> k in files) || n !in files
    ensures (forall k :: 1 <= k <= n ==> k in files) ==> forall k :: 1 <= k <= n ==> k in Shift(files, n)
  {
    var moved := Shift(files, n);
    forall j, k | k in moved && 1 <= j <= k ensures j in moved {
      assert Precedes(files, k) ==> j == 1 || j - 1 in files;
      assert Precedes(files, j);
    }
    forall k | 1 <= k <= n && forall k :: 1 <= k <= n ==> k in files ensures k in moved {
      assert Precedes(files, k);
    }
  }

  lemma ShiftAllFull(files: Files, n: nat, limit: nat)
    requires n >= 1 && Gapless(files, n) && AllFull(files, limit) && 0 in files && |files[0]| >= limit
    ensures AllFull(Shift(files, n), limit) && AllFull(Shift(files, n)[0 := []], limit)
  {
    var moved := Shift(files, n);
    forall k | k in moved && k >= 1 ensures |moved[k]| >= limit {
      assert k <= n && moved[k] == files[k - 1];
    }
  }

  /** What holds besides when there were no files to begin with. */
  ghost predicate Tidy(cfg: Config, s: Store, all: Bytes) {
    var n := Rotations(cfg);
    && Gapless(s.files, n)
    && (Limit(cfg).Some? ==> AllFull(s.files, Limit(cfg).value))
    && (Limit(cfg).Some? && s.open ==> |At(s.files, 0)| < Limit(cfg).value)
    && (Whole(s.files, n) == all || (Limit(cfg).Some? && forall k :: 1 <= k <= n ==> k in s.files))
  }

  lemma {:induction false} WholeShifted(files: Files, n: nat, m: nat)
    requires m <= n
    ensures Whole(Shift(files, n), m) == if m == 0 then [] else Whole(files, m - 1)
  {
    if m > 0 {
      WholeShifted(files, n, m - 1);
    }
  }

  lemma {:induction false} WholeSame(a: Files, b: Files, n: nat)
    requires forall k: nat :: k <= n ==> At(a, k) == At(b, k)
    ensures Whole(a, n) == Whole(b, n)
  {
    if n > 0 {
      WholeSame(a, b, n - 1);
    }
  }

  /** Shifting loses the oldest file and nothing else. */
  lemma ShiftDropsOldest(files: Files, n: nat)
    requires n >= 1
    ensures Whole(files, n) == At(files, n) + Whole(Shift(files, n)[0 := []], n)
    ensures Whole(files, n) == At(files, n) + Whole(Shift(files, n), n)
  {
    WholeShifted(files, n, n);
    WholeSame(Shift(files, n)[0 := []], Shift(files, n), n);
  }

  lemma {:induction false} WholeAppended(files: Files, n: nat, line: Bytes)
    ensures Whole(files[0 := At(files, 0) + line], n) == Whole(files, n) + line
  {
    var more := files[0 := At(files, 0) + line];
    if n > 0 {
      WholeAppended(files, n - 1, line);
      assert At(more, n) == At(files, n);
      Reassociate(At(files, n), Whole(files, n - 1), line);
    }
  }

  lemma SuffixLonger(a: Bytes, b: Bytes, line: Bytes)
    requires IsSuffix(a, b)
    ensures IsSuffix(a + line, b + line)
  {
    assert (b + line)[|b| - |a|..] == b[|b| - |a|..] + line;
  }

  lemma SuffixShorter(whole: Bytes, b: Bytes, lost: Bytes, a: Bytes)
    requires IsSuffix(whole, b) && whole == lost + a
    ensures IsSuffix(a, b)
  {
    assert b[|b| - |a|..] == b[|b| - |whole|..][|lost|..];
    assert whole[|lost|..] == a;
  }

  /** `Sound`, but for the size of the current file, which a line may just have taken past its bound. */
  lemma RotateSound(cfg: Config, s: Store, all: Bytes, z: Sizes, reopens: bool)
    requires Sound(cfg, s.(open := false), all, z) && s.open && 0 in s.files && s.written == |s.files[0]|
    ensures Sound(cfg, Rotated(cfg, s, reopens), all, z)
  {
    hide Whole, IsSuffix;
    var n := Rotations(cfg);
    ShiftDropsOldest(s.files, n);
    SuffixShorter(Whole(s.files, n), all, At(s.files, n), Whole(Shift(s.files, n), n));
    SuffixShorter(Whole(s.files, n), all, At(s.files, n), Whole(Shift(s.files, n)[0 := []], n));
  }

  lemma RotateTidy(cfg: Config, s: Store, all: Bytes, reopens: bool)
    requires s.open ==> 0 in s.files && s.written == |s.files[0]|
    requires Tidy(cfg, s.(open := false), all)
    ensures Tidy(cfg, Rotated(cfg, s, reopens), all)
  {
    hide Whole, Shift, Gapless, AllFull;
    if s.open && Limit(cfg).Some? && s.written >= Limit(cfg).value {
      var n := Rotations(cfg);
      var moved := Shift(s.files, n);
      ShiftDropsOldest(s.files, n);
      ShiftGapless(s.files, n);
      ShiftAllFull(s.files, n, Limit(cfg).value);
      if n !in s.files {
        assert [] + Whole(moved, n) == Whole(moved, n) && [] + Whole(moved[0 := []], n) == Whole(moved[0 := []], n);
      }
    }
  }

  lemma PutKeeps(cfg: Config, s: Store, line: Bytes, reopens: bool, all: Bytes, z: Sizes)
    requires Sound(cfg, s, all, z) && |line| <= z.longest
    ensures Sound(cfg, Put(cfg, s, line, reopens), all + (if s.open then line else []), z)
    ensures Tidy(cfg, s, all) ==> Tidy(cfg, Put(cfg, s, line, reopens), all + (if s.open then line else []))
  {
    hide Whole, IsSuffix, Rotated;
    var n := Rotations(cfg);
    if s.open {
      WholeAppended(s.files, n, line);
      SuffixLonger(Whole(s.files, n), all, line);
      var s1 := Store(s.files[0 := At(s.files, 0) + line], true, s.written + |line|);
      RotateSound(cfg, s1, all + line, z, reopens);
      if Tidy(cfg, s, all) {
        RotateTidy(cfg, s1, all + line, reopens);
      }
    } else {
      assert all + [] == all;
    }
  }

  // --------------------------------------------------------- what runs keep

  ghost predicate Short(cfg: Config, entries: seq<Entry>, longest: nat) {
    forall i :: 0 <= i < |entries| ==> |LineOf(cfg, entries[i])| <= longest
  }

  lemma {:induction false} WriteAllKeeps(cfg: Config, s: Store, entries: seq<Entry>, all: Bytes, z: Sizes)
    requires Sound(cfg, s, all, z) && Short(cfg, entries, z.longest)
    ensures Sound(cfg, WriteAll(cfg, s, entries), all + History(cfg, s, entries), z)
    ensures Tidy(cfg, s, all) ==> Tidy(cfg, WriteAll(cfg, s, entries), all + History(cfg, s, entries))
    decreases |entries|
  {
    hide Sound, Tidy, Put, LineOf;
    if entries == [] {
      assert all + [] == all;
    } else {
      var e := entries[0];
      PutKeeps(cfg, s, LineOf(cfg, e), e.reopens, all, z);
      var reached := if Admitted(cfg, e.level) && s.open then LineOf(cfg, e) else [];
      assert all + [] == all;
      var s1 := Written(cfg, s, e);
      WriteAllKeeps(cfg, s1, entries[1..], all + reached, z);
      assert (all + reached) + History(cfg, s1, entries[1..]) == all + (reached + History(cfg, s1, entries[1..]));
    }
  }

  /**
   Whatever files the logger finds and whatever is logged, reading the files
   from the oldest to the current one gives a suffix of what they held and all
   that was written since; and with rotation on, no file outgrows the limit (or
   the file found) by more than a line.
   */
  lemma RunKeepsSuffix(cfg: Config, files: Files, entries: seq<Entry>, z: Sizes)
    requires Short(cfg, entries, z.longest)
    requires Limit(cfg).Some? ==> Limit(cfg).value <= z.base && |At(files, 0)| < z.base
    requires forall k :: k in files && k <= Rotations(cfg) ==> |files[k]| < z.base + z.longest
    ensures var s := WriteAll(cfg, Opened(files), entries);
            var n := Rotations(cfg);
            && IsSuffix(Whole(s.files, n), Whole(files, n) + History(cfg, Opened(files), entries))
            && (Limit(cfg).Some? ==> forall k :: k in s.files && k <= n ==> |s.files[k]| < z.base + z.longest)
  {
    hide Whole, IsSuffix, WriteAll, History, Short;
    var n := Rotations(cfg);
    WholeSame(files, Opened(files).files, n);
    SuffixSelf(Whole(files, n));
    WriteAllKeeps(cfg, Opened(files), entries, Whole(files, n), z);
  }

  lemma SuffixSelf(a: Bytes)
    ensures IsSuffix(a, a)
  {
  }

  /** At most `n + 1` places are taken. */
  lemma {:induction false} FewPlaces(keys: set<nat>, n: nat)
    requires forall k :: k in keys ==> k <= n
    ensures |keys| <= n + 1
  {
    if n == 0 {
      assert keys <= {0};
      assert |{0} - keys| >= 0;
      assert keys == {} || keys == {0};
    } else {
      FewPlaces(keys - {n}, n - 1);
    }
  }

  lemma {:induction false} WholeIsLarge(files: Files, n: nat, size: nat)
    requires forall k :: 1 <= k <= n ==> k in files && |files[k]| >= size
    ensures |Whole(files, n)| >= n * size
  {
    if n > 0 {
      WholeIsLarge(files, n - 1, size);
      assert n * size == (n - 1) * size + size;
    }
  }

  /**
   Starting from no files, with rotation on: at most n + 1 files, each smaller
   than the limit and one line; they hold the last of what was written, and all
   of it or at least n times the limit.
   */
  lemma RunFromNothing(cfg: Config, entries: seq<Entry>, longest: nat)
    requires cfg.maxSizeMb > 0 && Short(cfg, entries, longest)
    ensures var s, all := WriteAll(cfg, Opened(map[]), entries), History(cfg, Opened(map[]), entries);
            var n := if cfg.maxRotate > 0 then cfg.maxRotate else 5;
            var limit := cfg.maxSizeMb * 0x10_0000;
            && |s.files| <= n + 1
            && (forall k :: k in s.files ==> |s.files[k]| < limit + longest)
            && IsSuffix(Whole(s.files, n), all)
            && (Whole(s.files, n) == all || |Whole(s.files, n)| >= n * limit)
  {
    hide Whole, IsSuffix, WriteAll, History, Short;
    var n, z := Rotations(cfg), Sizes(Limit(cfg).value, longest);
    var s0 := Opened(map[]);
    NothingWhole(s0.files, n);
    SuffixSelf([]);
    WriteAllKeeps(cfg, s0, entries, [], z);
    var all := History(cfg, s0, entries);
    assert [] + all == all;
    var s := WriteAll(cfg, s0, entries);
    FewPlaces(s.files.Keys, n);
    if Whole(s.files, n) != all {
      WholeIsLarge(s.files, n, z.base);
    }
  }

  lemma {:induction false} NothingWhole(files: Files, n: nat)
    requires forall k: nat :: At(files, k) == []
    ensures Whole(files, n) == []
  {
    if n > 0 {
      NothingWhole(files, n - 1);
    }
  }

  /** A message cannot forge a line: the only line feed is the last octet; and lines are short. */
  lemma LineIsOneLine(cfg: Config, e: Entry)
    requires Sanitiser.Clean(e.stamp) && |e.stamp| < 40 && |e.message| < TWO_TO_THE_32
    ensures var line := LineOf(cfg, e);
            && line != [] && line[|line| - 1] == Sanitiser.NEWLINE
            && Sanitiser.Clean(line[..|line| - 1])
            && |line| <= Sanitiser.MAX_MESSAGE + 100
  {
    hide Sanitiser.Sanitised, Sanitiser.Clean, Ascii;
    Sanitiser.SanitisedIsClean(e.message);
    var text := Sanitiser.Sanitised(e.message);
    Sanitiser.PrintableAscii(" [");
    Sanitiser.PrintableAscii("] ");
    Sanitiser.PrintableAscii(" ");
    TagClean(e.level);
    Sanitiser.CleanConcat(e.stamp, Ascii(" ["));
    Sanitiser.CleanConcat(e.stamp + Ascii(" ["), Tag(e.level));
    Sanitiser.CleanConcat(e.stamp + Ascii(" [") + Tag(e.level), Ascii("] "));
    Sanitiser.CleanConcat(e.stamp + Ascii(" [") + Tag(e.level) + Ascii("] "), text);
    Sanitiser.CleanConcat(e.stamp, Ascii(" "));
    Sanitiser.CleanConcat(e.stamp + Ascii(" "), text);
    var front := if cfg.showEventType then e.stamp + Ascii(" [") + Tag(e.level) + Ascii("] ") + text
                 else e.stamp + Ascii(" ") + text;
    assert LineOf(cfg, e) == front + [Sanitiser.NEWLINE];
    assert LineOf(cfg, e)[..|front|] == front;
  }

  lemma TagClean(level: Level)
    ensures Sanitiser.Clean(Tag(level)) && |Tag(level)| == 5
  {
    Sanitiser.PrintableAscii("TRACE");
    Sanitiser.PrintableAscii("DEBUG");
    Sanitiser.PrintableAscii("INFO ");
    Sanitiser.PrintableAscii("SUCC ");
    Sanitiser.PrintableAscii("WARN ");
    Sanitiser.PrintableAscii("ERROR");
  }

  // ------------------------------------------------------ the logger itself

  /** The logger after a successful `init`, with the directory of its files. */
  class Log {
    const cfg: Config
    var files: Files
    var open: bool
    var written: nat

    ghost function Now(): Store
      reads this
    {
      Store(files, open, written)
    }

    constructor (cfg: Config, found: Files)
      ensures this.cfg == cfg && Now() == Opened(found)
    {
      this.cfg := cfg;
      files := if 0 in found then found else found[0 := []];
      open := true;
      written := if 0 in found then |found[0]| else 0;
      new;
      assert files == found[0 := At(found, 0)];
    }

    method Remove(k: nat)
      modifies this`files
      ensures files == old(files) - {k}
    {
      files := files - {k};
    }

    /** Renaming a file that is not there fails and changes nothing. */
    method Rename(from: nat, to: nat)
      requires from != to
      modifies this`files
      ensures files == if from in old(files) then old(files)[to := old(files)[from]] - {from} else old(files)
    {
      if from in files {
        files := files[to := files[from]] - {from};
      }
    }

    method RotateIfNeeded(reopens: bool)
      modifies this
      ensures Now() == Rotated(cfg, old(Now()), reopens)
    {
      hide Shift, Shifting;
      if !open || cfg.maxSizeMb <= 0 {
        return;
      }
      var limit := cfg.maxSizeMb * 1024 * 1024;
      if written < limit {
        return;
      }
      open := false;
      ghost var before := files;
      var n := if cfg.maxRotate > 0 then cfg.maxRotate else 5;
      Remove(n);
      ShiftingStart(before, n);
      var i := n - 1;
      while i >= 1
        invariant 0 <= i < n && !open
        invariant files == Shifting(before, n, i)
      {
        Rename(i, i + 1);
        ShiftingStep(before, n, i);
        i := i - 1;
      }
      Rename(0, 1);
      ShiftingDone(before, n);
      if reopens {
        files := files[0 := []];
        open := true;
      }
      written := 0;
    }

    method Write(level: Level, stamp: Bytes, message: Bytes, reopens: bool)
      modifies this
      ensures Now() == Written(cfg, old(Now()), Entry(level, stamp, message, reopens))
    {
      hide Sanitiser.Sanitised, Rotated;
      var text := Sanitiser.Sanitise(message);
      if !cfg.enabled {
        return;
      }
      if Rank(Effective(level)) < Rank(cfg.level) {
        return;
      }
      if open {
        var line := Line(cfg, level, stamp, text);
        files := files[0 := (if 0 in files then files[0] else []) + line];
        written := written + |line|;
        RotateIfNeeded(reopens);
      }
    }
  }

  /** The files once those from `i + 1` on have moved, with place `i + 1` free. */
  ghost function Shifting(files: Files, n: nat, i: nat): Files {
    (map k | k in files && (k > n || k <= i) :: files[k]) +
    (map k: nat | i + 2 <= k <= n && Precedes(files, k) :: files[k - 1])
  }

  lemma ShiftingStart(files: Files, n: nat)
    requires n >= 1
    ensures Shifting(files, n, n - 1) == files - {n}
  {
  }

  lemma ShiftingAt(files: Files, n: nat, i: nat, k: nat)
    ensures var f := Shifting(files, n, i);
            && (k in f <==> (k in files && (k > n || k <= i)) || (i + 2 <= k <= n && k - 1 in files))
            && (k in f ==> f[k] == if i + 2 <= k <= n then files[k - 1] else files[k])
  {
  }

  lemma ShiftAt(files: Files, n: nat, k: nat)
    ensures var f := Shift(files, n);
            && (k in f <==> (k in files && k > n) || (1 <= k <= n && k - 1 in files))
            && (k in f ==> f[k] == if 1 <= k <= n then files[k - 1] else files[k])
  {
  }

  lemma ShiftingStep(files: Files, n: nat, i: nat)
    requires 1 <= i < n
    ensures var f := Shifting(files, n, i);
            Shifting(files, n, i - 1) == if i in f then f[i + 1 := f[i]] - {i} else f
  {
    hide Shifting;
    ShiftingAt(files, n, i, i);
    var f, g := Shifting(files, n, i), Shifting(files, n, i - 1);
    var h := if i in f then f[i + 1 := f[i]] - {i} else f;
    forall k: nat ensures (k in g <==> k in h) && (k in g ==> g[k] == h[k]) {
      ShiftingAt(files, n, i, k);
      ShiftingAt(files, n, i - 1, k);
    }
  }

  lemma ShiftingDone(files: Files, n: nat)
    requires n >= 1
    ensures var f := Shifting(files, n, 0);
            Shift(files, n) == if 0 in f then f[1 := f[0]] - {0} else f
  {
    hide Shifting, Shift;
    ShiftingAt(files, n, 0, 0);
    var f, g := Shifting(files, n, 0), Shift(files, n);
    var h := if 0 in f then f[1 := f[0]] - {0} else f;
    forall k: nat ensures (k in g <==> k in h) && (k in g ==> g[k] == h[k]) {
      ShiftingAt(files, n, 0, k);
      ShiftAt(files, n, k);
    }
  }
}
