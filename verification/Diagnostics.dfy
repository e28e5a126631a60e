/** What the walker reports and finds where the tree is not clean: exactly what it meets. */
module Diagnostics {
  import opened Basics
  import opened Walker
  import opened WalkerLaws
  import LineIndex
  import Utf8

  // ---- What a walk meets --------------------------------------------------------------------

  /** The walk gets as far as asking what the entry is, and its path is not blocked. */
  predicate Passes(q: Query, e: Entry, at: Path) {
    e.listed && e.typed && !e.node.Symlink? && !q.blocked(at + [e.name])
  }

  predicate Enters(q: Query, e: Entry, at: Path, level: nat) {
    Passes(q, e, at) && e.node.Directory? && e.node.opens && level < MAX_TRAVERSAL_DEPTH
  }

  /** A property holds of some entry of the directory, or of one that it enters. */
  ghost predicate Somewhere(q: Query, entries: seq<Entry>, dir: Path, depth: nat, p: (Entry, Path, nat) -> bool)
    decreases entries
  {
    entries != [] && (SomewhereIn(q, entries[0], dir, depth, p) || Somewhere(q, entries[1..], dir, depth, p))
  }

  ghost predicate SomewhereIn(q: Query, e: Entry, dir: Path, depth: nat, p: (Entry, Path, nat) -> bool)
    decreases e
  {
    p(e, dir, depth) || (Enters(q, e, dir, depth) && Somewhere(q, e.node.entries, dir + [e.name], depth + 1, p))
  }

  // ---- What is wrong with an entry ----------------------------------------------------------

  /** A file that is small enough, opens, and is what the listing said. */
  predicate Readable(file: File) { file.stat == StatFile && file.size <= MAX_FILE_BYTES && file.opens }

  /** The first n lines can be read and are text. */
  ghost predicate ReadsTo(lines: seq<Bytes>, readFails: Option<nat>, n: nat)
    requires n <= |lines|
  {
    (forall j | 0 <= j < n :: Utf8.Valid(lines[j])) && (readFails.None? || readFails.value >= n)
  }

  /** What each kind of diagnostic says, and of which path. */
  ghost predicate Trouble(q: Query, e: Entry, at: Path, level: nat, d: Diagnostic) {
    var path := at + [e.name];
    match d.kind
    case EntryUnreadable =>
      || (!e.listed && d.path == at)
      || (e.listed && d.path == path &&
          (!e.typed || (Passes(q, e, at) && e.node.Directory? && level < MAX_TRAVERSAL_DEPTH && !e.node.opens)))
    case SymlinkSkipped =>
      && e.listed && e.typed && d.path == path
      && (e.node.Symlink? || (Passes(q, e, at) && e.node.Regular? && e.node.file.stat == StatSymlink))
    case UnsupportedFileType =>
      Passes(q, e, at) && d.path == path && (e.node.Other? || (e.node.Regular? && e.node.file.stat == StatOther))
    case ResourceLimitReached =>
      && Passes(q, e, at) && d.path == path
      && ((e.node.Directory? && level >= MAX_TRAVERSAL_DEPTH)
          || (e.node.Regular? && e.node.file.stat == StatFile && e.node.file.size > MAX_FILE_BYTES))
    case FileUnreadable =>
      && Passes(q, e, at) && d.path == path && e.node.Regular?
      && (e.node.file.stat == StatError
          || (e.node.file.stat == StatFile && e.node.file.size <= MAX_FILE_BYTES && !e.node.file.opens)
          || (Readable(e.node.file) && !CleanLines(LineIndex.Lines(e.node.file.bytes), e.node.file.readFails, 0)))
  }

  ghost predicate Troubled(q: Query, e: Entry, at: Path, level: nat) {
    exists d :: Trouble(q, e, at, level, d)
  }

  /** How many entries something is wrong with. */
  ghost function Troubles(q: Query, entries: seq<Entry>, dir: Path, depth: nat): nat
    decreases entries
  {
    if entries == [] then 0 else TroublesIn(q, entries[0], dir, depth) + Troubles(q, entries[1..], dir, depth)
  }

  ghost function TroublesIn(q: Query, e: Entry, dir: Path, depth: nat): nat
    decreases e
  {
    (if Troubled(q, e, dir, depth) then 1 else 0)
    + if Enters(q, e, dir, depth) then Troubles(q, e.node.entries, dir + [e.name], depth + 1) else 0
  }

  /** A matching line of a file that is read that far. */
  ghost predicate Found(q: Query, e: Entry, at: Path, m: Match) {
    && Passes(q, e, at) && e.node.Regular? && Readable(e.node.file) && LineMatches(q, m, at + [e.name], e.node.file)
    && ReadsTo(LineIndex.Lines(e.node.file.bytes), e.node.file.readFails, m.number)
  }

  ghost function Reports(q: Query, d: Diagnostic): (Entry, Path, nat) -> bool {
    (e: Entry, at: Path, level: nat) => Trouble(q, e, at, level, d)
  }

  ghost function Finds(q: Query, m: Match): (Entry, Path, nat) -> bool {
    (e: Entry, at: Path, level: nat) => Found(q, e, at, m)
  }

  /** How many entries a walk without limits meets. */
  function Visits(q: Query, entries: seq<Entry>, dir: Path, depth: nat): nat
    decreases entries
  {
    if entries == [] then 0 else 1 + VisitsIn(q, entries[0], dir, depth) + Visits(q, entries[1..], dir, depth)
  }

  function VisitsIn(q: Query, e: Entry, dir: Path, depth: nat): nat
    decreases e
  {
    if Enters(q, e, dir, depth) then Visits(q, e.node.entries, dir + [e.name], depth + 1) else 0
  }

  // ---- What a walk adds ---------------------------------------------------------------------

  /** From one tally to the next: whether this diagnostic and this match were added, and how many failures. */
  ghost predicate Gains(t: Tally, r: Tally, d: Diagnostic, reported: bool, n: nat, m: Match, found: bool) {
    && t.failures <= r.failures && t.matches <= r.matches && |r.failures| == |t.failures| + n
    && (d in r.failures[|t.failures|..] <==> reported)
    && (m in r.matches[|t.matches|..] <==> found)
  }

  lemma GainsThen(t: Tally, mid: Tally, r: Tally, d: Diagnostic, r1: bool, r2: bool, n1: nat, n2: nat, m: Match, f1: bool, f2: bool)
    requires Gains(t, mid, d, r1, n1, m, f1) && Gains(mid, r, d, r2, n2, m, f2)
    ensures Gains(t, r, d, r1 || r2, n1 + n2, m, f1 || f2)
  {
    SlicesJoin(t.failures, mid.failures, r.failures);
    SlicesJoin(t.matches, mid.matches, r.matches);
  }

  lemma GainsOne(t: Tally, kind: FailureKind, path: Path, d: Diagnostic, m: Match)
    ensures Gains(t, Fail(t, kind, path), d, d == Diagnostic(kind, path), 1, m, false)
  {
    assert Fail(t, kind, path).failures[|t.failures|..] == [Diagnostic(kind, path)];
  }

  lemma GainsNothing(t: Tally, r: Tally, d: Diagnostic, m: Match)
    requires r.failures == t.failures && r.matches == t.matches
    ensures Gains(t, r, d, false, 0, m, false)
  {
  }

  /** Exactly these matches were added, and one failure, or none. */
  lemma {:induction false} LinesFind(q: Query, path: Path, lines: seq<Bytes>, readFails: Option<nat>, k: nat, t: Tally, m: Match)
    requires k <= |lines|
    ensures var r := WalkLines(q, path, lines, readFails, k, t);
            && t.matches <= r.matches
            && r.failures == t.failures + (if CleanLines(lines, readFails, k) then [] else [Diagnostic(FileUnreadable, path)])
            && (m in r.matches[|t.matches|..] <==>
                  && k < m.number <= |lines| && m.path == path
                  && lines[m.number - 1] == m.content + Terminator(lines[m.number - 1]) && Contains(m.content, q.pattern)
                  && (forall j | k <= j < m.number :: Utf8.Valid(lines[j]))
                  && (readFails.None? || readFails.value < k || readFails.value >= m.number))
    decreases |lines| - k
  {
    hide Stripped, Terminator, Contains, Utf8.Valid;
    if readFails != Some(k) && k < |lines| && Utf8.Valid(lines[k]) {
      var hit := HitOf(q, path, lines[k], k + 1);
      var mid := t.(matches := t.matches + hit);
      LinesFind(q, path, lines, readFails, k + 1, mid, m);
      StrippedIsLessTerminator(lines[k], m.content);
      var r := WalkLines(q, path, lines, readFails, k, t);
      assert r.matches[|t.matches|..] == hit + r.matches[|mid.matches|..];
    }
  }

  // A file that is readable as far as its lines go.
  lemma ReadableFileGains(q: Query, file: File, path: Path, t: Tally, d: Diagnostic, m: Match)
    requires Readable(file)
    ensures var lines := LineIndex.Lines(file.bytes);
            var clean := CleanLines(lines, file.readFails, 0);
            Gains(t, WalkFile(q, file, path, t), d, !clean && d == Diagnostic(FileUnreadable, path), if clean then 0 else 1,
                  m, LineMatches(q, m, path, file) && ReadsTo(lines, file.readFails, m.number))
  {
    hide Terminator, Contains, Utf8.Valid, LineIndex.Lines, WalkLines, CleanLines;
    var lines := LineIndex.Lines(file.bytes);
    LinesFind(q, path, lines, file.readFails, 0, t, m);
    var r := WalkFile(q, file, path, t);
    assert r.failures[|t.failures|..] == if CleanLines(lines, file.readFails, 0) then [] else [Diagnostic(FileUnreadable, path)];
  }

  /** What is met below a directory the walk does not enter: nothing. */
  lemma EntryGains(q: Query, e: Entry, dir: Path, depth: nat, t: Tally, d: Diagnostic, m: Match)
    requires depth <= MAX_TRAVERSAL_DEPTH && !Enters(q, e, dir, depth)
    ensures Gains(t, WalkEntry(q, e, dir, depth, t), d, Trouble(q, e, dir, depth, d), if Troubled(q, e, dir, depth) then 1 else 0,
                  m, Found(q, e, dir, m))
  {
    hide Gains, LineMatches, ReadsTo, CleanLines;
    var path := dir + [e.name];
    GainsNothing(t, t, d, m);
    if !e.listed {
      GainsOne(t, EntryUnreadable, dir, d, m);
      assert Trouble(q, e, dir, depth, Diagnostic(EntryUnreadable, dir));
    } else if !Passes(q, e, dir) {
      var kind := if !e.typed then EntryUnreadable else SymlinkSkipped;
      GainsOne(t, kind, path, d, m);
      assert !e.typed || e.node.Symlink? ==> Trouble(q, e, dir, depth, Diagnostic(kind, path));
    } else if e.node.Regular? {
      FileGains(q, e, dir, depth, t, d, m);
    } else {
      var kind := if e.node.Other? then UnsupportedFileType
                  else if depth >= MAX_TRAVERSAL_DEPTH then ResourceLimitReached else EntryUnreadable;
      GainsOne(t, kind, path, d, m);
      assert Trouble(q, e, dir, depth, Diagnostic(kind, path));
    }
  }

  lemma FileGains(q: Query, e: Entry, dir: Path, depth: nat, t: Tally, d: Diagnostic, m: Match)
    requires Passes(q, e, dir) && e.node.Regular?
    ensures Gains(t, WalkFile(q, e.node.file, dir + [e.name], t), d, Trouble(q, e, dir, depth, d),
                  if Troubled(q, e, dir, depth) then 1 else 0, m, Found(q, e, dir, m))
  {
    hide Gains, LineMatches, ReadsTo, CleanLines, LineIndex.Lines;
    var path, file := dir + [e.name], e.node.file;
    if Readable(file) {
      ReadableFileGains(q, file, path, t, d, m);
      if !CleanLines(LineIndex.Lines(file.bytes), file.readFails, 0) {
        assert Trouble(q, e, dir, depth, Diagnostic(FileUnreadable, path));
      }
    } else {
      var kind := if file.stat == StatSymlink then SymlinkSkipped
                  else if file.stat == StatOther then UnsupportedFileType
                  else if file.stat == StatFile && file.size > MAX_FILE_BYTES then ResourceLimitReached
                  else FileUnreadable;
      GainsOne(t, kind, path, d, m);
      assert Trouble(q, e, dir, depth, Diagnostic(kind, path));
    }
  }

  // ---- A whole walk -------------------------------------------------------------------------

  /**
   Within the entry budget a walk reports exactly what is wrong with what it meets, once each, and finds exactly
   the matching lines of the files it can read, as far as it can read them.
   */
  lemma {:induction false} WalkIsExact(q: Query, entries: seq<Entry>, dir: Path, depth: nat, t: Tally, d: Diagnostic, m: Match)
    requires depth <= MAX_TRAVERSAL_DEPTH && t.seen + Visits(q, entries, dir, depth) <= MAX_TRAVERSAL_ENTRIES
    ensures var r := WalkEntries(q, entries, dir, depth, t);
            && Gains(t, r, d, Somewhere(q, entries, dir, depth, Reports(q, d)),
                     Troubles(q, entries, dir, depth),
                     m, Somewhere(q, entries, dir, depth, Finds(q, m)))
            && r.seen == t.seen + Visits(q, entries, dir, depth)
    decreases entries
  {
    hide Gains, Trouble, Found;
    if entries == [] {
      GainsNothing(t, t, d, m);
    } else {
      var start := t.(seen := t.seen + 1);
      var mid := WalkEntry(q, entries[0], dir, depth, start);
      EntryIsExact(q, entries[0], dir, depth, start, d, m);
      WalkIsExact(q, entries[1..], dir, depth, mid, d, m);
      SeenAside(t, start, mid, d, m, SomewhereIn(q, entries[0], dir, depth, Reports(q, d)),
                TroublesIn(q, entries[0], dir, depth), SomewhereIn(q, entries[0], dir, depth, Finds(q, m)));
      GainsThen(t, mid, WalkEntries(q, entries[1..], dir, depth, mid), d,
                SomewhereIn(q, entries[0], dir, depth, Reports(q, d)),
                Somewhere(q, entries[1..], dir, depth, Reports(q, d)),
                TroublesIn(q, entries[0], dir, depth), Troubles(q, entries[1..], dir, depth), m,
                SomewhereIn(q, entries[0], dir, depth, Finds(q, m)),
                Somewhere(q, entries[1..], dir, depth, Finds(q, m)));
    }
  }

  lemma SeenAside(t: Tally, start: Tally, r: Tally, d: Diagnostic, m: Match, reported: bool, n: nat, found: bool)
    requires start == t.(seen := start.seen) && Gains(start, r, d, reported, n, m, found)
    ensures Gains(t, r, d, reported, n, m, found)
  {
  }

  lemma {:induction false} EntryIsExact(q: Query, e: Entry, dir: Path, depth: nat, t: Tally, d: Diagnostic, m: Match)
    requires depth <= MAX_TRAVERSAL_DEPTH && t.seen + VisitsIn(q, e, dir, depth) <= MAX_TRAVERSAL_ENTRIES
    ensures var r := WalkEntry(q, e, dir, depth, t);
            && Gains(t, r, d, SomewhereIn(q, e, dir, depth, Reports(q, d)),
                     TroublesIn(q, e, dir, depth), m, SomewhereIn(q, e, dir, depth, Finds(q, m)))
            && r.seen == t.seen + VisitsIn(q, e, dir, depth)
    decreases e
  {
    hide Gains;
    if Enters(q, e, dir, depth) {
      WalkIsExact(q, e.node.entries, dir + [e.name], depth + 1, t, d, m);
    } else {
      EntryGains(q, e, dir, depth, t, d, m);
      OnlyEntersCount(q, e, dir, depth, t);
    }
  }

  lemma OnlyEntersCount(q: Query, e: Entry, dir: Path, depth: nat, t: Tally)
    requires depth <= MAX_TRAVERSAL_DEPTH && !Enters(q, e, dir, depth)
    ensures WalkEntry(q, e, dir, depth, t).seen == t.seen
  {
    if Passes(q, e, dir) && e.node.Regular? {
      WalkFileAdds(q, e.node.file, dir + [e.name], t);
    }
  }

  /** From one tally to the next a limit was reached and reported. */
  ghost predicate RanOut(t: Tally, r: Tally) {
    t.failures <= r.failures && exists k | |t.failures| <= k < |r.failures| :: r.failures[k].kind == ResourceLimitReached
  }

  lemma RunsOutHere(t: Tally, dir: Path)
    ensures RanOut(t, Fail(t, ResourceLimitReached, dir))
  {
    assert Fail(t, ResourceLimitReached, dir).failures[|t.failures|].kind == ResourceLimitReached;
  }

  lemma RanOutWithin(t: Tally, a: Tally, b: Tally, r: Tally)
    requires RanOut(a, b) && t.failures <= a.failures && b.failures <= r.failures
    ensures RanOut(t, r)
  {
    var k :| |a.failures| <= k < |b.failures| && b.failures[k].kind == ResourceLimitReached;
    assert r.failures[k].kind == ResourceLimitReached;
  }

  /** Past its budget a walk has seen exactly so many entries, and says so. */
  lemma {:induction false} WalkRunsOut(q: Query, entries: seq<Entry>, dir: Path, depth: nat, t: Tally)
    requires depth <= MAX_TRAVERSAL_DEPTH && t.seen <= MAX_TRAVERSAL_ENTRIES < t.seen + Visits(q, entries, dir, depth)
    ensures var r := WalkEntries(q, entries, dir, depth, t); r.seen == MAX_TRAVERSAL_ENTRIES && RanOut(t, r)
    decreases entries
  {
    hide RanOut, WalkEntry, Passes;
    if t.seen < MAX_TRAVERSAL_ENTRIES {
      var e, start := entries[0], t.(seen := t.seen + 1);
      var mid := WalkEntry(q, e, dir, depth, start);
      WalkEntryAdds(q, e, dir, depth, start);
      WalkEntriesAdds(q, entries[1..], dir, depth, mid);
      var r := WalkEntries(q, entries[1..], dir, depth, mid);
      if start.seen + VisitsIn(q, e, dir, depth) > MAX_TRAVERSAL_ENTRIES {
        EntryRunsOut(q, e, dir, depth, start);
        FullStaysFull(q, entries[1..], dir, depth, mid);
        RanOutWithin(t, start, mid, r);
      } else {
        EntryIsExact(q, e, dir, depth, start, Diagnostic(ResourceLimitReached, dir), Match(dir, 0, []));
        WalkRunsOut(q, entries[1..], dir, depth, mid);
        RanOutWithin(t, mid, r, r);
      }
    } else {
      RunsOutHere(t, dir);
    }
  }

  lemma {:induction false} EntryRunsOut(q: Query, e: Entry, dir: Path, depth: nat, t: Tally)
    requires depth <= MAX_TRAVERSAL_DEPTH && t.seen <= MAX_TRAVERSAL_ENTRIES < t.seen + VisitsIn(q, e, dir, depth)
    ensures var r := WalkEntry(q, e, dir, depth, t); r.seen == MAX_TRAVERSAL_ENTRIES && RanOut(t, r)
    decreases e
  {
    WalkRunsOut(q, e.node.entries, dir + [e.name], depth + 1, t);
  }

  lemma FullStaysFull(q: Query, entries: seq<Entry>, dir: Path, depth: nat, t: Tally)
    requires depth <= MAX_TRAVERSAL_DEPTH && t.seen == MAX_TRAVERSAL_ENTRIES
    ensures WalkEntries(q, entries, dir, depth, t).seen == MAX_TRAVERSAL_ENTRIES
  {
  }
}
