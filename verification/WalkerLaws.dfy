/** What the walker's verdict means, against a reference search that knows no limits and no failures. */
module WalkerLaws {
  import opened Basics
  import opened Walker
  import LineIndex
  import Utf8

  // ---- The reference search -----------------------------------------------------------------

  /** Every line of a file that contains the pattern, from line k, with its 1-based number. */
  function MatchesIn(q: Query, path: Path, lines: seq<Bytes>, k: nat): seq<Match>
    requires k <= |lines|
    decreases |lines| - k
  {
    if k == |lines| then [] else HitOf(q, path, lines[k], k + 1) + MatchesIn(q, path, lines, k + 1)
  }

  /** Every file reachable without passing a blocked path or a link, in listing order. */
  function Reference(q: Query, entries: seq<Entry>, dir: Path): seq<Match>
    decreases entries
  {
    if entries == [] then [] else ReferenceEntry(q, entries[0], dir) + Reference(q, entries[1..], dir)
  }

  function ReferenceEntry(q: Query, e: Entry, dir: Path): seq<Match>
    decreases e
  {
    var path := dir + [e.name];
    if q.blocked(path) then []
    else
      match e.node
      case Directory(_, inner) => Reference(q, inner, path)
      case Regular(file) => MatchesIn(q, path, LineIndex.Lines(file.bytes), 0)
      case _ => []
  }

  function ReferenceOf(q: Query, target: Target): seq<Match> {
    match target
    case FileTarget(file, shown) => MatchesIn(q, shown, LineIndex.Lines(file.bytes), 0)
    case DirTarget(_, entries, shown) => Reference(q, entries, shown)
  }

  /** The names lead from the directory to this file, and no step on the way is blocked. */
  ghost predicate Leads(q: Query, entries: seq<Entry>, dir: Path, names: seq<string>, file: File)
    decreases entries
  {
    exists i | 0 <= i < |entries| :: EntryLeads(q, entries[i], dir, names, file)
  }

  ghost predicate EntryLeads(q: Query, e: Entry, dir: Path, names: seq<string>, file: File)
    decreases e
  {
    && names != [] && names[0] == e.name && !q.blocked(dir + [e.name])
    && if |names| == 1 then e.node == Regular(file)
       else e.node.Directory? && Leads(q, e.node.entries, dir + [e.name], names[1..], file)
  }

  predicate EndsWith(line: Bytes, ending: Bytes) { |ending| <= |line| && line[|line| - |ending|..] == ending }

  /** What ends a line: a carriage return and line feed, or a line feed, or nothing. */
  function Terminator(line: Bytes): Bytes {
    if EndsWith(line, [13, 10]) then [13, 10] else if EndsWith(line, [10]) then [10] else []
  }

  /** The content is the line less its terminator, and contains the pattern. */
  ghost predicate LineMatches(q: Query, m: Match, path: Path, file: File) {
    var lines := LineIndex.Lines(file.bytes);
    && 1 <= m.number <= |lines| && m.path == path
    && lines[m.number - 1] == m.content + Terminator(lines[m.number - 1]) && Contains(m.content, q.pattern)
  }

  lemma EndsWithOne(line: Bytes, b: byte)
    ensures EndsWith(line, [b]) <==> line != [] && line[|line| - 1] == b
  {
    if line != [] {
      assert line[|line| - 1..] == [line[|line| - 1]];
    }
  }

  lemma EndsWithTwo(line: Bytes, b: byte, c: byte)
    ensures EndsWith(line, [b, c]) <==> |line| >= 2 && line[|line| - 2] == b && line[|line| - 1] == c
  {
    if |line| >= 2 {
      assert line[|line| - 2..] == [line[|line| - 2], line[|line| - 1]];
    }
  }

  lemma StrippedIsLessTerminator(line: Bytes, content: Bytes)
    ensures content == Stripped(line) <==> line == content + Terminator(line)
  {
    hide EndsWith;
    EndsWithOne(line, 10);
    EndsWithTwo(line, 13, 10);
    assert line == Stripped(line) + Terminator(line);
    if line == content + Terminator(line) {
      assert |content| == |Stripped(line)|;
      assert content == line[..|content|] == Stripped(line);
    }
  }

  lemma {:induction false} MatchesAreTheLines(q: Query, path: Path, lines: seq<Bytes>, k: nat, m: Match)
    requires k <= |lines|
    ensures m in MatchesIn(q, path, lines, k) <==>
              k + 1 <= m.number <= |lines| && m.path == path
              && lines[m.number - 1] == m.content + Terminator(lines[m.number - 1]) && Contains(m.content, q.pattern)
    decreases |lines| - k
  {
    hide Terminator, Contains, Stripped;
    if k < |lines| {
      MatchesAreTheLines(q, path, lines, k + 1, m);
      StrippedIsLessTerminator(lines[k], m.content);
    }
  }

  /** The reference search finds a match exactly when names lead to a file with that matching line. */
  lemma {:induction false} ReferenceIsExact(q: Query, entries: seq<Entry>, dir: Path, m: Match)
    ensures m in Reference(q, entries, dir) <==>
              exists names, file :: Leads(q, entries, dir, names, file) && LineMatches(q, m, dir + names, file)
    decreases entries
  {
    if entries != [] {
      ReferenceEntryIsExact(q, entries[0], dir, m);
      ReferenceIsExact(q, entries[1..], dir, m);
      if m in ReferenceEntry(q, entries[0], dir) {
        var names, file :| EntryLeads(q, entries[0], dir, names, file) && LineMatches(q, m, dir + names, file);
        assert Leads(q, entries, dir, names, file);
      }
      if m in Reference(q, entries[1..], dir) {
        var names, file :| Leads(q, entries[1..], dir, names, file) && LineMatches(q, m, dir + names, file);
        var i :| 0 <= i < |entries[1..]| && EntryLeads(q, entries[1..][i], dir, names, file);
        assert EntryLeads(q, entries[i + 1], dir, names, file);
        assert Leads(q, entries, dir, names, file);
      }
      forall names, file | Leads(q, entries, dir, names, file) && LineMatches(q, m, dir + names, file)
        ensures m in Reference(q, entries, dir)
      {
        var i :| 0 <= i < |entries| && EntryLeads(q, entries[i], dir, names, file);
        if i > 0 {
          assert entries[1..][i - 1] == entries[i];
          assert Leads(q, entries[1..], dir, names, file);
        }
      }
    }
  }

  lemma {:induction false} ReferenceEntryIsExact(q: Query, e: Entry, dir: Path, m: Match)
    ensures m in ReferenceEntry(q, e, dir) <==>
              exists names, file :: EntryLeads(q, e, dir, names, file) && LineMatches(q, m, dir + names, file)
    decreases e
  {
    hide LineMatches, Leads;
    var path := dir + [e.name];
    if !q.blocked(path) {
      match e.node
      case Regular(file) =>
        FileMatches(q, path, file, m);
        if m in ReferenceEntry(q, e, dir) {
          assert EntryLeads(q, e, dir, [e.name], file) && LineMatches(q, m, dir + [e.name], file);
        }
        forall names, f | EntryLeads(q, e, dir, names, f) && LineMatches(q, m, dir + names, f)
          ensures m in ReferenceEntry(q, e, dir)
        {
          assert names == [e.name];
        }
      case Directory(_, inner) =>
        ReferenceIsExact(q, inner, path, m);
        if m in ReferenceEntry(q, e, dir) {
          var names, file :| Leads(q, inner, path, names, file) && LineMatches(q, m, path + names, file);
          LeadsOn(q, e, dir, names, file);
        }
        forall names, file | EntryLeads(q, e, dir, names, file) && LineMatches(q, m, dir + names, file)
          ensures m in ReferenceEntry(q, e, dir)
        {
          LeadsBack(q, e, dir, names, file);
        }
      case _ =>
    }
  }

  lemma FileMatches(q: Query, path: Path, file: File, m: Match)
    ensures m in MatchesIn(q, path, LineIndex.Lines(file.bytes), 0) <==> LineMatches(q, m, path, file)
  {
    hide Terminator, Contains, MatchesIn, LineIndex.Lines;
    MatchesAreTheLines(q, path, LineIndex.Lines(file.bytes), 0, m);
  }

  lemma LeadsOn(q: Query, e: Entry, dir: Path, names: seq<string>, file: File)
    requires e.node.Directory? && !q.blocked(dir + [e.name]) && Leads(q, e.node.entries, dir + [e.name], names, file)
    ensures EntryLeads(q, e, dir, [e.name] + names, file) && dir + ([e.name] + names) == dir + [e.name] + names
  {
    hide Leads;
    LeadsSomewhere(q, e.node.entries, dir + [e.name], names, file);
    assert ([e.name] + names)[1..] == names;
  }

  lemma LeadsBack(q: Query, e: Entry, dir: Path, names: seq<string>, file: File)
    requires e.node.Directory? && EntryLeads(q, e, dir, names, file)
    ensures Leads(q, e.node.entries, dir + [e.name], names[1..], file) && dir + [e.name] + names[1..] == dir + names
  {
    hide Leads;
    assert names == [e.name] + names[1..];
  }

  lemma LeadsSomewhere(q: Query, entries: seq<Entry>, dir: Path, names: seq<string>, file: File)
    requires Leads(q, entries, dir, names, file)
    ensures names != []
  {
    var i :| 0 <= i < |entries| && EntryLeads(q, entries[i], dir, names, file);
  }

  // ---- A tree that holds no surprise --------------------------------------------------------

  ghost predicate CleanLines(lines: seq<Bytes>, readFails: Option<nat>, k: nat)
    requires k <= |lines|
  {
    && (forall j | k <= j < |lines| :: Utf8.Valid(lines[j]))
    && (readFails.None? || readFails.value < k || readFails.value > |lines|)
  }

  ghost predicate CleanFile(file: File) {
    && file.stat == StatFile && file.size <= MAX_FILE_BYTES && file.opens
    && CleanLines(LineIndex.Lines(file.bytes), file.readFails, 0)
  }

  /** Every entry that the walk meets can be listed, is no link, and is blocked or readable; nothing lies too deep. */
  ghost predicate Clean(q: Query, entries: seq<Entry>, dir: Path, depth: nat)
    decreases entries
  {
    entries != [] ==> CleanEntry(q, entries[0], dir, depth) && Clean(q, entries[1..], dir, depth)
  }

  ghost predicate CleanEntry(q: Query, e: Entry, dir: Path, depth: nat)
    decreases e
  {
    var path := dir + [e.name];
    && e.listed && e.typed && !e.node.Symlink?
    && (q.blocked(path) ||
        match e.node
        case Directory(opens, inner) => depth < MAX_TRAVERSAL_DEPTH && opens && Clean(q, inner, path, depth + 1)
        case Regular(file) => CleanFile(file)
        case _ => false)
  }

  /** How many entries a search without limits would see; what lies under a blocked path is not among them. */
  function Count(q: Query, entries: seq<Entry>, dir: Path): nat
    decreases entries
  {
    if entries == [] then 0 else 1 + CountUnder(q, entries[0], dir) + Count(q, entries[1..], dir)
  }

  function CountUnder(q: Query, e: Entry, dir: Path): nat
    decreases e
  {
    var path := dir + [e.name];
    if e.node.Directory? && !q.blocked(path) then Count(q, e.node.entries, path) else 0
  }

  ghost predicate CleanTarget(q: Query, target: Target) {
    match target
    case FileTarget(file, _) => CleanFile(file)
    case DirTarget(_, entries, shown) => Clean(q, entries, shown, 0) && Count(q, entries, shown) <= MAX_TRAVERSAL_ENTRIES
  }

  // ---- Subsequences -------------------------------------------------------------------------

  ghost predicate Subseq<T>(a: seq<T>, b: seq<T>)
    decreases |b|
  {
    a == [] || (b != [] && ((a[0] == b[0] && Subseq(a[1..], b[1..])) || Subseq(a, b[1..])))
  }

  lemma {:induction false} SubseqAll<T>(a: seq<T>)
    ensures Subseq(a, a)
  {
    if a != [] {
      SubseqAll(a[1..]);
    }
  }

  lemma {:induction false} SubseqJoin<T>(a: seq<T>, b: seq<T>, c: seq<T>, d: seq<T>)
    requires Subseq(a, b) && Subseq(c, d)
    ensures Subseq(a + c, b + d)
    decreases |b|
  {
    if b == [] {
      assert a + c == c && b + d == d;
    } else {
      assert (b + d)[1..] == b[1..] + d;
      if a == [] {
        SubseqJoin(a, b[1..], c, d);
        assert a + c == c;
      } else if a[0] == b[0] && Subseq(a[1..], b[1..]) {
        SubseqJoin(a[1..], b[1..], c, d);
        assert (a + c)[1..] == a[1..] + c;
      } else {
        SubseqJoin(a, b[1..], c, d);
      }
    }
  }

  // ---- One walk -----------------------------------------------------------------------------

  /** The walk adds some of these matches, all of them when nothing failed, and it fails exactly when it is not clean. */
  ghost predicate Adds(t: Tally, r: Tally, reference: seq<Match>, clean: bool) {
    && t.matches <= r.matches && Subseq(r.matches[|t.matches|..], reference)
    && t.failures <= r.failures
    && (r.failures == t.failures <==> clean)
    && (clean ==> r.matches == t.matches + reference)
  }

  lemma FailAdds(t: Tally, kind: FailureKind, path: Path, reference: seq<Match>)
    ensures Adds(t, Fail(t, kind, path), reference, false)
  {
  }

  lemma AddsNothing(t: Tally)
    ensures Adds(t, t, [], true)
  {
  }

  lemma SlicesJoin<T>(a: seq<T>, b: seq<T>, c: seq<T>)
    requires a <= b <= c
    ensures c[|a|..] == b[|a|..] + c[|b|..]
  {
  }

  lemma MatchesThen(a: seq<Match>, b: seq<Match>, c: seq<Match>, first: seq<Match>, second: seq<Match>)
    requires a <= b <= c && Subseq(b[|a|..], first) && Subseq(c[|b|..], second)
    ensures a <= c && Subseq(c[|a|..], first + second)
    ensures b == a + first && c == b + second ==> c == a + (first + second)
  {
    hide Subseq;
    SubseqJoin(b[|a|..], first, c[|b|..], second);
    SlicesJoin(a, b, c);
  }

  lemma PrefixesGrow<T>(a: seq<T>, b: seq<T>, c: seq<T>)
    requires a <= b <= c
    ensures a <= c && (c == a <==> b == a && c == b)
  {
    if c == a {
      assert |a| == |b| == |c|;
    }
  }

  lemma AddsThen(t: Tally, mid: Tally, r: Tally, first: seq<Match>, second: seq<Match>, clean: bool, later: bool)
    requires Adds(t, mid, first, clean) && Adds(mid, r, second, later)
    ensures Adds(t, r, first + second, clean && later)
  {
    hide Subseq;
    MatchesThen(t.matches, mid.matches, r.matches, first, second);
    PrefixesGrow(t.failures, mid.failures, r.failures);
  }

  lemma {:induction false} WalkLinesAdds(q: Query, path: Path, lines: seq<Bytes>, readFails: Option<nat>, k: nat, t: Tally)
    requires k <= |lines|
    ensures Adds(t, WalkLines(q, path, lines, readFails, k, t), MatchesIn(q, path, lines, k), CleanLines(lines, readFails, k))
    ensures WalkLines(q, path, lines, readFails, k, t).seen == t.seen
    decreases |lines| - k
  {
    if readFails == Some(k) {
      FailAdds(t, FileUnreadable, path, MatchesIn(q, path, lines, k));
    } else if k == |lines| {
      AddsNothing(t);
    } else if !Utf8.Valid(lines[k]) {
      FailAdds(t, FileUnreadable, path, MatchesIn(q, path, lines, k));
    } else {
      var hit := HitOf(q, path, lines[k], k + 1);
      var mid := t.(matches := t.matches + hit);
      SubseqAll(hit);
      assert Adds(t, mid, hit, true);
      WalkLinesAdds(q, path, lines, readFails, k + 1, mid);
      AddsThen(t, mid, WalkLines(q, path, lines, readFails, k + 1, mid), hit, MatchesIn(q, path, lines, k + 1),
               true, CleanLines(lines, readFails, k + 1));
    }
  }

  lemma WalkFileAdds(q: Query, file: File, path: Path, t: Tally)
    ensures Adds(t, WalkFile(q, file, path, t), MatchesIn(q, path, LineIndex.Lines(file.bytes), 0), CleanFile(file))
    ensures WalkFile(q, file, path, t).seen == t.seen
  {
    WalkLinesAdds(q, path, LineIndex.Lines(file.bytes), file.readFails, 0, t);
  }

  /** The entry budget holds, and a walk that failed nowhere has used exactly what it needed. */
  lemma {:induction false} WalkEntriesAdds(q: Query, entries: seq<Entry>, dir: Path, depth: nat, t: Tally)
    requires depth <= MAX_TRAVERSAL_DEPTH && t.seen <= MAX_TRAVERSAL_ENTRIES
    ensures var r := WalkEntries(q, entries, dir, depth, t);
            var clean := Clean(q, entries, dir, depth) && t.seen + Count(q, entries, dir) <= MAX_TRAVERSAL_ENTRIES;
            && Adds(t, r, Reference(q, entries, dir), clean)
            && t.seen <= r.seen <= MAX_TRAVERSAL_ENTRIES
            && (clean ==> r.seen == t.seen + Count(q, entries, dir))
    decreases entries
  {
    if entries == [] {
      AddsNothing(t);
    } else if t.seen >= MAX_TRAVERSAL_ENTRIES {
      FailAdds(t, ResourceLimitReached, dir, Reference(q, entries, dir));
    } else {
      var start := t.(seen := t.seen + 1);
      var mid := WalkEntry(q, entries[0], dir, depth, start);
      WalkEntryAdds(q, entries[0], dir, depth, start);
      WalkEntriesAdds(q, entries[1..], dir, depth, mid);
      AddsThen(t, mid, WalkEntries(q, entries[1..], dir, depth, mid),
               ReferenceEntry(q, entries[0], dir), Reference(q, entries[1..], dir),
               CleanEntry(q, entries[0], dir, depth) && start.seen + CountUnder(q, entries[0], dir) <= MAX_TRAVERSAL_ENTRIES,
               Clean(q, entries[1..], dir, depth) && mid.seen + Count(q, entries[1..], dir) <= MAX_TRAVERSAL_ENTRIES);
    }
  }

  lemma {:induction false} WalkEntryAdds(q: Query, e: Entry, dir: Path, depth: nat, t: Tally)
    requires depth <= MAX_TRAVERSAL_DEPTH && t.seen <= MAX_TRAVERSAL_ENTRIES
    ensures var r := WalkEntry(q, e, dir, depth, t);
            var clean := CleanEntry(q, e, dir, depth) && t.seen + CountUnder(q, e, dir) <= MAX_TRAVERSAL_ENTRIES;
            && Adds(t, r, ReferenceEntry(q, e, dir), clean)
            && t.seen <= r.seen <= MAX_TRAVERSAL_ENTRIES
            && (clean ==> r.seen == t.seen + CountUnder(q, e, dir))
    decreases e
  {
    var path := dir + [e.name];
    if e.listed && e.typed && !e.node.Symlink? && !q.blocked(path) {
      match e.node
      case Directory(opens, inner) =>
        if opens && depth < MAX_TRAVERSAL_DEPTH {
          WalkEntriesAdds(q, inner, path, depth + 1, t);
        }
      case Regular(file) => WalkFileAdds(q, file, path, t);
      case _ =>
    }
  }

  // ---- The verdict --------------------------------------------------------------------------

  /**
   Complete means: these are all the matches of the reference search, in its order. It is said
   exactly of clean trees within the budget. Partial means: some matches, in order, and a reason.
   */
  lemma VerdictIsExact(q: Query, target: Target)
    ensures var o := OutcomeOf(WalkTarget(q, target));
            && (!o.partial <==> CleanTarget(q, target))
            && (!o.partial ==> o.matches == ReferenceOf(q, target) && o.diagnostics == [])
            && (o.partial ==> Subseq(o.matches, ReferenceOf(q, target)) && o.diagnostics != [])
  {
    var none := Tally([], [], 0);
    match target
    case FileTarget(file, shown) => WalkFileAdds(q, file, shown, none);
    case DirTarget(_, entries, shown) => WalkEntriesAdds(q, entries, shown, 0, none);
  }

  /** At most 64 diagnostics are kept, the first 63 always, and the last tells when there were more. */
  lemma DiagnosticsAreCapped(q: Query, target: Target)
    ensures var t := WalkTarget(q, target);
            var kept := OutcomeOf(t).diagnostics;
            && |kept| == Min(|t.failures|, MAX_DIAGNOSTICS)
            && (forall k | 0 <= k < |kept| && k < MAX_DIAGNOSTICS - 1 :: kept[k] == t.failures[k])
            && (|t.failures| <= MAX_DIAGNOSTICS ==> kept == t.failures)
            && (|t.failures| > MAX_DIAGNOSTICS ==>
                  kept[MAX_DIAGNOSTICS - 1] == Diagnostic(ResourceLimitReached, t.failures[MAX_DIAGNOSTICS].path))
            && t.seen <= MAX_TRAVERSAL_ENTRIES
  {
    var none := Tally([], [], 0);
    match target
    case FileTarget(file, shown) => WalkFileAdds(q, file, shown, none);
    case DirTarget(_, entries, shown) => WalkEntriesAdds(q, entries, shown, 0, none);
  }
}
