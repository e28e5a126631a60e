/**
 The bounded directory walker: `GrepState` of `src/path_io.rs` over a tree in which any listing,
 type query, stat, open or read may fail. Each method is tied to a function of the tally.
 */
module Walker {
  import opened Basics
  import LineIndex
  import Utf8

  const MAX_TRAVERSAL_DEPTH := 64
  const MAX_TRAVERSAL_ENTRIES := 10_000
  const MAX_FILE_BYTES := 1024 * 1024
  const MAX_DIAGNOSTICS := 64

  // ---- The tree as it is, with the failures a walk will meet --------------------------------

  type Path = seq<string>

  datatype StatSees = StatError | StatSymlink | StatFile | StatOther

  /** The read of one line, counted from 0, may fail. */
  datatype File = File(stat: StatSees, size: nat, opens: bool, bytes: Bytes, readFails: Option<nat>)

  datatype Node = Symlink | Other | Regular(file: File) | Directory(opens: bool, entries: seq<Entry>)

  /** One step of a directory listing: it may fail, and so may the query of the file type. */
  datatype Entry = Entry(name: string, listed: bool, typed: bool, node: Node)

  datatype Query = Query(pattern: Bytes, blocked: Path -> bool)

  datatype Match = Match(path: Path, number: nat, content: Bytes)

  datatype FailureKind = SymlinkSkipped | EntryUnreadable | FileUnreadable | UnsupportedFileType | ResourceLimitReached

  datatype Diagnostic = Diagnostic(kind: FailureKind, path: Path)

  datatype Target = FileTarget(file: File, shown: Path) | DirTarget(opens: bool, entries: seq<Entry>, shown: Path)

  datatype Outcome = Outcome(matches: seq<Match>, partial: bool, diagnostics: seq<Diagnostic>)

  // ---- What a walk adds up to ---------------------------------------------------------------

  /** Matches so far, every failure so far, and the number of entries seen. */
  datatype Tally = Tally(matches: seq<Match>, failures: seq<Diagnostic>, seen: nat)

  function Fail(t: Tally, kind: FailureKind, path: Path): Tally {
    t.(failures := t.failures + [Diagnostic(kind, path)])
  }

  /** The diagnostics that are kept: past the limit, the last one tells that there were more. */
  function Capped(failures: seq<Diagnostic>): seq<Diagnostic> {
    if |failures| <= MAX_DIAGNOSTICS then failures
    else failures[..MAX_DIAGNOSTICS - 1] + [Diagnostic(ResourceLimitReached, failures[MAX_DIAGNOSTICS].path)]
  }

  const RETURN: byte := 13

  /** A line without its line feed, or its carriage return and line feed. */
  function Stripped(line: Bytes): Bytes {
    if line == [] || line[|line| - 1] != Utf8.NEWLINE then line
    else if |line| >= 2 && line[|line| - 2] == RETURN then line[..|line| - 2]
    else line[..|line| - 1]
  }

  function HitOf(q: Query, path: Path, line: Bytes, number: nat): seq<Match> {
    if Contains(Stripped(line), q.pattern) then [Match(path, number, Stripped(line))] else []
  }

  /** The line loop of `scan_file`, from line k. */
  function WalkLines(q: Query, path: Path, lines: seq<Bytes>, readFails: Option<nat>, k: nat, t: Tally): Tally
    requires k <= |lines|
    decreases |lines| - k
  {
    if readFails == Some(k) then Fail(t, FileUnreadable, path)
    else if k == |lines| then t
    else if !Utf8.Valid(lines[k]) then Fail(t, FileUnreadable, path)
    else WalkLines(q, path, lines, readFails, k + 1, t.(matches := t.matches + HitOf(q, path, lines[k], k + 1)))
  }

  function WalkFile(q: Query, file: File, path: Path, t: Tally): Tally {
    match file.stat
    case StatError => Fail(t, FileUnreadable, path)
    case StatSymlink => Fail(t, SymlinkSkipped, path)
    case StatOther => Fail(t, UnsupportedFileType, path)
    case StatFile =>
      if file.size > MAX_FILE_BYTES then Fail(t, ResourceLimitReached, path)
      else if !file.opens then Fail(t, FileUnreadable, path)
      else WalkLines(q, path, LineIndex.Lines(file.bytes), file.readFails, 0, t)
  }

  /** The entry loop of `scan_directory_entries`. The depth cap alone makes it end. */
  function WalkEntries(q: Query, entries: seq<Entry>, dir: Path, depth: nat, t: Tally): Tally
    requires depth <= MAX_TRAVERSAL_DEPTH
    decreases MAX_TRAVERSAL_DEPTH - depth, |entries|, 1
  {
    if entries == [] then t
    else if t.seen >= MAX_TRAVERSAL_ENTRIES then Fail(t, ResourceLimitReached, dir)
    else WalkEntries(q, entries[1..], dir, depth, WalkEntry(q, entries[0], dir, depth, t.(seen := t.seen + 1)))
  }

  function WalkEntry(q: Query, e: Entry, dir: Path, depth: nat, t: Tally): Tally
    requires depth <= MAX_TRAVERSAL_DEPTH
    decreases MAX_TRAVERSAL_DEPTH - depth, 0, 0
  {
    var path := dir + [e.name];
    if !e.listed then Fail(t, EntryUnreadable, dir)
    else if !e.typed then Fail(t, EntryUnreadable, path)
    else if e.node.Symlink? then Fail(t, SymlinkSkipped, path)
    else if q.blocked(path) then t
    else
      match e.node
      case Directory(opens, inner) =>
        if depth >= MAX_TRAVERSAL_DEPTH then Fail(t, ResourceLimitReached, path)
        else if !opens then Fail(t, EntryUnreadable, path)
        else WalkEntries(q, inner, path, depth + 1, t)
      case Regular(file) => WalkFile(q, file, path, t)
      case _ => Fail(t, UnsupportedFileType, path)
  }

  // ---- The walker ---------------------------------------------------------------------------

  class GrepState {
    const q: Query
    var matches: seq<Match>
    var diagnostics: seq<Diagnostic>
    var diagnosticsCapped: bool
    var entriesSeen: nat
    var partial: bool
    ghost var failures: seq<Diagnostic>

    /** The bounded list stands for all failures, and the flags follow from their number. */
    ghost predicate Valid()
      reads this
    {
      && diagnostics == Capped(failures)
      && (diagnosticsCapped <==> |failures| > MAX_DIAGNOSTICS)
      && (partial <==> failures != [])
      && entriesSeen <= MAX_TRAVERSAL_ENTRIES
    }

    ghost function Sum(): Tally
      reads this
    {
      Tally(matches, failures, entriesSeen)
    }

    constructor (q: Query)
      ensures Valid() && this.q == q && Sum() == Tally([], [], 0)
    {
      this.q := q;
      matches, diagnostics, diagnosticsCapped, entriesSeen, partial := [], [], false, 0, false;
      failures := [];
    }

    /** `record`: the failure is counted whether or not there is room for it. */
    method Record(kind: FailureKind, path: Path)
      requires Valid()
      modifies this
      ensures Valid() && Sum() == Fail(old(Sum()), kind, path)
    {
      partial := true;
      if |diagnostics| < MAX_DIAGNOSTICS {
        diagnostics := diagnostics + [Diagnostic(kind, path)];
      } else if !diagnosticsCapped {
        diagnostics := diagnostics[|diagnostics| - 1 := Diagnostic(ResourceLimitReached, path)];
        diagnosticsCapped := true;
      }
      failures := failures + [Diagnostic(kind, path)];
    }

    method ScanFile(file: File, path: Path)
      requires Valid()
      modifies this
      ensures Valid() && Sum() == WalkFile(q, file, path, old(Sum()))
    {
      if file.stat.StatError? {
        Record(FileUnreadable, path);
        return;
      }
      if file.stat.StatSymlink? {
        Record(SymlinkSkipped, path);
        return;
      }
      if !file.stat.StatFile? {
        Record(UnsupportedFileType, path);
        return;
      }
      if file.size > MAX_FILE_BYTES {
        Record(ResourceLimitReached, path);
        return;
      }
      if !file.opens {
        Record(FileUnreadable, path);
        return;
      }
      ScanLines(LineIndex.Lines(file.bytes), file.readFails, path);
    }

    method ScanLines(lines: seq<Bytes>, readFails: Option<nat>, path: Path)
      requires Valid()
      modifies this
      ensures Valid() && Sum() == WalkLines(q, path, lines, readFails, 0, old(Sum()))
    {
      var k := 0;
      while k < |lines| || readFails == Some(k)
        invariant 0 <= k <= |lines| && Valid()
        invariant WalkLines(q, path, lines, readFails, k, Sum()) == WalkLines(q, path, lines, readFails, 0, old(Sum()))
        decreases |lines| - k
      {
        if readFails == Some(k) || !Utf8.Valid(lines[k]) {
          Record(FileUnreadable, path);
          return;
        }
        var line := Stripped(lines[k]);
        ghost var before := matches;
        if Contains(line, q.pattern) {
          matches := matches + [Match(path, k + 1, line)];
        }
        assert matches == before + HitOf(q, path, lines[k], k + 1);
        k := k + 1;
      }
    }

    /** No more entries than the budget are ever taken, and no deeper than the cap. */
    method ScanDirectoryEntries(entries: seq<Entry>, dir: Path, depth: nat)
      requires Valid() && depth <= MAX_TRAVERSAL_DEPTH
      modifies this
      ensures Valid() && Sum() == WalkEntries(q, entries, dir, depth, old(Sum()))
      decreases MAX_TRAVERSAL_DEPTH - depth, 1
    {
      var i := 0;
      while i < |entries|
        invariant 0 <= i <= |entries| && Valid()
        invariant WalkEntries(q, entries[i..], dir, depth, Sum()) == WalkEntries(q, entries, dir, depth, old(Sum()))
      {
        assert entries[i..][0] == entries[i] && entries[i..][1..] == entries[i + 1..];
        if entriesSeen >= MAX_TRAVERSAL_ENTRIES {
          Record(ResourceLimitReached, dir);
          return;
        }
        entriesSeen := entriesSeen + 1;
        ScanEntry(entries[i], dir, depth);
        i := i + 1;
      }
    }

    // One turn of the entry loop.
    method ScanEntry(e: Entry, dir: Path, depth: nat)
      requires Valid() && depth <= MAX_TRAVERSAL_DEPTH
      modifies this
      ensures Valid() && Sum() == WalkEntry(q, e, dir, depth, old(Sum()))
      decreases MAX_TRAVERSAL_DEPTH - depth, 0
    {
      if !e.listed {
        Record(EntryUnreadable, dir);
        return;
      }
      var path := dir + [e.name];
      if !e.typed {
        Record(EntryUnreadable, path);
        return;
      }
      if e.node.Symlink? {
        Record(SymlinkSkipped, path);
        return;
      }
      if q.blocked(path) {
        return;
      }
      if e.node.Directory? {
        if depth >= MAX_TRAVERSAL_DEPTH {
          Record(ResourceLimitReached, path);
          return;
        }
        ScanChildDirectory(e.node.opens, e.node.entries, path, depth + 1);
      } else if e.node.Regular? {
        ScanFile(e.node.file, path);
      } else {
        Record(UnsupportedFileType, path);
      }
    }

    method ScanChildDirectory(opens: bool, entries: seq<Entry>, dir: Path, depth: nat)
      requires Valid() && depth <= MAX_TRAVERSAL_DEPTH
      modifies this
      ensures Valid()
      ensures Sum() == if opens then WalkEntries(q, entries, dir, depth, old(Sum())) else Fail(old(Sum()), EntryUnreadable, dir)
      decreases MAX_TRAVERSAL_DEPTH - depth, 2
    {
      if !opens {
        Record(EntryUnreadable, dir);
        return;
      }
      ScanDirectoryEntries(entries, dir, depth);
    }

    method Finish() returns (o: Outcome)
      requires Valid()
      ensures o == Outcome(matches, failures != [], Capped(failures))
    {
      o := Outcome(matches, partial, diagnostics);
    }
  }

  function OutcomeOf(t: Tally): Outcome { Outcome(t.matches, t.failures != [], Capped(t.failures)) }

  function WalkTarget(q: Query, target: Target): Tally {
    match target
    case FileTarget(file, shown) => WalkFile(q, file, shown, Tally([], [], 0))
    case DirTarget(_, entries, shown) => WalkEntries(q, entries, shown, 0, Tally([], [], 0))
  }

  /** `grep`: only a root directory that cannot be opened is an error. */
  method Grep(q: Query, target: Target) returns (r: Result<Outcome, Error>)
    ensures r == if target.DirTarget? && !target.opens then Err(Io) else Ok(OutcomeOf(WalkTarget(q, target)))
  {
    var state := new GrepState(q);
    match target {
      case FileTarget(file, shown) =>
        state.ScanFile(file, shown);
      case DirTarget(opens, entries, shown) =>
        if !opens {
          return Err(Io);
        }
        state.ScanDirectoryEntries(entries, shown, 0);
    }
    var o := state.Finish();
    assert state.Sum() == WalkTarget(q, target);
    r := Ok(o);
  }
}
