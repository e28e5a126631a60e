/**
 Resumable literal search over one stored stream: the scan of `search_at` in
 `src/storage.rs`, its three early stops, and the cursors that join its pages.
 */
module Search {
  import opened Basics
  import opened LineIndex
  import opened Cursor
  import opened Uuids
  import opened MatchLine

  const MAX_PATTERN_BYTES := 1_024
  const MAX_MATCHES := 100
  const MAX_SCAN_BYTES := 64 * 1024 * 1024

  /** Whether the k-th look at the timer, within one page, finds the time used up. */
  type Clock = nat -> bool

  datatype Query = Query(run: Uuid, stream: Stream, literal: Bytes)

  /** The 1-based number of a line, and what is shown of it. */
  datatype Match = Match(line: nat, content: string)

  /** A scan that fails says at which line. */
  datatype ScanEnd = Corrupted | Failed(error: Error, line: nat) | Stopped(matches: seq<Match>, line: nat, truncated: bool)

  datatype Page = CorruptPage | Page(matches: seq<Match>, nextCursor: Option<string>, truncated: bool)

  /** What reading one line of the stored stream yields. */
  type Reader = u64 -> Result<Bytes, Error>

  function LineReader(data: Bytes, m: StreamIndex): Reader {
    (line: u64) => ReadSlice(data, m, line, 1)
  }

  /** Unless nothing can be shown of it, a line that holds the literal is a match. */
  function HitOf(line: Bytes, literal: Bytes, number: nat): seq<Match> {
    if Contains(line, literal) && ShownOf(line, literal).Ok? then [Match(number, ShownOf(line, literal).value)] else []
  }

  /** Whatever matches in the line can be shown. */
  predicate Shows(line: Bytes, literal: Bytes) { Contains(line, literal) ==> ShownOf(line, literal).Ok? }

  datatype Visit = Halt(end: ScanEnd) | Continue(scanned: nat, matches: seq<Match>)

  /** One turn of the loop of `search_at` once the line was read. */
  function VisitLine(slice: Result<Bytes, Error>, literal: Bytes, isLast: bool, late: bool,
                     line: nat, scanned: nat, matches: seq<Match>): Visit {
    match slice
    case Err(e) => Halt(if e == InvalidData then Corrupted else Failed(e, line))
    case Ok(text) =>
      var total := SaturatingAdd(scanned, |text|);
      var found := matches + HitOf(text, literal, line + 1);
      if total > MAX_SCAN_BYTES then Halt(Stopped(matches, line + 1, true))
      else if !Shows(text, literal) then Halt(Failed(Fault, line))
      else if |found| > |matches| && |found| >= MAX_MATCHES then Halt(Stopped(found, line + 1, !isLast))
      else if late then Halt(Stopped(found, line + 1, true))
      else Continue(total, found)
  }

  /** The loop of `search_at`, from a given state; it looks at the timer twice in each turn. */
  function Scan(read: Reader, count: u64, literal: Bytes, clock: Clock,
                tick: nat, line: nat, scanned: nat, matches: seq<Match>): (end: ScanEnd)
    ensures end.Stopped? ==> end.line == line || line < end.line <= count
    decreases count - line
  {
    if line >= count then Stopped(matches, line, false)
    else if clock(tick) then Stopped(matches, line, true)
    else
      match VisitLine(read(line), literal, line + 1 == count, clock(tick + 1), line, scanned, matches)
      case Halt(end) => end
      case Continue(total, found) => Scan(read, count, literal, clock, tick + 2, line + 1, total, found)
  }

  function FinishPage(q: Query, m: StreamIndex, end: ScanEnd): Result<Page, Error>
    requires end.Stopped? ==> end.line <= MAX_U64
  {
    match end
    case Corrupted => Ok(CorruptPage)
    case Failed(e, _) => Err(e)
    case Stopped(matches, line, truncated) =>
      Ok(Page(matches, NextCursor(q, truncated || line < m.lineCount, line), truncated))
  }

  function NextCursor(q: Query, more: bool, line: u64): Option<string> {
    if more then Some(MakeCursor(q.run, q.stream, q.literal, line)) else None
  }

  function StartLine(q: Query, cursor: Option<string>): (start: Result<u64, Error>)
    ensures start.Err? ==> cursor.Some? && start.error == InvalidInput
    ensures cursor.None? ==> start == Ok(0)
  {
    match cursor
    case None => Ok(0)
    case Some(text) => ParseCursor(text, q.run, q.stream, q.literal)
  }

  /** One answer to a search: parse the cursor, scan, and offer a cursor if lines may be left. */
  function PageOf(q: Query, m: StreamIndex, data: Bytes, cursor: Option<string>, clock: Clock): Result<Page, Error> {
    match StartLine(q, cursor)
    case Err(e) => Err(e)
    case Ok(start) => FinishPage(q, m, Scan(LineReader(data, m), m.lineCount, q.literal, clock, 0, start, 0, []))
  }

  method SearchPage(q: Query, m: StreamIndex, data: Bytes, cursor: Option<string>, clock: Clock)
    returns (r: Result<Page, Error>)
    ensures r == PageOf(q, m, data, cursor, clock)
  {
    var start := StartLine(q, cursor);
    if start.Err? {
      return Err(start.error);
    }
    var end := ScanLines(q, m, data, start.value, clock);
    r := FinishPage(q, m, end);
  }

  method ScanLines(q: Query, m: StreamIndex, data: Bytes, start: u64, clock: Clock) returns (end: ScanEnd)
    ensures end == Scan(LineReader(data, m), m.lineCount, q.literal, clock, 0, start, 0, [])
  {
    hide ShownOf, Contains, ReadSlice;
    var matches: seq<Match>, scanned: nat, tick: nat, line: nat := [], 0, 0, start;
    while line < m.lineCount
      invariant Scan(LineReader(data, m), m.lineCount, q.literal, clock, tick, line, scanned, matches)
             == Scan(LineReader(data, m), m.lineCount, q.literal, clock, 0, start, 0, [])
    {
      if clock(tick) {
        return Stopped(matches, line, true);
      }
      var slice := ReadLineSlice(data, m, line, 1);
      assert LineReader(data, m)(line) == slice;
      if slice.Err? {
        return if slice.error == InvalidData then Corrupted else Failed(slice.error, line);
      }
      scanned := SaturatingAdd(scanned, |slice.value|);
      if scanned > MAX_SCAN_BYTES {
        return Stopped(matches, line + 1, true);
      }
      if Contains(slice.value, q.literal) {
        var shown := ShownOf(slice.value, q.literal);
        if shown.Err? {
          return Failed(Fault, line);
        }
        matches := matches + [Match(line + 1, shown.value)];
        if |matches| >= MAX_MATCHES {
          return Stopped(matches, line + 1, line + 1 < m.lineCount);
        }
      }
      assert !Contains(slice.value, q.literal) ==> matches + HitOf(slice.value, q.literal, line + 1) == matches;
      line := line + 1;
      if clock(tick + 1) {
        return Stopped(matches, line, true);
      }
      tick := tick + 2;
    }
    end := Stopped(matches, line, false);
  }
}
