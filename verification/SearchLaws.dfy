/** Pages of a search join up to exactly the full scan, and damage is never searched past. */
module SearchLaws {
  import opened Basics
  import opened LineIndex
  import opened LineIndexLaws
  import opened Cursor
  import opened Uuids
  import opened Search
  import opened MatchLine
  import Utf8

  /** The full scan: the lines i..j that contain the literal, in order, as they are shown. */
  function Hits(lines: seq<Bytes>, literal: Bytes, i: nat, j: nat): seq<Match>
    requires j <= |lines|
    decreases j - i
  {
    if i >= j then []
    else HitOf(lines[i], literal, i + 1) + Hits(lines, literal, i + 1, j)
  }

  lemma {:induction false} HitsJoin(lines: seq<Bytes>, literal: Bytes, i: nat, k: nat, j: nat)
    requires i <= k <= j <= |lines|
    ensures Hits(lines, literal, i, j) == Hits(lines, literal, i, k) + Hits(lines, literal, k, j)
    decreases k - i
  {
    hide HitOf;
    if i < k {
      HitsJoin(lines, literal, i + 1, k, j);
    }
  }

  ghost predicate IsHit(lines: seq<Bytes>, literal: Bytes, hit: Match) {
    && 0 < hit.line <= |lines| && Contains(lines[hit.line - 1], literal)
    && ShownOf(lines[hit.line - 1], literal) == Ok(hit.content)
  }

  /** The reference is what its name says: every matching line of the range, as it is shown, and no other, ... */
  lemma {:induction false} HitsAreTheMatchingLines(lines: seq<Bytes>, literal: Bytes, i: nat, j: nat, hit: Match)
    requires j <= |lines|
    ensures hit in Hits(lines, literal, i, j) <==> i < hit.line <= j && IsHit(lines, literal, hit)
    decreases j - i
  {
    hide ShownOf;
    if i < j {
      HitsAreTheMatchingLines(lines, literal, i + 1, j, hit);
      assert hit in HitOf(lines[i], literal, i + 1) <==> hit.line == i + 1 && IsHit(lines, literal, hit);
    }
  }

  /** ... in ascending order, so no line is named twice. */
  lemma {:induction false} HitsAscend(lines: seq<Bytes>, literal: Bytes, i: nat, j: nat, a: nat, b: nat)
    requires j <= |lines| && a < b < |Hits(lines, literal, i, j)|
    ensures Hits(lines, literal, i, j)[a].line < Hits(lines, literal, i, j)[b].line
    decreases j - i
  {
    hide ShownOf;
    var head, rest := HitOf(lines[i], literal, i + 1), Hits(lines, literal, i + 1, j);
    if a >= |head| {
      HitsAscend(lines, literal, i + 1, j, a - |head|, b - |head|);
    } else {
      HitsAreTheMatchingLines(lines, literal, i + 1, j, rest[b - |head|]);
    }
  }

  /** From line i on, nothing that matches before line u fails to be shown, and line u, if there is one, does. */
  ghost predicate ShownUpTo(lines: seq<Bytes>, literal: Bytes, i: nat, u: nat) {
    && i <= u <= |lines|
    && (forall k | i <= k < u :: Shows(lines[k], literal))
    && (u < |lines| ==> !Shows(lines[u], literal))
  }

  /** There is always such a line or the end. */
  lemma {:induction false} FirstNotShown(lines: seq<Bytes>, literal: Bytes, i: nat) returns (u: nat)
    requires i <= |lines|
    ensures ShownUpTo(lines, literal, i, u)
    decreases |lines| - i
  {
    hide Shows;
    u := i;
    if i < |lines| && Shows(lines[i], literal) {
      u := FirstNotShown(lines, literal, i + 1);
    }
  }

  /** Reading the numbered lines one by one yields exactly these lines. */
  ghost predicate Serves(read: Reader, lines: seq<Bytes>) {
    && |lines| <= MAX_U64
    && |Concat(lines)| <= MAX_SCAN_BYTES
    && forall k: u64 | k < |lines| :: read(k) == Ok(lines[k])
  }

  /** An undamaged text of at most MAX_STREAM_BYTES, with the index built for it, serves its lines. */
  lemma StoredTextServes(t: Bytes, m: StreamIndex)
    requires |t| <= MAX_STREAM_BYTES && BuildIndex(t) == Ok(m) && Utf8.Valid(t)
    ensures m.lineCount == |Lines(t)|
    ensures Serves(LineReader(t, m), Lines(t))
  {
    UndamagedLines(t, m);
    LinesAreExact(t, 0);
    forall k: u64 | k < |Lines(t)|
      ensures LineReader(t, m)(k) == Ok(Lines(t)[k])
    {
      OneLineSlice(t, m, k);
    }
  }

  lemma OneLineSlice(t: Bytes, m: StreamIndex, k: u64)
    requires |t| <= MAX_STREAM_BYTES && BuildIndex(t) == Ok(m) && Utf8.Valid(t) && k < |Lines(t)|
    ensures ReadSlice(t, m, k, 1) == Ok(Lines(t)[k])
  {
    SlicesAreFaithful(t, m, k, 1);
    ConcatOne(Lines(t), k);
  }

  lemma ReadSoFar(lines: seq<Bytes>, first: nat, line: nat)
    requires first <= line < |lines|
    ensures |Concat(lines[first..line + 1])| == |Concat(lines[first..line])| + |lines[line]| <= |Concat(lines)|
  {
    assert lines[first..line + 1] == lines[first..line] + lines[line..line + 1];
    ConcatAppend(lines[first..line], lines[line..line + 1]);
    ConcatOne(lines, line);
    assert lines == lines[..first] + (lines[first..line + 1] + lines[line + 1..]);
    ConcatAppend(lines[..first], lines[first..line + 1] + lines[line + 1..]);
    ConcatAppend(lines[first..line + 1], lines[line + 1..]);
  }

  lemma VisitIsExact(text: Bytes, literal: Bytes, isLast: bool, late: bool, line: nat, scanned: nat, matches: seq<Match>)
    requires scanned + |text| <= MAX_SCAN_BYTES && |matches| < MAX_MATCHES
    ensures var found, visit := matches + HitOf(text, literal, line + 1),
                                VisitLine(Ok(text), literal, isLast, late, line, scanned, matches);
            && |found| <= MAX_MATCHES
            && if !Shows(text, literal) then visit == Halt(Failed(Fault, line))
               else if |found| == MAX_MATCHES then visit == Halt(Stopped(found, line + 1, !isLast))
               else if late then visit == Halt(Stopped(found, line + 1, true))
               else visit == Continue(scanned + |text|, found)
  {
    hide ShownOf;
  }

  /**
   A page begun at one line has a reason to end before line s: no line is left, the look at the timer
   before line s finds it used up, or so does the look after the line before, or the hundredth match stands.
   Before each line and after it there is one look.
   */
  ghost predicate EndsAt(lines: seq<Bytes>, literal: Bytes, clock: Clock, start: nat, s: nat)
    requires start <= s <= |lines|
  {
    || s == |lines| || clock(2 * (s - start))
    || (s > start && (clock(2 * (s - start) - 1) || |Hits(lines, literal, start, s)| >= MAX_MATCHES))
  }

  /** The first line at which it has one. */
  ghost predicate EndsFirst(lines: seq<Bytes>, literal: Bytes, clock: Clock, start: nat, stop: nat) {
    && start <= stop <= |lines| && EndsAt(lines, literal, clock, start, stop)
    && forall s | start <= s < stop :: !EndsAt(lines, literal, clock, start, s)
  }

  ghost predicate NeverEnds(lines: seq<Bytes>, literal: Bytes, clock: Clock, start: nat, u: nat)
    requires u <= |lines|
  {
    forall s | start <= s <= u :: !EndsAt(lines, literal, clock, start, s)
  }

  /** A page is truncated if lines are left, or if time was up after its last line with fewer than a hundred matches. */
  ghost predicate CutShort(lines: seq<Bytes>, literal: Bytes, clock: Clock, start: nat, stop: nat)
    requires start <= stop <= |lines|
  {
    stop < |lines| || (start < stop && clock(2 * (stop - start) - 1) && |Hits(lines, literal, start, stop)| < MAX_MATCHES)
  }

  /** Where a page stands between two lines without having had a reason to end. */
  ghost predicate Underway(lines: seq<Bytes>, literal: Bytes, clock: Clock, start: nat, line: nat) {
    && start <= line <= |lines| && (forall s | start <= s < line :: !EndsAt(lines, literal, clock, start, s))
    && (line > start ==> !clock(2 * (line - start) - 1)) && |Hits(lines, literal, start, line)| < MAX_MATCHES
  }

  lemma OneLineMore(lines: seq<Bytes>, literal: Bytes, clock: Clock, start: nat, line: nat)
    requires line < |lines| && Underway(lines, literal, clock, start, line) && !clock(2 * (line - start))
    ensures !EndsAt(lines, literal, clock, start, line)
    ensures Hits(lines, literal, start, line + 1) == Hits(lines, literal, start, line) + HitOf(lines[line], literal, line + 1)
    ensures !clock(2 * (line - start) + 1) && |Hits(lines, literal, start, line + 1)| < MAX_MATCHES ==>
              Underway(lines, literal, clock, start, line + 1)
  {
    hide HitOf;
    HitsJoin(lines, literal, start, line, line + 1);
    assert Hits(lines, literal, line + 1, line + 1) == [];
  }

  /**
   Under any clock a scan reports exactly the matching lines among those it passed over, and it ends
   before the first line at which it has a reason to. The byte budget never is one, so no line is skipped
   untested. It fails only at the first match that cannot be shown, which it never passes.
   */
  lemma {:induction false} ScanIsExact(read: Reader, lines: seq<Bytes>, literal: Bytes, clock: Clock,
                                       start: nat, line: nat, scanned: nat, u: nat)
    requires Serves(read, lines) && Underway(lines, literal, clock, start, line) && ShownUpTo(lines, literal, line, u)
    requires scanned == |Concat(lines[start..line])|
    ensures var end := Scan(read, |lines|, literal, clock, 2 * (line - start), line, scanned, Hits(lines, literal, start, line));
            if !end.Stopped? then end == Failed(Fault, u) && u < |lines| && NeverEnds(lines, literal, clock, start, u)
            else
              && line <= end.line <= u && EndsFirst(lines, literal, clock, start, end.line)
              && end.matches == Hits(lines, literal, start, end.line) && |end.matches| <= MAX_MATCHES
              && (end.truncated <==> CutShort(lines, literal, clock, start, end.line))
    decreases |lines| - line
  {
    hide VisitLine, HitOf, Concat, Shows, Hits;
    var tick, matches := 2 * (line - start), Hits(lines, literal, start, line);
    if line < |lines| && !clock(tick) {
      ReadSoFar(lines, start, line);
      OneLineMore(lines, literal, clock, start, line);
      var text, isLast, late := lines[line], line + 1 == |lines|, clock(tick + 1);
      assert read(line) == Ok(text);
      VisitIsExact(text, literal, isLast, late, line, scanned, matches);
      var found := Hits(lines, literal, start, line + 1);
      if Shows(text, literal) && |found| < MAX_MATCHES && !late {
        ScanIsExact(read, lines, literal, clock, start, line + 1, scanned + |text|, u);
      }
    }
  }

  // ---- Following cursors ------------------------------------------------------------

  datatype Progress = Broken | Finished(hits: seq<Match>) | Pending(hits: seq<Match>, cursor: Option<string>)

  function Prepend(hits: seq<Match>, p: Progress): Progress {
    match p
    case Broken => Broken
    case Finished(more) => Finished(hits + more)
    case Pending(more, cursor) => Pending(hits + more, cursor)
  }

  /** A caller that asks for one page per clock, always with the cursor it was last given. */
  function Follow(q: Query, m: StreamIndex, data: Bytes, cursor: Option<string>, clocks: seq<Clock>): Progress
    decreases |clocks|
  {
    if clocks == [] then Pending([], cursor)
    else
      var page := PageOf(q, m, data, cursor, clocks[0]);
      if page.Err? || page.value.CorruptPage? then Broken
      else if page.value.nextCursor.None? then Finished(page.value.matches)
      else Prepend(page.value.matches, Follow(q, m, data, page.value.nextCursor, clocks[1..]))
  }

  /** The first look at the timer does not end the page. */
  ghost predicate GivesTime(clock: Clock) { !clock(0) }

  /** What a page over these lines is that begins at one line and ends before another. */
  ghost predicate PageTo(q: Query, lines: seq<Bytes>, clock: Clock, start: u64, page: Page, stop: u64) {
    && EndsFirst(lines, q.literal, clock, start, stop)
    && page.Page? && page.matches == Hits(lines, q.literal, start, stop)
    && (page.truncated <==> CutShort(lines, q.literal, clock, start, stop))
    && page.nextCursor == if page.truncated then Some(MakeCursor(q.run, q.stream, q.literal, stop)) else None
  }

  /** What a page over these lines is; past the last line there is nothing. */
  ghost predicate PageFrom(q: Query, lines: seq<Bytes>, clock: Clock, start: u64, page: Page) {
    if start > |lines| then page == Page([], None, false) else exists stop: u64 :: PageTo(q, lines, clock, start, page, stop)
  }

  lemma CutShortExactly(q: Query, lines: seq<Bytes>, clock: Clock, start: u64, page: Page, stop: u64)
    requires PageTo(q, lines, clock, start, page, stop)
    ensures stop < |lines| ==> page.truncated
    ensures start == |lines| ==> !page.truncated
    ensures start < |lines| && !clock(0) ==> start < stop
  {
    hide Hits;
    if stop == start && start < |lines| {
      assert EndsAt(lines, q.literal, clock, start, start);
    }
  }

  /**
   The page that starts at one line ends at the first at which it has a reason to, where its cursor, if any,
   resumes; or it fails at the first match that cannot be shown, exactly if it has no reason to end before.
   */
  lemma PageIsExact(q: Query, m: StreamIndex, data: Bytes, lines: seq<Bytes>, cursor: Option<string>, clock: Clock,
                    start: u64, u: nat)
    returns (page: Result<Page, Error>, stop: u64)
    requires m.lineCount == |lines| && Serves(LineReader(data, m), lines)
    requires StartLine(q, cursor) == Ok(start) && ShownUpTo(lines, q.literal, start, u)
    ensures PageOf(q, m, data, cursor, clock) == page
    ensures page.Err? <==> u < |lines| && NeverEnds(lines, q.literal, clock, start, u)
    ensures page.Err? ==> page.error == Fault
    ensures var end := Scan(LineReader(data, m), |lines|, q.literal, clock, 0, start, 0, []);
            if page.Ok? then end.Stopped? && end.line == stop else end == Failed(Fault, u)
    ensures page.Ok? ==>
              && PageTo(q, lines, clock, start, page.value, stop) && stop <= u && |page.value.matches| <= MAX_MATCHES
              && (start < |lines| && GivesTime(clock) ==> start < stop)
              && (page.value.nextCursor.None? ==> stop == |lines|)
              && (page.value.nextCursor.Some? ==> start < |lines| && StartLine(q, page.value.nextCursor) == Ok(stop))
  {
    hide Scan, LineReader, Serves, Hits, Shows, EndsAt, MakeCursor, ParseCursor, CutShort;
    assert lines[start..start] == [];
    assert Concat(lines[start..start]) == [];
    NothingBetween(lines, q.literal, start);
    ScanIsExact(LineReader(data, m), lines, q.literal, clock, start, start, 0, u);
    var end := Scan(LineReader(data, m), |lines|, q.literal, clock, 0, start, 0, []);
    page := PageOf(q, m, data, cursor, clock);
    stop := start;
    if end.Stopped? {
      stop := end.line;
      CursorRoundTrip(q.run, q.stream, q.literal, stop);
      LinesLeft(lines, q.literal, clock, start, stop);
      assert PageTo(q, lines, clock, start, page.value, stop);
      CutShortExactly(q, lines, clock, start, page.value, stop);
    }
  }

  lemma NothingBetween(lines: seq<Bytes>, literal: Bytes, i: nat)
    requires i <= |lines|
    ensures Hits(lines, literal, i, i) == []
  {
  }

  lemma LinesLeft(lines: seq<Bytes>, literal: Bytes, clock: Clock, start: nat, stop: nat)
    requires start <= stop <= |lines|
    ensures stop < |lines| ==> CutShort(lines, literal, clock, start, stop)
  {
  }

  /** A cursor past the last line yields an empty last page. */
  lemma PagePastEnd(q: Query, m: StreamIndex, data: Bytes, cursor: Option<string>, clock: Clock, start: u64)
    requires StartLine(q, cursor) == Ok(start) && start > m.lineCount
    ensures PageOf(q, m, data, cursor, clock) == Ok(Page([], None, false))
  {
  }

  /**
   Whatever the timer does, the pages fetched so far hold exactly the matching lines before
   the cursor, each once and in order; a search that finishes has found them all. It breaks only
   where a match cannot be shown.
   */
  lemma {:induction false} PagesJoinUp(q: Query, m: StreamIndex, data: Bytes, lines: seq<Bytes>,
                                       cursor: Option<string>, clocks: seq<Clock>, start: u64, u: nat)
    requires m.lineCount == |lines| && Serves(LineReader(data, m), lines) && StartLine(q, cursor) == Ok(start)
    requires ShownUpTo(lines, q.literal, start, u)
    ensures var p := Follow(q, m, data, cursor, clocks);
            && (p.Broken? ==> u < |lines|)
            && (p.Finished? ==> u == |lines| && p.hits == Hits(lines, q.literal, start, |lines|))
            && (p.Pending? ==> exists stop: u64 | start <= stop <= u ::
                  StartLine(q, p.cursor) == Ok(stop) && p.hits == Hits(lines, q.literal, start, stop))
    decreases |clocks|
  {
    hide Serves, StartLine, PageOf, Shows, EndsFirst, CutShort, MakeCursor, NeverEnds;
    if clocks == [] {
      assert Hits(lines, q.literal, start, start) == [];
    } else {
      var page, stop := PageIsExact(q, m, data, lines, cursor, clocks[0], start, u);
      if page.Ok? && page.value.nextCursor.Some? {
        PagesJoinUp(q, m, data, lines, page.value.nextCursor, clocks[1..], stop, u);
        var rest := Follow(q, m, data, page.value.nextCursor, clocks[1..]);
        if rest.Finished? {
          HitsJoin(lines, q.literal, start, stop, |lines|);
        } else if rest.Pending? {
          var last: u64 :| stop <= last <= u && StartLine(q, rest.cursor) == Ok(last)
            && rest.hits == Hits(lines, q.literal, stop, last);
          HitsJoin(lines, q.literal, start, stop, last);
        }
      }
    }
  }

  /** When each page gets time for one line, a page per remaining line and one more always suffice. */
  lemma {:induction false} FollowingTerminates(q: Query, m: StreamIndex, data: Bytes, lines: seq<Bytes>,
                                               cursor: Option<string>, clocks: seq<Clock>, start: u64, u: nat)
    requires m.lineCount == |lines| && Serves(LineReader(data, m), lines) && StartLine(q, cursor) == Ok(start)
    requires ShownUpTo(lines, q.literal, start, u)
    requires |clocks| > |lines| - start
    requires forall c | c in clocks :: GivesTime(c)
    ensures !Follow(q, m, data, cursor, clocks).Pending?
    decreases |clocks|
  {
    hide Serves, Hits, StartLine, GivesTime, PageOf, Shows, EndsFirst, CutShort, MakeCursor, NeverEnds;
    assert clocks[0] in clocks;
    var page, stop := PageIsExact(q, m, data, lines, cursor, clocks[0], start, u);
    if page.Ok? && page.value.nextCursor.Some? {
      FollowingTerminates(q, m, data, lines, page.value.nextCursor, clocks[1..], stop, u);
    }
  }

  /** Every line of the text that matches can be shown. */
  ghost predicate AllShown(t: Bytes, literal: Bytes) {
    forall k | 0 <= k < |Lines(t)| :: Shows(Lines(t)[k], literal)
  }

  /**
   A whole search of a stored text, from its first page to its last, finds every matching line if
   and only if each of them can be shown; otherwise it breaks.
   */
  lemma SearchFindsEverything(q: Query, t: Bytes, m: StreamIndex, clocks: seq<Clock>)
    requires |t| <= MAX_STREAM_BYTES && BuildIndex(t) == Ok(m) && Utf8.Valid(t)
    requires |clocks| > |Lines(t)| && forall c | c in clocks :: GivesTime(c)
    ensures Follow(q, m, t, None, clocks)
         == if AllShown(t, q.literal) then Finished(Hits(Lines(t), q.literal, 0, |Lines(t)|)) else Broken
  {
    hide Shows;
    StoredTextServes(t, m);
    var u := FirstNotShown(Lines(t), q.literal, 0);
    PagesJoinUp(q, m, t, Lines(t), None, clocks, 0, u);
    FollowingTerminates(q, m, t, Lines(t), None, clocks, 0, u);
  }

  /** A literal that does not end in a line feed finds everything. */
  lemma AllShownWithoutBreak(t: Bytes, literal: Bytes)
    requires |t| <= MAX_STREAM_BYTES && BuildIndex(t).Ok? && Utf8.Valid(t)
    requires Utf8.Valid(literal) && |literal| <= MAX_PATTERN_BYTES && (literal == [] || literal[|literal| - 1] != NEWLINE)
    ensures AllShown(t, literal)
  {
    hide Shows, BuildIndex, Utf8.Valid;
    forall k | 0 <= k < |Lines(t)|
      ensures Shows(Lines(t)[k], literal)
    {
      LineIsText(t, k);
      ShortLiteralShows(Lines(t)[k], literal);
    }
  }

  /** A search of this text of one long line for its last letter and line feed breaks, whatever the timer does. */
  lemma SearchMayBreak(q: Query, clocks: seq<Clock>)
    requires q.literal == Utf8.Encode("x\n")
    requires |clocks| > 1 && forall c | c in clocks :: GivesTime(c)
    ensures var t := Utf8.Encode(LongText(MAX_MATCH_LINE_CHARS) + "\n");
            && |t| <= MAX_STREAM_BYTES && Utf8.Valid(t) && BuildIndex(t).Ok?
            && Follow(q, BuildIndex(t).value, t, None, clocks) == Broken
  {
    hide Follow, Utf8.Encode, LongText, ShownOf, GivesTime;
    var t := Utf8.Encode(LongText(MAX_MATCH_LINE_CHARS) + "\n");
    LongMatchIsNotShown(MAX_MATCH_LINE_CHARS);
    LongLineIsOne(MAX_MATCH_LINE_CHARS);
    StartsIncrease(t, |t|);
    assert !Shows(Lines(t)[0], q.literal);
    SearchFindsEverything(q, t, BuildIndex(t).value, clocks);
  }

  lemma LongLineIsOne(n: nat)
    ensures var t := Utf8.Encode(LongText(n) + "\n"); |t| == 3 * n + 2 && Lines(t) == [t]
  {
    hide Utf8.Encode;
    var t := Utf8.Encode(LongText(n) + "\n");
    LongBytes(n);
    assert NextBreak(t, 0) == |t|;
    assert t[0..|t|] == t;
    assert LinesFrom(t, 0) == [t] + LinesFrom(t, |t|);
  }

  lemma EuroBytes()
    ensures |Utf8.EncodeScalar(EURO)| == 3 && NEWLINE !in Utf8.EncodeScalar(EURO)
  {
  }

  lemma StaysAtEnd(a: Bytes, b: Bytes)
    requires b != [] && b[|b| - 1] == NEWLINE && NEWLINE !in a && NEWLINE !in b[..|b| - 1]
    ensures (a + b)[|a + b| - 1] == NEWLINE && NEWLINE !in (a + b)[..|a + b| - 1]
  {
    assert (a + b)[..|a + b| - 1] == a + b[..|b| - 1];
  }

  lemma {:induction false} LongBytes(n: nat)
    ensures var t := Utf8.Encode(LongText(n) + "\n");
            |t| == 3 * n + 2 && t[|t| - 1] == NEWLINE && NEWLINE !in t[..|t| - 1]
  {
    hide Utf8.EncodeScalar;
    if n == 0 {
      assert LongText(0) + "\n" == "x\n";
      EncodesToTwo();
    } else {
      assert LongText(n) + "\n" == [EURO] + (LongText(n - 1) + "\n");
      Utf8.EncodeCons(EURO, LongText(n - 1) + "\n");
      LongBytes(n - 1);
      var rest := Utf8.Encode(LongText(n - 1) + "\n");
      EuroBytes();
      StaysAtEnd(Utf8.EncodeScalar(EURO), rest);
    }
  }

  /** With a cursor it accepts, a page over stored text fails only where a match cannot be shown. */
  lemma PageFailsOnlyUnshown(q: Query, t: Bytes, m: StreamIndex, cursor: Option<string>, clock: Clock, start: u64)
    requires |t| <= MAX_STREAM_BYTES && Utf8.Valid(t) && BuildIndex(t) == Ok(m) && StartLine(q, cursor) == Ok(start)
    ensures PageOf(q, m, t, cursor, clock).Err? ==> PageOf(q, m, t, cursor, clock) == Err(Fault) && !AllShown(t, q.literal)
  {
    hide Shows, Serves, StartLine, BuildIndex, LineReader, Utf8.Valid;
    StoredTextServes(t, m);
    if start <= m.lineCount {
      var u := FirstNotShown(Lines(t), q.literal, start);
      var page, stop := PageIsExact(q, m, t, Lines(t), cursor, clock, start, u);
    }
  }

  lemma LineIsText(t: Bytes, k: nat)
    requires |t| <= MAX_STREAM_BYTES && BuildIndex(t).Ok? && Utf8.Valid(t) && k < |Lines(t)|
    ensures Utf8.Valid(Lines(t)[k])
  {
    UndamagedLines(t, BuildIndex(t).value);
    OneLineSlice(t, BuildIndex(t).value, k);
  }

  lemma ShortLiteralShows(line: Bytes, literal: Bytes)
    requires Utf8.Valid(line) && Utf8.Valid(literal) && |literal| <= MAX_PATTERN_BYTES
    requires literal == [] || literal[|literal| - 1] != NEWLINE
    ensures Shows(line, literal)
  {
    hide ShownOf;
    if Contains(line, literal) {
      TextIsShorter(literal);
      LastAsText(literal);
      MatchIsShown(line, literal);
    }
  }

  // ---- Damage -----------------------------------------------------------------------

  /** As Serves, except that some lines fail to be read. */
  ghost predicate ServesExcept(read: Reader, lines: seq<Bytes>, bad: seq<Option<Error>>) {
    && |lines| == |bad| <= MAX_U64
    && forall k: u64 | k < |lines| :: read(k) == if bad[k].Some? then Err(bad[k].value) else Ok(lines[k])
  }

  lemma OneEachLine(read: Reader, lines: seq<Bytes>, bad: seq<Option<Error>>)
    requires ServesExcept(read, lines, bad)
    ensures |bad| == |lines|
  {
  }

  /** The first line that a scan has not read. */
  function Reached(end: ScanEnd): nat
    requires !end.Corrupted?
  {
    if end.Failed? then end.line + 1 else end.line
  }

  /** The first of the lines from i to j that fails, or j. */
  function FirstBad(bad: seq<Option<Error>>, i: nat, j: nat): (k: nat)
    requires i <= j <= |bad|
    ensures i <= k <= j && (k < j ==> bad[k].Some?) && forall x | i <= x < k :: bad[x].None?
    decreases j - i
  {
    if i == j || bad[i].Some? then i else FirstBad(bad, i + 1, j)
  }

  /** A scan that reaches a line that fails reports it, as Corrupt or with its error; otherwise it is the scan of all lines. */
  lemma {:induction false} ScanMeetsErrors(good: Reader, read: Reader, lines: seq<Bytes>, bad: seq<Option<Error>>,
                                           literal: Bytes, clock: Clock,
                                           tick: nat, line: nat, scanned: nat, matches: seq<Match>)
    requires Serves(good, lines) && ServesExcept(read, lines, bad) && line <= |lines|
    ensures var whole := Scan(good, |lines|, literal, clock, tick, line, scanned, matches);
            && !whole.Corrupted? && line <= Reached(whole) <= |lines|
            && var k := FirstBad(bad, line, Reached(whole));
               Scan(read, |lines|, literal, clock, tick, line, scanned, matches) ==
               if k == Reached(whole) then whole
               else if bad[k] == Some(InvalidData) then Corrupted else Failed(bad[k].value, k)
    decreases |lines| - line
  {
    hide ShownOf, Contains, HitOf, Shows;
    if line < |lines| && !clock(tick) {
      var visit := VisitLine(good(line), literal, line + 1 == |lines|, clock(tick + 1), line, scanned, matches);
      assert good(line) == Ok(lines[line]);
      assert read(line) == if bad[line].Some? then Err(bad[line].value) else Ok(lines[line]);
      if visit.Continue? {
        ScanMeetsErrors(good, read, lines, bad, literal, clock, tick + 2, line + 1, visit.scanned, visit.matches);
      }
      var whole := Scan(good, |lines|, literal, clock, tick, line, scanned, matches);
      assert line < Reached(whole);
    }
  }

  /** A page over lines some of which fail, against the page over all lines, which it is as far as it gets. */
  lemma PageMeetsErrors(q: Query, t: Bytes, data: Bytes, m: StreamIndex, bad: seq<Option<Error>>, cursor: Option<string>, clock: Clock,
                        start: u64, u: nat)
    returns (page: Result<Page, Error>, reached: nat)
    requires |t| <= MAX_STREAM_BYTES && BuildIndex(t) == Ok(m) && Utf8.Valid(t) && ServesExcept(LineReader(data, m), Lines(t), bad)
    requires StartLine(q, cursor) == Ok(start) && ShownUpTo(Lines(t), q.literal, start, u)
    ensures start <= reached <= m.lineCount == |Lines(t)| == |bad|
    ensures if page.Err? then page == Err(Fault) && reached == u + 1 && NeverEnds(Lines(t), q.literal, clock, start, u)
            else reached <= MAX_U64 && PageTo(q, Lines(t), clock, start, page.value, reached)
    ensures var k := FirstBad(bad, start, reached);
            PageOf(q, m, data, cursor, clock) == if k == reached then page
                                                 else if bad[k] == Some(InvalidData) then Ok(CorruptPage) else Err(bad[k].value)
  {
    hide Scan, Serves, Shows, ServesExcept, LineReader, ParseCursor, Utf8.Valid, BuildIndex, PageTo, NeverEnds, FirstBad;
    OneEachLine(LineReader(data, m), Lines(t), bad);
    StoredTextServes(t, m);
    ScanMeetsErrors(LineReader(t, m), LineReader(data, m), Lines(t), bad, q.literal, clock, 0, start, 0, []);
    var stop: u64;
    page, stop := PageIsExact(q, m, t, Lines(t), cursor, clock, start, u);
    reached := if page.Ok? then stop else u + 1;
  }

  /** With at most one wrong byte in each line, the lines that fail are exactly the damaged ones. */
  lemma DamagedTextServes(t: Bytes, data: Bytes, m: StreamIndex) returns (bad: seq<Option<Error>>)
    requires |t| <= MAX_STREAM_BYTES && BuildIndex(t) == Ok(m) && Utf8.Valid(t)
    requires Places(m.offsets, |t|) && SparseDamage(t, data, m)
    ensures m.lineCount <= |m.offsets| && |bad| == m.lineCount
    ensures forall k | 0 <= k < |bad| :: bad[k] == if Damaged(t, data, m, k) then Some(InvalidData) else None
    ensures ServesExcept(LineReader(data, m), Lines(t), bad)
  {
    UndamagedLines(t, m);
    bad := seq(m.lineCount, k requires 0 <= k < m.lineCount => if Damaged(t, data, m, k) then Some(InvalidData) else None);
    forall k: u64 | k < m.lineCount
      ensures LineReader(data, m)(k) == if bad[k].Some? then Err(bad[k].value) else Ok(Lines(t)[k])
    {
      DamageIsDetected(t, data, m, k, 1);
      assert EndLine(m, k, 1) == k + 1;
      OneLineSlice(t, m, k);
    }
  }

  /** Under any clock, a page over a damaged stream is Corrupt exactly when it reaches a damaged line, else as if undamaged. */
  lemma SearchMeetsDamage(q: Query, t: Bytes, data: Bytes, m: StreamIndex, cursor: Option<string>, clock: Clock, start: u64, u: nat)
    returns (page: Result<Page, Error>, reached: nat)
    requires |t| <= MAX_STREAM_BYTES && BuildIndex(t) == Ok(m) && Utf8.Valid(t)
    requires Places(m.offsets, |t|) && SparseDamage(t, data, m)
    requires StartLine(q, cursor) == Ok(start) && ShownUpTo(Lines(t), q.literal, start, u)
    ensures start <= reached <= m.lineCount == |Lines(t)| && m.lineCount <= |m.offsets|
    ensures if page.Err? then page == Err(Fault) && reached == u + 1 && NeverEnds(Lines(t), q.literal, clock, start, u)
            else reached <= MAX_U64 && PageTo(q, Lines(t), clock, start, page.value, reached)
    ensures PageOf(q, m, data, cursor, clock) == if exists k | start <= k < reached :: Damaged(t, data, m, k) then Ok(CorruptPage) else page
  {
    hide Shows, ServesExcept, LineReader, ParseCursor, Utf8.Valid, BuildIndex, PageTo, NeverEnds, PageOf, SparseDamage, Damaged;
    var bad := DamagedTextServes(t, data, m);
    page, reached := PageMeetsErrors(q, t, data, m, bad, cursor, clock, start, u);
  }

  /** Line k ends past the first n bytes of a text of the given length. */
  predicate CutOff(m: StreamIndex, length: nat, n: nat, k: nat) {
    Bound(m.offsets, length, k + 1) > n
  }

  /** The lines that a data file cut short still holds. */
  lemma ShortTextServes(t: Bytes, m: StreamIndex, n: nat) returns (bad: seq<Option<Error>>)
    requires |t| <= MAX_STREAM_BYTES && BuildIndex(t) == Ok(m) && Utf8.Valid(t) && n <= |t|
    ensures |bad| == m.lineCount && ServesExcept(LineReader(t[..n], m), Lines(t), bad)
    ensures forall k | 0 <= k < |bad| :: bad[k] == if CutOff(m, |t|, n, k) then Some(UnexpectedEof) else None
  {
    hide BuildIndex, ReadSlice, Utf8.Valid;
    UndamagedLines(t, m);
    bad := seq(m.lineCount, k requires 0 <= k < m.lineCount => if CutOff(m, |t|, n, k) then Some(UnexpectedEof) else None);
    forall k: u64 | k < m.lineCount
      ensures LineReader(t[..n], m)(k) == if bad[k].Some? then Err(bad[k].value) else Ok(Lines(t)[k])
    {
      ShortDataFails(t, m, n, k, 1);
      assert EndLine(m, k, 1) == k + 1;
      OneLineSlice(t, m, k);
    }
  }

  /** Over a data file cut short a page fails exactly when it reaches a line that is not all there, else it is as if whole. */
  lemma SearchMeetsShortData(q: Query, t: Bytes, m: StreamIndex, n: nat, cursor: Option<string>, clock: Clock, start: u64, u: nat)
    returns (page: Result<Page, Error>, reached: nat)
    requires |t| <= MAX_STREAM_BYTES && BuildIndex(t) == Ok(m) && Utf8.Valid(t) && n <= |t|
    requires StartLine(q, cursor) == Ok(start) && ShownUpTo(Lines(t), q.literal, start, u)
    ensures start <= reached <= m.lineCount == |Lines(t)|
    ensures if page.Err? then page == Err(Fault) && reached == u + 1 && NeverEnds(Lines(t), q.literal, clock, start, u)
            else reached <= MAX_U64 && PageTo(q, Lines(t), clock, start, page.value, reached)
    ensures PageOf(q, m, t[..n], cursor, clock)
         == if exists k | start <= k < reached :: CutOff(m, |t|, n, k) then Err(UnexpectedEof) else page
  {
    hide Shows, ServesExcept, LineReader, ParseCursor, Utf8.Valid, BuildIndex, PageTo, NeverEnds, PageOf, CutOff;
    var bad := ShortTextServes(t, m, n);
    page, reached := PageMeetsErrors(q, t, t[..n], m, bad, cursor, clock, start, u);
  }
}
