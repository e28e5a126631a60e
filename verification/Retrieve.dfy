/** `retrieve_lines_at` of `src/storage.rs`, from the moment the manifest has been looked up. */
module Retrieve {
  import opened Basics
  import opened LineIndex
  import opened LineIndexLaws
  import opened Cursor
  import opened Uuids
  import opened Envelope
  import Utf8

  const MAX_LINES_PER_QUERY := 2_000

  datatype LookupStatus = Active | Blocked | Expired | Deleted | Corrupt | NotFound

  datatype Retrieval = Retrieval(status: LookupStatus, content: Option<Render>)

  function Header(run: Uuid, stream: Stream, warnings: nat): string {
    "status: active\nrun_id: " + UuidText(run) + "\nstream: " + StreamName(stream) + "\n"
    + if warnings > 0 then "prompt_injection_warnings: " + Decimal(warnings) + "\n" else ""
  }

  /** One line before the requested range, when there is one. */
  function ContextStart(startLine: u64): (first: u64)
    ensures first <= startLine <= first + 1 && (first == startLine <==> startLine == 0)
  {
    if startLine == 0 then 0 else startLine - 1
  }

  function ContextCount(lineCount: u32): u32 { Min(lineCount + 2, 0xFFFF_FFFF) }

  /** What is returned once both reads succeeded: only the selected lines, judged with their context. */
  function Present(run: Uuid, stream: Stream, selected: string, context: string, policy: Policy, maxChars: nat): Retrieval {
    var contextWarnings := policy.detect(policy.redact(context));
    var selectedWarnings := policy.detect(policy.redact(selected));
    var warnings := if contextWarnings >= selectedWarnings then contextWarnings else selectedWarnings;
    var render := RenderExternal(Header(run, stream, warnings) + selected, policy, maxChars);
    if render.blocked || (contextWarnings > 0 && policy.action == Block) then Retrieval(Blocked, None)
    else Retrieval(Active, Some(render))
  }

  datatype Reading = CorruptReading | Reading(selected: string, context: string)

  /** The two reads of a retrieve; a corrupt line in either decides. */
  function ReadBoth(m: StreamIndex, data: Bytes, startLine: u64, lineCount: u32): Result<Reading, Error> {
    var selected := ReadSlice(data, m, startLine, lineCount);
    if selected == Err(InvalidData) then Ok(CorruptReading)
    else if selected.Err? then Err(selected.error)
    else
      var context := ReadSlice(data, m, ContextStart(startLine), ContextCount(lineCount));
      if context == Err(InvalidData) then Ok(CorruptReading)
      else if context.Err? then Err(context.error)
      else Ok(Reading(Utf8.Text(selected.value), Utf8.Text(context.value)))
  }

  function Answer(run: Uuid, stream: Stream, reading: Result<Reading, Error>, policy: Policy, maxChars: nat): Result<Retrieval, Error> {
    match reading
    case Err(e) => Err(e)
    case Ok(CorruptReading) => Ok(Retrieval(Corrupt, None))
    case Ok(Reading(selected, context)) => Ok(Present(run, stream, selected, context, policy, maxChars))
  }

  method RetrieveLines(run: Uuid, stream: Stream, m: StreamIndex, data: Bytes, startLine: u64, lineCount: u32,
                       policy: Policy, maxChars: nat)
    returns (r: Result<Retrieval, Error>)
    ensures r == Answer(run, stream, ReadBoth(m, data, startLine, lineCount), policy, maxChars)
  {
    var selected := ReadLineSlice(data, m, startLine, lineCount);
    if selected.Err? {
      return if selected.error == InvalidData then Ok(Retrieval(Corrupt, None)) else Err(selected.error);
    }
    var context := ReadLineSlice(data, m, ContextStart(startLine), ContextCount(lineCount));
    if context.Err? {
      return if context.error == InvalidData then Ok(Retrieval(Corrupt, None)) else Err(context.error);
    }
    r := Ok(Present(run, stream, Utf8.Text(selected.value), Utf8.Text(context.value), policy, maxChars));
  }

  // ---- Laws ------------------------------------------------------------------------

  /** The characters of lines i..j of a text. */
  function LinesText(t: Bytes, i: nat, j: nat): Option<string> {
    var n := |Lines(t)|;
    var from, to := Min(i, n), Min(j, n);
    if from <= to then Utf8.Decode(Concat(Lines(t)[from..to])) else None
  }

  /**
   A stored text is read as exactly the requested lines and their neighbours; it is never
   called corrupt. PresentIsSafe says what then leaves.
   */
  lemma RetrieveIsFaithful(t: Bytes, m: StreamIndex, startLine: u64, lineCount: u32)
    requires |t| <= MAX_STREAM_BYTES && BuildIndex(t) == Ok(m) && Utf8.Valid(t)
    requires 1 <= lineCount <= MAX_LINES_PER_QUERY
    ensures var selected := LinesText(t, startLine, startLine + lineCount);
            var first: nat := if startLine == 0 then 0 else startLine - 1;
            var context := LinesText(t, first, first + lineCount + 2);
            && selected.Some? && context.Some?
            && ReadBoth(m, t, startLine, lineCount) == Ok(Reading(selected.value, context.value))
  {
    hide ReadSlice, LinesText, BuildIndex, Utf8.Valid;
    SliceText(t, m, startLine, lineCount);
    SliceText(t, m, ContextStart(startLine), ContextCount(lineCount));
  }

  lemma SliceText(t: Bytes, m: StreamIndex, startLine: u64, lineCount: u32)
    requires |t| <= MAX_STREAM_BYTES && BuildIndex(t) == Ok(m) && Utf8.Valid(t)
    ensures ReadSlice(t, m, startLine, lineCount).Ok?
    ensures LinesText(t, startLine, startLine + lineCount) == Some(Utf8.Text(ReadSlice(t, m, startLine, lineCount).value))
  {
    SlicesAreFaithful(t, m, startLine, lineCount);
  }

  /** Three lines that name the run and the stream, a fourth if anything was detected, and then the lines themselves. */
  ghost predicate Introduces(text: string, run: Uuid, stream: Stream, warnings: nat, selected: string) {
    text == "status: active\nrun_id: " + UuidText(run) + "\nstream: " + (if stream == Stdout then "stdout" else "stderr") + "\n"
            + (if warnings == 0 then "" else "prompt_injection_warnings: " + Decimal(warnings) + "\n") + selected
  }

  /**
   What leaves of some lines, judged with their context. If nothing blocks it, it is the envelope of what is
   left, redacted, of the lines with their introduction, which counts the warnings of the lines or of their
   context, whichever are more.
   */
  ghost predicate Delivers(r: Retrieval, run: Uuid, stream: Stream, selected: string, context: string, policy: Policy, maxChars: nat) {
    var inContext, inLines := policy.detect(policy.redact(context)), policy.detect(policy.redact(selected));
    exists text ::
      && Introduces(text, run, stream, if inContext > inLines then inContext else inLines, selected)
      && var found := policy.detect(policy.redact(text));
         if policy.action == Block && (inContext > 0 || found > 0) then r == Retrieval(Blocked, None)
         else
           && r.status == Active && r.content.Some? && r.content.value.content.Some?
           && var render := r.content.value;
              && Enveloped(policy.redact(text), render.content.value, maxChars) && |render.content.value| <= maxChars
              && render.warnings == found && !render.blocked
              && render.redactions == (if Marked(policy.redact(text)) >= Marked(text) then Marked(policy.redact(text)) - Marked(text) else 0)
              && (render.truncated <==> if maxChars > OVERHEAD then |policy.redact(text)| > maxChars - OVERHEAD else policy.redact(text) != [])
  }

  lemma PresentDelivers(run: Uuid, stream: Stream, selected: string, context: string, policy: Policy, maxChars: nat)
    ensures Delivers(Present(run, stream, selected, context, policy, maxChars), run, stream, selected, context, policy, maxChars)
  {
    hide RenderExternal, Enveloped, UuidText, Decimal, Marked;
    var inContext, inLines := policy.detect(policy.redact(context)), policy.detect(policy.redact(selected));
    var warnings := if inContext >= inLines then inContext else inLines;
    var text := Header(run, stream, warnings) + selected;
    RenderKeepsItsBudget(text, policy, maxChars);
    assert Introduces(text, run, stream, if inContext > inLines then inContext else inLines, selected);
  }

  /** Content leaves only with status Active, within the budget, and under Block only when nothing was detected. */
  lemma PresentIsSafe(run: Uuid, stream: Stream, selected: string, context: string, policy: Policy, maxChars: nat)
    ensures var r := Present(run, stream, selected, context, policy, maxChars);
            && r.status in {Active, Blocked}
            && (r.status == Active <==> r.content.Some?)
            && (r.status == Active ==> !r.content.value.blocked && |r.content.value.content.value| <= maxChars)
            && (policy.action == Warn ==> r.status == Active)
            && (policy.action == Block ==>
                  (r.status == Active <==>
                    && policy.detect(policy.redact(context)) == 0
                    && exists text ::
                         && Introduces(text, run, stream, policy.detect(policy.redact(selected)), selected)
                         && policy.detect(policy.redact(text)) == 0))
  {
    hide Present, Enveloped;
    PresentDelivers(run, stream, selected, context, policy, maxChars);
  }

  lemma ContextCovers(m: StreamIndex, startLine: u64, lineCount: u32)
    requires 1 <= lineCount <= MAX_LINES_PER_QUERY
    ensures ContextStart(startLine) <= startLine
    ensures EndLine(m, startLine, lineCount) <= EndLine(m, ContextStart(startLine), ContextCount(lineCount))
  {
  }

  /**
   With at most one wrong byte in each line of the data file, a retrieve is Corrupt, without
   content, exactly when its window or the line on either side is damaged; any other retrieve
   is unchanged.
   */
  lemma RetrieveMeetsDamage(run: Uuid, stream: Stream, t: Bytes, data: Bytes, m: StreamIndex,
                            startLine: u64, lineCount: u32, policy: Policy, maxChars: nat)
    requires |t| <= MAX_STREAM_BYTES && BuildIndex(t) == Ok(m) && Utf8.Valid(t)
    requires Places(m.offsets, |t|) && SparseDamage(t, data, m)
    requires 1 <= lineCount <= MAX_LINES_PER_QUERY
    ensures m.lineCount <= |m.offsets|
    ensures var i, j := ContextStart(startLine), EndLine(m, ContextStart(startLine), ContextCount(lineCount));
            Answer(run, stream, ReadBoth(m, data, startLine, lineCount), policy, maxChars)
            == if exists k | i <= k < j :: Damaged(t, data, m, k) then Ok(Retrieval(Corrupt, None))
               else Answer(run, stream, ReadBoth(m, t, startLine, lineCount), policy, maxChars)
  {
    ReadBothMeetsDamage(t, data, m, startLine, lineCount);
  }

  lemma ReadBothMeetsDamage(t: Bytes, data: Bytes, m: StreamIndex, startLine: u64, lineCount: u32)
    requires |t| <= MAX_STREAM_BYTES && BuildIndex(t) == Ok(m) && Utf8.Valid(t)
    requires Places(m.offsets, |t|) && SparseDamage(t, data, m)
    requires 1 <= lineCount <= MAX_LINES_PER_QUERY
    ensures m.lineCount <= |m.offsets|
    ensures var i, j := ContextStart(startLine), EndLine(m, ContextStart(startLine), ContextCount(lineCount));
            ReadBoth(m, data, startLine, lineCount)
            == if exists k | i <= k < j :: Damaged(t, data, m, k) then Ok(CorruptReading)
               else ReadBoth(m, t, startLine, lineCount)
  {
    ContextCovers(m, startLine, lineCount);
    DamageIsDetected(t, data, m, startLine, lineCount);
    DamageIsDetected(t, data, m, ContextStart(startLine), ContextCount(lineCount));
    SliceText(t, m, startLine, lineCount);
    SliceText(t, m, ContextStart(startLine), ContextCount(lineCount));
  }

  /** Over a data file cut short a retrieve fails exactly when its window or the lines after it are not all there. */
  lemma RetrieveMeetsShortData(run: Uuid, stream: Stream, t: Bytes, m: StreamIndex, n: nat,
                               startLine: u64, lineCount: u32, policy: Policy, maxChars: nat)
    requires |t| <= MAX_STREAM_BYTES && BuildIndex(t) == Ok(m) && Utf8.Valid(t) && n <= |t|
    requires 1 <= lineCount <= MAX_LINES_PER_QUERY
    ensures var i: nat := if startLine == 0 then 0 else startLine - 1;
            var j := EndLine(m, i, lineCount + 2);
            Answer(run, stream, ReadBoth(m, t[..n], startLine, lineCount), policy, maxChars)
            == if i < j && Bound(m.offsets, |t|, j) > n then Err(UnexpectedEof)
               else Answer(run, stream, ReadBoth(m, t, startLine, lineCount), policy, maxChars)
  {
    hide ReadSlice, Present, Utf8.Valid, BuildIndex;
    ContextCovers(m, startLine, lineCount);
    ShortDataFails(t, m, n, startLine, lineCount);
    ShortDataFails(t, m, n, ContextStart(startLine), ContextCount(lineCount));
    SliceText(t, m, startLine, lineCount);
    SliceText(t, m, ContextStart(startLine), ContextCount(lineCount));
    UndamagedLines(t, m);
    ShapeOfIndex(t, m);
    BoundsGrow(m, |t|, EndLine(m, startLine, lineCount), EndLine(m, ContextStart(startLine), ContextCount(lineCount)));
  }

  lemma BoundsGrow(m: StreamIndex, length: nat, i: nat, j: nat)
    requires Places(m.offsets, length) && i <= j
    ensures Bound(m.offsets, length, i) <= Bound(m.offsets, length, j)
  {
  }
}
