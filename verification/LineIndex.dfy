/**
 The line index of a stored stream: `stream_manifest`, `validate_stream_manifest` and
 `read_line_slice` of `src/storage.rs`, against a naive split after each line feed.
 */
module LineIndex {
  import opened Basics
  import Fnv
  import Utf8

  const MAX_STREAM_BYTES := 64 * 1024 * 1024
  const MAX_INDEX_ENTRIES := 1_000_000
  const NEWLINE := Utf8.NEWLINE

  datatype StreamIndex = StreamIndex(
    byteLen: u64,
    lineCount: u64,
    offsets: seq<u64>,
    checksums: seq<u64>,
    checksum: u64)

  // ---- The naive split -------------------------------------------------------------

  function NextBreak(t: Bytes, i: nat): (e: nat)
    requires i < |t|
    ensures i < e <= |t|
    ensures e == |t| || t[e - 1] == NEWLINE
    ensures forall x | i <= x < e - 1 :: t[x] != NEWLINE
    decreases |t| - i
  {
    if t[i] == NEWLINE || i + 1 == |t| then i + 1 else NextBreak(t, i + 1)
  }

  function LinesFrom(t: Bytes, i: nat): seq<Bytes>
    requires i <= |t|
    decreases |t| - i
  {
    if i == |t| then []
    else [t[i..NextBreak(t, i)]] + LinesFrom(t, NextBreak(t, i))
  }

  function Lines(t: Bytes): seq<Bytes> { LinesFrom(t, 0) }

  ghost predicate IsLine(line: Bytes, last: bool) {
    && line != []
    && (forall x | 0 <= x < |line| - 1 :: line[x] != NEWLINE)
    && (!last ==> line[|line| - 1] == NEWLINE)
  }

  /** The split loses nothing, and breaks exactly after each line feed. */
  lemma {:induction false} LinesAreExact(t: Bytes, i: nat)
    requires i <= |t|
    ensures Concat(LinesFrom(t, i)) == t[i..]
    ensures var ls := LinesFrom(t, i); forall k | 0 <= k < |ls| :: IsLine(ls[k], k == |ls| - 1)
    decreases |t| - i
  {
    if i < |t| {
      var e := NextBreak(t, i);
      LinesAreExact(t, e);
      assert t[i..] == t[i..e] + t[e..];
      var ls := LinesFrom(t, i);
      assert ls[1..] == LinesFrom(t, e);
      forall k | 0 <= k < |ls|
        ensures IsLine(ls[k], k == |ls| - 1)
      {
        if k == 0 {
          assert forall x | 0 <= x < e - i - 1 :: ls[0][x] == t[i + x];
          assert |ls| > 1 ==> e < |t|;
        } else {
          assert ls[k] == LinesFrom(t, e)[k - 1];
        }
      }
    }
  }

  // ---- Building the index ----------------------------------------------------------

  /** The line starts found in the first n bytes. */
  function Starts(t: Bytes, n: nat): (starts: seq<nat>)
    requires n <= |t|
    ensures |starts| > 0 && starts[0] == 0
    ensures forall k | 0 <= k < |starts| :: starts[k] <= n
  {
    if n == 0 then [0]
    else Starts(t, n - 1) + if t[n - 1] == NEWLINE && n < |t| then [n] else []
  }

  function Bound(starts: seq<nat>, length: nat, k: nat): nat {
    if k < |starts| then starts[k] else length
  }

  ghost predicate Increasing(s: seq<nat>) {
    forall j, k | 0 <= j < k < |s| :: s[j] < s[k]
  }

  ghost predicate Places(starts: seq<nat>, length: nat) {
    Increasing(starts) && forall k | 0 <= k < |starts| :: starts[k] <= length
  }

  /** The bytes between two neighbouring line starts. */
  function LineAt(data: Bytes, starts: seq<nat>, k: nat): Bytes
    requires k < |starts| && Places(starts, |data|)
  {
    data[starts[k]..Bound(starts, |data|, k + 1)]
  }

  function IndexOf(t: Bytes): StreamIndex
    requires |t| <= MAX_U64
  {
    var starts := Starts(t, |t|);
    StartsIncrease(t, |t|);
    var count := if t == [] then 0 else |starts|;
    StreamIndex(
      |t|,
      count,
      starts,
      seq(count, k requires 0 <= k < count => Fnv.Checksum(LineAt(t, starts, k))),
      Fnv.Checksum(t))
  }

  /** What `stream_manifest` returns: the index, unless it would be too long. */
  function BuildIndex(t: Bytes): Result<StreamIndex, Error>
    requires |t| <= MAX_U64
  {
    if |Starts(t, |t|)| > MAX_INDEX_ENTRIES then Err(StorageFull) else Ok(IndexOf(t))
  }

  lemma {:induction false} StartsIncrease(t: Bytes, n: nat)
    requires n <= |t|
    ensures Increasing(Starts(t, n))
    ensures forall k | 0 < k < |Starts(t, n)| :: Starts(t, n)[k] < |t|
    ensures |Starts(t, n)| <= n + 1
    ensures n == |t| > 0 ==> |Starts(t, n)| <= |t|
  {
    if n > 0 {
      StartsIncrease(t, n - 1);
    }
  }

  lemma {:induction false} StartsAreBreaks(t: Bytes, n: nat, x: nat)
    requires n <= |t|
    ensures x in Starts(t, n) <==> x == 0 || (x <= n && x < |t| && t[x - 1] == NEWLINE)
  {
    if n > 0 {
      StartsAreBreaks(t, n - 1, x);
    }
  }

  lemma {:induction false} StartsGrow(t: Bytes, m: nat, n: nat)
    requires m <= n <= |t|
    ensures |Starts(t, m)| <= |Starts(t, n)|
  {
    if m < n {
      StartsGrow(t, m, n - 1);
    }
  }

  method StreamManifest(bytes: Bytes) returns (r: Result<StreamIndex, Error>)
    requires |bytes| <= MAX_U64
    ensures r == BuildIndex(bytes)
  {
    var offsets: seq<u64> := [0];
    for i := 0 to |bytes|
      invariant offsets == Starts(bytes, i)
      invariant |offsets| <= MAX_INDEX_ENTRIES
    {
      if bytes[i] == NEWLINE && i + 1 < |bytes| {
        offsets := offsets + [i + 1];
        if |offsets| > MAX_INDEX_ENTRIES {
          StartsGrow(bytes, i + 1, |bytes|);
          return Err(StorageFull);
        }
      }
    }
    StartsIncrease(bytes, |bytes|);
    var lineCount := if |bytes| == 0 then 0 else |offsets|;
    var checksums: seq<u64> := [];
    for k := 0 to lineCount
      invariant |checksums| == k
      invariant forall j | 0 <= j < k :: checksums[j] == Fnv.Checksum(LineAt(bytes, offsets, j))
    {
      var start, end := offsets[k], if k + 1 < |offsets| then offsets[k + 1] else |bytes|;
      var sum := Fnv.ComputeChecksum(bytes[start..end]);
      checksums := checksums + [sum];
    }
    assert checksums == IndexOf(bytes).checksums;
    var whole := Fnv.ComputeChecksum(bytes);
    r := Ok(StreamIndex(|bytes|, lineCount, offsets, checksums, whole));
  }

  // ---- Validating an index read back from disk -------------------------------------

  predicate ValidIndex(m: StreamIndex) {
    && m.byteLen <= MAX_STREAM_BYTES
    && |m.offsets| <= MAX_INDEX_ENTRIES
    && |m.checksums| <= MAX_INDEX_ENTRIES
    && m.offsets != []
    && m.offsets[0] == 0
    && m.lineCount == (if m.byteLen == 0 then 0 else |m.offsets|)
    && |m.checksums| == m.lineCount
    && (forall k | 0 <= k < |m.offsets| :: m.offsets[k] <= m.byteLen)
    && (forall k | 0 <= k < |m.offsets| - 1 :: m.offsets[k] < m.offsets[k + 1])
  }

  /** Every index built within the stream limit passes the validation at read time. */
  lemma BuiltIndexIsValid(t: Bytes)
    requires |t| <= MAX_STREAM_BYTES && BuildIndex(t).Ok?
    ensures ValidIndex(BuildIndex(t).value)
  {
    StartsIncrease(t, |t|);
  }

  lemma {:induction false} ValidIndexIncreases(m: StreamIndex, j: nat, k: nat)
    requires ValidIndex(m) && j < k <= |m.offsets|
    ensures m.offsets[j] <= Bound(m.offsets, m.byteLen, k)
    ensures k < |m.offsets| ==> m.offsets[j] < m.offsets[k]
  {
    if j + 1 < k {
      ValidIndexIncreases(m, j, k - 1);
    }
  }

  /** The bounds of 64 MiB and a million lines, starts that ascend from 0 within the length, one line each, and one checksum a line. */
  lemma ValidExactly(m: StreamIndex)
    ensures ValidIndex(m) <==>
              && m.byteLen <= 0x400_0000 && 1 <= |m.offsets| <= 1_000_000
              && m.offsets[0] == 0 && Places(m.offsets, m.byteLen)
              && m.lineCount == |m.checksums| == if m.byteLen == 0 then 0 else |m.offsets|
  {
    if ValidIndex(m) {
      forall j, k | 0 <= j < k < |m.offsets|
        ensures m.offsets[j] < m.offsets[k]
      {
        ValidIndexIncreases(m, j, k);
      }
    }
  }

  // ---- Reading a range of lines ----------------------------------------------------

  /** `read_line_slice` once the range is known to be non-empty: the first line that fails decides. */
  function CheckLines(buffer: Bytes, m: StreamIndex, base: nat, k: nat, end: nat): Option<Error>
    requires end <= |m.offsets| && end <= |m.checksums|
    decreases end - k
  {
    if k >= end then None
    else if m.offsets[k] < base || (k + 1 < |m.offsets| && m.offsets[k + 1] < base) then Some(Fault)
    else
      var from := m.offsets[k] - base;
      var to := if k + 1 < |m.offsets| then m.offsets[k + 1] - base else |buffer|;
      if to > |buffer| || from > to || Fnv.Checksum(buffer[from..to]) != m.checksums[k] then Some(InvalidData)
      else CheckLines(buffer, m, base, k + 1, end)
  }

  function EndLine(m: StreamIndex, startLine: u64, lineCount: u32): u64 {
    if startLine + lineCount > MAX_U64 then m.lineCount else Min(startLine + lineCount, m.lineCount)
  }

  function ReadSlice(data: Bytes, m: StreamIndex, startLine: u64, lineCount: u32): (r: Result<Bytes, Error>)
    ensures r.Ok? ==> Utf8.Valid(r.value)
  {
    var end := EndLine(m, startLine, lineCount);
    if startLine >= m.lineCount then Ok([])
    else if end > |m.offsets| || end > |m.checksums| || startLine >= end then Ok([])
    else
      var from, to := m.offsets[startLine], if end < |m.offsets| then m.offsets[end] else m.byteLen;
      if to < from || to > m.byteLen then Err(InvalidData)
      else if to > |data| then Err(UnexpectedEof)
      else
        var buffer := data[from..to];
        match CheckLines(buffer, m, from, startLine, end)
        case Some(e) => Err(e)
        case None => if Utf8.Valid(buffer) then Ok(buffer) else Err(InvalidData)
  }

  method ReadLineSlice(data: Bytes, m: StreamIndex, startLine: u64, lineCount: u32)
    returns (r: Result<Bytes, Error>)
    ensures r == ReadSlice(data, m, startLine, lineCount)
  {
    if startLine >= m.lineCount {
      return Ok([]);
    }
    var sum := startLine + lineCount;
    var endLine := if sum > MAX_U64 then m.lineCount else Min(sum, m.lineCount);
    if endLine > |m.offsets| || endLine > |m.checksums| || startLine >= endLine {
      return Ok([]);
    }
    var startOffset := m.offsets[startLine];
    var endOffset := if endLine < |m.offsets| then m.offsets[endLine] else m.byteLen;
    if endOffset < startOffset || endOffset > m.byteLen {
      return Err(InvalidData);
    }
    if endOffset > |data| {
      return Err(UnexpectedEof);
    }
    var buffer := data[startOffset..endOffset];
    var failure := VerifyLines(buffer, m, startOffset, startLine, endLine);
    if failure.Some? {
      return Err(failure.value);
    }
    r := if Utf8.Valid(buffer) then Ok(buffer) else Err(InvalidData);
  }

  // The checksum loop of `read_line_slice`.
  method VerifyLines(buffer: Bytes, m: StreamIndex, base: nat, start: nat, end: nat) returns (failure: Option<Error>)
    requires start <= end <= |m.offsets| && end <= |m.checksums|
    ensures failure == CheckLines(buffer, m, base, start, end)
  {
    for k := start to end
      invariant CheckLines(buffer, m, base, k, end) == CheckLines(buffer, m, base, start, end)
    {
      if m.offsets[k] < base || (k + 1 < |m.offsets| && m.offsets[k + 1] < base) {
        return Some(Fault);
      }
      var lineStart := m.offsets[k] - base;
      var lineEnd := if k + 1 < |m.offsets| then m.offsets[k + 1] - base else |buffer|;
      if lineEnd > |buffer| || lineStart > lineEnd {
        return Some(InvalidData);
      }
      var sum := Fnv.ComputeChecksum(buffer[lineStart..lineEnd]);
      if sum != m.checksums[k] {
        return Some(InvalidData);
      }
    }
    failure := None;
  }
}
