/**
 Admission by estimate in `src/storage.rs`: `estimated_index_bytes` and `estimated_record_bytes`
 against the bytes a record really takes.
 */
module Quota {
  import opened Basics
  import opened LineIndex
  import opened LineIndexLaws
  import opened Records
  import opened Uuids
  import Fnv

  const MANIFEST_OVERHEAD_BYTES := 4 * 1024
  const BYTES_PER_LINE := 48

  /** How many of the first n - 1 bytes are line feeds: the windows of two that start with one. */
  function BreaksBefore(t: Bytes, n: nat): nat
    requires n <= |t|
  {
    if n <= 1 then 0 else BreaksBefore(t, n - 1) + if t[n - 2] == NEWLINE then 1 else 0
  }

  function EstimatedEntries(t: Bytes): nat {
    if t == [] then 0 else 1 + BreaksBefore(t, |t|)
  }

  function EstimatedIndexBytes(t: Bytes): nat { EstimatedEntries(t) * BYTES_PER_LINE }

  function EstimatedRecordBytes(stdout: Bytes, stderr: Bytes): nat {
    |stdout| + |stderr| + EstimatedIndexBytes(stdout) + EstimatedIndexBytes(stderr) + MANIFEST_OVERHEAD_BYTES
  }

  /** What `record_disk_bytes` measures for a whole record. */
  function RecordBytes(stdout: Bytes, stderr: Bytes, m: Manifest): nat {
    |stdout| + |stderr| + ManifestSize(m)
  }

  // ---- The estimate counts the lines of the index ------------------------------------

  lemma {:induction false} BreaksAreStarts(t: Bytes, n: nat)
    requires 1 <= n <= |t|
    ensures 1 + BreaksBefore(t, n) == |Starts(t, n - 1)|
  {
    if n > 1 {
      BreaksAreStarts(t, n - 1);
    }
  }

  /** Counting windows of two gives exactly the number of lines of the naive split. */
  lemma EstimateCountsLines(t: Bytes)
    requires |t| <= MAX_U64
    ensures EstimatedEntries(t) == |Lines(t)| == IndexOf(t).lineCount
  {
    IndexedLinesAreTheLines(t);
    if t != [] {
      BreaksAreStarts(t, |t|);
      assert Starts(t, |t|) == Starts(t, |t| - 1);
    }
  }

  // ---- The manifest in closed form ---------------------------------------------------------

  /** The number of decimal digits. */
  function Width(n: nat): nat { if n < 10 then 1 else 1 + Width(n / 10) }

  function IntWidth(n: int): nat { if n < 0 then 1 + Width(-n) else Width(n) }

  lemma {:induction false} DecimalHasWidth(n: nat)
    ensures |Decimal(n)| == Width(n)
  {
    if n >= 10 {
      DecimalHasWidth(n / 10);
    }
  }

  /** The digits that lines put into both index arrays: where each starts, and its checksum. */
  function LineDigits(ls: seq<Bytes>, start: nat): nat {
    if ls == [] then 0 else Width(start) + Width(Fnv.Checksum(ls[0])) + LineDigits(ls[1..], start + |ls[0]|)
  }

  /** The bytes of a stream's index in the manifest, from the text alone. */
  function IndexJsonBytes(t: Bytes): nat {
    Width(|t|) + Width(|Lines(t)|) + Width(Fnv.Checksum(t)) +
    if t == [] then 123 else 118 + 16 * |Lines(t)| + LineDigits(Lines(t), 0)
  }

  /** The bytes of a manifest, from what a commit is given and the time at which it writes it. */
  function ManifestBytes(commandKind: Bytes, statsJson: Bytes, stdout: Bytes, stderr: Bytes, now: i64, ttl: nat): nat {
    241 + |commandKind| + |statsJson| + IntWidth(now) + IntWidth(SaturatingLater(now, ttl)) + IndexJsonBytes(stdout) + IndexJsonBytes(stderr)
  }

  function Digits(values: seq<u64>): nat {
    if values == [] then 0 else Digits(values[..|values| - 1]) + Width(values[|values| - 1])
  }

  lemma {:induction false} ElementsBytes(values: seq<u64>)
    ensures |Elements(values)| == 8 * |values| + Digits(values) - if values == [] then 0 else 1
  {
    if values != [] {
      ElementsBytes(values[..|values| - 1]);
      DecimalHasWidth(values[|values| - 1]);
    }
  }

  lemma {:induction false} DigitsJoin(a: seq<u64>, b: seq<u64>)
    ensures Digits(a + b) == Digits(a) + Digits(b)
    decreases |b|
  {
    if b == [] {
      assert a + b == a;
    } else {
      assert (a + b)[..|a + b| - 1] == a + b[..|b| - 1];
      DigitsJoin(a, b[..|b| - 1]);
    }
  }

  // Offsets that follow the lines, and their checksums, have the digits of the lines.
  lemma {:induction false} LineDigitsAre(ls: seq<Bytes>, offsets: seq<u64>, checksums: seq<u64>, start: nat)
    requires |offsets| == |checksums| == |ls| && (ls != [] ==> offsets[0] == start)
    requires forall i | 0 <= i < |ls| - 1 :: offsets[i + 1] == offsets[i] + |ls[i]|
    requires forall i | 0 <= i < |ls| :: checksums[i] == Fnv.Checksum(ls[i])
    ensures LineDigits(ls, start) == Digits(offsets) + Digits(checksums)
    decreases |ls|
  {
    hide Fnv.Checksum, Width;
    if ls != [] {
      LineDigitsAre(ls[1..], offsets[1..], checksums[1..], start + |ls[0]|);
      HeadDigits(offsets);
      HeadDigits(checksums);
    }
  }

  lemma IndexDigits(t: Bytes)
    requires |t| <= MAX_U64 && t != []
    ensures LineDigits(Lines(t), 0) == Digits(IndexOf(t).offsets) + Digits(IndexOf(t).checksums)
  {
    hide Digits, LineDigits, Fnv.Checksum, Lines, IndexOf;
    var m := IndexOf(t);
    IndexShape(t);
    IndexedLinesAreTheLines(t);
    forall k | 0 <= k < |Lines(t)|
      ensures m.checksums[k] == Fnv.Checksum(Lines(t)[k])
      ensures k < |Lines(t)| - 1 ==> m.offsets[k + 1] == m.offsets[k] + |Lines(t)[k]|
    {
      LineSpans(t, m.offsets, k);
      ChecksumOfLine(t, m, k);
    }
    LineDigitsAre(Lines(t), m.offsets, m.checksums, 0);
  }

  lemma HeadDigits(values: seq<u64>)
    requires values != []
    ensures Digits(values) == Width(values[0]) + Digits(values[1..])
  {
    assert values == [values[0]] + values[1..];
    DigitsJoin([values[0]], values[1..]);
    assert [values[0]][..0] == [];
  }

  lemma LineSpans(t: Bytes, starts: seq<nat>, k: nat)
    requires Places(starts, |t|) && k < |starts|
    ensures Bound(starts, |t|, k) + |LineAt(t, starts, k)| == Bound(starts, |t|, k + 1)
  {
    assert k + 1 < |starts| ==> starts[k] < starts[k + 1];
  }

  lemma ChecksumOfLine(t: Bytes, m: StreamIndex, k: nat)
    requires |t| <= MAX_U64 && m == IndexOf(t) && Places(m.offsets, |t|) && k < |m.offsets| && k < |m.checksums|
    ensures m.checksums[k] == Fnv.Checksum(LineAt(t, m.offsets, k))
  {
  }

  lemma StreamTextBytes(m: StreamIndex)
    ensures |StreamText(m)|
         == 108 + Width(m.byteLen) + Width(m.lineCount) + Width(m.checksum) + |Elements(m.offsets)| + |Elements(m.checksums)|
            + (if m.offsets == [] then 1 else 6) + (if m.checksums == [] then 1 else 6)
  {
    DecimalHasWidth(m.byteLen);
    DecimalHasWidth(m.lineCount);
    DecimalHasWidth(m.checksum);
  }

  lemma IndexJsonIs(t: Bytes)
    requires |t| <= MAX_U64
    ensures |StreamText(IndexOf(t))| == IndexJsonBytes(t)
  {
    hide StreamText;
    var m := IndexOf(t);
    StreamTextBytes(m);
    IndexShape(t);
    ElementsBytes(m.offsets);
    ElementsBytes(m.checksums);
    if t == [] {
      HeadDigits(m.offsets);
    } else {
      IndexDigits(t);
    }
  }

  lemma IndexShape(t: Bytes)
    requires |t| <= MAX_U64
    ensures var m := IndexOf(t);
            && m.byteLen == |t| && m.lineCount == |Lines(t)| && m.checksum == Fnv.Checksum(t)
            && if t == [] then m.offsets == [0] && m.checksums == [] && Lines(t) == []
               else |m.offsets| == |m.checksums| == |Lines(t)| > 0 && m.offsets[0] == 0
  {
    IndexedLinesAreTheLines(t);
    StartsIncrease(t, |t|);
  }

  lemma IntTextBytes(n: int)
    ensures |IntText(n)| == IntWidth(n)
  {
    DecimalHasWidth(if n < 0 then -n else n);
  }

  lemma MiddleTextBytes(m: Manifest)
    ensures |MiddleText(m)| == 144 + |IntText(m.createdAt)| + |IntText(m.expiresAt)| + |StreamText(m.stdout)| + |StreamText(m.stderr)|
  {
  }

  lemma HeadTextBytes(m: Manifest)
    ensures |HeadText(m)| == 58 + |Decimal(m.schemaVersion)| + |m.runId|
  {
  }

  /** The manifest a commit writes takes exactly so many bytes. */
  lemma ManifestBytesAre(run: Uuid, stats: Stats, commandKind: Bytes, stdout: Bytes, stderr: Bytes, now: i64, ttl: nat)
    requires |stdout| <= MAX_U64 && |stderr| <= MAX_U64 && BuildManifest(run, stats, commandKind, stdout, stderr, now, ttl).Ok?
    ensures ManifestSize(BuildManifest(run, stats, commandKind, stdout, stderr, now, ttl).value)
         == ManifestBytes(commandKind, stats.json, stdout, stderr, now, ttl)
  {
    hide StreamText, IntText, MiddleText, HeadText, IndexOf;
    var m := BuildManifest(run, stats, commandKind, stdout, stderr, now, ttl).value;
    HeadTextBytes(m);
    MiddleTextBytes(m);
    IntTextBytes(m.createdAt);
    IntTextBytes(m.expiresAt);
    IndexJsonIs(stdout);
    IndexJsonIs(stderr);
    DecimalHasWidth(Records.SCHEMA_VERSION);
  }

  // ---- 48 bytes a line are enough ------------------------------------------------------------

  lemma {:induction false} WidthBelow(n: nat, k: nat)
    requires k > 0 && n < Pow10(k)
    ensures 1 <= Width(n) <= k
  {
    DecimalHasWidth(n);
    DecimalWidth(n, k);
  }

  lemma Pow10Four(k: nat)
    ensures Pow10(k + 4) == 10000 * Pow10(k)
  {
    assert Pow10(k + 2) == 100 * Pow10(k);
    assert Pow10(k + 4) == 100 * Pow10(k + 2);
  }

  // The widths of the numbers of a manifest, for k = 0.
  lemma Widths(k: nat)
    requires k == 0
    ensures Pow10(k + 8) == 1_0000_0000
    ensures Pow10(k + 20) == 1_0000_0000_0000_0000_0000
  {
    Pow10Four(k);
    Pow10Four(k + 4);
    Pow10Four(k + 8);
    Pow10Four(k + 12);
    Pow10Four(k + 16);
  }

  lemma WidthOfOffset(n: nat, k: nat)
    requires k == 0 && n <= MAX_STREAM_BYTES
    ensures 1 <= Width(n) <= 8
  {
    Widths(k);
    WidthBelow(n, k + 8);
  }

  lemma WidthOfWord(n: u64, k: nat)
    requires k == 0
    ensures 1 <= Width(n) <= 20
  {
    Widths(k);
    WidthBelow(n, k + 20);
  }

  /** What the lines of a text leave unused of their 48 bytes each. */
  function Spare(t: Bytes): int { 32 * |Lines(t)| - LineDigits(Lines(t), 0) }

  lemma {:induction false} LineDigitsFit(ls: seq<Bytes>, start: nat, k: nat)
    requires k == 0 && start + |Concat(ls)| <= MAX_STREAM_BYTES
    ensures 2 * |ls| <= LineDigits(ls, start) <= 28 * |ls|
    decreases |ls|
  {
    if ls != [] {
      WidthOfOffset(start, k);
      WidthOfWord(Fnv.Checksum(ls[0]), k);
      LineDigitsFit(ls[1..], start + |ls[0]|, k);
    }
  }

  /** Both arrays of any index within the stream limit take at most 44 of the 48 bytes a line. */
  lemma IndexFitsEstimate(t: Bytes)
    requires |t| <= MAX_STREAM_BYTES
    ensures 4 * |Lines(t)| <= Spare(t) <= 30 * |Lines(t)|
  {
    LinesAreExact(t, 0);
    assert t[0..] == t;
    LineDigitsFit(Lines(t), 0, 0);
  }

  // ---- When the estimate dominates ------------------------------------------------------------

  /** What an index takes beyond 48 bytes a line and what its lines leave unused. */
  function IndexFrame(t: Bytes): nat {
    (if t == [] then 123 else 118) + Width(|t|) + Width(|Lines(t)|) + Width(Fnv.Checksum(t))
  }

  /** How many bytes of command_kind and stats the estimate has room for, from both texts and the clock. */
  function Room(stdout: Bytes, stderr: Bytes, now: i64, ttl: nat): int {
    MANIFEST_OVERHEAD_BYTES - 241 - IntWidth(now) - IntWidth(SaturatingLater(now, ttl))
    - IndexFrame(stdout) - IndexFrame(stderr) + Spare(stdout) + Spare(stderr)
  }

  lemma IndexJsonInFrame(t: Bytes)
    requires |t| <= MAX_U64
    ensures IndexJsonBytes(t) == IndexFrame(t) - Spare(t) + EstimatedIndexBytes(t)
  {
    hide Width, Fnv.Checksum;
    EstimateCountsLines(t);
    if t == [] {
      assert Lines(t) == [];
    }
  }

  /**
   The estimate exceeds the real size by exactly the room it has for command_kind and stats less
   what they take; so it dominates if and only if they fit that room.
   */
  lemma EstimateDominatesExactly(run: Uuid, stats: Stats, commandKind: Bytes, stdout: Bytes, stderr: Bytes, now: i64, ttl: nat)
    requires |stdout| <= MAX_STREAM_BYTES && |stderr| <= MAX_STREAM_BYTES
    requires BuildManifest(run, stats, commandKind, stdout, stderr, now, ttl).Ok?
    ensures var m := BuildManifest(run, stats, commandKind, stdout, stderr, now, ttl).value;
            var taken, room := |commandKind| + |stats.json|, Room(stdout, stderr, now, ttl);
            && EstimatedRecordBytes(stdout, stderr) - RecordBytes(stdout, stderr, m) == room - taken
            && (RecordBytes(stdout, stderr, m) <= EstimatedRecordBytes(stdout, stderr) <==> taken <= room)
  {
    hide ManifestSize, BuildManifest, IndexJsonBytes, IndexFrame, Spare, EstimatedIndexBytes;
    ManifestBytesAre(run, stats, commandKind, stdout, stderr, now, ttl);
    IndexJsonInFrame(stdout);
    IndexJsonInFrame(stderr);
  }

  const FRAME_BYTES := 650

  lemma FrameBounds(t: Bytes, k: nat)
    requires k == 0 && |t| <= MAX_STREAM_BYTES
    ensures 121 <= IndexFrame(t) <= 159
  {
    WidthOfOffset(|t|, k);
    LineCountBelow(t);
    WidthOfOffset(|Lines(t)|, k);
    WidthOfWord(Fnv.Checksum(t), k);
  }

  lemma LineCountBelow(t: Bytes)
    requires |t| <= MAX_STREAM_BYTES
    ensures |Lines(t)| <= |t|
  {
    IndexedLinesAreTheLines(t);
    StartsIncrease(t, |t|);
    FewerStarts(t, |t|);
  }

  lemma {:induction false} FewerStarts(t: Bytes, n: nat)
    requires n <= |t|
    ensures |Starts(t, n)| <= n + 1
    ensures 0 < n == |t| ==> |Starts(t, n)| <= n
  {
    if n > 0 {
      FewerStarts(t, n - 1);
    }
  }

  lemma TimeWidth(n: i64, k: nat)
    requires k == 0
    ensures 1 <= IntWidth(n) <= 21
  {
    var magnitude: nat := if n as int < 0 then -(n as int) else n as int;
    WidthOfWord(magnitude, k);
  }

  /** Whatever the texts and the time, the room is the reservation less at most 650 bytes, and more only by what the lines leave unused. */
  lemma RoomBounds(stdout: Bytes, stderr: Bytes, now: i64, ttl: nat)
    requires |stdout| <= MAX_STREAM_BYTES && |stderr| <= MAX_STREAM_BYTES
    ensures 4096 - 650 <= Room(stdout, stderr, now, ttl)
    ensures Room(stdout, stderr, now, ttl) < 4096 - 480 + 30 * (|Lines(stdout)| + |Lines(stderr)|)
  {
    hide IndexFrame, Spare, Width;
    FrameBounds(stdout, 0);
    FrameBounds(stderr, 0);
    TimeWidth(now, 0);
    TimeWidth(SaturatingLater(now, ttl), 0);
    IndexFitsEstimate(stdout);
    IndexFitsEstimate(stderr);
  }

  // ---- Admission -------------------------------------------------------------------------

  /** The test `commit` applies, before and after its sweep. */
  predicate Admits(records: nat, bytes: nat, newBytes: nat, maxRecords: nat, maxTotal: nat) {
    records < maxRecords && SaturatingAdd(bytes, newBytes) <= maxTotal
  }
}
