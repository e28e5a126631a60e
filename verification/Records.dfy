/**
 A record's manifest, its validation by `read_manifest`, and the size of its pretty-printed JSON
 (`src/storage.rs`). The JSON of `stats` and of `command_kind` is carried as given bytes.
 */
module Records {
  import opened Basics
  import opened LineIndex
  import opened Cursor
  import opened Uuids

  const SCHEMA_VERSION := 2
  const SANITIZER_VERSION := "redactor-v1"
  const ENCODING := "utf-8-lossy"

  /** The run id a `Stats` carries is text of its own; the rest is its JSON. */
  datatype Stats = Stats(runId: string, json: Bytes)

  datatype Manifest = Manifest(
    schemaVersion: nat,
    runId: string,
    commandKind: Bytes,
    createdAt: i64,
    expiresAt: i64,
    stdout: StreamIndex,
    stderr: StreamIndex,
    stats: Stats)

  function StreamOf(m: Manifest, stream: Stream): StreamIndex {
    match stream
    case Stdout => m.stdout
    case Stderr => m.stderr
  }

  /** The manifest `commit` writes, when both streams can be indexed. */
  function BuildManifest(run: Uuid, stats: Stats, commandKind: Bytes, stdout: Bytes, stderr: Bytes, now: i64, ttl: nat)
    : Result<Manifest, Error>
    requires |stdout| <= MAX_U64 && |stderr| <= MAX_U64
  {
    var out, err := BuildIndex(stdout), BuildIndex(stderr);
    if out.Err? then Err(out.error)
    else if err.Err? then Err(err.error)
    else Ok(Manifest(SCHEMA_VERSION, UuidText(run), commandKind, now, SaturatingLater(now, ttl), out.value, err.value, stats))
  }

  // ---- Pretty-printed JSON -----------------------------------------------------------

  function IntText(n: int): string {
    if n < 0 then "-" + Decimal(-n) else Decimal(n)
  }

  const ELEMENT_INDENT := "      "

  /** Array elements on lines of their own, after the first separated by commas. */
  function Elements(values: seq<u64>): string {
    if values == [] then ""
    else Elements(values[..|values| - 1])
         + (if |values| == 1 then "\n" else ",\n") + ELEMENT_INDENT + Decimal(values[|values| - 1])
  }

  function ArrayText(values: seq<u64>): string {
    "[" + Elements(values) + (if values == [] then "]" else "\n    ]")
  }

  function StreamText(m: StreamIndex): string {
    "{\n    \"byte_len\": " + Decimal(m.byteLen)
    + ",\n    \"line_count\": " + Decimal(m.lineCount)
    + ",\n    \"line_offsets\": " + ArrayText(m.offsets)
    + ",\n    \"line_checksums\": " + ArrayText(m.checksums)
    + ",\n    \"checksum\": " + Decimal(m.checksum) + "\n  }"
  }

  // The text before command_kind, between it and stats, and after stats.
  function HeadText(m: Manifest): string {
    "{\n  \"schema_version\": " + Decimal(m.schemaVersion)
    + ",\n  \"run_id\": \"" + m.runId + "\",\n  \"command_kind\": "
  }

  function MiddleText(m: Manifest): string {
    ",\n  \"created_at\": " + IntText(m.createdAt)
    + ",\n  \"expires_at\": " + IntText(m.expiresAt)
    + ",\n  \"sanitizer_version\": \"" + SANITIZER_VERSION
    + "\",\n  \"encoding\": \"" + ENCODING
    + "\",\n  \"stdout\": " + StreamText(m.stdout)
    + ",\n  \"stderr\": " + StreamText(m.stderr)
    + ",\n  \"stats\": "
  }

  const TAIL_TEXT := "\n}"

  function ManifestSize(m: Manifest): nat {
    |HeadText(m)| + |m.commandKind| + |MiddleText(m)| + |m.stats.json| + |TAIL_TEXT|
  }
}
