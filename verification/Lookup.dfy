/** Reading a record back: `read_manifest` and `lookup_manifest` of `src/storage.rs`, as seen at one instant. */
module Lookup {
  import opened Basics
  import opened Uuids
  import opened Records
  import opened Directory
  import LineIndex
  import Utf8

  datatype Config = Config(maxRecords: nat, maxTotal: nat, ttl: nat, tombTtl: nat)

  /** Both streams are text within the stream limit, which `commit` checks and `&str` guarantees. */
  predicate ValidPayload(p: Payload) {
    && |p.stdout| <= LineIndex.MAX_STREAM_BYTES && |p.stderr| <= LineIndex.MAX_STREAM_BYTES
    && Utf8.Valid(p.stdout) && Utf8.Valid(p.stderr)
  }

  predicate Accepts(id: Uuid, p: Payload) { ValidPayload(p) && ParseUuid(p.stats.runId) == Some(id) }

  function Built(id: Uuid, p: Payload, now: i64, ttl: nat): Option<Manifest> {
    if !ValidPayload(p) then None
    else
      match BuildManifest(id, p.stats, p.commandKind, p.stdout, p.stderr, now, ttl)
      case Ok(m) => Some(m)
      case Err(_) => None
  }

  /** The rules the store runs under. */
  function RulesOf(c: Config): Rules {
    Rules((id: Uuid, p: Payload) => Accepts(id, p), (id: Uuid, p: Payload, now: i64) => Built(id, p, now, c.ttl), c.tombTtl)
  }

  /** `read_manifest`: both indexes valid, both data files present with the recorded length. */
  function ReadManifest(dir: Dir): Option<Manifest> {
    if && dir.manifest.Full? && dir.stdout.Full? && dir.stderr.Full?
       && ReadableStream(dir.stdout.content, dir.manifest.content.stdout)
       && ReadableStream(dir.stderr.content, dir.manifest.content.stderr)
    then Some(dir.manifest.content)
    else None
  }

  predicate ReadableStream(data: Bytes, m: LineIndex.StreamIndex) {
    LineIndex.ValidIndex(m) && |data| == m.byteLen
  }

  datatype Sight = SeesActive(manifest: Manifest) | SeesExpired | SeesDeleted | SeesCorrupt | SeesNothing | SeesError

  function ViewManifest(m: Manifest, id: Uuid, now: i64): Sight {
    if m.schemaVersion != SCHEMA_VERSION || m.runId != UuidText(id) || m.stats.runId != UuidText(id) || m.expiresAt < m.createdAt
    then SeesCorrupt
    else if now >= m.expiresAt then SeesExpired
    else SeesActive(m)
  }

  function ViewRecord(d: Disk, id: Uuid, now: i64): Sight {
    if Visible(id) !in d.records then SeesNothing
    else
      var m := ReadManifest(d.records[Visible(id)]);
      if m.None? then SeesCorrupt else ViewManifest(m.value, id, now)
  }

  /** `read_tombstone`: absent, unreadable, or a record of how the run ended. */
  function TombstoneAt(d: Disk, name: TombName): Result<Option<Tombstone>, Error> {
    if name !in d.tombs then Ok(None)
    else if !d.tombs[name].Full? || d.tombs[name].content.expiresAt < d.tombs[name].content.recordedAt then Err(InvalidData)
    else Ok(Some(d.tombs[name].content))
  }

  function SightOf(status: TombStatus): Sight { if status == WasExpired then SeesExpired else SeesDeleted }

  // ---- What is called corrupt ----------------------------------------------------------------

  /** A data file of exactly the recorded length, with an index that passes validation. */
  predicate SoundStream(file: FileState<Bytes>, m: LineIndex.StreamIndex) {
    file.Full? && |file.content| == m.byteLen && LineIndex.ValidIndex(m)
  }

  /** Three complete files of the second schema that agree with each other and name the run twice. */
  predicate Sound(dir: Dir, id: Uuid) {
    && dir.manifest.Full?
    && var m := dir.manifest.content;
       && m.schemaVersion == 2 && m.runId == UuidText(id) && m.stats.runId == UuidText(id) && m.createdAt <= m.expiresAt
       && SoundStream(dir.stdout, m.stdout) && SoundStream(dir.stderr, m.stderr)
  }

  /** A record is corrupt to a reader if and only if it is not sound; a sound one is active until its expiry, and expired from then on. */
  lemma CorruptIfUnsound(d: Disk, id: Uuid, now: i64)
    requires Visible(id) in d.records
    ensures var dir := d.records[Visible(id)];
            ViewRecord(d, id, now) == if !Sound(dir, id) then SeesCorrupt
                                      else if dir.manifest.content.expiresAt <= now then SeesExpired
                                      else SeesActive(dir.manifest.content)
  {
    hide UuidText, LineIndex.ValidIndex;
  }

  /** What a lookup would find if it read everything at one instant: a live tombstone decides, then the record. */
  function View(d: Disk, id: Uuid, now: i64): Sight {
    match TombstoneAt(d, Final(id))
    case Err(_) => SeesError
    case Ok(None) => ViewRecord(d, id, now)
    case Ok(Some(t)) =>
      if t.id != id then SeesCorrupt
      else if t.expiresAt <= now then ViewRecord(d, id, now)
      else SightOf(t.status)
  }

  /** A tombstone file that was torn, or that expires before it was recorded, is an error; otherwise it decides until it expires. */
  lemma TombstoneDecides(d: Disk, id: Uuid, now: i64)
    ensures View(d, id, now) == if Final(id) !in d.tombs then ViewRecord(d, id, now)
                                else match d.tombs[Final(id)] {
                                  case Full(Tombstone(named, status, recordedAt, expiresAt)) =>
                                    if expiresAt < recordedAt then SeesError
                                    else if named != id then SeesCorrupt
                                    else if now >= expiresAt then ViewRecord(d, id, now)
                                    else if status.WasDeleted? then SeesDeleted
                                    else SeesExpired
                                  case _ => SeesError
                                }
  {
    hide ViewRecord;
  }
}
