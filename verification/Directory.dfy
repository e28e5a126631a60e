/** The record directory of `src/storage.rs`: names, records in any state of repair, and tombstones. */
module Directory {
  import opened Basics
  import opened Cursor
  import opened Uuids
  import opened Records

  // ---- The directory --------------------------------------------------------------------

  /** A process; its number is also the fresh part of the hidden names it makes. */
  type Pid = nat

  datatype Kind = Tmp | Failed | Expired | Deleted

  /** Entries of `records`: run ids, and names that begin with a dot. */
  datatype Name = Visible(id: Uuid) | Hidden(kind: Kind, id: Uuid, tag: Pid)

  datatype FileState<+T> = Missing | Torn | Full(content: T)

  datatype FileId = StdoutFile | StderrFile | ManifestFile

  datatype Dir = Dir(stdout: FileState<Bytes>, stderr: FileState<Bytes>, manifest: FileState<Manifest>)

  datatype TombStatus = WasExpired | WasDeleted

  datatype Tombstone = Tombstone(id: Uuid, status: TombStatus, recordedAt: i64, expiresAt: i64)

  /** Entries of `tombstones`: one per run id, and temporaries. */
  datatype TombName = Final(id: Uuid) | Temp(tag: Pid)

  datatype Disk = Disk(
    records: map<Name, Dir>,
    tombs: map<TombName, FileState<Tombstone>>,
    lastRun: Option<Uuid>)

  function WithRecord(d: Disk, name: Name, dir: Dir): Disk { d.(records := d.records[name := dir]) }

  function WithoutRecord(d: Disk, name: Name): Disk { d.(records := d.records - {name}) }

  /** One rename: the directory leaves one name and appears under the other. */
  function Moved(d: Disk, from: Name, to: Name): Disk
    requires from in d.records && from != to
  {
    d.(records := (d.records - {from})[to := d.records[from]])
  }

  function WithTomb(d: Disk, name: TombName, file: FileState<Tombstone>): Disk { d.(tombs := d.tombs[name := file]) }

  function WithoutTomb(d: Disk, name: TombName): Disk { d.(tombs := d.tombs - {name}) }

  // ---- What a commit writes ----------------------------------------------------------------

  datatype Payload = Payload(stdout: Bytes, stderr: Bytes, stats: Stats, commandKind: Bytes)

  const EMPTY_DIR := Dir(Missing, Missing, Missing)

  function Opened(d: Dir, f: FileId): Dir {
    match f
    case StdoutFile => d.(stdout := Torn)
    case StderrFile => d.(stderr := Torn)
    case ManifestFile => d.(manifest := Torn)
  }

  function Filled(d: Dir, f: FileId, p: Payload, m: Option<Manifest>): Dir {
    match f
    case StdoutFile => d.(stdout := Full(p.stdout))
    case StderrFile => d.(stderr := Full(p.stderr))
    case ManifestFile => d.(manifest := if m.Some? then Full(m.value) else Torn)
  }

  function Unlinked(d: Dir, f: FileId): Dir {
    match f
    case StdoutFile => d.(stdout := Missing)
    case StderrFile => d.(stderr := Missing)
    case ManifestFile => d.(manifest := Missing)
  }

  // ---- What is written where ----------------------------------------------------------------

  /**
   What the machine is told: which payloads a commit of an id accepts, the manifest it builds at
   a given time, if any, and how long tombstones live.
   */
  datatype Rules = Rules(
    accepts: (Uuid, Payload) -> bool,
    build: (Uuid, Payload, i64) -> Option<Manifest>,
    tombTtl: nat)

  /** What was published under an id, and when its manifest was made. */
  datatype Publication = Publication(payload: Payload, manifest: Manifest, at: i64)

  function DirOf(p: Publication): Dir {
    Dir(Full(p.payload.stdout), Full(p.payload.stderr), Full(p.manifest))
  }
}
