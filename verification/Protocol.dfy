/**
 The record lifecycle of `src/storage.rs` as a state machine. Any number of processes commit,
 delete, expire and look up records of one store; every action is one filesystem call of one of them,
 with its outcome, a crash, or the passing of time, in any order.
 */
module Protocol {
  import opened Basics
  import opened Cursor
  import opened Uuids
  import opened Records
  import opened Directory
  import opened Lookup

  // ---- Processes ----------------------------------------------------------------------------

  datatype CommitPc =
    | MkDir | Open(file: FileId) | Fill(file: FileId) | Publish | SyncRecords | SetLast | SyncRoot
    | CleanTemp(published: bool) | Unpublish | CleanFailed | Returned(ok: bool)

  /** Only an expiry looks for the record first, and only it goes on without one. */
  datatype RetirePc = StatRecord | Rename | Remove | OpenTomb | FillTomb | RenameTomb | CleanTomb | Stopped(ok: bool)

  datatype LookPc = SeekTomb | DropTombstone | SeekRecord | SeekManifest | Answered(sight: Sight)

  datatype Proc =
    | Committing(id: Uuid, payload: Payload, manifest: Option<Manifest>, madeAt: i64, cpc: CommitPc)
    | Retiring(id: Uuid, status: TombStatus, at: i64, rpc: RetirePc)
    | Looking(id: Uuid, at: i64, lpc: LookPc)

  /**
   The last five fields only remember: pids handed out, which process began each run id, what was
   published under each, which ids were renamed away, and for which an expiry failed to see the
   record that stood there.
   */
  datatype System = System(
    disk: Disk,
    now: i64,
    procs: map<Pid, Proc>,
    used: nat,
    owner: map<Uuid, Pid>,
    committed: map<Uuid, Publication>,
    gone: set<Uuid>,
    missed: set<Uuid>)

  datatype Outcome = Done | Fails | Unlink(file: FileId)

  datatype Action =
    | Tick(now: i64)
    | BeginCommit(id: Uuid, payload: Payload)
    | BeginRetire(id: Uuid, status: TombStatus)
    | BeginLookup(id: Uuid)
    | Advance(pid: Pid, outcome: Outcome)
    | Crash(pid: Pid)
    | DropTomb(name: TombName)

  const EMPTY_DISK := Disk(map[], map[], None)

  function Initial(now: i64): System {
    System(EMPTY_DISK, now, map[], 0, map[], map[], {}, {})
  }

  function TrashKind(status: TombStatus): Kind {
    match status
    case WasExpired => Expired
    case WasDeleted => Deleted
  }

  /** A tombstone names its run and how it ended, and lives for its own lifetime. */
  function TombFor(c: Rules, id: Uuid, status: TombStatus, at: i64): (t: Tombstone)
    ensures t.id == id && t.status == status && t.recordedAt == at
    ensures t.expiresAt == at + c.tombTtl || t.expiresAt == MAX_I64 < at + c.tombTtl
  {
    Tombstone(id, status, at, SaturatingLater(at, c.tombTtl))
  }

  function Goto(s: System, pid: Pid, p: Proc, disk: Disk): System { s.(disk := disk, procs := s.procs[pid := p]) }

  /** `remove_dir_all`: files go one by one in any order, then the directory; it may give up at any point. */
  function Removing(d: Disk, name: Name, o: Outcome): Disk {
    if name !in d.records || o.Fails? then d
    else if o.Unlink? then WithRecord(d, name, Unlinked(d.records[name], o.file))
    else WithoutRecord(d, name)
  }

  function NextFile(f: FileId): CommitPc {
    match f
    case StdoutFile => Open(StderrFile)
    case StderrFile => Open(ManifestFile)
    case ManifestFile => Publish
  }

  // The writes of a commit under its temporary name.
  function Prepare(c: Rules, s: System, pid: Pid, p: Proc, o: Outcome): System
    requires p.Committing? && (p.cpc.MkDir? || p.cpc.Open? || p.cpc.Fill?)
  {
    var temp, d := Hidden(Tmp, p.id, pid), s.disk;
    var built := c.build(p.id, p.payload, s.now);
    if !o.Done? || (!p.cpc.MkDir? && temp !in d.records) || (p.cpc == Open(ManifestFile) && built.None?) then
      Goto(s, pid, p.(cpc := CleanTemp(false)), d)
    else
      match p.cpc
      case MkDir => Goto(s, pid, p.(cpc := Open(StdoutFile)), WithRecord(d, temp, EMPTY_DIR))
      case Open(f) =>
        var p' := if f == ManifestFile then p.(manifest := built, madeAt := s.now) else p;
        Goto(s, pid, p'.(cpc := Fill(f)), WithRecord(d, temp, Opened(d.records[temp], f)))
      case Fill(f) =>
        Goto(s, pid, p.(cpc := NextFile(f)), WithRecord(d, temp, Filled(d.records[temp], f, p.payload, p.manifest)))
  }

  // The rename that publishes; it never replaces an existing record.
  function PublishRecord(s: System, pid: Pid, p: Proc, o: Outcome): System
    requires p.Committing?
  {
    var temp, d := Hidden(Tmp, p.id, pid), s.disk;
    if o.Done? && temp in d.records && Visible(p.id) !in d.records && p.manifest.Some? then
      Goto(s, pid, p.(cpc := SyncRecords), Moved(d, temp, Visible(p.id)))
        .(committed := s.committed[p.id := Publication(p.payload, p.manifest.value, p.madeAt)])
    else Goto(s, pid, p.(cpc := CleanTemp(false)), d)
  }

  // What follows publication, and what follows a failure.
  function Settle(s: System, pid: Pid, p: Proc, o: Outcome): System
    requires p.Committing?
  {
    var d := s.disk;
    match p.cpc
    case SyncRecords => Goto(s, pid, p.(cpc := if o.Done? then SetLast else CleanTemp(true)), d)
    case SetLast =>
      if o.Done? then Goto(s, pid, p.(cpc := SyncRoot), d.(lastRun := Some(p.id)))
      else Goto(s, pid, p.(cpc := CleanTemp(true)), d)
    case SyncRoot => Goto(s, pid, p.(cpc := if o.Done? then Returned(true) else CleanTemp(true)), d)
    case CleanTemp(published) =>
      Goto(s, pid, if o.Unlink? then p else p.(cpc := if published then Unpublish else Returned(false)),
           Removing(d, Hidden(Tmp, p.id, pid), o))
    case CleanFailed =>
      Goto(s, pid, if o.Unlink? then p else p.(cpc := Returned(false)), Removing(d, Hidden(Failed, p.id, pid), o))
    case _ => s
  }

  // The compensating rename after a failure past publication.
  function UnpublishRecord(s: System, pid: Pid, p: Proc, o: Outcome): System
    requires p.Committing?
  {
    if o.Done? && Visible(p.id) in s.disk.records then
      Goto(s, pid, p.(cpc := CleanFailed), Moved(s.disk, Visible(p.id), Hidden(Failed, p.id, pid))).(gone := s.gone + {p.id})
    else Goto(s, pid, p.(cpc := Returned(false)), s.disk)
  }

  function AdvanceCommit(c: Rules, s: System, pid: Pid, p: Proc, o: Outcome): System
    requires p.Committing?
  {
    if p.cpc.MkDir? || p.cpc.Open? || p.cpc.Fill? then Prepare(c, s, pid, p, o)
    else if p.cpc == Publish then PublishRecord(s, pid, p, o)
    else if p.cpc == Unpublish then UnpublishRecord(s, pid, p, o)
    else Settle(s, pid, p, o)
  }

  // `expire_record` takes a record it cannot see for one that is not there, and goes on to the tombstone.
  function SeekExpired(s: System, pid: Pid, p: Proc, o: Outcome): System
    requires p.Retiring?
  {
    if Visible(p.id) !in s.disk.records then Goto(s, pid, p.(rpc := OpenTomb), s.disk)
    else if o.Done? then Goto(s, pid, p.(rpc := Rename), s.disk)
    else Goto(s, pid, p.(rpc := OpenTomb), s.disk).(missed := s.missed + {p.id})
  }

  // A retired record leaves under a hidden name, and only then is removed.
  function RemoveRecord(s: System, pid: Pid, p: Proc, o: Outcome): System
    requires p.Retiring? && (p.rpc == Rename || p.rpc == Remove)
  {
    var trash, d := Hidden(TrashKind(p.status), p.id, pid), s.disk;
    if p.rpc == Remove then
      Goto(s, pid, if o.Unlink? then p else p.(rpc := if o.Done? then OpenTomb else Stopped(false)), Removing(d, trash, o))
    else if o.Done? && Visible(p.id) in d.records then
      Goto(s, pid, p.(rpc := Remove), Moved(d, Visible(p.id), trash)).(gone := s.gone + {p.id})
    else
      Goto(s, pid, p.(rpc := Stopped(false)), d)
  }

  // The tombstone is written under a temporary name and renamed.
  function Bury(c: Rules, s: System, pid: Pid, p: Proc, o: Outcome): System
    requires p.Retiring?
  {
    var d := s.disk;
    if !o.Done? || (p.rpc != OpenTomb && Temp(pid) !in d.tombs) then
      Goto(s, pid, p.(rpc := if p.rpc == CleanTomb || p.rpc.Stopped? then Stopped(p.rpc == Stopped(true)) else CleanTomb), d)
    else
      match p.rpc
      case OpenTomb =>
        Goto(s, pid, p.(rpc := FillTomb, at := if p.status == WasDeleted then s.now else p.at), WithTomb(d, Temp(pid), Torn))
      case FillTomb => Goto(s, pid, p.(rpc := RenameTomb), WithTomb(d, Temp(pid), Full(TombFor(c, p.id, p.status, p.at))))
      case RenameTomb =>
        Goto(s, pid, p.(rpc := Stopped(true)), WithTomb(WithoutTomb(d, Temp(pid)), Final(p.id), d.tombs[Temp(pid)]))
      case CleanTomb => Goto(s, pid, p.(rpc := Stopped(false)), WithoutTomb(d, Temp(pid)))
      case _ => s
  }

  function AdvanceRetire(c: Rules, s: System, pid: Pid, p: Proc, o: Outcome): System
    requires p.Retiring?
  {
    if p.rpc == StatRecord then SeekExpired(s, pid, p, o)
    else if p.rpc == Rename || p.rpc == Remove then RemoveRecord(s, pid, p, o)
    else Bury(c, s, pid, p, o)
  }

  // ---- Lookups --------------------------------------------------------------------------------

  function Reply(s: System, pid: Pid, p: Proc, sight: Sight): System
    requires p.Looking?
  {
    Goto(s, pid, p.(lpc := Answered(sight)), s.disk)
  }

  // What the tombstone says, if it could be read.
  function ReadTomb(s: System, pid: Pid, p: Proc): System
    requires p.Looking?
  {
    match TombstoneAt(s.disk, Final(p.id))
    case Err(_) => Reply(s, pid, p, SeesError)
    case Ok(None) => Goto(s, pid, p.(lpc := SeekRecord), s.disk)
    case Ok(Some(t)) =>
      if t.id != p.id then Reply(s, pid, p, SeesCorrupt)
      else if t.expiresAt <= p.at then Goto(s, pid, p.(lpc := DropTombstone), s.disk)
      else Reply(s, pid, p, SightOf(t.status))
  }

  // What the record says. A record past its expiry is retired on the way.
  function ReadRecord(s: System, pid: Pid, p: Proc, o: Outcome): System
    requires p.Looking?
  {
    if !o.Done? || Visible(p.id) !in s.disk.records then Reply(s, pid, p, SeesCorrupt)
    else
      var sight := ViewRecord(s.disk, p.id, p.at);
      if sight.SeesExpired? then Goto(s, pid, Retiring(p.id, WasExpired, p.at, StatRecord), s.disk)
      else Reply(s, pid, p, sight)
  }

  /**
   `lookup_manifest`. Its several reads of the record are one step here, at the moment of the last:
   a record that is there then was there, unchanged, for all of them.
   */
  function AdvanceLookup(s: System, pid: Pid, p: Proc, o: Outcome): System
    requires p.Looking?
  {
    match p.lpc
    case SeekTomb => if o.Done? then ReadTomb(s, pid, p) else Reply(s, pid, p, SeesError)
    case DropTombstone =>
      if o.Done? then Goto(s, pid, p.(lpc := SeekRecord), WithoutTomb(s.disk, Final(p.id))) else Reply(s, pid, p, SeesError)
    case SeekRecord =>
      if !o.Done? then Reply(s, pid, p, SeesError)
      else if Visible(p.id) !in s.disk.records then Reply(s, pid, p, SeesNothing)
      else Goto(s, pid, p.(lpc := SeekManifest), s.disk)
    case SeekManifest => ReadRecord(s, pid, p, o)
    case Answered(_) => s
  }

  /** The manifest on disk says the record has expired. */
  predicate PastExpiry(dir: Dir, now: i64) {
    dir.manifest.Full? && now >= dir.manifest.content.expiresAt
  }

  function FirstStep(status: TombStatus): RetirePc { if status == WasExpired then StatRecord else Rename }

  function AdvanceProc(c: Rules, s: System, pid: Pid, p: Proc, o: Outcome): System {
    match p
    case Committing(_, _, _, _, _) => AdvanceCommit(c, s, pid, p, o)
    case Retiring(_, _, _, _) => AdvanceRetire(c, s, pid, p, o)
    case Looking(_, _, _) => AdvanceLookup(s, pid, p, o)
  }

  /** An action that is not possible in a state changes nothing. */
  function Step(c: Rules, s: System, a: Action): System {
    match a
    case Tick(now) => if s.now <= now then s.(now := now) else s
    case BeginCommit(id, payload) =>
      if id !in s.owner && c.accepts(id, payload) then
        s.(procs := s.procs[s.used := Committing(id, payload, None, s.now, MkDir)], used := s.used + 1, owner := s.owner[id := s.used])
      else s
    case BeginRetire(id, status) =>
      if Visible(id) in s.disk.records && (status == WasExpired ==> PastExpiry(s.disk.records[Visible(id)], s.now)) then
        s.(procs := s.procs[s.used := Retiring(id, status, s.now, FirstStep(status))], used := s.used + 1)
      else s
    case BeginLookup(id) => s.(procs := s.procs[s.used := Looking(id, s.now, SeekTomb)], used := s.used + 1)
    case Advance(pid, o) =>
      if pid !in s.procs then s
      else AdvanceProc(c, s, pid, s.procs[pid], o)
    case Crash(pid) => s.(procs := s.procs - {pid})
    case DropTomb(name) => s.(disk := WithoutTomb(s.disk, name))
  }

  function Run(c: Rules, s: System, actions: seq<Action>): System
    decreases |actions|
  {
    if actions == [] then s else Run(c, Step(c, s, actions[0]), actions[1..])
  }
}
