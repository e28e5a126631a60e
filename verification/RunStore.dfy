/**
 `RunStore` of `src/storage.rs`: its operations as sequences of filesystem calls, any of which may
 fail. The ghost log records each call as an action of the protocol, so that every state of the
 store is a state of some run of the protocol from the empty store.
 */
module RunStore {
  import opened Basics
  import opened Uuids
  import opened Records
  import opened Directory
  import opened Protocol
  import opened ProtocolLaws
  import opened Lookup
  import opened Lifecycle
  import opened Usage
  import opened Quota
  import opened StoreLaws
  import Cursor
  import Envelope
  import LineIndex
  import Retrieve
  import Search
  import SearchLaws
  import Utf8

  datatype SearchAnswer = Refused(status: Retrieve.LookupStatus) | Served(page: Search.Page)

  datatype Turn = Unlisted | Late | Broken | Passed | Expiring

  datatype Deletion = Removed | AlreadyGone | Absent

  class RunStore {
    const config: Config
    const start: i64
    var disk: Disk
    var clock: i64
    var nextTag: Pid
    ghost var log: seq<Action>
    ghost var sys: System
    ghost var faults: nat  // calls that failed so far
    ghost var passed: nat  // those of them that were passed over
    ghost var cuts: nat    // time limits that ran out so far
    ghost var misses: nat  // expiries that failed to see a standing record
    ghost var strays: nat  // removals given up with the directory still there
    ghost var refusals: nat  // calls of removals that failed
    ghost var looks: nat  // entries looked at for their expiry

    ghost function Law(): Rules { RulesOf(config) }

    /** The store is where its logged actions lead the protocol. */
    ghost predicate Tied()
      reads this
    {
      && sys == Run(Law(), Initial(start), log)
      && sys.disk == disk && sys.now == clock && sys.used == nextTag
      && config.maxTotal < MAX_U64
    }

    /** Between operations no process is under way, and the hidden directories are those that were given up. */
    ghost predicate Valid()
      reads this
    {
      Tied() && sys.procs == map[] && |HiddenOf(disk)| == strays
    }

    /** In an operation, exactly one. */
    ghost predicate Runs(pid: Pid, p: Proc)
      reads this
    {
      Tied() && sys.procs == map[pid := p]
    }

    /** Nothing but the directory and the process moved. */
    ghost predicate SameHistory(before: System)
      reads this
    {
      sys.now == before.now && sys.used == before.used && sys.owner == before.owner
      && sys.committed == before.committed && sys.gone == before.gone
    }

    /** What only grows. */
    ghost function Books(): Ledger
      reads this
    {
      Ledger(log, clock, faults, passed, cuts, misses, refusals, strays, HiddenOf(disk))
    }

    /** How many failed calls were not passed over. */
    ghost function Felt(): int
      reads this
    {
      faults - passed
    }

    /** Time, the log and the counts only grew, and no directory was given up without a failed call. */
    twostate predicate Moves()
      reads this
    {
      Advances(old(Books()), Books())
    }

    /** Nothing earlier and hidden was touched, and nothing hidden was left behind without a failed call. */
    twostate predicate Passes()
      reads this
    {
      Follows(old(Books()), Books())
    }

    /** And no run was begun. */
    twostate predicate Continues()
      reads this
    {
      Passes() && sys.owner == old(sys.owner)
    }

    constructor (config: Config, now: i64)
      requires config.maxTotal < MAX_U64
      ensures Valid() && this.config == config && clock == now && disk == EMPTY_DISK && log == [] && sys.owner == map[]
      ensures this.start == now && WithinQuota(config, VisibleOf(disk)) && faults == 0 && strays == 0
    {
      this.config, start := config, now;
      disk, clock, nextTag := EMPTY_DISK, now, 0;
      log, sys := [], Initial(now);
      faults, passed, cuts, misses, strays, refusals, looks := 0, 0, 0, 0, 0, 0, 0;
    }

    // ---- Ghost bookkeeping ------------------------------------------------------------------

    ghost method Note(a: Action)
      requires sys == Run(Law(), Initial(start), log)
      modifies `sys, `log
      ensures sys == Step(Law(), old(sys), a) && log == old(log) + [a]
      ensures sys == Run(Law(), Initial(start), log)
    {
      RunSnoc(Law(), Initial(start), log, a);
      log := log + [a];
      sys := Step(Law(), sys, a);
    }

    // ---- The world --------------------------------------------------------------------------

    /** Whether a filesystem call succeeds is not ours to say; failures are counted. */
    method Attempt() returns (ok: bool)
      modifies `faults
      ensures faults == old(faults) + if ok then 0 else 1
    {
      ok := *;
      if !ok {
        faults := faults + 1;
      }
    }

    /** A call of `remove_private_dir`; its failures are counted apart as well. */
    method AttemptRemoval() returns (ok: bool)
      modifies `faults, `refusals
      ensures faults == old(faults) + if ok then 0 else 1
      ensures refusals == old(refusals) + if ok then 0 else 1
    {
      ok := Attempt();
      if !ok {
        refusals := refusals + 1;
      }
    }

    /** A call whose failure is passed over. */
    method AttemptLightly() returns (ok: bool)
      modifies `faults, `passed
      ensures faults == old(faults) + if ok then 0 else 1
      ensures passed == old(passed) + if ok then 0 else 1
    {
      ok := Attempt();
      if !ok {
        passed := passed + 1;
      }
    }

    /** Whether a time limit is up; that is counted too. */
    method TimeIsUp() returns (late: bool)
      modifies `cuts
      ensures cuts == old(cuts) + if late then 1 else 0
    {
      late := *;
      if late {
        cuts := cuts + 1;
      }
    }

    /** `Utc::now`: never earlier than before. */
    method Now() returns (now: i64)
      requires Tied()
      modifies `clock, `sys, `log
      ensures Tied() && old(log) <= log
      ensures now == clock >= old(clock)
      ensures sys == old(sys).(now := clock)
    {
      now := *;
      if now < clock {
        now := clock;
      }
      Note(Tick(now));
      clock := now;
    }

    /** The process ends, whatever it was doing. */
    ghost method End(pid: Pid, p: Proc)
      requires Runs(pid, p) && |HiddenOf(disk)| == strays
      modifies `sys, `log
      ensures Valid() && SameHistory(old(sys)) && old(log) <= log
    {
      Note(Crash(pid));
    }

    // ---- The filesystem calls of a commit ---------------------------------------------------

    method BeginCommitting(id: Uuid, payload: Payload) returns (pid: Pid)
      requires Valid() && id !in sys.owner && Accepts(id, payload)
      modifies `nextTag, `sys, `log
      ensures Runs(pid, Committing(id, payload, None, clock, MkDir)) && old(log) <= log
      ensures sys.committed == old(sys).committed && sys.gone == old(sys).gone && sys.now == old(sys).now
      ensures sys.owner == old(sys).owner[id := pid]
      ensures Hidden(Tmp, id, pid) !in disk.records && Hidden(Failed, id, pid) !in disk.records
    {
      TagsAreFresh(Law(), start, log, Tmp, id);
      TagsAreFresh(Law(), start, log, Failed, id);
      pid := nextTag;
      Note(BeginCommit(id, payload));
      nextTag := nextTag + 1;
    }

    method CreateTemp(pid: Pid, id: Uuid, ghost p: Proc) returns (ok: bool)
      requires Runs(pid, p) && p.Committing? && p.id == id && p.cpc == MkDir
      modifies `disk, `sys, `log, `faults
      ensures Runs(pid, p.(cpc := if ok then Open(StdoutFile) else CleanTemp(false)))
      ensures SameHistory(old(sys)) && old(log) <= log
      ensures OnlyAt(old(disk), disk, Hidden(Tmp, id, pid))
      ensures faults == old(faults) + if ok then 0 else 1
    {
      hide PublishRecord, UnpublishRecord, Settle, Removing, AdvanceRetire, AdvanceLookup, Built, Accepts, OnlyAt;
      NothingWritten(disk, Hidden(Tmp, id, pid));
      ok := Attempt();
      if ok {
        HiddenWrite(disk, Hidden(Tmp, id, pid), EMPTY_DIR);
        disk := WithRecord(disk, Hidden(Tmp, id, pid), EMPTY_DIR);
      }
      Note(Advance(pid, if ok then Done else Fails));
    }

    method CreateFile(pid: Pid, id: Uuid, f: FileId, m: Option<Manifest>, ghost p: Proc) returns (ok: bool)
      requires Runs(pid, p) && p.Committing? && p.id == id && p.cpc == Open(f)
      requires f == ManifestFile ==> m.Some? && m == Law().build(id, p.payload, clock)
      modifies `disk, `sys, `log, `faults
      ensures Runs(pid, if !ok then p.(cpc := CleanTemp(false))
                        else if f == ManifestFile then p.(manifest := m, madeAt := clock, cpc := Fill(f))
                        else p.(cpc := Fill(f)))
      ensures SameHistory(old(sys)) && old(log) <= log && OnlyAt(old(disk), disk, Hidden(Tmp, id, pid))
      ensures faults == old(faults) + if ok then 0 else 1
    {
      hide PublishRecord, UnpublishRecord, Settle, Removing, AdvanceRetire, AdvanceLookup, Built, Accepts, OnlyAt;
      TempIsThere(Law(), start, log, pid, p);
      NothingWritten(disk, Hidden(Tmp, id, pid));
      ok := Attempt();
      if ok {
        var temp := Hidden(Tmp, id, pid);
        HiddenWrite(disk, temp, Opened(disk.records[temp], f));
        disk := WithRecord(disk, temp, Opened(disk.records[temp], f));
      }
      Note(Advance(pid, if ok then Done else Fails));
    }

    method FillFile(pid: Pid, id: Uuid, f: FileId, payload: Payload, m: Option<Manifest>, ghost p: Proc) returns (ok: bool)
      requires Runs(pid, p) && p.Committing? && p.id == id && p.cpc == Fill(f) && p.payload == payload && p.manifest == m
      modifies `disk, `sys, `log, `faults
      ensures Runs(pid, p.(cpc := if ok then NextFile(f) else CleanTemp(false)))
      ensures SameHistory(old(sys)) && old(log) <= log && OnlyAt(old(disk), disk, Hidden(Tmp, id, pid))
      ensures faults == old(faults) + if ok then 0 else 1
    {
      hide PublishRecord, UnpublishRecord, Settle, Removing, AdvanceRetire, AdvanceLookup, Built, Accepts, OnlyAt;
      TempIsThere(Law(), start, log, pid, p);
      NothingWritten(disk, Hidden(Tmp, id, pid));
      ok := Attempt();
      if ok {
        var temp := Hidden(Tmp, id, pid);
        HiddenWrite(disk, temp, Filled(disk.records[temp], f, payload, m));
        disk := WithRecord(disk, temp, Filled(disk.records[temp], f, payload, m));
      }
      Note(Advance(pid, if ok then Done else Fails));
    }

    /** The no-replace rename that makes the staged record visible. */
    method PublishTemp(pid: Pid, id: Uuid, ghost p: Proc) returns (ok: bool)
      requires Runs(pid, p) && p.Committing? && p.id == id && p.cpc == Publish
      modifies `disk, `sys, `log, `faults
      ensures p.manifest.Some? && Runs(pid, p.(cpc := if ok then SyncRecords else CleanTemp(false))) && old(log) <= log
      ensures disk.tombs == old(disk).tombs && disk.lastRun == old(disk).lastRun
      ensures sys.now == old(sys).now && sys.gone == old(sys).gone && sys.owner == old(sys).owner
      ensures Visible(id) !in VisibleOf(old(disk))
      ensures var pub := Publication(p.payload, p.manifest.value, p.madeAt);
              if ok then && VisibleOf(disk) == VisibleOf(old(disk))[Visible(id) := DirOf(pub)]
                         && HiddenOf(disk) == HiddenOf(old(disk)) - {Hidden(Tmp, id, pid)}
                         && sys.committed == old(sys).committed[id := pub]
              else disk == old(disk) && SameHistory(old(sys))
      ensures faults == old(faults) + if ok then 0 else 1
    {
      hide VisibleOf, HiddenOf, Prepare, UnpublishRecord, Settle, Removing, AdvanceRetire, AdvanceLookup, Built, Accepts;
      TempIsThere(Law(), start, log, pid, p);
      ok := Attempt();
      StandsVisible(disk, Visible(id));
      if ok {
        MovedAcross(disk, Hidden(Tmp, id, pid), Visible(id));
        disk := Moved(disk, Hidden(Tmp, id, pid), Visible(id));
      }
      Note(Advance(pid, if ok then Done else Fails));
    }

    method SyncDirectory(pid: Pid, ghost p: Proc) returns (ok: bool)
      requires Runs(pid, p) && p.Committing? && (p.cpc == SyncRecords || p.cpc == SyncRoot)
      modifies `sys, `log, `faults
      ensures Runs(pid, p.(cpc := if !ok then CleanTemp(true) else if p.cpc == SyncRecords then SetLast else Returned(true)))
      ensures SameHistory(old(sys)) && old(log) <= log
      ensures faults == old(faults) + if ok then 0 else 1
    {
      hide Prepare, UnpublishRecord, PublishRecord, Removing, AdvanceRetire, AdvanceLookup, Built, Accepts;
      ok := Attempt();
      Note(Advance(pid, if ok then Done else Fails));
    }

    method WriteLastRun(pid: Pid, id: Uuid, ghost p: Proc) returns (ok: bool)
      requires Runs(pid, p) && p.Committing? && p.id == id && p.cpc == SetLast
      modifies `disk, `sys, `log, `faults
      ensures Runs(pid, p.(cpc := if ok then SyncRoot else CleanTemp(true)))
      ensures SameHistory(old(sys)) && old(log) <= log
      ensures VisibleOf(disk) == VisibleOf(old(disk)) && HiddenOf(disk) == HiddenOf(old(disk))
      ensures disk == if ok then old(disk).(lastRun := Some(id)) else old(disk)
      ensures faults == old(faults) + if ok then 0 else 1
    {
      hide VisibleOf, HiddenOf, Prepare, UnpublishRecord, PublishRecord, Removing, AdvanceRetire, AdvanceLookup, Built, Accepts;
      SameParts(disk, disk.(lastRun := Some(id)));
      ok := Attempt();
      if ok {
        disk := disk.(lastRun := Some(id));
      }
      Note(Advance(pid, if ok then Done else Fails));
    }

    // ---- Removing a directory that is no longer visible ---------------------------------------

    /** `remove_private_dir`: file by file in any order, then the directory, giving up at any point. */
    method RemoveDir(pid: Pid, name: Name, ghost p: Proc) returns (ok: bool)
      requires Runs(pid, p) && IsCleaning(p) && name == Trash(p, pid)
      modifies `disk, `sys, `log, `faults, `strays, `refusals
      ensures Runs(pid, AfterClean(p, ok))
      ensures SameHistory(old(sys)) && old(log) <= log && OnlyAt(old(disk), disk, name)
      ensures old(faults) < faults || (ok && faults == old(faults))
      ensures ok ==> faults == old(faults) && name !in disk.records
      ensures name in disk.records ==> name in old(disk).records && old(refusals) < refusals
      ensures refusals - old(refusals) == faults - old(faults)
      ensures strays == old(strays) + if name in disk.records then 1 else 0
    {
      var files: set<FileId> := {StdoutFile, StderrFile, ManifestFile};
      while files != {}
        invariant Runs(pid, p) && SameHistory(old(sys)) && old(log) <= log && OnlyAt(old(disk), disk, name)
        invariant faults == old(faults) && refusals == old(refusals) && strays == old(strays) && (name in disk.records <==> name in old(disk).records)
        decreases files
      {
        var f: FileId :| f in files;
        files := files - {f};
        ok := UnlinkFile(pid, name, f, p);
        if !ok {
          GiveUp(pid, name, p);
          return;
        }
      }
      ok := RemoveEmptied(pid, name, p);
    }

    method UnlinkFile(pid: Pid, name: Name, f: FileId, ghost p: Proc) returns (ok: bool)
      requires Runs(pid, p) && IsCleaning(p) && name == Trash(p, pid)
      modifies `disk, `sys, `log, `faults, `refusals
      ensures Runs(pid, p) && SameHistory(old(sys)) && old(log) <= log && OnlyAt(old(disk), disk, name)
      ensures faults == old(faults) + if ok then 0 else 1
      ensures refusals == old(refusals) + if ok then 0 else 1
      ensures name in disk.records <==> name in old(disk).records
    {
      hide Step, Run, RulesOf, VisibleOf, HiddenOf, Removing, OnlyAt;
      NothingWritten(disk, name);
      ok := AttemptRemoval();
      if ok {
        HiddenRemoval(disk, name, Unlink(f));
        disk := Removing(disk, name, Unlink(f));
        RemovalStep(Law(), sys, pid, p, Unlink(f));
        Note(Advance(pid, Unlink(f)));
      }
    }

    method RemoveEmptied(pid: Pid, name: Name, ghost p: Proc) returns (ok: bool)
      requires Runs(pid, p) && IsCleaning(p) && name == Trash(p, pid)
      modifies `disk, `sys, `log, `faults, `strays, `refusals
      ensures Runs(pid, AfterClean(p, ok))
      ensures SameHistory(old(sys)) && old(log) <= log && OnlyAt(old(disk), disk, name)
      ensures faults == old(faults) + if ok then 0 else 1
      ensures refusals == old(refusals) + if ok then 0 else 1
      ensures name in disk.records <==> !ok && name in old(disk).records
      ensures strays == old(strays) + if name in disk.records then 1 else 0
    {
      hide Step, Run, RulesOf, VisibleOf, HiddenOf, Removing, OnlyAt;
      NothingWritten(disk, name);
      HiddenRemoval(disk, name, Done);
      ok := AttemptRemoval();
      if ok {
        disk := Removing(disk, name, Done);
      }
      RemovalStep(Law(), sys, pid, p, if ok then Done else Fails);
      Note(Advance(pid, if ok then Done else Fails));
      if name in disk.records {
        strays := strays + 1;
      }
    }

    ghost method GiveUp(pid: Pid, name: Name, p: Proc)
      requires Runs(pid, p) && IsCleaning(p) && name == Trash(p, pid)
      modifies `sys, `log, `strays
      ensures strays == old(strays) + if name in disk.records then 1 else 0
      ensures Runs(pid, AfterClean(p, false)) && SameHistory(old(sys)) && old(log) <= log
    {
      hide Step, Run, RulesOf, Removing;
      HiddenRemoval(disk, name, Done);
      RemovalStep(Law(), sys, pid, p, Fails);
      Note(Advance(pid, Fails));
      if name in disk.records {
        strays := strays + 1;
      }
    }

    /** The compensating rename: the record is hidden again. */
    method TakeBack(pid: Pid, id: Uuid, ghost p: Proc) returns (ok: bool)
      requires Runs(pid, p) && p.Committing? && p.id == id && p.cpc == Unpublish && Visible(id) in disk.records
      requires Hidden(Failed, id, pid) !in disk.records
      modifies `disk, `sys, `log, `faults
      ensures Runs(pid, p.(cpc := if ok then CleanFailed else Returned(false))) && old(log) <= log
      ensures disk.tombs == old(disk).tombs && disk.lastRun == old(disk).lastRun
      ensures sys.now == old(sys).now && sys.committed == old(sys).committed && sys.owner == old(sys).owner
      ensures ok ==> HiddenOf(disk) - {Hidden(Failed, id, pid)} == HiddenOf(old(disk))
      ensures if ok then VisibleOf(disk) == VisibleOf(old(disk)) - {Visible(id)} && sys.gone == old(sys).gone + {id}
              else disk == old(disk) && SameHistory(old(sys))
      ensures faults == old(faults) + if ok then 0 else 1
    {
      hide VisibleOf, HiddenOf, Prepare, PublishRecord, Settle, Removing, AdvanceRetire, AdvanceLookup, Built, Accepts;
      ok := Attempt();
      if ok {
        MovedAcross(disk, Visible(id), Hidden(Failed, id, pid));
        disk := Moved(disk, Visible(id), Hidden(Failed, id, pid));
      }
      Note(Advance(pid, if ok then Done else Fails));
    }

    // ---- Commit -----------------------------------------------------------------------------

    /** Stage both data files and the manifest under the temporary name. */
    method Stage(pid: Pid, id: Uuid, payload: Payload) returns (m: Result<Manifest, Error>, ghost p: Proc)
      requires Runs(pid, Committing(id, payload, None, clock, MkDir)) && Accepts(id, payload)
      modifies this
      ensures Runs(pid, p) && old(log) <= log && OnlyAt(old(disk), disk, Hidden(Tmp, id, pid)) && nextTag == old(nextTag)
      ensures sys.committed == old(sys).committed && sys.gone == old(sys).gone && sys.owner == old(sys).owner && Moves() && strays == old(strays)
      ensures m.Ok? ==> p == Committing(id, payload, Some(m.value), clock, Publish)
      ensures m.Ok? ==> Built(id, payload, clock, config.ttl) == Some(m.value)
      ensures m.Err? ==> p.Committing? && p.id == id && p.cpc == CleanTemp(false)
      ensures faults == old(faults) && m.Err? ==> m == Err(StorageFull) && !Indexable(payload)
      ensures m.Ok? ==> faults == old(faults)
      ensures passed == old(passed)
    {
      hide Run, Step, RulesOf, VisibleOf, HiddenOf, Accepts, Built, Indexable, AdvanceProc;
      p := Committing(id, payload, None, clock, MkDir);
      var ok := CreateTemp(pid, id, p);
      p := sys.procs[pid];
      if ok {
        ok, p := StageData(pid, id, payload, StdoutFile, p);
      }
      if ok {
        ok, p := StageData(pid, id, payload, StderrFile, p);
      }
      if !ok {
        return Err(Io), p;
      }
      m, p := StageManifest(pid, id, payload, p);
    }

    method StageData(pid: Pid, id: Uuid, payload: Payload, f: FileId, ghost p: Proc) returns (ok: bool, ghost p': Proc)
      requires Runs(pid, p) && p.Committing? && p.id == id && p.payload == payload && p.manifest == None
      requires f != ManifestFile && p.cpc == Open(f)
      modifies `disk, `sys, `log, `faults
      ensures Runs(pid, p') && p' == p.(cpc := if ok then NextFile(f) else CleanTemp(false))
      ensures SameHistory(old(sys)) && old(log) <= log && OnlyAt(old(disk), disk, Hidden(Tmp, id, pid))
      ensures old(faults) <= faults && (ok <==> faults == old(faults))
    {
      ok := CreateFile(pid, id, f, None, p);
      p' := sys.procs[pid];
      if ok {
        ok := FillFile(pid, id, f, payload, None, p');
        p' := sys.procs[pid];
      }
    }

    method StageManifest(pid: Pid, id: Uuid, payload: Payload, ghost p: Proc) returns (m: Result<Manifest, Error>, ghost p': Proc)
      requires Runs(pid, p) && p.Committing? && p.id == id && p.payload == payload && p.cpc == Open(ManifestFile)
      requires Accepts(id, payload)
      modifies this
      ensures Runs(pid, p') && old(log) <= log && OnlyAt(old(disk), disk, Hidden(Tmp, id, pid)) && nextTag == old(nextTag)
      ensures sys.committed == old(sys).committed && sys.gone == old(sys).gone && sys.owner == old(sys).owner && Moves() && strays == old(strays)
      ensures m.Ok? ==> p' == Committing(id, payload, Some(m.value), clock, Publish)
      ensures m.Ok? ==> Built(id, payload, clock, config.ttl) == Some(m.value)
      ensures m.Err? ==> p'.Committing? && p'.id == id && p'.cpc == CleanTemp(false)
      ensures faults == old(faults) && m.Err? ==> m == Err(StorageFull) && !Indexable(payload)
      ensures m.Ok? ==> faults == old(faults)
      ensures passed == old(passed)
    {
      var now := Now();
      m := MakeManifest(id, payload, now);
      BuildIs(config, id, payload, now);
      var ok := m.Ok?;
      if ok {
        ok := CreateFile(pid, id, ManifestFile, Some(m.value), p);
      } else {
        Skip(pid, p);
      }
      p' := sys.procs[pid];
      if ok {
        ok := FillFile(pid, id, ManifestFile, payload, Some(m.value), p');
        p' := sys.procs[pid];
      }
      if !ok && m.Ok? {
        m := Err(Io);
      }
    }

    /** Both streams are indexed; either may be too long for its index. */
    method MakeManifest(id: Uuid, payload: Payload, now: i64) returns (m: Result<Manifest, Error>)
      requires Accepts(id, payload)
      ensures Law().build(id, payload, now) == if m.Ok? then Some(m.value) else None
      ensures m.Err? ==> m == Err(StorageFull) && !Indexable(payload)
    {
      var stdout := LineIndex.StreamManifest(payload.stdout);
      if stdout.Err? {
        return Err(stdout.error);
      }
      var stderr := LineIndex.StreamManifest(payload.stderr);
      if stderr.Err? {
        return Err(stderr.error);
      }
      m := Ok(Manifest(SCHEMA_VERSION, UuidText(id), payload.commandKind, now, SaturatingLater(now, config.ttl),
                       stdout.value, stderr.value, payload.stats));
    }

    // The closure of `commit` returned early.
    ghost method Skip(pid: Pid, p: Proc)
      requires Runs(pid, p) && p.Committing? && p.cpc == Open(ManifestFile)
      modifies `sys, `log
      ensures Runs(pid, p.(cpc := CleanTemp(false))) && SameHistory(old(sys)) && old(log) <= log
    {
      Note(Advance(pid, Fails));
    }

    /** Publish, sync, name the run in last_run, sync again. */
    method Finish(pid: Pid, id: Uuid, ghost p: Proc) returns (ok: bool, ghost p': Proc)
      requires Runs(pid, p) && p.Committing? && p.id == id && p.cpc == Publish
      modifies `disk, `sys, `log, `faults
      ensures Runs(pid, p') && p'.Committing? && p'.id == id && old(log) <= log && p.manifest.Some?
      ensures sys.now == old(sys).now && sys.gone == old(sys).gone && sys.owner == old(sys).owner && disk.tombs == old(disk).tombs
      ensures ok ==> p'.cpc == Returned(true) && disk.lastRun == Some(id)
      ensures !ok ==> p'.cpc.CleanTemp? && (disk.lastRun == old(disk).lastRun || disk.lastRun == Some(id))
      ensures Visible(id) !in VisibleOf(old(disk))
      ensures var pub := Publication(p.payload, p.manifest.value, p.madeAt);
              if ok || p'.cpc == CleanTemp(true)
              then && VisibleOf(disk) == VisibleOf(old(disk))[Visible(id) := DirOf(pub)]
                   && HiddenOf(disk) == HiddenOf(old(disk)) - {Hidden(Tmp, id, pid)}
                   && sys.committed == old(sys).committed[id := pub]
              else disk == old(disk) && sys.committed == old(sys).committed
      ensures old(faults) <= faults && (ok <==> faults == old(faults))
    {
      hide VisibleOf, HiddenOf, Step, Run;
      ok := PublishTemp(pid, id, p);
      p' := sys.procs[pid];
      if !ok {
        return;
      }
      ok := SyncDirectory(pid, p');
      p' := sys.procs[pid];
      if !ok {
        return;
      }
      ok := WriteLastRun(pid, id, p');
      p' := sys.procs[pid];
      if !ok {
        return;
      }
      ok := SyncDirectory(pid, p');
      p' := sys.procs[pid];
    }

    /** Remove a directory under a hidden name of its own, beside what was hidden before. */
    method Discard(pid: Pid, name: Name, ghost base: map<Name, Dir>, ghost p: Proc) returns (removed: bool)
      requires Runs(pid, p) && IsCleaning(p) && name == Trash(p, pid)
      requires HiddenOf(disk) - {name} == base && |base| == strays && name !in base && name.Hidden?
      modifies `disk, `sys, `log, `faults, `strays, `refusals
      ensures Runs(pid, AfterClean(p, removed)) && SameHistory(old(sys)) && old(log) <= log
      ensures VisibleOf(disk) == VisibleOf(old(disk)) && disk.tombs == old(disk).tombs && disk.lastRun == old(disk).lastRun
      ensures HiddenOf(disk) - {name} == base && |HiddenOf(disk)| == strays && Within(base, HiddenOf(disk))
      ensures old(faults) <= faults && 0 <= strays - old(strays) <= refusals - old(refusals) <= faults - old(faults)
    {
      hide VisibleOf, HiddenOf, Step, Run, RulesOf, Within, Trash, AfterClean;
      ghost var before := disk;
      removed := RemoveDir(pid, name, p);
      StandsHidden(disk, name);
      RemovedAt(before, disk, name, base);
    }

    /** Clean up after a failure; stuck when the compensating rename failed too. */
    method Undo(pid: Pid, id: Uuid, published: bool, ghost base: map<Name, Dir>, ghost p: Proc) returns (ghost stuck: bool)
      requires Runs(pid, p) && p.Committing? && p.id == id && p.cpc == CleanTemp(published)
      requires published ==> Visible(id) in disk.records && Hidden(Tmp, id, pid) !in disk.records
      requires HiddenOf(disk) - {Hidden(Tmp, id, pid)} == base && |base| == strays
      requires Hidden(Tmp, id, pid) !in base && Hidden(Failed, id, pid) !in base
      modifies `disk, `sys, `log, `faults, `strays, `refusals
      ensures Valid() && old(log) <= log && clock == old(clock) && Within(base, HiddenOf(disk))
      ensures old(faults) <= faults && 0 <= strays - old(strays) <= refusals - old(refusals) <= faults - old(faults)
      ensures disk.tombs == old(disk).tombs && disk.lastRun == old(disk).lastRun
      ensures sys.committed == old(sys).committed && sys.owner == old(sys).owner
      ensures stuck ==> published && old(faults) < faults
      ensures VisibleOf(disk) == if published && !stuck then VisibleOf(old(disk)) - {Visible(id)} else VisibleOf(old(disk))
    {
      hide VisibleOf, HiddenOf, Step, Run, RulesOf, Within, Trash, OnlyAt;
      var temp := Hidden(Tmp, id, pid);
      TrashIs(p, pid);
      StandsVisible(disk, Visible(id));
      var removed := Discard(pid, temp, base, p);
      ghost var p' := AfterClean(p, removed);
      Untouched(base, Hidden(Failed, id, pid));
      StandsVisible(disk, Visible(id));
      stuck := false;
      if published {
        ghost var mid := HiddenOf(disk);
        stuck := Withdraw(pid, id, p');
        WithinOn(base, mid, HiddenOf(disk));
      } else {
        End(pid, p');
      }
    }

    /** The published record is hidden again and removed. */
    method Withdraw(pid: Pid, id: Uuid, ghost p: Proc) returns (ghost stuck: bool)
      requires Runs(pid, p) && p.Committing? && p.id == id && p.cpc == Unpublish
      requires Visible(id) in disk.records && Hidden(Failed, id, pid) !in HiddenOf(disk) && |HiddenOf(disk)| == strays
      modifies `disk, `sys, `log, `faults, `strays, `refusals
      ensures Valid() && old(log) <= log && clock == old(clock) && Within(HiddenOf(old(disk)), HiddenOf(disk))
      ensures old(faults) <= faults && 0 <= strays - old(strays) <= refusals - old(refusals) <= faults - old(faults)
      ensures disk.tombs == old(disk).tombs && disk.lastRun == old(disk).lastRun
      ensures sys.committed == old(sys).committed && sys.owner == old(sys).owner
      ensures stuck ==> old(faults) < faults
      ensures VisibleOf(disk) == if stuck then VisibleOf(old(disk)) else VisibleOf(old(disk)) - {Visible(id)}
    {
      hide RulesOf, VisibleOf, HiddenOf, Step, Run, Within, AfterClean;
      StandsHidden(disk, Hidden(Failed, id, pid));
      var ok := TakeBack(pid, id, p);
      stuck := !ok;
      if ok {
        DropFailed(pid, id, old(HiddenOf(disk)), p.(cpc := CleanFailed));
      } else {
        WithinItself(HiddenOf(disk));
        End(pid, p.(cpc := Returned(false)));
      }
    }

    /** What was published and taken back is removed, the last thing such a commit does. */
    method DropFailed(pid: Pid, id: Uuid, ghost base: map<Name, Dir>, ghost p: Proc)
      requires Runs(pid, p) && p.Committing? && p.id == id && p.cpc == CleanFailed
      requires HiddenOf(disk) - {Hidden(Failed, id, pid)} == base && |base| == strays && Hidden(Failed, id, pid) !in base
      modifies `disk, `sys, `log, `faults, `strays, `refusals
      ensures Valid() && SameHistory(old(sys)) && old(log) <= log && Within(base, HiddenOf(disk))
      ensures old(faults) <= faults && 0 <= strays - old(strays) <= refusals - old(refusals) <= faults - old(faults)
      ensures VisibleOf(disk) == VisibleOf(old(disk)) && disk.tombs == old(disk).tombs && disk.lastRun == old(disk).lastRun
    {
      hide RulesOf, VisibleOf, HiddenOf, Step, Run, Within, AfterClean, Trash;
      TrashIs(p, pid);
      var removed := Discard(pid, Hidden(Failed, id, pid), base, p);
      End(pid, AfterClean(p, removed));
    }

    // ---- Expiry and deletion ------------------------------------------------------------------

    method BeginRetiring(id: Uuid, status: TombStatus) returns (pid: Pid)
      requires Valid() && Visible(id) in disk.records && (status == WasExpired ==> PastExpiry(disk.records[Visible(id)], clock))
      modifies `nextTag, `sys, `log
      ensures Runs(pid, Retiring(id, status, clock, FirstStep(status))) && pid == old(nextTag) && nextTag == pid + 1 && old(log) <= log
      ensures Temp(pid) !in disk.tombs && Hidden(TrashKind(status), id, pid) !in disk.records
      ensures sys.committed == old(sys).committed && sys.gone == old(sys).gone && sys.owner == old(sys).owner
    {
      TombsAreFree(Law(), start, log, id);
      TagsAreFresh(Law(), start, log, TrashKind(status), id);
      pid := nextTag;
      Note(BeginRetire(id, status));
      nextTag := nextTag + 1;
    }

    /** The look of `expire_record` for its record; a look that fails is taken for a record that is not there. */
    method SeeRecord(pid: Pid, id: Uuid, ghost p: Proc) returns (there: bool)
      requires Runs(pid, p) && p.Retiring? && p.id == id && p.rpc == StatRecord && Visible(id) in disk.records
      modifies `sys, `log, `faults, `passed, `misses
      ensures Runs(pid, p.(rpc := if there then Rename else OpenTomb))
      ensures SameHistory(old(sys)) && old(log) <= log
      ensures faults == old(faults) + if there then 0 else 1
      ensures misses == old(misses) + if there then 0 else 1
      ensures passed == old(passed) + if there then 0 else 1
    {
      hide AdvanceCommit, AdvanceLookup, RemoveRecord, Bury, Built, Accepts;
      there := AttemptLightly();
      Note(Advance(pid, if there then Done else Fails));
      if !there {
        misses := misses + 1;
      }
    }

    method RenameAway(pid: Pid, id: Uuid, status: TombStatus, ghost p: Proc) returns (ok: bool)
      requires Runs(pid, p) && p.Retiring? && p.id == id && p.status == status && p.rpc == Rename
      requires Visible(id) in disk.records && Hidden(TrashKind(status), id, pid) !in disk.records
      modifies `disk, `sys, `log, `faults
      ensures Runs(pid, p.(rpc := if ok then Remove else Stopped(false)))
      ensures old(log) <= log && sys.committed == old(sys).committed && sys.now == old(sys).now && sys.owner == old(sys).owner
      ensures disk.tombs == old(disk).tombs && disk.lastRun == old(disk).lastRun
      ensures ok ==> HiddenOf(disk) - {Hidden(TrashKind(status), id, pid)} == HiddenOf(old(disk))
      ensures if ok then VisibleOf(disk) == VisibleOf(old(disk)) - {Visible(id)} else disk == old(disk)
      ensures faults == old(faults) + if ok then 0 else 1
    {
      hide VisibleOf, HiddenOf, AdvanceLookup, SeekExpired, AdvanceCommit, Bury, Built, Accepts, Removing;
      ok := Attempt();
      if ok {
        MovedAcross(disk, Visible(id), Hidden(TrashKind(status), id, pid));
        disk := Moved(disk, Visible(id), Hidden(TrashKind(status), id, pid));
      }
      Note(Advance(pid, if ok then Done else Fails));
    }

    method CreateTomb(pid: Pid, ghost p: Proc) returns (ok: bool)
      requires Runs(pid, p) && p.Retiring? && p.rpc == OpenTomb
      modifies `disk, `sys, `log, `faults
      ensures Runs(pid, if ok then p.(rpc := FillTomb, at := if p.status == WasDeleted then clock else p.at) else p.(rpc := CleanTomb))
      ensures SameHistory(old(sys)) && old(log) <= log
      ensures disk == if ok then WithTomb(old(disk), Temp(pid), Torn) else old(disk)
      ensures faults == old(faults) + if ok then 0 else 1
    {
      hide AdvanceLookup, SeekExpired, AdvanceCommit, RemoveRecord, Built, Accepts;
      ok := Attempt();
      if ok {
        disk := WithTomb(disk, Temp(pid), Torn);
      }
      Note(Advance(pid, if ok then Done else Fails));
    }

    method FillTombFile(pid: Pid, t: Tombstone, ghost p: Proc) returns (ok: bool)
      requires Runs(pid, p) && p.Retiring? && p.rpc == FillTomb && t == TombFor(Law(), p.id, p.status, p.at)
      requires Temp(pid) in disk.tombs
      modifies `disk, `sys, `log, `faults
      ensures Runs(pid, p.(rpc := if ok then RenameTomb else CleanTomb))
      ensures SameHistory(old(sys)) && old(log) <= log
      ensures disk == if ok then WithTomb(old(disk), Temp(pid), Full(t)) else old(disk)
      ensures faults == old(faults) + if ok then 0 else 1
    {
      hide AdvanceLookup, SeekExpired, AdvanceCommit, RemoveRecord, Built, Accepts, TombFor;
      ok := Attempt();
      if ok {
        disk := WithTomb(disk, Temp(pid), Full(t));
      }
      Note(Advance(pid, if ok then Done else Fails));
    }

    method RenameTombFile(pid: Pid, id: Uuid, ghost p: Proc) returns (ok: bool)
      requires Runs(pid, p) && p.Retiring? && p.id == id && p.rpc == RenameTomb && Temp(pid) in disk.tombs
      modifies `disk, `sys, `log, `faults
      ensures Runs(pid, p.(rpc := if ok then Stopped(true) else CleanTomb))
      ensures SameHistory(old(sys)) && old(log) <= log
      ensures disk == if ok then WithTomb(WithoutTomb(old(disk), Temp(pid)), Final(id), old(disk).tombs[Temp(pid)]) else old(disk)
      ensures faults == old(faults) + if ok then 0 else 1
    {
      hide AdvanceLookup, SeekExpired, AdvanceCommit, RemoveRecord, Built, Accepts, TombFor;
      ok := Attempt();
      if ok {
        disk := WithTomb(WithoutTomb(disk, Temp(pid)), Final(id), disk.tombs[Temp(pid)]);
      }
      Note(Advance(pid, if ok then Done else Fails));
    }

    method CleanTombFile(pid: Pid, ghost p: Proc)
      requires Runs(pid, p) && p.Retiring? && p.rpc == CleanTomb
      modifies `disk, `sys, `log, `faults
      ensures Runs(pid, p.(rpc := Stopped(false)))
      ensures SameHistory(old(sys)) && old(log) <= log
      ensures disk == if faults == old(faults) then WithoutTomb(old(disk), Temp(pid)) else old(disk)
      ensures old(faults) <= faults
    {
      hide AdvanceLookup, SeekExpired, AdvanceCommit, RemoveRecord, Built, Accepts, TombFor;
      var ok := Attempt();
      if ok {
        disk := WithoutTomb(disk, Temp(pid));
      }
      Note(Advance(pid, if ok then Done else Fails));
    }

    /** `write_tombstone`: a temporary file, then one rename; a failure leaves at most the temporary. */
    method WriteTombstone(pid: Pid, id: Uuid, status: TombStatus, now: i64, ghost p: Proc) returns (ok: bool, ghost p': Proc)
      requires Runs(pid, p) && p.Retiring? && p.id == id && p.status == status && p.rpc == OpenTomb
      requires if status == WasDeleted then now == clock else now == p.at
      modifies `disk, `sys, `log, `faults
      ensures Runs(pid, p') && SameHistory(old(sys)) && old(log) <= log
      ensures disk.records == old(disk).records && disk.lastRun == old(disk).lastRun
      ensures TempsAside(disk, pid) == if ok then TempsAside(old(disk), pid)[Final(id) := Full(TombFor(Law(), id, status, now))]
                                       else TempsAside(old(disk), pid)
      ensures ok && Temp(pid) !in old(disk).tombs ==> disk.tombs == old(disk).tombs[Final(id) := Full(TombFor(Law(), id, status, now))]
      ensures old(faults) <= faults && (ok <==> faults == old(faults))
      ensures !ok && faults == old(faults) + 1 ==> Temp(pid) !in disk.tombs
    {
      hide Run, Step;
      ok := CreateTomb(pid, p);
      p' := sys.procs[pid];
      TempAside(old(disk), pid, Torn);
      if ok {
        ok := FillTombFile(pid, Tombstone(id, status, now, SaturatingLater(now, config.tombTtl)), p');
        p' := sys.procs[pid];
        TempAside(WithTomb(old(disk), Temp(pid), Torn), pid, Full(TombFor(Law(), id, status, now)));
      }
      ghost var d := disk;
      if ok {
        ok := RenameTombFile(pid, id, p');
        p' := sys.procs[pid];
        FinalAside(d, pid, id, Full(TombFor(Law(), id, status, now)));
        if Temp(pid) !in old(disk).tombs {
          TombInPlace(old(disk), pid, id, Full(TombFor(Law(), id, status, now)));
        }
      }
      if !ok {
        TempAside(disk, pid, Torn);
        CleanTombFile(pid, p');
        p' := sys.procs[pid];
      }
    }

    /** Rename the record out of sight, then remove it. */
    method TakeAway(pid: Pid, id: Uuid, status: TombStatus, ghost p: Proc) returns (ok: bool, ghost p': Proc)
      requires Runs(pid, p) && p.Retiring? && p.id == id && p.status == status && p.rpc == Rename
      requires Visible(id) in disk.records && Hidden(TrashKind(status), id, pid) !in disk.records
      modifies `disk, `sys, `log, `faults, `strays, `refusals
      ensures Runs(pid, p') && old(log) <= log && sys.now == old(sys).now && sys.owner == old(sys).owner
      ensures ok ==> p' == p.(rpc := OpenTomb)
      ensures disk.tombs == old(disk).tombs && disk.lastRun == old(disk).lastRun
      ensures VisibleOf(disk) == VisibleOf(old(disk)) - {Visible(id)} || (!ok && VisibleOf(disk) == VisibleOf(old(disk)))
      ensures HiddenOf(disk) - {Hidden(TrashKind(status), id, pid)} == HiddenOf(old(disk))
      ensures ok ==> Hidden(TrashKind(status), id, pid) !in disk.records
      ensures strays == old(strays) + Count(HiddenOf(disk), Hidden(TrashKind(status), id, pid))
      ensures old(faults) <= faults && (ok <==> faults == old(faults)) && strays - old(strays) <= refusals - old(refusals) <= faults - old(faults)
    {
      hide Run, Step, VisibleOf, HiddenOf;
      StandsHidden(disk, Hidden(TrashKind(status), id, pid));
      Untouched(HiddenOf(disk), Hidden(TrashKind(status), id, pid));
      ok := RenameAway(pid, id, status, p);
      p' := p.(rpc := if ok then Remove else Stopped(false));
      if ok {
        ok := RemoveDir(pid, Hidden(TrashKind(status), id, pid), p');
        p' := AfterClean(p', ok);
        StandsHidden(disk, Hidden(TrashKind(status), id, pid));
      }
    }

    /**
     `expire_record` and the removing half of `delete`: rename away, remove, then write the
     tombstone. Whatever fails, the run is either untouched or no longer visible, and only success
     leaves a tombstone: beside nothing, or beside a record that an expiry failed to see.
     */
    method RetireRecord(id: Uuid, status: TombStatus) returns (ok: bool)
      requires Valid() && Visible(id) in disk.records
      requires status == WasExpired ==> PastExpiry(disk.records[Visible(id)], clock)
      modifies this
      ensures Valid() && Continues() && (status == WasExpired ==> clock == old(clock))
      ensures disk.lastRun == old(disk).lastRun && nextTag == old(nextTag) + 1
      ensures faults == old(faults) ==> ok
      ensures misses <= old(misses) + 1 && (misses > old(misses) ==> status == WasExpired)
      ensures ok ==> Retired(old(disk), disk, Visible(id), misses > old(misses))
      ensures ok ==> disk.tombs == old(disk).tombs[Final(id) := Full(TombFor(Law(), id, status, clock))]
      ensures !ok ==> VisibleOf(disk) == VisibleOf(old(disk)) || VisibleOf(disk) == VisibleOf(old(disk)) - {Visible(id)}
      ensures !ok ==> TempsAside(disk, old(nextTag)) == TempsAside(old(disk), old(nextTag))
      ensures Temp(old(nextTag)) !in old(disk).tombs
      ensures passed - old(passed) == misses - old(misses) && (ok <==> Felt() == old(Felt()))
      ensures !ok && faults == old(faults) + 1 ==> disk.tombs == old(disk).tombs
      ensures looks == old(looks)
    {
      hide Run, Step, VisibleOf, HiddenOf, TombFor, PastExpiry, TempsAside, Retired;
      var pid := BeginRetiring(id, status);
      ok := RetireRest(pid, id, status, Retiring(id, status, clock, FirstStep(status)));
    }

    /** The tombstone of a retired record; a deletion reads the clock again for it. */
    method RecordGone(pid: Pid, id: Uuid, status: TombStatus, ghost p: Proc) returns (ok: bool, ghost p': Proc)
      requires Runs(pid, p) && p.Retiring? && p.id == id && p.status == status && p.rpc == OpenTomb && p.at == clock
      modifies `disk, `clock, `sys, `log, `faults
      ensures Runs(pid, p') && old(log) <= log && old(clock) <= clock && sys.owner == old(sys).owner
      ensures status == WasExpired ==> clock == old(clock)
      ensures VisibleOf(disk) == VisibleOf(old(disk)) && HiddenOf(disk) == HiddenOf(old(disk)) && disk.lastRun == old(disk).lastRun
      ensures !ok ==> TempsAside(disk, pid) == TempsAside(old(disk), pid)
      ensures ok && Temp(pid) !in old(disk).tombs ==> disk.tombs == old(disk).tombs[Final(id) := Full(TombFor(Law(), id, status, clock))]
      ensures old(faults) <= faults && (ok <==> faults == old(faults))
      ensures !ok && faults == old(faults) + 1 ==> Temp(pid) !in disk.tombs
    {
      hide RulesOf, Run, Step, VisibleOf, HiddenOf, TombFor, TempsAside;
      var now := clock;
      if status == WasDeleted {
        now := Now();
      }
      ghost var before := disk;
      ok, p' := WriteTombstone(pid, id, status, now, p);
      SameParts(before, disk);
    }

    /** The retirement once begun. */
    method RetireRest(pid: Pid, id: Uuid, status: TombStatus, ghost p0: Proc) returns (ok: bool)
      requires Runs(pid, p0) && p0 == Retiring(id, status, clock, FirstStep(status)) && Visible(id) in disk.records
      requires Temp(pid) !in disk.tombs && Hidden(TrashKind(status), id, pid) !in disk.records && |HiddenOf(disk)| == strays
      modifies `disk, `clock, `sys, `log, `faults, `passed, `misses, `strays, `refusals
      ensures Valid() && Continues() && (status == WasExpired ==> clock == old(clock))
      ensures disk.lastRun == old(disk).lastRun
      ensures faults == old(faults) ==> ok
      ensures misses <= old(misses) + 1 && (misses > old(misses) ==> status == WasExpired)
      ensures ok ==> Retired(old(disk), disk, Visible(id), misses > old(misses))
      ensures ok ==> disk.tombs == old(disk).tombs[Final(id) := Full(TombFor(Law(), id, status, clock))]
      ensures !ok ==> VisibleOf(disk) == VisibleOf(old(disk)) || VisibleOf(disk) == VisibleOf(old(disk)) - {Visible(id)}
      ensures !ok ==> TempsAside(disk, pid) == TempsAside(old(disk), pid)
      ensures passed - old(passed) == misses - old(misses) && (ok <==> Felt() == old(Felt()))
      ensures !ok && faults == old(faults) + 1 ==> disk.tombs == old(disk).tombs
    {
      hide RulesOf, Run, Step, VisibleOf, HiddenOf, TombFor, PastExpiry, Retired, Within, TempsAside, Follows, FirstStep, TrashKind;
      ghost var d := disk;
      StandsVisible(disk, Visible(id));
      var there := true;
      ghost var p := p0;
      ok, there, p := Disappear(pid, id, status, p0);
      SameTombs(d, disk, pid);
      if ok {
        ok, p := RecordGone(pid, id, status, p);
        NoTempLeft(d, disk, pid);
      }
      End(pid, p);
      FollowsCounted(old(Books()), Books());
      if ok {
        RetiredIs(d, disk, id, !there, Full(TombFor(Law(), id, status, clock)));
      }
    }

    /** The record leaves its name and is removed, or an expiry does not see it. */
    method Disappear(pid: Pid, id: Uuid, status: TombStatus, ghost p0: Proc) returns (ok: bool, there: bool, ghost p: Proc)
      requires Runs(pid, p0) && p0 == Retiring(id, status, clock, FirstStep(status)) && Visible(id) in disk.records
      requires Hidden(TrashKind(status), id, pid) !in disk.records && |HiddenOf(disk)| == strays
      modifies `disk, `sys, `log, `faults, `passed, `misses, `strays, `refusals
      ensures Runs(pid, p) && old(log) <= log && sys.now == old(sys).now && sys.owner == old(sys).owner
      ensures disk.tombs == old(disk).tombs && disk.lastRun == old(disk).lastRun
      ensures ok ==> p == p0.(rpc := OpenTomb)
      ensures !there ==> ok && status == WasExpired && disk == old(disk)
      ensures misses == old(misses) + if there then 0 else 1
      ensures Within(HiddenOf(old(disk)), HiddenOf(disk)) && |HiddenOf(disk)| == strays && (ok ==> HiddenOf(disk) == HiddenOf(old(disk)))
      ensures old(faults) <= faults && (ok && there <==> faults == old(faults)) && misses - old(misses) <= faults - old(faults)
      ensures 0 <= strays - old(strays) <= refusals - old(refusals) <= faults - old(faults)
      ensures there ==> VisibleOf(disk) == VisibleOf(old(disk)) - {Visible(id)} || (!ok && VisibleOf(disk) == VisibleOf(old(disk)))
      ensures passed - old(passed) == misses - old(misses) && (ok <==> Felt() == old(Felt()))
    {
      hide RulesOf, Run, Step, VisibleOf, HiddenOf, Within;
      ghost var before := HiddenOf(disk);
      StandsHidden(disk, Hidden(TrashKind(status), id, pid));
      Untouched(HiddenOf(disk), Hidden(TrashKind(status), id, pid));
      ok, there, p := true, true, p0;
      if status == WasExpired {
        there := SeeRecord(pid, id, p);
        p := p.(rpc := if there then Rename else OpenTomb);
      }
      if there {
        ok, p := TakeAway(pid, id, status, p);
        StandsHidden(disk, Hidden(TrashKind(status), id, pid));
      }
      LeftBehind(HiddenOf(disk), before, Hidden(TrashKind(status), id, pid));
    }

    // ---- Quota --------------------------------------------------------------------------------

    /** `usage`: every visible record is counted, in whatever order the directory is read. */
    method MeasureUsage() returns (r: Result<(nat, u64), Error>)
      requires Valid()
      modifies `faults
      ensures r.Ok? ==> r.value == (|VisibleOf(disk)|, SaturatingAdd(0, TotalBytes(VisibleOf(disk))))
      ensures old(faults) <= faults && (r.Ok? <==> faults == old(faults))
    {
      hide VisibleOf, Listed, TotalBytes, DirBytes, ReadManifest, Run;
      var readable := Attempt();
      if !readable {
        return Err(Io);
      }
      var records: nat, bytes: u64 := 0, 0;
      var names := disk.records.Keys;
      ghost var left, leftBytes := Listed(disk, names), TotalBytes(Listed(disk, names));
      AllNames(disk);
      while names != {}
        invariant faults == old(faults)
        invariant left == Listed(disk, names) && leftBytes == TotalBytes(left)
        invariant records + |left| == |VisibleOf(disk)|
        invariant SaturatingAdd(bytes, leftBytes) == SaturatingAdd(0, TotalBytes(VisibleOf(disk)))
        decreases names
      {
        var n: Name :| n in names;
        ListedWithout(disk, names, n);
        names := names - {n};
        left := Listed(disk, names);
        var ok := Attempt();
        if !ok {
          return Err(Io);
        }
        if n in disk.records && n.Visible? {
          VisibleIsReadable(config, start, log, n);
          var m := ReadManifest(disk.records[n]);
          if m.None? || m.value.runId != UuidText(n.id) {
            return Err(InvalidData);
          }
          records := records + 1;
          bytes := SaturatingAdd(bytes, DirBytes(disk.records[n]));
          leftBytes := TotalBytes(left);
        }
      }
      r := Ok((records, bytes));
    }

    /** `sweep_expired`: at most so many entries, until the time is up; unreadable entries are passed over. */
    method SweepExpired(maxRecords: nat) returns (r: Result<nat, Error>)
      requires Valid()
      modifies this
      ensures Valid() && Continues() && disk.lastRun == old(disk).lastRun
      ensures r.Ok? <==> Felt() == old(Felt())
      ensures OnlyExpiredLeft(VisibleOf(old(disk)), VisibleOf(disk), clock)
      ensures BuriedBy(Law(), old(disk), disk, clock, clock, r.Ok?)
      ensures r.Ok? && cuts == old(cuts) ==>
                |Past(VisibleOf(disk), clock)| <= Over(|old(disk).records|, maxRecords) + (faults - old(faults))
      ensures r.Ok? ==> r.value == |Past(VisibleOf(old(disk)), clock)| - |Past(VisibleOf(disk), clock)| + (misses - old(misses))
      ensures r.Ok? ==> r.value <= maxRecords && |VisibleOf(disk)| + r.value == |VisibleOf(old(disk))| + (misses - old(misses))
      ensures looks - old(looks) <= maxRecords
      ensures r.Ok? && cuts == old(cuts) ==> looks - old(looks) >= Min(maxRecords, |old(disk).records| - (passed - old(passed)))
    {
      hide RulesOf, VisibleOf, HiddenOf, Run, Step, HasExpired, PastExpiry, OnlyExpiredLeft, PurgedBut, Past, Follows, BuriedBy, Within;
      var now := Now();
      NothingLeft(VisibleOf(disk), now);
      var ok := Attempt();
      ghost var books := Books();
      FollowsQuietly(old(Books()), books);
      if !ok {
        NothingBuried(Law(), disk, disk, now, now);
        BuriedWider(Law(), disk, disk, now, now, now, now, false);
        return Err(Io);
      }
      r := SweepEntries(maxRecords, now);
      FollowsOn(old(Books()), books, Books());
    }

    /** The loop of the sweep. */
    method SweepEntries(maxRecords: nat, now: i64) returns (r: Result<nat, Error>)
      requires Valid() && clock == now
      modifies this
      ensures Valid() && Continues() && clock == now && disk.lastRun == old(disk).lastRun
      ensures r.Ok? <==> Felt() == old(Felt())
      ensures OnlyExpiredLeft(VisibleOf(old(disk)), VisibleOf(disk), now)
      ensures BuriedBy(Law(), old(disk), disk, now, now, r.Ok?)
      ensures r.Ok? && cuts == old(cuts) ==>
                |Past(VisibleOf(disk), now)| <= Over(|old(disk).records|, maxRecords) + (faults - old(faults))
      ensures r.Ok? ==> r.value == |Past(VisibleOf(old(disk)), now)| - |Past(VisibleOf(disk), now)| + (misses - old(misses))
      ensures r.Ok? ==> r.value <= maxRecords && |VisibleOf(disk)| + r.value == |VisibleOf(old(disk))| + (misses - old(misses))
      ensures looks - old(looks) <= maxRecords
      ensures r.Ok? && cuts == old(cuts) ==> looks - old(looks) >= Min(maxRecords, |old(disk).records| - (passed - old(passed)))
    {
      hide RulesOf, VisibleOf, HiddenOf, Run, Step, HasExpired, PastExpiry, OnlyExpiredLeft, PurgedBut, Past, Follows, BuriedBy, Within;
      NothingLeft(VisibleOf(disk), now);
      NothingBuried(Law(), disk, disk, now, now);
      FollowsSelf(Books());
      var names, taken, swept: nat := disk.records.Keys, 0, 0;
      ghost var spared: set<Name>, unlisted: nat := {}, 0;
      PurgeStarts(disk, true, now);
      while names != {} && taken < maxRecords
        invariant Valid() && Continues() && clock == now && disk.lastRun == old(disk).lastRun
        invariant old(faults) <= faults && old(cuts) <= cuts && Felt() == old(Felt())
        invariant OnlyExpiredLeft(VisibleOf(old(disk)), VisibleOf(disk), now)
        invariant BuriedBy(Law(), old(disk), disk, now, now, true)
        invariant swept <= taken <= maxRecords
        invariant looks == old(looks) + taken && unlisted <= passed - old(passed)
        invariant |names| + taken + unlisted == |old(disk).records| && |spared| <= faults - old(faults)
        invariant cuts == old(cuts) ==> PurgedBut(VisibleOf(disk), names, spared, true, now)
        invariant |VisibleOf(disk)| + swept == |VisibleOf(old(disk))| + (misses - old(misses))
        decreases names
      {
        var n: Name :| n in names;
        ghost var left, before, books, d := names, VisibleOf(disk), Books(), disk;
        names := names - {n};
        var turn: Turn;
        turn := SweepTurn(n);
        FollowsOn(old(Books()), books, Books());
        OnlyLess(VisibleOf(old(disk)), VisibleOf(d), now);
        BuriedThen(Law(), old(disk), d, disk, now, now, turn != Broken);
        OneTurn(VisibleOf(old(disk)), before, VisibleOf(disk), n, now);
        ghost var failed := faults > books.faults;
        PurgedOn(before, VisibleOf(disk), left, spared, n, failed, true, now);
        spared := if failed then spared + {n} else spared;
        if turn == Late {
          break;
        }
        if turn == Broken {
          return Err(Io);
        }
        unlisted := if turn == Unlisted then unlisted + 1 else unlisted;
        taken := if turn == Unlisted then taken else taken + 1;
        swept := if turn == Expiring then swept + 1 else swept;
      }
      PastAmong(config, start, log, names, spared, now);
      PastGone(VisibleOf(old(disk)), VisibleOf(disk), now);
      r := Ok(swept);
    }

    /** One entry in the loop of the sweep. */
    method SweepTurn(n: Name) returns (turn: Turn)
      requires Valid()
      modifies this
      ensures Valid() && Continues() && clock == old(clock) && disk.lastRun == old(disk).lastRun
      ensures faults == old(faults) ==> turn != Broken && turn != Unlisted
      ensures cuts == old(cuts) ==> turn != Late
      ensures VisibleOf(disk) == VisibleOf(old(disk)) ||
              (n in VisibleOf(old(disk)) && PastExpiry(old(disk).records[n], clock) && VisibleOf(disk) == VisibleOf(old(disk)) - {n})
      ensures n in VisibleOf(old(disk)) ==> VisibleOf(old(disk))[n] == old(disk).records[n]
      ensures n in VisibleOf(disk) && faults == old(faults) && cuts == old(cuts) ==> !HasExpired(VisibleOf(disk)[n], clock)
      ensures BuriedBy(Law(), old(disk), disk, clock, clock, turn != Broken)
      ensures turn != Broken ==>
                |VisibleOf(disk)| + (if turn == Expiring then 1 else 0) == |VisibleOf(old(disk))| + (misses - old(misses))
      ensures turn != Broken <==> Felt() == old(Felt())
      ensures looks == old(looks) + if turn == Unlisted || turn == Late then 0 else 1
    {
      hide RulesOf, VisibleOf, HiddenOf, Run, Step, HasExpired, PastExpiry, Follows, Retired, Balance, BuriedBy;
      ghost var before, missed := disk, misses;
      StandsVisible(disk, n);
      NothingBuried(Law(), disk, disk, clock, clock);
      FollowsSelf(Books());
      var listed := AttemptLightly();
      FollowsQuietly(old(Books()), Books());
      if !listed {
        return Unlisted;
      }
      var late := TimeIsUp();
      ghost var books := Books();
      FollowsQuietly(old(Books()), books);
      if late {
        return Late;
      }
      var ok, due := ExpireIfPast(n);
      FollowsOn(old(Books()), books, Books());
      StandsVisible(disk, n);
      if ok && due {
        RetiredCounts(before, disk, n, misses > missed);
        RetiredVisible(before, disk, n, misses > missed);
      }
      turn := if !ok then Broken else if due then Expiring else Passed;
    }

    /** One turn of the sweep or of an expiry purge. */
    method ExpireIfPast(n: Name) returns (ok: bool, due: bool)
      requires Valid()
      modifies this
      ensures Valid() && Continues() && clock == old(clock) && disk.lastRun == old(disk).lastRun
      ensures faults == old(faults) ==> ok
      ensures misses <= old(misses) + 1
      ensures VisibleOf(disk) == VisibleOf(old(disk)) ||
              (n in VisibleOf(old(disk)) && PastExpiry(old(disk).records[n], clock) && VisibleOf(disk) == VisibleOf(old(disk)) - {n})
      ensures ok && !due ==> disk == old(disk) && misses == old(misses)
      ensures ok && !due && faults == old(faults) && n in VisibleOf(disk) ==> !HasExpired(disk.records[n], clock)
      ensures BuriedBy(Law(), old(disk), disk, clock, clock, ok)
      ensures ok && due ==> Retired(old(disk), disk, n, misses > old(misses))
      ensures ok <==> Felt() == old(Felt())
      ensures looks == old(looks) + 1
    {
      hide VisibleOf, HiddenOf, Run, Step, TombFor, HasExpired, PastExpiry, TempsAside, Retired, BuriedBy;
      WithinItself(HiddenOf(disk));
      ok, due := true, false;
      looks := looks + 1;
      ghost var before := disk;
      StandsVisible(disk, n);
      NothingBuried(Law(), disk, disk, clock, clock);
      ghost var tag := nextTag;
      if n.Visible? && n in disk.records {
        var readable := AttemptLightly();
        if readable && HasExpired(disk.records[n], clock) {
          ExpiredIsPast(disk.records[n], clock);
          ghost var missed := misses;
          ok := RetireRecord(n.id, WasExpired);
          due := ok;
          if ok {
            RetiredVisible(before, disk, n, misses > missed);
          }
          ExpiryBuries(Law(), before, disk, n.id, tag, clock, ok);
        }
      }
    }

    /** The admission test of `commit`: once, and again after a sweep. */
    method EnsureRoom(newBytes: nat) returns (refused: Option<Error>)
      requires Valid()
      modifies this
      ensures Valid() && Continues() && disk.lastRun == old(disk).lastRun
      ensures OnlyExpiredLeft(VisibleOf(old(disk)), VisibleOf(disk), clock)
      ensures refused.None? ==> Felt() == old(Felt())
      ensures Felt() == old(Felt()) && refused.Some? ==> refused == Some(StorageFull) && !HasRoom(config, VisibleOf(old(disk)), newBytes)
      ensures refused.None? && HasRoom(config, VisibleOf(old(disk)), newBytes) ==> disk == old(disk)
      ensures |VisibleOf(old(disk))| <= |VisibleOf(disk)| + SWEEP_RECORD_LIMIT || refused.Some?
      ensures BuriedBy(Law(), old(disk), disk, old(clock), clock, refused.None? || Felt() == old(Felt()))
      ensures refused.None? ==> HasRoom(config, VisibleOf(disk), newBytes)
      ensures Felt() == old(Felt()) && refused.Some? ==> !HasRoom(config, VisibleOf(disk), newBytes)
      ensures Felt() == old(Felt()) && cuts == old(cuts) && refused.Some? ==>
                |Past(VisibleOf(disk), clock)| <= Over(|old(disk).records|, SWEEP_RECORD_LIMIT) + (faults - old(faults))
    {
      hide VisibleOf, TotalBytes, Run, Step, PastExpiry, Past, BuriedBy;
      NothingBuried(Law(), disk, disk, clock, clock);
      BuriedWider(Law(), disk, disk, clock, clock, clock, clock, false);
      var usage := MeasureUsage();
      if usage.Err? {
        return Some(usage.error);
      }
      if !Admits(usage.value.0, usage.value.1, newBytes, config.maxRecords, config.maxTotal) {
        var swept := SweepExpired(SWEEP_RECORD_LIMIT);
        BuriedWider(Law(), old(disk), disk, clock, clock, old(clock), clock, swept.Ok?);
        BuriedWider(Law(), old(disk), disk, clock, clock, old(clock), clock, false);
        if swept.Err? {
          return Some(swept.error);
        }
        usage := MeasureUsage();
        if usage.Err? {
          return Some(usage.error);
        }
        if !Admits(usage.value.0, usage.value.1, newBytes, config.maxRecords, config.maxTotal) {
          return Some(StorageFull);
        }
      }
      refused := None;
    }

    /**
     `commit`. Ok: the record is visible and whole beside the records there were, but for expired
     ones swept to make room; last_run names it, and it is active until its expiry. Err: nothing new is
     visible, unless the compensating rename itself failed and the record is stuck.
     */
    method Commit(payload: Payload) returns (r: Result<i64, Error>, ghost stuck: bool)
      requires Valid() && Utf8.Valid(payload.stdout) && Utf8.Valid(payload.stderr)
      requires ParseUuid(payload.stats.runId).Some? ==> ParseUuid(payload.stats.runId).value !in sys.owner
      modifies this
      ensures Valid() && Passes()
      ensures BeginsOnly(old(sys).owner, sys.owner, payload)
      ensures r.Err? && !stuck ==> OnlyExpiredLeft(VisibleOf(old(disk)), VisibleOf(disk), clock)
      ensures BuriedBy(Law(), old(disk), disk, old(clock), clock, r.Ok? || stuck || Felt() == old(Felt()))
      ensures stuck ==> r.Err? && faults >= old(faults) + 2
      ensures r.Ok? || stuck ==> Stored(config, VisibleOf(old(disk)), disk, payload, clock)
      ensures r.Ok? ==> !stuck && Confirmed(config, disk, clock, r.value, payload)
      ensures r.Ok? ==> Felt() == old(Felt())
      ensures Felt() == old(Felt()) && r.Err? ==>
                RefusedFor(config, old(disk), disk, payload, clock, r.error, faults - old(faults), cuts > old(cuts))
      ensures r.Err? ==> disk.lastRun == old(disk).lastRun || disk.lastRun == ParseUuid(payload.stats.runId)
      ensures old(WithinQuota(config, VisibleOf(disk))) && FitsReservation(payload) ==> WithinQuota(config, VisibleOf(disk))
    {
      hide VisibleOf, Run, Step, ParseUuid, Added, AdmittedAfterSweep, Announced, WithinQuota, PastExpiry, HiddenOf, FitsReservation,
           EstimatedRecordBytes, HasRoom, Past, BuriedBy, OnlyExpiredLeft;
      stuck := false;
      NothingLeft(VisibleOf(disk), clock);
      NothingBuried(Law(), disk, disk, clock, clock);
      var parsed := ParseUuid(payload.stats.runId);
      if parsed.None? {
        return Err(InvalidInput), stuck;
      }
      if |payload.stdout| > LineIndex.MAX_STREAM_BYTES || |payload.stderr| > LineIndex.MAX_STREAM_BYTES {
        return Err(StorageFull), stuck;
      }
      var refused := EnsureRoom(EstimatedRecordBytes(payload.stdout, payload.stderr));
      OnlyLess(VisibleOf(old(disk)), VisibleOf(disk), clock);
      FewerStayWithinQuota(config, VisibleOf(disk), VisibleOf(old(disk)));
      if refused.Some? {
        return Err(refused.value), stuck;
      }
      VisibleIsBegun(config, start, log, parsed.value);
      if Visible(parsed.value) in disk.records {
        return Err(AlreadyExists), stuck;
      }
      ghost var kept, swept, d := VisibleOf(disk), clock, disk;
      r, stuck := CommitAdmitted(parsed.value, payload);
      CommitBuriesNothing(config, old(disk), d, disk, parsed.value, payload, r.Ok? || stuck, old(clock), swept, clock);
      SweptThenAdded(config, VisibleOf(old(disk)), kept, disk, parsed.value, payload, clock, swept, clock);
    }

    /** The part of `commit` after admission. */
    method CommitAdmitted(id: Uuid, payload: Payload) returns (r: Result<i64, Error>, ghost stuck: bool)
      requires Valid() && Accepts(id, payload) && id !in sys.owner
      modifies this
      ensures Valid() && Passes()
      ensures sys.owner.Keys == old(sys).owner.Keys + {id}
      ensures if r.Ok? || stuck then Added(config, VisibleOf(old(disk)), disk, id, payload, clock) else VisibleOf(disk) == VisibleOf(old(disk))
      ensures stuck ==> r.Err? && faults >= old(faults) + 2
      ensures faults == old(faults) && r.Err? ==> r == Err(StorageFull) && !Indexable(payload)
      ensures disk.tombs == old(disk).tombs
      ensures r.Err? ==> disk.lastRun == old(disk).lastRun || disk.lastRun == Some(id)
      ensures r.Ok? ==> Announced(config, disk, id, clock, r.value, payload)
      ensures passed == old(passed) && (r.Ok? ==> faults == old(faults))
    {
      hide RulesOf, VisibleOf, HiddenOf, Within, Follows, OnlyAt, Law, Run, Step, Accepts, Added, Announced, Indexable;
      var pid := BeginCommitting(id, payload);
      ghost var base := HiddenOf(disk);
      StandsHidden(disk, Hidden(Tmp, id, pid));
      StandsHidden(disk, Hidden(Failed, id, pid));
      r, stuck := CommitBegun(pid, id, payload, base);
      FollowsCounted(old(Books()), Books());
    }

    /** The commit once begun: stage, then publish or undo. */
    method CommitBegun(pid: Pid, id: Uuid, payload: Payload, ghost base: map<Name, Dir>) returns (r: Result<i64, Error>, ghost stuck: bool)
      requires Runs(pid, Committing(id, payload, None, clock, MkDir)) && Accepts(id, payload)
      requires HiddenOf(disk) == base && |base| == strays
      requires Hidden(Tmp, id, pid) !in base && Hidden(Failed, id, pid) !in base
      modifies this
      ensures Valid() && Moves() && Within(base, HiddenOf(disk)) && sys.owner == old(sys).owner
      ensures if r.Ok? || stuck then Added(config, VisibleOf(old(disk)), disk, id, payload, clock) else VisibleOf(disk) == VisibleOf(old(disk))
      ensures stuck ==> r.Err? && faults >= old(faults) + 2
      ensures faults == old(faults) && r.Err? ==> r == Err(StorageFull) && !Indexable(payload)
      ensures disk.tombs == old(disk).tombs
      ensures r.Err? ==> disk.lastRun == old(disk).lastRun || disk.lastRun == Some(id)
      ensures r.Ok? ==> Announced(config, disk, id, clock, r.value, payload)
      ensures passed == old(passed) && (r.Ok? ==> faults == old(faults))
    {
      hide RulesOf, VisibleOf, HiddenOf, Within, OnlyAt, Law, Run, Step, Accepts, Added, Announced, Indexable, Built, Initial, ValidPayload, BuildManifest;
      ghost var begun := disk;
      ghost var p: Proc;
      var m: Result<Manifest, Error>;
      m, p := Stage(pid, id, payload);
      OnlyAtMeans(begun, disk, Hidden(Tmp, id, pid));
      if m.Ok? {
        r, stuck := Conclude(pid, id, payload, m.value, base, p);
      } else {
        stuck := Undo(pid, id, false, base, p);
        r := Err(m.error);
      }
    }

    /** A run just published and named in last_run is announced. */
    lemma SeenActive(id: Uuid, payload: Payload, m: Manifest)
      requires Valid() && Visible(id) in disk.records && disk.records[Visible(id)].manifest == Full(m)
      requires Holds(config, id, disk.records[Visible(id)], payload, clock) && disk.lastRun == Some(id)
      ensures Announced(config, disk, id, clock, m.expiresAt, payload)
    {
      hide View, Run;
      SeenWhileActive(config, start, log, id, m);
    }

    method Conclude(pid: Pid, id: Uuid, payload: Payload, m: Manifest, ghost base: map<Name, Dir>, ghost p: Proc)
      returns (r: Result<i64, Error>, ghost stuck: bool)
      requires Runs(pid, p) && p == Committing(id, payload, Some(m), clock, Publish)
      requires Accepts(id, payload) && Built(id, payload, clock, config.ttl) == Some(m)
      requires HiddenOf(disk) - {Hidden(Tmp, id, pid)} == base && |base| == strays
      requires Hidden(Tmp, id, pid) !in base && Hidden(Failed, id, pid) !in base
      modifies `disk, `sys, `log, `faults, `strays, `refusals
      ensures Valid() && old(log) <= log && clock == old(clock) && sys.owner == old(sys).owner
      ensures Within(base, HiddenOf(disk)) && 0 <= strays - old(strays) <= refusals - old(refusals) <= faults - old(faults)
      ensures if r.Ok? || stuck then Added(config, VisibleOf(old(disk)), disk, id, payload, clock) else VisibleOf(disk) == VisibleOf(old(disk))
      ensures old(faults) <= faults && (r.Ok? <==> faults == old(faults)) && (stuck ==> r.Err? && faults >= old(faults) + 2)
      ensures disk.tombs == old(disk).tombs
      ensures r.Err? ==> disk.lastRun == old(disk).lastRun || disk.lastRun == Some(id)
      ensures r.Ok? ==> Announced(config, disk, id, clock, r.value, payload)
    {
      hide *;
      var ok: bool;
      ghost var p': Proc;
      ok, p' := Finish(pid, id, p);
      var published := Visible(id) in disk.records;
      ghost var before, d := VisibleOf(old(disk)), disk;
      StandsVisible(d, Visible(id));
      StandsHidden(d, Hidden(Tmp, id, pid));
      Untouched(base, Hidden(Tmp, id, pid));
      if published {
        AddedHere(config, before, d, id, payload, m, clock);
      }
      if ok {
        stuck := false;
        WithinItself(base);
        End(pid, p');
        SeenActive(id, payload, m);
        r := Ok(m.expiresAt);
      } else {
        stuck := Undo(pid, id, published, base, p');
        r := Err(Io);
        if stuck {
          AddedHere(config, before, disk, id, payload, m, clock);
        } else if published {
          TakenBack(before, Visible(id), VisibleOf(d)[Visible(id)]);
        }
      }
    }

    // ---- Looking up ---------------------------------------------------------------------------

    /** The caller read the clock just before. */
    method At(now: i64)
      requires Valid() && clock <= now
      modifies `clock, `sys, `log
      ensures Valid() && old(log) <= log && clock == now && sys == old(sys).(now := now)
    {
      Note(Tick(now));
      clock := now;
    }

    /** `read_tombstone`. */
    method ReadTombstone(name: TombName) returns (r: Result<Option<Tombstone>, Error>)
      modifies `faults
      ensures if faults == old(faults) then r == TombstoneAt(disk, name) else r == Err(Io) && faults == old(faults) + 1
    {
      var ok := Attempt();
      r := if ok then TombstoneAt(disk, name) else Err(Io);
    }

    /** `remove_private_file` on a tombstone. */
    method RemoveTombFile(name: TombName) returns (ok: bool)
      requires Valid()
      modifies `disk, `sys, `log, `faults
      ensures Valid() && SameHistory(old(sys)) && old(log) <= log
      ensures disk == if ok then WithoutTomb(old(disk), name) else old(disk)
      ensures VisibleOf(disk) == VisibleOf(old(disk)) && HiddenOf(disk) == HiddenOf(old(disk))
      ensures faults == old(faults) + if ok then 0 else 1
    {
      hide AdvanceProc, VisibleOf, HiddenOf, RulesOf;
      SameParts(disk, WithoutTomb(disk, name));
      ok := Attempt();
      if ok {
        disk := WithoutTomb(disk, name);
        Note(DropTomb(name));
      }
    }

    method BeginLooking(id: Uuid) returns (pid: Pid)
      requires Valid()
      modifies `nextTag, `sys, `log
      ensures Runs(pid, Looking(id, clock, SeekTomb)) && old(log) <= log
      ensures Temp(pid) !in disk.tombs && Hidden(Expired, id, pid) !in disk.records
      ensures sys.committed == old(sys).committed && sys.gone == old(sys).gone && sys.owner == old(sys).owner
    {
      hide AdvanceProc;
      TombsAreFree(Law(), start, log, id);
      TagsAreFresh(Law(), start, log, Expired, id);
      pid := nextTag;
      Note(BeginLookup(id));
      nextTag := nextTag + 1;
    }

    method SeekTombstone(pid: Pid, id: Uuid, ghost p: Proc) returns (r: Result<Option<Tombstone>, Error>)
      requires Runs(pid, p) && p == Looking(id, clock, SeekTomb)
      modifies `sys, `log, `faults
      ensures Runs(pid, p.(lpc := AfterTomb(r, id, clock))) && SameHistory(old(sys)) && old(log) <= log
      ensures if faults == old(faults) then r == TombstoneAt(disk, Final(id)) else r == Err(Io) && faults == old(faults) + 1
    {
      hide AdvanceCommit, AdvanceRetire, ReadRecord, TombstoneAt, Built, Accepts;
      r := ReadTombstone(Final(id));
      Note(Advance(pid, if r == Err(Io) then Fails else Done));
    }

    method DropExpiredTomb(pid: Pid, id: Uuid, ghost p: Proc) returns (ok: bool)
      requires Runs(pid, p) && p == Looking(id, clock, DropTombstone)
      modifies `disk, `sys, `log, `faults
      ensures Runs(pid, p.(lpc := if ok then SeekRecord else Answered(SeesError))) && SameHistory(old(sys)) && old(log) <= log
      ensures disk == if ok then WithoutTomb(old(disk), Final(id)) else old(disk)
      ensures faults == old(faults) + if ok then 0 else 1
    {
      hide AdvanceCommit, AdvanceRetire, ReadRecord, ReadTomb, Built, Accepts;
      ok := Attempt();
      if ok {
        disk := WithoutTomb(disk, Final(id));
      }
      Note(Advance(pid, if ok then Done else Fails));
    }

    method SeekDirectory(pid: Pid, id: Uuid, ghost p: Proc) returns (r: Result<bool, Error>)
      requires Runs(pid, p) && p == Looking(id, clock, SeekRecord)
      modifies `sys, `log, `faults
      ensures SameHistory(old(sys)) && old(log) <= log
      ensures r.Ok? ==> r.value == (Visible(id) in disk.records)
      ensures Runs(pid, p.(lpc := if r.Err? then Answered(SeesError) else if r.value then SeekManifest else Answered(SeesNothing)))
      ensures faults == old(faults) + if r.Ok? then 0 else 1
    {
      hide AdvanceCommit, AdvanceRetire, ReadRecord, ReadTomb, Built, Accepts;
      var ok := Attempt();
      r := if ok then Ok(Visible(id) in disk.records) else Err(Io);
      Note(Advance(pid, if ok then Done else Fails));
    }

    /** A record that cannot be read counts as corrupt; one past its expiry makes the lookup retire it. */
    method SeekManifestFile(pid: Pid, id: Uuid, ghost p: Proc) returns (sight: Sight)
      requires Runs(pid, p) && p == Looking(id, clock, SeekManifest) && Visible(id) in disk.records
      modifies `sys, `log, `faults, `passed
      ensures SameHistory(old(sys)) && old(log) <= log
      ensures if faults == old(faults) then sight == ViewRecord(disk, id, clock) else sight == SeesCorrupt && faults == old(faults) + 1
      ensures Runs(pid, if sight.SeesExpired? then Retiring(id, WasExpired, clock, StatRecord) else p.(lpc := Answered(sight)))
      ensures Felt() == old(Felt())
    {
      hide AdvanceCommit, AdvanceRetire, ReadTomb, Built, Accepts, ReadManifest, ViewManifest;
      var readable := AttemptLightly();
      sight := SeesCorrupt;
      if readable {
        var m := ReadManifest(disk.records[Visible(id)]);
        sight := if m.None? then SeesCorrupt else ViewManifest(m.value, id, clock);
      }
      Note(Advance(pid, if readable then Done else Fails));
    }

    /**
     `lookup_manifest`: the answer is the view of the store as it stood, except that a record
     whose files cannot be read just then counts as corrupt. A record found past its expiry is
     retired on the way, an expired tombstone removed; nothing else changes.
     */
    method LookupManifest(id: Uuid, now: i64) returns (r: Result<Sight, Error>)
      requires Valid() && clock <= now
      modifies this
      ensures Valid() && Continues() && clock == now && disk.lastRun == old(disk).lastRun
      ensures r.Ok? ==> r.value == View(old(disk), id, now) || (r.value.SeesCorrupt? && faults > old(faults))
      ensures faults == old(faults) ==> r == Ok(View(old(disk), id, now))
      ensures r.Ok? ==> !r.value.SeesError?
      ensures r.Ok? && !r.value.SeesExpired? ==> VisibleOf(disk) == VisibleOf(old(disk)) && sys.committed == old(sys).committed
      ensures r == Ok(SeesExpired) ==>
                && Final(id) in disk.tombs && disk.tombs[Final(id)].Full? && disk.tombs[Final(id)].content.status == WasExpired
                && (Visible(id) in disk.records ==> id in sys.missed)
      ensures OnlyTombOf(old(disk).tombs, disk.tombs, id)
      ensures faults == old(faults) ==> LookedUp(Law(), old(disk), disk, id, now)
      ensures OnlyExpiredLeft(VisibleOf(old(disk)), VisibleOf(disk), now)
      ensures VisibleOf(disk) - {Visible(id)} == VisibleOf(old(disk)) - {Visible(id)}
      ensures r.Ok? <==> Felt() == old(Felt())
    {
      hide Run, Step, VisibleOf, HiddenOf, View, ViewRecord, PastExpiry, Follows, Within, OnlyTombOf, LookedUp, LiveTombstone, TombFor;
      At(now);
      NothingLeft(VisibleOf(disk), now);
      ghost var d := disk;
      var pid := BeginLooking(id);
      var answer: Option<Result<Sight, Error>>;
      ghost var p: Proc;
      answer, p := ConsultTombstone(pid, id, Looking(id, now, SeekTomb));
      SameParts(d, disk);
      ghost var books := Books();
      FollowsQuietly(old(Books()), books);
      if answer.Some? {
        End(pid, p);
        TombsAreFree(Law(), start, log, id);
        if answer.value.Ok? {
          LookedUpBehind(Law(), d, id, now);
        }
        FollowsQuietly(old(Books()), Books());
        return answer.value;
      }
      SameRecordView(d, disk, id, now);
      ghost var mid := disk;
      r := LookupRecord(pid, id, now, p);
      FollowsOn(old(Books()), books, Books());
      TombsThen(d.tombs, mid.tombs, disk.tombs, id);
      if faults == old(faults) {
        LookedUpPast(Law(), d, mid, disk, id, now);
      }
    }

    /** The tombstone decides, unless there is none or it has expired and is removed. */
    method ConsultTombstone(pid: Pid, id: Uuid, ghost p0: Proc) returns (answer: Option<Result<Sight, Error>>, ghost p: Proc)
      requires Runs(pid, p0) && p0 == Looking(id, clock, SeekTomb)
      modifies `disk, `sys, `log, `faults
      ensures Runs(pid, p) && SameHistory(old(sys)) && old(log) <= log && old(faults) <= faults
      ensures disk.records == old(disk).records && disk.lastRun == old(disk).lastRun
      ensures OnlyTombOf(old(disk).tombs, disk.tombs, id)
      ensures answer.None? ==> !LiveTombstone(old(disk), id, clock) && disk.tombs == old(disk).tombs - {Final(id)}
      ensures answer.Some? && answer.value.Ok? ==> LiveTombstone(old(disk), id, clock)
      ensures answer.None? ==> p == Looking(id, clock, SeekRecord) && View(old(disk), id, clock) == ViewRecord(old(disk), id, clock)
      ensures answer.Some? && answer.value.Ok? ==>
                && answer.value.value == View(old(disk), id, clock) && answer.value.value != SeesError
                && disk == old(disk)
      ensures answer.Some? && faults == old(faults) ==> answer.value.Ok?
      ensures answer == Some(Ok(SeesExpired)) ==>
                Final(id) in disk.tombs && disk.tombs[Final(id)].Full? && disk.tombs[Final(id)].content.status == WasExpired
      ensures answer.Some? && answer.value.Err? <==> faults > old(faults)
    {
      hide Run, Step, VisibleOf, HiddenOf, ViewRecord, TombstoneAt;
      ghost var early := log;
      var tomb := SeekTombstone(pid, id, p0);
      p := p0.(lpc := AfterTomb(tomb, id, clock));
      if tomb.Err? {
        TombIsReadable(config, start, early, id);
        TombsAlone(disk.tombs, id);
        return Some(Err(tomb.error)), p;
      }
      RecordViewIs(disk, id, clock);
      TombstoneThere(disk, Final(id));
      TombIsReadable(config, start, early, id);
      TombsAlone(disk.tombs, id);
      NoTombThere(disk, id, clock);
      if tomb.value.None? {
        return None, p;
      }
      var t := tomb.value.value;
      if t.id != id {
        return Some(Ok(SeesCorrupt)), p;
      }
      if t.expiresAt > clock {
        return Some(Ok(SightOf(t.status))), p;
      }
      var ok := DropExpiredTomb(pid, id, p);
      p := p.(lpc := if ok then SeekRecord else Answered(SeesError));
      answer := if ok then None else Some(Err(Io));
    }

    method LookupRecord(pid: Pid, id: Uuid, now: i64, ghost p0: Proc) returns (r: Result<Sight, Error>)
      requires Runs(pid, p0) && p0 == Looking(id, now, SeekRecord) && clock == now && |HiddenOf(disk)| == strays
      requires Temp(pid) !in disk.tombs && Hidden(Expired, id, pid) !in disk.records
      modifies `disk, `clock, `sys, `log, `faults, `passed, `misses, `strays, `refusals
      ensures Valid() && Continues() && clock == now && disk.lastRun == old(disk).lastRun
      ensures r.Ok? ==> r.value == ViewRecord(old(disk), id, now) || (r.value.SeesCorrupt? && faults > old(faults))
      ensures faults == old(faults) ==> r == Ok(ViewRecord(old(disk), id, now))
      ensures r.Ok? ==> !r.value.SeesError?
      ensures r.Ok? && !r.value.SeesExpired? ==> VisibleOf(disk) == VisibleOf(old(disk)) && sys.committed == old(sys).committed
      ensures r == Ok(SeesExpired) ==>
                && Final(id) in disk.tombs && disk.tombs[Final(id)].Full? && disk.tombs[Final(id)].content.status == WasExpired
                && (Visible(id) in disk.records ==> id in sys.missed)
      ensures OnlyTombOf(old(disk).tombs, disk.tombs, id)
      ensures faults == old(faults) ==>
                if ViewRecord(old(disk), id, now).SeesExpired? then
                  && VisibleOf(disk) == VisibleOf(old(disk)) - {Visible(id)}
                  && disk.tombs == old(disk).tombs[Final(id) := Full(TombFor(Law(), id, WasExpired, now))]
                else VisibleOf(disk) == VisibleOf(old(disk)) && disk.tombs == old(disk).tombs
      ensures OnlyExpiredLeft(VisibleOf(old(disk)), VisibleOf(disk), now)
      ensures VisibleOf(disk) - {Visible(id)} == VisibleOf(old(disk)) - {Visible(id)}
      ensures r.Ok? <==> Felt() == old(Felt())
    {
      hide RulesOf, Run, Step, VisibleOf, HiddenOf, ViewRecord, PastExpiry, TempsAside, Follows, Within, OnlyTombOf, TombFor, Retired;
      ghost var d := disk;
      NothingLeft(VisibleOf(d), now);
      TombsAlone(d.tombs, id);
      RecordViewIs(d, id, now);
      var found := SeekDirectory(pid, id, p0);
      ghost var p := p0.(lpc := if found.Err? then Answered(SeesError) else if found.value then SeekManifest else Answered(SeesNothing));
      if found.Err? {
        End(pid, p);
        FollowsQuietly(old(Books()), Books());
        return Err(found.error);
      }
      if !found.value {
        End(pid, p);
        FollowsQuietly(old(Books()), Books());
        return Ok(SeesNothing);
      }
      var sight := SeekManifestFile(pid, id, p);
      r := Ok(sight);
      if sight.SeesExpired? {
        StandsVisible(d, Visible(id));
        ghost var books := Books();
        FollowsQuietly(old(Books()), books);
        var ok := RetireRest(pid, id, WasExpired, Retiring(id, WasExpired, clock, StatRecord));
        FollowsOn(old(Books()), books, Books());
        if ok {
          RetiredVisible(d, disk, Visible(id), misses > books.misses);
        }
        LostOne(VisibleOf(d), VisibleOf(disk), Visible(id), now);
        TombsAreFree(Law(), start, log, id);
        StandsVisible(disk, Visible(id));
        RetiredTomb(d, disk, id, pid, ok);
        if !ok {
          r := Err(Io);
        }
      } else {
        End(pid, p.(lpc := Answered(sight)));
        FollowsQuietly(old(Books()), Books());
      }
    }

    /** A run found active: its data files can be read, and hold what was committed. */
    method OpenActive(id: Uuid, now: i64) returns (r: Result<Sight, Error>)
      requires Valid() && clock <= now
      modifies this
      ensures Valid() && Continues() && clock == now && disk.lastRun == old(disk).lastRun
      ensures OnlyExpiredLeft(VisibleOf(old(disk)), VisibleOf(disk), now)
      ensures OnlyTombOf(old(disk).tombs, disk.tombs, id)
      ensures faults == old(faults) ==> LookedUp(Law(), old(disk), disk, id, now)
      ensures r.Ok? ==> r.value == View(old(disk), id, now) || (r.value.SeesCorrupt? && faults > old(faults))
      ensures faults == old(faults) ==> r == Ok(View(old(disk), id, now))
      ensures r.Ok? ==> !r.value.SeesError?
      ensures r.Ok? && r.value.SeesActive? ==>
                && id in sys.committed && PublicationOk(Law(), id, sys.committed[id])
                && Visible(id) in disk.records && disk.records[Visible(id)] == DirOf(sys.committed[id])
                && r.value.manifest == sys.committed[id].manifest
      ensures r.Ok? <==> Felt() == old(Felt())
    {
      hide VisibleOf, HiddenOf, View, Run, Step, DirOf, OnlyTombOf, LookedUp;
      ghost var before, d := log, disk;
      r := LookupManifest(id, now);
      if r.Ok? && r.value.SeesActive? {
        ActiveIsCommitted(config, start, before, id, now);
        StandsVisible(d, Visible(id));
        StandsVisible(disk, Visible(id));
      }
    }

    /**
     `retrieve_lines_at`: for an active run, the requested lines of the text that was committed,
     judged with the line on either side; for any other, its status and no content.
     */
    method RetrieveLinesAt(text: string, stream: Cursor.Stream, startLine: u64, lineCount: u32,
                           policy: Envelope.Policy, maxChars: nat, now: i64)
      returns (r: Result<Retrieve.Retrieval, Error>)
      requires Valid() && clock <= now
      modifies this
      ensures Valid() && Continues() && disk.lastRun == old(disk).lastRun
      ensures OnlyExpiredLeft(VisibleOf(old(disk)), VisibleOf(disk), now)
      ensures ParseUuid(text).None? || lineCount == 0 || lineCount > Retrieve.MAX_LINES_PER_QUERY ==>
                r == Err(InvalidInput) && disk == old(disk)
      ensures r.Err? <==> ParseUuid(text).None? || lineCount == 0 || lineCount > Retrieve.MAX_LINES_PER_QUERY || Felt() != old(Felt())
      ensures ParseUuid(text).Some? ==>
                && OnlyTombOf(old(disk).tombs, disk.tombs, ParseUuid(text).value)
                && (faults == old(faults) && r.Ok? ==> LookedUp(Law(), old(disk), disk, ParseUuid(text).value, now))
      ensures r.Ok? ==>
                && ParseUuid(text).Some?
                && var id := ParseUuid(text).value;
                   var sight := Sighted(old(disk), id, now, r.value.status == Retrieve.Corrupt && faults > old(faults));
                   && !sight.SeesError?
                   && if sight.SeesActive? then
                        && id in sys.committed
                        && PresentsLines(r.value, id, TextOf(sys.committed[id].payload, stream), stream, startLine, lineCount, policy, maxChars)
                      else r.value == Retrieve.Retrieval(StatusOf(sight), None)
    {
      hide VisibleOf, HiddenOf, View, Run, Step, PublicationOk, DirOf, PresentsLines, Retrieve.Answer, Retrieve.ReadBoth,
           StoredText, Within, OnlyTombOf, LookedUp;
      NothingLeft(VisibleOf(disk), now);
      WithinItself(HiddenOf(disk));
      var parsed := ParseUuid(text);
      if parsed.Some? {
        TombsAlone(disk.tombs, parsed.value);
      }
      if parsed.None? || lineCount == 0 || lineCount > Retrieve.MAX_LINES_PER_QUERY {
        return Err(InvalidInput);
      }
      var id := parsed.value;
      var sight: Result<Sight, Error>;
      sight := OpenActive(id, now);
      if sight.Err? {
        return Err(sight.error);
      }
      if !sight.value.SeesActive? {
        return Ok(Retrieve.Retrieval(StatusOf(sight.value), None));
      }
      var m := StreamOf(sight.value.manifest, stream);
      ghost var t := TextOf(sys.committed[id].payload, stream);
      PublishedText(config, id, sys.committed[id], stream);
      PresentsPublished(t, m, id, stream, startLine, lineCount, policy, maxChars);
      var readable := Attempt();
      if !readable {
        return Err(Io);
      }
      var data := DataFor(disk.records[Visible(id)], stream);
      r := Retrieve.RetrieveLines(id, stream, m, data.content, startLine, lineCount, policy, maxChars);
    }

    /**
     `search_at`: for an active run, one page over the text that was committed, with each match as it is
     shown. Without failing calls it fails only for its input, or where a match cannot be shown.
     */
    method SearchAt(text: string, stream: Cursor.Stream, literal: Bytes, cursor: Option<string>, timer: Search.Clock, now: i64)
      returns (r: Result<SearchAnswer, Error>)
      requires Valid() && clock <= now && Utf8.Valid(literal)
      modifies this
      ensures Valid() && Continues() && disk.lastRun == old(disk).lastRun
      ensures OnlyExpiredLeft(VisibleOf(old(disk)), VisibleOf(disk), now)
      ensures ParseUuid(text).None? || literal == [] || |literal| > Search.MAX_PATTERN_BYTES ==> r == Err(InvalidInput) && disk == old(disk)
      ensures Felt() != old(Felt()) ==> r.Err?
      ensures Felt() == old(Felt()) && r.Err? && ParseUuid(text).Some? && 1 <= |literal| <= Search.MAX_PATTERN_BYTES ==>
                || (r == Err(InvalidInput) && Search.StartLine(Search.Query(ParseUuid(text).value, stream, literal), cursor).Err?)
                || (r == Err(Fault) && literal[|literal| - 1] == LineIndex.NEWLINE)
      ensures ParseUuid(text).Some? ==>
                && OnlyTombOf(old(disk).tombs, disk.tombs, ParseUuid(text).value)
                && (faults == old(faults) && r.Ok? ==> LookedUp(Law(), old(disk), disk, ParseUuid(text).value, now))
      ensures r.Ok? ==>
                && ParseUuid(text).Some?
                && var id := ParseUuid(text).value;
                   var sight := Sighted(old(disk), id, now, r.value == Refused(Retrieve.Corrupt) && faults > old(faults));
                   && !sight.SeesError?
                   && if sight.SeesActive? then
                        && id in sys.committed && r.value.Served?
                        && var q := Search.Query(id, stream, literal);
                           && Search.StartLine(q, cursor).Ok?
                           && SearchLaws.PageFrom(q, LineIndex.Lines(TextOf(sys.committed[id].payload, stream)), timer,
                                                  Search.StartLine(q, cursor).value, r.value.page)
                      else r.value == Refused(StatusOf(sight))
    {
      hide VisibleOf, HiddenOf, View, Run, Step, PublicationOk, DirOf, Search.PageOf, Search.StartLine,
           SearchLaws.PageFrom, StoredText, Within, ParseUuid, OnlyTombOf, LookedUp;
      NothingLeft(VisibleOf(disk), now);
      WithinItself(HiddenOf(disk));
      var parsed := ParseUuid(text);
      if parsed.Some? {
        TombsAlone(disk.tombs, parsed.value);
      }
      if literal == [] || |literal| > Search.MAX_PATTERN_BYTES || parsed.None? {
        return Err(InvalidInput);
      }
      var id := parsed.value;
      var sight: Result<Sight, Error>;
      sight := OpenActive(id, now);
      if sight.Err? {
        return Err(sight.error);
      }
      if !sight.value.SeesActive? {
        return Ok(Refused(StatusOf(sight.value)));
      }
      PublishedText(config, id, sys.committed[id], stream);
      var readable := Attempt();
      if !readable {
        return Err(Io);
      }
      var m, data := StreamOf(sight.value.manifest, stream), DataFor(disk.records[Visible(id)], stream);
      ghost var p := sys.committed[id];
      OnlyCursorsAreRefused(Search.Query(id, stream, literal), TextOf(p.payload, stream), StreamOf(p.manifest, stream), cursor, timer);
      var page := Search.SearchPage(Search.Query(id, stream, literal), m, data.content, cursor, timer);
      if page.Ok? {
        PageOverText(Search.Query(id, stream, literal), TextOf(p.payload, stream), StreamOf(p.manifest, stream), cursor, timer);
      }
      r := if page.Ok? then Ok(Served(page.value)) else Err(page.error);
    }

    /** `load_stats`, of a named run or of the one that last_run names: exactly the stats that were committed. */
    method LoadStats(text: Option<string>) returns (r: Result<Stats, Error>)
      requires Valid()
      modifies this
      ensures Valid() && Continues() && disk.lastRun == old(disk).lastRun
      ensures OnlyExpiredLeft(VisibleOf(old(disk)), VisibleOf(disk), clock)
      ensures Felt() != old(Felt()) ==> r.Err?
      ensures faults == old(faults) && r.Err? ==>
                var id := if text.None? then old(disk).lastRun else ParseUuid(text.value);
                if id.Some? then r == Err(NotFound) && !View(old(disk), id.value, clock).SeesActive?
                else r == Err(if text.None? then Io else InvalidInput)
      ensures var id := if text.None? then old(disk).lastRun else ParseUuid(text.value);
              && (id.None? ==> r.Err? && disk == old(disk))
              && (id.Some? ==> OnlyTombOf(old(disk).tombs, disk.tombs, id.value))
              && (id.Some? && faults == old(faults) ==> LookedUp(Law(), old(disk), disk, id.value, clock))
      ensures r.Ok? ==>
                && (text.None? ==> old(disk).lastRun.Some?)
                && var id := if text.None? then old(disk).lastRun else ParseUuid(text.value);
                   id.Some? && id.value in sys.committed && r.value == sys.committed[id.value].payload.stats
                   && r.value.runId == UuidText(id.value) && View(old(disk), id.value, clock).SeesActive?
    {
      hide VisibleOf, HiddenOf, Run, Step, DirOf, Within, View, ParseUuid, UuidText, Whole, OnlyTombOf, LookedUp;
      NothingLeft(VisibleOf(disk), clock);
      if disk.lastRun.Some? {
        TombsAlone(disk.tombs, disk.lastRun.value);
      }
      WithinItself(HiddenOf(disk));
      if text.None? {
        var readable := Attempt();
        if !readable || disk.lastRun.None? {
          return Err(Io);
        }
      }
      var id := if text.None? then ParseUuid(UuidText(disk.lastRun.value)) else ParseUuid(text.value);
      if text.None? {
        ParseUuidText(disk.lastRun.value);
      }
      if id.None? {
        return Err(InvalidInput);
      }
      var now := Now();
      var sight: Result<Sight, Error>;
      sight := OpenActive(id.value, now);
      if sight.Err? {
        return Err(sight.error);
      }
      if !sight.value.SeesActive? {
        return Err(NotFound);
      }
      PublicationIsWhole(config, id.value, sys.committed[id.value]);
      SeenIsNamed(old(disk), id.value, now);
      r := Ok(sight.value.manifest.stats);
    }

    // ---- Delete and purge ---------------------------------------------------------------------

    /**
     `delete`. Only the named run is touched. Removed: the record is gone behind a new tombstone.
     AlreadyGone: a live tombstone stands for it. Absent: there is neither record nor tombstone.
     */
    method Delete(text: string) returns (r: Result<Deletion, Error>)
      requires Valid()
      modifies this
      ensures Valid() && Continues() && disk.lastRun == old(disk).lastRun
      ensures Within(VisibleOf(disk), VisibleOf(old(disk))) && misses == old(misses)
      ensures r.Ok? <==> ParseUuid(text).Some? && faults == old(faults)
      ensures passed == old(passed)
      ensures ParseUuid(text).None? ==> r == Err(InvalidInput) && disk == old(disk)
      ensures ParseUuid(text).Some? ==>
                var id := ParseUuid(text).value;
                && VisibleOf(disk) - {Visible(id)} == VisibleOf(old(disk)) - {Visible(id)}
                && OnlyTombOf(old(disk).tombs, disk.tombs, id)
                && (Visible(id) !in old(disk).records ==> disk.records == old(disk).records)
                && (r.Ok? ==> Visible(id) !in disk.records && (r.value == Removed <==> Visible(id) in old(disk).records))
                && (r == Ok(Removed) ==>
                      && HiddenOf(disk) == HiddenOf(old(disk))
                      && disk.tombs == old(disk).tombs[Final(id) := Full(TombFor(Law(), id, WasDeleted, clock))])
                && (r == Ok(AlreadyGone) ==> disk == old(disk) && View(disk, id, clock) in {SeesExpired, SeesDeleted})
                && (r == Ok(Absent) ==> disk.tombs == old(disk).tombs - {Final(id)} && View(old(disk), id, clock) == SeesNothing)
      ensures r.Err? && faults == old(faults) + 1 ==> disk.tombs == old(disk).tombs
    {
      hide VisibleOf, HiddenOf, Run, Step, View, TombFor, TempsAside, Retired, ParseUuid, OnlyTombOf;
      WithinItself(HiddenOf(disk));
      WithinItself(VisibleOf(disk));
      var parsed := ParseUuid(text);
      if parsed.None? {
        return Err(InvalidInput);
      }
      var id := parsed.value;
      TombsAlone(disk.tombs, id);
      ghost var tag := nextTag;
      var found := Attempt();
      if !found {
        return Err(Io);
      }
      if Visible(id) in disk.records {
        ghost var before := disk;
        var ok := RetireRecord(id, WasDeleted);
        if ok {
          RetiredVisible(before, disk, Visible(id), false);
        }
        RetiredTomb(before, disk, id, tag, ok);
        LessWithout(VisibleOf(before), VisibleOf(disk), Visible(id));
        StandsVisible(disk, Visible(id));
        return if ok then Ok(Removed) else Err(Io);
      }
      ghost var d := disk;
      r := DeleteGone(id);
      SameParts(d, disk);
    }

    // No record: the tombstone decides.
    method DeleteGone(id: Uuid) returns (r: Result<Deletion, Error>)
      requires Valid() && Visible(id) !in disk.records
      modifies this
      ensures Valid() && Continues()
      ensures disk.lastRun == old(disk).lastRun && disk.records == old(disk).records && r != Ok(Removed)
      ensures (r.Ok? <==> faults == old(faults)) && passed == old(passed)
      ensures misses == old(misses)
      ensures r == Ok(AlreadyGone) ==> disk == old(disk) && View(disk, id, clock) in {SeesExpired, SeesDeleted}
      ensures OnlyTombOf(old(disk).tombs, disk.tombs, id)
      ensures r == Ok(Absent) ==> disk.tombs == old(disk).tombs - {Final(id)} && View(old(disk), id, clock) == SeesNothing
      ensures r.Err? && faults == old(faults) + 1 ==> disk.tombs == old(disk).tombs
    {
      hide VisibleOf, HiddenOf, RulesOf, Run, Step, OnlyTombOf, View, TombstoneAt, Within, Follows;
      TombIsReadable(config, start, log, id);
      TombsAlone(disk.tombs, id);
      NoTombThere(disk, id, clock);
      ViewWithoutRecord(disk, id, clock);
      var tomb := ReadTombstone(Final(id));
      FollowsQuietly(old(Books()), Books());
      if tomb.Err? {
        return Err(tomb.error);
      }
      if tomb.value.None? {
        return Ok(Absent);
      }
      if tomb.value.value.id != id {
        return Err(InvalidData);
      }
      var now := Now();
      FollowsQuietly(old(Books()), Books());
      ViewWithoutRecord(disk, id, now);
      if tomb.value.value.expiresAt > now {
        return Ok(AlreadyGone);
      }
      ghost var d := disk;
      var ok := RemoveTombFile(Final(id));
      SameParts(d, disk);
      FollowsQuietly(old(Books()), Books());
      r := if ok then Ok(Absent) else Err(Io);
    }

    /** `delete` of a run that the directory listed. */
    method DeleteListed(id: Uuid) returns (ok: bool)
      requires Valid() && Visible(id) in disk.records
      modifies this
      ensures Valid() && Continues() && disk.lastRun == old(disk).lastRun
      ensures VisibleOf(disk) == VisibleOf(old(disk)) - {Visible(id)} || (!ok && VisibleOf(disk) == VisibleOf(old(disk)))
      ensures (ok <==> faults == old(faults)) && passed == old(passed)
      ensures ok ==> Retired(old(disk), disk, Visible(id), false)
      ensures misses == old(misses)
    {
      hide VisibleOf, HiddenOf, Run, Step, View, TombFor, ParseUuid, UuidText;
      ParseUuidText(id);
      StandsVisible(disk, Visible(id));
      var deleted := Delete(UuidText(id));
      ok := deleted.Ok?;
      StandsVisible(disk, Visible(id));
      LeftAlone(VisibleOf(old(disk)), VisibleOf(disk), Visible(id));
      assert ok ==> Final(id) in disk.tombs;
    }

    /** One entry in the first loop of `purge`; an entry that cannot be listed is passed over. */
    method PurgeRecord(n: Name, expiredOnly: bool, now: i64) returns (ok: bool, due: bool)
      requires Valid() && (expiredOnly ==> clock == now)
      modifies this
      ensures Valid() && Continues() && disk.lastRun == old(disk).lastRun
      ensures expiredOnly ==> clock == old(clock)
      ensures ok <==> Felt() == old(Felt())
      ensures VisibleOf(disk) == VisibleOf(old(disk)) ||
              (n in VisibleOf(old(disk)) && (expiredOnly ==> PastExpiry(VisibleOf(old(disk))[n], now)) && VisibleOf(disk) == VisibleOf(old(disk)) - {n})
      ensures ok && !due ==> disk == old(disk) && misses == old(misses)
      ensures faults == old(faults) && n in VisibleOf(disk) ==> expiredOnly && !HasExpired(VisibleOf(disk)[n], now)
      ensures expiredOnly ==> BuriedBy(Law(), old(disk), disk, now, now, ok)
      ensures ok && due ==> Retired(old(disk), disk, n, misses > old(misses)) && misses <= old(misses) + 1
    {
      hide VisibleOf, HiddenOf, Run, Step, HasExpired, PastExpiry, Retired, Follows, BuriedBy;
      ok, due := true, false;
      NothingBuried(Law(), disk, disk, now, now);
      StandsVisible(disk, n);
      var listed := AttemptLightly();
      ghost var books := Books();
      FollowsQuietly(old(Books()), books);
      if !listed {
        return;
      }
      if expiredOnly {
        ok, due := ExpireIfPast(n);
      } else if n.Visible? && n in disk.records {
        ok := DeleteListed(n.id);
        due := ok;
      } else {
        FollowsSelf(Books());
      }
      StandsVisible(disk, n);
      if ok && due {
        RetiredVisible(old(disk), disk, n, misses > old(misses));
      }
      FollowsOn(old(Books()), books, Books());
    }

    /** The first loop of `purge`: every record that could be listed is retired if it is due. */
    method PurgeRecords(expiredOnly: bool, now: i64) returns (r: Result<nat, Error>)
      requires Valid() && (expiredOnly ==> clock == now)
      modifies this
      ensures Valid() && Continues() && disk.lastRun == old(disk).lastRun
      ensures expiredOnly ==> clock == old(clock)
      ensures LostDue(VisibleOf(old(disk)), VisibleOf(disk), expiredOnly, now)
      ensures r.Ok? <==> Felt() == old(Felt())
      ensures r.Ok? ==> |Remaining(VisibleOf(disk), expiredOnly, now)| <= faults - old(faults)
      ensures r.Ok? && expiredOnly ==> BuriedBy(Law(), old(disk), disk, now, now, true)
      ensures r.Ok? ==> RecordsPurged(old(disk), disk, r.value, misses - old(misses))
    {
      hide RulesOf, VisibleOf, HiddenOf, Run, Step, HasExpired, PastExpiry, LostDue, Retired, RecordsPurged, Within, PurgedBut, Remaining, Follows, BuriedBy;
      NothingBuried(Law(), disk, disk, now, now);
      NothingPurged(disk, expiredOnly, now);
      var readable := Attempt();
      FollowsQuietly(old(Books()), Books());
      if !readable {
        return Err(Io);
      }
      PurgeStarts(disk, expiredOnly, now);
      var removed: nat := 0;
      var names := disk.records.Keys;
      ghost var spared: set<Name> := {};
      while names != {}
        invariant Valid() && Continues() && disk.lastRun == old(disk).lastRun
        invariant old(faults) <= faults && Felt() == old(Felt()) && (expiredOnly ==> clock == old(clock))
        invariant LostDue(VisibleOf(old(disk)), VisibleOf(disk), expiredOnly, now)
        invariant |spared| <= faults - old(faults) && PurgedBut(VisibleOf(disk), names, spared, expiredOnly, now)
        invariant expiredOnly ==> BuriedBy(Law(), old(disk), disk, now, now, true)
        invariant RecordsPurged(old(disk), disk, removed, misses - old(misses))
        decreases names
      {
        var n: Name :| n in names;
        ghost var left, before, books := names, disk, Books();
        names := names - {n};
        var ok, due := PurgeRecord(n, expiredOnly, now);
        FollowsOn(old(Books()), books, Books());
        LostDueOn(VisibleOf(old(disk)), VisibleOf(before), VisibleOf(disk), n, expiredOnly, now);
        ghost var failed := faults > books.faults;
        PurgedOn(VisibleOf(before), VisibleOf(disk), left, spared, n, failed, expiredOnly, now);
        spared := if failed then spared + {n} else spared;
        if !ok {
          return Err(Io);
        }
        if expiredOnly {
          LostDueIs(VisibleOf(old(disk)), VisibleOf(before), true, now);
          BuriedThen(Law(), old(disk), before, disk, now, now, true);
        }
        if due {
          RecordsPurgedOn(old(disk), before, disk, n, removed, books.misses - old(misses), misses > books.misses);
          removed := removed + 1;
        }
      }
      PurgeEnds(config, start, log, spared, expiredOnly, now);
      r := Ok(removed);
    }

    /** One entry in the second loop of `purge`; an entry that cannot be listed is passed over. */
    method PurgeTomb(n: TombName, expiredOnly: bool, now: i64) returns (r: Result<bool, Error>)
      requires Valid() && n in disk.tombs
      modifies `disk, `sys, `log, `faults, `passed
      ensures Valid() && Moves() && sys.owner == old(sys).owner && clock == old(clock) && old(faults) <= faults
      ensures disk.lastRun == old(disk).lastRun && VisibleOf(disk) == VisibleOf(old(disk)) && HiddenOf(disk) == HiddenOf(old(disk))
      ensures disk.tombs == if r == Ok(true) then old(disk).tombs - {n} else old(disk).tombs
      ensures r == Ok(true) ==> |disk.tombs| + 1 == |old(disk).tombs| && (expiredOnly ==> !LiveTomb(old(disk).tombs[n], now))
      ensures faults == old(faults) ==> (r.Err? <==> expiredOnly && TombstoneAt(old(disk), n).Err?)
      ensures faults == old(faults) && r == Ok(false) ==> expiredOnly && LiveTomb(disk.tombs[n], now)
      ensures Felt() != old(Felt()) ==> r.Err?
      ensures Felt() == old(Felt()) && r.Err? ==> expiredOnly && TombstoneAt(old(disk), n).Err?
      ensures 0 <= passed - old(passed) <= faults - old(faults)
    {
      hide RulesOf, VisibleOf, HiddenOf, Run, Step;
      var listed := AttemptLightly();
      if !listed {
        return Ok(false);
      }
      var due := !expiredOnly;
      if expiredOnly {
        var tomb := ReadTombstone(n);
        if tomb.Err? {
          return Err(tomb.error);
        }
        due := tomb.value.Some? && tomb.value.value.expiresAt <= now;
      }
      if due {
        OneTombLess(disk.tombs, n);
        var ok := RemoveTombFile(n);
        if !ok {
          return Err(Io);
        }
      }
      r := Ok(due);
    }

    /** The second loop of `purge`, over the tombstone files. */
    method PurgeTombFiles(expiredOnly: bool, now: i64) returns (r: Result<nat, Error>)
      requires Valid()
      modifies `disk, `sys, `log, `faults, `passed
      ensures Valid() && Continues() && clock == old(clock)
      ensures disk.lastRun == old(disk).lastRun && VisibleOf(disk) == VisibleOf(old(disk)) && HiddenOf(disk) == HiddenOf(old(disk))
      ensures r.Ok? ==> |disk.tombs| + r.value == |old(disk).tombs|
      ensures r.Ok? ==> |Unpurged(disk.tombs, expiredOnly, now)| <= faults - old(faults)
      ensures r.Ok? && expiredOnly ==> LiveKept(old(disk).tombs, disk.tombs, now)
      ensures faults == old(faults) ==> (r.Err? <==> expiredOnly && Unreadable(old(disk)))
      ensures Felt() != old(Felt()) ==> r.Err?
      ensures Felt() == old(Felt()) && r.Err? ==> expiredOnly && Unreadable(old(disk))
    {
      hide RulesOf, VisibleOf, HiddenOf, Unreadable, Law, Run, Step, LiveKept, LiveTomb, Unpurged, TombsSpared, TombsKept, TombsDone, Follows;
      TombsBegin(disk, expiredOnly, now);
      var removed: nat := 0;
      var names := disk.tombs.Keys;
      ghost var spared: set<TombName> := {};
      AllSpared(disk.tombs, expiredOnly, now);
      while names != {}
        invariant Valid() && Moves() && sys.owner == old(sys).owner && clock == old(clock)
        invariant disk.lastRun == old(disk).lastRun && VisibleOf(disk) == VisibleOf(old(disk)) && HiddenOf(disk) == HiddenOf(old(disk))
        invariant |disk.tombs| + removed == |old(disk).tombs|
        invariant TombsKept(old(disk), disk.tombs, names, expiredOnly, now)
        invariant Felt() == old(Felt())
        invariant |spared| <= faults - old(faults) && TombsSpared(disk.tombs, names, spared, expiredOnly, now)
        invariant faults == old(faults) ==> TombsDone(old(disk), disk.tombs, names, expiredOnly, now)
        decreases names
      {
        var n: TombName :| n in names;
        ghost var left, before, faultsBefore := names, disk, faults;
        TombStands(old(disk), disk, names, n, expiredOnly, now);
        names := names - {n};
        var gone := PurgeTomb(n, expiredOnly, now);
        TombTurn(old(disk), before.tombs, disk.tombs, left, n, expiredOnly, now, gone == Ok(true));
        if gone.Err? {
          FollowsQuietly(old(Books()), Books());
          return Err(gone.error);
        }
        ghost var failed := faults > faultsBefore;
        assert gone.value ==> n !in disk.tombs;
        assert !gone.value ==> gone == Ok(false);
        TombSpared(before.tombs, disk.tombs, left, spared, n, failed, expiredOnly, now);
        spared := if failed then spared + {n} else spared;
        removed := if gone.value then removed + 1 else removed;
      }
      SparedCount(disk.tombs, spared, expiredOnly, now);
      TombsEnd(old(disk), disk.tombs, expiredOnly, now);
      FollowsQuietly(old(Books()), Books());
      r := Ok(removed);
    }

    /** The second half of `purge`: the tombstone directory is listed, and its files looked at. */
    method PurgeTombs(expiredOnly: bool, now: i64) returns (r: Result<nat, Error>)
      requires Valid()
      modifies `disk, `sys, `log, `faults, `passed
      ensures Valid() && Continues() && clock == old(clock)
      ensures disk.lastRun == old(disk).lastRun && VisibleOf(disk) == VisibleOf(old(disk)) && HiddenOf(disk) == HiddenOf(old(disk))
      ensures r.Ok? ==> |disk.tombs| + r.value == |old(disk).tombs|
      ensures r.Ok? ==> |Unpurged(disk.tombs, expiredOnly, now)| <= faults - old(faults)
      ensures r.Ok? && expiredOnly ==> LiveKept(old(disk).tombs, disk.tombs, now)
      ensures faults == old(faults) ==> (r.Err? <==> expiredOnly && Unreadable(old(disk)))
      ensures Felt() != old(Felt()) ==> r.Err?
      ensures Felt() == old(Felt()) && r.Err? ==> expiredOnly && Unreadable(old(disk))
    {
      hide VisibleOf, HiddenOf, Run, Step, RulesOf, Law, LiveKept, Unpurged, Unreadable, Follows;
      var readable := Attempt();
      ghost var books := Books();
      FollowsQuietly(old(Books()), books);
      if !readable {
        return Err(Io);
      }
      r := PurgeTombFiles(expiredOnly, now);
      FollowsOn(old(Books()), books, Books());
    }

    /**
     `purge`. Expired only: nothing unexpired is touched, and if no call failed no expired record or
     tombstone is left, unless some tombstone file cannot be parsed, which always stops the purge.
     Otherwise nothing is left. The count is of records and of tombstone files removed, among them
     the tombstones this purge has just written.
     */
    method Purge(expiredOnly: bool) returns (r: Result<nat, Error>)
      requires Valid()
      modifies this
      ensures Valid() && Continues() && disk.lastRun == old(disk).lastRun
      ensures Within(VisibleOf(disk), VisibleOf(old(disk)))
      ensures expiredOnly ==> OnlyExpiredLeft(VisibleOf(old(disk)), VisibleOf(disk), clock)
      ensures r.Ok? && expiredOnly ==> LiveStay(old(disk), disk, clock)
      ensures r.Ok? && expiredOnly ==> StillBuried(Law(), old(disk), disk, clock)
      ensures r.Ok? ==>
                |Remaining(VisibleOf(disk), expiredOnly, clock)| + |Unpurged(disk.tombs, expiredOnly, clock)| <= faults - old(faults)
      ensures faults == old(faults) && r.Ok? ==>
                if expiredOnly then NonePast(VisibleOf(disk), clock) && AllLive(disk.tombs, clock)
                else VisibleOf(disk) == map[] && disk.tombs == map[]
      ensures faults == old(faults) ==> (r.Err? <==> expiredOnly && Unreadable(old(disk)))
      ensures Felt() != old(Felt()) ==> r.Err?
      ensures Felt() == old(Felt()) && r.Err? ==> expiredOnly && Unreadable(old(disk))
      ensures r.Ok? ==>
                var records := |VisibleOf(old(disk))| - |VisibleOf(disk)| + (misses - old(misses));
                |old(disk).tombs| + records <= r.value + |disk.tombs| <= |old(disk).tombs| + 2 * records
      ensures faults == old(faults) && r.Ok? ==>
                r.value + |disk.tombs| + |BesideTombs(old(disk))| == |old(disk).tombs| + 2 * (|VisibleOf(old(disk))| - |VisibleOf(disk)|)
    {
      hide VisibleOf, HiddenOf, Run, Step, PastExpiry, TombstoneAt, HasExpired, RulesOf, Unreadable, TombsAdded, Within, LiveKept,
           NonePast, Past, Unpurged, AllLive, BuriedBy, StillBuried;
      var now := Now();
      ghost var d := disk;
      FinalsReadable(config, start, log);
      WithinItself(HiddenOf(disk));
      var records := PurgeRecords(expiredOnly, now);
      LostDueIs(VisibleOf(d), VisibleOf(disk), expiredOnly, now);
      if records.Err? {
        return records;
      }
      NoneRemains(VisibleOf(disk), expiredOnly, clock);
      NothingIsPast(VisibleOf(disk), clock);
      NoneShadowed(config, start, log);
      SameUnreadable(config, start, log, d, disk);
      ghost var mid := disk;
      WithinOn(HiddenOf(d), HiddenOf(mid), HiddenOf(mid));
      var tombs := PurgeTombs(expiredOnly, now);
      r := if tombs.Ok? then Ok(records.value + tombs.value) else tombs;
      AllUnpurged(disk.tombs, now, clock);
      NoneUnpurged(disk.tombs, expiredOnly, clock);
      if r.Ok? && expiredOnly {
        LiveThrough(d, mid, disk, now);
        BuriedThrough(Law(), d, mid, disk, now);
      }
    }
  }
}
