/** A commit whose calls all succeed, step by step, from any reachable state. */
module Commits {
  import opened Basics
  import opened Uuids
  import opened Records
  import opened Directory
  import opened Lookup
  import opened Protocol
  import opened ProtocolLaws
  import opened Lifecycle
  import opened Traces

  /** A commit and the eleven calls it makes. */
  function CommitFully(id: Uuid, payload: Payload, pid: Pid): seq<Action> {
    [BeginCommit(id, payload)] + Dones(pid, 11)
  }

  /** The state with this process staging this directory. */
  function Staging(s: System, pid: Pid, p: Proc, dir: Dir): System
    requires p.Committing?
  {
    s.(disk := WithRecord(s.disk, Hidden(Tmp, p.id, pid), dir), procs := s.procs[pid := p])
  }

  lemma OpenStep(c: Rules, s: System, pid: Pid, p: Proc, dir: Dir, f: FileId)
    requires p.Committing? && p.cpc == Open(f) && (f == ManifestFile ==> c.build(p.id, p.payload, s.now).Some?)
    ensures Step(c, Staging(s, pid, p, dir), Advance(pid, Done))
         == Staging(s, pid, if f == ManifestFile then p.(manifest := c.build(p.id, p.payload, s.now), madeAt := s.now, cpc := Fill(f))
                            else p.(cpc := Fill(f)), Opened(dir, f))
  {
    hide PublishRecord, UnpublishRecord, Settle, AdvanceRetire, AdvanceLookup, Opened;
    Restaged(s, pid, p, dir, Opened(dir, f));
    Twice(s.procs, pid, p, if f == ManifestFile then p.(manifest := c.build(p.id, p.payload, s.now), madeAt := s.now, cpc := Fill(f)) else p.(cpc := Fill(f)));
  }

  lemma FillStep(c: Rules, s: System, pid: Pid, p: Proc, dir: Dir, f: FileId)
    requires p.Committing? && p.cpc == Fill(f)
    ensures Step(c, Staging(s, pid, p, dir), Advance(pid, Done))
         == Staging(s, pid, p.(cpc := NextFile(f)), Filled(dir, f, p.payload, p.manifest))
  {
    hide PublishRecord, UnpublishRecord, Settle, AdvanceRetire, AdvanceLookup, Filled;
    Restaged(s, pid, p, dir, Filled(dir, f, p.payload, p.manifest));
    Twice(s.procs, pid, p, p.(cpc := NextFile(f)));
  }

  lemma Restaged(s: System, pid: Pid, p: Proc, dir: Dir, dir': Dir)
    requires p.Committing?
    ensures WithRecord(WithRecord(s.disk, Hidden(Tmp, p.id, pid), dir), Hidden(Tmp, p.id, pid), dir')
         == WithRecord(s.disk, Hidden(Tmp, p.id, pid), dir')
  {
  }

  lemma Twice(procs: map<Pid, Proc>, pid: Pid, p: Proc, q: Proc)
    ensures procs[pid := p][pid := q] == procs[pid := q]
  {
  }

  // From the first file opened to the record ready to publish: six calls.
  lemma StageAll(c: Rules, s: System, pid: Pid, id: Uuid, payload: Payload, n: nat)
    requires c.build(id, payload, s.now).Some?
    ensures var p := Committing(id, payload, None, s.now, Open(StdoutFile));
            var m := c.build(id, payload, s.now);
            Run(c, Staging(s, pid, p, EMPTY_DIR), Dones(pid, n + 6)) ==
            Run(c, Staging(s, pid, Committing(id, payload, m, s.now, Publish), DirOf(Publication(payload, m.value, s.now))), Dones(pid, n))
  {
    hide Step, Run, Staging;
    var m := c.build(id, payload, s.now);
    var p := Committing(id, payload, None, s.now, Open(StdoutFile));
    StageFile(c, s, pid, p, EMPTY_DIR, StdoutFile, n + 4);
    var d1 := Filled(Opened(EMPTY_DIR, StdoutFile), StdoutFile, payload, None);
    StageFile(c, s, pid, p.(cpc := Open(StderrFile)), d1, StderrFile, n + 2);
    var d2 := Filled(Opened(d1, StderrFile), StderrFile, payload, None);
    StageFile(c, s, pid, p.(cpc := Open(ManifestFile)), d2, ManifestFile, n);
    assert Filled(Opened(d2, ManifestFile), ManifestFile, payload, m) == DirOf(Publication(payload, m.value, s.now));
  }

  lemma StageFile(c: Rules, s: System, pid: Pid, p: Proc, dir: Dir, f: FileId, n: nat)
    requires p.Committing? && p.cpc == Open(f) && (f == ManifestFile ==> c.build(p.id, p.payload, s.now).Some?)
    ensures var made := if f == ManifestFile then p.(manifest := c.build(p.id, p.payload, s.now), madeAt := s.now) else p;
            Run(c, Staging(s, pid, p, dir), Dones(pid, n + 2)) ==
            Run(c, Staging(s, pid, made.(cpc := NextFile(f)), Filled(Opened(dir, f), f, p.payload, made.manifest)), Dones(pid, n))
  {
    hide Step, Run, Staging, Opened, Filled;
    var made := if f == ManifestFile then p.(manifest := c.build(p.id, p.payload, s.now), madeAt := s.now) else p;
    OpenStep(c, s, pid, p, dir, f);
    FillStep(c, s, pid, made.(cpc := Fill(f)), Opened(dir, f), f);
    RunDones(c, Staging(s, pid, p, dir), pid, n + 2);
    RunDones(c, Staging(s, pid, made.(cpc := Fill(f)), Opened(dir, f)), pid, n + 1);
  }

  /** The state in which the record is published. */
  function Published(s: System, pid: Pid, id: Uuid, p: Publication, pc: CommitPc, lastRun: Option<Uuid>): System {
    s.(disk := s.disk.(records := s.disk.records[Visible(id) := DirOf(p)], lastRun := lastRun),
       procs := s.procs[pid := Committing(id, p.payload, Some(p.manifest), p.at, pc)],
       committed := s.committed[id := p])
  }

  lemma PublishStep(c: Rules, s: System, pid: Pid, id: Uuid, p: Publication)
    requires Hidden(Tmp, id, pid) !in s.disk.records && Visible(id) !in s.disk.records
    ensures Step(c, Staging(s, pid, Committing(id, p.payload, Some(p.manifest), p.at, Publish), DirOf(p)), Advance(pid, Done))
         == Published(s, pid, id, p, SyncRecords, s.disk.lastRun)
  {
    hide Prepare, UnpublishRecord, Settle, AdvanceRetire, AdvanceLookup;
    assert (s.disk.records[Hidden(Tmp, id, pid) := DirOf(p)] - {Hidden(Tmp, id, pid)})[Visible(id) := DirOf(p)]
        == s.disk.records[Visible(id) := DirOf(p)];
    var q := Committing(id, p.payload, Some(p.manifest), p.at, Publish);
    Twice(s.procs, pid, q, q.(cpc := SyncRecords));
  }

  lemma SettleStep(c: Rules, s: System, pid: Pid, id: Uuid, p: Publication, pc: CommitPc, lastRun: Option<Uuid>)
    requires pc == SyncRecords || pc == SetLast || pc == SyncRoot
    ensures Step(c, Published(s, pid, id, p, pc, lastRun), Advance(pid, Done))
         == Published(s, pid, id, p, if pc == SyncRecords then SetLast else if pc == SetLast then SyncRoot else Returned(true),
                      if pc == SetLast then Some(id) else lastRun)
  {
    hide Prepare, PublishRecord, UnpublishRecord, AdvanceRetire, AdvanceLookup, Removing, DirOf;
    var q := Committing(id, p.payload, Some(p.manifest), p.at, pc);
    Twice(s.procs, pid, q, q.(cpc := if pc == SyncRecords then SetLast else if pc == SetLast then SyncRoot else Returned(true)));
  }

  lemma SettleSteps(c: Rules, s: System, pid: Pid, id: Uuid, p: Publication)
    ensures Run(c, Published(s, pid, id, p, SyncRecords, s.disk.lastRun), Dones(pid, 3))
         == Published(s, pid, id, p, Returned(true), Some(id))
  {
    hide Step, Published;
    RunDonesThree(c, Published(s, pid, id, p, SyncRecords, s.disk.lastRun), pid);
    SettleStep(c, s, pid, id, p, SyncRecords, s.disk.lastRun);
    SettleStep(c, s, pid, id, p, SetLast, s.disk.lastRun);
    SettleStep(c, s, pid, id, p, SyncRoot, Some(id));
  }

  /** Every accepted commit of a fresh id, in any reachable state, can run to its end; then its record is there and nothing else changed. */
  lemma CommitSucceeds(c: Rules, s: System, id: Uuid, payload: Payload)
    requires Inv(c, s) && id !in s.owner && c.accepts(id, payload) && c.build(id, payload, s.now).Some?
    ensures var p := Publication(payload, c.build(id, payload, s.now).value, s.now);
            Run(c, s, CommitFully(id, payload, s.used)) ==
            Published(s, s.used, id, p, Returned(true), Some(id)).(used := s.used + 1, owner := s.owner[id := s.used])
  {
    hide Inv, Run, Published, Staging, DirOf;
    var pid, m := s.used, c.build(id, payload, s.now);
    var p := Publication(payload, m.value, s.now);
    var s0 := s.(used := s.used + 1, owner := s.owner[id := pid]);
    FreshNames(c, s, id);
    RunCons(c, s, BeginCommit(id, payload), Dones(pid, 11));
    BeginAndMkDir(c, s, id, payload);
    var begun := Step(c, s, BeginCommit(id, payload));
    RunDones(c, begun, pid, 11);
    StageAll(c, s0, pid, id, payload, 4);
    PublishStep(c, s0, pid, id, p);
    RunDones(c, Staging(s0, pid, Committing(id, payload, m, s.now, Publish), DirOf(p)), pid, 4);
    SettleSteps(c, s0, pid, id, p);
    PublishedFrom(s, s0, pid, id, p);
  }

  lemma FreshNames(c: Rules, s: System, id: Uuid)
    requires Inv(c, s) && id !in s.owner
    ensures Visible(id) !in s.disk.records && Hidden(Tmp, id, s.used) !in s.disk.records && s.used !in s.procs
    ensures id !in s.committed
  {
    ProcsBelow(c, s, s.used);
  }

  lemma ProcsBelow(c: Rules, s: System, pid: Pid)
    requires Inv(c, s)
    ensures pid in s.procs ==> pid < s.used
  {
    if pid in s.procs {
      assert ProcOk(c, s, pid, s.procs[pid]);
    }
  }

  lemma BeginAndMkDir(c: Rules, s: System, id: Uuid, payload: Payload)
    requires id !in s.owner && c.accepts(id, payload)
    ensures var s0 := s.(used := s.used + 1, owner := s.owner[id := s.used]);
            Step(c, Step(c, s, BeginCommit(id, payload)), Advance(s.used, Done)) ==
            Staging(s0, s.used, Committing(id, payload, None, s.now, Open(StdoutFile)), EMPTY_DIR)
  {
    hide PublishRecord, UnpublishRecord, Settle, AdvanceRetire, AdvanceLookup;
    var q := Committing(id, payload, None, s.now, MkDir);
    Twice(s.procs, s.used, q, q.(cpc := Open(StdoutFile)));
  }

  lemma PublishedFrom(s: System, s0: System, pid: Pid, id: Uuid, p: Publication)
    requires s0 == s.(used := s0.used, owner := s0.owner)
    ensures Published(s0, pid, id, p, Returned(true), Some(id)) == Published(s, pid, id, p, Returned(true), Some(id)).(used := s0.used, owner := s0.owner)
  {
  }

  // ---- Run ids in other spellings -------------------------------------------------------------

  function Braced(id: Uuid): string { "{" + UuidText(id) + "}" }

  /** A braced run id is accepted for the same run, though it is not its name. */
  lemma BracedParses(id: Uuid)
    ensures ParseUuid(Braced(id)) == Some(id) && Braced(id) != UuidText(id)
  {
    ParseUuidText(id);
    assert Braced(id)[1..|Braced(id)| - 1] == UuidText(id);
  }

  /** A commit whose stats carry it succeeds, and from then on the run reads as corrupt until it expires, and after. */
  lemma BracedRunIsCorrupt(c: Config, s: System, id: Uuid, payload: Payload, at: i64)
    requires Inv(RulesOf(c), s) && id !in s.owner && payload.stats.runId == Braced(id)
    requires ValidPayload(payload) && Built(id, payload, s.now, c.ttl).Some?
    ensures var s' := Run(RulesOf(c), s, CommitFully(id, payload, s.used));
            && s.used in s'.procs && s'.procs[s.used].Committing? && s'.procs[s.used].cpc == Returned(true)
            && Visible(id) in s'.disk.records && s'.disk.lastRun == Some(id)
            && View(s'.disk, id, at) == SeesCorrupt
  {
    hide Inv, Run, View, ViewRecord, RecordSight, DirOf, UuidText, ParseUuid, Built;
    var r := RulesOf(c);
    BracedParses(id);
    CommitSucceeds(r, s, id, payload);
    RunKeepsInv(r, s, CommitFully(id, payload, s.used));
    var s' := Run(r, s, CommitFully(id, payload, s.used));
    ViewIs(c, s', id, at);
    RecordSightIs(c, s', id, at);
    FreshNames(r, s, id);
    NoTombOfFresh(r, s, id);
  }

  lemma NoTombOfFresh(c: Rules, s: System, id: Uuid)
    requires Inv(c, s) && id !in s.owner
    ensures Final(id) !in s.disk.tombs
  {
    hide Inv;
    FreshNames(c, s, id);
    TombstonesAreSound(c, s, id);
  }
}
