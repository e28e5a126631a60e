/** What a reader can see of a record over its life, in every interleaving of the protocol. */
module Lifecycle {
  import opened Basics
  import opened Uuids
  import opened Records
  import opened Directory
  import opened Protocol
  import opened ProtocolLaws
  import opened Lookup
  import LineIndex
  import Utf8

  // ---- Records are whole --------------------------------------------------------------------

  ghost predicate StoredText(t: Bytes, m: LineIndex.StreamIndex) {
    |t| <= LineIndex.MAX_STREAM_BYTES && Utf8.Valid(t) && LineIndex.BuildIndex(t) == Ok(m)
  }

  /** Both data files, and a manifest built from exactly these files under this id. */
  ghost predicate Whole(id: Uuid, dir: Dir) {
    && dir.stdout.Full? && dir.stderr.Full? && dir.manifest.Full?
    && StoredText(dir.stdout.content, dir.manifest.content.stdout)
    && StoredText(dir.stderr.content, dir.manifest.content.stderr)
    && dir.manifest.content.schemaVersion == SCHEMA_VERSION
    && dir.manifest.content.runId == UuidText(id)
    && dir.manifest.content.createdAt <= dir.manifest.content.expiresAt
  }

  lemma PublicationIsWhole(c: Config, id: Uuid, p: Publication)
    requires PublicationOk(RulesOf(c), id, p)
    ensures Whole(id, DirOf(p))
    ensures p.manifest.stats == p.payload.stats && p.manifest.commandKind == p.payload.commandKind
    ensures p.manifest.createdAt == p.at && p.manifest.expiresAt == SaturatingLater(p.at, c.ttl)
  {
    assert Accepts(id, p.payload) && Built(id, p.payload, p.at, c.ttl) == Some(p.manifest);
  }

  lemma WholeIsReadable(id: Uuid, dir: Dir)
    requires Whole(id, dir)
    ensures ReadManifest(dir) == Some(dir.manifest.content)
  {
    LineIndex.BuiltIndexIsValid(dir.stdout.content);
    LineIndex.BuiltIndexIsValid(dir.stderr.content);
  }

  /**
   At every step of every interleaving of commits, retirements, failures and crashes, whatever
   stands under a run id is whole, so anything partial stands under a hidden name.
   */
  lemma VisibleRecordsAreWhole(c: Config, start: i64, actions: seq<Action>, name: Name)
    requires name in Run(RulesOf(c), Initial(start), actions).disk.records
    ensures name.Visible? ==> Whole(name.id, Run(RulesOf(c), Initial(start), actions).disk.records[name])
  {
    var s := Run(RulesOf(c), Initial(start), actions);
    InitialInv(RulesOf(c), start);
    RunKeepsInv(RulesOf(c), Initial(start), actions);
    if name.Visible? {
      PublicationIsWhole(c, name.id, s.committed[name.id]);
    }
  }

  /** A visible record never changes while visible, and once gone never returns. */
  lemma VisibleRecordsNeverChange(c: Rules, s: System, first: seq<Action>, second: seq<Action>, id: Uuid)
    requires Inv(c, s) && Visible(id) in s.disk.records
    ensures var s1, s2 := Run(c, s, first), Run(c, Run(c, s, first), second);
            && (Visible(id) in s2.disk.records ==> Visible(id) in s1.disk.records)
            && (Visible(id) in s1.disk.records ==> s1.disk.records[Visible(id)] == s.disk.records[Visible(id)])
  {
    RunKeepsInv(c, s, first);
    RunKeepsInv(c, Run(c, s, first), second);
    assert id in s.committed;
  }

  // ---- Phases -------------------------------------------------------------------------------

  /**
   Where a run id stands: not published, readable, past its time, past its time with a tombstone
   beside it, gone with a tombstone, or without a trace.
   */
  datatype Phase = Unborn | Live | Stale | Shadowed | Buried(status: TombStatus) | Forgotten

  /** A tombstone that a reader at this time goes by. */
  predicate LiveTombstone(d: Disk, id: Uuid, now: i64) {
    Final(id) in d.tombs && d.tombs[Final(id)].Full? && d.tombs[Final(id)].content.expiresAt > now
  }

  function PhaseOf(s: System, id: Uuid): Phase {
    if id !in s.committed then Unborn
    else if id !in s.gone then
      if s.now < s.committed[id].manifest.expiresAt then Live else if LiveTombstone(s.disk, id, s.now) then Shadowed else Stale
    else if LiveTombstone(s.disk, id, s.now) then Buried(s.disk.tombs[Final(id)].content.status)
    else Forgotten
  }

  function Rank(p: Phase): nat {
    match p
    case Unborn => 0
    case Live => 1
    case Stale | Shadowed => 2
    case _ => 3
  }

  /** What a lookup answers in each phase; `named` says that the stats carry the canonical run id. */
  function Answer(p: Phase, named: bool, m: Manifest): Sight {
    match p
    case Live => if named then SeesActive(m) else SeesCorrupt
    case Stale => if named then SeesExpired else SeesCorrupt
    case Shadowed => SeesExpired
    case Buried(status) => SightOf(status)
    case _ => SeesNothing
  }

  lemma TombstonesAreSound(c: Rules, s: System, id: Uuid)
    requires Inv(c, s)
    ensures Final(id) in s.disk.tombs ==> TombOk(s, id, s.disk.tombs[Final(id)])
    ensures Visible(id) in s.disk.records <==> id in s.committed && id !in s.gone
    ensures Visible(id) in s.disk.records ==> s.disk.records[Visible(id)] == DirOf(s.committed[id])
    ensures id in s.committed ==> PublicationOk(c, id, s.committed[id])
    ensures id in s.gone || id in s.missed ==> id in s.committed
    ensures id in s.missed ==> s.committed[id].manifest.expiresAt <= s.now
  {
  }

  /** What the record published under an id says to a reader at a given time. */
  function RecordSight(s: System, id: Uuid, at: i64): Sight
    requires id in s.committed
  {
    ViewManifest(s.committed[id].manifest, id, at)
  }

  lemma RecordSightIs(c: Config, s: System, id: Uuid, at: i64)
    requires Inv(RulesOf(c), s) && id in s.committed
    ensures var m := s.committed[id].manifest;
            RecordSight(s, id, at) == if s.committed[id].payload.stats.runId != UuidText(id) then SeesCorrupt
                                      else if at >= m.expiresAt then SeesExpired
                                      else SeesActive(m)
  {
    hide Inv, PublicationOk, UuidText;
    TombstonesAreSound(RulesOf(c), s, id);
    PublicationIsWhole(c, id, s.committed[id]);
    WholeManifest(s.committed[id]);
  }

  /** In every reachable state a reader at any time sees a live tombstone, else the record, else nothing. */
  lemma ViewIs(c: Config, s: System, id: Uuid, at: i64)
    requires Inv(RulesOf(c), s)
    ensures View(s.disk, id, at) ==
            if LiveTombstone(s.disk, id, at) then SightOf(s.disk.tombs[Final(id)].content.status)
            else ViewRecord(s.disk, id, at)
    ensures if Visible(id) in s.disk.records then id in s.committed && ViewRecord(s.disk, id, at) == RecordSight(s, id, at)
            else ViewRecord(s.disk, id, at) == SeesNothing
  {
    hide Inv, PublicationOk, DirOf, ReadManifest, UuidText, ViewManifest;
    TombstonesAreSound(RulesOf(c), s, id);
    if Visible(id) in s.disk.records {
      PublicationIsWhole(c, id, s.committed[id]);
      WholeIsReadable(id, DirOf(s.committed[id]));
      WholeManifest(s.committed[id]);
    }
  }

  /** At every instant of every interleaving the store shows the phase of the run alone, and never damage of its own making. */
  lemma ViewFollowsPhase(c: Config, s: System, id: Uuid)
    requires Inv(RulesOf(c), s)
    ensures id !in s.committed ==> View(s.disk, id, s.now) == SeesNothing
    ensures id in s.committed ==>
              var p := s.committed[id];
              View(s.disk, id, s.now) == Answer(PhaseOf(s, id), p.payload.stats.runId == UuidText(id), p.manifest)
  {
    hide Inv, RulesOf, ViewManifest, View, ViewRecord, RecordSight, PublicationOk, UuidText, DirOf;
    TombstonesAreSound(RulesOf(c), s, id);
    ViewIs(c, s, id, s.now);
    if id in s.committed {
      RecordSightIs(c, s, id, s.now);
    }
  }

  /** What the store shows as active, at whatever time, is what was published under the id. */
  lemma ActiveIsPublished(c: Config, s: System, id: Uuid, now: i64)
    requires Inv(RulesOf(c), s) && View(s.disk, id, now).SeesActive?
    ensures id in s.committed && PublicationOk(RulesOf(c), id, s.committed[id])
    ensures Visible(id) in s.disk.records && s.disk.records[Visible(id)] == DirOf(s.committed[id])
    ensures View(s.disk, id, now) == SeesActive(s.committed[id].manifest)
  {
    hide Inv, View, ViewRecord, RecordSight, PublicationOk, DirOf, UuidText;
    TombstonesAreSound(RulesOf(c), s, id);
    ViewIs(c, s, id, now);
    if id in s.committed {
      RecordSightIs(c, s, id, now);
    }
  }

  lemma WholeManifest(p: Publication)
    ensures DirOf(p).manifest == Full(p.manifest)
    ensures DirOf(p).stdout == Full(p.payload.stdout) && DirOf(p).stderr == Full(p.payload.stderr)
  {
  }

  /** Under any interleaving a run only moves on: unborn, live, stale, gone; and it is never live at its expiry. */
  lemma PhasesOnlyMoveOn(c: Rules, s: System, actions: seq<Action>, id: Uuid)
    requires Inv(c, s)
    ensures var s' := Run(c, s, actions);
            && Rank(PhaseOf(s, id)) <= Rank(PhaseOf(s', id))
            && (PhaseOf(s', id).Live? ==> s'.now < s'.committed[id].manifest.expiresAt)
            && (id in s.committed ==> id in s'.committed && s'.committed[id] == s.committed[id])
  {
    hide Inv, Run, PublicationOk, DirOf;
    RunKeepsInv(c, s, actions);
    TombstonesAreSound(c, s, id);
  }

  lemma RetiringExpiredIsPast(c: Rules, s: System, pid: Pid)
    requires Inv(c, s) && pid in s.procs && s.procs[pid].Retiring? && s.procs[pid].status == WasExpired
    ensures !PhaseOf(s, s.procs[pid].id).Live?
  {
    assert ProcOk(c, s, pid, s.procs[pid]);
  }

  lemma CommitLeavesRecord(c: Rules, s: System, pid: Pid, p: Proc, o: Outcome, id: Uuid)
    requires p.Committing? && Visible(id) in s.disk.records && !(p.cpc == Unpublish && p.id == id)
    ensures Visible(id) in AdvanceCommit(c, s, pid, p, o).disk.records
  {
    hide Opened, Filled;
  }

  lemma RetireLeavesRecord(c: Rules, s: System, pid: Pid, p: Proc, o: Outcome, id: Uuid)
    requires p.Retiring? && Visible(id) in s.disk.records && !(p.rpc == Rename && p.id == id)
    ensures Visible(id) in AdvanceRetire(c, s, pid, p, o).disk.records
  {
    hide TombFor;
  }

  lemma LookupLeavesRecord(s: System, pid: Pid, p: Proc, o: Outcome, id: Uuid)
    requires p.Looking? && Visible(id) in s.disk.records
    ensures Visible(id) in AdvanceLookup(s, pid, p, o).disk.records
  {
    hide ViewRecord, TombstoneAt;
  }

  /** A record leaves its run id by two renames only. */
  lemma RecordLeaves(c: Rules, s: System, a: Action, id: Uuid)
    requires Visible(id) in s.disk.records && Visible(id) !in Step(c, s, a).disk.records
    ensures a.Advance? && a.pid in s.procs && s.procs[a.pid].id == id
    ensures (s.procs[a.pid].Retiring? && s.procs[a.pid].rpc == Rename) || (s.procs[a.pid].Committing? && s.procs[a.pid].cpc == Unpublish)
  {
    hide AdvanceCommit, AdvanceRetire, AdvanceLookup;
    if a.Advance? && a.pid in s.procs {
      var p := s.procs[a.pid];
      match p
      case Committing(_, _, _, _, _) =>
        if !(p.cpc == Unpublish && p.id == id) {
          CommitLeavesRecord(c, s, a.pid, p, a.outcome, id);
        }
      case Retiring(_, _, _, _) =>
        if !(p.rpc == Rename && p.id == id) {
          RetireLeavesRecord(c, s, a.pid, p, a.outcome, id);
        }
      case Looking(_, _, _) => LookupLeavesRecord(s, a.pid, p, a.outcome, id);
    }
  }

  /** A live record leaves only by a delete, or when the commit that published it takes it back. */
  lemma LiveRecordsAreNotSwept(c: Rules, s: System, a: Action, id: Uuid)
    requires Inv(c, s) && PhaseOf(s, id).Live?
    ensures Visible(id) in s.disk.records
    ensures Visible(id) !in Step(c, s, a).disk.records ==>
              && a.Advance? && a.pid in s.procs && s.procs[a.pid].id == id
              && (s.procs[a.pid].Retiring? ==> s.procs[a.pid].status == WasDeleted)
              && (s.procs[a.pid].Committing? ==> s.procs[a.pid].cpc == Unpublish)
  {
    hide Inv, Step, PublicationOk, DirOf;
    TombstonesAreSound(c, s, id);
    if Visible(id) !in Step(c, s, a).disk.records {
      RecordLeaves(c, s, a, id);
    }
    if a.Advance? && a.pid in s.procs && s.procs[a.pid].Retiring? && s.procs[a.pid].status == WasExpired {
      RetiringExpiredIsPast(c, s, a.pid);
    }
  }

  // ---- Records beside tombstones ------------------------------------------------------------

  /** The step at which an expiry takes a standing record for a missing one. */
  ghost predicate Misses(s: System, a: Action, id: Uuid) {
    && a.Advance? && a.pid in s.procs && s.procs[a.pid].Retiring? && s.procs[a.pid].rpc == StatRecord
    && s.procs[a.pid].id == id && Visible(id) in s.disk.records && !a.outcome.Done?
  }

  lemma MissedExactly(c: Rules, s: System, a: Action, id: Uuid)
    ensures id in Step(c, s, a).missed <==> id in s.missed || Misses(s, a, id)
  {
    hide Prepare, PublishRecord, UnpublishRecord, Settle, RemoveRecord, Bury, AdvanceLookup;
    if a.Advance? && a.pid in s.procs {
      OthersMissNothing(c, s, a.pid, s.procs[a.pid], a.outcome);
    }
  }

  lemma OthersMissNothing(c: Rules, s: System, pid: Pid, p: Proc, o: Outcome)
    ensures p.Committing? ==> AdvanceCommit(c, s, pid, p, o).missed == s.missed
    ensures p.Retiring? && p.rpc != StatRecord ==> AdvanceRetire(c, s, pid, p, o).missed == s.missed
    ensures p.Looking? ==> AdvanceLookup(s, pid, p, o).missed == s.missed
  {
    hide Moved, Removing, WithRecord, WithTomb, WithoutTomb, Opened, Filled, TombFor, ViewRecord, TombstoneAt;
  }

  /** A record and a tombstone of the same run never coexist, unless an expiry failed to see the record. */
  lemma NoTombstoneBesideRecord(c: Rules, s: System, id: Uuid)
    requires Inv(c, s) && id !in s.missed
    ensures !(Visible(id) in s.disk.records && Final(id) in s.disk.tombs)
  {
    TombstonesAreSound(c, s, id);
  }

  /** Where they do coexist, the record is past its expiry, the tombstone says so, and nobody is shown an active run. */
  lemma TombstoneBesideRecord(c: Config, s: System, id: Uuid)
    requires Inv(RulesOf(c), s) && Visible(id) in s.disk.records && Final(id) in s.disk.tombs
    ensures id in s.missed && s.committed[id].manifest.expiresAt <= s.now
    ensures s.disk.tombs[Final(id)].Full? && s.disk.tombs[Final(id)].content.status == WasExpired
    ensures !View(s.disk, id, s.now).SeesActive?
  {
    hide View, UuidText;
    TombstonesAreSound(RulesOf(c), s, id);
    ViewFollowsPhase(c, s, id);
  }

  // ---- What last_run names --------------------------------------------------------------------

  /** A commit past its publication writes its own run id. */
  ghost predicate NamesLast(s: System, a: Action, id: Uuid) {
    && a.Advance? && a.outcome.Done? && a.pid in s.procs && s.procs[a.pid].Committing?
    && s.procs[a.pid].cpc == SetLast && s.procs[a.pid].id == id
  }

  lemma LastRunStays(c: Rules, s: System, pid: Pid, p: Proc, o: Outcome)
    ensures p.Committing? && !(p.cpc == SetLast && o.Done?) ==> AdvanceCommit(c, s, pid, p, o).disk.lastRun == s.disk.lastRun
    ensures p.Retiring? ==> AdvanceRetire(c, s, pid, p, o).disk.lastRun == s.disk.lastRun
    ensures p.Looking? ==> AdvanceLookup(s, pid, p, o).disk.lastRun == s.disk.lastRun
  {
    hide TombFor, ViewRecord, TombstoneAt;
  }

  /** One action alone changes what last_run names, and what it names is published, and begun by whoever wrote it. */
  lemma LastRunIsPublished(c: Rules, s: System, a: Action)
    requires Inv(c, s)
    ensures var named, later := s.disk.lastRun, Step(c, s, a).disk.lastRun;
            && (forall id | NamesLast(s, a, id) :: later == Some(id) && id in s.committed && s.owner[id] == a.pid)
            && ((forall id :: !NamesLast(s, a, id)) ==> later == named)
  {
    hide AdvanceCommit, AdvanceRetire, AdvanceLookup;
    if a.Advance? && a.pid in s.procs {
      var p := s.procs[a.pid];
      assert ProcOk(c, s, a.pid, p);
      LastRunStays(c, s, a.pid, p, a.outcome);
      if p.Committing? && p.cpc == SetLast && a.outcome.Done? {
        assert NamesLast(s, a, p.id);
        SetLastNames(c, s, a.pid, p);
      }
    }
  }

  lemma SetLastNames(c: Rules, s: System, pid: Pid, p: Proc)
    requires p.Committing? && p.cpc == SetLast
    ensures AdvanceCommit(c, s, pid, p, Done).disk.lastRun == Some(p.id)
  {
  }

  /** In every run last_run names a run that was published, if any, though it may be gone. */
  lemma {:induction false} LastRunWasPublished(c: Rules, s: System, actions: seq<Action>)
    requires Inv(c, s) && (s.disk.lastRun.Some? ==> s.disk.lastRun.value in s.committed)
    ensures var s' := Run(c, s, actions); s'.disk.lastRun.Some? ==> s'.disk.lastRun.value in s'.committed
    decreases |actions|
  {
    hide Inv, Step;
    if actions != [] {
      LastRunIsPublished(c, s, actions[0]);
      StepKeepsInv(c, s, actions[0]);
      LastRunWasPublished(c, Step(c, s, actions[0]), actions[1..]);
    }
  }
}
