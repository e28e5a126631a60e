/**
 What a lookup may answer although other processes act between its reads: what the store showed at
 some instant, or corrupt if the record was taken away under its eyes.
 */
module LookupLaws {
  import opened Basics
  import opened Uuids
  import opened Records
  import opened Directory
  import opened Lookup
  import opened Protocol
  import opened ProtocolLaws
  import opened Lifecycle
  import opened Traces

  // ---- Instants -----------------------------------------------------------------------------

  function DiskAfter(c: Rules, s: System, actions: seq<Action>, k: nat): Disk
    requires k <= |actions|
  {
    Run(c, s, actions[..k]).disk
  }

  /** At some instant since s the store showed this to a reader of that time. */
  ghost predicate Shown(c: Rules, s: System, actions: seq<Action>, id: Uuid, at: i64, sight: Sight) {
    exists k | 0 <= k <= |actions| :: View(DiskAfter(c, s, actions, k), id, at) == sight
  }

  lemma ShownBefore(c: Rules, s: System, actions: seq<Action>, a: Action, id: Uuid, at: i64, sight: Sight)
    requires Shown(c, s, actions, id, at, sight)
    ensures Shown(c, s, actions + [a], id, at, sight)
  {
    hide View, Run;
    var k :| 0 <= k <= |actions| && View(DiskAfter(c, s, actions, k), id, at) == sight;
    assert (actions + [a])[..k] == actions[..k];
    assert View(DiskAfter(c, s, actions + [a], k), id, at) == sight;
  }

  lemma ShownNow(c: Rules, s: System, actions: seq<Action>, id: Uuid, at: i64, sight: Sight)
    requires View(Run(c, s, actions).disk, id, at) == sight
    ensures Shown(c, s, actions, id, at, sight)
  {
    hide View, Run;
    assert actions[..|actions|] == actions;
    assert View(DiskAfter(c, s, actions, |actions|), id, at) == sight;
  }

  // ---- What a lookup knows once it found no live tombstone ----------------------------------

  /**
   Were the record to be read now, the answer was shown at some instant; and if there is none now,
   then nothing was shown at some instant, unless an expiry failed to see it.
   */
  ghost predicate Settled(c: Rules, s: System, actions: seq<Action>, id: Uuid, at: i64) {
    var s' := Run(c, s, actions);
    if Visible(id) in s'.disk.records then
      id in s'.committed && Shown(c, s, actions, id, at, RecordSight(s', id, at))
    else Shown(c, s, actions, id, at, SeesNothing) || id in s'.missed
  }

  lemma SettledAtFirst(c: Config, s: System, actions: seq<Action>, id: Uuid, at: i64)
    requires Inv(RulesOf(c), Run(RulesOf(c), s, actions))
    requires !LiveTombstone(Run(RulesOf(c), s, actions).disk, id, at)
    ensures Settled(RulesOf(c), s, actions, id, at)
  {
    hide Inv, View, ViewRecord, Run, Shown, RecordSight, LiveTombstone, RulesOf;
    var s' := Run(RulesOf(c), s, actions);
    ViewIs(c, s', id, at);
    ShownNow(RulesOf(c), s, actions, id, at, View(s'.disk, id, at));
  }

  /** What one step does to the record and the tombstone of a run. */
  lemma RecordComesAndGoes(c: Rules, s: System, a: Action, id: Uuid)
    requires Inv(c, s)
    ensures var s' := Step(c, s, a);
            && (Visible(id) in s'.disk.records && Visible(id) !in s.disk.records ==> id !in s.committed && s'.disk.tombs == s.disk.tombs)
            && (Visible(id) in s.disk.records && Visible(id) !in s'.disk.records ==> s'.disk.tombs == s.disk.tombs && TakesAway(s, a, id))
            && (id in s.committed ==> id in s'.committed && s'.committed[id] == s.committed[id])
            && s.missed <= s'.missed
  {
    hide Inv;
    TombstonesAreSound(c, s, id);
    StepKeepsInv(c, s, a);
    TombstonesAreSound(c, Step(c, s, a), id);
    if a.Advance? && a.pid in s.procs {
      AdvanceMovesRecord(c, s, a.pid, s.procs[a.pid], a.outcome, id);
    }
  }

  lemma AdvanceMovesRecord(c: Rules, s: System, pid: Pid, p: Proc, o: Outcome, id: Uuid)
    requires pid in s.procs && s.procs[pid] == p
    ensures var s' := AdvanceProc(c, s, pid, p, o);
            && (Visible(id) in s'.disk.records && Visible(id) !in s.disk.records ==> s'.disk.tombs == s.disk.tombs)
            && (Visible(id) in s.disk.records && Visible(id) !in s'.disk.records ==>
                  s'.disk.tombs == s.disk.tombs && TakesAway(s, Advance(pid, o), id))
            && (TakesAway(s, Advance(pid, o), id) ==> Visible(id) !in s'.disk.records)
  {
    hide TombFor, Opened, Filled, TombstoneAt, ViewRecord;
    match p
    case Committing(_, _, _, _, _) => CommitMovesRecord(c, s, pid, p, o, id);
    case Retiring(_, _, _, _) =>
    case Looking(_, _, _) =>
  }

  lemma CommitMovesRecord(c: Rules, s: System, pid: Pid, p: Proc, o: Outcome, id: Uuid)
    requires pid in s.procs && s.procs[pid] == p && p.Committing?
    ensures var s' := AdvanceCommit(c, s, pid, p, o);
            && s'.disk.tombs == s.disk.tombs
            && (Visible(id) in s.disk.records && Visible(id) !in s'.disk.records ==> TakesAway(s, Advance(pid, o), id))
            && (TakesAway(s, Advance(pid, o), id) ==> Visible(id) !in s'.disk.records)
  {
    hide Opened, Filled, Unlinked;
    if p.cpc.MkDir? || p.cpc.Open? || p.cpc.Fill? {
      hide PublishRecord, UnpublishRecord, Settle;
    } else if p.cpc == Publish || p.cpc == Unpublish {
      hide Prepare, Settle;
    } else {
      hide Prepare, PublishRecord, UnpublishRecord;
    }
  }

  /** The rename that takes a visible record away: of a retirement, or of a commit that failed late. */
  ghost predicate TakesAway(s: System, a: Action, id: Uuid) {
    && a.Advance? && a.outcome.Done? && a.pid in s.procs && s.procs[a.pid].id == id && Visible(id) in s.disk.records
    && var p := s.procs[a.pid];
       (p.Retiring? && p.rpc == Rename) || (p.Committing? && p.cpc == Unpublish)
  }

  lemma SettledStays(c: Config, s: System, actions: seq<Action>, a: Action, id: Uuid, at: i64)
    requires Inv(RulesOf(c), s) && Settled(RulesOf(c), s, actions, id, at)
    ensures Settled(RulesOf(c), s, actions + [a], id, at)
  {
    hide Inv, View, Run, Step, Shown, RecordSight, RulesOf, TakesAway;
    var r := RulesOf(c);
    var s1, s2 := Run(r, s, actions), Run(r, s, actions + [a]);
    RunKeepsInv(r, s, actions);
    RunKeepsInv(r, s, actions + [a]);
    RunSnoc(r, s, actions, a);
    RecordComesAndGoes(r, s1, a, id);
    ViewAfterMove(c, s1, a, id, at);
    if Visible(id) in s1.disk.records <==> Visible(id) in s2.disk.records {
      if Visible(id) in s1.disk.records {
        ShownBefore(r, s, actions, a, id, at, RecordSight(s1, id, at));
        SameRecordSight(s1, s2, id, at);
      } else if Shown(r, s, actions, id, at, SeesNothing) {
        ShownBefore(r, s, actions, a, id, at, SeesNothing);
      }
    } else {
      ShownNow(r, s, actions + [a], id, at, View(s2.disk, id, at));
    }
  }

  lemma SameRecordSight(s: System, s': System, id: Uuid, at: i64)
    requires id in s.committed && id in s'.committed && s'.committed[id] == s.committed[id]
    ensures RecordSight(s', id, at) == RecordSight(s, id, at)
  {
  }

  // The instant after a record appears, or after one disappears that was never missed, shows just that.
  lemma ViewAfterMove(c: Config, s: System, a: Action, id: Uuid, at: i64)
    requires Inv(RulesOf(c), s)
    ensures var s' := Step(RulesOf(c), s, a);
            && (Visible(id) in s'.disk.records && Visible(id) !in s.disk.records ==>
                  id in s'.committed && View(s'.disk, id, at) == RecordSight(s', id, at))
            && (Visible(id) in s.disk.records && Visible(id) !in s'.disk.records ==>
                  View(s'.disk, id, at) == SeesNothing || id in s'.missed)
  {
    hide Inv, View, ViewRecord, RecordSight, Step, RulesOf, TakesAway;
    var s' := Step(RulesOf(c), s, a);
    RecordComesAndGoes(RulesOf(c), s, a, id);
    StepKeepsInv(RulesOf(c), s, a);
    TombstonesAreSound(RulesOf(c), s, id);
    TombstonesAreSound(RulesOf(c), s', id);
    if id !in s.missed {
      NoTombstoneBesideRecord(RulesOf(c), s, id);
    }
    ViewIs(c, s', id, at);
  }

  // ---- Every answer was shown ---------------------------------------------------------------

  /** An answer is accounted for by an instant, by a missed record, or it is an error or corrupt. */
  ghost predicate Explained(c: Rules, s: System, actions: seq<Action>, id: Uuid, at: i64, sight: Sight) {
    || sight.SeesError? || sight.SeesCorrupt? || Shown(c, s, actions, id, at, sight)
    || (sight.SeesNothing? && id in Run(c, s, actions).missed)
  }

  ghost predicate Justified(c: Rules, s: System, actions: seq<Action>, p: Proc, id: Uuid, at: i64) {
    match p
    case Committing(_, _, _, _, _) => false
    case Retiring(i, status, a, _) => i == id && a == at && status == WasExpired && Shown(c, s, actions, id, at, SeesExpired)
    case Looking(i, a, pc) =>
      && i == id && a == at
      && match pc
         case SeekTomb => true
         case Answered(sight) => Explained(c, s, actions, id, at, sight)
         case _ => Settled(c, s, actions, id, at)
  }

  lemma ExplainedBefore(c: Rules, s: System, actions: seq<Action>, a: Action, id: Uuid, at: i64, sight: Sight)
    requires Inv(c, s) && Explained(c, s, actions, id, at, sight)
    ensures Explained(c, s, actions + [a], id, at, sight)
  {
    hide Inv, Run, Step, Shown;
    RunSnoc(c, s, actions, a);
    RunKeepsInv(c, s, actions);
    StepKeepsInv(c, Run(c, s, actions), a);
    if Shown(c, s, actions, id, at, sight) {
      ShownBefore(c, s, actions, a, id, at, sight);
    }
  }

  // A process that does not move stays justified.
  lemma JustifiedStays(c: Config, s: System, actions: seq<Action>, a: Action, p: Proc, id: Uuid, at: i64)
    requires Inv(RulesOf(c), s) && Justified(RulesOf(c), s, actions, p, id, at)
    ensures Justified(RulesOf(c), s, actions + [a], p, id, at)
  {
    hide Inv, Shown, Explained, Settled, RulesOf;
    match p
    case Retiring(_, _, _, _) => ShownBefore(RulesOf(c), s, actions, a, id, at, SeesExpired);
    case Looking(_, _, pc) =>
      match pc
      case SeekTomb =>
      case Answered(sight) => ExplainedBefore(RulesOf(c), s, actions, a, id, at, sight);
      case _ => SettledStays(c, s, actions, a, id, at);
  }

  // Its first read: a live tombstone is the answer, shown at this very instant.
  lemma FirstReadJustified(c: Config, s: System, actions: seq<Action>, pid: Pid, o: Outcome, id: Uuid, at: i64)
    requires Inv(RulesOf(c), s)
    requires pid in Run(RulesOf(c), s, actions).procs && Run(RulesOf(c), s, actions).procs[pid] == Looking(id, at, SeekTomb)
    ensures var s2 := Run(RulesOf(c), s, actions + [Advance(pid, o)]);
            pid in s2.procs && Justified(RulesOf(c), s, actions + [Advance(pid, o)], s2.procs[pid], id, at)
  {
    hide Inv, Shown, Settled, RulesOf, View, ViewRecord, Run, DirOf;
    var r := RulesOf(c);
    var s1 := Run(r, s, actions);
    RunSnoc(r, s, actions, Advance(pid, o));
    RunKeepsInv(r, s, actions);
    TombstonesAreSound(r, s1, id);
    ViewIs(c, s1, id, at);
    if LiveTombstone(s1.disk, id, at) {
      var sight := SightOf(s1.disk.tombs[Final(id)].content.status);
      ShownNow(r, s, actions, id, at, sight);
      ShownBefore(r, s, actions, Advance(pid, o), id, at, sight);
    } else {
      SettledAtFirst(c, s, actions, id, at);
      SettledStays(c, s, actions, Advance(pid, o), id, at);
    }
  }

  // A later read: the record, or its absence, has been accounted for.
  lemma LaterReadJustified(c: Config, s: System, actions: seq<Action>, pid: Pid, o: Outcome, id: Uuid, at: i64, pc: LookPc)
    requires Inv(RulesOf(c), s) && Settled(RulesOf(c), s, actions, id, at) && (pc.DropTombstone? || pc.SeekRecord? || pc.SeekManifest?)
    requires pid in Run(RulesOf(c), s, actions).procs && Run(RulesOf(c), s, actions).procs[pid] == Looking(id, at, pc)
    ensures var s2 := Run(RulesOf(c), s, actions + [Advance(pid, o)]);
            pid in s2.procs && Justified(RulesOf(c), s, actions + [Advance(pid, o)], s2.procs[pid], id, at)
  {
    hide Inv, Shown, RulesOf, View, ViewRecord, RecordSight, Run, DirOf, LiveTombstone;
    var r := RulesOf(c);
    var s1 := Run(r, s, actions);
    RunSnoc(r, s, actions, Advance(pid, o));
    RunKeepsInv(r, s, actions);
    StepKeepsInv(r, s1, Advance(pid, o));
    GrowsMissed(r, s1, Advance(pid, o));
    ViewIs(c, s1, id, at);
    SettledStays(c, s, actions, Advance(pid, o), id, at);
    if Visible(id) in s1.disk.records {
      ShownBefore(r, s, actions, Advance(pid, o), id, at, RecordSight(s1, id, at));
    } else if Shown(r, s, actions, id, at, SeesNothing) {
      ShownBefore(r, s, actions, Advance(pid, o), id, at, SeesNothing);
    }
  }

  lemma GrowsMissed(c: Rules, s: System, a: Action)
    requires Inv(c, s)
    ensures s.missed <= Step(c, s, a).missed
  {
    hide Inv, Step;
    StepKeepsInv(c, s, a);
  }

  lemma RetiringStaysExpired(c: Rules, s: System, pid: Pid, p: Proc, o: Outcome)
    requires p.Retiring? && p.status == WasExpired
    ensures var s' := AdvanceRetire(c, s, pid, p, o);
            pid in s.procs && s.procs[pid] == p ==>
              pid in s'.procs && s'.procs[pid].Retiring? && s'.procs[pid].id == p.id && s'.procs[pid].at == p.at && s'.procs[pid].status == WasExpired
  {
    hide Removing, Moved, WithTomb, WithoutTomb, TombFor;
  }

  lemma StepJustified(c: Config, s: System, actions: seq<Action>, a: Action, pid: Pid, id: Uuid, at: i64)
    requires Inv(RulesOf(c), s)
    requires var s1 := Run(RulesOf(c), s, actions);
             pid in s1.procs && Justified(RulesOf(c), s, actions, s1.procs[pid], id, at)
    ensures var s2 := Run(RulesOf(c), s, actions + [a]);
            pid in s2.procs ==> Justified(RulesOf(c), s, actions + [a], s2.procs[pid], id, at)
  {
    hide Inv, Shown, Settled, Explained, RulesOf, Run, AdvanceCommit, AdvanceRetire, AdvanceLookup;
    var r := RulesOf(c);
    var s1 := Run(r, s, actions);
    RunSnoc(r, s, actions, a);
    RunKeepsInv(r, s, actions);
    var p := s1.procs[pid];
    JustifiedStays(c, s, actions, a, p, id, at);
    if !(a.Advance? && a.pid == pid) {
      ProcsStand(r, s1, a, pid);
    } else if p.Retiring? {
      RetiringStaysExpired(r, s1, pid, p, a.outcome);
    } else {
      match p.lpc
      case SeekTomb => FirstReadJustified(c, s, actions, pid, a.outcome, id, at);
      case Answered(_) => AnsweredStands(s1, pid, p, a.outcome);
      case _ => LaterReadJustified(c, s, actions, pid, a.outcome, id, at, p.lpc);
    }
  }

  lemma AnsweredStands(s: System, pid: Pid, p: Proc, o: Outcome)
    requires p.Looking? && p.lpc.Answered?
    ensures AdvanceLookup(s, pid, p, o) == s
  {
  }

  // A process once gone does not come back under its number.
  lemma {:induction false} RunJustified(c: Config, s: System, actions: seq<Action>, pid: Pid, id: Uuid, at: i64)
    requires Inv(RulesOf(c), s) && pid in s.procs && s.procs[pid] == Looking(id, at, SeekTomb)
    ensures var s' := Run(RulesOf(c), s, actions);
            pid in s'.procs ==> Justified(RulesOf(c), s, actions, s'.procs[pid], id, at)
    decreases |actions|
  {
    hide Inv, Justified, RulesOf, Step;
    var r := RulesOf(c);
    if actions == [] {
      FreshIsJustified(r, s, id, at);
    } else {
      var n := |actions| - 1;
      assert actions == actions[..n] + [actions[n]];
      RunJustified(c, s, actions[..n], pid, id, at);
      if pid in Run(r, s, actions[..n]).procs {
        StepJustified(c, s, actions[..n], actions[n], pid, id, at);
      } else {
        RunKeepsInv(r, s, actions[..n]);
        UsedBefore(r, s, actions[..n], pid);
        RunSnoc(r, s, actions[..n], actions[n]);
        NoReturn(r, Run(r, s, actions[..n]), actions[n], pid);
      }
    }
  }

  lemma FreshIsJustified(c: Rules, s: System, id: Uuid, at: i64)
    ensures Justified(c, s, [], Looking(id, at, SeekTomb), id, at)
  {
  }

  lemma UsedBefore(c: Rules, s: System, actions: seq<Action>, pid: Pid)
    requires Inv(c, s) && pid in s.procs
    ensures pid < Run(c, s, actions).used
  {
    hide Step, Run;
    RunKeepsInv(c, s, actions);
    assert ProcOk(c, s, pid, s.procs[pid]);
  }

  lemma NoReturn(c: Rules, s: System, a: Action, pid: Pid)
    requires Inv(c, s) && pid !in s.procs && pid < s.used
    ensures pid !in Step(c, s, a).procs
  {
    hide AdvanceProc, Inv;
    if a.Advance? && a.pid in s.procs {
      AdvanceStepsAside(c, s, a.pid, s.procs[a.pid], a.outcome);
    }
  }

  /**
   Whatever happens between the reads of a lookup, active, expired and deleted are what the store
   showed at some instant since it began, to a reader with its time; so is not found, unless an
   expiry failed to see the record. A lookup on its way to retire an expired record answers expired.
   */
  lemma AnswersWereShown(c: Config, s: System, actions: seq<Action>, pid: Pid, id: Uuid, at: i64)
    requires Inv(RulesOf(c), s) && pid in s.procs && s.procs[pid] == Looking(id, at, SeekTomb)
    ensures var s' := Run(RulesOf(c), s, actions);
            pid in s'.procs ==>
              && !s'.procs[pid].Committing?
              && (s'.procs[pid].Retiring? ==> Shown(RulesOf(c), s, actions, id, at, SeesExpired))
              && (s'.procs[pid].Looking? && s'.procs[pid].lpc.Answered? ==>
                    var sight := s'.procs[pid].lpc.sight;
                    && (sight.SeesActive? || sight.SeesExpired? || sight.SeesDeleted? ==> Shown(RulesOf(c), s, actions, id, at, sight))
                    && (sight.SeesNothing? && id !in s'.missed ==> Shown(RulesOf(c), s, actions, id, at, sight))
                    && (sight.SeesActive? ==>
                          id in s'.committed && sight.manifest == s'.committed[id].manifest && at < sight.manifest.expiresAt))
  {
    hide Shown, Run, Step, RecordsOk, TombsOk, MissedOk, RulesOf, CommitOk, RetireOk;
    RunJustified(c, s, actions, pid, id, at);
    RunKeepsInv(RulesOf(c), s, actions);
    var s' := Run(RulesOf(c), s, actions);
    if pid in s'.procs {
      assert ProcOk(RulesOf(c), s', pid, s'.procs[pid]);
    }
  }

  // ---- Corrupt, exactly -----------------------------------------------------------------------

  /** Somewhere along the way the record of this run was taken away. */
  ghost predicate TakenAwayAlong(c: Rules, s: System, actions: seq<Action>, id: Uuid) {
    exists k | 0 <= k < |actions| :: TakesAway(Run(c, s, actions[..k]), actions[k], id)
  }

  lemma {:induction false} StandsUnlessTaken(c: Rules, s: System, actions: seq<Action>, id: Uuid)
    requires Inv(c, s) && Visible(id) in s.disk.records
    ensures Visible(id) !in Run(c, s, actions).disk.records <==> TakenAwayAlong(c, s, actions, id)
    decreases |actions|
  {
    hide Inv, Step, TakesAway;
    if actions != [] {
      var n := |actions| - 1;
      var init, a := actions[..n], actions[n];
      var s1 := Run(c, s, init);
      assert actions == init + [a];
      StandsUnlessTaken(c, s, init, id);
      RunKeepsInv(c, s, init);
      RunSnoc(c, s, init, a);
      if Visible(id) in s1.disk.records {
        OneStepTakes(c, s1, a, id);
      }
      GoneStaysGone(c, s, init, a, id);
      TakenSnoc(c, s, init, a, id);
    }
  }

  lemma TakenSnoc(c: Rules, s: System, init: seq<Action>, a: Action, id: Uuid)
    ensures TakenAwayAlong(c, s, init + [a], id) <==> TakenAwayAlong(c, s, init, id) || TakesAway(Run(c, s, init), a, id)
  {
    hide Run, TakesAway;
    var actions, n := init + [a], |init|;
    assert actions[..n] == init && actions[n] == a;
    assert forall k | 0 <= k < n :: actions[..k] == init[..k] && actions[k] == init[k];
    if TakenAwayAlong(c, s, init, id) {
      var k :| 0 <= k < n && TakesAway(Run(c, s, init[..k]), init[k], id);
      assert TakesAway(Run(c, s, actions[..k]), actions[k], id);
    }
    if TakesAway(Run(c, s, init), a, id) {
      assert TakesAway(Run(c, s, actions[..n]), actions[n], id);
    }
  }

  lemma OneStepTakes(c: Rules, s: System, a: Action, id: Uuid)
    requires Inv(c, s) && Visible(id) in s.disk.records
    ensures Visible(id) !in Step(c, s, a).disk.records <==> TakesAway(s, a, id)
  {
    hide Inv, AdvanceProc;
    if a.Advance? && a.pid in s.procs {
      AdvanceMovesRecord(c, s, a.pid, s.procs[a.pid], a.outcome, id);
    }
  }

  lemma GoneStaysGone(c: Rules, s: System, init: seq<Action>, a: Action, id: Uuid)
    requires Inv(c, s) && Visible(id) in s.disk.records
    ensures Visible(id) !in Run(c, s, init).disk.records ==>
              Visible(id) !in Run(c, s, init + [a]).disk.records && !TakesAway(Run(c, s, init), a, id)
  {
    hide Run, Step;
    RunConcat(c, s, init, [a]);
    VisibleRecordsNeverChange(c, s, init, [a], id);
  }

  /**
   A lookup that has just found the record of a canonically named run answers corrupt if and only
   if its read fails, or the record is taken away before that read.
   */
  lemma CorruptExactly(c: Config, s: System, between: seq<Action>, pid: Pid, id: Uuid, at: i64, o: Outcome)
    requires Inv(RulesOf(c), s) && pid in s.procs && s.procs[pid] == Looking(id, at, SeekManifest) && Visible(id) in s.disk.records
    requires s.disk.records[Visible(id)].manifest.Full? ==> s.disk.records[Visible(id)].manifest.content.stats.runId == UuidText(id)
    requires pid in Run(RulesOf(c), s, between).procs && Run(RulesOf(c), s, between).procs[pid] == s.procs[pid]
    ensures var s2 := Step(RulesOf(c), Run(RulesOf(c), s, between), Advance(pid, o));
            && pid in s2.procs
            && (s2.procs[pid] == Looking(id, at, Answered(SeesCorrupt)) <==> !o.Done? || TakenAwayAlong(RulesOf(c), s, between, id))
  {
    hide Inv, Run, RulesOf, ViewRecord, View, LiveTombstone, RecordSight, UuidText, DirOf, TakenAwayAlong;
    var r := RulesOf(c);
    var s1 := Run(r, s, between);
    RunKeepsInv(r, s, between);
    StandsUnlessTaken(r, s, between, id);
    TombstonesAreSound(r, s, id);
    WholeManifest(s.committed[id]);
    SameStats(c, s, id);
    CommittedStays(r, s, between, id);
    ViewIs(c, s1, id, at);
    RecordSightIs(c, s1, id, at);
  }

  lemma SameStats(c: Config, s: System, id: Uuid)
    requires Inv(RulesOf(c), s) && id in s.committed
    ensures s.committed[id].manifest.stats == s.committed[id].payload.stats
  {
    hide Inv, PublicationOk, Whole, DirOf;
    TombstonesAreSound(RulesOf(c), s, id);
    PublicationIsWhole(c, id, s.committed[id]);
  }

  lemma CommittedStays(c: Rules, s: System, actions: seq<Action>, id: Uuid)
    requires Inv(c, s) && id in s.committed
    ensures id in Run(c, s, actions).committed && Run(c, s, actions).committed[id] == s.committed[id]
  {
    hide Inv, Run, Step;
    RunKeepsInv(c, s, actions);
  }

  // ---- Two runs that show the limits ----------------------------------------------------------

  // The lookup has found the record and is about to read it.
  lemma LookupFindsRecord(c: Rules, s: System, id: Uuid)
    requires Inv(c, s) && Visible(id) in s.disk.records && Final(id) !in s.disk.tombs
    ensures var s' := Run(c, s, [BeginLookup(id), Advance(s.used, Done), Advance(s.used, Done)]);
            s' == s.(procs := s.procs[s.used := Looking(id, s.now, SeekManifest)], used := s.used + 1)
  {
    hide Inv;
    var pid := s.used;
    RunThree(c, s, BeginLookup(id), Advance(pid, Done), Advance(pid, Done));
    var s1 := Step(c, s, BeginLookup(id));
    var s2 := Step(c, s1, Advance(pid, Done));
    var s3 := Step(c, s2, Advance(pid, Done));
    assert s2.procs == s.procs[pid := Looking(id, s.now, SeekRecord)];
    assert s3.procs == s.procs[pid := Looking(id, s.now, SeekManifest)];
  }

  function Overtaken(id: Uuid, looker: Pid): seq<Action> {
    [BeginLookup(id), Advance(looker, Done), Advance(looker, Done)] + DeleteFirst(id, looker + 1)
  }

  /**
   For every live record there is a run in which readers are shown active, then a lookup whose calls
   all succeed answers corrupt, and then readers are shown deleted.
   */
  lemma OvertakenLookupIsCorrupt(c: Config, s: System, id: Uuid)
    requires Inv(RulesOf(c), s) && PhaseOf(s, id).Live? && c.tombTtl > 0 && s.now < MAX_I64
    requires s.committed[id].payload.stats.runId == UuidText(id)
    ensures View(s.disk, id, s.now).SeesActive?
    ensures var mid := Run(RulesOf(c), s, Overtaken(id, s.used));
            var read := Step(RulesOf(c), mid, Advance(s.used, Done));
            && s.used in read.procs && read.procs[s.used] == Looking(id, s.now, Answered(SeesCorrupt))
            && View(Run(RulesOf(c), read, Dones(s.used + 1, 3)).disk, id, s.now) == SeesDeleted
  {
    hide Inv, View, RulesOf, Run, UuidText;
    var r := RulesOf(c);
    ViewFollowsPhase(c, s, id);
    TombstonesAreSound(r, s, id);
    NoTombstoneBesideRecord(r, s, id);
    LookupFindsRecord(r, s, id);
    var first := [BeginLookup(id), Advance(s.used, Done), Advance(s.used, Done)];
    var found := Run(r, s, first);
    RunKeepsInv(r, s, first);
    RunConcat(r, s, first, DeleteFirst(id, s.used + 1));
    DeletionUnderWay(r, found, id);
    var mid := Run(r, s, Overtaken(id, s.used));
    RunKeepsInv(r, s, Overtaken(id, s.used));
    OvertakenEnds(c, mid, s.used, id, s.now);
  }

  lemma OvertakenEnds(c: Config, mid: System, pid: Pid, id: Uuid, at: i64)
    requires Inv(RulesOf(c), mid) && pid in mid.procs && mid.procs[pid] == Looking(id, at, SeekManifest) && id in mid.gone
    requires pid + 1 in mid.procs && mid.procs[pid + 1] == Retiring(id, WasDeleted, at, OpenTomb)
    requires mid.now == at && c.tombTtl > 0 && at < MAX_I64
    ensures var read := Step(RulesOf(c), mid, Advance(pid, Done));
            && pid in read.procs && read.procs[pid] == Looking(id, at, Answered(SeesCorrupt))
            && View(Run(RulesOf(c), read, Dones(pid + 1, 3)).disk, id, at) == SeesDeleted
  {
    hide Inv, View, RulesOf, Run;
    var r := RulesOf(c);
    TombstonesAreSound(r, mid, id);
    var read := Step(r, mid, Advance(pid, Done));
    StepKeepsInv(r, mid, Advance(pid, Done));
    BurialEnds(r, read, pid + 1, read.procs[pid + 1]);
    RunKeepsInv(r, read, Dones(pid + 1, 3));
    ViewIs(c, Run(r, read, Dones(pid + 1, 3)), id, at);
    TombTtlOf(c);
  }

  lemma TombTtlOf(c: Config)
    ensures RulesOf(c).tombTtl == c.tombTtl
  {
  }

  // An expiry misses the record while a lookup is between its reads, and a deletion then takes it.
  function MissedMeanwhile(id: Uuid, looker: Pid): seq<Action> {
    [BeginLookup(id), Advance(looker, Done)] + ExpireUnseen(id, looker + 1)
  }

  function TakenMeanwhile(id: Uuid, looker: Pid): seq<Action> {
    [BeginRetire(id, WasDeleted), Advance(looker + 2, Done)]
  }

  lemma LookupFindsNoTombstone(c: Rules, s: System, id: Uuid)
    requires Inv(c, s) && Final(id) !in s.disk.tombs
    ensures var s' := Run(c, s, [BeginLookup(id), Advance(s.used, Done)]);
            s' == s.(procs := s.procs[s.used := Looking(id, s.now, SeekRecord)], used := s.used + 1)
  {
    hide Inv;
    var s1 := Step(c, s, BeginLookup(id));
    RunConcat(c, s, [BeginLookup(id)], [Advance(s.used, Done)]);
    assert [BeginLookup(id), Advance(s.used, Done)] == [BeginLookup(id)] + [Advance(s.used, Done)];
    RunOne(c, s, BeginLookup(id));
    RunOne(c, s1, Advance(s.used, Done));
    assert Step(c, s1, Advance(s.used, Done)).procs == s.procs[s.used := Looking(id, s.now, SeekRecord)];
  }

  lemma DeletionTakes(c: Rules, s: System, id: Uuid)
    requires Inv(c, s) && Visible(id) in s.disk.records
    ensures var s' := Run(c, s, [BeginRetire(id, WasDeleted), Advance(s.used, Done)]);
            && Visible(id) !in s'.disk.records && s'.disk.tombs == s.disk.tombs && s'.now == s.now
            && s'.procs == s.procs[s.used := Retiring(id, WasDeleted, s.now, Remove)]
    ensures Run(c, s, [BeginRetire(id, WasDeleted)]).disk == s.disk
  {
    hide Inv;
    TombstonesAreSound(c, s, id);
    var s1 := Step(c, s, BeginRetire(id, WasDeleted));
    assert [BeginRetire(id, WasDeleted), Advance(s.used, Done)] == [BeginRetire(id, WasDeleted)] + [Advance(s.used, Done)];
    RunConcat(c, s, [BeginRetire(id, WasDeleted)], [Advance(s.used, Done)]);
    RunOne(c, s, BeginRetire(id, WasDeleted));
    RunOne(c, s1, Advance(s.used, Done));
    assert Step(c, s1, Advance(s.used, Done)).procs == s.procs[s.used := Retiring(id, WasDeleted, s.now, Remove)];
  }

  // Standing at the end, the record stood all along.
  lemma StoodAllAlong(c: Rules, s: System, actions: seq<Action>, id: Uuid, k: nat)
    requires Inv(c, s) && Visible(id) in s.disk.records && Visible(id) in Run(c, s, actions).disk.records && k <= |actions|
    ensures Visible(id) in DiskAfter(c, s, actions, k).records
  {
    hide Inv, Run;
    assert actions == actions[..k] + actions[k..];
    RunConcat(c, s, actions[..k], actions[k..]);
    VisibleRecordsNeverChange(c, s, actions[..k], actions[k..], id);
  }

  /**
   The exception is real: for every record past its expiry there is a run in which a lookup answers
   not found although at every instant a reader was shown something else.
   */
  lemma NotFoundNeverShown(c: Config, s: System, id: Uuid)
    requires Inv(RulesOf(c), s) && PhaseOf(s, id).Stale? && Final(id) !in s.disk.tombs && c.tombTtl > 0 && s.now < MAX_I64
    ensures var actions := MissedMeanwhile(id, s.used) + TakenMeanwhile(id, s.used);
            var end := Step(RulesOf(c), Run(RulesOf(c), s, actions), Advance(s.used, Done));
            && s.used in end.procs && end.procs[s.used] == Looking(id, s.now, Answered(SeesNothing))
            && !Shown(RulesOf(c), s, actions, id, s.now, SeesNothing)
  {
    hide Inv, View, RulesOf, Run, Shown, PhaseOf, Step, LiveTombstone;
    var r := RulesOf(c);
    VisibleWhenStale(r, s, id);
    LookupMeetsMissed(c, s, id);
    var both := Run(r, s, MissedMeanwhile(id, s.used));
    RunKeepsInv(r, s, MissedMeanwhile(id, s.used));
    DeletionTakes(r, both, id);
    RunConcat(r, s, MissedMeanwhile(id, s.used), TakenMeanwhile(id, s.used));
    NothingElseShown(c, s, MissedMeanwhile(id, s.used), id, s.used, s.now);
    LookupSeesNothing(r, Run(r, s, MissedMeanwhile(id, s.used) + TakenMeanwhile(id, s.used)), s.used, id, s.now);
  }

  lemma VisibleWhenStale(c: Rules, s: System, id: Uuid)
    requires Inv(c, s) && PhaseOf(s, id).Stale?
    ensures Visible(id) in s.disk.records
  {
    hide Inv;
    TombstonesAreSound(c, s, id);
  }

  lemma LookupSeesNothing(c: Rules, s: System, pid: Pid, id: Uuid, at: i64)
    requires pid in s.procs && s.procs[pid] == Looking(id, at, SeekRecord) && Visible(id) !in s.disk.records
    ensures var s' := Step(c, s, Advance(pid, Done));
            pid in s'.procs && s'.procs[pid] == Looking(id, at, Answered(SeesNothing))
  {
  }

  lemma LookupMeetsMissed(c: Config, s: System, id: Uuid)
    requires Inv(RulesOf(c), s) && PhaseOf(s, id).Stale? && Final(id) !in s.disk.tombs && c.tombTtl > 0 && s.now < MAX_I64
    ensures var both := Run(RulesOf(c), s, MissedMeanwhile(id, s.used));
            && s.used in both.procs && both.procs[s.used] == Looking(id, s.now, SeekRecord) && both.used == s.used + 2
            && Visible(id) in both.disk.records && LiveTombstone(both.disk, id, s.now)
  {
    hide Inv, RulesOf, Run, Step;
    var r := RulesOf(c);
    TombTtlOf(c);
    var first := [BeginLookup(id), Advance(s.used, Done)];
    LookupFindsNoTombstone(r, s, id);
    RunKeepsInv(r, s, first);
    FailedStatLeavesBoth(r, Run(r, s, first), id);
    RunConcat(r, s, first, ExpireUnseen(id, s.used + 1));
  }

  lemma NothingElseShown(c: Config, s: System, first: seq<Action>, id: Uuid, looker: Pid, at: i64)
    requires Inv(RulesOf(c), s) && Visible(id) in s.disk.records
    requires var both := Run(RulesOf(c), s, first);
             Visible(id) in both.disk.records && LiveTombstone(both.disk, id, at) && both.used == looker + 2
    ensures !Shown(RulesOf(c), s, first + TakenMeanwhile(id, looker), id, at, SeesNothing)
  {
    hide Inv, View, ViewRecord, RecordSight, RulesOf, Run;
    var r := RulesOf(c);
    var actions, n := first + TakenMeanwhile(id, looker), |first|;
    RunKeepsInv(r, s, first);
    var both := Run(r, s, first);
    DeletionTakes(r, both, id);
    forall k | 0 <= k <= |actions|
      ensures View(DiskAfter(r, s, actions, k), id, at) != SeesNothing
    {
      RunKeepsInv(r, s, actions[..k]);
      ViewIs(c, Run(r, s, actions[..k]), id, at);
      if k <= n {
        assert actions[..k] == first[..k];
        StoodAllAlong(r, s, first, id, k);
        RecordShowsSomething(c, Run(r, s, actions[..k]), id, at);
      } else {
        assert actions[..k] == first + TakenMeanwhile(id, looker)[..k - n];
        RunConcat(r, s, first, TakenMeanwhile(id, looker)[..k - n]);
        assert TakenMeanwhile(id, looker)[..k - n] == if k == n + 1 then [BeginRetire(id, WasDeleted)] else TakenMeanwhile(id, looker);
      }
    }
  }

  lemma RecordShowsSomething(c: Config, s: System, id: Uuid, at: i64)
    requires Inv(RulesOf(c), s) && Visible(id) in s.disk.records
    ensures View(s.disk, id, at) != SeesNothing
  {
    hide Inv, View, ViewRecord, RecordSight, UuidText;
    ViewIs(c, s, id, at);
    RecordSightIs(c, s, id, at);
  }
}
