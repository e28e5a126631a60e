/** Hidden directories whose process has ended: nothing touches them again. */
module Leftovers {
  import opened Basics
  import opened Uuids
  import opened Records
  import opened Directory
  import opened Lookup
  import opened Protocol
  import opened ProtocolLaws
  import opened Traces
  import opened Commits
  import opened Usage
  import LineIndex

  predicate SameAt(before: map<Name, Dir>, after: map<Name, Dir>, n: Name) {
    if n in before then n in after && after[n] == before[n] else n !in after
  }

  lemma CommitLeavesHidden(c: Rules, s: System, pid: Pid, p: Proc, o: Outcome, n: Name)
    requires p.Committing? && n.Hidden? && n.tag != pid
    ensures SameAt(s.disk.records, AdvanceCommit(c, s, pid, p, o).disk.records, n)
  {
    hide Opened, Filled, Unlinked;
    if p.cpc.MkDir? || p.cpc.Open? || p.cpc.Fill? {
      hide PublishRecord, UnpublishRecord, Settle;
    } else if p.cpc == Publish || p.cpc == Unpublish {
      hide Prepare, Settle;
    } else {
      hide Prepare, PublishRecord, UnpublishRecord;
    }
  }

  lemma RetireLeavesHidden(c: Rules, s: System, pid: Pid, p: Proc, o: Outcome, n: Name)
    requires p.Retiring? && n.Hidden? && n.tag != pid
    ensures SameAt(s.disk.records, AdvanceRetire(c, s, pid, p, o).disk.records, n)
  {
    hide Unlinked, TombFor;
    if IsBurying(p) {
      hide SeekExpired, RemoveRecord;
    } else {
      hide Bury;
    }
  }

  lemma LookLeavesHidden(s: System, pid: Pid, p: Proc, o: Outcome, n: Name)
    requires p.Looking?
    ensures SameAt(s.disk.records, AdvanceLookup(s, pid, p, o).disk.records, n)
  {
    hide ViewRecord, TombstoneAt;
  }

  lemma StepLeavesStray(c: Rules, s: System, a: Action, n: Name)
    requires Inv(c, s) && n.Hidden? && n.tag !in s.procs && n.tag < s.used
    ensures var s' := Step(c, s, a);
            SameAt(s.disk.records, s'.disk.records, n) && n.tag !in s'.procs && n.tag < s'.used
  {
    hide Inv, AdvanceCommit, AdvanceRetire, AdvanceLookup;
    StepKeepsInv(c, s, a);
    if a.Advance? && a.pid in s.procs {
      var p := s.procs[a.pid];
      AdvanceStepsAside(c, s, a.pid, p, a.outcome);
      match p
      case Committing(_, _, _, _, _) => CommitLeavesHidden(c, s, a.pid, p, a.outcome, n);
      case Retiring(_, _, _, _) => RetireLeavesHidden(c, s, a.pid, p, a.outcome, n);
      case Looking(_, _, _) => LookLeavesHidden(s, a.pid, p, a.outcome, n);
    }
  }

  /** No operation reclaims a hidden directory once its process has ended: it stays, unchanged, whatever happens. */
  lemma {:induction false} StraysStay(c: Rules, s: System, actions: seq<Action>, n: Name)
    requires Inv(c, s) && n.Hidden? && n in s.disk.records && n.tag !in s.procs
    ensures var s' := Run(c, s, actions);
            n in s'.disk.records && s'.disk.records[n] == s.disk.records[n] && n.tag !in s'.procs
    decreases |actions|
  {
    hide Step;
    assert n.tag < s.used;
    if actions != [] {
      StepLeavesStray(c, s, actions[0], n);
      StepKeepsInv(c, s, actions[0]);
      StraysStay(c, Step(c, s, actions[0]), actions[1..], n);
    }
  }

  /**
   A crash is enough to leave one: every commit that could succeed can instead leave the whole record
   under its temporary name, for good.
   */
  lemma CrashLeavesStray(c: Rules, s: System, id: Uuid, payload: Payload, actions: seq<Action>)
    requires Inv(c, s) && id !in s.owner && c.accepts(id, payload) && c.build(id, payload, s.now).Some?
    ensures var n := Hidden(Tmp, id, s.used);
            var crashed := Step(c, Run(c, s, [BeginCommit(id, payload)] + Dones(s.used, 7)), Crash(s.used));
            && n in Run(c, crashed, actions).disk.records
            && Run(c, crashed, actions).disk.records[n] == DirOf(Publication(payload, c.build(id, payload, s.now).value, s.now))
  {
    hide Inv, Run, DirOf;
    var pid := s.used;
    var staged := Run(c, s, [BeginCommit(id, payload)] + Dones(pid, 7));
    StagesFully(c, s, id, payload);
    RunKeepsInv(c, s, [BeginCommit(id, payload)] + Dones(pid, 7));
    StepKeepsInv(c, staged, Crash(pid));
    StraysStay(c, Step(c, staged, Crash(pid)), actions, Hidden(Tmp, id, pid));
  }

  lemma StagesFully(c: Rules, s: System, id: Uuid, payload: Payload)
    requires Inv(c, s) && id !in s.owner && c.accepts(id, payload) && c.build(id, payload, s.now).Some?
    ensures var p := Publication(payload, c.build(id, payload, s.now).value, s.now);
            var n, staged := Hidden(Tmp, id, s.used), Run(c, s, [BeginCommit(id, payload)] + Dones(s.used, 7));
            n in staged.disk.records && staged.disk.records[n] == DirOf(p)
  {
    hide Inv, Run, DirOf;
    var pid := s.used;
    var s0 := s.(used := s.used + 1, owner := s.owner[id := pid]);
    RunCons(c, s, BeginCommit(id, payload), Dones(pid, 7));
    BeginAndMkDir(c, s, id, payload);
    RunDones(c, Step(c, s, BeginCommit(id, payload)), pid, 7);
    StageAll(c, s0, pid, id, payload, 0);
    RunNone(c, Staging(s0, pid, Committing(id, payload, c.build(id, payload, s.now), s.now, Publish),
                       DirOf(Publication(payload, c.build(id, payload, s.now).value, s.now))));
  }

  lemma RunNone(c: Rules, s: System)
    ensures Run(c, s, []) == s
  {
  }

  // ---- How much one holds ---------------------------------------------------------------------

  predicate FitsStreams(d: Dir) {
    FileBytes(d.stdout) <= LineIndex.MAX_STREAM_BYTES && FileBytes(d.stderr) <= LineIndex.MAX_STREAM_BYTES
  }

  ghost predicate AllFit(records: map<Name, Dir>) { forall n | n in records :: FitsStreams(records[n]) }

  lemma WriteKeepsFits(d: Disk, n: Name, dir: Dir)
    requires AllFit(d.records) && FitsStreams(dir)
    ensures AllFit(WithRecord(d, n, dir).records)
  {
  }

  lemma MoveKeepsFits(d: Disk, from: Name, to: Name)
    requires AllFit(d.records) && from != to
    ensures from in d.records ==> AllFit(Moved(d, from, to).records)
  {
  }

  lemma RemovalKeepsFits(d: Disk, n: Name, o: Outcome)
    requires AllFit(d.records)
    ensures AllFit(Removing(d, n, o).records)
  {
  }

  lemma PrepareKeepsFits(c: Rules, s: System, pid: Pid, p: Proc, o: Outcome)
    requires AllFit(s.disk.records) && p.Committing? && ValidPayload(p.payload) && (p.cpc.MkDir? || p.cpc.Open? || p.cpc.Fill?)
    ensures AllFit(Prepare(c, s, pid, p, o).disk.records)
  {
    hide AllFit, WithRecord;
    var d, n := s.disk, Hidden(Tmp, p.id, pid);
    match p.cpc
    case MkDir => WriteKeepsFits(d, n, EMPTY_DIR);
    case Open(f) =>
      if n in d.records {
        DirectoryFits(d.records, n);
        WriteKeepsFits(d, n, Opened(d.records[n], f));
      }
    case Fill(f) =>
      if n in d.records {
        DirectoryFits(d.records, n);
        WriteKeepsFits(d, n, Filled(d.records[n], f, p.payload, p.manifest));
      }
  }

  lemma DirectoryFits(records: map<Name, Dir>, n: Name)
    requires AllFit(records) && n in records
    ensures FitsStreams(records[n])
  {
  }

  lemma CommitKeepsFits(c: Rules, s: System, pid: Pid, p: Proc, o: Outcome)
    requires AllFit(s.disk.records) && p.Committing? && ValidPayload(p.payload)
    ensures AllFit(AdvanceCommit(c, s, pid, p, o).disk.records)
  {
    hide Prepare, AllFit, Moved, Removing;
    var d, temp, failed := s.disk, Hidden(Tmp, p.id, pid), Hidden(Failed, p.id, pid);
    if p.cpc.MkDir? || p.cpc.Open? || p.cpc.Fill? {
      PrepareKeepsFits(c, s, pid, p, o);
    } else {
      MoveKeepsFits(d, temp, Visible(p.id));
      MoveKeepsFits(d, Visible(p.id), failed);
      RemovalKeepsFits(d, temp, o);
      RemovalKeepsFits(d, failed, o);
    }
  }

  lemma RetireKeepsFits(c: Rules, s: System, pid: Pid, p: Proc, o: Outcome)
    requires AllFit(s.disk.records) && p.Retiring?
    ensures AllFit(AdvanceRetire(c, s, pid, p, o).disk.records)
  {
    hide TombFor, AllFit, Moved, Removing;
    var trash := Hidden(TrashKind(p.status), p.id, pid);
    MoveKeepsFits(s.disk, Visible(p.id), trash);
    RemovalKeepsFits(s.disk, trash, o);
  }

  lemma LookKeepsFits(s: System, pid: Pid, p: Proc, o: Outcome)
    requires AllFit(s.disk.records) && p.Looking?
    ensures AllFit(AdvanceLookup(s, pid, p, o).disk.records)
  {
    hide ViewRecord, TombstoneAt, AllFit;
  }

  lemma StepKeepsFits(c: Config, s: System, a: Action)
    requires Inv(RulesOf(c), s) && AllFit(s.disk.records)
    ensures AllFit(Step(RulesOf(c), s, a).disk.records)
  {
    hide AdvanceCommit, AdvanceRetire, AdvanceLookup, AllFit, RecordsOk, TombsOk, MissedOk;
    if a.Advance? && a.pid in s.procs {
      var p := s.procs[a.pid];
      assert ProcOk(RulesOf(c), s, a.pid, p);
      match p
      case Committing(_, _, _, _, _) => CommitKeepsFits(RulesOf(c), s, a.pid, p, a.outcome);
      case Retiring(_, _, _, _) => RetireKeepsFits(RulesOf(c), s, a.pid, p, a.outcome);
      case Looking(_, _, _) => LookKeepsFits(s, a.pid, p, a.outcome);
    }
  }

  /** No directory of any reachable state, hidden or not, holds more than the stream limit in either data file. */
  lemma {:induction false} DirectoriesFit(c: Config, s: System, actions: seq<Action>)
    requires Inv(RulesOf(c), s) && AllFit(s.disk.records)
    ensures AllFit(Run(RulesOf(c), s, actions).disk.records)
    decreases |actions|
  {
    hide Step, Inv, AllFit, RulesOf;
    if actions != [] {
      StepKeepsFits(c, s, actions[0]);
      StepKeepsInv(RulesOf(c), s, actions[0]);
      DirectoriesFit(c, Step(RulesOf(c), s, actions[0]), actions[1..]);
    }
  }
}
