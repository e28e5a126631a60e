/** When the answers about a run that is gone can only fade, exactly. */
module Fading {
  import opened Basics
  import opened Uuids
  import opened Records
  import opened Directory
  import opened Lookup
  import opened Protocol
  import opened ProtocolLaws
  import opened Lifecycle
  import opened Traces

  // ---- Who can still bury -------------------------------------------------------------------

  /** When a tombstone that this process may still write would expire. */
  function BuriedUntil(c: Rules, s: System, p: Proc): i64
    requires p.Retiring?
  {
    SaturatingLater(if p.status == WasDeleted && (p.rpc == Remove || p.rpc == OpenTomb) then s.now else p.at, c.tombTtl)
  }

  /** This process can still put a live tombstone under the id. */
  predicate CanStillBury(c: Rules, s: System, pid: Pid, id: Uuid) {
    && pid in s.procs && s.procs[pid].Retiring? && s.procs[pid].id == id
    && BuriedUntil(c, s, s.procs[pid]) > s.now
    && match s.procs[pid].rpc
       case StatRecord | Remove | OpenTomb => true
       case FillTomb | RenameTomb => Temp(pid) in s.disk.tombs
       case _ => false
  }

  ghost predicate NobodyBuries(c: Rules, s: System, id: Uuid) {
    forall pid | pid in s.procs :: !CanStillBury(c, s, pid, id)
  }

  /** From here on, whatever happens, each later answer is the earlier one or nothing. */
  ghost predicate OnlyFades(c: Rules, s: System, id: Uuid) {
    forall first: seq<Action>, second: seq<Action> ::
      var mid := Run(c, s, first);
      var end := Run(c, mid, second);
      PhaseOf(end, id) == PhaseOf(mid, id) || PhaseOf(end, id) == Forgotten
  }

  // ---- Nobody buries, so answers fade -------------------------------------------------------

  // A retirement of a gone run gets no closer to a live tombstone by its own step.
  lemma RetireStepBuriesNoMore(c: Rules, s: System, pid: Pid, p: Proc, o: Outcome, id: Uuid)
    requires pid in s.procs && s.procs[pid] == p && p.Retiring? && Visible(id) !in s.disk.records
    requires !CanStillBury(c, s, pid, id)
    requires p.rpc == StatRecord ==> p.status == WasExpired
    ensures !CanStillBury(c, AdvanceRetire(c, s, pid, p, o), pid, id)
  {
    hide Removing, Moved, TombFor;
  }

  lemma StepBuriesNoMore(c: Rules, s: System, a: Action, id: Uuid)
    requires Inv(c, s) && id in s.gone && NobodyBuries(c, s, id)
    ensures NobodyBuries(c, Step(c, s, a), id)
  {
    hide Inv, Step, CanStillBury;
    var s' := Step(c, s, a);
    forall pid | pid in s'.procs
      ensures !CanStillBury(c, s', pid, id)
    {
      OneStepBuriesNoMore(c, s, a, id, pid);
    }
  }

  lemma OneStepBuriesNoMore(c: Rules, s: System, a: Action, id: Uuid, pid: Pid)
    requires Inv(c, s) && id in s.gone && NobodyBuries(c, s, id) && pid in Step(c, s, a).procs
    ensures !CanStillBury(c, Step(c, s, a), pid, id)
  {
    hide AdvanceProc, RecordsOk, TombsOk, MissedOk, CommitOk, RetireOk, LookOk;
    TombstonesAreSound(c, s, id);
    if a.Advance? && a.pid in s.procs {
      AdvanceStepsAside(c, s, a.pid, s.procs[a.pid], a.outcome);
      assert !CanStillBury(c, s, pid, id);
      if a.pid == pid {
        OwnStepBuriesNoMore(c, s, pid, s.procs[pid], a.outcome, id);
      }
    } else if pid in s.procs {
      assert ProcOk(c, s, pid, s.procs[pid]);
      assert !CanStillBury(c, s, pid, id);
    }
  }

  lemma OwnStepBuriesNoMore(c: Rules, s: System, pid: Pid, p: Proc, o: Outcome, id: Uuid)
    requires Inv(c, s) && pid in s.procs && s.procs[pid] == p && Visible(id) !in s.disk.records && !CanStillBury(c, s, pid, id)
    ensures !CanStillBury(c, AdvanceProc(c, s, pid, p, o), pid, id)
  {
    hide Removing, Moved, TombFor, CanStillBury, RecordsOk, TombsOk, MissedOk;
    assert ProcOk(c, s, pid, p);
    match p
    case Retiring(_, _, _, _) => RetireStepBuriesNoMore(c, s, pid, p, o, id);
    case Committing(_, _, _, _, _) => CommitStepBuriesNothing(c, s, pid, p, o, id);
    case Looking(_, _, _) => LookStepBuriesNothing(c, s, pid, p, o, id);
  }

  lemma CommitStepBuriesNothing(c: Rules, s: System, pid: Pid, p: Proc, o: Outcome, id: Uuid)
    requires pid in s.procs && s.procs[pid] == p && p.Committing?
    ensures !CanStillBury(c, AdvanceCommit(c, s, pid, p, o), pid, id)
  {
    hide Removing, Moved, WithRecord, Opened, Filled;
  }

  lemma LookStepBuriesNothing(c: Rules, s: System, pid: Pid, p: Proc, o: Outcome, id: Uuid)
    requires pid in s.procs && s.procs[pid] == p && p.Looking? && Visible(id) !in s.disk.records
    ensures !CanStillBury(c, AdvanceLookup(s, pid, p, o), pid, id)
  {
  }

  /** A step of nobody who can bury leaves the tombstone alone, removes it, or puts a dead one in its place. */
  lemma StepFades(c: Rules, s: System, a: Action, id: Uuid)
    requires Inv(c, s) && id in s.gone && NobodyBuries(c, s, id)
    ensures var s' := Step(c, s, a);
            LiveTombstone(s'.disk, id, s'.now) ==>
              LiveTombstone(s.disk, id, s.now) && s'.disk.tombs[Final(id)] == s.disk.tombs[Final(id)]
  {
    if a.Advance? && a.pid in s.procs {
      assert ProcOk(c, s, a.pid, s.procs[a.pid]);
      assert !CanStillBury(c, s, a.pid, id);
      AdvanceFades(c, s, a.pid, s.procs[a.pid], a.outcome, id);
    }
  }

  lemma AdvanceFades(c: Rules, s: System, pid: Pid, p: Proc, o: Outcome, id: Uuid)
    requires pid in s.procs && s.procs[pid] == p && ProcOk(c, s, pid, p) && !CanStillBury(c, s, pid, id)
    ensures var s' := AdvanceProc(c, s, pid, p, o);
            LiveTombstone(s'.disk, id, s'.now) ==>
              LiveTombstone(s.disk, id, s.now) && s'.disk.tombs[Final(id)] == s.disk.tombs[Final(id)]
  {
    if p.Retiring? && p.rpc == RenameTomb && p.id == id {
      RenameFades(c, s, pid, p, o);
    } else {
      hide AdvanceProc, ProcOk, CanStillBury;
      AdvanceStepsAside(c, s, pid, p, o);
    }
  }

  lemma RenameFades(c: Rules, s: System, pid: Pid, p: Proc, o: Outcome)
    requires pid in s.procs && s.procs[pid] == p && ProcOk(c, s, pid, p) && !CanStillBury(c, s, pid, p.id)
    requires p.Retiring? && p.rpc == RenameTomb
    ensures var s' := AdvanceProc(c, s, pid, p, o);
            LiveTombstone(s'.disk, p.id, s'.now) ==> s'.disk.tombs == s.disk.tombs && s'.now == s.now
  {
  }

  lemma {:induction false} RunFades(c: Rules, s: System, actions: seq<Action>, id: Uuid)
    requires Inv(c, s) && id in s.gone && NobodyBuries(c, s, id)
    ensures var s' := Run(c, s, actions);
            && (PhaseOf(s', id) == PhaseOf(s, id) || PhaseOf(s', id) == Forgotten)
            && Inv(c, s') && id in s'.gone && NobodyBuries(c, s', id)
    decreases |actions|
  {
    hide Step, Inv, NobodyBuries;
    TombstonesAreSound(c, s, id);
    if actions != [] {
      StepFades(c, s, actions[0], id);
      StepBuriesNoMore(c, s, actions[0], id);
      StepKeepsInv(c, s, actions[0]);
      TombstonesAreSound(c, Step(c, s, actions[0]), id);
      RunFades(c, Step(c, s, actions[0]), actions[1..], id);
    }
  }

  // ---- Somebody buries, so an answer can come back ------------------------------------------

  /** How many successful steps it takes. */
  function StepsLeft(pc: RetirePc): nat {
    match pc
    case StatRecord | Remove => 4
    case OpenTomb => 3
    case FillTomb => 2
    case _ => 1
  }

  lemma BurierStep(c: Rules, s: System, pid: Pid, id: Uuid)
    requires Inv(c, s) && id in s.gone && CanStillBury(c, s, pid, id)
    ensures var s' := Step(c, s, Advance(pid, Done));
            && id in s'.gone && s'.now == s.now && pid in s'.procs && s'.procs[pid].Retiring?
            && if StepsLeft(s.procs[pid].rpc) > 1
               then CanStillBury(c, s', pid, id) && StepsLeft(s'.procs[pid].rpc) + 1 == StepsLeft(s.procs[pid].rpc)
               else LiveTombstone(s'.disk, id, s'.now)
  {
    hide Removing, PublicationOk, DirOf;
    TombstonesAreSound(c, s, id);
    assert ProcOk(c, s, pid, s.procs[pid]);
    RemovalLeavesTombs(s.disk, Hidden(TrashKind(s.procs[pid].status), id, pid));
  }

  lemma {:induction false} BurierBuries(c: Rules, s: System, pid: Pid, id: Uuid)
    requires Inv(c, s) && id in s.gone && CanStillBury(c, s, pid, id)
    ensures PhaseOf(Run(c, s, Dones(pid, StepsLeft(s.procs[pid].rpc))), id).Buried?
    decreases StepsLeft(s.procs[pid].rpc)
  {
    hide Inv, Step;
    var n := StepsLeft(s.procs[pid].rpc);
    var s' := Step(c, s, Advance(pid, Done));
    BurierStep(c, s, pid, id);
    StepKeepsInv(c, s, Advance(pid, Done));
    RunDones(c, s, pid, n);
    if n > 1 {
      BurierBuries(c, s', pid, id);
    } else {
      TombstonesAreSound(c, s', id);
    }
  }

  /** Once its tombstone is dropped the run seems forgotten, until the process buries it again. */
  lemma AnswerComesBack(c: Rules, s: System, pid: Pid, id: Uuid)
    requires Inv(c, s) && id in s.gone && CanStillBury(c, s, pid, id)
    ensures var mid := Run(c, s, [DropTomb(Final(id))]);
            PhaseOf(mid, id) == Forgotten && PhaseOf(Run(c, mid, Dones(pid, StepsLeft(s.procs[pid].rpc))), id).Buried?
  {
    var mid := Step(c, s, DropTomb(Final(id)));
    RunOne(c, s, DropTomb(Final(id)));
    StepKeepsInv(c, s, DropTomb(Final(id)));
    TombstonesAreSound(c, s, id);
    BurierBuries(c, mid, pid, id);
  }

  /**
   Of a run that is gone the answers only fade, along every continuation, if and only if no process
   is left that can still write a live tombstone for it.
   */
  lemma AnswersOnlyFadeExactly(c: Rules, s: System, id: Uuid)
    requires Inv(c, s) && id in s.gone
    ensures OnlyFades(c, s, id) <==> NobodyBuries(c, s, id)
  {
    hide Inv, Step, Run, CanStillBury;
    if NobodyBuries(c, s, id) {
      forall first: seq<Action>, second: seq<Action>
        ensures var mid := Run(c, s, first);
                var end := Run(c, mid, second);
                PhaseOf(end, id) == PhaseOf(mid, id) || PhaseOf(end, id) == Forgotten
      {
        RunFades(c, s, first, id);
        RunFades(c, Run(c, s, first), second, id);
      }
    } else {
      var pid :| pid in s.procs && CanStillBury(c, s, pid, id);
      AnswerComesBack(c, s, pid, id);
    }
  }
}
