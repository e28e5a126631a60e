/** Particular runs of the protocol: what may happen after any state, shown step by step. */
module Traces {
  import opened Basics
  import opened Uuids
  import opened Records
  import opened Directory
  import opened Lookup
  import opened Protocol
  import opened ProtocolLaws
  import opened Lifecycle

  lemma RunCons(c: Rules, s: System, a: Action, rest: seq<Action>)
    ensures Run(c, s, [a] + rest) == Run(c, Step(c, s, a), rest)
  {
    hide Step;
    assert ([a] + rest)[0] == a && ([a] + rest)[1..] == rest;
  }

  lemma RunThree(c: Rules, s: System, a: Action, b: Action, d: Action)
    ensures Run(c, s, [a, b, d]) == Step(c, Step(c, Step(c, s, a), b), d)
  {
    hide Step;
    var s1 := Step(c, s, a);
    var s2 := Step(c, s1, b);
    assert [a, b, d] == [a] + [b, d] && [b, d] == [b] + [d] && [d] == [d] + [];
    RunCons(c, s, a, [b, d]);
    RunCons(c, s1, b, [d]);
    RunCons(c, s2, d, []);
  }

  /** A process takes n steps, all of them successful. */
  function Dones(pid: Pid, n: nat): seq<Action> {
    if n == 0 then [] else [Advance(pid, Done)] + Dones(pid, n - 1)
  }

  lemma RunDones(c: Rules, s: System, pid: Pid, n: nat)
    requires n > 0
    ensures Run(c, s, Dones(pid, n)) == Run(c, Step(c, s, Advance(pid, Done)), Dones(pid, n - 1))
  {
    hide Step;
    RunCons(c, s, Advance(pid, Done), Dones(pid, n - 1));
  }

  lemma RunDonesThree(c: Rules, s: System, pid: Pid)
    ensures Run(c, s, Dones(pid, 3)) == Step(c, Step(c, Step(c, s, Advance(pid, Done)), Advance(pid, Done)), Advance(pid, Done))
  {
    hide Step;
    var s1 := Step(c, s, Advance(pid, Done));
    RunDones(c, s, pid, 3);
    RunDones(c, s1, pid, 2);
    RunDones(c, Step(c, s1, Advance(pid, Done)), pid, 1);
  }

  // ---- Deletions ----------------------------------------------------------------------------

  // Between its rename and its tombstone a deletion leaves nothing to see.
  function DeleteFirst(id: Uuid, pid: Pid): seq<Action> {
    [BeginRetire(id, WasDeleted), Advance(pid, Done), Advance(pid, Done)]
  }

  lemma DeletionUnderWay(c: Rules, s: System, id: Uuid)
    requires Inv(c, s) && Visible(id) in s.disk.records
    ensures var mid := Run(c, s, DeleteFirst(id, s.used));
            && s.used in mid.procs && mid.procs == s.procs[s.used := Retiring(id, WasDeleted, s.now, OpenTomb)]
            && id in mid.gone && id in mid.committed && mid.disk.tombs == s.disk.tombs && mid.now == s.now
  {
    hide Inv, Removing;
    TombstonesAreSound(c, s, id);
    var pid := s.used;
    RunThree(c, s, BeginRetire(id, WasDeleted), Advance(pid, Done), Advance(pid, Done));
    var s1 := Step(c, s, BeginRetire(id, WasDeleted));
    var s2 := Step(c, s1, Advance(pid, Done));
    assert s2.procs[pid] == Retiring(id, WasDeleted, s.now, Remove) && id in s2.gone;
    RemovalLeavesTombs(s2.disk, Hidden(Deleted, id, pid));
  }

  lemma RemovalLeavesTombs(d: Disk, name: Name)
    ensures Removing(d, name, Done).tombs == d.tombs
  {
  }

  /** The time a tombstone written from here on will record. */
  function BuriedAt(s: System, p: Proc): i64
    requires p.Retiring?
  {
    if p.status == WasDeleted then s.now else p.at
  }

  lemma BurialEnds(c: Rules, s: System, pid: Pid, p: Proc)
    requires pid in s.procs && s.procs[pid] == p && p.Retiring? && p.rpc == OpenTomb
    ensures var s' := Run(c, s, Dones(pid, 3));
            && s'.disk.tombs == (s.disk.tombs - {Temp(pid)})[Final(p.id) := Full(TombFor(c, p.id, p.status, BuriedAt(s, p)))]
            && s'.disk.records == s.disk.records && s'.gone == s.gone && s'.committed == s.committed && s'.now == s.now
            && s'.missed == s.missed && pid in s'.procs && s'.procs == s.procs[pid := s'.procs[pid]] && s'.used == s.used
  {
    hide TombFor;
    RunDonesThree(c, s, pid);
    var s1 := Step(c, s, Advance(pid, Done));
    var s2 := Step(c, s1, Advance(pid, Done));
    assert s1.procs[pid] == p.(rpc := FillTomb, at := BuriedAt(s, p));
    assert s2.procs[pid] == p.(rpc := RenameTomb, at := BuriedAt(s, p));
  }

  /**
   So while a retirement is in flight the answers of a run do not only fade: every live record has
   a continuation in which a reader sees nothing, and later a tombstone.
   */
  lemma TombstoneMayAppearLate(c: Rules, s: System, id: Uuid)
    requires Inv(c, s) && PhaseOf(s, id).Live? && c.tombTtl > 0 && s.now < MAX_I64
    ensures var mid := Run(c, s, DeleteFirst(id, s.used));
            PhaseOf(mid, id) == Forgotten && PhaseOf(Run(c, mid, Dones(s.used, 3)), id) == Buried(WasDeleted)
  {
    hide Inv, Step, Run;
    TombstonesAreSound(c, s, id);
    NoTombstoneBesideRecord(c, s, id);
    DeletionUnderWay(c, s, id);
    var mid := Run(c, s, DeleteFirst(id, s.used));
    BurialEnds(c, mid, s.used, mid.procs[s.used]);
  }

  /** And a crash may leave a temporary tombstone that no reader can parse. */
  lemma CrashMayTearTombstone(c: Rules, s: System, id: Uuid)
    requires Inv(c, s) && Visible(id) in s.disk.records
    ensures var torn := Run(c, Run(c, s, DeleteFirst(id, s.used)), [Advance(s.used, Done), Crash(s.used)]);
            Temp(s.used) in torn.disk.tombs && torn.disk.tombs[Temp(s.used)] == Torn && s.used !in torn.procs
  {
    hide Inv;
    DeletionUnderWay(c, s, id);
    var mid := Run(c, s, DeleteFirst(id, s.used));
    assert [Advance(s.used, Done), Crash(s.used)] == [Advance(s.used, Done)] + [Crash(s.used)] && [Crash(s.used)] == [Crash(s.used)] + [];
    RunCons(c, mid, Advance(s.used, Done), [Crash(s.used)]);
    RunCons(c, Step(c, mid, Advance(s.used, Done)), Crash(s.used), []);
  }

  // ---- Expiries -----------------------------------------------------------------------------

  // The look for the record fails, and the expiry goes on to its tombstone.
  function ExpireUnseen(id: Uuid, pid: Pid): seq<Action> {
    [BeginRetire(id, WasExpired), Advance(pid, Fails)] + Dones(pid, 3)
  }

  lemma MissedUnderWay(c: Rules, s: System, id: Uuid)
    requires Inv(c, s) && PhaseOf(s, id).Stale?
    ensures var mid := Run(c, s, [BeginRetire(id, WasExpired), Advance(s.used, Fails)]);
            && s.used in mid.procs && mid.procs == s.procs[s.used := Retiring(id, WasExpired, s.now, OpenTomb)]
            && mid.disk == s.disk && mid.now == s.now && id in mid.missed
            && mid.committed == s.committed && mid.gone == s.gone && mid.used == s.used + 1
  {
    hide Inv;
    TombstonesAreSound(c, s, id);
    var pid := s.used;
    assert [BeginRetire(id, WasExpired), Advance(pid, Fails)] == [BeginRetire(id, WasExpired)] + [Advance(pid, Fails)];
    RunCons(c, s, BeginRetire(id, WasExpired), [Advance(pid, Fails)]);
    RunOne(c, Step(c, s, BeginRetire(id, WasExpired)), Advance(pid, Fails));
    assert PastExpiry(s.disk.records[Visible(id)], s.now);
  }

  /** One failed look at an expired record, and from then on it stands beside its own tombstone. */
  lemma FailedStatLeavesBoth(c: Rules, s: System, id: Uuid)
    requires Inv(c, s) && PhaseOf(s, id).Stale? && c.tombTtl > 0 && s.now < MAX_I64
    ensures var s' := Run(c, s, ExpireUnseen(id, s.used));
            && Visible(id) in s'.disk.records && Final(id) in s'.disk.tombs
            && PhaseOf(s', id).Shadowed? && id in s'.missed
            && s'.now == s.now && s'.used == s.used + 1 && s.used in s'.procs && s'.procs == s.procs[s.used := s'.procs[s.used]]
  {
    hide Inv, Run, Step;
    TombstonesAreSound(c, s, id);
    var first := [BeginRetire(id, WasExpired), Advance(s.used, Fails)];
    MissedUnderWay(c, s, id);
    var mid := Run(c, s, first);
    RunConcat(c, s, first, Dones(s.used, 3));
    BurialEnds(c, mid, s.used, mid.procs[s.used]);
  }
}
