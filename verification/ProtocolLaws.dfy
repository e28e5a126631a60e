/** Safety of the record lifecycle in every state of every interleaving. */
module ProtocolLaws {
  import opened Basics
  import opened Cursor
  import opened Uuids
  import opened Records
  import opened Directory
  import opened Lookup
  import opened Protocol

  // ---- The invariant -----------------------------------------------------------------------

  /** Exactly the published and not yet retired records are visible, each as it was published. */
  ghost predicate RecordsOk(c: Rules, s: System) {
    && (forall id: Uuid :: Visible(id) in s.disk.records <==> id in s.committed && id !in s.gone)
    && (forall id: Uuid :: Visible(id) in s.disk.records ==> s.disk.records[Visible(id)] == DirOf(s.committed[id]))
    && (forall id: Uuid | id in s.committed :: PublicationOk(c, id, s.committed[id]))
    && s.gone <= s.committed.Keys <= s.owner.Keys
    && (forall k, id: Uuid, tag: Pid :: Hidden(k, id, tag) in s.disk.records ==> tag < s.used)
  }

  /** An accepted payload and the manifest built for it. */
  ghost predicate PublicationOk(c: Rules, id: Uuid, p: Publication) {
    c.accepts(id, p.payload) && c.build(id, p.payload, p.at) == Some(p.manifest)
  }

  /** Whoever buries a run has renamed its record away, or has failed to see one that was past its expiry. */
  predicate MayBury(s: System, id: Uuid, status: TombStatus) { id in s.gone || (id in s.missed && status == WasExpired) }

  ghost predicate TombOk(s: System, id: Uuid, file: FileState<Tombstone>) {
    file.Full? && file.content.id == id && file.content.recordedAt <= file.content.expiresAt && MayBury(s, id, file.content.status)
  }

  /** Only records past their expiry are ever missed. */
  ghost predicate MissedOk(s: System) {
    forall id: Uuid | id in s.missed :: id in s.committed && s.committed[id].manifest.expiresAt <= s.now
  }

  ghost predicate TombsOk(s: System) {
    && (forall id: Uuid :: Final(id) in s.disk.tombs ==> TombOk(s, id, s.disk.tombs[Final(id)]))
    && (forall tag: Pid :: Temp(tag) in s.disk.tombs ==> tag < s.used)
  }

  /** What a committing process has staged under its temporary name so far. */
  ghost predicate Staged(p: Proc, dir: Dir)
    requires p.Committing?
  {
    match p.cpc
    case Open(StderrFile) | Fill(StderrFile) => dir.stdout == Full(p.payload.stdout)
    case Open(ManifestFile) | Fill(ManifestFile) =>
      dir.stdout == Full(p.payload.stdout) && dir.stderr == Full(p.payload.stderr)
    case Publish =>
      && dir.stdout == Full(p.payload.stdout) && dir.stderr == Full(p.payload.stderr)
      && p.manifest.Some? && dir.manifest == Full(p.manifest.value)
    case _ => true
  }

  /** The manifest a process holds was built from its own payload. */
  ghost predicate ManifestOk(c: Rules, p: Proc)
    requires p.Committing?
  {
    if p.manifest.Some? then c.build(p.id, p.payload, p.madeAt) == p.manifest
    else p.cpc != Fill(ManifestFile) && p.cpc != Publish
  }

  predicate BeforePublish(pc: CommitPc) {
    pc.MkDir? || pc.Open? || pc.Fill? || pc.Publish?
  }

  predicate HasTemp(pc: CommitPc) {
    pc.Open? || pc.Fill? || pc.Publish?
  }

  ghost predicate CommitOk(c: Rules, s: System, pid: Pid, p: Proc)
    requires p.Committing?
  {
    var temp := Hidden(Tmp, p.id, pid);
    && c.accepts(p.id, p.payload)
    && ManifestOk(c, p)
    && (p.id in s.owner && s.owner[p.id] == pid)
    && (BeforePublish(p.cpc) ==> p.id !in s.committed)
    && (HasTemp(p.cpc) ==> temp in s.disk.records && Staged(p, s.disk.records[temp]))
    && (p.cpc in {SyncRecords, SetLast, SyncRoot, Unpublish, CleanTemp(true), Returned(true)} ==> p.id in s.committed)
    && (p.cpc == CleanFailed ==> p.id in s.gone)
  }

  ghost predicate RetireOk(c: Rules, s: System, pid: Pid, p: Proc)
    requires p.Retiring?
  {
    && p.id in s.committed
    && (p.status == WasExpired ==> s.committed[p.id].manifest.expiresAt <= p.at)
    && p.at <= s.now
    && (p.rpc == StatRecord ==> p.status == WasExpired)
    && (p.rpc == Remove ==> p.id in s.gone)
    && (p.rpc in {OpenTomb, FillTomb, RenameTomb, CleanTomb, Stopped(true)} ==> MayBury(s, p.id, p.status))
    && (p.rpc == RenameTomb && Temp(pid) in s.disk.tombs ==>
          s.disk.tombs[Temp(pid)] == Full(TombFor(c, p.id, p.status, p.at)))
  }

  /** A lookup that answered active saw what was published, in its time. */
  ghost predicate LookOk(s: System, p: Proc)
    requires p.Looking?
  {
    && p.at <= s.now
    && (p.lpc.Answered? && p.lpc.sight.SeesActive? ==>
          p.id in s.committed && p.lpc.sight.manifest == s.committed[p.id].manifest && p.at < p.lpc.sight.manifest.expiresAt)
  }

  ghost predicate ProcOk(c: Rules, s: System, pid: Pid, p: Proc) {
    pid < s.used &&
    match p
    case Committing(_, _, _, _, _) => CommitOk(c, s, pid, p)
    case Retiring(_, _, _, _) => RetireOk(c, s, pid, p)
    case Looking(_, _, _) => LookOk(s, p)
  }

  ghost predicate ProcsOk(c: Rules, s: System) {
    && (forall pid | pid in s.procs :: ProcOk(c, s, pid, s.procs[pid]))
    && (forall id: Uuid | id in s.owner :: s.owner[id] < s.used)
  }

  ghost predicate Inv(c: Rules, s: System) {
    RecordsOk(c, s) && TombsOk(s) && MissedOk(s) && ProcsOk(c, s)
  }

  lemma InitialInv(c: Rules, now: i64)
    ensures Inv(c, Initial(now))
  {
  }

  // ---- One action keeps it ------------------------------------------------------------------

  /** The parts of the state that another process relies on, seen from process pid. */
  ghost predicate Undisturbed(s: System, s': System, pid: Pid) {
    && (forall k, id: Uuid :: Hidden(k, id, pid) in s.disk.records ==>
          Hidden(k, id, pid) in s'.disk.records && s'.disk.records[Hidden(k, id, pid)] == s.disk.records[Hidden(k, id, pid)])
    && (Temp(pid) in s'.disk.tombs ==> Temp(pid) in s.disk.tombs && s'.disk.tombs[Temp(pid)] == s.disk.tombs[Temp(pid)])
    && (forall id: Uuid | id in s'.committed && id !in s.committed :: id in s.owner && s.owner[id] != pid)
  }

  /** What was once published, or retired, or begun, stays so. */
  ghost predicate Grows(s: System, s': System) {
    && s.used <= s'.used
    && s.now <= s'.now
    && s.gone <= s'.gone && s.missed <= s'.missed
    && (forall id: Uuid | id in s.committed :: id in s'.committed && s'.committed[id] == s.committed[id])
    && (forall id: Uuid | id in s.owner :: id in s'.owner && s'.owner[id] == s.owner[id])
  }

  lemma OthersStayOk(c: Rules, s: System, s': System, pid: Pid, p: Proc)
    requires ProcOk(c, s, pid, p) && Grows(s, s') && Undisturbed(s, s', pid)
    ensures ProcOk(c, s', pid, p)
  {
  }

  /** One process moved, and every other is undisturbed. */
  lemma Assemble(c: Rules, s: System, s': System, pid: Pid)
    requires Inv(c, s) && Grows(s, s')
    requires RecordsOk(c, s') && TombsOk(s') && MissedOk(s')
    requires forall q | q in s'.procs && q != pid :: q in s.procs && s'.procs[q] == s.procs[q] && Undisturbed(s, s', q)
    requires pid in s'.procs ==> ProcOk(c, s', pid, s'.procs[pid])
    requires forall id: Uuid | id in s'.owner :: s'.owner[id] < s'.used
    ensures Inv(c, s')
  {
    forall q | q in s'.procs
      ensures ProcOk(c, s', q, s'.procs[q])
    {
      if q != pid {
        OthersStayOk(c, s, s', q, s.procs[q]);
      }
    }
  }

  // What the parts of the invariant depend on.
  lemma RecordsStay(c: Rules, s: System, s': System)
    requires RecordsOk(c, s) && s'.disk.records == s.disk.records && s'.committed == s.committed && s'.gone == s.gone
    requires s.owner.Keys <= s'.owner.Keys && s.used <= s'.used
    ensures RecordsOk(c, s')
  {
  }

  lemma TombsStay(s: System, s': System)
    requires TombsOk(s) && s.gone <= s'.gone && s.missed <= s'.missed && s.used <= s'.used
    requires forall n | n in s'.disk.tombs :: n in s.disk.tombs && s'.disk.tombs[n] == s.disk.tombs[n]
    ensures TombsOk(s')
  {
  }

  lemma MissedStay(s: System, s': System)
    requires MissedOk(s) && s'.committed == s.committed && s'.missed == s.missed && s.now <= s'.now
    ensures MissedOk(s')
  {
  }

  lemma PartsStay(c: Rules, s: System, s': System)
    requires RecordsOk(c, s) && TombsOk(s) && MissedOk(s)
    requires s'.disk == s.disk && s'.committed == s.committed && s'.gone == s.gone && s'.missed == s.missed
    requires s.owner.Keys <= s'.owner.Keys && s.used <= s'.used && s.now <= s'.now
    ensures RecordsOk(c, s') && TombsOk(s') && MissedOk(s')
  {
    hide RecordsOk, TombsOk, MissedOk;
    RecordsStay(c, s, s');
    TombsStay(s, s');
    MissedStay(s, s');
  }

  // A step that leaves visible names, tombstones and history alone.
  lemma HiddenWork(c: Rules, s: System, s': System, pid: Pid)
    requires Inv(c, s) && pid in s.procs && pid in s'.procs
    requires s' == s.(disk := s'.disk, procs := s.procs[pid := s'.procs[pid]])
    requires s'.disk.tombs == s.disk.tombs
    requires forall name | name in s.disk.records || name in s'.disk.records ::
               (name.Visible? || name.tag != pid) ==>
                 name in s.disk.records && name in s'.disk.records && s'.disk.records[name] == s.disk.records[name]
    requires ProcOk(c, s', pid, s'.procs[pid])
    ensures Inv(c, s') && Grows(s, s')
  {
    Assemble(c, s, s', pid);
  }

  lemma PreparedProcOk(c: Rules, s: System, pid: Pid, p: Proc, o: Outcome)
    requires pid in s.procs && s.procs[pid] == p && p.Committing? && ProcOk(c, s, pid, p)
    requires p.cpc.MkDir? || p.cpc.Open? || p.cpc.Fill?
    ensures var s' := Prepare(c, s, pid, p, o); pid in s'.procs && ProcOk(c, s', pid, s'.procs[pid])
  {
  }

  lemma CommitPrepares(c: Rules, s: System, pid: Pid, p: Proc, o: Outcome)
    requires Inv(c, s) && pid in s.procs && s.procs[pid] == p && p.Committing?
    requires p.cpc.MkDir? || p.cpc.Open? || p.cpc.Fill?
    ensures Inv(c, Prepare(c, s, pid, p, o)) && Grows(s, Prepare(c, s, pid, p, o))
  {
    assert ProcOk(c, s, pid, p);
    hide ProcOk, Opened, Filled, RecordsOk, TombsOk, MissedOk;
    PreparedProcOk(c, s, pid, p, o);
    HiddenWork(c, s, Prepare(c, s, pid, p, o), pid);
  }

  lemma SettledProcOk(c: Rules, s: System, pid: Pid, p: Proc, o: Outcome)
    requires pid in s.procs && s.procs[pid] == p && p.Committing? && ProcOk(c, s, pid, p)
    requires p.cpc.SyncRecords? || p.cpc.SetLast? || p.cpc.SyncRoot? || p.cpc.CleanTemp? || p.cpc.CleanFailed? || p.cpc.Returned?
    ensures var s' := Settle(s, pid, p, o); pid in s'.procs && ProcOk(c, s', pid, s'.procs[pid])
  {
  }

  lemma CommitSettles(c: Rules, s: System, pid: Pid, p: Proc, o: Outcome)
    requires Inv(c, s) && pid in s.procs && s.procs[pid] == p && p.Committing?
    requires p.cpc.SyncRecords? || p.cpc.SetLast? || p.cpc.SyncRoot? || p.cpc.CleanTemp? || p.cpc.CleanFailed? || p.cpc.Returned?
    ensures Inv(c, Settle(s, pid, p, o)) && Grows(s, Settle(s, pid, p, o))
  {
    assert ProcOk(c, s, pid, p);
    SettledProcOk(c, s, pid, p, o);
    HiddenWork(c, s, Settle(s, pid, p, o), pid);
  }

  // What stands under the temporary name at the moment of publication is the whole record.
  lemma PublishKeepsRecords(c: Rules, s: System, pid: Pid, p: Proc, o: Outcome)
    requires RecordsOk(c, s) && pid in s.procs && s.procs[pid] == p && p.Committing? && p.cpc == Publish
    requires ProcOk(c, s, pid, p)
    ensures RecordsOk(c, PublishRecord(s, pid, p, o))
  {
    assert s.disk.records[Hidden(Tmp, p.id, pid)] == DirOf(Publication(p.payload, p.manifest.value, p.madeAt));
  }

  lemma PublishedProcOk(c: Rules, s: System, pid: Pid, p: Proc, o: Outcome)
    requires pid in s.procs && s.procs[pid] == p && p.Committing? && p.cpc == Publish && ProcOk(c, s, pid, p)
    ensures var s' := PublishRecord(s, pid, p, o); pid in s'.procs && ProcOk(c, s', pid, s'.procs[pid])
  {
  }

  // No other process begins the run id that is published.
  lemma PublishUndisturbs(c: Rules, s: System, pid: Pid, p: Proc, o: Outcome, q: Pid)
    requires pid in s.procs && s.procs[pid] == p && p.Committing? && p.cpc == Publish && ProcOk(c, s, pid, p) && q != pid
    ensures Undisturbed(s, PublishRecord(s, pid, p, o), q)
  {
    hide PublicationOk, DirOf, Staged;
  }

  lemma PublishGrows(c: Rules, s: System, pid: Pid, p: Proc, o: Outcome)
    requires p.Committing? && p.cpc == Publish && ProcOk(c, s, pid, p)
    ensures var s' := PublishRecord(s, pid, p, o);
            && Grows(s, s') && s'.owner == s.owner && s'.used == s.used
            && pid in s'.procs && s'.procs == s.procs[pid := s'.procs[pid]]
  {
    hide PublicationOk, DirOf, Staged;
  }

  lemma PublishKeepsRest(c: Rules, s: System, pid: Pid, p: Proc, o: Outcome)
    requires Inv(c, s) && pid in s.procs && s.procs[pid] == p && p.Committing? && p.cpc == Publish
    ensures TombsOk(PublishRecord(s, pid, p, o)) && MissedOk(PublishRecord(s, pid, p, o))
  {
    hide PublicationOk, DirOf, RecordsOk;
    assert ProcOk(c, s, pid, p);
  }

  lemma CommitPublishes(c: Rules, s: System, pid: Pid, p: Proc, o: Outcome)
    requires Inv(c, s) && pid in s.procs && s.procs[pid] == p && p.Committing? && p.cpc == Publish
    ensures Inv(c, PublishRecord(s, pid, p, o)) && Grows(s, PublishRecord(s, pid, p, o))
  {
    hide PublishRecord, RecordsOk, TombsOk, MissedOk, ProcOk, Undisturbed, Grows;
    var s' := PublishRecord(s, pid, p, o);
    assert ProcOk(c, s, pid, p);
    PublishKeepsRecords(c, s, pid, p, o);
    PublishKeepsRest(c, s, pid, p, o);
    PublishedProcOk(c, s, pid, p, o);
    PublishGrows(c, s, pid, p, o);
    forall q | q in s'.procs && q != pid
      ensures q in s.procs && s'.procs[q] == s.procs[q] && Undisturbed(s, s', q)
    {
      PublishUndisturbs(c, s, pid, p, o, q);
    }
    Assemble(c, s, s', pid);
  }

  // A visible record leaves under a name of the process that moves it.
  lemma Retires(c: Rules, s: System, s': System, pid: Pid, id: Uuid, k: Kind)
    requires Inv(c, s) && pid in s.procs && pid in s'.procs
    requires Visible(id) in s.disk.records
    requires s' == s.(disk := Moved(s.disk, Visible(id), Hidden(k, id, pid)), procs := s.procs[pid := s'.procs[pid]], gone := s.gone + {id})
    requires ProcOk(c, s', pid, s'.procs[pid])
    ensures Inv(c, s') && Grows(s, s')
  {
    assert RecordsOk(c, s');
    Assemble(c, s, s', pid);
  }

  lemma CommitUnpublishes(c: Rules, s: System, pid: Pid, p: Proc, o: Outcome)
    requires Inv(c, s) && pid in s.procs && s.procs[pid] == p && p.Committing? && p.cpc == Unpublish
    ensures Inv(c, UnpublishRecord(s, pid, p, o)) && Grows(s, UnpublishRecord(s, pid, p, o))
  {
    var s' := UnpublishRecord(s, pid, p, o);
    assert ProcOk(c, s, pid, p);
    assert ProcOk(c, s', pid, s'.procs[pid]);
    if o.Done? && Visible(p.id) in s.disk.records {
      Retires(c, s, s', pid, p.id, Failed);
    } else {
      HiddenWork(c, s, s', pid);
    }
  }

  lemma RetireRenames(c: Rules, s: System, pid: Pid, p: Proc, o: Outcome)
    requires Inv(c, s) && pid in s.procs && s.procs[pid] == p && p.Retiring? && (p.rpc == Rename || p.rpc == Remove)
    ensures Inv(c, RemoveRecord(s, pid, p, o)) && Grows(s, RemoveRecord(s, pid, p, o))
  {
    var s' := RemoveRecord(s, pid, p, o);
    assert ProcOk(c, s, pid, p);
    assert ProcOk(c, s', pid, s'.procs[pid]);
    if p.rpc == Rename && o.Done? && Visible(p.id) in s.disk.records {
      Retires(c, s, s', pid, p.id, TrashKind(p.status));
    } else {
      HiddenWork(c, s, s', pid);
    }
  }

  // A record that is missed was past its expiry when the expiry began.
  lemma MissedIsPast(c: Rules, s: System, s': System, p: Proc)
    requires MissedOk(s) && p.Retiring? && p.id in s.committed && s.committed[p.id].manifest.expiresAt <= s.now
    requires s'.committed == s.committed && s'.missed == s.missed + {p.id} && s'.now == s.now
    ensures MissedOk(s')
  {
  }

  lemma SoughtProcOk(c: Rules, s: System, pid: Pid, p: Proc, o: Outcome)
    requires RecordsOk(c, s) && pid in s.procs && s.procs[pid] == p && p.Retiring? && p.rpc == StatRecord && ProcOk(c, s, pid, p)
    ensures var s' := SeekExpired(s, pid, p, o);
            && s' == s.(procs := s.procs[pid := s'.procs[pid]], missed := s'.missed)
            && (s'.missed == s.missed || s'.missed == s.missed + {p.id})
            && pid in s'.procs && ProcOk(c, s', pid, s'.procs[pid])
            && p.id in s.committed && s.committed[p.id].manifest.expiresAt <= s.now
  {
    hide DirOf, PublicationOk;
  }

  lemma RetireSeeks(c: Rules, s: System, pid: Pid, p: Proc, o: Outcome)
    requires Inv(c, s) && pid in s.procs && s.procs[pid] == p && p.Retiring? && p.rpc == StatRecord
    ensures Inv(c, SeekExpired(s, pid, p, o)) && Grows(s, SeekExpired(s, pid, p, o))
  {
    hide RecordsOk, TombsOk, MissedOk, CommitOk, RetireOk, LookOk, SeekExpired;
    var s' := SeekExpired(s, pid, p, o);
    assert ProcOk(c, s, pid, p);
    SoughtProcOk(c, s, pid, p, o);
    RecordsStay(c, s, s');
    TombsStay(s, s');
    if s'.missed == s.missed {
      MissedStay(s, s');
    } else {
      MissedIsPast(c, s, s', p);
    }
    Assemble(c, s, s', pid);
  }

  predicate IsBurying(p: Proc)
    requires p.Retiring?
  {
    p.rpc != StatRecord && p.rpc != Rename && p.rpc != Remove
  }

  // A tombstone is written only by a process that may bury, under its own temporary name.
  lemma BuryKeepsTombs(c: Rules, s: System, pid: Pid, p: Proc, o: Outcome)
    requires TombsOk(s) && p.Retiring? && IsBurying(p) && ProcOk(c, s, pid, p)
    ensures TombsOk(Bury(c, s, pid, p, o))
    ensures Bury(c, s, pid, p, o).disk.records == s.disk.records
    ensures forall q: Pid | q != pid ::
              Temp(q) in Bury(c, s, pid, p, o).disk.tombs ==>
                Temp(q) in s.disk.tombs && Bury(c, s, pid, p, o).disk.tombs[Temp(q)] == s.disk.tombs[Temp(q)]
  {
  }

  lemma TombWork(c: Rules, s: System, s': System, pid: Pid)
    requires Inv(c, s) && pid in s.procs && pid in s'.procs
    requires s' == s.(disk := s'.disk, procs := s.procs[pid := s'.procs[pid]])
    requires s'.disk.records == s.disk.records && TombsOk(s')
    requires forall q: Pid | q != pid :: Temp(q) in s'.disk.tombs ==>
               Temp(q) in s.disk.tombs && s'.disk.tombs[Temp(q)] == s.disk.tombs[Temp(q)]
    requires ProcOk(c, s', pid, s'.procs[pid])
    ensures Inv(c, s') && Grows(s, s')
  {
    Assemble(c, s, s', pid);
  }

  lemma BuriedProcOk(c: Rules, s: System, pid: Pid, p: Proc, o: Outcome)
    requires pid in s.procs && s.procs[pid] == p && p.Retiring? && IsBurying(p) && ProcOk(c, s, pid, p)
    ensures var s' := Bury(c, s, pid, p, o);
            && pid in s'.procs && ProcOk(c, s', pid, s'.procs[pid])
            && s' == s.(disk := s'.disk, procs := s.procs[pid := s'.procs[pid]])
  {
  }

  lemma RetireBuries(c: Rules, s: System, pid: Pid, p: Proc, o: Outcome)
    requires Inv(c, s) && pid in s.procs && s.procs[pid] == p && p.Retiring? && IsBurying(p)
    ensures Inv(c, Bury(c, s, pid, p, o)) && Grows(s, Bury(c, s, pid, p, o))
  {
    assert ProcOk(c, s, pid, p);
    BuryKeepsTombs(c, s, pid, p, o);
    BuriedProcOk(c, s, pid, p, o);
    TombWork(c, s, Bury(c, s, pid, p, o), pid);
  }

  // A process begins, and nothing else happens.
  lemma Begins(c: Rules, s: System, s': System, p: Proc)
    requires Inv(c, s) && s' == s.(procs := s.procs[s.used := p], used := s.used + 1, owner := s'.owner)
    requires forall id: Uuid | id in s.owner :: id in s'.owner && s'.owner[id] == s.owner[id]
    requires forall id: Uuid | id in s'.owner :: s'.owner[id] <= s.used
    requires ProcOk(c, s', s.used, p)
    ensures Inv(c, s') && Grows(s, s')
  {
    assert s.owner.Keys <= s'.owner.Keys;
    hide RecordsOk, TombsOk, MissedOk, ProcOk;
    PartsStay(c, s, s');
    Assemble(c, s, s', s.used);
  }

  lemma BeginCommitOk(c: Rules, s: System, id: Uuid, payload: Payload)
    requires Inv(c, s)
    ensures Inv(c, Step(c, s, BeginCommit(id, payload))) && Grows(s, Step(c, s, BeginCommit(id, payload)))
  {
    assert id in s.committed ==> id in s.owner;
    hide AdvanceProc, RecordsOk, TombsOk, MissedOk;
    var s' := Step(c, s, BeginCommit(id, payload));
    if s' != s {
      Begins(c, s, s', Committing(id, payload, None, s.now, MkDir));
    }
  }

  lemma BeginRetireOk(c: Rules, s: System, id: Uuid, status: TombStatus)
    requires Inv(c, s)
    ensures Inv(c, Step(c, s, BeginRetire(id, status))) && Grows(s, Step(c, s, BeginRetire(id, status)))
  {
    assert Visible(id) in s.disk.records ==> id in s.committed && s.disk.records[Visible(id)] == DirOf(s.committed[id]);
    hide AdvanceProc, RecordsOk, TombsOk, MissedOk;
    var s' := Step(c, s, BeginRetire(id, status));
    if s' != s {
      Begins(c, s, s', Retiring(id, status, s.now, FirstStep(status)));
    }
  }

  lemma BeginLookupOk(c: Rules, s: System, id: Uuid)
    requires Inv(c, s)
    ensures Inv(c, Step(c, s, BeginLookup(id))) && Grows(s, Step(c, s, BeginLookup(id)))
  {
    hide AdvanceProc, RecordsOk, TombsOk, MissedOk;
    Begins(c, s, Step(c, s, BeginLookup(id)), Looking(id, s.now, SeekTomb));
  }

  lemma OthersOk(c: Rules, s: System, a: Action)
    requires Inv(c, s) && (a.Tick? || a.Crash? || a.DropTomb?)
    ensures Inv(c, Step(c, s, a)) && Grows(s, Step(c, s, a))
  {
    hide AdvanceProc, RecordsOk, TombsOk, MissedOk, CommitOk, RetireOk, LookOk;
    var s' := Step(c, s, a);
    RecordsStay(c, s, s');
    TombsStay(s, s');
    MissedStay(s, s');
    Assemble(c, s, s', s.used);
  }

  lemma LookupMovesItself(s: System, pid: Pid, p: Proc, o: Outcome)
    requires pid in s.procs && s.procs[pid] == p && p.Looking?
    ensures var s' := AdvanceLookup(s, pid, p, o);
            && pid in s'.procs && s' == s.(disk := s'.disk, procs := s.procs[pid := s'.procs[pid]])
            && (s'.disk == s.disk || s'.disk == WithoutTomb(s.disk, Final(p.id)))
  {
    hide ViewRecord, TombstoneAt, WithoutTomb;
  }

  // What a lookup answers active is the published manifest, because only that stands under the id.
  lemma ReadingIsOk(c: Rules, s: System, pid: Pid, p: Proc, o: Outcome)
    requires RecordsOk(c, s) && p.Looking? && ProcOk(c, s, pid, p)
    ensures var s' := ReadRecord(s, pid, p, o); pid in s'.procs && ProcOk(c, s', pid, s'.procs[pid])
  {
    hide PublicationOk;
    if Visible(p.id) in s.disk.records {
      assert s.disk.records[Visible(p.id)] == DirOf(s.committed[p.id]);
    }
  }

  lemma LookedProcOk(c: Rules, s: System, pid: Pid, p: Proc, o: Outcome)
    requires RecordsOk(c, s) && pid in s.procs && s.procs[pid] == p && p.Looking? && ProcOk(c, s, pid, p)
    ensures var s' := AdvanceLookup(s, pid, p, o); pid in s'.procs && ProcOk(c, s', pid, s'.procs[pid])
  {
    hide RecordsOk, ReadRecord, TombstoneAt;
    if p.lpc == SeekManifest {
      ReadingIsOk(c, s, pid, p, o);
    }
  }

  lemma LookupSteps(c: Rules, s: System, pid: Pid, p: Proc, o: Outcome)
    requires Inv(c, s) && pid in s.procs && s.procs[pid] == p && p.Looking?
    ensures Inv(c, AdvanceLookup(s, pid, p, o)) && Grows(s, AdvanceLookup(s, pid, p, o))
  {
    hide AdvanceLookup, RecordsOk, TombsOk, MissedOk, CommitOk, RetireOk, LookOk;
    var s' := AdvanceLookup(s, pid, p, o);
    assert ProcOk(c, s, pid, p);
    LookupMovesItself(s, pid, p, o);
    LookedProcOk(c, s, pid, p, o);
    RecordsStay(c, s, s');
    TombsStay(s, s');
    MissedStay(s, s');
    Assemble(c, s, s', pid);
  }

  lemma RetireSteps(c: Rules, s: System, pid: Pid, p: Proc, o: Outcome)
    requires Inv(c, s) && pid in s.procs && s.procs[pid] == p && p.Retiring?
    ensures Inv(c, AdvanceRetire(c, s, pid, p, o)) && Grows(s, AdvanceRetire(c, s, pid, p, o))
  {
    hide Inv, Grows, SeekExpired, RemoveRecord, Bury;
    if p.rpc == StatRecord {
      RetireSeeks(c, s, pid, p, o);
    } else if p.rpc == Rename || p.rpc == Remove {
      RetireRenames(c, s, pid, p, o);
    } else {
      RetireBuries(c, s, pid, p, o);
    }
  }

  lemma CommitSteps(c: Rules, s: System, pid: Pid, p: Proc, o: Outcome)
    requires Inv(c, s) && pid in s.procs && s.procs[pid] == p && p.Committing?
    ensures Inv(c, AdvanceCommit(c, s, pid, p, o)) && Grows(s, AdvanceCommit(c, s, pid, p, o))
  {
    hide Inv, Grows, Prepare, PublishRecord, UnpublishRecord, Settle;
    if p.cpc.MkDir? || p.cpc.Open? || p.cpc.Fill? {
      CommitPrepares(c, s, pid, p, o);
    } else if p.cpc == Publish {
      CommitPublishes(c, s, pid, p, o);
    } else if p.cpc == Unpublish {
      CommitUnpublishes(c, s, pid, p, o);
    } else {
      CommitSettles(c, s, pid, p, o);
    }
  }

  lemma AdvanceKeepsInv(c: Rules, s: System, pid: Pid, p: Proc, o: Outcome)
    requires Inv(c, s) && pid in s.procs && s.procs[pid] == p
    ensures Inv(c, AdvanceProc(c, s, pid, p, o)) && Grows(s, AdvanceProc(c, s, pid, p, o))
  {
    hide Inv, Grows, AdvanceCommit, AdvanceRetire, AdvanceLookup;
    match p
    case Committing(_, _, _, _, _) => CommitSteps(c, s, pid, p, o);
    case Retiring(_, _, _, _) => RetireSteps(c, s, pid, p, o);
    case Looking(_, _, _) => LookupSteps(c, s, pid, p, o);
  }

  /** Every action of every process, successful or not, keeps the invariant and forgets nothing. */
  lemma StepKeepsInv(c: Rules, s: System, a: Action)
    requires Inv(c, s)
    ensures Inv(c, Step(c, s, a)) && Grows(s, Step(c, s, a))
  {
    match a
    case Advance(pid, o) =>
      if pid in s.procs {
        AdvanceKeepsInv(c, s, pid, s.procs[pid], o);
      }
    case BeginCommit(id, payload) => BeginCommitOk(c, s, id, payload);
    case BeginRetire(id, status) => BeginRetireOk(c, s, id, status);
    case BeginLookup(id) => BeginLookupOk(c, s, id);
    case _ => OthersOk(c, s, a);
  }

  lemma {:induction false} RunKeepsInv(c: Rules, s: System, actions: seq<Action>)
    requires Inv(c, s)
    ensures Inv(c, Run(c, s, actions)) && Grows(s, Run(c, s, actions))
    decreases |actions|
  {
    if actions != [] {
      StepKeepsInv(c, s, actions[0]);
      RunKeepsInv(c, Step(c, s, actions[0]), actions[1..]);
    }
  }

  lemma {:induction false} RunSnoc(c: Rules, s: System, log: seq<Action>, a: Action)
    ensures Run(c, s, log + [a]) == Step(c, Run(c, s, log), a)
    decreases |log|
  {
    if log == [] {
      assert log + [a] == [a] && [a][1..] == [];
    } else {
      assert (log + [a])[1..] == log[1..] + [a];
      RunSnoc(c, Step(c, s, log[0]), log[1..], a);
    }
  }

  lemma {:induction false} RunConcat(c: Rules, s: System, first: seq<Action>, second: seq<Action>)
    ensures Run(c, s, first + second) == Run(c, Run(c, s, first), second)
    decreases |first|
  {
    hide Step;
    if first == [] {
      assert first + second == second;
    } else {
      assert (first + second)[0] == first[0] && (first + second)[1..] == first[1..] + second;
      RunConcat(c, Step(c, s, first[0]), first[1..], second);
    }
  }

  lemma RunOne(c: Rules, s: System, a: Action)
    ensures Run(c, s, [a]) == Step(c, s, a)
  {
    hide Step;
    assert [a][1..] == [];
  }

  // ---- What a step leaves alone ------------------------------------------------------------

  // What a step of a process can do to another: nothing to its state, and to the tombstones only this.
  ghost predicate StepsAside(s: System, s': System, pid: Pid, p: Proc) {
    && s'.now == s.now && s'.gone >= s.gone && pid in s'.procs && s'.procs == s.procs[pid := s'.procs[pid]]
    && (forall q: Pid | q != pid && Temp(q) in s'.disk.tombs :: Temp(q) in s.disk.tombs)
    && (forall id: Uuid | Final(id) in s'.disk.tombs && !(p.Retiring? && p.rpc == RenameTomb && p.id == id) ::
          Final(id) in s.disk.tombs && s'.disk.tombs[Final(id)] == s.disk.tombs[Final(id)])
  }

  lemma CommitStepsAside(c: Rules, s: System, pid: Pid, p: Proc, o: Outcome)
    requires pid in s.procs && s.procs[pid] == p && p.Committing?
    ensures StepsAside(s, AdvanceCommit(c, s, pid, p, o), pid, p)
  {
    hide AdvanceCommit;
    CommitLeavesTombs(c, s, pid, p, o);
  }

  lemma CommitLeavesTombs(c: Rules, s: System, pid: Pid, p: Proc, o: Outcome)
    requires pid in s.procs && s.procs[pid] == p && p.Committing?
    ensures var s' := AdvanceCommit(c, s, pid, p, o);
            && s'.now == s.now && s'.gone >= s.gone && s'.disk.tombs == s.disk.tombs
            && pid in s'.procs && s'.procs == s.procs[pid := s'.procs[pid]]
  {
    hide Opened, Filled;
    if p.cpc.MkDir? || p.cpc.Open? || p.cpc.Fill? {
      hide PublishRecord, UnpublishRecord, Settle;
    } else if p.cpc == Publish || p.cpc == Unpublish {
      hide Prepare, Settle;
    } else {
      hide Prepare, PublishRecord, UnpublishRecord;
    }
  }

  lemma RetireStepsAside(c: Rules, s: System, pid: Pid, p: Proc, o: Outcome)
    requires pid in s.procs && s.procs[pid] == p && p.Retiring?
    ensures StepsAside(s, AdvanceRetire(c, s, pid, p, o), pid, p)
  {
    hide TombFor;
    if !IsBurying(p) {
      assert AdvanceRetire(c, s, pid, p, o).disk.tombs == s.disk.tombs;
    }
  }

  lemma LookStepsAside(c: Rules, s: System, pid: Pid, p: Proc, o: Outcome)
    requires pid in s.procs && s.procs[pid] == p && p.Looking?
    ensures StepsAside(s, AdvanceLookup(s, pid, p, o), pid, p)
  {
    hide ViewRecord, TombstoneAt;
  }

  lemma AdvanceStepsAside(c: Rules, s: System, pid: Pid, p: Proc, o: Outcome)
    requires pid in s.procs && s.procs[pid] == p
    ensures StepsAside(s, AdvanceProc(c, s, pid, p, o), pid, p)
  {
    hide StepsAside, AdvanceCommit, AdvanceRetire, AdvanceLookup;
    match p
    case Committing(_, _, _, _, _) => CommitStepsAside(c, s, pid, p, o);
    case Retiring(_, _, _, _) => RetireStepsAside(c, s, pid, p, o);
    case Looking(_, _, _) => LookStepsAside(c, s, pid, p, o);
  }

  /** A process moves only by its own steps, and new processes are new. */
  lemma ProcsStand(c: Rules, s: System, a: Action, pid: Pid)
    requires Inv(c, s) && pid in s.procs && !(a.Advance? && a.pid == pid)
    ensures var s' := Step(c, s, a);
            pid in s'.procs ==> s'.procs[pid] == s.procs[pid]
    ensures (a.Crash? && a.pid == pid) || pid in Step(c, s, a).procs
  {
    hide AdvanceProc, RecordsOk, TombsOk, MissedOk, CommitOk, RetireOk, LookOk;
    assert ProcOk(c, s, pid, s.procs[pid]);
    if a.Advance? && a.pid in s.procs {
      AdvanceStepsAside(c, s, a.pid, s.procs[a.pid], a.outcome);
    }
  }
}
