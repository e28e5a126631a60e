/** What the operations of the store rely on and say: runs of the protocol, sums over records, one visible record. */
module StoreLaws {
  import opened Basics
  import opened Uuids
  import opened Records
  import opened Directory
  import opened Protocol
  import opened ProtocolLaws
  import opened Lookup
  import opened Lifecycle
  import opened Usage
  import opened Quota
  import Cursor
  import Envelope
  import LineIndex
  import Utf8
  import Retrieve
  import Search
  import SearchLaws

  /** The state the protocol is in after the logged actions keeps every invariant. */
  lemma Reached(c: Rules, start: i64, log: seq<Action>)
    ensures Inv(c, Run(c, Initial(start), log))
  {
    InitialInv(c, start);
    RunKeepsInv(c, Initial(start), log);
  }

  /**
   What a store has seen: calls that failed, and those of them that were passed over; time limits that ran out, records
   missed, removals refused, directories given up, and what is hidden.
   */
  datatype Ledger = Ledger(log: seq<Action>, clock: i64, faults: nat, passed: nat, cuts: nat, misses: nat, refusals: nat, strays: nat,
                           hidden: map<Name, Dir>)

  ghost predicate Advances(a: Ledger, b: Ledger) {
    && a.log <= b.log && a.clock <= b.clock && a.cuts <= b.cuts
    && 0 <= b.misses - a.misses <= b.passed - a.passed <= b.faults - a.faults
    && 0 <= b.strays - a.strays <= b.refusals - a.refusals <= b.faults - a.faults
  }

  ghost predicate Follows(a: Ledger, b: Ledger) {
    Advances(a, b) && Within(a.hidden, b.hidden) && (a.faults == b.faults ==> b.hidden == a.hidden)
  }

  lemma FollowsSelf(a: Ledger)
    ensures Follows(a, a)
  {
  }

  lemma FollowsOn(a: Ledger, b: Ledger, d: Ledger)
    requires Follows(a, b) && Follows(b, d)
    ensures Follows(a, d)
    ensures a.log <= b.log <= d.log && a.clock <= b.clock <= d.clock && a.faults <= b.faults <= d.faults && a.cuts <= b.cuts <= d.cuts
    ensures 0 <= b.misses - a.misses <= b.passed - a.passed <= b.faults - a.faults
    ensures 0 <= d.misses - b.misses <= d.passed - b.passed <= d.faults - b.faults
  {
    WithinOn(a.hidden, b.hidden, d.hidden);
  }

  /** What the store has seen grew, and what is hidden did not change. */
  lemma FollowsQuietly(a: Ledger, b: Ledger)
    requires Advances(a, b) && b.hidden == a.hidden
    ensures Follows(a, b)
  {
  }

  /** It is enough to count what is hidden. */
  lemma FollowsCounted(a: Ledger, b: Ledger)
    requires Advances(a, b) && Within(a.hidden, b.hidden) && |a.hidden| == a.strays && |b.hidden| == b.strays
    ensures Follows(a, b)
  {
    SameSize(a.hidden, b.hidden);
  }

  const SWEEP_RECORD_LIMIT := 100

  predicate HasExpired(dir: Dir, now: i64) {
    ReadManifest(dir).Some? && now >= ReadManifest(dir).value.expiresAt
  }

  /** What is left are records there were, unchanged, and what is missing had expired. */
  ghost predicate OnlyExpiredLeft(before: map<Name, Dir>, after: map<Name, Dir>, now: i64) {
    Within(after, before) && forall n | n in before && n !in after :: PastExpiry(before[n], now)
  }

  lemma NothingLeft(records: map<Name, Dir>, now: i64)
    ensures OnlyExpiredLeft(records, records, now)
  {
  }

  /** The whole record of this payload, made at this time and kept for its lifetime, or to the end of time. */
  ghost predicate Holds(c: Config, id: Uuid, dir: Dir, payload: Payload, at: i64) {
    && Whole(id, dir)
    && dir.stdout == Full(payload.stdout) && dir.stderr == Full(payload.stderr)
    && dir.manifest.content.stats == payload.stats && dir.manifest.content.commandKind == payload.commandKind
    && dir.manifest.content.createdAt == at
    && dir.manifest.content.expiresAt == (if at + c.ttl > MAX_I64 then MAX_I64 else at + c.ttl)
  }

  /** command_kind and stats leave 650 bytes of the reservation, which is always enough for the rest. */
  predicate FitsReservation(p: Payload) {
    |p.commandKind| + |p.stats.json| + FRAME_BYTES <= MANIFEST_OVERHEAD_BYTES
  }

  /** Both streams are within their limit and fit a line index. */
  predicate Indexable(p: Payload) {
    && |p.stdout| <= LineIndex.MAX_STREAM_BYTES && |p.stderr| <= LineIndex.MAX_STREAM_BYTES
    && LineIndex.BuildIndex(p.stdout).Ok? && LineIndex.BuildIndex(p.stderr).Ok?
  }

  /** The admission test of `commit` on what is visible. */
  ghost predicate HasRoom(c: Config, records: map<Name, Dir>, newBytes: nat) {
    |records| < c.maxRecords && TotalBytes(records) + newBytes <= c.maxTotal
  }

  /** Nothing about the payload or the room stands against storing it. */
  ghost predicate Storable(c: Config, records: map<Name, Dir>, p: Payload) {
    Indexable(p) && HasRoom(c, records, EstimatedRecordBytes(p.stdout, p.stderr))
  }

  /**
   Why a commit is refused: its run id is not one, or its texts are too long, or there was no room for it, not even
   after a sweep, which left expired records only past its bound, for its time limit, or where calls failed.
   */
  ghost predicate RefusedFor(c: Config, before: Disk, after: Disk, p: Payload, now: i64, e: Error, failed: int, cut: bool) {
    if ParseUuid(p.stats.runId).None? then e == InvalidInput
    else
      && e == StorageFull && !Storable(c, VisibleOf(before), p)
      && (Indexable(p) ==>
            && !HasRoom(c, VisibleOf(after), EstimatedRecordBytes(p.stdout, p.stderr))
            && (!cut ==> |Past(VisibleOf(after), now)| <= Over(|before.records|, SWEEP_RECORD_LIMIT) + failed))
  }

  /** No run was begun but that of the payload. */
  ghost predicate BeginsOnly(before: map<Uuid, Pid>, after: map<Uuid, Pid>, p: Payload) {
    var id := ParseUuid(p.stats.runId);
    if id.Some? then after.Keys <= before.Keys + {id.value} else after == before
  }

  /** The payload names its run, and its record was admitted and added. */
  ghost predicate Stored(c: Config, before: map<Name, Dir>, d: Disk, p: Payload, at: i64) {
    var id := ParseUuid(p.stats.runId);
    id.Some? && AdmittedAfterSweep(c, before, d, id.value, p, at, at)
  }

  ghost predicate Confirmed(c: Config, d: Disk, now: i64, expiry: i64, p: Payload) {
    var id := ParseUuid(p.stats.runId);
    id.Some? && Announced(c, d, id.value, now, expiry, p)
  }

  lemma OneLess(m: map<Name, Dir>, n: Name)
    ensures n in m ==> |m - {n}| + 1 == |m|
  {
    if n in m {
      assert m.Keys == (m - {n}).Keys + {n};
    }
  }

  /** What an admitted record leaves of the limit by its estimate. */
  ghost function Headroom(c: Config, before: map<Name, Dir>, p: Payload): int {
    c.maxTotal - TotalBytes(before) - EstimatedRecordBytes(p.stdout, p.stderr)
  }

  /** command_kind and stats fit the room of the estimate and the headroom; all of it is known before the commit. */
  ghost predicate FitsRoom(c: Config, before: map<Name, Dir>, p: Payload, at: i64) {
    |p.commandKind| + |p.stats.json| <= Room(p.stdout, p.stderr, at, c.ttl) + Headroom(c, before, p)
  }

  /** After an admitted commit the quota holds if and only if command_kind and stats fit. */
  lemma QuotaKeptExactly(c: Config, before: map<Name, Dir>, id: Uuid, dir: Dir, payload: Payload, at: i64)
    requires HasRoom(c, before, EstimatedRecordBytes(payload.stdout, payload.stderr)) && Visible(id) !in before
    requires Accepts(id, payload) && Built(id, payload, at, c.ttl).Some?
    requires dir == DirOf(Publication(payload, Built(id, payload, at, c.ttl).value, at))
    ensures WithinQuota(c, before[Visible(id) := dir]) <==> FitsRoom(c, before, payload, at)
    ensures FitsReservation(payload) ==> FitsRoom(c, before, payload, at)
  {
    hide Room, EstimatedRecordBytes, ManifestSize, ParseUuid, Utf8.Valid;
    TotalWith(before, Visible(id), dir);
    EstimateDominatesExactly(id, payload.stats, payload.commandKind, payload.stdout, payload.stderr, at, c.ttl);
    RoomBounds(payload.stdout, payload.stderr, at, c.ttl);
  }

  /** From now until its expiry a lookup answers active, provided the stats name the run canonically. */
  ghost predicate ActiveUntil(d: Disk, id: Uuid, now: i64, expiry: i64, named: bool) {
    forall t: i64 | now <= t < expiry :: View(d, id, t).SeesActive? <==> named
  }

  /** The record, built at this time, is there beside the others. */
  ghost predicate Added(c: Config, before: map<Name, Dir>, d: Disk, id: Uuid, payload: Payload, at: i64) {
    && Accepts(id, payload) && Built(id, payload, at, c.ttl).Some?
    && Visible(id) !in before
    && VisibleOf(d) == before[Visible(id) := DirOf(Publication(payload, Built(id, payload, at, c.ttl).value, at))]
  }

  /**
   The record was admitted beside what a sweep had left, and added to it. Where there was room from the
   start nothing was swept, otherwise no more than a sweep takes. The quota then holds exactly if
   command_kind and stats fit.
   */
  ghost predicate AdmittedAfterSweep(c: Config, before: map<Name, Dir>, d: Disk, id: Uuid, payload: Payload, at: i64, now: i64) {
    exists kept :: AdmittedBeside(c, before, kept, d, id, payload, at, now)
  }

  ghost predicate AdmittedBeside(c: Config, before: map<Name, Dir>, kept: map<Name, Dir>, d: Disk, id: Uuid, payload: Payload,
                                 at: i64, now: i64) {
    && OnlyExpiredLeft(before, kept, now) && Added(c, kept, d, id, payload, at)
    && HasRoom(c, kept, EstimatedRecordBytes(payload.stdout, payload.stderr))
    && |before| <= |kept| + SWEEP_RECORD_LIMIT
    && (HasRoom(c, before, EstimatedRecordBytes(payload.stdout, payload.stderr)) ==> kept == before)
    && (WithinQuota(c, VisibleOf(d)) <==> FitsRoom(c, kept, payload, at))
  }

  lemma SweptThenAdded(c: Config, before: map<Name, Dir>, kept: map<Name, Dir>, d: Disk, id: Uuid, payload: Payload,
                       at: i64, swept: i64, now: i64)
    requires OnlyExpiredLeft(before, kept, swept) && swept <= now && |before| <= |kept| + SWEEP_RECORD_LIMIT
    requires HasRoom(c, before, EstimatedRecordBytes(payload.stdout, payload.stderr)) ==> kept == before
    ensures OnlyExpiredLeft(before, kept, now)
    ensures Added(c, kept, d, id, payload, at) && HasRoom(c, kept, EstimatedRecordBytes(payload.stdout, payload.stderr)) ==>
              && AdmittedAfterSweep(c, before, d, id, payload, at, now)
              && (FitsReservation(payload) ==> WithinQuota(c, VisibleOf(d)))
  {
    hide FitsRoom, WithinQuota, EstimatedRecordBytes, FitsReservation, HasRoom, Accepts, Built, VisibleOf;
    if Added(c, kept, d, id, payload, at) && HasRoom(c, kept, EstimatedRecordBytes(payload.stdout, payload.stderr)) {
      QuotaKeptExactly(c, kept, id, VisibleOf(d)[Visible(id)], payload, at);
      assert AdmittedBeside(c, before, kept, d, id, payload, at, now);
    }
  }

  /** The record that was added is whole, and the one that was asked for. */
  lemma AddedIsWhole(c: Config, before: map<Name, Dir>, d: Disk, id: Uuid, payload: Payload, at: i64)
    requires Added(c, before, d, id, payload, at)
    ensures Visible(id) in d.records && Holds(c, id, d.records[Visible(id)], payload, at)
    ensures d.records[Visible(id)].manifest == Full(Built(id, payload, at, c.ttl).value)
  {
    PublicationIsWhole(c, id, Publication(payload, Built(id, payload, at, c.ttl).value, at));
    StandsVisible(d, Visible(id));
  }

  lemma BuildIs(c: Config, id: Uuid, payload: Payload, at: i64)
    ensures RulesOf(c).build(id, payload, at) == Built(id, payload, at, c.ttl)
  {
  }

  lemma AddedHere(c: Config, before: map<Name, Dir>, d: Disk, id: Uuid, payload: Payload, m: Manifest, at: i64)
    requires Accepts(id, payload) && Built(id, payload, at, c.ttl) == Some(m)
    requires Visible(id) !in before && VisibleOf(d) == before[Visible(id) := DirOf(Publication(payload, m, at))]
    ensures Added(c, before, d, id, payload, at)
    ensures Visible(id) in d.records && d.records[Visible(id)].manifest == Full(m) && m.stats == payload.stats
    ensures Holds(c, id, d.records[Visible(id)], payload, at)
  {
    hide VisibleOf, Accepts, Built, Whole;
    AddedIsWhole(c, before, d, id, payload, at);
  }

  lemma StandsVisible(d: Disk, n: Name)
    ensures n in VisibleOf(d) <==> n in d.records && n.Visible?
    ensures n in VisibleOf(d) ==> VisibleOf(d)[n] == d.records[n]
  {
  }

  lemma ExpiredIsPast(dir: Dir, now: i64)
    ensures HasExpired(dir, now) ==> PastExpiry(dir, now)
  {
  }

  lemma TakenBack(before: map<Name, Dir>, n: Name, dir: Dir)
    requires n !in before
    ensures before[n := dir] - {n} == before
  {
  }

  /** Named in last_run, it is active for its lifetime, or until the end of time. */
  ghost predicate Announced(c: Config, d: Disk, id: Uuid, now: i64, expiry: i64, payload: Payload) {
    && d.lastRun == Some(id)
    && Visible(id) in d.records && Holds(c, id, d.records[Visible(id)], payload, now)
    && d.records[Visible(id)].manifest.content.expiresAt == expiry
    && ActiveUntil(d, id, now, expiry, payload.stats.runId == UuidText(id))
  }

  lemma VisibleIsReadable(c: Config, start: i64, log: seq<Action>, n: Name)
    requires n in Run(RulesOf(c), Initial(start), log).disk.records && n.Visible?
    ensures var m := ReadManifest(Run(RulesOf(c), Initial(start), log).disk.records[n]);
            m.Some? && m.value.runId == UuidText(n.id)
  {
    hide Run, Step, ReadManifest;
    VisibleRecordsAreWhole(c, start, log, n);
    WholeIsReadable(n.id, Run(RulesOf(c), Initial(start), log).disk.records[n]);
  }

  lemma VisibleAreWhole(c: Config, start: i64, log: seq<Action>)
    ensures var d := Run(RulesOf(c), Initial(start), log).disk;
            forall n | n in VisibleOf(d) :: Whole(n.id, VisibleOf(d)[n])
  {
    hide Run, Whole;
    var d := Run(RulesOf(c), Initial(start), log).disk;
    forall n | n in VisibleOf(d)
      ensures Whole(n.id, VisibleOf(d)[n])
    {
      VisibleRecordsAreWhole(c, start, log, n);
    }
  }

  /** A visible record was begun, so a fresh id is never visible. */
  lemma VisibleIsBegun(c: Config, start: i64, log: seq<Action>, id: Uuid)
    ensures var s := Run(RulesOf(c), Initial(start), log);
            Visible(id) in s.disk.records ==> id in s.owner
  {
    Reached(RulesOf(c), start, log);
  }

  /** A tombstone under its final name can be read and is its own. */
  lemma TombIsReadable(c: Config, start: i64, log: seq<Action>, id: Uuid)
    ensures var t := TombstoneAt(Run(RulesOf(c), Initial(start), log).disk, Final(id));
            t.Ok? && (t.value.Some? ==> t.value.value.id == id)
  {
    hide Run, Step, Inv;
    Reached(RulesOf(c), start, log);
    TombstonesAreSound(RulesOf(c), Run(RulesOf(c), Initial(start), log), id);
  }

  /**
   A visible record, looked up now or later: a live tombstone beside it says expired; otherwise it
   is active until its expiry and expired from then on, or corrupt if its stats name the run otherwise.
   */
  lemma SeenNowOrLater(c: Config, start: i64, log: seq<Action>, id: Uuid, t: i64)
    requires Visible(id) in Run(RulesOf(c), Initial(start), log).disk.records && Run(RulesOf(c), Initial(start), log).now <= t
    ensures var s := Run(RulesOf(c), Initial(start), log);
            && Whole(id, s.disk.records[Visible(id)])
            && var m := s.disk.records[Visible(id)].manifest.content;
               && View(s.disk, id, t) == (if LiveTombstone(s.disk, id, t) then SeesExpired
                                          else if m.stats.runId != UuidText(id) then SeesCorrupt
                                          else if t >= m.expiresAt then SeesExpired
                                          else SeesActive(m))
               && (LiveTombstone(s.disk, id, t) ==> id in s.missed && m.expiresAt <= s.now)
  {
    hide Run, Inv, View, ViewRecord, RecordSight, PublicationOk, UuidText, DirOf;
    var s := Run(RulesOf(c), Initial(start), log);
    Reached(RulesOf(c), start, log);
    TombstonesAreSound(RulesOf(c), s, id);
    PublicationIsWhole(c, id, s.committed[id]);
    WholeManifest(s.committed[id]);
    ViewIs(c, s, id, t);
    RecordSightIs(c, s, id, t);
  }

  lemma SeenWhileActive(c: Config, start: i64, log: seq<Action>, id: Uuid, m: Manifest)
    requires Visible(id) in Run(RulesOf(c), Initial(start), log).disk.records
    requires Run(RulesOf(c), Initial(start), log).disk.records[Visible(id)].manifest == Full(m)
    ensures var s := Run(RulesOf(c), Initial(start), log);
            ActiveUntil(s.disk, id, s.now, m.expiresAt, m.stats.runId == UuidText(id))
  {
    hide Run, View, UuidText, LiveTombstone, RulesOf;
    var s := Run(RulesOf(c), Initial(start), log);
    forall t: i64 | s.now <= t < m.expiresAt
      ensures View(s.disk, id, t).SeesActive? <==> m.stats.runId == UuidText(id)
    {
      SeenNowOrLater(c, start, log, id, t);
    }
  }

  /** Nothing differs but what stands under one hidden name. */
  ghost predicate OnlyAt(before: Disk, after: Disk, n: Name) {
    && VisibleOf(after) == VisibleOf(before) && HiddenOf(after) - {n} == HiddenOf(before) - {n}
    && after.tombs == before.tombs && after.lastRun == before.lastRun
  }

  lemma OnlyAtMeans(before: Disk, after: Disk, n: Name)
    requires OnlyAt(before, after, n) && n !in HiddenOf(before)
    ensures VisibleOf(after) == VisibleOf(before) && HiddenOf(after) - {n} == HiddenOf(before)
    ensures after.tombs == before.tombs && after.lastRun == before.lastRun
  {
    hide VisibleOf, HiddenOf;
    Untouched(HiddenOf(before), n);
  }

  lemma NothingWritten(d: Disk, n: Name)
    ensures OnlyAt(d, d, n)
  {
  }

  lemma HiddenWrite(d: Disk, name: Name, dir: Dir)
    requires name.Hidden?
    ensures OnlyAt(d, WithRecord(d, name, dir), name)
  {
    assert HiddenOf(WithRecord(d, name, dir)) - {name} == HiddenOf(d) - {name};
  }

  lemma HiddenRemoval(d: Disk, name: Name, o: Outcome)
    requires name.Hidden?
    ensures OnlyAt(d, Removing(d, name, o), name) && Removing(d, name, Fails) == d
    ensures name !in d.records ==> name !in Removing(d, name, o).records
    ensures o.Unlink? ==> (name in Removing(d, name, o).records <==> name in d.records)
    ensures name !in Removing(d, name, Done).records
  {
    assert HiddenOf(Removing(d, name, o)) - {name} == HiddenOf(d) - {name};
  }

  /** A rename between the visible and the hidden names. */
  lemma MovedAcross(d: Disk, from: Name, to: Name)
    requires from in d.records && from != to && to !in d.records
    ensures from.Visible? && to.Hidden? ==>
              VisibleOf(Moved(d, from, to)) == VisibleOf(d) - {from} && HiddenOf(Moved(d, from, to)) - {to} == HiddenOf(d)
    ensures from.Hidden? && to.Visible? ==>
              VisibleOf(Moved(d, from, to)) == VisibleOf(d)[to := d.records[from]] && HiddenOf(Moved(d, from, to)) == HiddenOf(d) - {from}
  {
    if from.Visible? && to.Hidden? {
      assert HiddenOf(Moved(d, from, to)) - {to} == HiddenOf(d);
    }
  }

  lemma StandsHidden(d: Disk, n: Name)
    ensures n in HiddenOf(d) <==> n in d.records && n.Hidden?
  {
  }

  lemma Untouched(m: map<Name, Dir>, n: Name)
    requires n !in m
    ensures m - {n} == m
  {
  }

  lemma WithinItself(m: map<Name, Dir>)
    ensures Within(m, m)
  {
  }

  /** Nothing was left behind if there are no more than before. */
  lemma SameSize(before: map<Name, Dir>, after: map<Name, Dir>)
    requires Within(before, after)
    ensures |before| <= |after| && (|after| == |before| ==> after == before)
  {
    LessTakesLess(before, after);
    assert before.Keys <= after.Keys;
    if after.Keys != before.Keys {
      var n :| n in after && n !in before;
      LessTakesLess(before, after - {n});
      OneLess(after, n);
    }
  }

  /** Where no record stands, the tombstone alone is seen. */
  lemma ViewWithoutRecord(d: Disk, id: Uuid, now: i64)
    requires Visible(id) !in d.records
    ensures var t := TombstoneAt(d, Final(id));
            t.Ok? && (t.value.Some? ==> t.value.value.id == id) ==>
              if t.value.None? || t.value.value.expiresAt <= now then View(d, id, now) == SeesNothing
              else View(d, id, now) in {SeesExpired, SeesDeleted}
  {
    hide TombstoneAt;
  }

  lemma NoTempLeft(before: Disk, after: Disk, tag: Pid)
    requires Temp(tag) !in before.tombs
    ensures Temp(tag) !in after.tombs && TempsAside(after, tag) == TempsAside(before, tag) ==> after.tombs == before.tombs
  {
    assert Temp(tag) !in after.tombs ==> TempsAside(after, tag) == after.tombs;
    assert TempsAside(before, tag) == before.tombs;
  }

  lemma SameTombs(before: Disk, after: Disk, tag: Pid)
    requires after.tombs == before.tombs
    ensures TempsAside(after, tag) == TempsAside(before, tag)
  {
  }

  lemma SameParts(before: Disk, after: Disk)
    requires after.records == before.records
    ensures VisibleOf(after) == VisibleOf(before) && HiddenOf(after) == HiddenOf(before)
  {
  }

  /** At most one record went, and it was past its expiry. */
  lemma LostOne(before: map<Name, Dir>, after: map<Name, Dir>, n: Name, now: i64)
    requires after == before || (n in before && PastExpiry(before[n], now) && after == before - {n})
    ensures OnlyExpiredLeft(before, after, now) && after - {n} == before - {n}
  {
  }

  /** How many of its own hidden names a process leaves behind. */
  function Count(hidden: map<Name, Dir>, n: Name): nat { if n in hidden then 1 else 0 }

  lemma LeftBehind(hidden: map<Name, Dir>, base: map<Name, Dir>, n: Name)
    requires hidden - {n} == base && n !in base
    ensures |hidden| == |base| + Count(hidden, n) && Within(base, hidden)
    ensures n !in hidden ==> hidden == base
  {
    if n in hidden {
      assert hidden.Keys == base.Keys + {n};
      assert forall k | k in base :: k in hidden - {n};
    } else {
      assert hidden - {n} == hidden;
    }
  }

  lemma RemovedAt(before: Disk, after: Disk, n: Name, base: map<Name, Dir>)
    requires OnlyAt(before, after, n) && HiddenOf(before) - {n} == base && n !in base
    ensures VisibleOf(after) == VisibleOf(before) && after.tombs == before.tombs && after.lastRun == before.lastRun
    ensures |HiddenOf(after)| == |base| + Count(HiddenOf(after), n) && Within(base, HiddenOf(after))
    ensures n !in HiddenOf(after) ==> HiddenOf(after) == base
  {
    hide VisibleOf, HiddenOf;
    LeftBehind(HiddenOf(after), base, n);
  }

  /** Hidden names carry the numbers of processes that have begun. */
  lemma TagsAreFresh(c: Rules, start: i64, log: seq<Action>, k: Kind, id: Uuid)
    ensures var s := Run(c, Initial(start), log);
            Hidden(k, id, s.used) !in s.disk.records
  {
    Reached(c, start, log);
  }

  lemma TempIsThere(c: Rules, start: i64, log: seq<Action>, pid: Pid, p: Proc)
    requires pid in Run(c, Initial(start), log).procs && Run(c, Initial(start), log).procs[pid] == p
    requires p.Committing?
    ensures var d := Run(c, Initial(start), log).disk;
            && (HasTemp(p.cpc) ==> Hidden(Tmp, p.id, pid) in d.records)
            && (BeforePublish(p.cpc) ==> Visible(p.id) !in d.records)
            && (p.cpc == Publish ==>
                  p.manifest.Some?
                  && d.records[Hidden(Tmp, p.id, pid)] == DirOf(Publication(p.payload, p.manifest.value, p.madeAt)))
  {
    Reached(c, start, log);
    var s := Run(c, Initial(start), log);
    assert ProcOk(c, s, pid, p);
  }

  /** The tombstone directory but for the temporary of one process. */
  function TempsAside(d: Disk, tag: Pid): map<TombName, FileState<Tombstone>> { d.tombs - {Temp(tag)} }

  lemma TempAside(d: Disk, tag: Pid, file: FileState<Tombstone>)
    ensures TempsAside(WithTomb(d, Temp(tag), file), tag) == TempsAside(d, tag)
    ensures TempsAside(WithoutTomb(d, Temp(tag)), tag) == TempsAside(d, tag)
  {
  }

  lemma FinalAside(d: Disk, tag: Pid, id: Uuid, file: FileState<Tombstone>)
    ensures TempsAside(WithTomb(WithoutTomb(d, Temp(tag)), Final(id), file), tag) == TempsAside(d, tag)[Final(id) := file]
  {
  }

  predicate IsCleaning(p: Proc) {
    (p.Retiring? && p.rpc == Remove) || (p.Committing? && (p.cpc.CleanTemp? || p.cpc == CleanFailed))
  }

  /** The hidden directory a process is removing. */
  function Trash(p: Proc, pid: Pid): Name
    requires IsCleaning(p)
  {
    if p.Retiring? then Hidden(TrashKind(p.status), p.id, pid)
    else Hidden(if p.cpc == CleanFailed then Failed else Tmp, p.id, pid)
  }

  lemma TrashIs(p: Proc, pid: Pid)
    requires IsCleaning(p)
    ensures Trash(p, pid) == Hidden(if p.Retiring? then TrashKind(p.status) else if p.cpc == CleanFailed then Failed else Tmp, p.id, pid)
  {
  }

  function AfterClean(p: Proc, ok: bool): Proc
    requires IsCleaning(p)
  {
    if p.Retiring? then p.(rpc := if ok then OpenTomb else Stopped(false))
    else if p.cpc == CleanTemp(true) then p.(cpc := Unpublish)
    else p.(cpc := Returned(false))
  }

  /** One call of a removal: a file, the emptied directory, or giving up. */
  lemma RemovalStep(c: Rules, s: System, pid: Pid, p: Proc, o: Outcome)
    requires pid in s.procs && s.procs[pid] == p && IsCleaning(p)
    ensures Step(c, s, Advance(pid, o)) == s.(disk := Removing(s.disk, Trash(p, pid), o),
                                              procs := s.procs[pid := if o.Unlink? then p else AfterClean(p, o.Done?)])
  {
    hide Prepare, PublishRecord, UnpublishRecord, SeekExpired, Bury, AdvanceLookup, Removing;
    assert s.procs[pid := p] == s.procs;
  }

  // ---- Tombstones and lookups ---------------------------------------------------------------

  /** The next process starts without a temporary tombstone, and a tombstone beside a record tells of a missed expiry. */
  lemma TombsAreFree(c: Rules, start: i64, log: seq<Action>, id: Uuid)
    ensures var s := Run(c, Initial(start), log);
            && Temp(s.used) !in s.disk.tombs
            && (Visible(id) in s.disk.records && Final(id) in s.disk.tombs ==>
                  id in s.missed && s.disk.tombs[Final(id)].Full? && s.disk.tombs[Final(id)].content.status == WasExpired)
  {
    Reached(c, start, log);
    TombstonesAreSound(c, Run(c, Initial(start), log), id);
  }

  lemma TombInPlace(d: Disk, tag: Pid, id: Uuid, file: FileState<Tombstone>)
    requires Temp(tag) !in d.tombs
    ensures var filled := WithTomb(WithTomb(d, Temp(tag), Torn), Temp(tag), file);
            WithTomb(WithoutTomb(filled, Temp(tag)), Final(id), file).tombs == d.tombs[Final(id) := file]
  {
  }

  lemma ActiveIsCommitted(c: Config, start: i64, log: seq<Action>, id: Uuid, now: i64)
    requires View(Run(RulesOf(c), Initial(start), log).disk, id, now).SeesActive?
    ensures var s := Run(RulesOf(c), Initial(start), log);
            && id in s.committed && PublicationOk(RulesOf(c), id, s.committed[id])
            && Visible(id) in s.disk.records && s.disk.records[Visible(id)] == DirOf(s.committed[id])
            && View(s.disk, id, now) == SeesActive(s.committed[id].manifest)
  {
    hide *;
    Reached(RulesOf(c), start, log);
    ActiveIsPublished(c, Run(RulesOf(c), Initial(start), log), id, now);
  }

  /** Where a lookup stands after its first read. */
  function AfterTomb(r: Result<Option<Tombstone>, Error>, id: Uuid, at: i64): LookPc {
    match r
    case Err(_) => Answered(SeesError)
    case Ok(None) => SeekRecord
    case Ok(Some(t)) =>
      if t.id != id then Answered(SeesCorrupt) else if t.expiresAt <= at then DropTombstone else Answered(SightOf(t.status))
  }

  lemma TombstoneThere(d: Disk, n: TombName)
    ensures TombstoneAt(d, n).Ok? && TombstoneAt(d, n).value.Some? ==>
              n in d.tombs && d.tombs[n] == Full(TombstoneAt(d, n).value.value)
  {
  }

  lemma SameRecordView(before: Disk, after: Disk, id: Uuid, now: i64)
    requires after.records == before.records
    ensures ViewRecord(after, id, now) == ViewRecord(before, id, now)
  {
  }

  lemma RecordViewIs(d: Disk, id: Uuid, now: i64)
    ensures ViewRecord(d, id, now) != SeesError
    ensures Visible(id) !in d.records <==> ViewRecord(d, id, now) == SeesNothing
    ensures ViewRecord(d, id, now) == SeesExpired ==> Visible(id) in d.records && PastExpiry(d.records[Visible(id)], now)
  {
  }

  /** Whatever is seen active carries the run id that was asked for. */
  lemma SeenIsNamed(d: Disk, id: Uuid, now: i64)
    ensures View(d, id, now).SeesActive? ==> View(d, id, now).manifest.stats.runId == UuidText(id)
  {
    hide ReadManifest, UuidText;
  }

  /** Each answer about a run that is not active has a status of its own. */
  function StatusOf(sight: Sight): (status: Retrieve.LookupStatus)
    requires !sight.SeesActive? && !sight.SeesError?
    ensures sight.SeesExpired? <==> status == Retrieve.Expired
    ensures sight.SeesDeleted? <==> status == Retrieve.Deleted
    ensures sight.SeesCorrupt? <==> status == Retrieve.Corrupt
    ensures sight.SeesNothing? <==> status == Retrieve.NotFound
  {
    match sight
    case SeesExpired => Retrieve.Expired
    case SeesDeleted => Retrieve.Deleted
    case SeesCorrupt => Retrieve.Corrupt
    case SeesNothing => Retrieve.NotFound
  }

  function TextOf(p: Payload, stream: Cursor.Stream): Bytes { if stream == Cursor.Stdout then p.stdout else p.stderr }

  function DataFor(dir: Dir, stream: Cursor.Stream): FileState<Bytes> {
    if stream == Cursor.Stdout then dir.stdout else dir.stderr
  }

  /** What was published under an id is stored text with its own index. */
  lemma PublishedText(c: Config, id: Uuid, p: Publication, stream: Cursor.Stream)
    requires PublicationOk(RulesOf(c), id, p)
    ensures StoredText(TextOf(p.payload, stream), StreamOf(p.manifest, stream))
    ensures DataFor(DirOf(p), stream) == Full(TextOf(p.payload, stream))
  {
    PublicationIsWhole(c, id, p);
  }

  /** The requested lines of a published text, judged with the line before them and the lines after. */
  ghost predicate PresentsLines(r: Retrieve.Retrieval, id: Uuid, t: Bytes, stream: Cursor.Stream, startLine: u64, lineCount: u32,
                                policy: Envelope.Policy, maxChars: nat) {
    var selected := Retrieve.LinesText(t, startLine, startLine + lineCount);
    var first: nat := if startLine == 0 then 0 else startLine - 1;
    var context := Retrieve.LinesText(t, first, first + lineCount + 2);
    && selected.Some? && context.Some?
    && Retrieve.Delivers(r, id, stream, selected.value, context.value, policy, maxChars)
  }

  lemma PresentsPublished(t: Bytes, m: LineIndex.StreamIndex, id: Uuid, stream: Cursor.Stream, startLine: u64, lineCount: u32,
                          policy: Envelope.Policy, maxChars: nat)
    requires StoredText(t, m) && 1 <= lineCount <= Retrieve.MAX_LINES_PER_QUERY
    ensures var r := Retrieve.Answer(id, stream, Retrieve.ReadBoth(m, t, startLine, lineCount), policy, maxChars);
            && r.Ok? && PresentsLines(r.value, id, t, stream, startLine, lineCount, policy, maxChars)
            && r.value.status in {Retrieve.Active, Retrieve.Blocked}
  {
    hide Retrieve.ReadBoth, Retrieve.LinesText, Retrieve.Present, Retrieve.Delivers;
    Retrieve.RetrieveIsFaithful(t, m, startLine, lineCount);
    var reading := Retrieve.ReadBoth(m, t, startLine, lineCount).value;
    Retrieve.PresentDelivers(id, stream, reading.selected, reading.context, policy, maxChars);
    Retrieve.PresentIsSafe(id, stream, reading.selected, reading.context, policy, maxChars);
  }

  lemma BadCursorIsRefused(q: Search.Query, t: Bytes, m: LineIndex.StreamIndex, cursor: Option<string>, timer: Search.Clock)
    ensures Search.StartLine(q, cursor).Err? ==> Search.PageOf(q, m, t, cursor, timer) == Err(InvalidInput)
  {
    hide Search.StartLine, Search.Scan;
  }

  /** On stored text a page fails only for its cursor, or where a match cannot be shown, which takes a literal that ends in a line feed. */
  lemma OnlyCursorsAreRefused(q: Search.Query, t: Bytes, m: LineIndex.StreamIndex, cursor: Option<string>, timer: Search.Clock)
    requires StoredText(t, m) && Utf8.Valid(q.literal) && 1 <= |q.literal| <= Search.MAX_PATTERN_BYTES
    ensures var page := Search.PageOf(q, m, t, cursor, timer);
            page.Err? ==>
              || (page == Err(InvalidInput) && Search.StartLine(q, cursor).Err?)
              || (page == Err(Fault) && q.literal[|q.literal| - 1] == LineIndex.NEWLINE)
  {
    hide *;
    BadCursorIsRefused(q, t, m, cursor, timer);
    var first := Search.StartLine(q, cursor);
    if first.Ok? {
      TextIsStored(t, m);
      SearchLaws.PageFailsOnlyUnshown(q, t, m, cursor, timer, first.value);
      if q.literal[|q.literal| - 1] != LineIndex.NEWLINE {
        SearchLaws.AllShownWithoutBreak(t, q.literal);
      }
    }
  }

  /** A page over stored text begins where its cursor says, and is what a page from there is. */
  lemma PageOverText(q: Search.Query, t: Bytes, m: LineIndex.StreamIndex, cursor: Option<string>, timer: Search.Clock)
    requires StoredText(t, m) && Search.PageOf(q, m, t, cursor, timer).Ok?
    ensures Search.StartLine(q, cursor).Ok?
    ensures SearchLaws.PageFrom(q, LineIndex.Lines(t), timer, Search.StartLine(q, cursor).value, Search.PageOf(q, m, t, cursor, timer).value)
  {
    hide Search.StartLine, Search.Shows, Search.Scan, SearchLaws.PageTo, LineIndex.BuildIndex, Search.LineReader, Utf8.Valid;
    var start := Search.StartLine(q, cursor).value;
    SearchLaws.StoredTextServes(t, m);
    if start > m.lineCount {
      SearchLaws.PagePastEnd(q, m, t, cursor, timer, start);
    } else {
      var u := SearchLaws.FirstNotShown(LineIndex.Lines(t), q.literal, start);
      var page, stop := SearchLaws.PageIsExact(q, m, t, LineIndex.Lines(t), cursor, timer, start, u);
    }
  }

  lemma TextIsStored(t: Bytes, m: LineIndex.StreamIndex)
    requires StoredText(t, m)
    ensures |t| <= LineIndex.MAX_STREAM_BYTES && Utf8.Valid(t) && LineIndex.BuildIndex(t) == Ok(m)
  {
  }

  /**
   A search of a published text, paged to its end under any time limits that let each page
   finish a line, finds exactly its matching lines, if and only if each of them can be shown.
   */
  lemma PublishedTextIsSearched(c: Config, id: Uuid, p: Publication, q: Search.Query, clocks: seq<Search.Clock>)
    requires PublicationOk(RulesOf(c), id, p)
    requires |clocks| > |LineIndex.Lines(TextOf(p.payload, q.stream))|
    requires forall clock | clock in clocks :: SearchLaws.GivesTime(clock)
    ensures var t := TextOf(p.payload, q.stream);
            var found := SearchLaws.Follow(q, StreamOf(p.manifest, q.stream), t, None, clocks);
            found == if SearchLaws.AllShown(t, q.literal)
                     then SearchLaws.Finished(SearchLaws.Hits(LineIndex.Lines(t), q.literal, 0, |LineIndex.Lines(t)|))
                     else SearchLaws.Broken
  {
    hide SearchLaws.AllShown;
    PublishedText(c, id, p, q.stream);
    SearchLaws.SearchFindsEverything(q, TextOf(p.payload, q.stream), StreamOf(p.manifest, q.stream), clocks);
  }

  /** What is seen, unless a failing read made the record look corrupt. */
  function Sighted(d: Disk, id: Uuid, now: i64, unread: bool): Sight {
    if unread then SeesCorrupt else View(d, id, now)
  }

  // ---- What becomes of tombstones -------------------------------------------------------------

  type Tombs = map<TombName, FileState<Tombstone>>

  /** No tombstone but that of one run changed; a temporary may have been left. */
  ghost predicate OnlyTombOf(before: Tombs, after: Tombs, id: Uuid) {
    && (forall k | k in before && k != Final(id) :: k in after && after[k] == before[k])
    && (forall k | k in after && k !in before :: k == Final(id) || k.Temp?)
  }

  lemma TombsAlone(tombs: Tombs, id: Uuid)
    ensures OnlyTombOf(tombs, tombs, id) && OnlyTombOf(tombs, tombs - {Final(id)}, id)
  {
  }

  lemma TombsThen(before: Tombs, mid: Tombs, after: Tombs, id: Uuid)
    requires OnlyTombOf(before, mid, id) && OnlyTombOf(mid, after, id)
    ensures OnlyTombOf(before, after, id)
  {
  }

  lemma NoTombThere(d: Disk, id: Uuid, now: i64)
    ensures TombstoneAt(d, Final(id)) == Ok(None) ==> !LiveTombstone(d, id, now) && d.tombs - {Final(id)} == d.tombs
  {
  }

  /** A retirement wrote its tombstone, or left at most a temporary. */
  lemma RetiredTomb(before: Disk, after: Disk, id: Uuid, tag: Pid, ok: bool)
    requires Temp(tag) !in before.tombs
    requires if ok then Final(id) in after.tombs && after.tombs == before.tombs[Final(id) := after.tombs[Final(id)]]
             else TempsAside(after, tag) == TempsAside(before, tag)
    ensures OnlyTombOf(before.tombs, after.tombs, id)
    ensures !ok ==> (forall k | k in before.tombs :: k in after.tombs && after.tombs[k] == before.tombs[k])
                    && (forall k | k in after.tombs && k !in before.tombs :: k.Temp?)
  {
    if !ok {
      forall k | k in before.tombs || k in after.tombs
        ensures k != Temp(tag) ==> (k in before.tombs <==> k in after.tombs) && (k in before.tombs ==> after.tombs[k] == before.tombs[k])
      {
        assert k != Temp(tag) ==> (k in before.tombs <==> k in TempsAside(before, tag)) && (k in after.tombs <==> k in TempsAside(after, tag));
      }
    }
  }

  /** A complete tombstone of an expired run, written within this time. */
  ghost predicate IsExpiredTomb(c: Rules, file: FileState<Tombstone>, id: Uuid, from: i64, to: i64) {
    && file.Full? && from <= file.content.recordedAt <= to
    && file.content == TombFor(c, id, WasExpired, file.content.recordedAt)
  }

  /**
   What expiries do to the tombstones: none is lost, and those that are new or changed say expired of a run that
   was visible, temporaries aside. If none of them broke off, every run that is gone has one.
   */
  ghost predicate BuriedBy(c: Rules, before: Disk, after: Disk, from: i64, to: i64, ok: bool) {
    && (forall k | k in before.tombs :: k in after.tombs)
    && (forall k | k in after.tombs && !(k in before.tombs && after.tombs[k] == before.tombs[k]) ::
          if k.Temp? then k !in before.tombs else Visible(k.id) in VisibleOf(before) && IsExpiredTomb(c, after.tombs[k], k.id, from, to))
    && (ok ==> forall n | n in VisibleOf(before) && n !in VisibleOf(after) ::
                 Final(n.id) in after.tombs && IsExpiredTomb(c, after.tombs[Final(n.id)], n.id, from, to))
  }

  lemma NothingBuried(c: Rules, before: Disk, after: Disk, from: i64, to: i64)
    requires after.tombs == before.tombs && VisibleOf(before).Keys <= VisibleOf(after).Keys
    ensures BuriedBy(c, before, after, from, to, true)
  {
    hide VisibleOf, IsExpiredTomb;
  }

  lemma BuriedThen(c: Rules, before: Disk, mid: Disk, after: Disk, from: i64, to: i64, ok: bool)
    requires BuriedBy(c, before, mid, from, to, true) && BuriedBy(c, mid, after, from, to, ok)
    requires Within(VisibleOf(mid), VisibleOf(before))
    ensures BuriedBy(c, before, after, from, to, ok)
  {
    hide VisibleOf, IsExpiredTomb;
    forall n | ok && n in VisibleOf(before) && n !in VisibleOf(after)
      ensures Final(n.id) in after.tombs && IsExpiredTomb(c, after.tombs[Final(n.id)], n.id, from, to)
    {
      if n !in VisibleOf(mid) {
        assert n == Visible(n.id) by {
          IsVisible(before, n);
        }
      }
    }
  }

  lemma IsVisible(d: Disk, n: Name)
    ensures n in VisibleOf(d) ==> n.Visible?
  {
  }

  lemma BuriedWider(c: Rules, before: Disk, after: Disk, from: i64, to: i64, from': i64, to': i64, ok: bool)
    requires BuriedBy(c, before, after, from, to, true) || (!ok && BuriedBy(c, before, after, from, to, false))
    requires from' <= from && to <= to'
    ensures BuriedBy(c, before, after, from', to', ok)
  {
    hide VisibleOf, TombFor;
  }

  /** A commit after its sweep leaves tombstones alone, and takes no record away. */
  lemma CommitBuriesNothing(c: Config, before: Disk, mid: Disk, after: Disk, id: Uuid, payload: Payload, stored: bool,
                            from: i64, swept: i64, to: i64)
    requires BuriedBy(RulesOf(c), before, mid, from, swept, true) && OnlyExpiredLeft(VisibleOf(before), VisibleOf(mid), swept)
    requires swept <= to && after.tombs == mid.tombs
    requires if stored then Added(c, VisibleOf(mid), after, id, payload, to) else VisibleOf(after) == VisibleOf(mid)
    ensures BuriedBy(RulesOf(c), before, after, from, to, true) && BuriedBy(RulesOf(c), before, after, from, to, false)
  {
    hide BuriedBy, VisibleOf, Accepts, Built, RulesOf;
    OnlyLess(VisibleOf(before), VisibleOf(mid), swept);
    BuriedWider(RulesOf(c), before, mid, from, swept, from, to, true);
    NothingBuried(RulesOf(c), mid, after, from, to);
    BuriedThen(RulesOf(c), before, mid, after, from, to, true);
    BuriedWider(RulesOf(c), before, after, from, to, from, to, false);
  }

  /** One expiry. */
  lemma ExpiryBuries(c: Rules, before: Disk, after: Disk, id: Uuid, tag: Pid, now: i64, ok: bool)
    requires Visible(id) in VisibleOf(before)
    requires VisibleOf(after) == VisibleOf(before) || VisibleOf(after) == VisibleOf(before) - {Visible(id)}
    requires if ok then after.tombs == before.tombs[Final(id) := Full(TombFor(c, id, WasExpired, now))]
             else TempsAside(after, tag) == TempsAside(before, tag) && Temp(tag) !in before.tombs
    ensures BuriedBy(c, before, after, now, now, ok)
  {
    hide VisibleOf, TempsAside;
    if !ok {
      RetiredTomb(before, after, id, tag, ok);
    }
  }

  /**
   What a lookup does when no call fails: behind a live tombstone nothing; otherwise it removes an expired
   tombstone, and a record past its expiry, for which it leaves a new one.
   */
  ghost predicate LookedUp(c: Rules, before: Disk, after: Disk, id: Uuid, now: i64) {
    if LiveTombstone(before, id, now) then after.tombs == before.tombs && VisibleOf(after) == VisibleOf(before)
    else if ViewRecord(before, id, now).SeesExpired? then
      && VisibleOf(after) == VisibleOf(before) - {Visible(id)}
      && after.tombs == before.tombs[Final(id) := Full(TombFor(c, id, WasExpired, now))]
    else VisibleOf(after) == VisibleOf(before) && after.tombs == before.tombs - {Final(id)}
  }

  lemma LookedUpBehind(c: Rules, before: Disk, id: Uuid, now: i64)
    requires LiveTombstone(before, id, now)
    ensures LookedUp(c, before, before, id, now)
  {
  }

  lemma LookedUpPast(c: Rules, before: Disk, mid: Disk, after: Disk, id: Uuid, now: i64)
    requires !LiveTombstone(before, id, now) && mid.records == before.records && mid.tombs == before.tombs - {Final(id)}
    requires if ViewRecord(mid, id, now).SeesExpired? then
               && VisibleOf(after) == VisibleOf(mid) - {Visible(id)}
               && after.tombs == mid.tombs[Final(id) := Full(TombFor(c, id, WasExpired, now))]
             else VisibleOf(after) == VisibleOf(mid) && after.tombs == mid.tombs
    ensures LookedUp(c, before, after, id, now)
  {
    hide TombFor, LiveTombstone;
    SameRecordView(before, mid, id, now);
    SameParts(before, mid);
    assert (before.tombs - {Final(id)})[Final(id) := Full(TombFor(c, id, WasExpired, now))]
        == before.tombs[Final(id) := Full(TombFor(c, id, WasExpired, now))];
  }

  // ---- Purges -------------------------------------------------------------------------------

  predicate LiveTomb(file: FileState<Tombstone>, now: i64) { file.Full? && file.content.expiresAt > now }

  ghost predicate AllLive(tombs: Tombs, now: i64) { forall n | n in tombs :: LiveTomb(tombs[n], now) }

  /** No live tombstone was lost or changed, and none came that is not there in the larger map. */
  ghost predicate LiveKept(before: Tombs, after: Tombs, now: i64) {
    && (forall n | n in before && LiveTomb(before[n], now) :: n in after && after[n] == before[n])
    && (forall n | n in after :: n in before && after[n] == before[n])
  }

  ghost predicate NonePast(records: map<Name, Dir>, now: i64) {
    forall n | n in records :: !PastExpiry(records[n], now)
  }

  /** No tombstone is lost, only that of a visible record is rewritten, and what is new stands under a final name. */
  ghost predicate TombsAdded(before: Disk, after: Disk) {
    && Within(VisibleOf(after), VisibleOf(before))
    && (forall n | n in before.tombs :: n in after.tombs && (n.Temp? || Visible(n.id) !in before.records ==> after.tombs[n] == before.tombs[n]))
    && (forall n | n in after.tombs && n !in before.tombs :: n.Final?)
  }

  /** Live tombstones stay as they were, those beside a record aside. */
  ghost predicate LiveStay(before: Disk, after: Disk, now: i64) {
    forall n | n in before.tombs && LiveTomb(before.tombs[n], now) && (n.Final? ==> Visible(n.id) !in before.records) ::
      n in after.tombs && after.tombs[n] == before.tombs[n]
  }

  lemma NothingAdded(d: Disk)
    ensures TombsAdded(d, d)
  {
  }

  lemma AddedOn(before: Disk, mid: Disk, after: Disk, n: Name, missed: bool)
    requires TombsAdded(before, mid) && Retired(mid, after, n, missed)
    ensures TombsAdded(before, after)
  {
    hide HiddenOf;
    assert n in VisibleOf(before);
  }

  /** Every run that was retired has its tombstone, unless that has expired already. */
  ghost predicate StillBuried(c: Rules, before: Disk, after: Disk, now: i64) {
    forall n | n in VisibleOf(before) && n !in VisibleOf(after) && LiveTomb(Full(TombFor(c, n.id, WasExpired, now)), now) ::
      Final(n.id) in after.tombs && after.tombs[Final(n.id)] == Full(TombFor(c, n.id, WasExpired, now))
  }

  lemma BuriedThrough(c: Rules, before: Disk, mid: Disk, after: Disk, now: i64)
    requires BuriedBy(c, before, mid, now, now, true) && LiveKept(mid.tombs, after.tombs, now) && VisibleOf(after) == VisibleOf(mid)
    ensures StillBuried(c, before, after, now)
  {
    hide VisibleOf, TombFor;
  }

  lemma LiveThrough(before: Disk, mid: Disk, after: Disk, now: i64)
    requires TombsAdded(before, mid) && LiveKept(mid.tombs, after.tombs, now)
    ensures LiveStay(before, after, now)
  {
    hide VisibleOf;
  }

  /** The records that stand beside a tombstone of their own. */
  function BesideTombs(d: Disk): set<Name> {
    set n | n in d.records && n.Visible? && Final(n.id) in d.tombs
  }

  /** Tombstones that stand beside no record, and records: a retirement turns one into the other. */
  ghost function Balance(d: Disk): int { |d.tombs| - |BesideTombs(d)| + |VisibleOf(d)| }

  /** One record less, unless it was missed, and its tombstone written. */
  ghost predicate Retired(before: Disk, after: Disk, n: Name, missed: bool) {
    && n in VisibleOf(before) && n.Visible?
    && VisibleOf(after) == (if missed then VisibleOf(before) else VisibleOf(before) - {n})
    && HiddenOf(after) == HiddenOf(before)
    && Final(n.id) in after.tombs && after.tombs == before.tombs[Final(n.id) := after.tombs[Final(n.id)]]
  }

  lemma RetiredIs(before: Disk, after: Disk, id: Uuid, missed: bool, file: FileState<Tombstone>)
    requires Visible(id) in VisibleOf(before) && HiddenOf(after) == HiddenOf(before)
    requires VisibleOf(after) == (if missed then VisibleOf(before) else VisibleOf(before) - {Visible(id)})
    requires after.tombs == before.tombs[Final(id) := file]
    ensures Retired(before, after, Visible(id), missed)
  {
    hide VisibleOf, HiddenOf;
  }

  lemma RetiredVisible(before: Disk, after: Disk, n: Name, missed: bool)
    requires Retired(before, after, n, missed)
    ensures VisibleOf(after) == (if missed then VisibleOf(before) else VisibleOf(before) - {n}) && HiddenOf(after) == HiddenOf(before)
    ensures n in VisibleOf(before) && Final(n.id) in after.tombs
    ensures !missed ==> n !in VisibleOf(after)
  {
    hide VisibleOf, HiddenOf;
  }

  /** What retiring moves between the counts: tombstones less records beside them, and records. */
  lemma RetiredCounts(before: Disk, after: Disk, n: Name, missed: bool)
    requires Retired(before, after, n, missed)
    ensures |VisibleOf(after)| + (if missed then 0 else 1) == |VisibleOf(before)|
    ensures |before.tombs| <= |after.tombs| <= |before.tombs| + 1
    ensures Balance(after) == Balance(before)
  {
    if !missed {
      OneLess(VisibleOf(before), n);
    }
    if Final(n.id) in before.tombs {
      assert after.tombs.Keys == before.tombs.Keys;
    } else {
      OneTombMore(before.tombs, Final(n.id), after.tombs[Final(n.id)]);
    }
    RetiredShadows(before, after, n, missed);
  }

  /** What the first loop of a purge may lose: records past their expiry, or any. */
  ghost predicate LostDue(before: map<Name, Dir>, after: map<Name, Dir>, expiredOnly: bool, now: i64) {
    if expiredOnly then OnlyExpiredLeft(before, after, now) else Within(after, before)
  }

  /** So many records were retired, so many of them missed; a tombstone was written for each. */
  ghost predicate RecordsPurged(before: Disk, after: Disk, removed: nat, missed: int) {
    && |VisibleOf(after)| + removed == |VisibleOf(before)| + missed
    && |before.tombs| <= |after.tombs| <= |before.tombs| + removed
    && Balance(after) == Balance(before) && TombsAdded(before, after)
  }

  lemma NothingPurged(d: Disk, expiredOnly: bool, now: i64)
    ensures LostDue(VisibleOf(d), VisibleOf(d), expiredOnly, now) && RecordsPurged(d, d, 0, 0)
  {
    NothingLeft(VisibleOf(d), now);
    NothingAdded(d);
  }

  lemma RecordsPurgedOn(before: Disk, mid: Disk, after: Disk, n: Name, removed: nat, missed: int, miss: bool)
    requires RecordsPurged(before, mid, removed, missed) && Retired(mid, after, n, miss)
    ensures RecordsPurged(before, after, removed + 1, missed + if miss then 1 else 0)
  {
    hide VisibleOf, Retired, Balance, TombsAdded;
    RetiredCounts(mid, after, n, miss);
    AddedOn(before, mid, after, n, miss);
  }

  lemma LostDueOn(before: map<Name, Dir>, mid: map<Name, Dir>, after: map<Name, Dir>, n: Name, expiredOnly: bool, now: i64)
    requires LostDue(before, mid, expiredOnly, now)
    requires after == mid || (n in mid && (expiredOnly ==> PastExpiry(mid[n], now)) && after == mid - {n})
    ensures LostDue(before, after, expiredOnly, now)
  {
    hide PastExpiry;
  }

  lemma LostDueIs(before: map<Name, Dir>, after: map<Name, Dir>, expiredOnly: bool, now: i64)
    requires LostDue(before, after, expiredOnly, now)
    ensures Within(after, before) && (expiredOnly ==> OnlyExpiredLeft(before, after, now))
  {
  }

  lemma RetiredShadows(before: Disk, after: Disk, n: Name, missed: bool)
    requires Retired(before, after, n, missed)
    ensures |BesideTombs(after)| == |BesideTombs(before)| + (if missed && Final(n.id) !in before.tombs then 1 else 0)
                                 - (if !missed && Final(n.id) in before.tombs then 1 else 0)
  {
    forall k: Name
      ensures k in after.records && k.Visible? <==> k in VisibleOf(after)
      ensures k in before.records && k.Visible? <==> k in VisibleOf(before)
    {
      StandsVisible(after, k);
      StandsVisible(before, k);
    }
    if missed {
      assert BesideTombs(after) == BesideTombs(before) + {n};
    } else {
      assert BesideTombs(after) == BesideTombs(before) - {n};
    }
  }

  lemma FinalsReadable(c: Config, start: i64, log: seq<Action>)
    ensures var d := Run(RulesOf(c), Initial(start), log).disk;
            forall id: Uuid | Final(id) in d.tombs :: TombstoneAt(d, Final(id)).Ok?
  {
    hide Run;
    var d := Run(RulesOf(c), Initial(start), log).disk;
    forall id: Uuid | Final(id) in d.tombs
      ensures TombstoneAt(d, Final(id)).Ok?
    {
      TombIsReadable(c, start, log, id);
    }
  }

  lemma NothingIsPast(records: map<Name, Dir>, now: i64)
    ensures records == map[] ==> NonePast(records, now)
  {
  }

  lemma OnlyLess(before: map<Name, Dir>, after: map<Name, Dir>, now: i64)
    requires OnlyExpiredLeft(before, after, now)
    ensures Within(after, before)
  {
  }

  lemma WithinOn(a: map<Name, Dir>, b: map<Name, Dir>, d: map<Name, Dir>)
    requires Within(a, b) && Within(b, d)
    ensures Within(a, d)
  {
  }

  lemma LessWithout(before: map<Name, Dir>, after: map<Name, Dir>, n: Name)
    requires after == before || after == before - {n}
    ensures Within(after, before) && after - {n} == before - {n}
  {
  }

  /** The second loop of a purge, with these names still to come: what it has left alone, ... */
  ghost predicate TombsKept(before: Disk, tombs: Tombs, names: set<TombName>, expiredOnly: bool, now: i64) {
    && (forall n | n in names :: n in before.tombs && n in tombs && tombs[n] == before.tombs[n])
    && (expiredOnly ==> LiveKept(before.tombs, tombs, now))
  }

  /** ... and what it has done, if no call failed. */
  ghost predicate TombsDone(before: Disk, tombs: Tombs, names: set<TombName>, expiredOnly: bool, now: i64) {
    && (forall n | n in tombs && n !in names :: expiredOnly && LiveTomb(tombs[n], now))
    && (expiredOnly ==> forall n | n in before.tombs && n !in names :: TombstoneAt(before, n).Ok?)
  }

  /** What of the tombstones a purge should not have left. */
  ghost function Unpurged(tombs: Tombs, expiredOnly: bool, now: i64): set<TombName> {
    set n | n in tombs && !(expiredOnly && LiveTomb(tombs[n], now))
  }

  /** Only what is still to come, or was spared because a call failed, is left to purge. */
  ghost predicate TombsSpared(tombs: Tombs, names: set<TombName>, spared: set<TombName>, expiredOnly: bool, now: i64) {
    Unpurged(tombs, expiredOnly, now) <= names + spared
  }

  lemma TombSpared(mid: Tombs, after: Tombs, names: set<TombName>, spared: set<TombName>, n: TombName, failed: bool,
                   expiredOnly: bool, now: i64)
    requires TombsSpared(mid, names, spared, expiredOnly, now) && (after == mid || after == mid - {n})
    requires !failed && n in after ==> expiredOnly && LiveTomb(after[n], now)
    ensures var spared' := if failed then spared + {n} else spared;
            |spared'| <= |spared| + (if failed then 1 else 0) && TombsSpared(after, names - {n}, spared', expiredOnly, now)
  {
    hide LiveTomb;
    forall k | k in Unpurged(after, expiredOnly, now)
      ensures k in names - {n} + (if failed then spared + {n} else spared)
    {
      assert k in Unpurged(mid, expiredOnly, now);
    }
  }

  lemma SparedCount(tombs: Tombs, spared: set<TombName>, expiredOnly: bool, now: i64)
    requires TombsSpared(tombs, {}, spared, expiredOnly, now)
    ensures |Unpurged(tombs, expiredOnly, now)| <= |spared|
  {
    NoMoreThan(Unpurged(tombs, expiredOnly, now), spared);
  }

  lemma AllSpared(tombs: Tombs, expiredOnly: bool, now: i64)
    ensures TombsSpared(tombs, tombs.Keys, {}, expiredOnly, now)
  {
  }

  lemma AllUnpurged(tombs: Tombs, t: i64, u: i64)
    ensures Unpurged(tombs, false, t) == Unpurged(tombs, false, u)
  {
  }

  lemma NoneUnpurged(tombs: Tombs, expiredOnly: bool, now: i64)
    ensures |Unpurged(tombs, expiredOnly, now)| == 0 ==> if expiredOnly then AllLive(tombs, now) else tombs == map[]
  {
    if |Unpurged(tombs, expiredOnly, now)| == 0 {
      assert forall n | n in tombs :: n !in Unpurged(tombs, expiredOnly, now);
    }
  }

  lemma TombsBegin(d: Disk, expiredOnly: bool, now: i64)
    ensures TombsKept(d, d.tombs, d.tombs.Keys, expiredOnly, now) && TombsDone(d, d.tombs, d.tombs.Keys, expiredOnly, now)
  {
  }

  lemma TombStands(before: Disk, d: Disk, names: set<TombName>, n: TombName, expiredOnly: bool, now: i64)
    requires TombsKept(before, d.tombs, names, expiredOnly, now) && n in names
    ensures n in d.tombs && n in before.tombs && d.tombs[n] == before.tombs[n] && TombstoneAt(d, n) == TombstoneAt(before, n)
    ensures TombstoneAt(d, n).Err? ==> Unreadable(before)
  {
  }

  lemma TombTurn(before: Disk, mid: Tombs, after: Tombs, names: set<TombName>, n: TombName, expiredOnly: bool, now: i64, gone: bool)
    requires n in names && TombsKept(before, mid, names, expiredOnly, now)
    requires after == if gone then mid - {n} else mid
    requires gone && expiredOnly ==> !LiveTomb(mid[n], now)
    ensures TombsKept(before, after, names - {n}, expiredOnly, now)
    ensures && TombsDone(before, mid, names, expiredOnly, now) && (expiredOnly ==> TombstoneAt(before, n).Ok?)
            && (!gone ==> expiredOnly && LiveTomb(mid[n], now)) ==>
              TombsDone(before, after, names - {n}, expiredOnly, now)
  {
    hide TombstoneAt;
  }

  lemma TombsEnd(before: Disk, tombs: Tombs, expiredOnly: bool, now: i64)
    ensures TombsKept(before, tombs, {}, expiredOnly, now) && expiredOnly ==> LiveKept(before.tombs, tombs, now)
    ensures TombsDone(before, tombs, {}, expiredOnly, now) ==>
              && (if expiredOnly then AllLive(tombs, now) else tombs == map[])
              && (expiredOnly ==> !Unreadable(before))
  {
  }

  lemma PurgeStarts(d: Disk, expiredOnly: bool, now: i64)
    ensures PurgedBut(VisibleOf(d), d.records.Keys, {}, expiredOnly, now)
  {
  }

  /** What of the records a purge should not have left. */
  ghost function Remaining(records: map<Name, Dir>, expiredOnly: bool, now: i64): set<Name> {
    if expiredOnly then Past(records, now) else records.Keys
  }

  /** A purge leaves only what was spared. */
  lemma PurgeEnds(c: Config, start: i64, log: seq<Action>, spared: set<Name>, expiredOnly: bool, now: i64)
    ensures var records := VisibleOf(Run(RulesOf(c), Initial(start), log).disk);
            PurgedBut(records, {}, spared, expiredOnly, now) ==>
              |Remaining(records, expiredOnly, now)| <= |spared|
  {
    hide Run, VisibleOf, HasExpired;
    var records := VisibleOf(Run(RulesOf(c), Initial(start), log).disk);
    PastAmong(c, start, log, {}, spared, now);
    if PurgedBut(records, {}, spared, expiredOnly, now) && !expiredOnly {
      NoMoreThan(records.Keys, spared);
    }
  }

  lemma NoneRemains(records: map<Name, Dir>, expiredOnly: bool, now: i64)
    ensures |Remaining(records, expiredOnly, now)| == 0 ==> if expiredOnly then NonePast(records, now) else records == map[]
  {
    if |Remaining(records, expiredOnly, now)| == 0 {
      assert forall n | n in records :: n !in Remaining(records, expiredOnly, now);
    }
  }

  /** Where nothing is past its expiry no record stands beside a tombstone. */
  lemma NoneShadowed(c: Config, start: i64, log: seq<Action>)
    ensures var s := Run(RulesOf(c), Initial(start), log);
            NonePast(VisibleOf(s.disk), s.now) ==> BesideTombs(s.disk) == {}
  {
    hide Run, Step, Inv, View, DirOf;
    var s := Run(RulesOf(c), Initial(start), log);
    Reached(RulesOf(c), start, log);
    forall n | n in BesideTombs(s.disk)
      ensures n in VisibleOf(s.disk) && PastExpiry(VisibleOf(s.disk)[n], s.now)
    {
      TombstoneBesideRecord(c, s, n.id);
      TombstonesAreSound(RulesOf(c), s, n.id);
      WholeManifest(s.committed[n.id]);
    }
  }

  /** Some tombstone file cannot be parsed. */
  ghost predicate Unreadable(d: Disk) {
    exists n :: n in d.tombs && TombstoneAt(d, n).Err?
  }

  /** Tombstones added under final names can be read. */
  lemma SameUnreadable(c: Config, start: i64, log: seq<Action>, before: Disk, after: Disk)
    requires after == Run(RulesOf(c), Initial(start), log).disk
    requires TombsAdded(before, after)
    requires forall id: Uuid | Final(id) in before.tombs :: TombstoneAt(before, Final(id)).Ok?
    ensures Unreadable(after) <==> Unreadable(before)
  {
    hide Run, Step;
    forall n | n in after.tombs
      ensures n.Final? ==> TombstoneAt(after, n).Ok?
      ensures n.Temp? ==> n in before.tombs && TombstoneAt(after, n) == TombstoneAt(before, n)
    {
      if n.Final? {
        TombIsReadable(c, start, log, n.id);
      }
    }
    if Unreadable(before) {
      var n :| n in before.tombs && TombstoneAt(before, n).Err?;
      assert n.Temp?;
      assert n in after.tombs && TombstoneAt(after, n).Err?;
    }
  }

  lemma LeftAlone(before: map<Name, Dir>, after: map<Name, Dir>, n: Name)
    requires Within(after, before) && after - {n} == before - {n}
    ensures if n in after then after == before else after == before - {n}
  {
    assert forall k | k in before && k != n :: k in before - {n} && k in after - {n};
    assert forall k | k in after && k != n :: k in after - {n} && k in before - {n};
  }

  /** The first loop of a purge, or the loop of a sweep, is through with every name but those to come and those spared. */
  ghost predicate PurgedBut(records: map<Name, Dir>, names: set<Name>, spared: set<Name>, expiredOnly: bool, now: i64) {
    forall n | n in records && n !in names && n !in spared :: expiredOnly && !HasExpired(records[n], now)
  }

  lemma OneTurn(before: map<Name, Dir>, mid: map<Name, Dir>, after: map<Name, Dir>, n: Name, now: i64)
    requires OnlyExpiredLeft(before, mid, now)
    requires after == mid || (n in mid && PastExpiry(mid[n], now) && after == mid - {n})
    ensures OnlyExpiredLeft(before, after, now)
  {
  }

  /** One more name is done with, or was spared because a call failed. */
  lemma PurgedOn(mid: map<Name, Dir>, after: map<Name, Dir>, names: set<Name>, spared: set<Name>, n: Name, failed: bool,
                 expiredOnly: bool, now: i64)
    requires after == mid || after == mid - {n}
    ensures var spared' := if failed then spared + {n} else spared;
            && |spared'| <= |spared| + (if failed then 1 else 0)
            && (PurgedBut(mid, names, spared, expiredOnly, now) && (!failed && n in after ==> expiredOnly && !HasExpired(after[n], now)) ==>
                  PurgedBut(after, names - {n}, spared', expiredOnly, now))
  {
    hide HasExpired;
  }

  /** The records past their expiry. */
  ghost function Past(records: map<Name, Dir>, now: i64): set<Name> {
    set n | n in records && PastExpiry(records[n], now)
  }

  lemma {:induction false} NoMoreThan<T>(part: set<T>, whole: set<T>)
    requires part <= whole
    ensures |part| <= |whole|
  {
    if part != {} {
      var x :| x in part;
      NoMoreThan(part - {x}, whole - {x});
    }
  }

  /** Only what was not reached, or spared, can still be past its expiry. */
  lemma PastAmong(c: Config, start: i64, log: seq<Action>, names: set<Name>, spared: set<Name>, now: i64)
    ensures var records := VisibleOf(Run(RulesOf(c), Initial(start), log).disk);
            PurgedBut(records, names, spared, true, now) ==> |Past(records, now)| <= |names| + |spared|
  {
    hide Run, Step, PastExpiry, HasExpired, VisibleOf;
    var records := VisibleOf(Run(RulesOf(c), Initial(start), log).disk);
    if PurgedBut(records, names, spared, true, now) {
      forall n | n in Past(records, now)
        ensures n in names + spared
      {
        VisibleIsExpired(c, start, log, n, now);
      }
      NoMoreThan(Past(records, now), names + spared);
      assert |names + spared| == |names| + |spared| - |names * spared|;
    }
  }

  lemma VisibleIsExpired(c: Config, start: i64, log: seq<Action>, n: Name, now: i64)
    ensures var records := VisibleOf(Run(RulesOf(c), Initial(start), log).disk);
            n in records ==> (HasExpired(records[n], now) <==> PastExpiry(records[n], now))
  {
    hide Run, Step, ReadManifest, VisibleOf;
    var d := Run(RulesOf(c), Initial(start), log).disk;
    if n in VisibleOf(d) {
      StandsVisible(d, n);
      VisibleRecordsAreWhole(c, start, log, n);
      WholeIsReadable(n.id, d.records[n]);
    }
  }

  lemma PastSplit(before: map<Name, Dir>, after: map<Name, Dir>, now: i64)
    requires OnlyExpiredLeft(before, after, now)
    ensures after.Keys <= before.Keys && Past(after, now) <= after.Keys
    ensures Past(before, now) == Past(after, now) + (before.Keys - after.Keys)
  {
    hide PastExpiry;
  }

  lemma AsMany<T>(all: set<T>, left: set<T>, part: set<T>, partLeft: set<T>)
    requires left <= all && partLeft <= left && part == partLeft + (all - left)
    ensures |all| - |left| == |part| - |partLeft|
  {
    var gone := all - left;
    assert all == left + gone;
    assert |left + gone| == |left| + |gone|;
    assert |partLeft + gone| == |partLeft| + |gone|;
  }

  /** Where only records past their expiry went, as many of these are gone as records. */
  lemma PastGone(before: map<Name, Dir>, after: map<Name, Dir>, now: i64)
    requires OnlyExpiredLeft(before, after, now)
    ensures |before| - |after| == |Past(before, now)| - |Past(after, now)|
  {
    hide Past, OnlyExpiredLeft;
    PastSplit(before, after, now);
    AsMany(before.Keys, after.Keys, Past(before, now), Past(after, now));
  }

  /** How many of so many entries a sweep of at most so many leaves alone. */
  function Over(entries: nat, most: nat): nat { if entries > most then entries - most else 0 }

  lemma OneTombLess(tombs: Tombs, n: TombName)
    ensures n in tombs ==> |tombs - {n}| + 1 == |tombs|
  {
    if n in tombs {
      assert tombs.Keys == (tombs - {n}).Keys + {n};
    }
  }

  lemma OneTombMore(tombs: Tombs, n: TombName, file: FileState<Tombstone>)
    requires n !in tombs
    ensures |tombs[n := file]| == |tombs| + 1
  {
    assert tombs[n := file].Keys == tombs.Keys + {n};
  }

  lemma FewerStayWithinQuota(c: Config, after: map<Name, Dir>, before: map<Name, Dir>)
    requires Within(after, before)
    ensures WithinQuota(c, before) ==> WithinQuota(c, after)
  {
    LessTakesLess(after, before);
  }
}
