/**
 The quota at the limits the program runs with: seven admitted commits of two full streams, and an
 eighth whose command line is longer than the estimate allows for.
 */
module Overrun {
  import opened Basics
  import opened Uuids
  import opened Records
  import opened LineIndex
  import opened Directory
  import opened Lookup
  import opened Protocol
  import opened ProtocolLaws
  import opened Traces
  import opened Commits
  import opened Usage
  import opened Quota
  import opened StoreLaws
  import Utf8

  /** `StorageConfig::default`. */
  const DEFAULT := Config(1_000, 1024 * 1024 * 1024, 24 * 60 * 60, 24 * 60 * 60)

  const FULL_RECORDS := 7

  // ---- Texts of one line --------------------------------------------------------------------

  const LETTER_X: byte := 0x78

  function Filler(n: nat): Bytes { seq(n, i => LETTER_X) }

  lemma {:induction false} FillerIsText(n: nat)
    ensures Utf8.Valid(Filler(n))
    decreases n
  {
    if n > 0 {
      FillerIsText(n - 1);
      assert Filler(n)[1..] == Filler(n - 1);
    }
  }

  lemma {:induction false} NoBreaks(t: Bytes, n: nat)
    requires n <= |t| && NEWLINE !in t
    ensures Starts(t, n) == [0] && BreaksBefore(t, n) == 0
  {
    if n > 0 {
      NoBreaks(t, n - 1);
    }
  }

  lemma FillerIsOneLine(n: nat)
    requires n <= MAX_STREAM_BYTES
    ensures |Filler(n)| == n && BuildIndex(Filler(n)).Ok? && |Lines(Filler(n))| <= 1
    ensures EstimatedIndexBytes(Filler(n)) == if n == 0 then 0 else 48
  {
    var t := Filler(n);
    NoBreaks(t, n);
    EstimateCountsLines(t);
  }

  // ---- Full records -------------------------------------------------------------------------

  const FULL_ESTIMATE := 2 * MAX_STREAM_BYTES + 96 + MANIFEST_OVERHEAD_BYTES

  function FullPayload(id: Uuid): Payload {
    Payload(Filler(MAX_STREAM_BYTES), Filler(MAX_STREAM_BYTES), Stats(UuidText(id), Filler(400)), Filler(5))
  }

  /** A last commit with stats of 8192 bytes. */
  function LongPayload(id: Uuid, n: nat): Payload {
    Payload(Filler(MAX_STREAM_BYTES), Filler(n), Stats(UuidText(id), Filler(8192)), Filler(5))
  }

  lemma LongIsAccepted(id: Uuid, n: nat, now: i64)
    requires n <= MAX_STREAM_BYTES
    ensures var p := LongPayload(id, n); Accepts(id, p) && Built(id, p, now, DEFAULT.ttl).Some?
    ensures EstimatedRecordBytes(LongPayload(id, n).stdout, LongPayload(id, n).stderr)
         == MAX_STREAM_BYTES + n + 48 + (if n == 0 then 0 else 48) + MANIFEST_OVERHEAD_BYTES
  {
    hide Filler, BuildIndex, Utf8.Valid, ParseUuid, UuidText, EstimatedIndexBytes;
    ParseUuidText(id);
    FillerIsText(MAX_STREAM_BYTES);
    FillerIsText(n);
    FillerIsOneLine(MAX_STREAM_BYTES);
    FillerIsOneLine(n);
  }

  lemma FullIsAccepted(id: Uuid, now: i64)
    ensures var p := FullPayload(id); Accepts(id, p) && Built(id, p, now, DEFAULT.ttl).Some?
    ensures EstimatedRecordBytes(FullPayload(id).stdout, FullPayload(id).stderr) == FULL_ESTIMATE
  {
    hide Filler, BuildIndex, Utf8.Valid, ParseUuid, UuidText, EstimatedIndexBytes;
    ParseUuidText(id);
    FillerIsText(MAX_STREAM_BYTES);
    FillerIsOneLine(MAX_STREAM_BYTES);
  }

  /** What one full record takes on disk, whatever its run id. */
  function FullBytes(now: i64): nat {
    2 * MAX_STREAM_BYTES + ManifestBytes(Filler(5), Filler(400), Filler(MAX_STREAM_BYTES), Filler(MAX_STREAM_BYTES), now, DEFAULT.ttl)
  }

  lemma FullRecordTakes(id: Uuid, now: i64)
    requires Built(id, FullPayload(id), now, DEFAULT.ttl).Some?
    ensures DirBytes(DirOf(Publication(FullPayload(id), Built(id, FullPayload(id), now, DEFAULT.ttl).value, now))) == FullBytes(now)
    ensures 2 * MAX_STREAM_BYTES <= FullBytes(now) <= FULL_ESTIMATE
  {
    hide ManifestBytes, ManifestSize, BuildManifest, Room, Utf8.Valid, EstimatedRecordBytes, UuidText;
    var p := FullPayload(id);
    ManifestBytesAre(id, p.stats, p.commandKind, p.stdout, p.stderr, now, DEFAULT.ttl);
    EstimateDominatesExactly(id, p.stats, p.commandKind, p.stdout, p.stderr, now, DEFAULT.ttl);
    RoomBounds(p.stdout, p.stderr, now, DEFAULT.ttl);
    FullIsAccepted(id, now);
  }

  // ---- Filling the store --------------------------------------------------------------------

  /** Commits of so many full records, run id and process counted from 0. */
  function Filling(k: nat): seq<Action>
    requires k <= FULL_RECORDS
  {
    if k == 0 then [] else Filling(k - 1) + CommitFully(k - 1, FullPayload(k - 1), k - 1)
  }

  ghost function FilledStore(now: i64, k: nat): System
    requires k <= FULL_RECORDS
  {
    Run(RulesOf(DEFAULT), Initial(now), Filling(k))
  }

  lemma OneCommitMore(s: System, id: Uuid, payload: Payload)
    requires Inv(RulesOf(DEFAULT), s) && id !in s.owner && Accepts(id, payload) && Built(id, payload, s.now, DEFAULT.ttl).Some?
    ensures var s' := Run(RulesOf(DEFAULT), s, CommitFully(id, payload, s.used));
            && Inv(RulesOf(DEFAULT), s') && s'.now == s.now && s'.used == s.used + 1 && s'.owner.Keys == s.owner.Keys + {id}
            && s.used in s'.procs && s'.procs[s.used].Committing? && s'.procs[s.used].cpc == Returned(true)
            && Visible(id) !in VisibleOf(s.disk)
            && VisibleOf(s'.disk) ==
               VisibleOf(s.disk)[Visible(id) := DirOf(Publication(payload, Built(id, payload, s.now, DEFAULT.ttl).value, s.now))]
  {
    hide Inv, Run, DirOf, Accepts, Built;
    CommitSucceeds(RulesOf(DEFAULT), s, id, payload);
    RunKeepsInv(RulesOf(DEFAULT), s, CommitFully(id, payload, s.used));
    FreshNames(RulesOf(DEFAULT), s, id);
  }

  lemma {:induction false} FilledStoreIs(now: i64, k: nat)
    requires k <= FULL_RECORDS
    ensures var s := FilledStore(now, k);
            && Inv(RulesOf(DEFAULT), s) && s.now == now && s.used == k && (forall id: Uuid | id in s.owner :: id < k)
            && |VisibleOf(s.disk)| == k && TotalBytes(VisibleOf(s.disk)) == k * FullBytes(now)
  {
    hide Inv, Run, Accepts, Built, FullBytes, FullPayload, CommitFully, DirBytes, VisibleOf;
    if k == 0 {
      InitialInv(RulesOf(DEFAULT), now);
      EmptyStore(now);
    } else {
      var id: Uuid := k - 1;
      FilledStoreIs(now, k - 1);
      var s := FilledStore(now, k - 1);
      FullIsAccepted(id, now);
      RunConcat(RulesOf(DEFAULT), Initial(now), Filling(k - 1), CommitFully(id, FullPayload(id), id));
      OneCommitMore(s, id, FullPayload(id));
      FullRecordTakes(id, now);
      TotalWith(VisibleOf(s.disk), Visible(id), DirOf(Publication(FullPayload(id), Built(id, FullPayload(id), now, DEFAULT.ttl).value, now)));
      OneTimeMore(k, FullBytes(now));
    }
  }

  lemma OneTimeMore(k: nat, b: nat)
    requires k > 0
    ensures (k - 1) * b + b == k * b
  {
  }

  lemma TimesAtMost(k: nat, n: nat, b: nat, most: nat)
    requires k <= n && b <= most
    ensures k * b <= n * most
  {
    assert k * b <= k * most <= n * most;
  }

  lemma EmptyStore(now: i64)
    ensures Run(RulesOf(DEFAULT), Initial(now), []) == Initial(now)
    ensures VisibleOf(Initial(now).disk) == map[] && TotalBytes(map[]) == 0
  {
  }

  /** While it is filled, every commit is admitted and the quota holds. */
  lemma FillingIsAdmitted(now: i64, k: nat)
    requires k <= FULL_RECORDS
    ensures var d := FilledStore(now, k).disk;
            && |VisibleOf(d)| == k && WithinQuota(DEFAULT, VisibleOf(d))
            && (k < FULL_RECORDS ==> HasRoom(DEFAULT, VisibleOf(d), EstimatedRecordBytes(FullPayload(k).stdout, FullPayload(k).stderr)))
  {
    hide FilledStore, FullBytes, FullPayload, EstimatedRecordBytes, VisibleOf, TotalBytes, WithinQuota, HasRoom, Inv, RulesOf, Filling, Built, Accepts;
    FilledStoreIs(now, k);
    FullIsAccepted(0, now);
    FullRecordTakes(0, now);
    TimesAtMost(k, FULL_RECORDS, FullBytes(now), FULL_ESTIMATE);
    if k < FULL_RECORDS {
      TimesAtMost(k, FULL_RECORDS - 1, FullBytes(now), FULL_ESTIMATE);
      FullIsAccepted(k, now);
    }
    FillsUp(VisibleOf(FilledStore(now, k).disk), k);
  }

  lemma FillsUp(records: map<Name, Dir>, k: nat)
    requires |records| == k <= FULL_RECORDS && TotalBytes(records) <= FULL_RECORDS * FULL_ESTIMATE
    ensures WithinQuota(DEFAULT, records)
    ensures k < FULL_RECORDS && TotalBytes(records) <= (FULL_RECORDS - 1) * FULL_ESTIMATE ==> HasRoom(DEFAULT, records, FULL_ESTIMATE)
  {
    hide TotalBytes;
  }

  /** How long the second stream of the eighth commit is: its estimate leaves nothing of the limit. */
  function LastBytes(now: i64): int {
    DEFAULT.maxTotal - FULL_RECORDS * FullBytes(now) - MAX_STREAM_BYTES - 96 - MANIFEST_OVERHEAD_BYTES
  }

  lemma LastBytesFit(now: i64)
    requires 2 * MAX_STREAM_BYTES <= FullBytes(now) <= FULL_ESTIMATE
    ensures 0 < LastBytes(now) <= MAX_STREAM_BYTES
  {
    hide FullBytes;
  }

  /** An accepted payload is admitted into this store, and the commit runs to its end with every call done. */
  ghost predicate CommitsFully(s: System, s': System, id: Uuid, p: Payload) {
    && Accepts(id, p) && HasRoom(DEFAULT, VisibleOf(s.disk), EstimatedRecordBytes(p.stdout, p.stderr))
    && s' == Run(RulesOf(DEFAULT), s, CommitFully(id, p, s.used))
    && s.used in s'.procs && s'.procs[s.used].Committing? && s'.procs[s.used].cpc == Returned(true)
  }

  /**
   At the limits the program has, whatever the time: after seven admitted commits an eighth is
   admitted too, none of its calls fails, and the store takes more than it is limited to.
   */
  lemma DefaultLimitsAreOverrun(now: i64, k: Uuid) returns (n: nat, s': System)
    requires k == FULL_RECORDS
    ensures n <= MAX_STREAM_BYTES && CommitsFully(FilledStore(now, k), s', k, LongPayload(k, n))
    ensures TotalBytes(VisibleOf(s'.disk)) > DEFAULT.maxTotal
  {
    hide Inv, Run, RulesOf, FilledStore, Filling, FullBytes, FullPayload, LongPayload, CommitsFully, VisibleOf, TotalBytes, Built, Accepts;
    var s := FilledStore(now, k);
    FilledStoreIs(now, k);
    FullIsAccepted(0, now);
    FullRecordTakes(0, now);
    LastBytesFit(now);
    n := LastBytes(now);
    s' := LastCommitOverruns(s, n, k);
  }

  lemma LastCommitOverruns(s: System, n: nat, k: Uuid) returns (s': System)
    requires k == FULL_RECORDS && Inv(RulesOf(DEFAULT), s) && s.used == k && k !in s.owner && |VisibleOf(s.disk)| == k
    requires 0 < n <= MAX_STREAM_BYTES && TotalBytes(VisibleOf(s.disk)) + MAX_STREAM_BYTES + n + 96 + MANIFEST_OVERHEAD_BYTES == DEFAULT.maxTotal
    ensures CommitsFully(s, s', k, LongPayload(k, n)) && TotalBytes(VisibleOf(s'.disk)) > DEFAULT.maxTotal
  {
    hide Run, Inv, LongPayload, Built, Accepts, EstimatedRecordBytes, VisibleOf, TotalBytes, CommitFully, Room, DirOf;
    var p := LongPayload(k, n);
    LongIsAccepted(k, n, s.now);
    OneCommitMore(s, k, p);
    s' := Run(RulesOf(DEFAULT), s, CommitFully(k, p, s.used));
    var dir := DirOf(Publication(p, Built(k, p, s.now, DEFAULT.ttl).value, s.now));
    QuotaKeptExactly(DEFAULT, VisibleOf(s.disk), k, dir, p, s.now);
    LongDoesNotFit(k, n, s.now);
    TotalWith(VisibleOf(s.disk), Visible(k), dir);
  }

  lemma LongDoesNotFit(id: Uuid, n: nat, now: i64)
    requires n <= MAX_STREAM_BYTES
    ensures var p := LongPayload(id, n); |p.commandKind| + |p.stats.json| > Room(p.stdout, p.stderr, now, DEFAULT.ttl)
  {
    hide Room, BuildIndex, EstimatedIndexBytes, Lines;
    FillerIsOneLine(MAX_STREAM_BYTES);
    FillerIsOneLine(n);
    RoomBounds(Filler(MAX_STREAM_BYTES), Filler(n), now, DEFAULT.ttl);
  }
}
