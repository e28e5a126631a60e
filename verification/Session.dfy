/** Whole sessions: one process after another opens the store and performs one operation. */
module Session {
  import opened Basics
  import opened Uuids
  import opened Directory
  import opened Lookup
  import opened Usage
  import opened StoreLaws
  import opened RunStore
  import Cursor
  import Envelope
  import Leftovers
  import Lifecycle
  import Protocol
  import ProtocolLaws
  import Search
  import Utf8

  datatype Request =
    | Store(payload: Payload)
    | Retrieve(run: string, stream: Cursor.Stream, startLine: u64, lineCount: u32, policy: Envelope.Policy, maxChars: nat)
    | Find(run: string, stream: Cursor.Stream, literal: Bytes, cursor: Option<string>, timer: Search.Clock)
    | Stats(named: Option<string>)
    | Forget(run: string)
    | Purge(expiredOnly: bool)

  /** The run id that a request begins. */
  function Begins(r: Request): set<Uuid> {
    if r.Store? && ParseUuid(r.payload.stats.runId).Some? then {ParseUuid(r.payload.stats.runId).value} else {}
  }

  /** Texts and literals are text, and manifests fit the reservation. */
  predicate Modest(r: Request) {
    && (r.Store? ==> Utf8.Valid(r.payload.stdout) && Utf8.Valid(r.payload.stderr) && FitsReservation(r.payload))
    && (r.Find? ==> Utf8.Valid(r.literal))
  }

  /** Run ids are generated, so no two requests begin the same one. */
  ghost predicate FreshFrom(requests: seq<Request>, i: nat, used: set<Uuid>) {
    && (forall j | i <= j < |requests| :: Begins(requests[j]) !! used)
    && (forall j, k | i <= j < k < |requests| :: Begins(requests[j]) !! Begins(requests[k]))
  }

  /** The counts of failed calls and of directories given up only grew, the second no more than the first. */
  twostate predicate Grown(store: RunStore)
    reads store
  {
    old(store.log) <= store.log && old(store.clock) <= store.clock
    && 0 <= store.strays - old(store.strays) <= store.faults - old(store.faults)
  }

  /** A store request adds at most one record, within the quota. */
  method ServeWriter(store: RunStore, payload: Payload)
    requires store.Valid() && Modest(Store(payload)) && Begins(Store(payload)) !! store.sys.owner.Keys
    requires WithinQuota(store.config, VisibleOf(store.disk))
    modifies store
    ensures store.Valid() && Grown(store)
    ensures WithinQuota(store.config, VisibleOf(store.disk))
    ensures store.sys.owner.Keys <= old(store.sys).owner.Keys + Begins(Store(payload))
  {
    hide VisibleOf, HiddenOf, Within, WithinQuota, ParseUuid, FitsReservation, OnlyExpiredLeft, AdmittedAfterSweep, Announced;
    var stored, stuck := store.Commit(payload);
  }

  /** No other request adds a record. */
  method ServeReader(store: RunStore, request: Request)
    requires store.Valid() && !request.Store? && Modest(request)
    modifies store
    ensures store.Valid() && Grown(store) && store.sys.owner == old(store.sys).owner
    ensures Within(VisibleOf(store.disk), VisibleOf(old(store.disk)))
  {
    hide VisibleOf, HiddenOf, Within, OnlyExpiredLeft, ParseUuid, TextOf, PresentsLines, Search.PageOf;
    ghost var before := VisibleOf(store.disk);
    var now := store.Now();
    match request {
      case Retrieve(run, stream, startLine, lineCount, policy, maxChars) =>
        var r := store.RetrieveLinesAt(run, stream, startLine, lineCount, policy, maxChars, now);
        OnlyLess(before, VisibleOf(store.disk), now);
      case Find(run, stream, literal, cursor, timer) =>
        var r := store.SearchAt(run, stream, literal, cursor, timer, now);
        OnlyLess(before, VisibleOf(store.disk), now);
      case Stats(named) =>
        var r := store.LoadStats(named);
        OnlyLess(before, VisibleOf(store.disk), store.clock);
      case Forget(run) =>
        var r := store.Delete(run);
      case Purge(expiredOnly) =>
        var r := store.Purge(expiredOnly);
    }
  }

  /** `open`: the store is swept, and a failed sweep is an error. */
  method Open(store: RunStore) returns (ok: bool)
    requires store.Valid()
    modifies store
    ensures store.Valid() && Grown(store) && store.sys.owner == old(store.sys).owner
    ensures ok <==> store.Felt() == old(store.Felt())
    ensures OnlyExpiredLeft(VisibleOf(old(store.disk)), VisibleOf(store.disk), store.clock)
    ensures ok && store.cuts == old(store.cuts) ==>
              |Past(VisibleOf(store.disk), store.clock)| <= Over(|old(store.disk).records|, SWEEP_RECORD_LIMIT) + (store.faults - old(store.faults))
  {
    hide VisibleOf, HiddenOf, Within, OnlyExpiredLeft, Past;
    var swept := store.SweepExpired(SWEEP_RECORD_LIMIT);
    ok := swept.Ok?;
  }

  /** One process: it opens the store, and a failure to do so ends it. */
  method ServeOne(store: RunStore, request: Request)
    requires store.Valid() && Modest(request) && Begins(request) !! store.sys.owner.Keys
    requires WithinQuota(store.config, VisibleOf(store.disk))
    modifies store
    ensures store.Valid() && Grown(store)
    ensures WithinQuota(store.config, VisibleOf(store.disk))
    ensures store.sys.owner.Keys <= old(store.sys).owner.Keys + Begins(request)
  {
    hide VisibleOf, HiddenOf, Within, WithinQuota, ParseUuid, FitsReservation, OnlyExpiredLeft, NonePast, Modest, Begins;
    ghost var before := VisibleOf(store.disk);
    var ok := Open(store);
    OnlyLess(before, VisibleOf(store.disk), store.clock);
    FewerStayWithinQuota(store.config, VisibleOf(store.disk), before);
    if !ok {
      return;
    }
    before := VisibleOf(store.disk);
    if request.Store? {
      ServeWriter(store, request.payload);
    } else {
      ServeReader(store, request);
      FewerStayWithinQuota(store.config, VisibleOf(store.disk), before);
    }
  }

  /**
   From an empty store, whatever is asked of it in whatever order and whatever fails, the visible
   records never exceed their limits in number or in bytes, and each is whole. Beside them stands one
   hidden directory for each removal that was given up, no data file of any larger than a stream may be; so without failed calls there is none, and
   everything under `records` is within the limits.
   */
  method Serve(config: Config, start: i64, requests: seq<Request>) returns (store: RunStore)
    requires config.maxTotal < MAX_U64
    requires forall i | 0 <= i < |requests| :: Modest(requests[i])
    requires FreshFrom(requests, 0, {})
    ensures fresh(store) && store.config == config && store.Valid()
    ensures WithinQuota(config, VisibleOf(store.disk))
    ensures forall n | n in VisibleOf(store.disk) :: Lifecycle.Whole(n.id, VisibleOf(store.disk)[n])
    ensures |HiddenOf(store.disk)| == store.strays <= store.faults
    ensures TotalBytes(store.disk.records) <= config.maxTotal + TotalBytes(HiddenOf(store.disk))
    ensures |store.disk.records| <= config.maxRecords + store.strays
    ensures store.faults == 0 ==> WithinQuota(config, store.disk.records)
    ensures Leftovers.AllFit(store.disk.records)
  {
    hide Modest, Begins, VisibleOf, HiddenOf, Lifecycle.Whole, TotalBytes;
    store := new RunStore(config, start);
    for i := 0 to |requests|
      invariant fresh(store) && store.config == config && store.Valid()
      invariant WithinQuota(config, VisibleOf(store.disk)) && store.strays <= store.faults
      invariant FreshFrom(requests, i, store.sys.owner.Keys)
    {
      ServeOne(store, requests[i]);
    }
    VisibleAreWhole(config, store.start, store.log);
    BytesSplit(store.disk);
    ProtocolLaws.InitialInv(RulesOf(config), start);
    Leftovers.DirectoriesFit(config, Protocol.Initial(start), store.log);
    NothingWeighsNothing(HiddenOf(store.disk));
  }

  lemma NothingWeighsNothing(m: map<Name, Dir>)
    ensures |m| == 0 ==> TotalBytes(m) == 0
  {
  }
}
