/** run_retention_sweep and purge_retired_ingestion of src/cloudops_guard/ingestion_api/lifecycle.py. */
module Lifecycle {
  import opened Wrappers
  import opened Models
  import opened StoreSpec
  import opened StoreChanges
  import R = StoreRuns
  import A = StoreAnswers
  import opened StorageKeys
  import opened Ordering
  import opened Listings
  import opened MemoryStore
  import opened PostgresStore

  // ---- Retention ----

  function Expired(r: Record, at: int): Record { r.AsRetired(at, RetentionExpired) }

  /** The records with those under keys retired by a sweep at the given time. */
  function RetireAll(records: map<Key, Record>, keys: set<Key>, at: int): map<Key, Record> {
    map k | k in records :: if k in keys then Expired(records[k], at) else records[k]
  }

  /** What the sweep answers for these candidates: each of them, retired, in the same order. */
  function ExpireEach(candidates: seq<Record>, at: int): seq<Record> {
    seq(|candidates|, i requires 0 <= i < |candidates| => Expired(candidates[i], at))
  }

  ghost function IdsOf(xs: seq<Record>): set<Key> { set r | r in xs :: r.Id() }

  /** Retiring one received record succeeds exactly when the sweep's time does not precede its receipt. */
  lemma RetireOne(p: Policy, s: Store, k: Key, at: int, now: int)
    requires Valid(s) && s.HasStatus(k, Received)
    ensures var out := MarkRetired(p, s, k, at, RetentionExpired, now);
            if s.records[k].receivedAt <= at
            then out.reply == Ok(Some(Expired(s.records[k], at))) && out.store.records == s.records[k := Expired(s.records[k], at)]
            else out.reply == Err(InvalidCandidate) && out.store == s
  {
    assert KeyValid(s, k);
  }

  lemma RetireNext(records: map<Key, Record>, keys: set<Key>, k: Key, at: int)
    requires k in records && k !in keys
    ensures RetireAll(records, keys + {k}, at) == RetireAll(records, keys, at)[k := Expired(records[k], at)]
  {
  }

  lemma NothingLeft(s: Store, t: Store, cutoff: int, at: int)
    requires t.records == RetireAll(s.records, ExpiredForRetention(s, cutoff), at)
    ensures ExpiredForRetention(t, cutoff) == {}
  {
  }

  lemma PrefixIds(xs: seq<Record>, i: nat)
    requires i < |xs|
    ensures IdsOf(xs[..i + 1]) == IdsOf(xs[..i]) + {xs[i].Id()}
  {
    assert xs[..i + 1] == xs[..i] + [xs[i]];
  }

  /** The candidates are the records under the given keys, each once. */
  ghost predicate Lists(records: map<Key, Record>, keys: set<Key>, candidates: seq<Record>) {
    && IdsOf(candidates) == keys
    && (forall i :: 0 <= i < |candidates| ==> candidates[i].Id() in records && records[candidates[i].Id()] == candidates[i])
    && (forall i, j :: 0 <= i < j < |candidates| ==> candidates[i].Id() != candidates[j].Id())
  }

  lemma ListingLists(s: Store, keys: set<Key>, row: Record -> Row)
    requires Valid(s) && keys <= s.records.Keys
    ensures Lists(s.records, keys, Listing(s.records, keys, row))
  {
    ValidIsKeyed(s);
    ListingElements(s.records, keys, row);
    var xs := Listing(s.records, keys, row);
    assert IdsOf(xs) == keys by {
      forall k | k in keys ensures k in IdsOf(xs) { assert s.records[k] in xs; }
    }
  }

  lemma AllTimely(records: map<Key, Record>, keys: set<Key>, candidates: seq<Record>, at: int)
    requires Lists(records, keys, candidates) && keys <= records.Keys
    requires forall i :: 0 <= i < |candidates| ==> candidates[i].receivedAt <= at
    ensures forall k <- keys :: records[k].receivedAt <= at
  {
    forall k | k in keys ensures records[k].receivedAt <= at {
      assert k in IdsOf(candidates);
    }
  }

  /** One iteration of the sweep, on the store reached after i candidates. */
  lemma SweepStep(p: Policy, records: map<Key, Record>, t: Store, keys: set<Key>, candidates: seq<Record>, i: nat, at: int, now: int)
    requires Valid(t) && i < |candidates| && Lists(records, keys, candidates) && candidates[i].status == Received
    requires t.records == RetireAll(records, IdsOf(candidates[..i]), at)
    ensures var c := candidates[i];
            var out := MarkRetired(p, t, c.Id(), at, RetentionExpired, now);
            if c.receivedAt <= at
            then && out.reply == Ok(Some(Expired(c, at)))
                 && out.store.records == RetireAll(records, IdsOf(candidates[..i + 1]), at)
                 && ExpireEach(candidates[..i + 1], at) == ExpireEach(candidates[..i], at) + [Expired(c, at)]
            else out.reply == Err(InvalidCandidate) && out.store == t
  {
    var c := candidates[i];
    assert c.Id() !in IdsOf(candidates[..i]);
    assert t.records[c.Id()] == c;
    RetireOne(p, t, c.Id(), at, now);
    PrefixIds(candidates, i);
    RetireNext(records, IdsOf(candidates[..i]), c.Id(), at);
    assert candidates[..i + 1] == candidates[..i] + [c];
  }

  /** The sweep after i candidates. */
  ghost predicate SweepProgress(records: map<Key, Record>, now: map<Key, Record>, candidates: seq<Record>, i: nat, at: int, done: seq<Record>) {
    && i <= |candidates|
    && now == RetireAll(records, IdsOf(candidates[..i]), at)
    && done == ExpireEach(candidates[..i], at)
    && forall j :: 0 <= j < i ==> candidates[j].receivedAt <= at
  }

  /** The first candidate received after the sweep's time stopped it; exactly those before it are retired. */
  ghost predicate StoppedAt(records: map<Key, Record>, now: map<Key, Record>, candidates: seq<Record>, at: int) {
    exists i :: 0 <= i < |candidates| && candidates[i].receivedAt > at && SweepProgress(records, now, candidates, i, at, ExpireEach(candidates[..i], at))
  }

  /** Every received record from before the cutoff is now retired for its age, and listed; every other one is as it was. */
  ghost predicate SweepRetires(before: map<Key, Record>, now: map<Key, Record>, cutoff: int, at: int, done: seq<Record>) {
    && now.Keys == before.Keys
    && (forall k <- before :: var r := before[k];
          if r.status.Received? && r.receivedAt < cutoff
          then now[k] == Record(r.tenant, r.ingestion, r.fingerprint, r.receivedAt, Retired, Some(RetentionExpired), Some(at), None) && now[k] in done
          else now[k] == r)
    && (forall d <- done :: d.Id() in before && now[d.Id()] == d && before[d.Id()].status.Received? && before[d.Id()].receivedAt < cutoff)
    && (forall i, j :: 0 <= i < j < |done| ==> done[i].Id() != done[j].Id() && ReceivedNoLater(done[i], done[j]))
  }

  /** What one record due for retirement becomes. */
  lemma RetiredRecord(s: Store, xs: seq<Record>, cutoff: int, at: int, k: Key)
    requires Valid(s) && ListsReceived(s, cutoff, xs) && k in ExpiredForRetention(s, cutoff)
    ensures var r := s.records[k];
            var d := Record(r.tenant, r.ingestion, r.fingerprint, r.receivedAt, Retired, Some(RetentionExpired), Some(at), None);
            Expired(r, at) == d && d.Id() == k && d in ExpireEach(xs, at)
  {
    assert KeyValid(s, k);
    var i :| 0 <= i < |xs| && xs[i] == s.records[k];
    assert ExpireEach(xs, at)[i] == Expired(s.records[k], at);
  }

  /** Retiring the listed records leaves them in their order. */
  lemma OrderStays(s: Store, xs: seq<Record>, cutoff: int, at: int)
    requires ListsReceived(s, cutoff, xs)
    ensures var done := ExpireEach(xs, at);
            forall i, j :: 0 <= i < j < |done| ==> done[i].Id() != done[j].Id() && ReceivedNoLater(done[i], done[j])
  {
    var done := ExpireEach(xs, at);
    forall i, j | 0 <= i < j < |done| ensures done[i].Id() != done[j].Id() && ReceivedNoLater(done[i], done[j]) {
      assert ReceivedNoLater(xs[i], xs[j]);
    }
  }

  lemma RetiredOnTheFields(s: Store, t: map<Key, Record>, xs: seq<Record>, cutoff: int, at: int)
    requires Valid(s) && ListsReceived(s, cutoff, xs) && t == RetireAll(s.records, ExpiredForRetention(s, cutoff), at)
    ensures SweepRetires(s.records, t, cutoff, at, ExpireEach(xs, at))
  {
    var due, done := ExpiredForRetention(s, cutoff), ExpireEach(xs, at);
    forall k | k in due
      ensures t[k] in done && t[k].Id() == k
      ensures var r := s.records[k]; t[k] == Record(r.tenant, r.ingestion, r.fingerprint, r.receivedAt, Retired, Some(RetentionExpired), Some(at), None)
    {
      RetiredRecord(s, xs, cutoff, at, k);
    }
    forall i | 0 <= i < |xs| ensures xs[i].Id() in due && done[i] == t[xs[i].Id()] && done[i].Id() == xs[i].Id() {
      assert xs[i] in xs;
    }
    forall d | d in done ensures d.Id() in due && t[d.Id()] == d {
      var i :| 0 <= i < |xs| && done[i] == d;
    }
    OrderStays(s, xs, cutoff, at);
  }

  lemma SweepDone(s: Store, t: Store, candidates: seq<Record>, cutoff: int, at: int, done: seq<Record>)
    requires Valid(s) && candidates == Listing(s.records, ExpiredForRetention(s, cutoff), ByReceived)
    requires SweepProgress(s.records, t.records, candidates, |candidates|, at, done)
    ensures var due := ExpiredForRetention(s, cutoff);
      && t.records == RetireAll(s.records, due, at) && done == ExpireEach(candidates, at)
      && (forall k <- due :: s.records[k].receivedAt <= at)
    ensures ExpiredForRetention(t, cutoff) == {} && SweepRetires(s.records, t.records, cutoff, at, done)
  {
    var due := ExpiredForRetention(s, cutoff);
    ListingLists(s, due, ByReceived);
    assert candidates[..|candidates|] == candidates;
    AllTimely(s.records, due, candidates, at);
    NothingLeft(s, t, cutoff, at);
    ListingListsReceived(s, cutoff);
    RetiredOnTheFields(s, t.records, candidates, cutoff, at);
  }

  /** What the sweep is offered: the records due, oldest receipt first. */
  ghost function Candidates(s: Store, cutoff: int): seq<Record> { Listing(s.records, ExpiredForRetention(s, cutoff), ByReceived) }

  /** What a sweep with this cutoff, at this time, has made of the store. */
  ghost predicate RetentionSwept(s: Store, t: Store, cutoff: int, at: int, retired: Result<seq<Record>>) {
    && (retired.Ok? <==> forall k <- s.records :: s.records[k].status.Received? && s.records[k].receivedAt < cutoff ==> s.records[k].receivedAt <= at)
    && (retired.Ok? ==>
          SweepRetires(s.records, t.records, cutoff, at, retired.value) && ExpiredForRetention(t, cutoff) == {})
    && (retired.Err? ==> StoppedAt(s.records, t.records, Candidates(s, cutoff), at))
  }

  /** How retiring the candidates one by one ends. */
  ghost predicate Ended(records: map<Key, Record>, now: map<Key, Record>, candidates: seq<Record>, at: int, retired: Result<seq<Record>>) {
    match retired
    case Ok(done) => SweepProgress(records, now, candidates, |candidates|, at, done)
    case Err(_) => StoppedAt(records, now, candidates, at)
  }

  lemma SweepEnds(s: Store, t: Store, cutoff: int, at: int, retired: Result<seq<Record>>)
    requires Valid(s) && Ended(s.records, t.records, Candidates(s, cutoff), at, retired)
    ensures RetentionSwept(s, t, cutoff, at, retired) && (cutoff <= at ==> retired.Ok?)
  {
    var candidates := Candidates(s, cutoff);
    if retired.Ok? {
      SweepDone(s, t, candidates, cutoff, at, retired.value);
      forall k | k in s.records && s.records[k].status.Received? && s.records[k].receivedAt < cutoff ensures s.records[k].receivedAt <= at {
        assert k in ExpiredForRetention(s, cutoff);
      }
    } else {
      ListingListsReceived(s, cutoff);
      var i :| 0 <= i < |candidates| && candidates[i].receivedAt > at;
      assert candidates[i] in candidates;
    }
  }

  /** Retires the candidates one by one, up to the first that is refused. */
  method RetireEach(store: InMemoryMetadataStore, ghost keys: set<Key>, candidates: seq<Record>, at: int, now: int)
    returns (retired: Result<seq<Record>>)
    requires store.Valid() && Lists(store.records, keys, candidates) && forall c <- candidates :: c.status.Received?
    modifies store
    ensures store.Valid() && Ended(old(store.records), store.records, candidates, at, retired)
  {
    ghost var records := store.records;
    var done: seq<Record> := [];
    for i := 0 to |candidates|
      invariant store.Valid() && SweepProgress(records, store.records, candidates, i, at, done)
    {
      var c := candidates[i];
      SweepStep(store.policy, records, store.View(), keys, candidates, i, at, now);
      var r := store.Retire(c.Id(), at, RetentionExpired, now);
      if r.Err? {
        assert StoppedAt(records, store.records, candidates, at) by { assert candidates[i].receivedAt > at; }
        return Err(r.error);
      }
      if r.value.Some? && r.value.value.retiredAt == Some(at) { done := done + [r.value.value]; }
    }
    return Ok(done);
  }

  /** The candidates of a sweep with this cutoff, and what makes them ready to be retired one by one. */
  method Due(store: InMemoryMetadataStore, cutoff: int) returns (candidates: seq<Record>, ghost keys: set<Key>)
    requires store.Valid()
    ensures candidates == Candidates(store.View(), cutoff)
    ensures Lists(store.records, keys, candidates) && forall c <- candidates :: c.status.Received?
  {
    keys := ExpiredForRetention(store.View(), cutoff);
    candidates := store.ListExpiredForRetentionSweep(cutoff);
    ListingLists(store.View(), keys, ByReceived);
  }

  /**
   Retires every received record older than the retention period and returns exactly those, oldest
   first. It is refused exactly when some candidate was received after the sweep's own time, with the
   candidates before that one retired; a non-negative retention period rules that out.
   */
  method RunRetentionSweep(store: InMemoryMetadataStore, at: int, retentionPeriod: int, now: int)
    returns (retired: Result<seq<Record>>)
    requires store.Valid()
    modifies store
    ensures store.Valid()
    ensures RetentionSwept(old(store.View()), store.View(), at - retentionPeriod, at, retired)
    ensures retentionPeriod >= 0 ==> retired.Ok?
  {
    ghost var s, cutoff := store.View(), at - retentionPeriod;
    var candidates, keys := Due(store, at - retentionPeriod);
    retired := RetireEach(store, keys, candidates, at, now);
    SweepEnds(s, store.View(), cutoff, at, retired);
  }

  // ---- Purge ----

  datatype PurgeOutcome =
    | Nothing                      // None: unknown, expired, deleted, or claimed by someone else
    | Purged(record: Record)
    | Refused(error: Error)        // begin_purge raised
    | InvalidIdentifier            // derive_storage_key raised with the claim granted
    | DeleteRaised                 // the blob delete raised; the claim was released
    | FinalizeRaised               // finalize raised without committing; the claim was released

  /** The claim was given back: the store is as begin_purge found it, but for one used claim id. */
  predicate Untouched(s: Store, t: Store) {
    t == s.(nextClaimId := s.nextClaimId + 1)
  }

  /** A claim is granted over a retired, unclaimed record, and that is all that changes. */
  lemma Granted(p: Policy, s: Store, k: Key, at: int, now: int)
    requires Valid(s)
    requires var r := BeginPurge(p, s, k, at, now).reply; r.Ok? && r.value.Some?
    ensures var b := BeginPurge(p, s, k, at, now);
            var c := b.reply.value.value;
            && s.HasStatus(k, Retired) && k !in s.claims && k !in s.tombstones
            && s.records[k].AsDeleted(at).Consistent() && c.key == k
            && b.store == s.(nextClaimId := s.nextClaimId + 1, claims := s.claims[k := ActiveClaim(c.generation, c.claimId,
                               s.records[k].AsDeleted(at), TombstoneOf(s.records[k].AsDeleted(at)))])
  {
    assert KeyValid(s, k);
  }

  /** What each way of ending a granted claim leaves behind. */
  lemma GrantedEndings(p: Policy, s: Store, k: Key, at: int, now: int)
    requires Valid(s)
    requires var r := BeginPurge(p, s, k, at, now).reply; r.Ok? && r.value.Some?
    ensures var b := BeginPurge(p, s, k, at, now);
            var c := b.reply.value.value;
            && s.HasStatus(k, Retired) && k !in s.claims && c.key == k
            && Untouched(s, Release(b.store, c))
            && Finalize(p, b.store, c, now).reply == Ok(Some(A.Purged(k, s.records[k], at)))
            && A.PurgedAt(s.(nextClaimId := s.nextClaimId + 1), Finalize(p, b.store, c, now).store, k, at)
  {
    Granted(p, s, k, at, now);
    var b := BeginPurge(p, s, k, at, now).store;
    assert b.claims - {k} == s.claims;
    assert KeyValid(s, k);
  }

  /**
   Deletes the blob first, then commits. Which failure happens is the parameters' choice. A failure
   after the claim was granted leaves the record retired and purgeable again, and the blob untouched
   unless the failure came after its deletion.
   */
  method PurgeRetiredIngestion(store: PostgresMetadataStore, blobStore: InMemoryReportBlobStore, k: Key, at: int, now: int,
                               deleteRaises: bool, finalizeRaises: bool)
    returns (outcome: PurgeOutcome)
    requires store.Valid() && store != (blobStore as object)
    modifies store, blobStore
    ensures store.Valid()
    ensures var begun := BeginPurge(store.policy, old(store.model), k, at, now);
      match begun.reply
      case Err(e) => outcome == Refused(e) && store.model == begun.store && blobStore.blobs == old(blobStore.blobs)
      case Ok(None) => outcome == Nothing && store.model == begun.store && blobStore.blobs == old(blobStore.blobs)
      case Ok(Some(c)) =>
        if !ValidKey(k) then outcome == InvalidIdentifier && store.model == begun.store && blobStore.blobs == old(blobStore.blobs)
        else if deleteRaises then
          outcome == DeleteRaised && Untouched(old(store.model), store.model) && blobStore.blobs == old(blobStore.blobs)
        else if finalizeRaises then
          outcome == FinalizeRaised && Untouched(old(store.model), store.model) && blobStore.blobs == old(blobStore.blobs) - {StorageKey(k)}
        else
          && outcome == Purged(A.Purged(k, old(store.model).records[k], at))
          && A.PurgedAt(old(store.model).(nextClaimId := old(store.model).nextClaimId + 1), store.model, k, at)
          && blobStore.blobs == old(blobStore.blobs) - {StorageKey(k)}
    ensures var reply := BeginPurge(store.policy, old(store.model), k, at, now).reply;
      reply.Ok? && reply.value.Some? ==> (k in store.model.claims <==> !ValidKey(k))
  {
    ghost var s := store.model;
    var begun := store.Begin(k, at, now);
    if begun.Err? { return Refused(begun.error); }
    if begun.value.None? { return Nothing; }
    GrantedEndings(store.policy, s, k, at, now);
    var claim := begun.value.value;
    var path := Derive(k.tenant, k.ingestion);
    if path.None? { return InvalidIdentifier; }
    if deleteRaises {
      store.ReleaseClaim(claim);
      return DeleteRaised;
    }
    blobStore.Delete(path.value);
    if finalizeRaises {
      store.ReleaseClaim(claim);
      return FinalizeRaised;
    }
    var done := store.FinalizeClaim(claim, now);
    return Purged(done.value.value);
  }

  // ---- A claim nobody gives back ----

  const SLASHED := Key("t", "a/b")
  const SLASHED_RECORD := Record("t", "a/b", "f", 0, Received, None, None, None)

  /** Create a record whose id no storage key is derived from, and retire it. */
  const SLASHED_CALLS := [
    CreateCall(CreateRequest("t", "f", "a/b", SLASHED_RECORD, None), 0, 0),
    RetireCall(SLASHED, 0, CustomerRequested, 0)
  ]

  lemma SlashedIsRetired(p: Policy)
    ensures var s := R.Run(p, EMPTY, SLASHED_CALLS);
            && Valid(s) && s.records == map[SLASHED := SLASHED_RECORD.AsRetired(0, CustomerRequested)]
            && s.tombstones == map[] && s.claims == map[]
  {
    var s1 := After(p, EMPTY, SLASHED_CALLS[0]);
    assert s1.records == map[SLASHED := SLASHED_RECORD] && s1.tombstones == map[] && s1.claims == map[];
    var s2 := After(p, s1, SLASHED_CALLS[1]);
    assert s2.records == map[SLASHED := SLASHED_RECORD.AsRetired(0, CustomerRequested)];
    assert SLASHED_CALLS[1..] == [SLASHED_CALLS[1]] && SLASHED_CALLS[1..][1..] == [];
    assert R.Run(p, EMPTY, SLASHED_CALLS) == R.Run(p, s1, SLASHED_CALLS[1..]) == R.Run(p, s2, []) == s2;
    R.ReachableIsValid(p, SLASHED_CALLS);
  }

  /**
   A purge that derives no storage key keeps the claim it was granted: with the store it leaves, no later
   purge of the record is granted one, although nothing was deleted.
   */
  lemma SlashedClaimStays(p: Policy, at: int, now: int)
    ensures var s := R.Run(p, EMPTY, SLASHED_CALLS);
            var b := BeginPurge(p, s, SLASHED, 0, 0);
            && Valid(s) && s.HasStatus(SLASHED, Retired) && !ValidKey(SLASHED)
            && b.reply.Ok? && b.reply.value.Some? && SLASHED in b.store.claims && b.store.records == s.records
            && BeginPurge(p, b.store, SLASHED, at, now).reply == Ok(None)
  {
    SlashedIsRetired(p);
    assert SLASHED.ingestion[1] == '/';
  }
}
