/** The batched purge sweep (src/cloudops_guard/ingestion_azure/purge_sweep.py). */
module PurgeSweep {
  import opened Models
  import opened StoreSpec
  import opened StoreChanges
  import opened StorageKeys
  import opened Listings
  import opened MemoryStore
  import opened PostgresStore
  import opened Agreement
  import opened Lifecycle

  /** Everything outside the stores that decides how one candidate's purge goes. */
  datatype Circumstances = Circumstances(clock: Key -> int, deleteRaises: set<Key>, finalizeRaises: set<Key>, now: int)
  {
    /** How purging this retired, unclaimed record ends when nobody interferes. */
    function Ending(r: Record): PurgeOutcome {
      var at := clock(r.Id());
      if !r.AsDeleted(at).Consistent() then Refused(InvalidCandidate)
      else if !ValidKey(r.Id()) then InvalidIdentifier
      else if r.Id() in deleteRaises then DeleteRaised
      else if r.Id() in finalizeRaises then FinalizeRaised
      else Purged(r.AsDeleted(at))
    }

    /** Nothing is in the way of this record's purge: its time, its identifier, or either store. */
    predicate FaultFree(r: Record) {
      && (r.retiredAt.Some? ==> r.retiredAt.value <= clock(r.Id()))
      && ValidKey(r.Id())
      && r.Id() !in deleteRaises && r.Id() !in finalizeRaises
    }
  }

  predicate Succeeded(o: PurgeOutcome) { o.Purged? }

  predicate Unavailable(o: PurgeOutcome) { o.Nothing? }

  predicate Failed(o: PurgeOutcome) { !o.Nothing? && !o.Purged? }

  /** A failed candidate and what was raised for it. */
  datatype Failure = Failure(key: Key, cause: PurgeOutcome)

  datatype SweepResult = SweepResult(purged: seq<Key>, alreadyUnavailable: seq<Key>, failures: seq<Failure>, considered: nat)

  /** The keys whose outcome satisfies p, in candidate order. */
  function KeysWhere(candidates: seq<Record>, outcomes: seq<PurgeOutcome>, p: PurgeOutcome -> bool): seq<Key>
    requires |candidates| == |outcomes|
  {
    if candidates == [] then []
    else
      var last := |candidates| - 1;
      KeysWhere(candidates[..last], outcomes[..last], p) + if p(outcomes[last]) then [candidates[last].Id()] else []
  }

  function FailuresOf(candidates: seq<Record>, outcomes: seq<PurgeOutcome>): seq<Failure>
    requires |candidates| == |outcomes|
  {
    if candidates == [] then []
    else
      var last := |candidates| - 1;
      FailuresOf(candidates[..last], outcomes[..last])
      + if Failed(outcomes[last]) then [Failure(candidates[last].Id(), outcomes[last])] else []
  }

  function FailedKeys(failures: seq<Failure>): seq<Key> {
    seq(|failures|, i requires 0 <= i < |failures| => failures[i].key)
  }

  function ReportOf(candidates: seq<Record>, outcomes: seq<PurgeOutcome>): SweepResult
    requires |candidates| == |outcomes|
  {
    SweepResult(KeysWhere(candidates, outcomes, Succeeded), KeysWhere(candidates, outcomes, Unavailable),
                FailuresOf(candidates, outcomes), |candidates|)
  }

  function KeysOf(candidates: seq<Record>): seq<Key> {
    seq(|candidates|, i requires 0 <= i < |candidates| => candidates[i].Id())
  }

  /** The report with one more candidate entered under its outcome. */
  function Entered(r: SweepResult, c: Record, o: PurgeOutcome): SweepResult {
    SweepResult(r.purged + (if o.Purged? then [c.Id()] else []),
                r.alreadyUnavailable + (if o.Nothing? then [c.Id()] else []),
                r.failures + (if Failed(o) then [Failure(c.Id(), o)] else []),
                r.considered + 1)
  }

  lemma ReportSnoc(candidates: seq<Record>, outcomes: seq<PurgeOutcome>, c: Record, o: PurgeOutcome)
    requires |candidates| == |outcomes|
    ensures ReportOf(candidates + [c], outcomes + [o]) == Entered(ReportOf(candidates, outcomes), c, o)
  {
    assert (candidates + [c])[..|candidates|] == candidates;
    assert (outcomes + [o])[..|candidates|] == outcomes;
  }

  lemma KeysSnoc(candidates: seq<Record>, c: Record, fs: seq<Failure>, f: Failure)
    ensures KeysOf(candidates + [c]) == KeysOf(candidates) + [c.Id()]
    ensures FailedKeys(fs + [f]) == FailedKeys(fs) + [f.key]
  {
  }

  /** The keys a report names, in all its lists together. */
  function Named(r: SweepResult): multiset<Key> {
    multiset(r.purged) + multiset(r.alreadyUnavailable) + multiset(FailedKeys(r.failures))
  }

  lemma NamedSnoc(r: SweepResult, c: Record, o: PurgeOutcome)
    ensures Named(Entered(r, c, o)) == Named(r) + multiset{c.Id()}
  {
    KeysSnoc([], c, r.failures, Failure(c.Id(), o));
    if o.Purged? {
      assert Entered(r, c, o).failures == r.failures;
    } else if o.Nothing? {
      assert Entered(r, c, o).failures == r.failures;
    } else {
      assert Entered(r, c, o).alreadyUnavailable == r.alreadyUnavailable && Entered(r, c, o).purged == r.purged;
    }
  }

  lemma PartitionStep(candidates: seq<Record>, outcomes: seq<PurgeOutcome>, c: Record, o: PurgeOutcome)
    requires |candidates| == |outcomes|
    requires Named(ReportOf(candidates, outcomes)) == multiset(KeysOf(candidates))
    ensures Named(ReportOf(candidates + [c], outcomes + [o])) == multiset(KeysOf(candidates + [c]))
  {
    ReportSnoc(candidates, outcomes, c, o);
    NamedSnoc(ReportOf(candidates, outcomes), c, o);
    KeysSnoc(candidates, c, [], Failure(c.Id(), o));
  }

  lemma PartitionEmpty()
    ensures Named(ReportOf([], [])) == multiset(KeysOf([]))
  {
    assert KeysOf([]) == [] && FailedKeys([]) == [];
  }

  /** Whatever the outcomes, the three result lists together hold each candidate exactly once. */
  lemma {:induction false} ReportPartitions(candidates: seq<Record>, outcomes: seq<PurgeOutcome>)
    requires |candidates| == |outcomes|
    ensures Named(ReportOf(candidates, outcomes)) == multiset(KeysOf(candidates))
    decreases |candidates|
  {
    if candidates == [] {
      PartitionEmpty();
    } else {
      var last := |candidates| - 1;
      ReportPartitions(candidates[..last], outcomes[..last]);
      PartitionStep(candidates[..last], outcomes[..last], candidates[last], outcomes[last]);
      assert candidates[..last] + [candidates[last]] == candidates && outcomes[..last] + [outcomes[last]] == outcomes;
    }
  }

  lemma {:induction false} KeysWhereExactly(candidates: seq<Record>, outcomes: seq<PurgeOutcome>, p: PurgeOutcome -> bool, k: Key)
    requires |candidates| == |outcomes|
    ensures k in KeysWhere(candidates, outcomes, p) <==> exists i :: 0 <= i < |candidates| && candidates[i].Id() == k && p(outcomes[i])
    decreases |candidates|
  {
    if candidates != [] { KeysWhereExactly(candidates[..|candidates| - 1], outcomes[..|candidates| - 1], p, k); }
  }

  lemma {:induction false} FailuresExactly(candidates: seq<Record>, outcomes: seq<PurgeOutcome>, f: Failure)
    requires |candidates| == |outcomes|
    ensures f in FailuresOf(candidates, outcomes)
       <==> exists i :: 0 <= i < |candidates| && candidates[i].Id() == f.key && outcomes[i] == f.cause && !f.cause.Nothing? && !f.cause.Purged?
    decreases |candidates|
  {
    if candidates != [] { FailuresExactly(candidates[..|candidates| - 1], outcomes[..|candidates| - 1], f); }
  }

  /** Each candidate is reported under its own outcome: purged, unavailable, or failed with its cause. */
  lemma ReportSays(candidates: seq<Record>, outcomes: seq<PurgeOutcome>, i: nat)
    requires |candidates| == |outcomes| && i < |candidates|
    requires forall i, j :: 0 <= i < j < |candidates| ==> candidates[i].Id() != candidates[j].Id()
    ensures var r, k, o := ReportOf(candidates, outcomes), candidates[i].Id(), outcomes[i];
      && (k in r.purged <==> o.Purged?) && (k in r.alreadyUnavailable <==> o.Nothing?)
      && (forall cause :: Failure(k, cause) in r.failures <==> cause == o && !o.Purged? && !o.Nothing?)
      && r.considered == |candidates|
  {
    var k := candidates[i].Id();
    KeysWhereExactly(candidates, outcomes, Succeeded, k);
    KeysWhereExactly(candidates, outcomes, Unavailable, k);
    forall cause ensures Failure(k, cause) in FailuresOf(candidates, outcomes) <==> cause == outcomes[i] && Failed(outcomes[i]) {
      FailuresExactly(candidates, outcomes, Failure(k, cause));
    }
  }

  function Endings(w: Circumstances, candidates: seq<Record>): seq<PurgeOutcome> {
    seq(|candidates|, i requires 0 <= i < |candidates| => w.Ending(candidates[i]))
  }

  // ---- What a sweep nobody interferes with leaves behind ----

  /** Where an ending leaves the record r, stored under k. */
  predicate Left(t: Store, k: Key, r: Record, ending: PurgeOutcome) {
    && k in t.records
    && t.records[k] == (if ending.Purged? then ending.record else r)
    && (k in t.claims <==> ending.InvalidIdentifier?)
  }

  predicate Same(s: Store, t: Store, k: Key) {
    && (k in t.records <==> k in s.records) && (k in s.records ==> t.records[k] == s.records[k])
    && (k in t.claims <==> k in s.claims)
  }

  /** The candidates have met their endings; every other key is as it was. */
  ghost predicate Swept(w: Circumstances, s: Store, t: Store, candidates: seq<Record>) {
    && (forall i :: 0 <= i < |candidates| ==> Left(t, candidates[i].Id(), candidates[i], w.Ending(candidates[i])))
    && (forall k :: k !in IdsOf(candidates) ==> Same(s, t, k))
  }

  /** The storage keys whose blob the endings of these candidates removed. */
  function Erased(w: Circumstances, candidates: seq<Record>): set<string> {
    set c | c in candidates && (w.Ending(c).Purged? || w.Ending(c).FinalizeRaised?) :: StorageKey(c.Id())
  }

  /** The keys a sweep takes out of the next one's reach: purged, or claimed under an invalid identifier. */
  ghost function Gone(w: Circumstances, candidates: seq<Record>): set<Key> {
    set c | c in candidates && (w.Ending(c).Purged? || w.Ending(c).InvalidIdentifier?) :: c.Id()
  }

  /** One candidate, purged in a store where it is still retired and unclaimed. */
  lemma PurgeOne(w: Circumstances, p: Policy, s: Store, r: Record)
    requires Valid(s) && r.Id() in RetiredUnclaimed(s) && s.records[r.Id()] == r
    ensures var b := BeginPurge(p, s, r.Id(), w.clock(r.Id()), w.now);
            && (w.Ending(r).Refused? ==> b == Step(s, Err(InvalidCandidate)))
            && (!w.Ending(r).Refused? ==> b.reply.Ok? && b.reply.value.Some? && b.store.records == s.records
                                          && b.store.claims.Keys == s.claims.Keys + {r.Id()})
  {
    assert KeyValid(s, r.Id());
  }

  lemma SweptSnoc(w: Circumstances, s: Store, t: Store, t': Store, candidates: seq<Record>, c: Record)
    requires Swept(w, s, t, candidates) && c.Id() !in IdsOf(candidates)
    requires Left(t', c.Id(), c, w.Ending(c)) && forall k :: k != c.Id() ==> Same(t, t', k)
    ensures Swept(w, s, t', candidates + [c])
  {
    var all := candidates + [c];
    forall i | 0 <= i < |all| ensures Left(t', all[i].Id(), all[i], w.Ending(all[i])) {
      if i < |candidates| {
        assert candidates[i].Id() in IdsOf(candidates);
        assert Same(t, t', candidates[i].Id());
      }
    }
    forall k | k !in IdsOf(all) ensures Same(s, t', k) {
      assert c in all && c.Id() in IdsOf(all);
      assert k !in IdsOf(candidates) by {
        forall r | r in candidates ensures r.Id() != k { assert r in all; }
      }
      assert Same(s, t, k) && Same(t, t', k);
    }
  }

  /** After the sweep the next one is offered exactly what this one did not take out of reach. */
  lemma SweptLeaves(w: Circumstances, s: Store, t: Store, candidates: seq<Record>)
    requires Valid(s) && Valid(t) && Swept(w, s, t, candidates) && IdsOf(candidates) <= RetiredUnclaimed(s)
    requires forall c <- candidates :: c.Id() in s.records && s.records[c.Id()] == c
    ensures RetiredUnclaimed(t) == RetiredUnclaimed(s) - Gone(w, candidates)
  {
    forall k ensures k in RetiredUnclaimed(t) <==> k in RetiredUnclaimed(s) && k !in Gone(w, candidates) {
      if k in IdsOf(candidates) {
        var c :| c in candidates && c.Id() == k;
        var i :| 0 <= i < |candidates| && candidates[i] == c;
        assert Left(t, k, c, w.Ending(c));
        assert forall d <- candidates :: d.Id() == k ==> d == c;
      } else {
        assert Same(s, t, k);
      }
    }
  }

  // ---- What a sweep that meets no fault does ----

  /** Every purgeable record can be purged under these circumstances. */
  ghost predicate NoFaultAhead(w: Circumstances, s: Store) {
    forall k <- RetiredUnclaimed(s) :: w.FaultFree(s.records[k])
  }

  /** The sweep from s to t purged the min(batch, n) oldest purgeable records and left the others alone. */
  ghost predicate PurgesOldest(s: Store, t: Store, batch: nat, report: SweepResult) {
    var xs, n := Offered(s, batch), |RetiredUnclaimed(s)|;
    && report == SweepResult(KeysOf(xs), [], [], if batch < n then batch else n)
    && IdsOf(xs) <= RetiredUnclaimed(s) && |IdsOf(xs)| == |xs| == report.considered
    && RetiredUnclaimed(t) == RetiredUnclaimed(s) - IdsOf(xs)
    && (forall k <- RetiredUnclaimed(t) :: t.records[k] == s.records[k])
    && (forall c, k :: c in xs && k in RetiredUnclaimed(t) ==> RetiredNoLater(c, s.records[k]))
  }

  lemma FaultFreeIsPurged(w: Circumstances, s: Store, k: Key)
    requires Valid(s) && k in RetiredUnclaimed(s)
    ensures w.FaultFree(s.records[k]) <==> w.Ending(s.records[k]).Purged?
  {
    assert KeyValid(s, k);
  }

  lemma {:induction false} AllPurged(candidates: seq<Record>, outcomes: seq<PurgeOutcome>)
    requires |candidates| == |outcomes| && forall o <- outcomes :: o.Purged?
    ensures var r := ReportOf(candidates, outcomes);
            r.purged == KeysOf(candidates) && r.alreadyUnavailable == [] && r.failures == []
    decreases |candidates|
  {
    if candidates != [] {
      var last := |candidates| - 1;
      AllPurged(candidates[..last], outcomes[..last]);
      assert KeysOf(candidates) == KeysOf(candidates[..last]) + [candidates[last].Id()];
    }
  }

  lemma OfferedFirst(s: Store, batch: nat, c: Record, k: Key)
    requires Valid(s) && c in Offered(s, batch) && k in RetiredUnclaimed(s) && k !in IdsOf(Offered(s, batch))
    ensures RetiredNoLater(c, s.records[k])
  {
    PrefixListsOldestRetired(s, batch);
    assert s.records[k] !in Offered(s, batch) by { assert KeyValid(s, k); }
    assert Purgeable(s, k);
  }

  lemma {:induction false} DistinctIds(xs: seq<Record>)
    requires forall i, j :: 0 <= i < j < |xs| ==> xs[i].Id() != xs[j].Id()
    ensures |IdsOf(xs)| == |xs|
    decreases |xs|
  {
    if xs != [] {
      var last := |xs| - 1;
      DistinctIds(xs[..last]);
      PrefixIds(xs, last);
      assert xs[..last + 1] == xs;
    }
  }

  lemma NoFaults(w: Circumstances, s: Store, xs: seq<Record>)
    requires Valid(s) && NoFaultAhead(w, s)
    requires forall c <- xs :: c.Id() in RetiredUnclaimed(s) && s.records[c.Id()] == c
    ensures Gone(w, xs) == IdsOf(xs) && forall o <- Endings(w, xs) :: o.Purged?
  {
    forall c | c in xs ensures w.Ending(c).Purged? { FaultFreeIsPurged(w, s, c.Id()); }
  }

  lemma FaultFreePurgesOldest(w: Circumstances, s: Store, t: Store, batch: nat)
    requires Valid(s) && NoFaultAhead(w, s) && batch > 0
    requires var xs := Offered(s, batch); Swept(w, s, t, xs) && RetiredUnclaimed(t) == RetiredUnclaimed(s) - Gone(w, xs)
    ensures var xs := Offered(s, batch); PurgesOldest(s, t, batch, ReportOf(xs, Endings(w, xs)))
  {
    var xs := Offered(s, batch);
    OfferedOnce(s, batch);
    DistinctIds(xs);
    NoFaults(w, s, xs);
    AllPurged(xs, Endings(w, xs));
    forall k | k in RetiredUnclaimed(t) ensures t.records[k] == s.records[k] { assert Same(s, t, k); }
    forall c, k | c in xs && k in RetiredUnclaimed(t) ensures RetiredNoLater(c, s.records[k]) {
      OfferedFirst(s, batch, c, k);
    }
  }

  // ---- The sweep ----

  /** What the store offers a sweep: at most limit of its retired, unclaimed records, each once. */
  ghost function Offered(s: Store, limit: nat): seq<Record> {
    Prefix(Listing(s.records, RetiredUnclaimed(s), ByRetired), limit)
  }

  lemma OfferedOnce(s: Store, limit: nat)
    requires Valid(s)
    ensures var xs := Offered(s, limit);
            && |xs| == (if limit < |RetiredUnclaimed(s)| then limit else |RetiredUnclaimed(s)|)
            && (forall c <- xs :: c.Id() in RetiredUnclaimed(s) && s.records[c.Id()] == c)
            && (forall i, j :: 0 <= i < j < |xs| ==> xs[i].Id() != xs[j].Id())
  {
    ValidIsKeyed(s);
    ListingElements(s.records, RetiredUnclaimed(s), ByRetired);
  }

  /** A candidate whose turn has not come is as it was listed. */
  lemma NotYetSwept(w: Circumstances, s: Store, t: Store, candidates: seq<Record>, i: nat)
    requires i < |candidates| && Swept(w, s, t, candidates[..i])
    requires forall c <- candidates :: c.Id() in RetiredUnclaimed(s) && s.records[c.Id()] == c
    requires forall i, j :: 0 <= i < j < |candidates| ==> candidates[i].Id() != candidates[j].Id()
    ensures candidates[i].Id() !in IdsOf(candidates[..i])
    ensures candidates[i].Id() in RetiredUnclaimed(t) && t.records[candidates[i].Id()] == candidates[i]
  {
    assert candidates[i] in candidates;
    assert candidates[i].Id() !in IdsOf(candidates[..i]);
    assert Same(s, t, candidates[i].Id());
  }

  /** How far a sweep nobody interferes with has come. */
  ghost predicate Quietly(w: Circumstances, s: Store, blobs: map<string, seq<int>>, t: Store, left: map<string, seq<int>>,
                          candidates: seq<Record>, outcomes: seq<PurgeOutcome>) {
    Swept(w, s, t, candidates) && outcomes == Endings(w, candidates) && left == blobs - Erased(w, candidates)
  }

  lemma QuietStep(w: Circumstances, s: Store, blobs: map<string, seq<int>>, t: Store, left: map<string, seq<int>>,
                  candidates: seq<Record>, outcomes: seq<PurgeOutcome>, c: Record, t': Store, left': map<string, seq<int>>)
    requires Quietly(w, s, blobs, t, left, candidates, outcomes) && c.Id() !in IdsOf(candidates)
    requires Left(t', c.Id(), c, w.Ending(c)) && (forall k :: k != c.Id() ==> Same(t, t', k))
    requires left' == left - Erased(w, [c])
    ensures Quietly(w, s, blobs, t', left', candidates + [c], outcomes + [w.Ending(c)])
  {
    SweptSnoc(w, s, t, t', candidates, c);
    assert Erased(w, candidates + [c]) == Erased(w, candidates) + Erased(w, [c]);
    assert Endings(w, candidates + [c]) == Endings(w, candidates) + [w.Ending(c)];
  }

  /** Calls other holders of the store make, one after the other. */
  method Interfere(store: PostgresMetadataStore, calls: seq<Call>)
    requires store.Valid() && forall c <- calls :: OneReading(c)
    modifies store
    ensures store.Valid() && store.model == R.Run(store.policy, old(store.model), calls)
  {
    ghost var s := store.model;
    for i := 0 to |calls|
      invariant store.Valid() && store.model == R.Run(store.policy, s, calls[..i])
    {
      AnswersSnoc(store.policy, s, calls[..i], calls[i], store.model);
      assert calls[..i + 1] == calls[..i] + [calls[i]];
      var _ := PerformOnTables(store, calls[i]);
    }
    assert calls[..|calls|] == calls;
  }

  /** How purge_retired_ingestion's outcome and effect follow from the circumstances. */
  lemma PurgeEnds(w: Circumstances, s: Store, t: Store, r: Record, outcome: PurgeOutcome)
    requires r.Id() in RetiredUnclaimed(s) && s.records[r.Id()] == r && outcome == w.Ending(r)
    requires match outcome
      case Refused(_) => t == s
      case InvalidIdentifier => t.records == s.records && t.claims.Keys == s.claims.Keys + {r.Id()}
      case Purged(d) => t.records == s.records[r.Id() := d] && t.claims == s.claims
      case _ => Untouched(s, t)
    ensures Left(t, r.Id(), r, w.Ending(r)) && forall k :: k != r.Id() ==> Same(s, t, k)
  {
  }

  /** One candidate, after whatever others did first; if they did nothing, the outcome is its ending. */
  method PurgeNext(store: PostgresMetadataStore, blobStore: InMemoryReportBlobStore, c: Record, w: Circumstances, calls: seq<Call>)
    returns (outcome: PurgeOutcome)
    requires store.Valid() && store != (blobStore as object) && forall call <- calls :: OneReading(call)
    modifies store, blobStore
    ensures store.Valid()
    ensures calls == [] && c.Id() in RetiredUnclaimed(old(store.model)) && old(store.model).records[c.Id()] == c ==>
      && outcome == w.Ending(c)
      && Left(store.model, c.Id(), c, outcome) && (forall k :: k != c.Id() ==> Same(old(store.model), store.model, k))
      && blobStore.blobs == old(blobStore.blobs) - Erased(w, [c])
  {
    ghost var s := store.model;
    Interfere(store, calls);
    ghost var alone := calls == [] && c.Id() in RetiredUnclaimed(s) && s.records[c.Id()] == c;
    if alone { PurgeOne(w, store.policy, s, c); }
    outcome := PurgeRetiredIngestion(store, blobStore, c.Id(), w.clock(c.Id()), w.now,
                                     c.Id() in w.deleteRaises, c.Id() in w.finalizeRaises);
    if alone {
      assert outcome == w.Ending(c);
      PurgeEnds(w, s, store.model, c, outcome);
      assert Erased(w, [c]) == if outcome.Purged? || outcome.FinalizeRaised? then {StorageKey(c.Id())} else {};
    }
  }

  ghost predicate OfferedBy(s: Store, candidates: seq<Record>) {
    && (forall c <- candidates :: c.Id() in RetiredUnclaimed(s) && s.records[c.Id()] == c)
    && (forall i, j :: 0 <= i < j < |candidates| ==> candidates[i].Id() != candidates[j].Id())
  }

  /** The loop's invariant: the report so far, and how far a quiet sweep has come. */
  ghost predicate Progress(quiet: bool, w: Circumstances, s: Store, blobs: map<string, seq<int>>, t: Store, left: map<string, seq<int>>,
                           done: seq<Record>, outcomes: seq<PurgeOutcome>, report: SweepResult) {
    && |outcomes| == |done| && report == ReportOf(done, outcomes)
    && (quiet ==> Quietly(w, s, blobs, t, left, done, outcomes))
  }

  lemma ProgressStep(quiet: bool, w: Circumstances, s: Store, blobs: map<string, seq<int>>, t: Store, left: map<string, seq<int>>,
                     candidates: seq<Record>, i: nat, outcomes: seq<PurgeOutcome>, report: SweepResult,
                     outcome: PurgeOutcome, t': Store, left': map<string, seq<int>>)
    requires i < |candidates| && OfferedBy(s, candidates)
    requires Progress(quiet, w, s, blobs, t, left, candidates[..i], outcomes, report)
    requires var c := candidates[i];
      quiet ==> outcome == w.Ending(c) && Left(t', c.Id(), c, outcome) && (forall k :: k != c.Id() ==> Same(t, t', k))
                && left' == left - Erased(w, [c])
    ensures Progress(quiet, w, s, blobs, t', left', candidates[..i + 1], outcomes + [outcome], Entered(report, candidates[i], outcome))
  {
    var c := candidates[i];
    assert candidates[..i + 1] == candidates[..i] + [c];
    ReportSnoc(candidates[..i], outcomes, c, outcome);
    if quiet {
      NotYetSwept(w, s, t, candidates, i);
      QuietStep(w, s, blobs, t, left, candidates[..i], outcomes, c, t', left');
    }
  }

  /** One iteration of the sweep's loop. */
  method PurgeStep(store: PostgresMetadataStore, blobStore: InMemoryReportBlobStore, candidates: seq<Record>, i: nat, w: Circumstances,
                   calls: seq<Call>, ghost quiet: bool, ghost s: Store, ghost blobs: map<string, seq<int>>,
                   ghost outcomes: seq<PurgeOutcome>, ghost report: SweepResult)
    returns (outcome: PurgeOutcome)
    requires store.Valid() && store != (blobStore as object) && (forall call <- calls :: OneReading(call)) && (quiet ==> calls == [])
    requires i < |candidates| && OfferedBy(s, candidates)
    requires Progress(quiet, w, s, blobs, store.model, blobStore.blobs, candidates[..i], outcomes, report)
    modifies store, blobStore
    ensures store.Valid()
    ensures Progress(quiet, w, s, blobs, store.model, blobStore.blobs, candidates[..i + 1], outcomes + [outcome],
                     Entered(report, candidates[i], outcome))
  {
    ghost var t, left := store.model, blobStore.blobs;
    if quiet { NotYetSwept(w, s, t, candidates, i); }
    outcome := PurgeNext(store, blobStore, candidates[i], w, calls);
    ProgressStep(quiet, w, s, blobs, t, left, candidates, i, outcomes, report, outcome, store.model, blobStore.blobs);
  }

  /** The sweep's loop over the candidates it listed. */
  method PurgeEach(store: PostgresMetadataStore, blobStore: InMemoryReportBlobStore, candidates: seq<Record>,
                   w: Circumstances, others: nat -> seq<Call>, ghost quiet: bool)
    returns (result: SweepResult, ghost outcomes: seq<PurgeOutcome>)
    requires store.Valid() && store != (blobStore as object) && OfferedBy(store.model, candidates)
    requires forall i: nat :: (quiet ==> others(i) == []) && forall c <- others(i) :: OneReading(c)
    modifies store, blobStore
    ensures store.Valid()
    ensures Progress(quiet, w, old(store.model), old(blobStore.blobs), store.model, blobStore.blobs, candidates, outcomes, result)
  {
    ghost var s, blobs := store.model, blobStore.blobs;
    var purged, alreadyUnavailable, failures := [], [], [];
    outcomes := [];
    for i := 0 to |candidates|
      invariant store.Valid()
      invariant Progress(quiet, w, s, blobs, store.model, blobStore.blobs, candidates[..i], outcomes,
                         SweepResult(purged, alreadyUnavailable, failures, i))
    {
      var c := candidates[i];
      ghost var report := SweepResult(purged, alreadyUnavailable, failures, i);
      var outcome := PurgeStep(store, blobStore, candidates, i, w, others(i), quiet, s, blobs, outcomes, report);
      if outcome.Nothing? {
        alreadyUnavailable := alreadyUnavailable + [c.Id()];
      } else if outcome.Purged? {
        purged := purged + [c.Id()];
      } else {
        failures := failures + [Failure(c.Id(), outcome)];
      }
      assert SweepResult(purged, alreadyUnavailable, failures, i + 1) == Entered(report, c, outcome);
      outcomes := outcomes + [outcome];
    }
    assert candidates[..|candidates|] == candidates;
    result := SweepResult(purged, alreadyUnavailable, failures, |candidates|);
  }

  /**
   Purges up to batchSize candidates one by one. Before each, other holders of the store may have made
   any calls. The three lists always partition the candidates. When nobody interferes, every candidate
   meets its own ending whatever happened to the others, nothing is unavailable, and nothing but the
   candidates' records, claims and blobs changes. If no fault lies ahead either, it purges exactly the
   min(batchSize, n) oldest purgeable records.
   */
  method RunPurgeSweep(store: PostgresMetadataStore, blobStore: InMemoryReportBlobStore, batchSize: int,
                       w: Circumstances, others: nat -> seq<Call>)
    returns (result: Result<SweepResult>)
    requires store.Valid() && store != (blobStore as object)
    requires forall i: nat :: forall c <- others(i) :: OneReading(c)
    modifies store, blobStore
    ensures store.Valid()
    ensures batchSize <= 0 ==> result == Err(InvalidArgument) && store.model == old(store.model) && blobStore.blobs == old(blobStore.blobs)
    ensures batchSize > 0 ==>
      var candidates := Offered(old(store.model), batchSize);
      && result.Ok? && result.value.considered == |candidates|
      && Named(result.value) == multiset(KeysOf(candidates))
      && ((forall i: nat :: others(i) == []) ==>
            && result.value == ReportOf(candidates, Endings(w, candidates))
            && Swept(w, old(store.model), store.model, candidates)
            && RetiredUnclaimed(store.model) == RetiredUnclaimed(old(store.model)) - Gone(w, candidates)
            && blobStore.blobs == old(blobStore.blobs) - Erased(w, candidates))
    ensures batchSize > 0 && (forall i: nat :: others(i) == []) && NoFaultAhead(w, old(store.model)) ==>
      PurgesOldest(old(store.model), store.model, batchSize, result.value)
  {
    if batchSize <= 0 { return Err(InvalidArgument); }
    ghost var s := store.model;
    var listed := store.ListRetiredForPurgeSweep(batchSize);
    OfferedOnce(s, batchSize);
    ghost var quiet := forall i: nat :: others(i) == [];
    var report, outcomes := PurgeEach(store, blobStore, listed.value, w, others, quiet);
    ReportPartitions(listed.value, outcomes);
    if quiet {
      SweptLeaves(w, s, store.model, listed.value);
      if NoFaultAhead(w, s) { FaultFreePurgesOldest(w, s, store.model, batchSize); }
    }
    return Ok(report);
  }

  // ---- Sweeping until nothing is left ----

  /** Sweep after sweep takes a whole batch off the backlog, until nothing is left of it. */
  function BacklogAfter(n: nat, batch: nat, sweeps: nat): nat { if sweeps * batch < n then n - sweeps * batch else 0 }

  lemma OneMoreSweep(s: Store, t: Store, batch: nat, report: SweepResult, n: nat, i: nat)
    requires PurgesOldest(s, t, batch, report) && |RetiredUnclaimed(s)| == BacklogAfter(n, batch, i)
    ensures |RetiredUnclaimed(t)| == BacklogAfter(n, batch, i + 1)
  {
    var xs := Offered(s, batch);
    assert (i + 1) * batch == i * batch + batch;
    assert |RetiredUnclaimed(t)| == |RetiredUnclaimed(s)| - |IdsOf(xs)|;
  }

  lemma CeilingCovers(n: nat, batch: nat, sweeps: nat)
    requires batch > 0
    ensures sweeps * batch >= n <==> sweeps >= (n + batch - 1) / batch
  {
    var q, r := (n + batch - 1) / batch, (n + batch - 1) % batch;
    assert q * batch + r == n + batch - 1;
    if sweeps >= q {
      assert sweeps * batch >= q * batch by { Multiply(q, sweeps, batch); }
    } else {
      assert sweeps * batch <= (q - 1) * batch by { Multiply(sweeps, q - 1, batch); }
      assert (q - 1) * batch == q * batch - batch;
    }
  }

  lemma Multiply(a: int, b: int, c: nat)
    requires a <= b
    ensures a * c <= b * c
  {
  }

  ghost function KeySet(ks: seq<Key>): set<Key> { set k | k in ks }

  lemma KeySetConcat(ks: seq<Key>, more: seq<Key>)
    ensures KeySet(ks + more) == KeySet(ks) + KeySet(more)
  {
  }

  lemma KeysAreIds(xs: seq<Record>)
    ensures KeySet(KeysOf(xs)) == IdsOf(xs)
  {
    forall r | r in xs ensures r.Id() in KeysOf(xs) {
      var i :| 0 <= i < |xs| && xs[i] == r;
      assert KeysOf(xs)[i] == r.Id();
    }
  }

  function Nobody(i: nat): seq<Call> { [] }

  /** What i sweeps have done to the backlog of s. */
  ghost predicate Drained(s: Store, t: Store, batch: nat, i: nat, purged: seq<Key>) {
    && RetiredUnclaimed(t) <= RetiredUnclaimed(s)
    && (forall k <- RetiredUnclaimed(t) :: t.records[k] == s.records[k])
    && |RetiredUnclaimed(t)| == BacklogAfter(|RetiredUnclaimed(s)|, batch, i)
    && KeySet(purged) == RetiredUnclaimed(s) - RetiredUnclaimed(t)
  }

  lemma TakenAway(all: set<Key>, left: set<Key>, less: set<Key>, taken: set<Key>)
    requires left <= all && taken <= left && less == left - taken
    ensures less <= all && (all - left) + taken == all - less
  {
  }

  lemma DrainedOnce(s: Store, t: Store, t': Store, batch: nat, i: nat, purged: seq<Key>, report: SweepResult)
    requires Drained(s, t, batch, i, purged) && PurgesOldest(t, t', batch, report)
    ensures Drained(s, t', batch, i + 1, purged + report.purged)
  {
    var xs := Offered(t, batch);
    OneMoreSweep(t, t', batch, report, |RetiredUnclaimed(s)|, i);
    KeysAreIds(xs);
    KeySetConcat(purged, report.purged);
    TakenAway(RetiredUnclaimed(s), RetiredUnclaimed(t), RetiredUnclaimed(t'), IdsOf(xs));
    forall k | k in RetiredUnclaimed(t') ensures t'.records[k] == s.records[k] { assert k in RetiredUnclaimed(t); }
  }

  lemma DrainedNotYet(s: Store, batch: nat)
    ensures Drained(s, s, batch, 0, [])
  {
  }

  lemma DrainedEnough(s: Store, t: Store, batch: nat, sweeps: nat, purged: seq<Key>)
    requires Drained(s, t, batch, sweeps, purged) && batch > 0
    ensures RetiredUnclaimed(t) == {} <==> sweeps >= (|RetiredUnclaimed(s)| + batch - 1) / batch
  {
    CeilingCovers(|RetiredUnclaimed(s)|, batch, sweeps);
  }

  lemma StillNoFault(w: Circumstances, s: Store, t: Store, batch: nat, i: nat, purged: seq<Key>)
    requires NoFaultAhead(w, s) && Drained(s, t, batch, i, purged)
    ensures NoFaultAhead(w, t)
  {
    forall k | k in RetiredUnclaimed(t) ensures w.FaultFree(t.records[k]) { assert t.records[k] == s.records[k]; }
  }

  /** One more sweep on a backlog that earlier ones have worked on. */
  method SweepAgain(store: PostgresMetadataStore, blobStore: InMemoryReportBlobStore, batch: nat, w: Circumstances,
                    before: seq<Key>, ghost s: Store, ghost i: nat)
    returns (purged: seq<Key>)
    requires store.Valid() && store != (blobStore as object) && batch > 0
    requires NoFaultAhead(w, s) && Drained(s, store.model, batch, i, before)
    modifies store, blobStore
    ensures store.Valid() && Drained(s, store.model, batch, i + 1, purged)
  {
    ghost var t := store.model;
    StillNoFault(w, s, t, batch, i, before);
    var swept := RunPurgeSweep(store, blobStore, batch, w, Nobody);
    DrainedOnce(s, t, store.model, batch, i, before, swept.value);
    purged := before + swept.value.purged;
  }

  /**
   One sweep after another, each under its own circumstances, with nobody else at work and no fault ahead
   of any: the backlog is empty exactly from the ceil(n / batch)-th sweep on, and exactly what has left it
   was purged.
   */
  method SweepRepeatedly(store: PostgresMetadataStore, blobStore: InMemoryReportBlobStore, batch: nat, ws: seq<Circumstances>)
    returns (purged: seq<Key>)
    requires store.Valid() && store != (blobStore as object) && batch > 0
    requires forall i :: 0 <= i < |ws| ==> NoFaultAhead(ws[i], store.model)
    modifies store, blobStore
    ensures store.Valid()
    ensures RetiredUnclaimed(store.model) == {} <==> |ws| >= (|RetiredUnclaimed(old(store.model))| + batch - 1) / batch
    ensures Drained(old(store.model), store.model, batch, |ws|, purged)
  {
    ghost var s := store.model;
    purged := [];
    DrainedNotYet(s, batch);
    for i := 0 to |ws|
      invariant store.Valid() && Drained(s, store.model, batch, i, purged)
    {
      purged := SweepAgain(store, blobStore, batch, ws[i], purged, s, i);
    }
    DrainedEnough(s, store.model, batch, |ws|, purged);
  }
}
