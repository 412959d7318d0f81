/**
 Runs of the metadata store: any sequence of calls, with any arguments, any claims (stale,
 released or made up) and any clock readings. What one call keeps, and what whole runs keep.
 */
module StoreRuns {
  import opened Wrappers
  import opened Models
  import opened StoreSpec
  import opened StoreChanges

  function Run(p: Policy, s: Store, calls: seq<Call>): Store
    decreases |calls|
  {
    if calls == [] then s else Run(p, After(p, s, calls[0]), calls[1..])
  }

  lemma {:induction false} RunKeepsValid(p: Policy, s: Store, calls: seq<Call>)
    requires Valid(s)
    ensures Valid(Run(p, s, calls))
    decreases |calls|
  {
    if calls != [] {
      AfterKeepsValid(p, s, calls[0]);
      RunKeepsValid(p, After(p, s, calls[0]), calls[1..]);
    }
  }

  /** In every reachable store the records, tombstones, generations, claims and index agree. */
  lemma ReachableIsValid(p: Policy, calls: seq<Call>)
    ensures Valid(Run(p, EMPTY, calls))
  {
    RunKeepsValid(p, EMPTY, calls);
  }

  // ---- Refusals ----

  /** A refused call leaves the whole store as it was, and a create never misses its index target. */
  lemma RefusedLeavesStore(p: Policy, s: Store, c: Call)
    requires Valid(s) && Answer(p, s, c).Refused()
    ensures After(p, s, c) == s
    ensures Answer(p, s, c) != CreateReply(Err(MissingIndexTarget))
  {
    match c
    case CreateCall(q, now, expiryNow) =>
      assert KeyValid(s, q.Target());
      assert SlotValid(s, Slot(q.tenant, q.fingerprint));
    case GetCall(k, now) =>
    case GetAnyCall(k, now) =>
    case GetTombstoneCall(k, now) =>
    case RetireCall(k, at, why, now) => assert KeyValid(s, k);
    case PurgeCall(k, at, now) => assert KeyValid(s, k);
    case BeginCall(k, at, now) => assert KeyValid(s, k);
    case ReleaseCall(claim) =>
    case FinalizeCall(claim, now) =>
  }

  // ---- Lifecycle of one generation ----

  function Rank(status: Status): nat {
    match status
    case Received => 0
    case Retired => 1
    case Deleted => 2
  }

  /** r' is a later form of the same ingestion: what was written once is never rewritten. */
  predicate Descends(r: Record, r': Record) {
    && r'.Id() == r.Id() && r'.fingerprint == r.fingerprint && r'.receivedAt == r.receivedAt
    && Rank(r.status) <= Rank(r'.status)
    && (!r.status.Received? ==> r'.reason == r.reason && r'.retiredAt == r.retiredAt)
    && (r.status.Deleted? ==> r' == r)
  }

  /** What an elementary change does to the record that key k holds as generation g. */
  predicate Moves(s: Store, e: Change, t: Store, k: Key, g: int)
    requires s.Live(k, g)
  {
    && t.Live(k, g)
    && var r, r' := s.records[k], t.records[k];
       || r' == r
       || (e.Retirement? && e.k == k && r.status.Received? && r' == r.AsRetired(e.at, e.why) && r.receivedAt <= e.at)
       || (e.Deletion? && e.k == k && r.status.Retired? && k !in s.claims && r' == r.AsDeleted(e.at))
       || (e.Finalization? && e.c.key == k && r.status.Retired? && s.Holds(e.c) && r' == s.claims[k].purged)
  }

  lemma DoMoves(s: Store, e: Change, k: Key, g: int)
    requires Valid(s) && Enabled(s, e) && s.Live(k, g)
    ensures Moves(s, e, Do(s, e), k, g)
  {
    assert KeyValid(s, k);
  }

  /**
   One call moves the record of a live generation forward by at most one status, in the way and by
   the call that may do it; a record disappears only when it is deleted and its tombstone expired.
   */
  lemma LifecycleStep(p: Policy, s: Store, c: Call, k: Key, g: int)
    requires Valid(s) && s.Live(k, g)
    ensures var b, t := Before(p, s, c), After(p, s, c);
            || (b.Live(k, g) && b.records[k] == s.records[k] && Moves(b, ChangeOf(p, s, c), t, k, g))
            || (s.records[k].status.Deleted? && k == Touched(c) && k in s.tombstones && k !in b.tombstones && !t.Live(k, g))
  {
    NormalForm(p, s, c);
    BeforeKeepsValid(p, s, c);
    assert KeyValid(s, k);
    var b, e := Before(p, s, c), ChangeOf(p, s, c);
    ExpireEffect(p, s, c, k);
    if k in b.records {
      DoMoves(b, e, k, g);
    } else {
      GoneStays(b, e, k, g);
    }
  }

  /** What lazy expiry of one key does to another, or to that one. */
  predicate ExpiresOnly(s: Store, b: Store, touched: Key, k: Key) {
    && b.generations == s.generations && b.nextGeneration == s.nextGeneration
    && b.claims == s.claims && b.nextClaimId == s.nextClaimId
    && b.active == s.active && b.bindings == s.bindings
    && (k in b.records ==> k in s.records && b.records[k] == s.records[k])
    && (k in s.records && k !in b.records ==>
          s.records[k].status.Deleted? && k == touched && k in s.tombstones && k !in b.tombstones)
  }

  lemma ExpireOne(p: Policy, s: Store, touched: Key, now: int, k: Key)
    requires KeyValid(s, k)
    ensures ExpiresOnly(s, Expire(p, s, touched, now), touched, k)
  {
  }

  /** Lazy expiry touches one key, and only removes a deleted record with its tombstone. */
  lemma ExpireEffect(p: Policy, s: Store, c: Call, k: Key)
    requires Valid(s)
    ensures ExpiresOnly(s, Before(p, s, c), Touched(c), k)
  {
    assert KeyValid(s, k);
    match c {
      case CreateCall(q, _, expiryNow) => ExpireOne(p, s, q.Target(), expiryNow, k);
      case ReleaseCall(_) =>
      case FinalizeCall(claim, now) => ExpireOne(p, s, claim.key, now, k);
      case _ => ExpireOne(p, s, c.k, c.now, k);
    }
  }

  lemma GoneStays(s: Store, e: Change, k: Key, g: int)
    requires Valid(s) && Enabled(s, e) && k !in s.records && g <= s.nextGeneration
    ensures !Do(s, e).Live(k, g)
  {
    if e.Rebind? { assert KeyValid(s, e.r.Id()); }
  }

  /** Whatever key k holds in t is either a later form of what it held in s or a new generation. */
  predicate KeyLater(s: Store, t: Store, k: Key) {
    && s.nextGeneration <= t.nextGeneration
    && (k in t.records ==>
          && k in t.generations
          && var g := t.generations[k];
             g > s.nextGeneration || (s.Live(k, g) && Descends(s.records[k], t.records[k])))
  }

  lemma KeyLaterDo(s: Store, e: Change, k: Key)
    requires Valid(s) && Enabled(s, e)
    ensures KeyLater(s, Do(s, e), k)
  {
    assert KeyValid(s, k);
    if k in s.records {
      DoMoves(s, e, k, s.generations[k]);
    } else if e.Rebind? {
      assert KeyValid(s, e.r.Id());
    }
  }

  lemma KeyLaterStep(p: Policy, s: Store, c: Call, k: Key)
    requires Valid(s)
    ensures KeyLater(s, After(p, s, c), k)
  {
    NormalForm(p, s, c);
    BeforeKeepsValid(p, s, c);
    ExpireEffect(p, s, c, k);
    KeyLaterDo(Before(p, s, c), ChangeOf(p, s, c), k);
  }

  /**
   Over any run, a generation that is gone never comes back, and one that is still there has only
   moved forward: received, retired, deleted; its reason and retirement time are written once.
   */
  lemma {:induction false} LifecycleRun(p: Policy, s: Store, calls: seq<Call>, k: Key)
    requires Valid(s)
    ensures KeyLater(s, Run(p, s, calls), k)
    decreases |calls|
  {
    if calls == [] {
      assert KeyValid(s, k);
    } else {
      var t := After(p, s, calls[0]);
      AfterKeepsValid(p, s, calls[0]);
      KeyLaterStep(p, s, calls[0], k);
      LifecycleRun(p, t, calls[1..], k);
    }
  }

  // ---- Deduplication ----

  predicate Creates(p: Policy, s: Store, c: Call, slot: Slot) {
    var a := Answer(p, s, c);
    a.CreateReply? && a.created.Ok? && a.created.value.created && SlotOf(a.created.value.record) == slot
  }

  /** Some record in the slot goes from received to retired between s and t. */
  ghost predicate Vacates(s: Store, t: Store, slot: Slot) {
    exists k :: s.HasStatus(k, Received) && SlotOf(s.records[k]) == slot && t.HasStatus(k, Retired)
  }

  /** created=True answers minus retirements, for one slot, over a run. */
  ghost function Tally(p: Policy, s: Store, calls: seq<Call>, slot: Slot): int
    decreases |calls|
  {
    if calls == [] then 0
    else
      var t := After(p, s, calls[0]);
      Indicator(Creates(p, s, calls[0], slot)) - Indicator(Vacates(s, t, slot)) + Tally(p, t, calls[1..], slot)
  }

  /** Within one call a record is retired exactly by the elementary change that retires it. */
  lemma VacatesExactly(s: Store, e: Change, slot: Slot)
    requires Valid(s) && Enabled(s, e)
    ensures Vacates(s, Do(s, e), slot) <==> e.Retirement? && SlotOf(s.records[e.k]) == slot
  {
    var t := Do(s, e);
    forall k | s.HasStatus(k, Received) && SlotOf(s.records[k]) == slot && t.HasStatus(k, Retired)
      ensures e.Retirement? && SlotOf(s.records[e.k]) == slot
    {
      assert KeyValid(s, k);
      DoMoves(s, e, k, s.generations[k]);
    }
    if e.Retirement? && SlotOf(s.records[e.k]) == slot {
      assert s.HasStatus(e.k, Received) && t.HasStatus(e.k, Retired);
    }
  }

  lemma TallyDo(s: Store, e: Change, slot: Slot)
    requires Valid(s) && Enabled(s, e)
    ensures Indicator(slot in Do(s, e).active)
         == Indicator(slot in s.active) + Indicator(e.Insertion? && Slot(e.q.tenant, e.q.fingerprint) == slot)
            - Indicator(e.Retirement? && SlotOf(s.records[e.k]) == slot)
  {
    if e.Retirement? { assert KeyValid(s, e.k); }
  }

  /** A created=True answer is exactly an insertion. */
  lemma CreatesExactly(p: Policy, s: Store, c: Call, slot: Slot)
    ensures var e := ChangeOf(p, s, c);
            Creates(p, s, c, slot) <==> e.Insertion? && Slot(e.q.tenant, e.q.fingerprint) == slot
  {
  }

  /** Expiry retires nothing, so it makes no difference to what is vacated. */
  lemma VacatesAfterExpiry(p: Policy, s: Store, c: Call, t: Store, slot: Slot)
    requires Valid(s)
    ensures Vacates(s, t, slot) <==> Vacates(Before(p, s, c), t, slot)
  {
    var b := Before(p, s, c);
    forall k ensures s.HasStatus(k, Received) <==> b.HasStatus(k, Received) { ExpireEffect(p, s, c, k); }
    forall k | k in b.records ensures k in s.records && b.records[k] == s.records[k] { ExpireEffect(p, s, c, k); }
  }

  lemma TallyStep(p: Policy, s: Store, c: Call, slot: Slot)
    requires Valid(s)
    ensures Indicator(slot in After(p, s, c).active)
         == Indicator(slot in s.active) + Indicator(Creates(p, s, c, slot)) - Indicator(Vacates(s, After(p, s, c), slot))
  {
    NormalForm(p, s, c);
    BeforeKeepsValid(p, s, c);
    CreatesExactly(p, s, c, slot);
    var b, e := Before(p, s, c), ChangeOf(p, s, c);
    TallyDo(b, e, slot);
    VacatesExactly(b, e, slot);
    VacatesAfterExpiry(p, s, c, Do(b, e), slot);
  }

  /**
   Dedup conservation: over any run from the empty store, creations minus retirements in a slot is
   0 or 1, and 1 exactly while the index holds the slot.
   */
  lemma {:induction false} DedupConservation(p: Policy, s: Store, calls: seq<Call>, slot: Slot)
    requires Valid(s)
    ensures Indicator(slot in Run(p, s, calls).active) == Indicator(slot in s.active) + Tally(p, s, calls, slot)
    decreases |calls|
  {
    if calls != [] {
      TallyStep(p, s, calls[0], slot);
      AfterKeepsValid(p, s, calls[0]);
      DedupConservation(p, After(p, s, calls[0]), calls[1..], slot);
    }
  }

  /** The index answers exactly what a scan of the received records would, and the scan has one hit. */
  lemma IndexIsScan(s: Store, slot: Slot)
    requires Valid(s)
    ensures slot in s.active <==> exists k :: s.HasStatus(k, Received) && SlotOf(s.records[k]) == slot
    ensures forall k :: s.HasStatus(k, Received) && SlotOf(s.records[k]) == slot
              ==> slot in s.active && k == Key(slot.tenant, s.active[slot])
  {
    assert SlotValid(s, slot);
    if slot in s.active {
      var k := Key(slot.tenant, s.active[slot]);
      assert KeyValid(s, k);
      assert s.HasStatus(k, Received) && SlotOf(s.records[k]) == slot;
    }
    forall k | s.HasStatus(k, Received) && SlotOf(s.records[k]) == slot
      ensures slot in s.active && k == Key(slot.tenant, s.active[slot])
    {
      assert KeyValid(s, k);
    }
  }

  // ---- Purge claims ----

  /** The claim was handed out at some time and is no longer active. */
  predicate Spent(s: Store, c: PurgeClaim) {
    c.claimId <= s.nextClaimId && !s.Holds(c)
  }

  lemma SpentDo(s: Store, e: Change, c: PurgeClaim)
    requires Enabled(s, e) && Spent(s, c)
    ensures Spent(Do(s, e), c)
  {
  }

  lemma SpentStep(p: Policy, s: Store, call: Call, c: PurgeClaim)
    requires Valid(s) && Spent(s, c)
    ensures Spent(After(p, s, call), c)
  {
    NormalForm(p, s, call);
    ExpireEffect(p, s, call, c.key);
    SpentDo(Before(p, s, call), ChangeOf(p, s, call), c);
  }

  /** A claim that was released, finalized or superseded never acts again, whatever is called. */
  lemma {:induction false} SpentForever(p: Policy, s: Store, calls: seq<Call>, c: PurgeClaim, now: int)
    requires Valid(s) && Spent(s, c)
    ensures Spent(Run(p, s, calls), c)
    ensures Finalize(p, Run(p, s, calls), c, now).reply == Ok(None)
    ensures Release(Run(p, s, calls), c) == Run(p, s, calls)
    decreases |calls|
  {
    if calls != [] {
      SpentStep(p, s, calls[0], c);
      AfterKeepsValid(p, s, calls[0]);
      SpentForever(p, After(p, s, calls[0]), calls[1..], c, now);
    }
  }

  /** Releasing or finalizing an issued claim spends it: it finalizes at most once, and never after release. */
  lemma UseSpends(p: Policy, s: Store, c: PurgeClaim, now: int)
    requires Valid(s) && c.claimId <= s.nextClaimId
    ensures Spent(Release(s, c), c)
    ensures Spent(Finalize(p, s, c, now).store, c)
  {
  }

  /** Releasing or finalizing anything but the exact active claim changes no claim and no record that is held. */
  lemma StaleClaimIsInert(p: Policy, s: Store, c: PurgeClaim, now: int)
    requires Valid(s) && !s.Holds(c)
    ensures Release(s, c) == s
    ensures Finalize(p, s, c, now).reply == Ok(None)
    ensures Finalize(p, s, c, now).store == Expire(p, s, c.key, now)
    ensures Finalize(p, s, c, now).store.claims == s.claims
  {
  }

  /** Claim a is active for k, over record r of generation a.generation. */
  predicate Pinned(s: Store, k: Key, a: ActiveClaim, r: Record) {
    && k in s.claims && s.claims[k] == a
    && s.Live(k, a.generation) && s.records[k] == r && r.status.Retired?
  }

  lemma PinnedDo(s: Store, e: Change, k: Key, a: ActiveClaim, r: Record)
    requires Valid(s) && Enabled(s, e) && Pinned(s, k, a, r)
    ensures Pinned(Do(s, e), k, a, r) || Spent(Do(s, e), PurgeClaim(k, a.generation, a.claimId))
  {
    assert KeyValid(s, k);
    DoMoves(s, e, k, a.generation);
  }

  lemma PinnedStep(p: Policy, s: Store, call: Call, k: Key, a: ActiveClaim, r: Record)
    requires Valid(s) && Pinned(s, k, a, r)
    ensures Pinned(After(p, s, call), k, a, r) || Spent(After(p, s, call), PurgeClaim(k, a.generation, a.claimId))
  {
    NormalForm(p, s, call);
    BeforeKeepsValid(p, s, call);
    ExpireEffect(p, s, call, k);
    PinnedDo(Before(p, s, call), ChangeOf(p, s, call), k, a, r);
  }

  /**
   While a claim is active nothing moves underneath it: the record stays the same retired record of
   the same generation, so the key cannot be reused; otherwise the claim is spent for good.
   */
  lemma {:induction false} ActiveClaimPins(p: Policy, s: Store, calls: seq<Call>, k: Key, a: ActiveClaim, r: Record)
    requires Valid(s) && Pinned(s, k, a, r)
    ensures Pinned(Run(p, s, calls), k, a, r) || Spent(Run(p, s, calls), PurgeClaim(k, a.generation, a.claimId))
    decreases |calls|
  {
    if calls != [] {
      var t := After(p, s, calls[0]);
      AfterKeepsValid(p, s, calls[0]);
      PinnedStep(p, s, calls[0], k, a, r);
      if Pinned(t, k, a, r) {
        ActiveClaimPins(p, t, calls[1..], k, a, r);
      } else {
        SpentForever(p, t, calls[1..], PurgeClaim(k, a.generation, a.claimId), 0);
      }
    }
  }

  /**
   A claim granted by begin_purge and finalized after any run commits exactly the deleted form, at
   the time given to begin_purge, of the record begin_purge saw; until then no other claim is granted.
   */
  lemma FinalizeCommitsWhatBeginSaw(p: Policy, s: Store, k: Key, at: int, now: int, calls: seq<Call>, later: int)
    requires Valid(s)
    requires BeginPurge(p, s, k, at, now).reply.Ok? && BeginPurge(p, s, k, at, now).reply.value.Some?
    ensures var c := BeginPurge(p, s, k, at, now).reply.value.value;
            var t := Run(p, BeginPurge(p, s, k, at, now).store, calls);
            var f := Finalize(p, t, c, later);
            && s.HasStatus(k, Retired) && c.key == k && c.claimId > s.nextClaimId
            && (f.reply == Ok(None) || f.reply == Ok(Some(s.records[k].AsDeleted(at))))
            && (f.reply != Ok(None) ==>
                  && f.store.HasStatus(k, Deleted) && f.store.records[k] == s.records[k].AsDeleted(at)
                  && k in f.store.tombstones && k !in f.store.claims)
            && (t.Holds(c) ==> BeginPurge(p, t, k, at, later).reply in {Ok(None), Err(NotRetired)})
  {
    var b := BeginPurge(p, s, k, at, now);
    var c := b.reply.value.value;
    assert KeyValid(s, k);
    AfterKeepsValid(p, s, BeginCall(k, at, now));
    assert KeyValid(b.store, k);
    var a := b.store.claims[k];
    assert Pinned(b.store, k, a, s.records[k]);
    ActiveClaimPins(p, b.store, calls, k, a, s.records[k]);
    var t := Run(p, b.store, calls);
    RunKeepsValid(p, b.store, calls);
    assert KeyValid(t, k);
  }
}
