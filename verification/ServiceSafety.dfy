/**
 Cross-store safety: what every interleaving keeps as long as a finalize that raises has committed
 and a blob delete that raises has no effect.
 */
module ServiceSafety {
  import opened Models
  import opened StoreSpec
  import opened StoreChanges
  import R = StoreRuns
  import opened StorageKeys
  import opened Service

  /** For calls whose effect no policy touches. */
  const EMPTY_POLICY := Policy(0, 0)

  /** The record under k owns its blob: it is received, or retired with nobody entitled to purge it. */
  predicate OwnsBlob(s: Store, k: Key) {
    s.HasStatus(k, Received) || (s.HasStatus(k, Retired) && k !in s.claims)
  }

  predicate KeySafe(z: System, k: Key) {
    && (k in z.store.records ==> ValidKey(k))
    && (k in z.owner ==>
          && ValidKey(k) && StorageKey(k) in z.blobs
          && (z.owner[k].ByRecord? ==>
                && z.owner[k].generation <= z.store.nextGeneration && z.owner[k].generation in z.origin
                && z.blobs[StorageKey(k)] == z.origin[z.owner[k].generation]))
    && (OwnsBlob(z.store, k) ==>
          k in z.store.generations && k in z.owner && z.owner[k] == ByRecord(z.store.generations[k]))
  }

  predicate CreatorSafe(z: System, i: nat) {
    i in z.creators && !z.creators[i].phase.Choosing? ==>
      var c := z.creators[i];
      var k := c.phase.key;
      && ValidKey(k) && k.tenant == c.tenant
      && k in z.owner && z.owner[k] == ByRequest(i)
      && StorageKey(k) in z.blobs && z.blobs[StorageKey(k)] == c.bytes
  }

  /** A purger that may still delete holds its claim, and the blob is still the claimed record's. */
  predicate PurgerSafe(z: System, j: nat) {
    j in z.purgers ==>
      var c := z.purgers[j].claim;
      && c.claimId <= z.store.nextClaimId
      && (!z.purgers[j].Failing? ==> z.store.Holds(c))
      && (!z.purgers[j].Erased? && z.store.Holds(c) ==>
            c.key in z.owner && z.owner[c.key] == ByRecord(c.generation))
  }

  predicate ClaimsDistinct(z: System, i: nat, j: nat) {
    i in z.purgers && j in z.purgers && i != j ==> z.purgers[i].claim.claimId != z.purgers[j].claim.claimId
  }

  ghost predicate Inv(z: System) {
    && Valid(z.store)
    && (forall k :: KeySafe(z, k))
    && (forall i :: CreatorSafe(z, i))
    && (forall j :: PurgerSafe(z, j))
    && (forall i, j :: ClaimsDistinct(z, i, j))
    && z.lingering == {}
  }

  lemma InvIsSafe(z: System)
    requires Inv(z)
    ensures Safe(z)
  {
    forall k | z.store.HasStatus(k, Received) ensures Intact(z, k) {
      assert KeySafe(z, k) && KeyValid(z.store, k);
    }
  }

  lemma PathsDiffer(k: Key, j: Key)
    requires ValidKey(k) && ValidKey(j) && k != j
    ensures StorageKey(k) != StorageKey(j)
  {
    if StorageKey(k) == StorageKey(j) { DeriveInjective(k, j); }
  }

  // ---- Actions on the metadata store alone ----

  /** Between s and t nothing under k came to own a blob, and no generation that owns one moved. */
  predicate QuietAt(s: Store, t: Store, k: Key) {
    && s.nextGeneration <= t.nextGeneration
    && (k in t.records ==> k in s.records)
    && (OwnsBlob(t, k) ==>
          && OwnsBlob(s, k) && k in s.generations && k in t.generations
          && t.generations[k] == s.generations[k])
  }

  lemma QuietExpire(p: Policy, s: Store, c: Call, k: Key)
    requires Valid(s)
    ensures QuietAt(s, Before(p, s, c), k)
  {
    R.ExpireEffect(p, s, c, k);
    assert KeyValid(s, k);
  }

  lemma QuietDo(s: Store, e: Change, k: Key)
    requires Valid(s) && Enabled(s, e) && !e.Insertion? && !e.Withdrawal?
    ensures QuietAt(s, Do(s, e), k)
  {
    assert KeyValid(s, k);
    if e.Rebind? { assert KeyValid(s, e.r.Id()); }
    if e.Finalization? { assert KeyValid(s, e.c.key); }
  }

  lemma QuietStep(p: Policy, s: Store, c: Call, k: Key)
    requires Valid(s) && !ChangeOf(p, s, c).Insertion? && !ChangeOf(p, s, c).Withdrawal?
    ensures QuietAt(s, After(p, s, c), k)
  {
    NormalForm(p, s, c);
    BeforeKeepsValid(p, s, c);
    QuietExpire(p, s, c, k);
    QuietDo(Before(p, s, c), ChangeOf(p, s, c), k);
  }

  /** What a quiet change of the store needs to show about its claims. */
  lemma QuietKeepsInv(z: System, t: Store)
    requires Inv(z) && Valid(t) && (forall k :: QuietAt(z.store, t, k))
    requires z.store.nextClaimId <= t.nextClaimId
    requires forall j <- z.purgers ::
               var c := z.purgers[j].claim;
               (z.store.Holds(c) <==> t.Holds(c))
    ensures Inv(z.(store := t))
  {
    var z' := z.(store := t);
    forall k ensures KeySafe(z', k) { assert KeySafe(z, k) && QuietAt(z.store, t, k); }
    forall i ensures CreatorSafe(z', i) { assert CreatorSafe(z, i); }
    forall j ensures PurgerSafe(z', j) { assert PurgerSafe(z, j); }
    forall i, j ensures ClaimsDistinct(z', i, j) { assert ClaimsDistinct(z, i, j); }
  }

  /** Customer reads and deletes, retention sweeps and mark_purged calls leave every claim alone. */
  lemma StoreCallKeepsInv(p: Policy, z: System, c: Call)
    requires Inv(z) && Possible(NO_FAULTS, z, StoreCall(c))
    ensures Inv(z.(store := After(p, z.store, c)))
  {
    var t := After(p, z.store, c);
    AfterKeepsValid(p, z.store, c);
    NormalForm(p, z.store, c);
    R.ExpireEffect(p, z.store, c, Touched(c));
    forall k ensures QuietAt(z.store, t, k) { QuietStep(p, z.store, c, k); }
    QuietKeepsInv(z, t);
  }

  /** Removing one purger (it crashed, or it is done) only takes obligations away. */
  lemma RemovePurger(z: System, j: nat)
    requires Inv(z)
    ensures Inv(z.(purgers := z.purgers - {j}))
  {
    var z' := z.(purgers := z.purgers - {j});
    forall k ensures KeySafe(z', k) { assert KeySafe(z, k); }
    forall i ensures CreatorSafe(z', i) { assert CreatorSafe(z, i); }
    forall i ensures PurgerSafe(z', i) { assert PurgerSafe(z, i); }
    forall i, h ensures ClaimsDistinct(z', i, h) { assert ClaimsDistinct(z, i, h); }
  }

  /** Moving purger j to a phase whose obligations it already meets. */
  lemma MovePurger(z: System, j: nat, u: Purger)
    requires Inv(z) && j in z.purgers && u.claim == z.purgers[j].claim
    requires PurgerSafe(SetPurger(z, j, u), j)
    ensures Inv(SetPurger(z, j, u))
  {
    var z' := SetPurger(z, j, u);
    forall k ensures KeySafe(z', k) { assert KeySafe(z, k); }
    forall i ensures CreatorSafe(z', i) { assert CreatorSafe(z, i); }
    forall i ensures PurgerSafe(z', i) { assert PurgerSafe(z, i); }
    forall i, h ensures ClaimsDistinct(z', i, h) { assert ClaimsDistinct(z, i, h); }
  }

  /** What a granted claim looks like: fresh, exact, and over a record nobody else may purge. */
  lemma GrantFacts(p: Policy, s: Store, k: Key, at: int, now: int)
    requires Valid(s)
    requires var r := BeginPurge(p, s, k, at, now).reply; r.Ok? && r.value.Some?
    ensures var c, t := BeginPurge(p, s, k, at, now).reply.value.value, BeginPurge(p, s, k, at, now).store;
            && OwnsBlob(s, k) && k in s.generations && c == PurgeClaim(k, s.generations[k], s.nextClaimId + 1)
            && t.Holds(c) && t.nextClaimId == s.nextClaimId + 1
            && k in t.claims && t.claims == s.claims[k := t.claims[k]]
  {
    assert KeyValid(s, k);
  }

  lemma NoGrantFacts(p: Policy, s: Store, k: Key, at: int, now: int)
    requires var r := BeginPurge(p, s, k, at, now).reply; r.Err? || r.value.None?
    ensures var t := BeginPurge(p, s, k, at, now).store;
            t.claims == s.claims && t.nextClaimId == s.nextClaimId
  {
  }

  lemma BeginKeepsInv(p: Policy, z: System, j: nat, k: Key, at: int, now: int)
    requires Inv(z) && j !in z.purgers
    ensures Inv(DoBegin(p, z, j, k, at, now))
  {
    var call := BeginCall(k, at, now);
    var s, t := z.store, BeginPurge(p, z.store, k, at, now).store;
    var out := BeginPurge(p, s, k, at, now).reply;
    AfterKeepsValid(p, s, call);
    forall i ensures QuietAt(s, t, i) { QuietStep(p, s, call, i); }
    forall i | i in z.purgers ensures z.purgers[i].claim.claimId <= s.nextClaimId { assert PurgerSafe(z, i); }
    assert KeySafe(z, k);
    if out.Ok? && out.value.Some? {
      GrantFacts(p, s, k, at, now);
      QuietKeepsInv(z, t);
      AddPurger(z.(store := t), j, out.value.value);
    } else {
      NoGrantFacts(p, s, k, at, now);
      QuietKeepsInv(z, t);
    }
  }

  lemma AddPurger(z: System, j: nat, c: PurgeClaim)
    requires Inv(z) && j !in z.purgers && z.store.Holds(c)
    requires c.key in z.owner && z.owner[c.key] == ByRecord(c.generation)
    requires forall i <- z.purgers :: z.purgers[i].claim.claimId != c.claimId
    ensures Inv(SetPurger(z, j, Claimed(c)))
  {
    var z' := SetPurger(z, j, Claimed(c));
    assert KeyValid(z.store, c.key);
    forall k ensures KeySafe(z', k) { assert KeySafe(z, k); }
    forall i ensures CreatorSafe(z', i) { assert CreatorSafe(z, i); }
    forall i ensures PurgerSafe(z', i) { assert PurgerSafe(z, i); }
    forall i, h ensures ClaimsDistinct(z', i, h) { assert ClaimsDistinct(z, i, h); }
  }

  /** A finalize that commits: every other purger's claim is for another key. */
  lemma FinalizeKeepsInv(p: Policy, z: System, j: nat, now: int)
    requires Inv(z) && j in z.purgers && z.purgers[j].Erased?
    ensures var t := Finalize(p, z.store, z.purgers[j].claim, now).store;
            Inv(SetPurger(z.(store := t), j, Failing(z.purgers[j].claim)))
  {
    var c := z.purgers[j].claim;
    var call := FinalizeCall(c, now);
    var s, t := z.store, After(p, z.store, call);
    AfterKeepsValid(p, s, call);
    NormalForm(p, s, call);
    R.ExpireEffect(p, s, call, c.key);
    assert PurgerSafe(z, j) && KeyValid(s, c.key);
    assert t.claims == s.claims - {c.key};
    forall k ensures QuietAt(s, t, k) { QuietStep(p, s, call, k); }
    var others := z.(purgers := z.purgers - {j});
    RemovePurger(z, j);
    forall i | i in others.purgers ensures s.Holds(others.purgers[i].claim) <==> t.Holds(others.purgers[i].claim) {
      assert ClaimsDistinct(z, i, j);
    }
    QuietKeepsInv(others, t);
    var z' := SetPurger(z.(store := t), j, Failing(c));
    forall k ensures KeySafe(z', k) { assert KeySafe(others.(store := t), k); }
    forall i ensures CreatorSafe(z', i) { assert CreatorSafe(others.(store := t), i); }
    forall i ensures PurgerSafe(z', i) { assert PurgerSafe(others.(store := t), i); }
    forall i, h ensures ClaimsDistinct(z', i, h) { assert ClaimsDistinct(z, i, h); }
  }

  /** A release hands the blob back to the record, whose bytes it still holds. */
  lemma ReleaseKeepsInv(z: System, j: nat)
    requires Inv(z) && j in z.purgers && z.purgers[j].Failing?
    ensures Inv(z.(store := Release(z.store, z.purgers[j].claim), purgers := z.purgers - {j}))
  {
    var c := z.purgers[j].claim;
    var s, t := z.store, Release(z.store, c);
    var z' := z.(store := t, purgers := z.purgers - {j});
    assert PurgerSafe(z, j) && KeyValid(s, c.key);
    AfterKeepsValid(EMPTY_POLICY, s, ReleaseCall(c));
    forall k ensures KeySafe(z', k) { assert KeySafe(z, k); }
    forall i ensures CreatorSafe(z', i) { assert CreatorSafe(z, i); }
    forall i ensures PurgerSafe(z', i) { assert PurgerSafe(z, i) && ClaimsDistinct(z, i, j); }
    forall i, h ensures ClaimsDistinct(z', i, h) { assert ClaimsDistinct(z, i, h); }
  }

  // ---- Actions on the blob store ----

  /** Deleting the blob under k, which no received or unclaimed record owns, frees its storage key. */
  lemma EraseBlobKeepsInv(z: System, k: Key, creators: map<nat, Creator>, purgers: map<nat, Purger>)
    requires Inv(z) && ValidKey(k) && !OwnsBlob(z.store, k)
    requires Inv(z.(creators := creators, purgers := purgers))
    requires forall i <- creators :: creators[i].phase.Choosing? || creators[i].phase.key != k
    requires forall j <- purgers :: purgers[j].claim.key != k || !z.store.Holds(purgers[j].claim) || purgers[j].Erased?
    ensures Inv(EraseBlob(z, StorageKey(k), k).(creators := creators, purgers := purgers))
  {
    var y := z.(creators := creators, purgers := purgers);
    var z' := EraseBlob(y, StorageKey(k), k);
    forall h ensures KeySafe(z', h) {
      assert KeySafe(z, h);
      if h in z.owner && h != k { PathsDiffer(h, k); }
    }
    forall i ensures CreatorSafe(z', i) {
      assert CreatorSafe(y, i);
      if i in creators && !creators[i].phase.Choosing? { PathsDiffer(creators[i].phase.key, k); }
    }
    forall j ensures PurgerSafe(z', j) { assert PurgerSafe(y, j); }
    forall i, h ensures ClaimsDistinct(z', i, h) { assert ClaimsDistinct(y, i, h); }
  }

  lemma EraseKeepsInv(p: Policy, z: System, j: nat)
    requires Inv(z) && Possible(NO_FAULTS, z, Erase(j))
    ensures Inv(Next(p, NO_FAULTS, z, Erase(j)))
  {
    var c := z.purgers[j].claim;
    assert PurgerSafe(z, j) && KeyValid(z.store, c.key) && KeySafe(z, c.key);
    MovePurger(z, j, Erased(c));
    var purgers := z.purgers[j := Erased(c)];
    forall i | i in purgers ensures purgers[i].claim.key != c.key || !z.store.Holds(purgers[i].claim) || purgers[i].Erased? {
      assert ClaimsDistinct(z, i, j);
    }
    forall i | i in z.creators ensures z.creators[i].phase.Choosing? || z.creators[i].phase.key != c.key {
      assert CreatorSafe(z, i);
    }
    EraseBlobKeepsInv(z, c.key, z.creators, purgers);
  }

  /** Changing or removing one request, where its new phase meets its obligations. */
  lemma MoveCreator(z: System, i: nat, creators: map<nat, Creator>)
    requires Inv(z) && CreatorSafe(z.(creators := creators), i)
    requires forall h | h in creators && h != i :: h in z.creators && creators[h] == z.creators[h]
    ensures Inv(z.(creators := creators))
  {
    var z' := z.(creators := creators);
    forall k ensures KeySafe(z', k) { assert KeySafe(z, k); }
    forall h ensures CreatorSafe(z', h) { assert CreatorSafe(z, h); }
    forall j ensures PurgerSafe(z', j) { assert PurgerSafe(z, j); }
    forall a, b ensures ClaimsDistinct(z', a, b) { assert ClaimsDistinct(z, a, b); }
  }

  lemma UndoKeepsInv(p: Policy, z: System, i: nat)
    requires Inv(z) && Possible(NO_FAULTS, z, Undo(i))
    ensures Inv(Next(p, NO_FAULTS, z, Undo(i)))
  {
    var k := z.creators[i].phase.key;
    var creators := Resume(z, i).creators;
    assert CreatorSafe(z, i) && KeySafe(z, k);
    MoveCreator(z, i, creators);
    forall h | h in creators ensures creators[h].phase.Choosing? || creators[h].phase.key != k {
      assert CreatorSafe(z, h);
    }
    forall j | j in z.purgers
      ensures z.purgers[j].claim.key != k || !z.store.Holds(z.purgers[j].claim) || z.purgers[j].Erased?
    {
      assert PurgerSafe(z, j);
    }
    EraseBlobKeepsInv(z, k, creators, z.purgers);
  }

  lemma ReserveKeepsInv(z: System, i: nat, k: Key)
    requires Inv(z) && i in z.creators && z.creators[i].phase.Choosing?
    requires ValidKey(k) && k.tenant == z.creators[i].tenant && StorageKey(k) !in z.blobs
    ensures var c := z.creators[i];
            Inv(z.(blobs := z.blobs[StorageKey(k) := c.bytes], owner := z.owner[k := ByRequest(i)],
                   creators := z.creators[i := c.(phase := Reserved(k, c.phase.attempt))]))
  {
    var c := z.creators[i];
    var z' := z.(blobs := z.blobs[StorageKey(k) := c.bytes], owner := z.owner[k := ByRequest(i)],
                 creators := z.creators[i := c.(phase := Reserved(k, c.phase.attempt))]);
    assert KeySafe(z, k);
    forall h ensures KeySafe(z', h) {
      assert KeySafe(z, h);
      if h in z.owner && h != k { PathsDiffer(h, k); }
    }
    forall h ensures CreatorSafe(z', h) {
      assert CreatorSafe(z, h);
      if h != i && h in z.creators && !z.creators[h].phase.Choosing? { PathsDiffer(z.creators[h].phase.key, k); }
    }
    forall j ensures PurgerSafe(z', j) { assert PurgerSafe(z, j); }
    forall a, b ensures ClaimsDistinct(z', a, b) { assert ClaimsDistinct(z, a, b); }
  }

  lemma PutKeepsInv(z: System, i: nat, ingestion: string)
    requires Inv(z) && i in z.creators && z.creators[i].phase.Choosing?
    ensures Inv(DoPut(z, i, ingestion))
  {
    var c := z.creators[i];
    var path := Derive(c.tenant, ingestion);
    if c.phase.attempt < MAX_ATTEMPTS && path.Some? && path.value !in z.blobs {
      ReserveKeepsInv(z, i, Key(c.tenant, ingestion));
    } else {
      MoveCreator(z, i, DoPut(z, i, ingestion).creators);
    }
  }

  // ---- The commit ----

  /** What a create that inserts does to the store, seen from outside. */
  ghost predicate Adopts(s: Store, t: Store, k: Key) {
    && !OwnsBlob(s, k) && k !in s.claims
    && t.HasStatus(k, Received)
    && t.nextGeneration == s.nextGeneration + 1 && t.generations == s.generations[k := t.nextGeneration]
    && t.claims == s.claims && t.nextClaimId == s.nextClaimId
    && forall h :: h != k ==> (h in t.records <==> h in s.records) && (h in s.records ==> t.records[h] == s.records[h])
  }

  lemma InsertionAdopts(s: Store, b: Store, q: CreateRequest)
    requires Valid(b) && Enabled(b, Insertion(q))
    requires forall h :: R.ExpiresOnly(s, b, q.Target(), h)
    ensures Adopts(s, Insert(b, q), q.Target())
  {
    var k := q.Target();
    assert KeyValid(b, k) && R.ExpiresOnly(s, b, k, k);
    forall h | h != k ensures (h in b.records <==> h in s.records) && (h in s.records ==> b.records[h] == s.records[h]) {
      assert R.ExpiresOnly(s, b, k, h);
    }
  }

  lemma CreatedAdopts(p: Policy, s: Store, q: CreateRequest, now: int, expiryNow: int)
    requires Valid(s) && q.Matches()
    requires var r := Create(p, s, q, now, expiryNow).reply; r.Ok? && r.value.created
    ensures Adopts(s, Create(p, s, q, now, expiryNow).store, q.Target())
  {
    var call := CreateCall(q, now, expiryNow);
    NormalForm(p, s, call);
    BeforeKeepsValid(p, s, call);
    R.CreatesExactly(p, s, call, Slot(q.tenant, q.fingerprint));
    forall h ensures R.ExpiresOnly(s, Before(p, s, call), q.Target(), h) { R.ExpireEffect(p, s, call, h); }
    InsertionAdopts(s, Before(p, s, call), q);
  }

  lemma CreateOutcome(p: Policy, s: Store, q: CreateRequest, now: int, expiryNow: int)
    requires Valid(s) && q.Matches()
    ensures var out := Create(p, s, q, now, expiryNow);
            && (out.reply.Err? ==> out.reply.error in {IngestionIdConflict, IdempotencyKeyConflict})
            && (out.reply.Ok? && out.reply.value.created ==> Adopts(s, out.store, q.Target()))
            && (!(out.reply.Ok? && out.reply.value.created) ==>
                  out.store.claims == s.claims && out.store.nextClaimId == s.nextClaimId && forall k :: QuietAt(s, out.store, k))
  {
    var call := CreateCall(q, now, expiryNow);
    NormalForm(p, s, call);
    var out := Create(p, s, q, now, expiryNow);
    R.CreatesExactly(p, s, call, Slot(q.tenant, q.fingerprint));
    R.ExpireEffect(p, s, call, q.Target());
    if out.reply.Err? { R.RefusedLeavesStore(p, s, call); }
    if out.reply.Ok? && out.reply.value.created {
      CreatedAdopts(p, s, q, now, expiryNow);
    } else {
      forall k ensures QuietAt(s, out.store, k) { QuietStep(p, s, call, k); }
    }
  }

  /** A created record takes over the reservation its own request made. */
  lemma AdoptKeepsInv(z: System, i: nat, t: Store)
    requires Inv(z) && i in z.creators && z.creators[i].phase.Reserved?
    requires Valid(t) && Adopts(z.store, t, z.creators[i].phase.key)
    ensures var c := z.creators[i];
            Inv(z.(store := t, creators := z.creators - {i},
                   owner := z.owner[c.phase.key := ByRecord(t.nextGeneration)],
                   origin := z.origin[t.nextGeneration := c.bytes]))
  {
    var c := z.creators[i];
    var k := c.phase.key;
    var z' := z.(store := t, creators := z.creators - {i},
                 owner := z.owner[k := ByRecord(t.nextGeneration)], origin := z.origin[t.nextGeneration := c.bytes]);
    assert CreatorSafe(z, i);
    forall h ensures KeySafe(z', h) {
      assert KeySafe(z, h) && KeyValid(z.store, h);
    }
    forall h ensures CreatorSafe(z', h) { assert CreatorSafe(z, h); }
    forall j ensures PurgerSafe(z', j) { assert PurgerSafe(z, j); }
    forall a, d ensures ClaimsDistinct(z', a, d) { assert ClaimsDistinct(z, a, d); }
  }

  lemma CommitKeepsInv(p: Policy, z: System, i: nat, receivedAt: int, now: int, expiryNow: int)
    requires Inv(z) && Possible(NO_FAULTS, z, Commit(i, receivedAt, now, expiryNow))
    ensures Inv(DoCommit(p, z, i, receivedAt, now, expiryNow))
  {
    var c := z.creators[i];
    var q := RequestOf(c, receivedAt);
    var out := Create(p, z.store, q, now, expiryNow);
    assert CreatorSafe(z, i);
    CreateOutcome(p, z.store, q, now, expiryNow);
    AfterKeepsValid(p, z.store, CreateCall(q, now, expiryNow));
    if out.reply.Ok? && out.reply.value.created {
      AdoptKeepsInv(z, i, out.store);
    } else {
      QuietKeepsInv(z, out.store);
      MoveCreator(z.(store := out.store), i, DoCommit(p, z, i, receivedAt, now, expiryNow).creators);
    }
  }

  // ---- All actions, all runs ----

  lemma NextKeepsInv(p: Policy, z: System, a: Action)
    requires Inv(z) && Possible(NO_FAULTS, z, a)
    ensures Inv(Next(p, NO_FAULTS, z, a))
  {
    match a
    case Arrive(i, _, _, _, _) => MoveCreator(z, i, Next(p, NO_FAULTS, z, a).creators);
    case Put(i, ingestion) => PutKeepsInv(z, i, ingestion);
    case CandidateFails(i) =>
      assert CreatorSafe(z, i);
      MoveCreator(z, i, Next(p, NO_FAULTS, z, a).creators);
    case Commit(i, receivedAt, now, expiryNow) => CommitKeepsInv(p, z, i, receivedAt, now, expiryNow);
    case Undo(i) => UndoKeepsInv(p, z, i);
    case UndoRaises(i) => MoveCreator(z, i, z.creators - {i});
    case CreatorCrash(i) => MoveCreator(z, i, z.creators - {i});
    case StoreCall(c) => StoreCallKeepsInv(p, z, c);
    case Begin(j, k, at, now) => BeginKeepsInv(p, z, j, k, at, now);
    case Erase(j) => EraseKeepsInv(p, z, j);
    case EraseRaises(j) =>
      assert PurgerSafe(z, j);
      MovePurger(z, j, Failing(z.purgers[j].claim));
    case Finish(j, now) =>
      FinalizeKeepsInv(p, z, j, now);
      var y := SetPurger(z.(store := Finalize(p, z.store, z.purgers[j].claim, now).store), j, Failing(z.purgers[j].claim));
      RemovePurger(y, j);
      assert y.purgers - {j} == z.purgers - {j};
    case FinishLost(j, now) => FinalizeKeepsInv(p, z, j, now);
    case GiveUp(j) => ReleaseKeepsInv(z, j);
    case PurgerCrash(j) => RemovePurger(z, j);
  }

  lemma {:induction false} ExecuteKeepsInv(p: Policy, z: System, actions: seq<Action>)
    requires Inv(z)
    ensures Inv(Execute(p, NO_FAULTS, z, actions))
    decreases |actions|
  {
    if actions != [] {
      if Possible(NO_FAULTS, z, actions[0]) { NextKeepsInv(p, z, actions[0]); }
      var z1 := if Possible(NO_FAULTS, z, actions[0]) then Next(p, NO_FAULTS, z, actions[0]) else z;
      ExecuteKeepsInv(p, z1, actions[1..]);
    }
  }

  lemma InitialInv()
    ensures Inv(INITIAL)
  {
    R.ReachableIsValid(EMPTY_POLICY, []);
  }

  /** Cross-store safety over every interleaving, with repeated ids and arbitrary clocks. */
  lemma CrossStoreSafety(p: Policy, actions: seq<Action>)
    ensures Safe(Execute(p, NO_FAULTS, INITIAL, actions))
  {
    InitialInv();
    ExecuteKeepsInv(p, INITIAL, actions);
    InvIsSafe(Execute(p, NO_FAULTS, INITIAL, actions));
  }

  /**
   In every reachable state a purger that is about to delete holds the exact active claim on a retired
   record, the key it deletes is valid, and what is there is that record's own bytes; a request that is
   about to undo its reservation deletes its own bytes, and no live record's.
   */
  lemma DeletesOnlyTheirOwn(p: Policy, actions: seq<Action>)
    ensures var z := Execute(p, NO_FAULTS, INITIAL, actions);
            && (forall j :: j in z.purgers && z.purgers[j].Claimed? ==>
                  var c := z.purgers[j].claim;
                  z.store.Holds(c) && z.store.HasStatus(c.key, Retired) && z.store.Live(c.key, c.generation) && Intact(z, c.key))
            && (forall i :: i in z.creators && z.creators[i].phase.Undoing? ==>
                  var k := z.creators[i].phase.key;
                  && ValidKey(k) && StorageKey(k) in z.blobs && z.blobs[StorageKey(k)] == z.creators[i].bytes
                  && !z.store.HasStatus(k, Received)
                  && forall h :: z.store.HasStatus(h, Received) ==> StorageKey(h) != StorageKey(k))
  {
    var z := Execute(p, NO_FAULTS, INITIAL, actions);
    InitialInv();
    ExecuteKeepsInv(p, INITIAL, actions);
    forall j | j in z.purgers && z.purgers[j].Claimed?
      ensures var c := z.purgers[j].claim;
              z.store.Holds(c) && z.store.HasStatus(c.key, Retired) && z.store.Live(c.key, c.generation) && Intact(z, c.key)
    {
      assert PurgerSafe(z, j) && KeyValid(z.store, z.purgers[j].claim.key) && KeySafe(z, z.purgers[j].claim.key);
    }
    forall i | i in z.creators && z.creators[i].phase.Undoing?
      ensures var k := z.creators[i].phase.key;
              && ValidKey(k) && StorageKey(k) in z.blobs && z.blobs[StorageKey(k)] == z.creators[i].bytes
              && !z.store.HasStatus(k, Received)
              && forall h :: z.store.HasStatus(h, Received) ==> StorageKey(h) != StorageKey(k)
    {
      var k := z.creators[i].phase.key;
      assert CreatorSafe(z, i) && KeySafe(z, k);
      forall h | z.store.HasStatus(h, Received) ensures StorageKey(h) != StorageKey(k) {
        assert KeySafe(z, h);
        PathsDiffer(h, k);
      }
    }
  }
}
