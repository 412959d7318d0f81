/**
 What every run of the service keeps whatever its two stores may do: no record says deleted while its
 bytes are still there, and every stored key is one a storage key is derived from. Direct mark_purged
 calls, which delete no blob, are left out of the first.
 */
module ServicePurges {
  import opened Wrappers
  import opened Models
  import opened StoreSpec
  import opened StoreChanges
  import R = StoreRuns
  import opened StorageKeys
  import opened Service

  // ---- One call of the store ----

  /** How k can say deleted in t: it did in s, or the claim given was active and is finalized. */
  predicate DeletedFrom(s: Store, t: Store, k: Key, finalized: Option<PurgeClaim>) {
    t.HasStatus(k, Deleted) ==>
      && k in t.generations
      && (|| (s.HasStatus(k, Deleted) && k in s.generations && t.generations[k] == s.generations[k])
          || (finalized.Some? && finalized.value.key == k && s.Holds(finalized.value) && t.generations[k] == finalized.value.generation))
  }

  /** A claim active in t was active in s or is new. */
  predicate HeldFrom(s: Store, t: Store, d: PurgeClaim) {
    s.nextClaimId <= t.nextClaimId && (t.Holds(d) ==> s.Holds(d) || d.claimId > s.nextClaimId)
  }

  function Finalized(c: Call): Option<PurgeClaim> { if c.FinalizeCall? then Some(c.c) else None }

  lemma DoDeletes(s: Store, e: Change, k: Key, d: PurgeClaim)
    requires Valid(s) && Enabled(s, e) && !e.Deletion?
    ensures DeletedFrom(s, Do(s, e), k, if e.Finalization? then Some(e.c) else None) && HeldFrom(s, Do(s, e), d)
    ensures k in Do(s, e).records ==> k in s.records || (e.Insertion? && k == e.q.Target())
  {
    assert KeyValid(s, k);
    if e.Finalization? { assert KeyValid(s, e.c.key); }
  }

  lemma CallDeletes(p: Policy, s: Store, c: Call, k: Key, d: PurgeClaim)
    requires Valid(s) && !c.PurgeCall?
    ensures DeletedFrom(s, After(p, s, c), k, Finalized(c)) && HeldFrom(s, After(p, s, c), d)
  {
    var b, e := Before(p, s, c), ChangeOf(p, s, c);
    NormalForm(p, s, c);
    BeforeKeepsValid(p, s, c);
    R.ExpireEffect(p, s, c, k);
    assert KeyValid(s, k);
    DoDeletes(b, e, k, d);
  }

  /** Only a create adds a key, its own. */
  lemma CallAdds(p: Policy, s: Store, c: Call, k: Key)
    requires Valid(s) && k in After(p, s, c).records
    ensures k in s.records || (c.CreateCall? && k == c.q.Target())
  {
    var b, e := Before(p, s, c), ChangeOf(p, s, c);
    NormalForm(p, s, c);
    BeforeKeepsValid(p, s, c);
    R.ExpireEffect(p, s, c, k);
    if e.Deletion? { assert k in b.records; } else { DoDeletes(b, e, k, PurgeClaim(k, 0, 0)); }
  }

  // ---- The invariant ----

  /** The bytes of generation g may still be under k. */
  predicate Owns(z: System, k: Key, g: int) { k in z.owner && z.owner[k] == ByRecord(g) }

  predicate DeletedIsErased(z: System, k: Key) {
    z.store.HasStatus(k, Deleted) ==> k in z.store.generations && !Owns(z, k, z.store.generations[k])
  }

  /** A purger past its delete has erased what its claim, if still active, would finalize. */
  predicate ErasedFirst(z: System, j: nat) {
    j in z.purgers ==>
      var c := z.purgers[j].claim;
      && c.claimId <= z.store.nextClaimId
      && (z.purgers[j].Erased? && z.store.Holds(c) ==> !Owns(z, c.key, c.generation))
  }

  ghost predicate PurgeInv(z: System) {
    Valid(z.store) && (forall k :: DeletedIsErased(z, k)) && (forall j :: ErasedFirst(z, j))
  }

  /** A call other than mark_purged, made by a purger that has erased first if it finalizes. */
  lemma CallKeepsPurgeInv(p: Policy, z: System, c: Call)
    requires PurgeInv(z) && !c.PurgeCall?
    requires c.FinalizeCall? && z.store.Holds(c.c) ==> !Owns(z, c.c.key, c.c.generation)
    ensures PurgeInv(z.(store := After(p, z.store, c)))
  {
    var z' := z.(store := After(p, z.store, c));
    AfterKeepsValid(p, z.store, c);
    forall k ensures DeletedIsErased(z', k) {
      CallDeletes(p, z.store, c, k, PurgeClaim(k, 0, 0));
      assert DeletedIsErased(z, k);
    }
    forall j ensures ErasedFirst(z', j) {
      assert ErasedFirst(z, j);
      if j in z.purgers { CallDeletes(p, z.store, c, z.purgers[j].claim.key, z.purgers[j].claim); }
    }
  }

  /** Removing owners, creators and purgers, and moving purgers anywhere but to Erased, is harmless. */
  predicate Eases(z: System, z': System) {
    && z'.store == z.store
    && (forall k <- z'.owner :: z'.owner[k].ByRecord? ==> k in z.owner && z.owner[k] == z'.owner[k])
    && (forall j <- z'.purgers :: j in z.purgers && z'.purgers[j].claim == z.purgers[j].claim && (z'.purgers[j].Erased? ==> z.purgers[j].Erased?))
  }

  lemma EasingKeepsPurgeInv(z: System, z': System)
    requires PurgeInv(z) && Eases(z, z')
    ensures PurgeInv(z')
  {
    forall k ensures DeletedIsErased(z', k) { assert DeletedIsErased(z, k); }
    forall j ensures ErasedFirst(z', j) { assert ErasedFirst(z, j); }
  }

  /** A new record takes its bytes over from its request: no claim and no deleted record is about it. */
  lemma AdoptingKeepsPurgeInv(z: System, k: Key)
    requires PurgeInv(z) && z.store.HasStatus(k, Received) && k in z.store.generations
    ensures PurgeInv(z.(owner := z.owner[k := ByRecord(z.store.generations[k])]))
  {
    var z' := z.(owner := z.owner[k := ByRecord(z.store.generations[k])]);
    forall h ensures DeletedIsErased(z', h) { assert DeletedIsErased(z, h); }
    forall j ensures ErasedFirst(z', j) {
      assert ErasedFirst(z, j) && KeyValid(z.store, k);
    }
  }

  lemma ErasingKeepsPurgeInv(z: System, j: nat)
    requires PurgeInv(z) && j in z.purgers
    ensures var c := z.purgers[j].claim; PurgeInv(SetPurger(EraseBlob(z, StorageKey(c.key), c.key), j, Erased(c)))
  {
    var c := z.purgers[j].claim;
    var z' := SetPurger(EraseBlob(z, StorageKey(c.key), c.key), j, Erased(c));
    forall k ensures DeletedIsErased(z', k) { assert DeletedIsErased(z, k); }
    forall i ensures ErasedFirst(z', i) { assert ErasedFirst(z, i) && ErasedFirst(z, j); }
  }

  lemma BeginKeepsPurgeInv(p: Policy, z: System, j: nat, k: Key, at: int, now: int)
    requires PurgeInv(z)
    ensures PurgeInv(DoBegin(p, z, j, k, at, now))
  {
    var out := BeginPurge(p, z.store, k, at, now);
    var z1 := z.(store := out.store);
    CallKeepsPurgeInv(p, z, BeginCall(k, at, now));
    if out.reply.Ok? && out.reply.value.Some? {
      var z' := SetPurger(z1, j, Claimed(out.reply.value.value));
      forall h ensures DeletedIsErased(z', h) { assert DeletedIsErased(z1, h); }
      forall i ensures ErasedFirst(z', i) { assert ErasedFirst(z1, i); }
    }
  }

  lemma CommitKeepsPurgeInv(p: Policy, z: System, i: nat, receivedAt: int, now: int, expiryNow: int)
    requires PurgeInv(z) && i in z.creators && z.creators[i].phase.Reserved?
    requires Candidate(z.creators[i], receivedAt).Consistent() && z.creators[i].phase.key.tenant == z.creators[i].tenant
    ensures PurgeInv(DoCommit(p, z, i, receivedAt, now, expiryNow))
  {
    var q := RequestOf(z.creators[i], receivedAt);
    var c := CreateCall(q, now, expiryNow);
    var out := Create(p, z.store, q, now, expiryNow);
    var z1 := z.(store := out.store);
    CallKeepsPurgeInv(p, z, c);
    if out.reply.Ok? && out.reply.value.created {
      CreatedIsReceived(p, z.store, q, now, expiryNow);
      AdoptingKeepsPurgeInv(z1, q.Target());
      EasingKeepsPurgeInv(z1.(owner := z1.owner[q.Target() := ByRecord(out.store.nextGeneration)]), DoCommit(p, z, i, receivedAt, now, expiryNow));
    } else {
      EasingKeepsPurgeInv(z1, DoCommit(p, z, i, receivedAt, now, expiryNow));
    }
  }

  lemma CreatedIsReceived(p: Policy, s: Store, q: CreateRequest, now: int, expiryNow: int)
    requires var r := Create(p, s, q, now, expiryNow).reply; r.Ok? && r.value.created
    ensures var t := Create(p, s, q, now, expiryNow).store;
            t.HasStatus(q.Target(), Received) && q.Target() in t.generations && t.generations[q.Target()] == t.nextGeneration
  {
  }

  // ---- Valid keys ----

  predicate StoredKeyIsValid(z: System, k: Key) { k in z.store.records ==> ValidKey(k) }

  predicate CreatorKeyIsValid(z: System, i: nat) {
    i in z.creators && !z.creators[i].phase.Choosing? ==>
      ValidKey(z.creators[i].phase.key) && z.creators[i].phase.key.tenant == z.creators[i].tenant
  }

  ghost predicate KeyInv(z: System) {
    Valid(z.store) && (forall k :: StoredKeyIsValid(z, k)) && (forall i :: CreatorKeyIsValid(z, i))
  }

  lemma CallKeepsKeyInv(p: Policy, z: System, c: Call)
    requires KeyInv(z) && (c.CreateCall? ==> ValidKey(c.q.Target()))
    ensures KeyInv(z.(store := After(p, z.store, c)))
  {
    var z' := z.(store := After(p, z.store, c));
    AfterKeepsValid(p, z.store, c);
    forall k ensures StoredKeyIsValid(z', k) {
      if k in z'.store.records { CallAdds(p, z.store, c, k); }
      assert StoredKeyIsValid(z, k);
    }
    forall i ensures CreatorKeyIsValid(z', i) { assert CreatorKeyIsValid(z, i); }
  }

  /** A request may come to hold this reservation after holding what z gave it. */
  predicate MayHold(z: System, i: nat, c: Creator) {
    || c.phase.Choosing?
    || (i in z.creators && !z.creators[i].phase.Choosing? && z.creators[i].phase.key == c.phase.key && z.creators[i].tenant == c.tenant)
    || (ValidKey(c.phase.key) && c.phase.key.tenant == c.tenant)
  }

  predicate CreatorsFrom(z: System, z': System) {
    forall i <- z'.creators :: MayHold(z, i, z'.creators[i])
  }

  /** One request moved on or left. */
  predicate CreatorMoved(z: System, z': System, i: nat) {
    || z'.creators == z.creators - {i}
    || (i in z'.creators && z'.creators == z.creators[i := z'.creators[i]] && MayHold(z, i, z'.creators[i]))
  }

  lemma MovingKeepsCreators(z: System, z': System, i: nat)
    requires CreatorMoved(z, z', i)
    ensures CreatorsFrom(z, z')
  {
    forall j | j in z'.creators ensures MayHold(z, j, z'.creators[j]) {
      if j != i { assert z'.creators[j] == z.creators[j]; }
    }
  }

  lemma CreatorsKeepKeyInv(z: System, z': System)
    requires KeyInv(z) && z'.store == z.store && CreatorsFrom(z, z')
    ensures KeyInv(z')
  {
    forall k ensures StoredKeyIsValid(z', k) { assert StoredKeyIsValid(z, k); }
    forall i ensures CreatorKeyIsValid(z', i) { assert CreatorKeyIsValid(z, i); }
  }

  /** The phases a request may be in after its commit: gone, or undoing the reservation it had. */
  lemma CommitMoves(p: Policy, z: System, i: nat, receivedAt: int, now: int, expiryNow: int)
    requires i in z.creators && z.creators[i].phase.Reserved? && Candidate(z.creators[i], receivedAt).Consistent()
    ensures var z' := DoCommit(p, z, i, receivedAt, now, expiryNow);
            z'.store == Create(p, z.store, RequestOf(z.creators[i], receivedAt), now, expiryNow).store && CreatorMoved(z, z', i)
  {
    var c, z' := z.creators[i], DoCommit(p, z, i, receivedAt, now, expiryNow);
    var reply := Create(p, z.store, RequestOf(c, receivedAt), now, expiryNow).reply;
    if reply == Err(IngestionIdConflict) {
      Moved(z, z', i, c.(phase := Undoing(c.phase.key, Some(c.phase.attempt + 1))));
    } else if reply == Err(IdempotencyKeyConflict) || (reply.Ok? && !reply.value.created) {
      Moved(z, z', i, c.(phase := Undoing(c.phase.key, None)));
    } else {
      assert z'.creators == z.creators - {i};
    }
  }

  lemma Moved(z: System, z': System, i: nat, c: Creator)
    requires z'.creators == z.creators[i := c] && MayHold(z, i, c)
    ensures CreatorMoved(z, z', i)
  {
    assert z'.creators[i] == c;
  }

  lemma CommitKeepsKeyInv(p: Policy, z: System, i: nat, receivedAt: int, now: int, expiryNow: int)
    requires KeyInv(z) && i in z.creators && z.creators[i].phase.Reserved?
    requires Candidate(z.creators[i], receivedAt).Consistent()
    ensures KeyInv(DoCommit(p, z, i, receivedAt, now, expiryNow))
  {
    assert CreatorKeyIsValid(z, i);
    var c := CreateCall(RequestOf(z.creators[i], receivedAt), now, expiryNow);
    CallKeepsKeyInv(p, z, c);
    CommitMoves(p, z, i, receivedAt, now, expiryNow);
    MovingKeepsCreators(z.(store := After(p, z.store, c)), DoCommit(p, z, i, receivedAt, now, expiryNow), i);
    CreatorsKeepKeyInv(z.(store := After(p, z.store, c)), DoCommit(p, z, i, receivedAt, now, expiryNow));
  }

  lemma PurgerKeepsKeyInv(p: Policy, z: System, c: Call, z': System)
    requires KeyInv(z) && !c.CreateCall? && z'.store == After(p, z.store, c) && z'.creators == z.creators
    ensures KeyInv(z')
  {
    CallKeepsKeyInv(p, z, c);
    forall i ensures CreatorKeyIsValid(z', i) { assert CreatorKeyIsValid(z, i); }
    forall k ensures StoredKeyIsValid(z', k) { assert StoredKeyIsValid(z.(store := z'.store), k); }
  }

  /** The actions that call the metadata store. */
  predicate CallsStore(a: Action) {
    a.Commit? || a.StoreCall? || a.Begin? || a.Finish? || a.FinishLost? || a.GiveUp?
  }

  lemma PutMoves(z: System, i: nat, ingestion: string)
    requires i in z.creators && z.creators[i].phase.Choosing?
    ensures var z' := DoPut(z, i, ingestion); z'.store == z.store && CreatorMoved(z, z', i) && Eases(z, z')
  {
    var c, k, z' := z.creators[i], Key(z.creators[i].tenant, ingestion), DoPut(z, i, ingestion);
    if c.phase.attempt >= MAX_ATTEMPTS || !ValidKey(k) {
      assert z'.creators == z.creators - {i};
    } else if StorageKey(k) in z.blobs {
      Moved(z, z', i, c.(phase := Choosing(c.phase.attempt + 1)));
    } else {
      Moved(z, z', i, c.(phase := Reserved(k, c.phase.attempt)));
    }
  }

  lemma UndoMoves(z: System, i: nat)
    requires i in z.creators && z.creators[i].phase.Undoing?
    ensures var k := z.creators[i].phase.key;
            var z' := Resume(EraseBlob(z, StorageKey(k), k), i);
            z'.store == z.store && CreatorMoved(z, z', i) && Eases(z, z')
  {
  }

  /** The actions of requests that leave the metadata store alone. */
  lemma CreatorActions(p: Policy, f: Faults, z: System, a: Action)
    requires Possible(f, z, a) && (a.Arrive? || a.Put? || a.CandidateFails? || a.Undo? || a.UndoRaises? || a.CreatorCrash?)
    ensures var z' := Next(p, f, z, a); z'.store == z.store && CreatorMoved(z, z', a.i) && Eases(z, z')
  {
    match a {
      case Put(i, ingestion) => PutMoves(z, i, ingestion);
      case Undo(i) => UndoMoves(z, i);
      case _ =>
    }
  }

  lemma PurgerActions(p: Policy, f: Faults, z: System, a: Action)
    requires Possible(f, z, a) && (a.Erase? || a.EraseRaises? || a.FinishRaises? || a.PurgerCrash? || a.Linger?)
    ensures var z' := Next(p, f, z, a); z'.store == z.store && z'.creators == z.creators && (!a.Erase? ==> Eases(z, z'))
  {
  }

  /** The actions that leave the metadata store alone. */
  lemma OtherActions(p: Policy, f: Faults, z: System, a: Action)
    requires Possible(f, z, a) && !CallsStore(a)
    ensures var z' := Next(p, f, z, a); z'.store == z.store && CreatorsFrom(z, z') && (!a.Erase? ==> Eases(z, z'))
  {
    if a.Erase? || a.EraseRaises? || a.FinishRaises? || a.PurgerCrash? || a.Linger? {
      PurgerActions(p, f, z, a);
    } else {
      CreatorActions(p, f, z, a);
      MovingKeepsCreators(z, Next(p, f, z, a), a.i);
    }
  }

  lemma NextKeepsKeyInv(p: Policy, f: Faults, z: System, a: Action)
    requires KeyInv(z) && Possible(f, z, a)
    ensures KeyInv(Next(p, f, z, a))
  {
    if !CallsStore(a) {
      OtherActions(p, f, z, a);
      CreatorsKeepKeyInv(z, Next(p, f, z, a));
    } else {
      match a {
        case Commit(i, receivedAt, now, expiryNow) => CommitKeepsKeyInv(p, z, i, receivedAt, now, expiryNow);
        case StoreCall(c) => CallKeepsKeyInv(p, z, c);
        case Begin(j, k, at, now) => PurgerKeepsKeyInv(p, z, BeginCall(k, at, now), DoBegin(p, z, j, k, at, now));
        case Finish(j, now) => PurgerKeepsKeyInv(p, z, FinalizeCall(z.purgers[j].claim, now), Next(p, f, z, a));
        case FinishLost(j, now) => PurgerKeepsKeyInv(p, z, FinalizeCall(z.purgers[j].claim, now), Next(p, f, z, a));
        case GiveUp(j) => PurgerKeepsKeyInv(p, z, ReleaseCall(z.purgers[j].claim), Next(p, f, z, a));
      }
    }
  }

  lemma {:induction false} RunKeepsKeyInv(p: Policy, f: Faults, z: System, actions: seq<Action>)
    requires KeyInv(z)
    ensures KeyInv(Execute(p, f, z, actions))
    decreases |actions|
  {
    if actions != [] {
      if Possible(f, z, actions[0]) { NextKeepsKeyInv(p, f, z, actions[0]); }
      RunKeepsKeyInv(p, f, if Possible(f, z, actions[0]) then Next(p, f, z, actions[0]) else z, actions[1..]);
    }
  }

  /** Every key the service ever stores is one a storage key is derived from: no purge keeps its claim for want of one. */
  lemma StoredKeysAreValid(p: Policy, f: Faults, actions: seq<Action>)
    ensures forall k <- Execute(p, f, INITIAL, actions).store.records :: ValidKey(k)
  {
    R.ReachableIsValid(p, []);
    RunKeepsKeyInv(p, f, INITIAL, actions);
    var z := Execute(p, f, INITIAL, actions);
    forall k | k in z.store.records ensures ValidKey(k) { assert StoredKeyIsValid(z, k); }
  }

  // ---- Deleted means erased ----

  predicate MarksPurged(a: Action) { a.StoreCall? && a.c.PurgeCall? }

  lemma FinalizingKeepsPurgeInv(p: Policy, z: System, j: nat, now: int, z': System)
    requires PurgeInv(z) && j in z.purgers && z.purgers[j].Erased?
    requires var z1 := z.(store := Finalize(p, z.store, z.purgers[j].claim, now).store); Eases(z1, z')
    ensures PurgeInv(z')
  {
    assert ErasedFirst(z, j);
    CallKeepsPurgeInv(p, z, FinalizeCall(z.purgers[j].claim, now));
    EasingKeepsPurgeInv(z.(store := Finalize(p, z.store, z.purgers[j].claim, now).store), z');
  }

  lemma ReleasingKeepsPurgeInv(p: Policy, z: System, j: nat, z': System)
    requires PurgeInv(z) && j in z.purgers && Eases(z.(store := Release(z.store, z.purgers[j].claim)), z')
    ensures PurgeInv(z')
  {
    CallKeepsPurgeInv(p, z, ReleaseCall(z.purgers[j].claim));
    EasingKeepsPurgeInv(z.(store := Release(z.store, z.purgers[j].claim)), z');
  }

  lemma NextKeepsPurgeInv(p: Policy, f: Faults, z: System, a: Action)
    requires PurgeInv(z) && KeyInv(z) && Possible(f, z, a) && !MarksPurged(a)
    ensures PurgeInv(Next(p, f, z, a))
  {
    if a.Erase? {
      ErasingKeepsPurgeInv(z, a.j);
    } else if !CallsStore(a) {
      OtherActions(p, f, z, a);
      EasingKeepsPurgeInv(z, Next(p, f, z, a));
    } else {
      match a {
        case Commit(i, receivedAt, now, expiryNow) =>
          assert CreatorKeyIsValid(z, i);
          CommitKeepsPurgeInv(p, z, i, receivedAt, now, expiryNow);
        case StoreCall(c) => CallKeepsPurgeInv(p, z, c);
        case Begin(j, k, at, now) => BeginKeepsPurgeInv(p, z, j, k, at, now);
        case Finish(j, now) => FinalizingKeepsPurgeInv(p, z, j, now, Next(p, f, z, a));
        case FinishLost(j, now) => FinalizingKeepsPurgeInv(p, z, j, now, Next(p, f, z, a));
        case GiveUp(j) => ReleasingKeepsPurgeInv(p, z, j, Next(p, f, z, a));
      }
    }
  }

  lemma {:induction false} RunKeepsPurgeInv(p: Policy, f: Faults, z: System, actions: seq<Action>)
    requires PurgeInv(z) && KeyInv(z) && forall a <- actions :: !MarksPurged(a)
    ensures PurgeInv(Execute(p, f, z, actions))
    decreases |actions|
  {
    if actions != [] {
      assert actions[0] in actions && forall a <- actions[1..] :: a in actions;
      if Possible(f, z, actions[0]) {
        NextKeepsKeyInv(p, f, z, actions[0]);
        NextKeepsPurgeInv(p, f, z, actions[0]);
      }
      RunKeepsPurgeInv(p, f, if Possible(f, z, actions[0]) then Next(p, f, z, actions[0]) else z, actions[1..]);
    }
  }

  /**
   Whatever the stores' failures, the crashes and the interleaving: a record that says deleted does not
   own the bytes under its storage key any more. They are gone, or another record's or request's.
   */
  lemma DeletedMeansErased(p: Policy, f: Faults, actions: seq<Action>)
    requires forall a <- actions :: !MarksPurged(a)
    ensures var z := Execute(p, f, INITIAL, actions);
            forall k :: z.store.HasStatus(k, Deleted) ==> k in z.store.generations && !Owns(z, k, z.store.generations[k])
  {
    R.ReachableIsValid(p, []);
    RunKeepsPurgeInv(p, f, INITIAL, actions);
    var z := Execute(p, f, INITIAL, actions);
    forall k | z.store.HasStatus(k, Deleted) ensures k in z.store.generations && !Owns(z, k, z.store.generations[k]) {
      assert DeletedIsErased(z, k);
    }
  }
}
