/**
 The PostgreSQL metadata store (src/cloudops_guard/ingestion_azure/postgres_metadata_store.py with
 migrations/0001_metadata_store.sql): four tables and two sequences. Each method is one transaction.
 Tables are maps from primary key to the other columns, an INSERT on a taken key or a row a CHECK
 refuses is a constraint violation, and the fingerprint lookup is a scan: there is no index column.

 The ghost field model is the in-memory store these tables stand for. Every method is proved to take
 the model through the very step the in-memory store takes and to give the same answer.
 */
module PostgresStore {
  import opened Wrappers
  import opened Models
  import opened StoreSpec
  import opened StoreChanges
  import opened Listings

  datatype RecordRow = RecordRow(
    fingerprint: string, receivedAt: int, status: Status, reason: Option<Reason>,
    retiredAt: Option<int>, deletedAt: Option<int>, generation: int)
  {
    function ToRecord(k: Key): Record {
      Record(k.tenant, k.ingestion, fingerprint, receivedAt, status, reason, retiredAt, deletedAt)
    }

    /** The CHECK constraints of ingestion_records. */
    predicate Allowed() {
      && (match status
          case Received => reason.None? && retiredAt.None? && deletedAt.None?
          case Retired => reason.Some? && retiredAt.Some? && deletedAt.None?
          case Deleted => reason.Some? && retiredAt.Some? && deletedAt.Some?)
      && (retiredAt.Some? ==> receivedAt <= retiredAt.value)
      && (deletedAt.Some? && retiredAt.Some? ==> retiredAt.value <= deletedAt.value)
    }
  }

  datatype TombstoneRow = TombstoneRow(reason: Reason, retiredAt: int, deletedAt: int)

  datatype ClaimRow = ClaimRow(generation: int, claimId: int, reason: Reason, retiredAt: int, deletedAt: int)

  function RowOf(r: Record, generation: int): RecordRow {
    RecordRow(r.fingerprint, r.receivedAt, r.status, r.reason, r.retiredAt, r.deletedAt, generation)
  }

  function TombstoneRowOf(t: Tombstone): TombstoneRow { TombstoneRow(t.reason, t.retiredAt, t.deletedAt) }

  /** A claim row keeps the tombstone's columns; the deleted record itself is rebuilt at finalize. */
  function ClaimRowOf(a: ActiveClaim): ClaimRow {
    ClaimRow(a.generation, a.claimId, a.tombstone.reason, a.tombstone.retiredAt, a.tombstone.deletedAt)
  }

  /** The one refusal that differs: a constraint of the table speaks instead of the model's validator. */
  function AtTable<T>(r: Result<T>): Result<T> {
    if r == Err(InvalidCandidate) then Err(ConstraintViolation) else r
  }

  lemma BindKeepsValid(s: Store, q: CreateRequest, r: Record)
    requires StoreSpec.Valid(s)
    ensures StoreSpec.Valid(Bind(s, q, r))
  {
    var t := Bind(s, q, r);
    forall j ensures KeyValid(t, j) { assert KeyValid(s, j); }
    forall slot ensures SlotValid(t, slot) { assert SlotValid(s, slot); }
  }

  class PostgresMetadataStore {
    const policy: Policy
    var ingestionRecords: map<Key, RecordRow>
    var tombstones: map<Key, TombstoneRow>
    var purgeClaims: map<Key, ClaimRow>
    var idempotencyBindings: map<Handle, Binding>
    var generationSeq: int
    var claimIdSeq: int
    ghost var model: Store

    /** The rows under primary key k are exactly what the model stores under k. */
    ghost predicate Mirrors(k: Key)
      reads this
    {
      && (k in ingestionRecords <==> k in model.records)
      && (k in model.records ==>
            k in model.generations && ingestionRecords[k] == RowOf(model.records[k], model.generations[k]))
      && (k in tombstones <==> k in model.tombstones)
      && (k in model.tombstones ==> tombstones[k] == TombstoneRowOf(model.tombstones[k]))
      && (k in purgeClaims <==> k in model.claims)
      && (k in model.claims ==> purgeClaims[k] == ClaimRowOf(model.claims[k]))
    }

    ghost predicate Valid()
      reads this
    {
      && StoreSpec.Valid(model)
      && (forall k :: Mirrors(k))
      && idempotencyBindings == model.bindings
      && generationSeq == model.nextGeneration && claimIdSeq == model.nextClaimId
    }

    constructor (p: Policy)
      ensures Valid() && model == EMPTY && policy == p
    {
      policy := p;
      ingestionRecords, tombstones, purgeClaims, idempotencyBindings := map[], map[], map[], map[];
      generationSeq, claimIdSeq := 0, 0;
      model := EMPTY;
    }

    method ExpireTombstoneIfNeeded(k: Key, now: int)
      requires Valid()
      modifies this
      ensures Valid() && model == Expire(policy, old(model), k, now)
    {
      assert Mirrors(k) && KeyValid(model, k);
      ExpireKeepsValid(policy, model, k, now);
      if k in tombstones && tombstones[k].deletedAt < now - policy.tombstoneRetention {
        tombstones := tombstones - {k};
        ingestionRecords := ingestionRecords - {k};
      }
      model := Expire(policy, model, k, now);
      forall j ensures Mirrors(j) { assert old(Mirrors(j)); }
    }

    /** Step 1: idempotency_bindings LEFT JOIN ingestion_records. */
    method BoundRecord(q: CreateRequest, now: int) returns (r: Option<Record>)
      requires Valid()
      ensures r == Bound(policy, model, q, now)
    {
      if q.key.Some? && q.BindingHandle() in idempotencyBindings {
        var binding := idempotencyBindings[q.BindingHandle()];
        var bound := Key(q.tenant, binding.ingestion);
        assert Mirrors(bound) && KeyValid(model, bound);
        if bound in ingestionRecords {
          var row := ingestionRecords[bound];
          if row.status.Received? && now <= binding.receivedAt + policy.keyWindow {
            return Some(row.ToRecord(bound));
          }
        }
      }
      return None;
    }

    /** Step 2: a scan for a received row of this tenant with this fingerprint. */
    method ScanForFingerprint(slot: Slot) returns (k: Option<Key>)
      requires Valid()
      ensures k.Some? <==> slot in model.active
      ensures k.Some? ==> k.value == Key(slot.tenant, model.active[slot]) && k.value in ingestionRecords
    {
      assert SlotValid(model, slot);
      if slot in model.active {
        assert Mirrors(Key(slot.tenant, model.active[slot]));
        assert ingestionRecords[Key(slot.tenant, model.active[slot])].status.Received?;
      }
      if row :| row in ingestionRecords && row.tenant == slot.tenant && ingestionRecords[row].status.Received?
                && ingestionRecords[row].fingerprint == slot.fingerprint {
        assert Mirrors(row) && KeyValid(model, row);
        k := Some(row);
      } else {
        k := None;
      }
    }

    /** INSERT INTO ingestion_records, with its primary key, its CHECKs and the partial unique index. */
    method InsertRow(k: Key, row: RecordRow) returns (violated: bool)
      modifies this`ingestionRecords
      ensures violated <==>
        || k in old(ingestionRecords) || !row.Allowed()
        || (row.status.Received? && exists j <- old(ingestionRecords) ::
              j.tenant == k.tenant && old(ingestionRecords)[j].status.Received? && old(ingestionRecords)[j].fingerprint == row.fingerprint)
      ensures ingestionRecords == if violated then old(ingestionRecords) else old(ingestionRecords)[k := row]
    {
      if k in ingestionRecords || !row.Allowed() { return true; }
      if row.status.Received? {
        if j :| j in ingestionRecords && j.tenant == k.tenant && ingestionRecords[j].status.Received?
                && ingestionRecords[j].fingerprint == row.fingerprint {
          return true;
        }
      }
      ingestionRecords := ingestionRecords[k := row];
      return false;
    }

    /** INSERT ... ON CONFLICT DO UPDATE into idempotency_bindings. */
    method UpsertBinding(q: CreateRequest, ingestion: string, receivedAt: int)
      modifies this`idempotencyBindings
      ensures idempotencyBindings ==
        if q.key.Some? then old(idempotencyBindings)[q.BindingHandle() := Binding(ingestion, receivedAt)] else old(idempotencyBindings)
    {
      if q.key.Some? {
        idempotencyBindings := idempotencyBindings[q.BindingHandle() := Binding(ingestion, receivedAt)];
      }
    }

    /** No table constraint is in the way of a row whose key and slot are free in the model. */
    lemma RowFits(q: CreateRequest)
      requires Valid() && q.Matches()
      requires q.Target() !in model.records && Slot(q.tenant, q.fingerprint) !in model.active
      ensures q.Target() !in ingestionRecords && RowOf(q.record, generationSeq + 1).Allowed()
      ensures !exists j <- ingestionRecords ::
        j.tenant == q.tenant && ingestionRecords[j].status.Received? && ingestionRecords[j].fingerprint == q.fingerprint
    {
      assert Mirrors(q.Target());
      forall j | j in ingestionRecords && j.tenant == q.tenant && ingestionRecords[j].status.Received?
        ensures ingestionRecords[j].fingerprint != q.fingerprint
      {
        assert Mirrors(j) && KeyValid(model, j);
      }
    }

    /** Step 3: the row goes in, and no constraint is in its way. */
    method InsertRecord(q: CreateRequest) returns (violated: bool)
      requires Valid() && q.Matches()
      requires q.Target() !in model.records && Slot(q.tenant, q.fingerprint) !in model.active
      modifies this
      ensures Valid() && !violated && model == StoreSpec.Insert(old(model), q)
    {
      RowFits(q);
      DoKeepsValid(model, Insertion(q));
      generationSeq := generationSeq + 1;
      violated := InsertRow(q.Target(), RowOf(q.record, generationSeq));
      if violated { return; }
      UpsertBinding(q, q.ingestion, q.record.receivedAt);
      model := StoreSpec.Insert(model, q);
      forall j ensures Mirrors(j) { assert old(Mirrors(j)); }
    }

    /** Step 2 answered: hand back the existing record and point the key at it. */
    method Replay(q: CreateRequest, k: Key) returns (r: Result<Created>)
      requires Valid() && k in ingestionRecords
      modifies this
      ensures Valid() && k in old(model).records
      ensures model == Bind(old(model), q, old(model).records[k]) && r == Ok(Created(old(model).records[k], false))
    {
      assert Mirrors(k) && KeyValid(model, k);
      var record := ingestionRecords[k].ToRecord(k);
      UpsertBinding(q, record.ingestion, record.receivedAt);
      BindKeepsValid(model, q, model.records[k]);
      model := Bind(model, q, model.records[k]);
      forall j ensures Mirrors(j) { assert old(Mirrors(j)); }
      r := Ok(Created(record, false));
    }

    method CreateOrGetReceived(q: CreateRequest, now: int) returns (r: Result<Created>)
      requires Valid()
      modifies this
      ensures Valid()
      ensures model == Create(policy, old(model), q, now, now).store
      ensures r == Create(policy, old(model), q, now, now).reply
    {
      if q.record.tenant != q.tenant { return Err(TenantMismatch); }
      if q.record.fingerprint != q.fingerprint { return Err(FingerprintMismatch); }
      if q.record.ingestion != q.ingestion { return Err(IdMismatch); }
      if !q.record.status.Received? { return Err(NotReceived); }
      var bound := BoundRecord(q, now);
      if bound.Some? {
        if bound.value.fingerprint == q.fingerprint { return Ok(Created(bound.value, false)); }
        return Err(IdempotencyKeyConflict);
      }
      var existing := ScanForFingerprint(Slot(q.tenant, q.fingerprint));
      if existing.Some? {
        r := Replay(q, existing.value);
        return;
      }
      ExpireTombstoneIfNeeded(q.Target(), now);
      assert Mirrors(q.Target());
      if q.Target() in ingestionRecords { return Err(IngestionIdConflict); }
      var violated := InsertRecord(q);
      if violated { return Err(ConstraintViolation); }
      return Ok(Created(q.record, true));
    }

    method GetReceived(k: Key, now: int) returns (r: Option<Record>)
      requires Valid()
      modifies this
      ensures Valid()
      ensures model == Get(policy, old(model), k, now).store && Ok(r) == Get(policy, old(model), k, now).reply
    {
      ExpireTombstoneIfNeeded(k, now);
      assert Mirrors(k) && KeyValid(model, k);
      if k in ingestionRecords && ingestionRecords[k].status.Received? { return Some(ingestionRecords[k].ToRecord(k)); }
      return None;
    }

    method GetAny(k: Key, now: int) returns (r: Option<Record>)
      requires Valid()
      modifies this
      ensures Valid()
      ensures model == GetAnyStatus(policy, old(model), k, now).store
      ensures Ok(r) == GetAnyStatus(policy, old(model), k, now).reply
    {
      ExpireTombstoneIfNeeded(k, now);
      assert Mirrors(k) && KeyValid(model, k);
      if k in ingestionRecords { return Some(ingestionRecords[k].ToRecord(k)); }
      return None;
    }

    method TombstoneFor(k: Key, now: int) returns (r: Option<Tombstone>)
      requires Valid()
      modifies this
      ensures Valid()
      ensures model == GetTombstone(policy, old(model), k, now).store
      ensures Ok(r) == GetTombstone(policy, old(model), k, now).reply
    {
      ExpireTombstoneIfNeeded(k, now);
      assert Mirrors(k) && KeyValid(model, k);
      if k in tombstones {
        return Some(Tombstone(k, tombstones[k].reason, tombstones[k].retiredAt, tombstones[k].deletedAt));
      }
      return None;
    }

    /** UPDATE ... SET status = 'retired' WHERE ... AND status = 'received' RETURNING ..., no validation before it. */
    method Retire(k: Key, at: int, why: Reason, now: int) returns (r: Result<Option<Record>>)
      requires Valid()
      modifies this
      ensures Valid()
      ensures model == MarkRetired(policy, old(model), k, at, why, now).store
      ensures r == AtTable(MarkRetired(policy, old(model), k, at, why, now).reply)
    {
      ExpireTombstoneIfNeeded(k, now);
      label expired:
      assert Mirrors(k) && KeyValid(model, k);
      if k in ingestionRecords && ingestionRecords[k].status.Received? {
        var row := ingestionRecords[k].(status := Retired, reason := Some(why), retiredAt := Some(at));
        if !row.Allowed() { return Err(ConstraintViolation); }
        DoKeepsValid(model, Retirement(k, at, why));
        ingestionRecords := ingestionRecords[k := row];
        model := StoreSpec.Retire(model, k, model.records[k].AsRetired(at, why));
        forall j ensures Mirrors(j) { assert old@expired(Mirrors(j)); }
        return Ok(Some(row.ToRecord(k)));
      }
      if k in ingestionRecords { return Ok(Some(ingestionRecords[k].ToRecord(k))); }
      return Ok(None);
    }

    /** UPDATE to deleted, then a plain INSERT INTO tombstones: the latter never meets an existing row. */
    method DeleteRow(k: Key, t: TombstoneRow) returns (violated: bool)
      modifies this`ingestionRecords, this`tombstones
      requires k in ingestionRecords
      ensures violated <==>
        !old(ingestionRecords)[k].(status := Deleted, deletedAt := Some(t.deletedAt)).Allowed() || k in old(tombstones) || t.deletedAt < t.retiredAt
      ensures !violated ==>
        && ingestionRecords == old(ingestionRecords)[k := old(ingestionRecords)[k].(status := Deleted, deletedAt := Some(t.deletedAt))]
        && tombstones == old(tombstones)[k := t]
      ensures violated ==> ingestionRecords == old(ingestionRecords) && tombstones == old(tombstones)
    {
      var row := ingestionRecords[k].(status := Deleted, deletedAt := Some(t.deletedAt));
      if !row.Allowed() || k in tombstones || t.deletedAt < t.retiredAt { return true; }
      ingestionRecords := ingestionRecords[k := row];
      tombstones := tombstones[k := t];
      return false;
    }

    method Purge(k: Key, at: int, now: int) returns (r: Result<Option<Record>>)
      requires Valid()
      modifies this
      ensures Valid()
      ensures model == MarkPurged(policy, old(model), k, at, now).store
      ensures r == MarkPurged(policy, old(model), k, at, now).reply
    {
      ExpireTombstoneIfNeeded(k, now);
      label expired:
      assert Mirrors(k) && KeyValid(model, k);
      if k !in ingestionRecords { return Ok(None); }
      var record := ingestionRecords[k].ToRecord(k);
      if record.status.Deleted? { return Ok(Some(record)); }
      if !record.status.Retired? { return Err(NotRetired); }
      if k in purgeClaims { return Err(ClaimActive); }
      var candidate := record.AsDeleted(at);
      if !candidate.Consistent() { return Err(InvalidCandidate); }
      DoKeepsValid(model, Deletion(k, at));
      var violated := DeleteRow(k, TombstoneRowOf(TombstoneOf(candidate)));
      if violated { return Err(ConstraintViolation); }
      model := Delete(model, k, candidate, TombstoneOf(candidate));
      forall j ensures Mirrors(j) { assert old@expired(Mirrors(j)); }
      return Ok(Some(candidate));
    }

    /** A plain INSERT INTO purge_claims: a claim already there would be a primary-key violation. */
    method InsertClaim(k: Key, row: ClaimRow) returns (violated: bool)
      modifies this`purgeClaims
      ensures violated <==> k in old(purgeClaims)
      ensures purgeClaims == if violated then old(purgeClaims) else old(purgeClaims)[k := row]
    {
      if k in purgeClaims { return true; }
      purgeClaims := purgeClaims[k := row];
      return false;
    }

    method Begin(k: Key, at: int, now: int) returns (r: Result<Option<PurgeClaim>>)
      requires Valid()
      modifies this
      ensures Valid()
      ensures model == BeginPurge(policy, old(model), k, at, now).store
      ensures r == BeginPurge(policy, old(model), k, at, now).reply
    {
      ExpireTombstoneIfNeeded(k, now);
      label expired:
      assert Mirrors(k) && KeyValid(model, k);
      if k !in ingestionRecords { return Ok(None); }
      var record := ingestionRecords[k].ToRecord(k);
      if record.status.Received? { return Err(NotRetired); }
      if record.status.Deleted? { return Ok(None); }
      if k in purgeClaims { return Ok(None); }
      var candidate := record.AsDeleted(at);
      if !candidate.Consistent() { return Err(InvalidCandidate); }
      DoKeepsValid(model, Grant(k, at));
      claimIdSeq := claimIdSeq + 1;
      var generation := ingestionRecords[k].generation;
      var violated := InsertClaim(k, ClaimRow(generation, claimIdSeq, candidate.reason.value, candidate.retiredAt.value, at));
      if violated { return Err(ConstraintViolation); }
      model := Do(model, Grant(k, at));
      forall j ensures Mirrors(j) { assert old@expired(Mirrors(j)); }
      return Ok(Some(PurgeClaim(k, generation, claimIdSeq)));
    }

    method ReleaseClaim(c: PurgeClaim)
      requires Valid()
      modifies this
      ensures Valid()
      ensures model == Release(old(model), c)
    {
      assert Mirrors(c.key) && KeyValid(model, c.key);
      AfterKeepsValid(policy, model, ReleaseCall(c));
      if c.key in purgeClaims && purgeClaims[c.key].generation == c.generation && purgeClaims[c.key].claimId == c.claimId {
        purgeClaims := purgeClaims - {c.key};
      }
      model := Release(model, c);
      forall j ensures Mirrors(j) { assert old(Mirrors(j)); }
    }

    method FinalizeClaim(c: PurgeClaim, now: int) returns (r: Result<Option<Record>>)
      requires Valid()
      modifies this
      ensures Valid()
      ensures model == Finalize(policy, old(model), c, now).store
      ensures r == Finalize(policy, old(model), c, now).reply
    {
      ExpireTombstoneIfNeeded(c.key, now);
      label expired:
      assert Mirrors(c.key) && KeyValid(model, c.key);
      if c.key !in purgeClaims { return Ok(None); }
      var active := purgeClaims[c.key];
      if active.generation != c.generation || active.claimId != c.claimId { return Ok(None); }
      // UPDATE ... RETURNING finds the row: the source's assertion that it does never fires
      assert c.key in ingestionRecords;
      DoKeepsValid(model, Finalization(c));
      var violated := DeleteRow(c.key, TombstoneRow(active.reason, active.retiredAt, active.deletedAt));
      if violated { return Err(ConstraintViolation); }
      purgeClaims := purgeClaims - {c.key};
      model := Do(model, Finalization(c));
      forall j ensures Mirrors(j) { assert old@expired(Mirrors(j)); }
      return Ok(Some(ingestionRecords[c.key].ToRecord(c.key)));
    }

    /** What SELECT over ingestion_records yields: the model's records. */
    method SelectAll() returns (all: map<Key, Record>)
      requires Valid()
      ensures all == model.records && Keyed(all)
    {
      all := map k | k in ingestionRecords :: ingestionRecords[k].ToRecord(k);
      forall k ensures k in all <==> k in model.records { assert Mirrors(k); }
      forall k | k in all ensures all[k] == model.records[k] { assert Mirrors(k) && KeyValid(model, k); }
      assert all.Keys == model.records.Keys;
    }

    method ListExpiredForRetentionSweep(olderThan: int) returns (out: seq<Record>)
      requires Valid()
      ensures out == Listing(model.records, ExpiredForRetention(model, olderThan), ByReceived)
      ensures ListsReceived(model, olderThan, out)
    {
      ListingListsReceived(model, olderThan);
      var all := SelectAll();
      var keys := set k | k in all && all[k].status.Received? && all[k].receivedAt < olderThan;
      out := Collect(all, keys, ByReceived);
    }

    /** The oldest retired records without an active claim, at most limit of them. */
    method ListRetiredForPurgeSweep(limit: int) returns (r: Result<seq<Record>>)
      requires Valid()
      ensures limit <= 0 ==> r == Err(InvalidArgument)
      ensures limit > 0 ==> r == Ok(Prefix(Listing(model.records, RetiredUnclaimed(model), ByRetired), limit))
      ensures limit > 0 ==> ListsOldestRetired(model, limit, r.value)
    {
      if limit <= 0 { return Err(InvalidArgument); }
      var all := SelectAll();
      forall k ensures k in purgeClaims <==> k in model.claims { assert Mirrors(k); }
      var keys := set k | k in all && all[k].status.Retired? && k !in purgeClaims;
      assert keys == RetiredUnclaimed(model);
      var eligible := Collect(all, keys, ByRetired);
      PrefixListsOldestRetired(model, limit);
      return Ok(Prefix(eligible, limit));
    }
  }
}
