/** The in-memory stores of src/cloudops_guard/ingestion/reference.py, updated in place. */
module MemoryStore {
  import opened Wrappers
  import opened Models
  import opened StoreSpec
  import opened StoreChanges
  import opened Listings

  /** 24 hours in microseconds. */
  const IDEMPOTENCY_KEY_WINDOW := 24 * 3600 * 1_000_000

  class InMemoryMetadataStore {
    const policy: Policy
    var records: map<Key, Record>
    var tombstones: map<Key, Tombstone>
    var generations: map<Key, int>
    var nextGeneration: int
    var activePurgeClaims: map<Key, ActiveClaim>
    var nextClaimId: int
    var activeFingerprints: map<Slot, string>
    var idempotencyBindings: map<Handle, Binding>

    function View(): Store
      reads this
    {
      Store(records, tombstones, generations, nextGeneration, activePurgeClaims, nextClaimId,
            activeFingerprints, idempotencyBindings)
    }

    ghost predicate Valid()
      reads this
    {
      StoreSpec.Valid(View())
    }

    constructor (tombstoneRetention: int)
      ensures Valid() && View() == EMPTY
      ensures policy == Policy(tombstoneRetention, IDEMPOTENCY_KEY_WINDOW)
    {
      policy := Policy(tombstoneRetention, IDEMPOTENCY_KEY_WINDOW);
      records, tombstones, generations, nextGeneration := map[], map[], map[], 0;
      activePurgeClaims, nextClaimId, activeFingerprints, idempotencyBindings := map[], 0, map[], map[];
    }

    method ExpireTombstoneIfNeeded(k: Key, now: int)
      modifies this
      ensures View() == Expire(policy, old(View()), k, now)
    {
      if k !in tombstones {
        return;
      }
      if now - tombstones[k].deletedAt > policy.tombstoneRetention {
        tombstones := tombstones - {k};
        records := records - {k};
      }
    }

    /** Step 1 of create_or_get_received: what the key resolves to, while its binding is active. */
    method BoundRecord(q: CreateRequest, now: int) returns (r: Option<Record>)
      ensures r == Bound(policy, View(), q, now)
    {
      if q.key.Some? && q.BindingHandle() in idempotencyBindings {
        var binding := idempotencyBindings[q.BindingHandle()];
        var bound := Key(q.tenant, binding.ingestion);
        if bound in records && records[bound].status.Received? && now <= binding.receivedAt + policy.keyWindow {
          return Some(records[bound]);
        }
      }
      return None;
    }

    method BindKey(q: CreateRequest, r: Record)
      modifies this
      ensures View() == Bind(old(View()), q, r)
    {
      if q.key.Some? {
        idempotencyBindings := idempotencyBindings[q.BindingHandle() := Binding(r.ingestion, r.receivedAt)];
      }
    }

    /** Step 3, once the id is known to be free. */
    method InsertRecord(q: CreateRequest)
      modifies this
      ensures View() == StoreSpec.Insert(old(View()), q)
    {
      records := records[q.Target() := q.record];
      nextGeneration := nextGeneration + 1;
      generations := generations[q.Target() := nextGeneration];
      activeFingerprints := activeFingerprints[Slot(q.tenant, q.fingerprint) := q.ingestion];
      BindKey(q, q.record);
    }

    method CreateOrGetReceived(q: CreateRequest, now: int, expiryNow: int) returns (r: Result<Created>)
      requires Valid()
      modifies this
      ensures Valid()
      ensures View() == Create(policy, old(View()), q, now, expiryNow).store
      ensures r == Create(policy, old(View()), q, now, expiryNow).reply
    {
      AfterKeepsValid(policy, View(), CreateCall(q, now, expiryNow));
      if q.record.tenant != q.tenant { return Err(TenantMismatch); }
      if q.record.fingerprint != q.fingerprint { return Err(FingerprintMismatch); }
      if q.record.ingestion != q.ingestion { return Err(IdMismatch); }
      if !q.record.status.Received? { return Err(NotReceived); }
      var bound := BoundRecord(q, now);
      if bound.Some? {
        if bound.value.fingerprint == q.fingerprint { return Ok(Created(bound.value, false)); }
        return Err(IdempotencyKeyConflict);
      }
      var slot := Slot(q.tenant, q.fingerprint);
      if slot in activeFingerprints {
        assert SlotValid(View(), slot);
        var existing := records[Key(q.tenant, activeFingerprints[slot])];
        BindKey(q, existing);
        return Ok(Created(existing, false));
      }
      ExpireTombstoneIfNeeded(q.Target(), expiryNow);
      if q.Target() in records { return Err(IngestionIdConflict); }
      InsertRecord(q);
      return Ok(Created(q.record, true));
    }

    method GetReceived(k: Key, now: int) returns (r: Option<Record>)
      requires Valid()
      modifies this
      ensures Valid()
      ensures View() == Get(policy, old(View()), k, now).store
      ensures Ok(r) == Get(policy, old(View()), k, now).reply
    {
      AfterKeepsValid(policy, View(), GetCall(k, now));
      ExpireTombstoneIfNeeded(k, now);
      if k !in records || !records[k].status.Received? { return None; }
      return Some(records[k]);
    }

    method GetAny(k: Key, now: int) returns (r: Option<Record>)
      requires Valid()
      modifies this
      ensures Valid()
      ensures View() == GetAnyStatus(policy, old(View()), k, now).store
      ensures Ok(r) == GetAnyStatus(policy, old(View()), k, now).reply
    {
      AfterKeepsValid(policy, View(), GetAnyCall(k, now));
      ExpireTombstoneIfNeeded(k, now);
      r := if k in records then Some(records[k]) else None;
    }

    method TombstoneFor(k: Key, now: int) returns (r: Option<Tombstone>)
      requires Valid()
      modifies this
      ensures Valid()
      ensures View() == GetTombstone(policy, old(View()), k, now).store
      ensures Ok(r) == GetTombstone(policy, old(View()), k, now).reply
    {
      AfterKeepsValid(policy, View(), GetTombstoneCall(k, now));
      ExpireTombstoneIfNeeded(k, now);
      r := if k in tombstones then Some(tombstones[k]) else None;
    }

    method Retire(k: Key, at: int, why: Reason, now: int) returns (r: Result<Option<Record>>)
      requires Valid()
      modifies this
      ensures Valid()
      ensures View() == MarkRetired(policy, old(View()), k, at, why, now).store
      ensures r == MarkRetired(policy, old(View()), k, at, why, now).reply
    {
      AfterKeepsValid(policy, View(), RetireCall(k, at, why, now));
      ExpireTombstoneIfNeeded(k, now);
      if k !in records { return Ok(None); }
      var record := records[k];
      if !record.status.Received? { return Ok(Some(record)); }
      var candidate := record.AsRetired(at, why);
      if !candidate.Consistent() { return Err(InvalidCandidate); }
      records := records[k := candidate];
      var slot := SlotOf(record);
      if slot in activeFingerprints && activeFingerprints[slot] == k.ingestion {
        activeFingerprints := activeFingerprints - {slot};
      }
      return Ok(Some(candidate));
    }

    method Purge(k: Key, at: int, now: int) returns (r: Result<Option<Record>>)
      requires Valid()
      modifies this
      ensures Valid()
      ensures View() == MarkPurged(policy, old(View()), k, at, now).store
      ensures r == MarkPurged(policy, old(View()), k, at, now).reply
    {
      AfterKeepsValid(policy, View(), PurgeCall(k, at, now));
      ExpireTombstoneIfNeeded(k, now);
      if k !in records { return Ok(None); }
      var record := records[k];
      if record.status.Deleted? { return Ok(Some(record)); }
      if !record.status.Retired? { return Err(NotRetired); }
      if k in activePurgeClaims { return Err(ClaimActive); }
      var candidate := record.AsDeleted(at);
      if !candidate.Consistent() { return Err(InvalidCandidate); }
      records := records[k := candidate];
      tombstones := tombstones[k := TombstoneOf(candidate)];
      return Ok(Some(candidate));
    }

    method Begin(k: Key, at: int, now: int) returns (r: Result<Option<PurgeClaim>>)
      requires Valid()
      modifies this
      ensures Valid()
      ensures View() == BeginPurge(policy, old(View()), k, at, now).store
      ensures r == BeginPurge(policy, old(View()), k, at, now).reply
    {
      AfterKeepsValid(policy, View(), BeginCall(k, at, now));
      ExpireTombstoneIfNeeded(k, now);
      if k !in records { return Ok(None); }
      var record := records[k];
      if record.status.Received? { return Err(NotRetired); }
      if record.status.Deleted? { return Ok(None); }
      if k in activePurgeClaims { return Ok(None); }
      var candidate := record.AsDeleted(at);
      if !candidate.Consistent() { return Err(InvalidCandidate); }
      var generation := if k in generations then generations[k] else 0;
      nextClaimId := nextClaimId + 1;
      activePurgeClaims := activePurgeClaims[k := ActiveClaim(generation, nextClaimId, candidate, TombstoneOf(candidate))];
      return Ok(Some(PurgeClaim(k, generation, nextClaimId)));
    }

    method ReleaseClaim(c: PurgeClaim)
      requires Valid()
      modifies this
      ensures Valid()
      ensures View() == Release(old(View()), c)
    {
      AfterKeepsValid(policy, View(), ReleaseCall(c));
      if c.key in activePurgeClaims {
        var active := activePurgeClaims[c.key];
        if active.generation == c.generation && active.claimId == c.claimId {
          activePurgeClaims := activePurgeClaims - {c.key};
        }
      }
    }

    method FinalizeClaim(c: PurgeClaim, now: int) returns (r: Option<Record>)
      requires Valid()
      modifies this
      ensures Valid()
      ensures View() == Finalize(policy, old(View()), c, now).store
      ensures Ok(r) == Finalize(policy, old(View()), c, now).reply
    {
      AfterKeepsValid(policy, View(), FinalizeCall(c, now));
      ExpireTombstoneIfNeeded(c.key, now);
      if c.key !in activePurgeClaims { return None; }
      var active := activePurgeClaims[c.key];
      if active.generation != c.generation || active.claimId != c.claimId { return None; }
      records := records[c.key := active.purged];
      tombstones := tombstones[c.key := active.tombstone];
      activePurgeClaims := activePurgeClaims - {c.key};
      return Some(active.purged);
    }

    /** The candidates of a retention sweep, oldest first; reads only. */
    method ListExpiredForRetentionSweep(olderThan: int) returns (out: seq<Record>)
      requires Valid()
      ensures out == Listing(records, ExpiredForRetention(View(), olderThan), ByReceived)
      ensures ListsReceived(View(), olderThan, out)
    {
      ListingListsReceived(View(), olderThan);
      ValidIsKeyed(View());
      var candidates := set k | k in records && records[k].status.Received? && records[k].receivedAt < olderThan;
      out := Collect(records, candidates, ByReceived);
    }
  }

  class InMemoryReportBlobStore {
    var blobs: map<string, seq<int>>

    constructor ()
      ensures blobs == map[]
    {
      blobs := map[];
    }

    method PutIfAbsent(path: string, data: seq<int>) returns (stored: bool)
      modifies this
      ensures stored <==> path !in old(blobs)
      ensures blobs == if stored then old(blobs)[path := data] else old(blobs)
    {
      if path in blobs { return false; }
      blobs := blobs[path := data];
      return true;
    }

    method Get(path: string) returns (data: Option<seq<int>>)
      ensures data == if path in blobs then Some(blobs[path]) else None
    {
      if path in blobs { return Some(blobs[path]); }
      return None;
    }

    /** Repeated deletion is always safe. */
    method Delete(path: string)
      modifies this
      ensures blobs == old(blobs) - {path}
    {
      blobs := blobs - {path};
    }
  }
}
