/**
 What each MetadataStore operation does to the store's state, as functions on values. The
 in-memory store (MemoryStore.dfy) and the PostgreSQL store (PostgresStore.dfy) are both proved
 against these functions; the promises made about the store are proved about them.

 An operation takes the clock readings the original takes while it runs. create_or_get_received
 reads the clock twice: once for the key window and once more when it expires a tombstone.
 */
module StoreSpec {
  import opened Wrappers
  import opened Models

  /** A (tenant, fingerprint) pair: the slot at most one received record may occupy. */
  datatype Slot = Slot(tenant: string, fingerprint: string)

  /** A (tenant, idempotency_key) pair. */
  datatype Handle = Handle(tenant: string, idempotencyKey: string)

  datatype Binding = Binding(ingestion: string, receivedAt: int)

  datatype ActiveClaim = ActiveClaim(generation: int, claimId: int, purged: Record, tombstone: Tombstone)
  {
    /** Claims are identified by generation and claim id together, never by one of them. */
    predicate Is(c: PurgeClaim) { generation == c.generation && claimId == c.claimId }
  }

  /** How long a tombstone blocks its key, and how long an idempotency key stays bound. */
  datatype Policy = Policy(tombstoneRetention: int, keyWindow: int)

  datatype Store = Store(
    records: map<Key, Record>, tombstones: map<Key, Tombstone>,
    generations: map<Key, int>, nextGeneration: int,
    claims: map<Key, ActiveClaim>, nextClaimId: int,
    active: map<Slot, string>, bindings: map<Handle, Binding>)
  {
    /** Key k currently holds the record created as generation g. */
    predicate Live(k: Key, g: int) {
      k in records && k in generations && generations[k] == g
    }

    predicate HasStatus(k: Key, status: Status) {
      k in records && records[k].status == status
    }

    /** c is the exact claim that is active for its key. */
    predicate Holds(c: PurgeClaim) {
      c.key in claims && claims[c.key].Is(c)
    }
  }

  const EMPTY := Store(map[], map[], map[], 0, map[], 0, map[], map[])

  function SlotOf(r: Record): Slot { Slot(r.tenant, r.fingerprint) }

  datatype Step<+T> = Step(store: Store, reply: Result<T>)

  datatype CreateRequest = CreateRequest(
    tenant: string, fingerprint: string, ingestion: string, record: StoredRecord, key: Option<string>)
  {
    function Target(): Key { Key(tenant, ingestion) }
    function BindingHandle(): Handle
      requires key.Some?
    {
      Handle(tenant, key.value)
    }
    /** The request can only come from a caller that built the candidate for this very call. */
    predicate Matches() {
      && record.tenant == tenant && record.fingerprint == fingerprint
      && record.ingestion == ingestion && record.status.Received?
    }
  }

  datatype Created = Created(record: Record, created: bool)

  // ---- The operations ----

  function Expire(p: Policy, s: Store, k: Key, now: int): Store {
    if k in s.tombstones && now - s.tombstones[k].deletedAt > p.tombstoneRetention
    then s.(tombstones := s.tombstones - {k}, records := s.records - {k})
    else s
  }

  /** The record an idempotency key still resolves to, if its binding is active. */
  function Bound(p: Policy, s: Store, q: CreateRequest, now: int): Option<Record> {
    if q.key.Some? && q.BindingHandle() in s.bindings then
      var b := s.bindings[q.BindingHandle()];
      var k := Key(q.tenant, b.ingestion);
      if s.HasStatus(k, Received) && now <= b.receivedAt + p.keyWindow
      then Some(s.records[k])
      else None
    else None
  }

  function Bind(s: Store, q: CreateRequest, r: Record): Store {
    if q.key.Some?
    then s.(bindings := s.bindings[q.BindingHandle() := Binding(r.ingestion, r.receivedAt)])
    else s
  }

  function Insert(s: Store, q: CreateRequest): Store {
    Bind(s.(records := s.records[q.Target() := q.record],
            nextGeneration := s.nextGeneration + 1,
            generations := s.generations[q.Target() := s.nextGeneration + 1],
            active := s.active[Slot(q.tenant, q.fingerprint) := q.ingestion]),
         q, q.record)
  }

  function Create(p: Policy, s: Store, q: CreateRequest, now: int, expiryNow: int): Step<Created> {
    if q.record.tenant != q.tenant then Step(s, Err(TenantMismatch))
    else if q.record.fingerprint != q.fingerprint then Step(s, Err(FingerprintMismatch))
    else if q.record.ingestion != q.ingestion then Step(s, Err(IdMismatch))
    else if !q.record.status.Received? then Step(s, Err(NotReceived))
    else
      var bound := Bound(p, s, q, now);
      if bound.Some? then
        if bound.value.fingerprint == q.fingerprint
        then Step(s, Ok(Created(bound.value, false)))
        else Step(s, Err(IdempotencyKeyConflict))
      else
        var slot := Slot(q.tenant, q.fingerprint);
        if slot in s.active then
          var k := Key(q.tenant, s.active[slot]);
          if k !in s.records then Step(s, Err(MissingIndexTarget))
          else Step(Bind(s, q, s.records[k]), Ok(Created(s.records[k], false)))
        else
          var s1 := Expire(p, s, q.Target(), expiryNow);
          if q.Target() in s1.records then Step(s1, Err(IngestionIdConflict))
          else Step(Insert(s1, q), Ok(Created(q.record, true)))
  }

  function Lookup(s: Store, k: Key): Option<Record> {
    if k in s.records then Some(s.records[k]) else None
  }

  function Get(p: Policy, s: Store, k: Key, now: int): Step<Option<Record>> {
    var s1 := Expire(p, s, k, now);
    Step(s1, Ok(if s1.HasStatus(k, Received) then Some(s1.records[k]) else None))
  }

  function GetAnyStatus(p: Policy, s: Store, k: Key, now: int): Step<Option<Record>> {
    var s1 := Expire(p, s, k, now);
    Step(s1, Ok(Lookup(s1, k)))
  }

  function GetTombstone(p: Policy, s: Store, k: Key, now: int): Step<Option<Tombstone>> {
    var s1 := Expire(p, s, k, now);
    Step(s1, Ok(if k in s1.tombstones then Some(s1.tombstones[k]) else None))
  }

  function Retire(s: Store, k: Key, r: Record): Store
    requires k in s.records
  {
    var slot := SlotOf(s.records[k]);
    s.(records := s.records[k := r],
       active := if slot in s.active && s.active[slot] == k.ingestion then s.active - {slot} else s.active)
  }

  function MarkRetired(p: Policy, s: Store, k: Key, at: int, why: Reason, now: int): Step<Option<Record>> {
    var s1 := Expire(p, s, k, now);
    if k !in s1.records then Step(s1, Ok(None))
    else if !s1.records[k].status.Received? then Step(s1, Ok(Some(s1.records[k])))
    else
      var candidate := s1.records[k].AsRetired(at, why);
      if !candidate.Consistent() then Step(s1, Err(InvalidCandidate))
      else Step(Retire(s1, k, candidate), Ok(Some(candidate)))
  }

  function Delete(s: Store, k: Key, r: Record, t: Tombstone): Store {
    s.(records := s.records[k := r], tombstones := s.tombstones[k := t])
  }

  function MarkPurged(p: Policy, s: Store, k: Key, at: int, now: int): Step<Option<Record>> {
    var s1 := Expire(p, s, k, now);
    if k !in s1.records then Step(s1, Ok(None))
    else
      var r := s1.records[k];
      if r.status.Deleted? then Step(s1, Ok(Some(r)))
      else if !r.status.Retired? then Step(s1, Err(NotRetired))
      else if k in s1.claims then Step(s1, Err(ClaimActive))
      else
        var candidate := r.AsDeleted(at);
        if !candidate.Consistent() then Step(s1, Err(InvalidCandidate))
        else Step(Delete(s1, k, candidate, TombstoneOf(candidate)), Ok(Some(candidate)))
  }

  function BeginPurge(p: Policy, s: Store, k: Key, at: int, now: int): Step<Option<PurgeClaim>> {
    var s1 := Expire(p, s, k, now);
    if k !in s1.records then Step(s1, Ok(None))
    else
      var r := s1.records[k];
      if r.status.Received? then Step(s1, Err(NotRetired))
      else if r.status.Deleted? then Step(s1, Ok(None))
      else if k in s1.claims then Step(s1, Ok(None))
      else
        var candidate := r.AsDeleted(at);
        if !candidate.Consistent() then Step(s1, Err(InvalidCandidate))
        else
          var generation := if k in s1.generations then s1.generations[k] else 0;
          var id := s1.nextClaimId + 1;
          Step(s1.(nextClaimId := id,
                   claims := s1.claims[k := ActiveClaim(generation, id, candidate, TombstoneOf(candidate))]),
               Ok(Some(PurgeClaim(k, generation, id))))
  }

  function Release(s: Store, c: PurgeClaim): Store {
    if s.Holds(c) then s.(claims := s.claims - {c.key}) else s
  }

  function Finalize(p: Policy, s: Store, c: PurgeClaim, now: int): Step<Option<Record>> {
    var s1 := Expire(p, s, c.key, now);
    if !s1.Holds(c) then Step(s1, Ok(None))
    else
      var a := s1.claims[c.key];
      Step(Delete(s1, c.key, a.purged, a.tombstone).(claims := s1.claims - {c.key}), Ok(Some(a.purged)))
  }

  /** The records a retention sweep with this cutoff is offered. */
  function ExpiredForRetention(s: Store, olderThan: int): set<Key> {
    set k | k in s.records && s.records[k].status.Received? && s.records[k].receivedAt < olderThan
  }

  /** The records a purge sweep may be offered. */
  function RetiredUnclaimed(s: Store): set<Key> {
    set k | k in s.records && s.records[k].status.Retired? && k !in s.claims
  }

  // ---- The store invariant: its pieces of state agree, stated key by key and slot by slot ----

  /** An active claim pins a retired record and carries exactly its deleted form. */
  predicate ClaimPins(s: Store, k: Key) {
    && s.HasStatus(k, Retired)
    && k in s.claims && k in s.generations
    && s.claims[k].generation == s.generations[k]
    && 0 < s.claims[k].claimId <= s.nextClaimId
    && s.claims[k].purged.Consistent()
    && s.claims[k].purged.deletedAt.Some?
    && s.claims[k].purged == s.records[k].AsDeleted(s.claims[k].purged.deletedAt.value)
    && s.claims[k].tombstone == TombstoneOf(s.claims[k].purged)
  }

  predicate KeyValid(s: Store, k: Key) {
    && (k in s.records ==>
          && s.records[k].Id() == k && s.records[k].Consistent()
          && k in s.generations
          && (s.records[k].status.Deleted? ==>
                k in s.tombstones && s.tombstones[k] == TombstoneOf(s.records[k]))
          && (s.records[k].status.Received? ==>
                var slot := SlotOf(s.records[k]);
                slot in s.active && s.active[slot] == k.ingestion))
    && (k in s.tombstones ==> s.HasStatus(k, Deleted))
    && (k in s.generations ==> 0 < s.generations[k] <= s.nextGeneration)
    && (k in s.claims ==> ClaimPins(s, k))
  }

  /** An index entry names a received record with that fingerprint. */
  predicate SlotValid(s: Store, slot: Slot) {
    slot in s.active ==>
      var k := Key(slot.tenant, s.active[slot]);
      s.HasStatus(k, Received) && s.records[k].fingerprint == slot.fingerprint
  }

  ghost predicate Valid(s: Store) {
    && s.nextGeneration >= 0 && s.nextClaimId >= 0
    && (forall k :: KeyValid(s, k))
    && (forall slot :: SlotValid(s, slot))
  }
}
