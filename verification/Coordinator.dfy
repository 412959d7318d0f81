/** create_ingestion of src/cloudops_guard/ingestion_api/coordinator.py, run against the two stores. */
module Coordinator {
  import opened Wrappers
  import opened Models
  import opened StoreSpec
  import opened StoreChanges
  import R = StoreRuns
  import opened StorageKeys
  import opened StoreAnswers
  import opened MemoryStore
  import opened Service

  /** What one round of the loop is given: the generated id and the clock readings it would take. */
  datatype Round = Round(ingestion: string, clock: Option<int>, now: int, expiryNow: int)

  datatype Outcome =
    | Made(record: Record)          // (record, created=True)
    | Found(record: Record)         // (record, created=False)
    | KeyConflict                   // IdempotencyKeyConflict, re-raised
    | InvalidIdentifier             // derive_storage_key refused the generated id
    | NoCandidate                   // the clock raised, or its reading made no valid record
    | InternalError                 // every round collided

  datatype Report = Report(tenant: string, fingerprint: string, bytes: seq<int>, key: Option<string>)
  {
    function Candidate(ingestion: string, at: int): Record {
      Record(tenant, ingestion, fingerprint, at, Received, None, None, None)
    }
    function Request(ingestion: string, at: int): CreateRequest
      requires Candidate(ingestion, at).Consistent()
    {
      CreateRequest(tenant, fingerprint, ingestion, Candidate(ingestion, at), key)
    }
  }

  /** The round has a candidate to commit. */
  predicate HasCandidate(d: Report, a: Round) {
    a.clock.Some? && d.Candidate(a.ingestion, a.clock.value).Consistent()
  }

  function CommitOf(p: Policy, s: Store, d: Report, a: Round): Step<Created>
    requires HasCandidate(d, a)
  {
    Create(p, s, d.Request(a.ingestion, a.clock.value), a.now, a.expiryNow)
  }

  /** The store's four precondition errors and its index error cannot reach the loop. */
  lemma OnlyConflicts(p: Policy, s: Store, q: CreateRequest, now: int, expiryNow: int)
    requires Valid(s) && q.Matches()
    ensures var out := Create(p, s, q, now, expiryNow);
            && (out.reply.Err? ==> out.reply.error in {IngestionIdConflict, IdempotencyKeyConflict} && out.store == s)
            && (out.reply.Ok? && out.reply.value.created ==>
                  out.reply.value.record == q.record && out.store.HasStatus(q.Target(), Received))
  {
    var call := CreateCall(q, now, expiryNow);
    if Answer(p, s, call).Refused() { R.RefusedLeavesStore(p, s, call); }
    assert SlotValid(s, Slot(q.tenant, q.fingerprint));
  }

  /** The report's idempotency key is bound, within its window, to a received record of other content. */
  predicate KeyTaken(p: Policy, s: Store, d: Report, now: int) {
    d.key.Some? && Handle(d.tenant, d.key.value) in s.bindings &&
    var b := s.bindings[Handle(d.tenant, d.key.value)];
    var k := Key(d.tenant, b.ingestion);
    s.HasStatus(k, Received) && s.records[k].fingerprint != d.fingerprint && now <= b.receivedAt + p.keyWindow
  }

  /** The round is retried: its storage key is reserved, or its id is taken and neither key nor content has an answer. */
  ghost predicate Retried(p: Policy, s: Store, blobs: map<string, seq<int>>, d: Report, a: Round) {
    var k := Key(d.tenant, a.ingestion);
    && ValidKey(k)
    && (|| StorageKey(k) in blobs
        || (&& a.clock.Some? && d.fingerprint != "" && !KeyTaken(p, s, d, a.now)
            && (forall j :: !Known(s, d.tenant, d.fingerprint, j)) && Present(p, s, k, a.expiryNow)))
  }

  /** Why the first round that is not retried ends as it does: for each round exactly one outcome fits. */
  ghost predicate Explained(p: Policy, s: Store, d: Report, a: Round, outcome: Outcome) {
    match outcome
    case InvalidIdentifier => !ValidKey(Key(d.tenant, a.ingestion))
    case NoCandidate => ValidKey(Key(d.tenant, a.ingestion)) && (a.clock.None? || d.fingerprint == "")
    case KeyConflict => Committable(d, a) && KeyTaken(p, s, d, a.now)
    case Found(r) => Committable(d, a) && !KeyTaken(p, s, d, a.now) && Known(s, d.tenant, d.fingerprint, r.Id()) && s.records[r.Id()] == r
    case Made(r) =>
      && Committable(d, a) && !KeyTaken(p, s, d, a.now) && (forall k :: !Known(s, d.tenant, d.fingerprint, k))
      && !Present(p, s, Key(d.tenant, a.ingestion), a.expiryNow)
      && r == Record(d.tenant, a.ingestion, d.fingerprint, a.clock.value, Received, None, None, None)
    case InternalError => false
  }

  predicate Committable(d: Report, a: Round) {
    ValidKey(Key(d.tenant, a.ingestion)) && a.clock.Some? && d.fingerprint != ""
  }

  /** What the commit of a round answers, in terms of what is stored. */
  lemma CommitExplained(p: Policy, s: Store, d: Report, a: Round)
    requires Valid(s) && Committable(d, a)
    ensures HasCandidate(d, a)
    ensures var out := CommitOf(p, s, d, a);
      match out.reply
      case Ok(c) =>
        if c.created then Explained(p, s, d, a, Made(c.record)) && out.store.records == s.records[c.record.Id() := c.record]
        else Explained(p, s, d, a, Found(c.record)) && out.store.records == s.records
      case Err(e) =>
        && out.store == s
        && if e == IngestionIdConflict then
             !KeyTaken(p, s, d, a.now) && (forall k :: !Known(s, d.tenant, d.fingerprint, k)) && Present(p, s, Key(d.tenant, a.ingestion), a.expiryNow)
           else e == IdempotencyKeyConflict && KeyTaken(p, s, d, a.now)
  {
    var q := d.Request(a.ingestion, a.clock.value);
    CreateAnswers(p, s, q, a.now, a.expiryNow);
    ConflictIsKeyTaken(p, s, d, a);
    OnlyConflicts(p, s, q, a.now, a.expiryNow);
    var reply := CommitOf(p, s, d, a).reply;
    if reply.Ok? && !reply.value.created { CreateAnswersOwnContent(p, s, q, a.now, a.expiryNow); }
  }

  lemma ConflictIsKeyTaken(p: Policy, s: Store, d: Report, a: Round)
    requires Valid(s) && Committable(d, a)
    ensures HasCandidate(d, a)
    ensures CommitOf(p, s, d, a).reply == Err(IdempotencyKeyConflict) <==> KeyTaken(p, s, d, a.now)
  {
  }

  /**
   Reservation accounting, and the outcome. Run alone, the loop leaves the blob map exactly as it was, plus
   one entry with the report's bytes under the new record's key if and only if it created the record; the
   store takes at most the one step of the deciding round. A round is retried exactly when its storage key
   or its id is taken; the deciding round's outcome is the one that fits what is stored.
   */
  method CreateIngestion(store: InMemoryMetadataStore, blobStore: InMemoryReportBlobStore, d: Report, rounds: seq<Round>)
    returns (outcome: Outcome, tried: nat)
    requires store.Valid() && |rounds| == MAX_ATTEMPTS
    modifies store, blobStore
    ensures store.Valid() && tried <= MAX_ATTEMPTS == 5
    ensures forall i :: 0 <= i < tried ==> Retried(store.policy, old(store.View()), old(blobStore.blobs), d, rounds[i])
    ensures outcome.InternalError? <==> tried == MAX_ATTEMPTS
    ensures tried < MAX_ATTEMPTS ==>
      && !Retried(store.policy, old(store.View()), old(blobStore.blobs), d, rounds[tried])
      && Explained(store.policy, old(store.View()), d, rounds[tried], outcome)
    ensures outcome.Made? || outcome.Found? ==>
      HasCandidate(d, rounds[tried]) && store.View() == CommitOf(store.policy, old(store.View()), d, rounds[tried]).store
    ensures !outcome.Made? && !outcome.Found? ==> store.View() == old(store.View())
    ensures store.records == if outcome.Made? then old(store.records)[outcome.record.Id() := outcome.record] else old(store.records)
    ensures outcome.Made? ==>
      && var path := StorageKey(outcome.record.Id());
      path !in old(blobStore.blobs) && blobStore.blobs == old(blobStore.blobs)[path := d.bytes]
    ensures !outcome.Made? ==> blobStore.blobs == old(blobStore.blobs)
  {
    ghost var s, b := store.View(), blobStore.blobs;
    tried := 0;
    while tried < MAX_ATTEMPTS
      invariant tried <= MAX_ATTEMPTS && store.Valid()
      invariant store.View() == s && blobStore.blobs == b
      invariant forall i :: 0 <= i < tried ==> Retried(store.policy, s, b, d, rounds[i])
    {
      var a := rounds[tried];
      var path := Derive(d.tenant, a.ingestion);
      if path.None? { return InvalidIdentifier, tried; }
      var reserved := blobStore.PutIfAbsent(path.value, d.bytes);
      if !reserved {
        tried := tried + 1;
        continue;
      }
      assert b[path.value := d.bytes] - {path.value} == b;
      if !HasCandidate(d, a) {
        blobStore.Delete(path.value);
        return NoCandidate, tried;
      }
      var q := d.Request(a.ingestion, a.clock.value);
      CommitExplained(store.policy, s, d, a);
      var reply := store.CreateOrGetReceived(q, a.now, a.expiryNow);
      match reply {
        case Ok(c) =>
          if c.created { return Made(c.record), tried; }
          blobStore.Delete(path.value);
          return Found(c.record), tried;
        case Err(e) =>
          blobStore.Delete(path.value);
          if e == IngestionIdConflict {
            tried := tried + 1;
          } else {
            return KeyConflict, tried;
          }
      }
    }
    return InternalError, tried;
  }
}
