/**
 The whole service as a transition system over its two stores, which share no transaction
 (coordinator.py, lifecycle.py). Every action is one atomic store call of one request or purger, a
 crash, or a fault; actions of any number of requests and purgers interleave freely. Ingestion ids
 and clock readings are whatever the action says.

 An exception that a caller cannot tell apart from a lost answer is a call followed by a crash.
 */
module Service {
  import opened Wrappers
  import opened Models
  import opened StoreSpec
  import opened StoreChanges
  import opened StorageKeys

  const MAX_ATTEMPTS := 5

  type Bytes = seq<int>

  /** Where a create_ingestion request stands. */
  datatype Phase =
    | Choosing(attempt: nat)                     // about to generate an id
    | Reserved(key: Key, attempt: nat)           // put_if_absent succeeded
    | Undoing(key: Key, resume: Option<nat>)     // about to delete its own reservation

  datatype Creator = Creator(
    tenant: string, fingerprint: string, bytes: Bytes, idempotencyKey: Option<string>, phase: Phase)
  {
    predicate Holds(k: Key) { !phase.Choosing? && phase.key == k }
  }

  /** Where a purge_retired_ingestion call stands once it was granted a claim. */
  datatype Purger =
    | Claimed(claim: PurgeClaim)    // about to delete the blob
    | Erased(claim: PurgeClaim)     // blob deleted, about to finalize
    | Failing(claim: PurgeClaim)    // an exception is propagating, about to release

  /** Whose bytes a storage key holds: history, not state of the service. */
  datatype Owner = ByRequest(request: nat) | ByRecord(generation: int)

  /** Which failures of the two stores are possible. */
  datatype Faults = Faults(
    finalizeMayFail: bool,   // finalize_purge may raise without having committed
    deletesMayLinger: bool)  // a blob delete that raised may take effect all the same, at once or later

  const NO_FAULTS := Faults(false, false)

  datatype System = System(
    store: Store, blobs: map<string, Bytes>,
    creators: map<nat, Creator>, purgers: map<nat, Purger>, lingering: set<string>,
    owner: map<Key, Owner>, origin: map<int, Bytes>)

  const INITIAL := System(EMPTY, map[], map[], map[], {}, map[], map[])

  datatype Action =
    | Arrive(i: nat, tenant: string, fingerprint: string, bytes: Bytes, idempotencyKey: Option<string>)
    | Put(i: nat, ingestion: string)
    | CandidateFails(i: nat)
    | Commit(i: nat, receivedAt: int, now: int, expiryNow: int)
    | Undo(i: nat)
    | UndoRaises(i: nat)
    | CreatorCrash(i: nat)
    | StoreCall(c: Call)                                      // customer reads and deletes, sweeps, mark_purged
    | Begin(j: nat, k: Key, at: int, now: int)
    | Erase(j: nat)
    | EraseRaises(j: nat)
    | Finish(j: nat, now: int)
    | FinishRaises(j: nat)
    | FinishLost(j: nat, now: int)                            // committed, but the answer was an exception
    | GiveUp(j: nat)
    | PurgerCrash(j: nat)
    | Linger(path: string)

  function Candidate(c: Creator, receivedAt: int): Record
    requires c.phase.Reserved?
  {
    Record(c.tenant, c.phase.key.ingestion, c.fingerprint, receivedAt, Received, None, None, None)
  }

  function RequestOf(c: Creator, receivedAt: int): CreateRequest
    requires c.phase.Reserved? && Candidate(c, receivedAt).Consistent()
  {
    CreateRequest(c.tenant, c.fingerprint, c.phase.key.ingestion, Candidate(c, receivedAt), c.idempotencyKey)
  }

  /** One round of the loop starts: a fresh id, then put_if_absent under its storage key. */
  function DoPut(z: System, i: nat, ingestion: string): System
    requires i in z.creators && z.creators[i].phase.Choosing?
  {
    var c := z.creators[i];
    var k := Key(c.tenant, ingestion);
    var path := Derive(c.tenant, ingestion);
    if c.phase.attempt >= MAX_ATTEMPTS || path.None? then z.(creators := z.creators - {i})
    else if path.value in z.blobs then
      z.(creators := z.creators[i := c.(phase := Choosing(c.phase.attempt + 1))])
    else
      z.(blobs := z.blobs[path.value := c.bytes],
         owner := z.owner[k := ByRequest(i)],
         creators := z.creators[i := c.(phase := Reserved(k, c.phase.attempt))])
  }

  /** create_or_get_received and what the loop does with each of its documented outcomes. */
  function DoCommit(p: Policy, z: System, i: nat, receivedAt: int, now: int, expiryNow: int): System
    requires i in z.creators && z.creators[i].phase.Reserved?
    requires Candidate(z.creators[i], receivedAt).Consistent()
  {
    var c := z.creators[i];
    var k := c.phase.key;
    var out := Create(p, z.store, RequestOf(c, receivedAt), now, expiryNow);
    var z1 := z.(store := out.store);
    match out.reply
    case Ok(r) =>
      if r.created then
        z1.(creators := z.creators - {i},
            owner := z.owner[k := ByRecord(out.store.nextGeneration)],
            origin := z.origin[out.store.nextGeneration := c.bytes])
      else z1.(creators := z.creators[i := c.(phase := Undoing(k, None))])
    case Err(e) =>
      if e == IngestionIdConflict then
        z1.(creators := z.creators[i := c.(phase := Undoing(k, Some(c.phase.attempt + 1)))])
      else if e == IdempotencyKeyConflict then
        z1.(creators := z.creators[i := c.(phase := Undoing(k, None))])
      else z1.(creators := z.creators - {i})
  }

  function EraseBlob(z: System, path: string, k: Key): System {
    z.(blobs := z.blobs - {path}, owner := z.owner - {k})
  }

  function Resume(z: System, i: nat): System
    requires i in z.creators && z.creators[i].phase.Undoing?
  {
    match z.creators[i].phase.resume
    case Some(n) => z.(creators := z.creators[i := z.creators[i].(phase := Choosing(n))])
    case None => z.(creators := z.creators - {i})
  }

  function Raised(f: Faults, z: System, path: string): System {
    if f.deletesMayLinger then z.(lingering := z.lingering + {path}) else z
  }

  function SetPurger(z: System, j: nat, u: Purger): System { z.(purgers := z.purgers[j := u]) }

  function DoBegin(p: Policy, z: System, j: nat, k: Key, at: int, now: int): System {
    var out := BeginPurge(p, z.store, k, at, now);
    var z1 := z.(store := out.store);
    if out.reply.Ok? && out.reply.value.Some? then SetPurger(z1, j, Claimed(out.reply.value.value)) else z1
  }

  predicate Possible(f: Faults, z: System, a: Action) {
    match a
    case Arrive(i, _, _, _, _) => i !in z.creators
    case Put(i, _) => i in z.creators && z.creators[i].phase.Choosing?
    case CandidateFails(i) => i in z.creators && z.creators[i].phase.Reserved?
    case Commit(i, receivedAt, _, _) =>
      i in z.creators && z.creators[i].phase.Reserved? && Candidate(z.creators[i], receivedAt).Consistent()
    case Undo(i) => i in z.creators && z.creators[i].phase.Undoing?
    case UndoRaises(i) => i in z.creators && z.creators[i].phase.Undoing?
    case CreatorCrash(i) => i in z.creators
    case StoreCall(c) => c.GetCall? || c.GetAnyCall? || c.GetTombstoneCall? || c.RetireCall? || c.PurgeCall?
    case Begin(j, _, _, _) => j !in z.purgers
    case Erase(j) => j in z.purgers && z.purgers[j].Claimed?
    case EraseRaises(j) => j in z.purgers && z.purgers[j].Claimed?
    case Finish(j, _) => j in z.purgers && z.purgers[j].Erased?
    case FinishRaises(j) => f.finalizeMayFail && j in z.purgers && z.purgers[j].Erased?
    case FinishLost(j, _) => j in z.purgers && z.purgers[j].Erased?
    case GiveUp(j) => j in z.purgers && z.purgers[j].Failing?
    case PurgerCrash(j) => j in z.purgers
    case Linger(path) => path in z.lingering
  }

  function Next(p: Policy, f: Faults, z: System, a: Action): System
    requires Possible(f, z, a)
  {
    match a
    case Arrive(i, tenant, fingerprint, bytes, key) =>
      z.(creators := z.creators[i := Creator(tenant, fingerprint, bytes, key, Choosing(0))])
    case Put(i, ingestion) => DoPut(z, i, ingestion)
    case CandidateFails(i) =>
      z.(creators := z.creators[i := z.creators[i].(phase := Undoing(z.creators[i].phase.key, None))])
    case Commit(i, receivedAt, now, expiryNow) => DoCommit(p, z, i, receivedAt, now, expiryNow)
    case Undo(i) =>
      var k := z.creators[i].phase.key;
      Resume(EraseBlob(z, StorageKey(k), k), i)
    case UndoRaises(i) =>
      Raised(f, z, StorageKey(z.creators[i].phase.key)).(creators := z.creators - {i})
    case CreatorCrash(i) => z.(creators := z.creators - {i})
    case StoreCall(c) => z.(store := After(p, z.store, c))
    case Begin(j, k, at, now) => DoBegin(p, z, j, k, at, now)
    case Erase(j) =>
      var c := z.purgers[j].claim;
      SetPurger(EraseBlob(z, StorageKey(c.key), c.key), j, Erased(c))
    case EraseRaises(j) =>
      var c := z.purgers[j].claim;
      SetPurger(Raised(f, z, StorageKey(c.key)), j, Failing(c))
    case Finish(j, now) =>
      z.(store := Finalize(p, z.store, z.purgers[j].claim, now).store, purgers := z.purgers - {j})
    case FinishRaises(j) => SetPurger(z, j, Failing(z.purgers[j].claim))
    case FinishLost(j, now) =>
      SetPurger(z.(store := Finalize(p, z.store, z.purgers[j].claim, now).store), j, Failing(z.purgers[j].claim))
    case GiveUp(j) => z.(store := Release(z.store, z.purgers[j].claim), purgers := z.purgers - {j})
    case PurgerCrash(j) => z.(purgers := z.purgers - {j})
    case Linger(path) => z.(blobs := z.blobs - {path}, lingering := z.lingering - {path})
  }

  /** A run: actions that are not possible when their turn comes do nothing. */
  function Execute(p: Policy, f: Faults, z: System, actions: seq<Action>): System
    decreases |actions|
  {
    if actions == [] then z
    else Execute(p, f, if Possible(f, z, actions[0]) then Next(p, f, z, actions[0]) else z, actions[1..])
  }

  /** Every received record's storage key holds exactly the bytes its creating request put there. */
  ghost predicate Safe(z: System) {
    forall k :: z.store.HasStatus(k, Received) ==> Intact(z, k)
  }

  /** Key k's storage key holds the bytes that were put there for the generation k now has. */
  predicate Intact(z: System, k: Key) {
    && ValidKey(k)
    && k in z.store.generations && z.store.generations[k] in z.origin
    && StorageKey(k) in z.blobs && z.blobs[StorageKey(k)] == z.origin[z.store.generations[k]]
  }
}
