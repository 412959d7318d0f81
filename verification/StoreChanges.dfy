/**
 One shape for every call: at most one lazy tombstone expiry, then at most one elementary change.
 Proofs about all calls go through this normal form, one elementary change at a time.
 */
module StoreChanges {
  import opened Wrappers
  import opened Models
  import opened StoreSpec

  datatype Call =
    | CreateCall(q: CreateRequest, now: int, expiryNow: int)
    | GetCall(k: Key, now: int)
    | GetAnyCall(k: Key, now: int)
    | GetTombstoneCall(k: Key, now: int)
    | RetireCall(k: Key, at: int, why: Reason, now: int)
    | PurgeCall(k: Key, at: int, now: int)
    | BeginCall(k: Key, at: int, now: int)
    | ReleaseCall(c: PurgeClaim)
    | FinalizeCall(c: PurgeClaim, now: int)

  datatype Reply =
    | CreateReply(created: Result<Created>)
    | RecordReply(record: Result<Option<Record>>)
    | TombstoneReply(tombstone: Result<Option<Tombstone>>)
    | ClaimReply(claim: Result<Option<PurgeClaim>>)
    | NoReply
  {
    predicate Refused() {
      match this
      case CreateReply(r) => r.Err?
      case RecordReply(r) => r.Err?
      case TombstoneReply(r) => r.Err?
      case ClaimReply(r) => r.Err?
      case NoReply => false
    }
  }

  /** The one key whose record, generation, tombstone and claim a call may change. */
  function Touched(c: Call): Key {
    match c
    case CreateCall(q, _, _) => q.Target()
    case ReleaseCall(claim) => claim.key
    case FinalizeCall(claim, _) => claim.key
    case _ => c.k
  }

  function After(p: Policy, s: Store, c: Call): Store {
    match c
    case CreateCall(q, now, expiryNow) => Create(p, s, q, now, expiryNow).store
    case GetCall(k, now) => Get(p, s, k, now).store
    case GetAnyCall(k, now) => GetAnyStatus(p, s, k, now).store
    case GetTombstoneCall(k, now) => GetTombstone(p, s, k, now).store
    case RetireCall(k, at, why, now) => MarkRetired(p, s, k, at, why, now).store
    case PurgeCall(k, at, now) => MarkPurged(p, s, k, at, now).store
    case BeginCall(k, at, now) => BeginPurge(p, s, k, at, now).store
    case ReleaseCall(claim) => Release(s, claim)
    case FinalizeCall(claim, now) => Finalize(p, s, claim, now).store
  }

  function Answer(p: Policy, s: Store, c: Call): Reply {
    match c
    case CreateCall(q, now, expiryNow) => CreateReply(Create(p, s, q, now, expiryNow).reply)
    case GetCall(k, now) => RecordReply(Get(p, s, k, now).reply)
    case GetAnyCall(k, now) => RecordReply(GetAnyStatus(p, s, k, now).reply)
    case GetTombstoneCall(k, now) => TombstoneReply(GetTombstone(p, s, k, now).reply)
    case RetireCall(k, at, why, now) => RecordReply(MarkRetired(p, s, k, at, why, now).reply)
    case PurgeCall(k, at, now) => RecordReply(MarkPurged(p, s, k, at, now).reply)
    case BeginCall(k, at, now) => ClaimReply(BeginPurge(p, s, k, at, now).reply)
    case ReleaseCall(claim) => NoReply
    case FinalizeCall(claim, now) => RecordReply(Finalize(p, s, claim, now).reply)
  }

  datatype Change =
    | Keep
    | Rebind(q: CreateRequest, r: Record)
    | Insertion(q: CreateRequest)
    | Retirement(k: Key, at: int, why: Reason)
    | Deletion(k: Key, at: int)
    | Grant(k: Key, at: int)
    | Withdrawal(c: PurgeClaim)
    | Finalization(c: PurgeClaim)

  /** What the store must look like when an elementary change happens. */
  predicate Enabled(s: Store, e: Change) {
    match e
    case Keep => true
    case Rebind(q, r) => q.key.Some? && s.HasStatus(r.Id(), Received) && s.records[r.Id()] == r && r.tenant == q.tenant
    case Insertion(q) => q.Matches() && q.Target() !in s.records && Slot(q.tenant, q.fingerprint) !in s.active
    case Retirement(k, at, why) => s.HasStatus(k, Received) && s.records[k].AsRetired(at, why).Consistent()
    case Deletion(k, at) => s.HasStatus(k, Retired) && k !in s.claims && s.records[k].AsDeleted(at).Consistent()
    case Grant(k, at) =>
      s.HasStatus(k, Retired) && k !in s.claims && s.records[k].AsDeleted(at).Consistent() && k in s.generations
    case Withdrawal(c) => s.Holds(c)
    case Finalization(c) => s.Holds(c) && ClaimPins(s, c.key)
  }

  function Do(s: Store, e: Change): Store
    requires Enabled(s, e)
  {
    match e
    case Keep => s
    case Rebind(q, r) => Bind(s, q, r)
    case Insertion(q) => Insert(s, q)
    case Retirement(k, at, why) => Retire(s, k, s.records[k].AsRetired(at, why))
    case Deletion(k, at) =>
      var r := s.records[k].AsDeleted(at);
      Delete(s, k, r, TombstoneOf(r))
    case Grant(k, at) =>
      var r := s.records[k].AsDeleted(at);
      s.(nextClaimId := s.nextClaimId + 1,
         claims := s.claims[k := ActiveClaim(s.generations[k], s.nextClaimId + 1, r, TombstoneOf(r))])
    case Withdrawal(c) => s.(claims := s.claims - {c.key})
    case Finalization(c) =>
      Delete(s, c.key, s.claims[c.key].purged, s.claims[c.key].tombstone).(claims := s.claims - {c.key})
  }

  /** The store once the call has expired the tombstone it is about, where the call does so. */
  function Before(p: Policy, s: Store, c: Call): Store {
    match c
    case CreateCall(q, now, expiryNow) =>
      if q.Matches() && Bound(p, s, q, now).None? && Slot(q.tenant, q.fingerprint) !in s.active
      then Expire(p, s, q.Target(), expiryNow)
      else s
    case ReleaseCall(_) => s
    case FinalizeCall(claim, now) => Expire(p, s, claim.key, now)
    case _ => Expire(p, s, c.k, c.now)
  }

  function ChangeOf(p: Policy, s: Store, c: Call): Change {
    var b := Before(p, s, c);
    match c
    case CreateCall(q, now, _) =>
      var slot := Slot(q.tenant, q.fingerprint);
      if !q.Matches() || Bound(p, s, q, now).Some? then Keep
      else if slot in s.active then
        var k := Key(q.tenant, s.active[slot]);
        if k in s.records && q.key.Some? then Rebind(q, s.records[k]) else Keep
      else if q.Target() in b.records then Keep
      else Insertion(q)
    case RetireCall(k, at, why, _) =>
      if b.HasStatus(k, Received) && b.records[k].AsRetired(at, why).Consistent() then Retirement(k, at, why) else Keep
    case PurgeCall(k, at, _) =>
      if b.HasStatus(k, Retired) && k !in b.claims && b.records[k].AsDeleted(at).Consistent() then Deletion(k, at) else Keep
    case BeginCall(k, at, _) =>
      if b.HasStatus(k, Retired) && k !in b.claims && b.records[k].AsDeleted(at).Consistent() then Grant(k, at) else Keep
    case ReleaseCall(claim) => if s.Holds(claim) then Withdrawal(claim) else Keep
    case FinalizeCall(claim, _) => if b.Holds(claim) then Finalization(claim) else Keep
    case _ => Keep
  }

  lemma CreateNormalForm(p: Policy, s: Store, q: CreateRequest, now: int, expiryNow: int)
    requires Valid(s)
    ensures var c := CreateCall(q, now, expiryNow);
            Enabled(Before(p, s, c), ChangeOf(p, s, c)) && After(p, s, c) == Do(Before(p, s, c), ChangeOf(p, s, c))
  {
    var slot := Slot(q.tenant, q.fingerprint);
    if q.Matches() && Bound(p, s, q, now).None? && slot in s.active {
      assert SlotValid(s, slot);
      assert KeyValid(s, Key(q.tenant, s.active[slot]));
    }
  }

  lemma RetireNormalForm(p: Policy, s: Store, k: Key, at: int, why: Reason, now: int)
    requires Valid(s)
    ensures var c := RetireCall(k, at, why, now);
            Enabled(Before(p, s, c), ChangeOf(p, s, c)) && After(p, s, c) == Do(Before(p, s, c), ChangeOf(p, s, c))
  {
    assert KeyValid(s, k);
  }

  lemma PurgeNormalForm(p: Policy, s: Store, k: Key, at: int, now: int)
    requires Valid(s)
    ensures var c := PurgeCall(k, at, now);
            Enabled(Before(p, s, c), ChangeOf(p, s, c)) && After(p, s, c) == Do(Before(p, s, c), ChangeOf(p, s, c))
  {
    assert KeyValid(s, k);
  }

  lemma BeginNormalForm(p: Policy, s: Store, k: Key, at: int, now: int)
    requires Valid(s)
    ensures var c := BeginCall(k, at, now);
            Enabled(Before(p, s, c), ChangeOf(p, s, c)) && After(p, s, c) == Do(Before(p, s, c), ChangeOf(p, s, c))
  {
    assert KeyValid(s, k);
  }

  lemma FinalizeNormalForm(p: Policy, s: Store, claim: PurgeClaim, now: int)
    requires Valid(s)
    ensures var c := FinalizeCall(claim, now);
            Enabled(Before(p, s, c), ChangeOf(p, s, c)) && After(p, s, c) == Do(Before(p, s, c), ChangeOf(p, s, c))
  {
    assert KeyValid(s, claim.key);
  }

  lemma NormalForm(p: Policy, s: Store, c: Call)
    requires Valid(s)
    ensures Enabled(Before(p, s, c), ChangeOf(p, s, c))
    ensures After(p, s, c) == Do(Before(p, s, c), ChangeOf(p, s, c))
  {
    match c
    case CreateCall(q, now, expiryNow) => CreateNormalForm(p, s, q, now, expiryNow);
    case RetireCall(k, at, why, now) => RetireNormalForm(p, s, k, at, why, now);
    case PurgeCall(k, at, now) => PurgeNormalForm(p, s, k, at, now);
    case BeginCall(k, at, now) => BeginNormalForm(p, s, k, at, now);
    case FinalizeCall(claim, now) => FinalizeNormalForm(p, s, claim, now);
    case GetCall(_, _) =>
    case GetAnyCall(_, _) =>
    case GetTombstoneCall(_, _) =>
    case ReleaseCall(_) =>
  }

  lemma ExpireKeepsValid(p: Policy, s: Store, k: Key, now: int)
    requires Valid(s)
    ensures Valid(Expire(p, s, k, now))
  {
    var s1 := Expire(p, s, k, now);
    assert KeyValid(s, k);
    forall j ensures KeyValid(s1, j) { assert KeyValid(s, j); }
    forall slot ensures SlotValid(s1, slot) { assert SlotValid(s, slot); }
  }

  lemma BeforeKeepsValid(p: Policy, s: Store, c: Call)
    requires Valid(s)
    ensures Valid(Before(p, s, c))
  {
    if Before(p, s, c) != s {
      var now := if c.CreateCall? then c.expiryNow else c.now;
      ExpireKeepsValid(p, s, Touched(c), now);
    }
  }

  /** The key under which an elementary change happens. */
  function Place(e: Change): Key
    requires !e.Keep?
  {
    match e
    case Rebind(q, r) => r.Id()
    case Insertion(q) => q.Target()
    case Withdrawal(c) => c.key
    case Retirement(k, _, _) => k
    case Deletion(k, _) => k
    case Grant(k, _) => k
    case Finalization(c) => c.key
  }

  lemma InsertionKeepsKey(s: Store, e: Change, j: Key)
    requires Enabled(s, e) && e.Insertion? && s.nextGeneration >= 0 && KeyValid(s, j) && KeyValid(s, Place(e))
    ensures KeyValid(Do(s, e), j)
  {
  }

  lemma InsertionKeepsSlot(s: Store, e: Change, slot: Slot)
    requires Enabled(s, e) && e.Insertion? && SlotValid(s, slot)
    ensures SlotValid(Do(s, e), slot)
  {
  }

  lemma InsertionKeepsValid(s: Store, e: Change)
    requires Valid(s) && Enabled(s, e) && e.Insertion?
    ensures Valid(Do(s, e))
  {
    var t := Do(s, e);
    forall j ensures KeyValid(t, j) { InsertionKeepsKey(s, e, j); }
    forall slot ensures SlotValid(t, slot) { InsertionKeepsSlot(s, e, slot); }
  }

  lemma RetirementKeepsValid(s: Store, e: Change)
    requires Valid(s) && Enabled(s, e) && e.Retirement?
    ensures Valid(Do(s, e))
  {
    var t := Do(s, e);
    assert KeyValid(s, Place(e));
    forall j ensures KeyValid(t, j) { assert KeyValid(s, j); }
    forall slot ensures SlotValid(t, slot) { assert SlotValid(s, slot); }
  }

  lemma DeletionKeepsValid(s: Store, e: Change)
    requires Valid(s) && Enabled(s, e) && (e.Deletion? || e.Finalization?)
    ensures Valid(Do(s, e))
  {
    var t := Do(s, e);
    assert KeyValid(s, Place(e));
    forall j ensures KeyValid(t, j) { assert KeyValid(s, j); }
    forall slot ensures SlotValid(t, slot) { assert SlotValid(s, slot); }
  }

  lemma OtherChangeKeepsValid(s: Store, e: Change)
    requires Valid(s) && Enabled(s, e) && (e.Grant? || e.Withdrawal? || e.Rebind?)
    ensures Valid(Do(s, e))
  {
    var t := Do(s, e);
    assert KeyValid(s, Place(e));
    forall j ensures KeyValid(t, j) { assert KeyValid(s, j); }
    forall slot ensures SlotValid(t, slot) { assert SlotValid(s, slot); }
  }

  lemma DoKeepsValid(s: Store, e: Change)
    requires Valid(s) && Enabled(s, e)
    ensures Valid(Do(s, e))
  {
    match e
    case Keep =>
    case Insertion(_) => InsertionKeepsValid(s, e);
    case Rebind(_, _) => OtherChangeKeepsValid(s, e);
    case Retirement(_, _, _) => RetirementKeepsValid(s, e);
    case Deletion(_, _) => DeletionKeepsValid(s, e);
    case Finalization(_) => DeletionKeepsValid(s, e);
    case Grant(_, _) => OtherChangeKeepsValid(s, e);
    case Withdrawal(_) => OtherChangeKeepsValid(s, e);
  }

  /** Every call keeps the seven pieces of state in agreement. */
  lemma AfterKeepsValid(p: Policy, s: Store, c: Call)
    requires Valid(s)
    ensures Valid(After(p, s, c))
  {
    NormalForm(p, s, c);
    BeforeKeepsValid(p, s, c);
    DoKeepsValid(Before(p, s, c), ChangeOf(p, s, c));
  }
}
