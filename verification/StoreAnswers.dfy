/**
 What a caller is answered and what the records are afterwards, call by call, on the fields of the
 stored records: which records a reader still finds, and every field of every record that is written.
 */
module StoreAnswers {
  import opened Wrappers
  import opened Models
  import opened StoreSpec
  import opened StoreChanges
  import R = StoreRuns

  /** A reader still finds k: only a deleted record whose retention has run out is gone. */
  predicate Present(p: Policy, s: Store, k: Key, now: int) {
    k in s.records && (s.records[k].status.Deleted? ==> s.records[k].deletedAt.Some? && now <= s.records[k].deletedAt.value + p.tombstoneRetention)
  }

  /** The records once those calls have run that find k gone. */
  function Kept(p: Policy, s: Store, k: Key, now: int): map<Key, Record> {
    if Present(p, s, k, now) then s.records else s.records - {k}
  }

  /** Nothing but a record that has run out and its tombstone may be gone. */
  predicate OnlyExpires(p: Policy, s: Store, t: Store, k: Key, now: int) {
    && t.records == Kept(p, s, k, now)
    && t.tombstones == (if Present(p, s, k, now) then s.tombstones else s.tombstones - {k})
    && t == s.(records := t.records, tombstones := t.tombstones)
  }

  lemma ExpireIsAbsence(p: Policy, s: Store, k: Key, now: int)
    requires Valid(s)
    ensures OnlyExpires(p, s, Expire(p, s, k, now), k, now)
    ensures k in Expire(p, s, k, now).records <==> Present(p, s, k, now)
  {
    assert KeyValid(s, k);
    if k !in s.records {
      assert s.records - {k} == s.records && s.tombstones - {k} == s.tombstones;
    }
  }

  /** What every stored record looks like in every reachable store, field by field, and the tombstone beside a deleted one. */
  lemma StoredRecordsAreComplete(p: Policy, calls: seq<Call>, k: Key)
    requires k in R.Run(p, EMPTY, calls).records
    ensures var s := R.Run(p, EMPTY, calls);
      var r := s.records[k];
      && r.tenant == k.tenant != "" && r.ingestion == k.ingestion != "" && r.fingerprint != ""
      && match r.status
         case Received => r.reason.None? && r.retiredAt.None? && r.deletedAt.None? && k !in s.tombstones
         case Retired => r.reason.Some? && r.retiredAt.Some? && r.deletedAt.None? && r.receivedAt <= r.retiredAt.value && k !in s.tombstones
         case Deleted =>
           && r.reason.Some? && r.retiredAt.Some? && r.deletedAt.Some?
           && r.receivedAt <= r.retiredAt.value <= r.deletedAt.value
           && k in s.tombstones && s.tombstones[k] == Tombstone(k, r.reason.value, r.retiredAt.value, r.deletedAt.value)
  {
    R.ReachableIsValid(p, calls);
    assert KeyValid(R.Run(p, EMPTY, calls), k);
  }

  /** The three reads: the record while received, the record in any status, the tombstone of a deleted one. */
  lemma ReadAnswers(p: Policy, s: Store, k: Key, now: int)
    requires Valid(s)
    ensures Answer(p, s, GetCall(k, now)) == RecordReply(Ok(if s.HasStatus(k, Received) then Some(s.records[k]) else None))
    ensures Answer(p, s, GetAnyCall(k, now)) == RecordReply(Ok(if Present(p, s, k, now) then Some(s.records[k]) else None))
    ensures if Present(p, s, k, now) && s.records[k].status.Deleted?
            then var r := s.records[k];
                 && r.reason.Some? && r.retiredAt.Some?
                 && Answer(p, s, GetTombstoneCall(k, now))
                    == TombstoneReply(Ok(Some(Tombstone(k, r.reason.value, r.retiredAt.value, r.deletedAt.value))))
            else Answer(p, s, GetTombstoneCall(k, now)) == TombstoneReply(Ok(None))
    ensures forall c <- {GetCall(k, now), GetAnyCall(k, now), GetTombstoneCall(k, now)} :: OnlyExpires(p, s, After(p, s, c), k, now)
  {
    assert KeyValid(s, k);
    ExpireIsAbsence(p, s, k, now);
  }

  /**
   mark_retired writes reason and time into a received record, changes nothing about one already retired
   or deleted, and refuses a time before the receipt.
   */
  lemma RetireAnswers(p: Policy, s: Store, k: Key, at: int, why: Reason, now: int)
    requires Valid(s)
    ensures var c := RetireCall(k, at, why, now);
      var a, t := Answer(p, s, c), After(p, s, c);
      if !Present(p, s, k, now) then a == RecordReply(Ok(None)) && OnlyExpires(p, s, t, k, now)
      else
        var r := s.records[k];
        if !r.status.Received? then a == RecordReply(Ok(Some(r))) && t == s
        else if at < r.receivedAt then a == RecordReply(Err(InvalidCandidate)) && t == s
        else
          var r' := Record(k.tenant, k.ingestion, r.fingerprint, r.receivedAt, Retired, Some(why), Some(at), None);
          a == RecordReply(Ok(Some(r'))) && t == s.(records := s.records[k := r'], active := s.active - {Slot(k.tenant, r.fingerprint)})
  {
    assert KeyValid(s, k);
    ExpireIsAbsence(p, s, k, now);
  }

  /** What a purge at the given time makes of a retired record. */
  function Purged(k: Key, r: Record, at: int): Record {
    Record(k.tenant, k.ingestion, r.fingerprint, r.receivedAt, Deleted, r.reason, r.retiredAt, Some(at))
  }

  /** t is s with the retired record under k deleted at the given time, and its tombstone left behind. */
  predicate PurgedAt(s: Store, t: Store, k: Key, at: int) {
    k in s.records &&
    var r := s.records[k];
    && r.reason.Some? && r.retiredAt.Some?
    && t == s.(records := s.records[k := Purged(k, r, at)],
               tombstones := s.tombstones[k := Tombstone(k, r.reason.value, r.retiredAt.value, at)])
  }

  /**
   mark_purged deletes a retired record nobody has claimed, answers a deleted one as it is, and refuses a
   received one, a claimed one, and a time before the retirement.
   */
  lemma PurgeAnswers(p: Policy, s: Store, k: Key, at: int, now: int)
    requires Valid(s)
    ensures var c := PurgeCall(k, at, now);
      var a, t := Answer(p, s, c), After(p, s, c);
      if !Present(p, s, k, now) then a == RecordReply(Ok(None)) && OnlyExpires(p, s, t, k, now)
      else
        var r := s.records[k];
        match r.status
        case Received => a == RecordReply(Err(NotRetired)) && t == s
        case Deleted => a == RecordReply(Ok(Some(r))) && t == s
        case Retired =>
          && r.retiredAt.Some?
          && if k in s.claims then a == RecordReply(Err(ClaimActive)) && t == s
             else if at < r.retiredAt.value then a == RecordReply(Err(InvalidCandidate)) && t == s
             else a == RecordReply(Ok(Some(Purged(k, r, at)))) && PurgedAt(s, t, k, at)
  {
    assert KeyValid(s, k);
    ExpireIsAbsence(p, s, k, now);
  }

  /**
   begin_purge grants a claim, with an id never used before, over a retired record nobody has claimed. It
   answers nothing for an absent, deleted or claimed one and refuses a received one and a time before the
   retirement. Records and tombstones stay as they are.
   */
  lemma BeginAnswers(p: Policy, s: Store, k: Key, at: int, now: int)
    requires Valid(s)
    ensures var c := BeginCall(k, at, now);
      var a, t := Answer(p, s, c), After(p, s, c);
      if !Present(p, s, k, now) then a == ClaimReply(Ok(None)) && OnlyExpires(p, s, t, k, now)
      else
        var r := s.records[k];
        match r.status
        case Received => a == ClaimReply(Err(NotRetired)) && t == s
        case Deleted => a == ClaimReply(Ok(None)) && t == s
        case Retired =>
          && r.retiredAt.Some? && k in s.generations
          && if k in s.claims then a == ClaimReply(Ok(None)) && t == s
             else if at < r.retiredAt.value then a == ClaimReply(Err(InvalidCandidate)) && t == s
             else
               var claim := PurgeClaim(k, s.generations[k], s.nextClaimId + 1);
               && a == ClaimReply(Ok(Some(claim)))
               && t == s.(claims := t.claims, nextClaimId := s.nextClaimId + 1)
               && t.claims.Keys == s.claims.Keys + {k} && t.Holds(claim) && t.claims[k].tombstone.deletedAt == at
               && forall j <- s.claims :: t.claims[j] == s.claims[j]
  {
    assert KeyValid(s, k);
    ExpireIsAbsence(p, s, k, now);
  }

  /**
   finalize_purge, with the claim the key is held by, deletes the record at the time the claim was asked
   for; with any other claim it answers nothing.
   */
  lemma FinalizeAnswers(p: Policy, s: Store, claim: PurgeClaim, now: int)
    requires Valid(s)
    ensures var k, c := claim.key, FinalizeCall(claim, now);
      var a, t := Answer(p, s, c), After(p, s, c);
      if k in s.claims && s.claims[k].generation == claim.generation && s.claims[k].claimId == claim.claimId
      then
        && s.HasStatus(k, Retired)
        && var at := s.claims[k].tombstone.deletedAt;
           && a == RecordReply(Ok(Some(Purged(k, s.records[k], at))))
           && PurgedAt(s.(claims := s.claims - {k}), t, k, at)
      else a == RecordReply(Ok(None)) && OnlyExpires(p, s, t, k, now)
  {
    assert KeyValid(s, claim.key);
    ExpireIsAbsence(p, s, claim.key, now);
  }

  /** release_purge_claim gives back the claim the key is held by, and does nothing with any other. */
  lemma ReleaseAnswers(p: Policy, s: Store, claim: PurgeClaim)
    ensures Answer(p, s, ReleaseCall(claim)) == NoReply
    ensures var k := claim.key;
      After(p, s, ReleaseCall(claim)) ==
        if k in s.claims && s.claims[k].generation == claim.generation && s.claims[k].claimId == claim.claimId
        then s.(claims := s.claims - {k}) else s
  {
  }

  // ---- create_or_get_received ----

  /** Some received record of the tenant has this fingerprint. */
  predicate Known(s: Store, tenant: string, fingerprint: string, k: Key) {
    k.tenant == tenant && s.HasStatus(k, Received) && s.records[k].fingerprint == fingerprint
  }

  /** What a create answers, unless it answers that the idempotency key is in conflict. */
  ghost predicate AnsweredByContent(p: Policy, s: Store, q: CreateRequest, expiryNow: int, r: Result<Created>, records: map<Key, Record>) {
    && (forall k :: Known(s, q.tenant, q.fingerprint, k) ==> r == Ok(Created(s.records[k], false)) && records == s.records)
    && ((forall k :: !Known(s, q.tenant, q.fingerprint, k)) ==>
          if Present(p, s, Key(q.tenant, q.ingestion), expiryNow)
          then r == Err(IngestionIdConflict) && records == s.records
          else r == Ok(Created(q.record, true)) && records == s.records[Key(q.tenant, q.ingestion) := q.record])
  }

  /** The received record with this content is the one the index names. */
  lemma KnownIsIndexed(s: Store, tenant: string, fingerprint: string)
    requires Valid(s)
    ensures var slot := Slot(tenant, fingerprint);
            && (slot in s.active ==> Known(s, tenant, fingerprint, Key(tenant, s.active[slot])))
            && (forall k :: Known(s, tenant, fingerprint, k) ==> slot in s.active && k == Key(tenant, s.active[slot]))
  {
    assert SlotValid(s, Slot(tenant, fingerprint));
    forall k | Known(s, tenant, fingerprint, k)
      ensures Slot(tenant, fingerprint) in s.active && k == Key(tenant, s.active[Slot(tenant, fingerprint)])
    {
      assert KeyValid(s, k);
    }
  }

  /**
   Unless its idempotency key is in conflict, a create is answered the received record of its tenant with
   its content if there is one; otherwise its own candidate, now stored, if its id is free; otherwise that
   the id is taken. What a key does to the answer is said by KeyReplay.
   */
  lemma CreateAnswers(p: Policy, s: Store, q: CreateRequest, now: int, expiryNow: int)
    requires Valid(s) && q.Matches()
    ensures var c := CreateCall(q, now, expiryNow);
      var a := Answer(p, s, c);
      && a.CreateReply?
      && (a.created != Err(IdempotencyKeyConflict) ==> AnsweredByContent(p, s, q, expiryNow, a.created, After(p, s, c).records))
      && (a.created == Err(IdempotencyKeyConflict) ==> q.key.Some? && After(p, s, c) == s)
  {
    KnownIsIndexed(s, q.tenant, q.fingerprint);
    ExpireIsAbsence(p, s, q.Target(), expiryNow);
    var bound := Bound(p, s, q, now);
    if bound.Some? && bound.value.fingerprint == q.fingerprint {
      assert Known(s, q.tenant, q.fingerprint, Key(q.tenant, s.bindings[q.BindingHandle()].ingestion));
    }
  }

  /** A create that is answered a record is answered a received record of its own tenant and content, stored under its id. */
  lemma CreateAnswersOwnContent(p: Policy, s: Store, q: CreateRequest, now: int, expiryNow: int)
    requires Valid(s) && q.Matches()
    ensures var c := CreateCall(q, now, expiryNow);
      var a := Answer(p, s, c);
      a.created.Ok? ==>
        var r := a.created.value.record;
        && r.tenant == q.tenant && r.fingerprint == q.fingerprint && r.status.Received?
        && r.Id() in After(p, s, c).records && After(p, s, c).records[r.Id()] == r
        && (a.created.value.created <==> Key(q.tenant, q.ingestion) == r.Id() && !Known(s, q.tenant, q.fingerprint, r.Id()))
  {
    CreateAnswers(p, s, q, now, expiryNow);
    var a := Answer(p, s, CreateCall(q, now, expiryNow));
    if k :| Known(s, q.tenant, q.fingerprint, k) { assert KeyValid(s, k); }
  }
}
