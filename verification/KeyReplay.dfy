/**
 What an idempotency key does to the answer of a create. It is read off the history of answers, not off
 the bindings the store keeps: a key stands for the record it was last given out for.
 */
module KeyReplay {
  import opened Wrappers
  import opened Models
  import opened StoreSpec
  import opened StoreChanges
  import opened StoreRuns
  import opened StoreAnswers
  import opened Bindings

  predicate IsUnder(c: Call, h: Handle) {
    c.CreateCall? && c.q.key.Some? && c.q.tenant == h.tenant && c.q.key.value == h.idempotencyKey
  }

  /** The record a create under the key is answered, if it is answered one. */
  function Given(p: Policy, s: Store, c: Call, h: Handle): Option<Record> {
    var a := Answer(p, s, c);
    if IsUnder(c, h) && a.CreateReply? && a.created.Ok? then Some(a.created.value.record) else None
  }

  /** The key stands for record b, something received is stored under b's id, and b's window is not over. */
  predicate Honoured(p: Policy, s: Store, b: Option<Record>, now: int) {
    b.Some? && s.HasStatus(b.value.Id(), Received) && now <= b.value.receivedAt + p.keyWindow
  }

  /** What the key stands for after these calls: the record last given out under it otherwise than by honouring it. */
  function StandsFor(p: Policy, calls: seq<Call>, h: Handle): Option<Record> {
    if calls == [] then None
    else
      var n := |calls| - 1;
      var s, b, c := Run(p, EMPTY, calls[..n]), StandsFor(p, calls[..n], h), calls[n];
      if Given(p, s, c, h).Some? && !Honoured(p, s, b, c.now) then Given(p, s, c, h) else b
  }

  lemma {:induction false} RunLast(p: Policy, s: Store, calls: seq<Call>)
    requires calls != []
    ensures Run(p, s, calls) == After(p, Run(p, s, calls[..|calls| - 1]), calls[|calls| - 1])
    decreases |calls|
  {
    var n := |calls| - 1;
    if n == 0 {
      assert calls[..0] == [] && calls[1..] == [];
    } else {
      RunLast(p, After(p, s, calls[0]), calls[1..]);
      assert calls[1..][..n - 1] == calls[..n][1..];
    }
  }

  /** The store's binding of the key is the record the key stands for. */
  predicate Recorded(s: Store, h: Handle, b: Option<Record>) {
    && (h in s.bindings <==> b.Some?)
    && (b.Some? ==> b.value.tenant == h.tenant && s.bindings[h] == Binding(b.value.ingestion, b.value.receivedAt))
  }

  /** Only a create under the key touches its binding. */
  lemma OthersKeepBinding(p: Policy, s: Store, c: Call, h: Handle)
    requires Valid(s) && !IsUnder(c, h)
    ensures h in After(p, s, c).bindings <==> h in s.bindings
    ensures h in s.bindings ==> After(p, s, c).bindings[h] == s.bindings[h]
  {
    NormalForm(p, s, c);
    ExpireEffect(p, s, c, Touched(c));
    DoKeepsBinding(Before(p, s, c), ChangeOf(p, s, c), h);
  }

  lemma DoKeepsBinding(s: Store, e: Change, h: Handle)
    requires Enabled(s, e) && (e.Rebind? || e.Insertion? ==> e.q.key.Some? ==> e.q.BindingHandle() != h)
    ensures h in Do(s, e).bindings <==> h in s.bindings
    ensures h in s.bindings ==> Do(s, e).bindings[h] == s.bindings[h]
  {
  }

  lemma CreateRecords(p: Policy, s: Store, q: CreateRequest, now: int, expiryNow: int, h: Handle, b: Option<Record>)
    requires Valid(s) && Recorded(s, h, b) && q.key.Some? && h == q.BindingHandle()
    ensures var out := Create(p, s, q, now, expiryNow);
            Recorded(out.store, h, if out.reply.Ok? && !Honoured(p, s, b, now) then Some(out.reply.value.record) else b)
  {
    var slot := Slot(q.tenant, q.fingerprint);
    if slot in s.active {
      assert SlotValid(s, slot);
      assert KeyValid(s, Key(q.tenant, s.active[slot]));
    }
  }

  lemma RecordedStep(p: Policy, s: Store, c: Call, h: Handle, b: Option<Record>)
    requires Valid(s) && Recorded(s, h, b)
    ensures Recorded(After(p, s, c), h, if Given(p, s, c, h).Some? && !Honoured(p, s, b, c.now) then Given(p, s, c, h) else b)
  {
    if IsUnder(c, h) {
      CreateRecords(p, s, c.q, c.now, c.expiryNow, h, b);
    } else {
      OthersKeepBinding(p, s, c, h);
    }
  }

  lemma {:induction false} RunRecords(p: Policy, calls: seq<Call>, h: Handle)
    ensures Recorded(Run(p, EMPTY, calls), h, StandsFor(p, calls, h))
  {
    if calls != [] {
      var n := |calls| - 1;
      RunRecords(p, calls[..n], h);
      RunLast(p, EMPTY, calls);
      ReachableIsValid(p, calls[..n]);
      RecordedStep(p, Run(p, EMPTY, calls[..n]), calls[n], h, StandsFor(p, calls[..n], h));
    }
  }

  /**
   After any calls, at any clock readings, under any policy: a create under a key that is honoured is answered
   what is received under the id the key stands for, or the conflict if that has other content, and changes
   nothing; no other create is answered the conflict.
   */
  lemma KeyAnswers(p: Policy, calls: seq<Call>, q: CreateRequest, now: int, expiryNow: int)
    requires q.Matches()
    ensures var s := Run(p, EMPTY, calls);
      var c := CreateCall(q, now, expiryNow);
      var b := if q.key.Some? then StandsFor(p, calls, Handle(q.tenant, q.key.value)) else None;
      if Honoured(p, s, b, now) then
        var r := s.records[b.value.Id()];
        && Answer(p, s, c) == CreateReply(if r.fingerprint == q.fingerprint then Ok(Created(r, false)) else Err(IdempotencyKeyConflict))
        && After(p, s, c) == s
      else Answer(p, s, c) != CreateReply(Err(IdempotencyKeyConflict))
  {
    ReachableIsValid(p, calls);
    if q.key.Some? { RunRecords(p, calls, Handle(q.tenant, q.key.value)); }
  }

  // ---- On a clock that never goes back, with tombstones kept at least as long as keys ----

  /** The record last given out under the key. */
  function LastGiven(p: Policy, calls: seq<Call>, h: Handle): Option<Record> {
    if calls == [] then None
    else
      var n := |calls| - 1;
      var given := Given(p, Run(p, EMPTY, calls[..n]), calls[n], h);
      if given.Some? then given else LastGiven(p, calls[..n], h)
  }

  /** What is stored under b's id is b or a later form of it, or b's window is over for good. */
  predicate StillOwn(p: Policy, s: Store, b: Record, clock: int) {
    || (b.Id() in s.records && Descends(b, s.records[b.Id()]))
    || b.receivedAt + p.keyWindow < clock
  }

  lemma StillOwnStep(p: Policy, s: Store, c: Call, b: Record, clock: int)
    requires Valid(s) && StillOwn(p, s, b, clock)
    requires p.keyWindow <= p.tombstoneRetention && NotBefore(clock, Readings(c))
    ensures StillOwn(p, After(p, s, c), b, Last(clock, Readings(c)))
  {
    var k := b.Id();
    assert clock <= Last(clock, Readings(c)) by {
      if c.CreateCall? { assert Readings(c)[1..] == [c.expiryNow]; }
    }
    if k in s.records && Descends(b, s.records[k]) {
      assert KeyValid(s, k);
      LifecycleStep(p, s, c, k, s.generations[k]);
      ExpireEffect(p, s, c, k);
      if k !in Before(p, s, c).records {
        var t := s.tombstones[k];
        assert b.receivedAt <= t.retiredAt <= t.deletedAt;
        assert t.deletedAt + p.tombstoneRetention < Last(clock, Readings(c));
      }
    }
  }

  /** A received record that descends from a received record is that record. */
  lemma OwnIsSame(s: Store, b: Record)
    requires Valid(s) && b.Consistent() && b.status.Received? && s.HasStatus(b.Id(), Received) && Descends(b, s.records[b.Id()])
    ensures s.records[b.Id()] == b
  {
    assert KeyValid(s, b.Id());
  }

  /** What the history so far says about the key, at this moment of a forward clock. */
  predicate Traced(p: Policy, calls: seq<Call>, h: Handle, clock: int) {
    var s, b := Run(p, EMPTY, calls), LastGiven(p, calls, h);
    && StandsFor(p, calls, h) == b
    && (b.Some? ==> b.value.Consistent() && b.value.status.Received? && b.value.tenant == h.tenant && StillOwn(p, s, b.value, clock))
  }

  lemma HonouredIsOwn(p: Policy, s: Store, b: Record, clock: int, now: int)
    requires Valid(s) && b.Consistent() && b.status.Received? && StillOwn(p, s, b, clock) && clock <= now
    ensures Honoured(p, s, Some(b), now) <==> b.Id() in s.records && s.records[b.Id()] == b && now <= b.receivedAt + p.keyWindow
  {
    if Honoured(p, s, Some(b), now) { OwnIsSame(s, b); }
  }

  lemma TracedStep(p: Policy, calls: seq<Call>, h: Handle, clock: int)
    requires calls != [] && p.keyWindow <= p.tombstoneRetention
    requires NotBefore(clock, Readings(calls[|calls| - 1])) && Traced(p, calls[..|calls| - 1], h, clock)
    ensures Traced(p, calls, h, Last(clock, Readings(calls[|calls| - 1])))
  {
    var n := |calls| - 1;
    var before, c := calls[..n], calls[n];
    var s, b := Run(p, EMPTY, before), LastGiven(p, before, h);
    RunLast(p, EMPTY, calls);
    ReachableIsValid(p, before);
    if b.Some? { StillOwnStep(p, s, c, b.value, clock); }
    if Given(p, s, c, h).Some? {
      assert c.q.Matches();
      CreateAnswersOwnContent(p, s, c.q, c.now, c.expiryNow);
      var r := Given(p, s, c, h).value;
      AfterKeepsValid(p, s, c);
      assert KeyValid(After(p, s, c), r.Id());
      if Honoured(p, s, b, c.now) {
        HonouredIsOwn(p, s, b.value, clock, c.now);
        KeyAnswers(p, before, c.q, c.now, c.expiryNow);
      }
    }
  }

  lemma {:induction false} NotBeforeSplits(clock: int, calls: seq<Call>)
    requires calls != [] && Monotone(clock, calls)
    ensures Monotone(clock, calls[..|calls| - 1])
    ensures NotBefore(Reading(clock, calls[..|calls| - 1]), Readings(calls[|calls| - 1]))
    decreases |calls|
  {
    var n := |calls| - 1;
    if n > 0 {
      NotBeforeSplits(Last(clock, Readings(calls[0])), calls[1..]);
      assert calls[1..][..n - 1] == calls[..n][1..];
    }
  }

  /** The last reading of a run. */
  function Reading(clock: int, calls: seq<Call>): int
    decreases |calls|
  {
    if calls == [] then clock else Reading(Last(clock, Readings(calls[0])), calls[1..])
  }

  lemma {:induction false} ReadingLast(clock: int, calls: seq<Call>)
    requires calls != []
    ensures Reading(clock, calls) == Last(Reading(clock, calls[..|calls| - 1]), Readings(calls[|calls| - 1]))
    decreases |calls|
  {
    var n := |calls| - 1;
    if n > 0 {
      ReadingLast(Last(clock, Readings(calls[0])), calls[1..]);
      assert calls[1..][..n - 1] == calls[..n][1..];
    }
  }

  lemma {:induction false} RunIsTraced(p: Policy, clock: int, calls: seq<Call>, h: Handle)
    requires p.keyWindow <= p.tombstoneRetention && Monotone(clock, calls)
    ensures Traced(p, calls, h, Reading(clock, calls))
  {
    if calls != [] {
      var n := |calls| - 1;
      NotBeforeSplits(clock, calls);
      ReadingLast(clock, calls);
      RunIsTraced(p, clock, calls[..n], h);
      TracedStep(p, calls, h, Reading(clock, calls[..n]));
    }
  }

  /**
   On a clock that never goes back, with tombstones kept at least as long as keys: a create under a key that
   was last answered record r, while r is still stored as it was and its window is not over, is answered r
   again if its content is r's and the conflict otherwise, and changes nothing. The conflict is answered in
   no other case.
   */
  lemma KeyReplaysExactly(p: Policy, clock: int, calls: seq<Call>, q: CreateRequest, now: int, expiryNow: int)
    requires p.keyWindow <= p.tombstoneRetention && Monotone(clock, calls + [CreateCall(q, now, expiryNow)]) && q.Matches()
    ensures var s := Run(p, EMPTY, calls);
      var c := CreateCall(q, now, expiryNow);
      var b := if q.key.Some? then LastGiven(p, calls, Handle(q.tenant, q.key.value)) else None;
      if b.Some? && b.value.Id() in s.records && s.records[b.value.Id()] == b.value && now <= b.value.receivedAt + p.keyWindow then
        && Answer(p, s, c) == CreateReply(if b.value.fingerprint == q.fingerprint then Ok(Created(b.value, false)) else Err(IdempotencyKeyConflict))
        && After(p, s, c) == s
      else Answer(p, s, c) != CreateReply(Err(IdempotencyKeyConflict))
  {
    var all := calls + [CreateCall(q, now, expiryNow)];
    assert all[..|calls|] == calls;
    NotBeforeSplits(clock, all);
    KeyAnswers(p, calls, q, now, expiryNow);
    ReachableIsValid(p, calls);
    if q.key.Some? {
      var h := Handle(q.tenant, q.key.value);
      RunIsTraced(p, clock, calls, h);
      var b := LastGiven(p, calls, h);
      if b.Some? { HonouredIsOwn(p, Run(p, EMPTY, calls), b.value, Reading(clock, calls), now); }
    }
  }
}
