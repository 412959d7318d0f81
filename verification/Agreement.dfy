/**
 The two metadata stores agree on every sequence of calls: same answers, and the tables always stand
 for the in-memory store's state. One refusal is worded by a table constraint instead of a validator.
 */
module Agreement {
  import opened Wrappers
  import opened Models
  import opened StoreSpec
  import opened StoreChanges
  import R = StoreRuns
  import opened MemoryStore
  import opened PostgresStore

  /** What the tables answer where the in-memory store answers r. */
  function Worded(c: Call, r: Reply): Reply {
    if c.RetireCall? && r.RecordReply? then RecordReply(AtTable(r.record)) else r
  }

  /** A transaction has one clock reading, so a create sees the same instant twice. */
  predicate OneReading(c: Call) { c.CreateCall? ==> c.now == c.expiryNow }

  function Answers(p: Policy, s: Store, calls: seq<Call>): seq<Reply>
    decreases |calls|
  {
    if calls == [] then [] else [Answer(p, s, calls[0])] + Answers(p, After(p, s, calls[0]), calls[1..])
  }

  /** The wording differs exactly when a received record is to be retired before it was received. */
  lemma WordedDiffersExactly(p: Policy, s: Store, c: Call)
    requires Valid(s)
    ensures Worded(c, Answer(p, s, c)) != Answer(p, s, c)
       <==> c.RetireCall? && s.HasStatus(c.k, Received) && c.at < s.records[c.k].receivedAt
  {
    if c.RetireCall? {
      assert KeyValid(s, c.k);
      assert MarkRetired(p, s, c.k, c.at, c.why, c.now).reply != Err(ConstraintViolation);
    }
  }

  const EARLY := Record("t", "a", "f", 5, Received, None, None, None)

  /** Create a record received at 5, then retire it at 4. */
  const EARLY_RETIREMENT := [
    CreateCall(CreateRequest("t", "f", "a", EARLY, None), 5, 5),
    RetireCall(Key("t", "a"), 4, CustomerRequested, 5)
  ]

  /** The run on which the wording differs: a validator speaks in memory, a CHECK constraint in the tables. */
  lemma EarlyRetirementWorded(p: Policy)
    ensures Answers(p, EMPTY, EARLY_RETIREMENT) == [CreateReply(Ok(Created(EARLY, true))), RecordReply(Err(InvalidCandidate))]
    ensures Worded(EARLY_RETIREMENT[1], Answers(p, EMPTY, EARLY_RETIREMENT)[1]) == RecordReply(Err(ConstraintViolation))
  {
    var c, d := EARLY_RETIREMENT[0], EARLY_RETIREMENT[1];
    var s := After(p, EMPTY, c);
    assert s.records == map[Key("t", "a") := EARLY] && s.tombstones == map[];
    assert Answer(p, EMPTY, c) == CreateReply(Ok(Created(EARLY, true)));
    assert Answer(p, s, d) == RecordReply(Err(InvalidCandidate));
    assert EARLY_RETIREMENT[1..] == [d] && [d][1..] == [];
    assert Answers(p, s, [d]) == [Answer(p, s, d)];
  }

  method PerformInMemory(m: InMemoryMetadataStore, c: Call) returns (r: Reply)
    requires m.Valid()
    modifies m
    ensures m.Valid() && m.View() == After(m.policy, old(m.View()), c) && r == Answer(m.policy, old(m.View()), c)
  {
    match c {
      case CreateCall(q, now, expiryNow) => var x := m.CreateOrGetReceived(q, now, expiryNow); return CreateReply(x);
      case GetCall(k, now) => var x := m.GetReceived(k, now); return RecordReply(Ok(x));
      case GetAnyCall(k, now) => var x := m.GetAny(k, now); return RecordReply(Ok(x));
      case GetTombstoneCall(k, now) => var x := m.TombstoneFor(k, now); return TombstoneReply(Ok(x));
      case RetireCall(k, at, why, now) => var x := m.Retire(k, at, why, now); return RecordReply(x);
      case PurgeCall(k, at, now) => var x := m.Purge(k, at, now); return RecordReply(x);
      case BeginCall(k, at, now) => var x := m.Begin(k, at, now); return ClaimReply(x);
      case ReleaseCall(claim) => m.ReleaseClaim(claim); return NoReply;
      case FinalizeCall(claim, now) => var x := m.FinalizeClaim(claim, now); return RecordReply(Ok(x));
    }
  }

  method PerformOnTables(t: PostgresMetadataStore, c: Call) returns (r: Reply)
    requires t.Valid() && OneReading(c)
    modifies t
    ensures t.Valid() && t.model == After(t.policy, old(t.model), c)
    ensures r == Worded(c, Answer(t.policy, old(t.model), c))
  {
    match c {
      case CreateCall(q, now, _) => var x := t.CreateOrGetReceived(q, now); return CreateReply(x);
      case GetCall(k, now) => var x := t.GetReceived(k, now); return RecordReply(Ok(x));
      case GetAnyCall(k, now) => var x := t.GetAny(k, now); return RecordReply(Ok(x));
      case GetTombstoneCall(k, now) => var x := t.TombstoneFor(k, now); return TombstoneReply(Ok(x));
      case RetireCall(k, at, why, now) => var x := t.Retire(k, at, why, now); return RecordReply(x);
      case PurgeCall(k, at, now) => var x := t.Purge(k, at, now); return RecordReply(x);
      case BeginCall(k, at, now) => var x := t.Begin(k, at, now); return ClaimReply(x);
      case ReleaseCall(claim) => t.ReleaseClaim(claim); return NoReply;
      case FinalizeCall(claim, now) => var x := t.FinalizeClaim(claim, now); return RecordReply(x);
    }
  }

  lemma {:induction false} AnswersSnoc(p: Policy, s: Store, calls: seq<Call>, c: Call, t: Store)
    requires t == R.Run(p, s, calls)
    ensures Answers(p, s, calls + [c]) == Answers(p, s, calls) + [Answer(p, t, c)]
    ensures R.Run(p, s, calls + [c]) == After(p, t, c)
    ensures |Answers(p, s, calls)| == |calls|
    decreases |calls|
  {
    if calls == [] {
      assert (calls + [c])[1..] == [];
    } else {
      AnswersSnoc(p, After(p, s, calls[0]), calls[1..], c, t);
      assert (calls + [c])[1..] == calls[1..] + [c];
    }
  }

  /** Any call sequence, run on a fresh store of each kind. */
  method RunBoth(p: Policy, calls: seq<Call>) returns (inMemory: seq<Reply>, onTables: seq<Reply>)
    requires p.keyWindow == IDEMPOTENCY_KEY_WINDOW
    requires forall c <- calls :: OneReading(c)
    ensures inMemory == Answers(p, EMPTY, calls)
    ensures |inMemory| == |onTables| == |calls|
    ensures forall i :: 0 <= i < |calls| ==> onTables[i] == Worded(calls[i], inMemory[i])
    ensures (forall i :: 0 <= i < |calls| ==> inMemory[i] != RecordReply(Err(InvalidCandidate)) || !calls[i].RetireCall?)
              ==> onTables == inMemory
  {
    var m := new InMemoryMetadataStore(p.tombstoneRetention);
    var t := new PostgresMetadataStore(p);
    inMemory, onTables := [], [];
    for i := 0 to |calls|
      invariant m.Valid() && t.Valid() && m.policy == t.policy == p
      invariant m.View() == t.model == R.Run(p, EMPTY, calls[..i])
      invariant |inMemory| == |onTables| == i
      invariant inMemory == Answers(p, EMPTY, calls[..i])
      invariant forall j :: 0 <= j < i ==> onTables[j] == Worded(calls[j], inMemory[j])
      invariant fresh(m) && fresh(t)
    {
      AnswersSnoc(p, EMPTY, calls[..i], calls[i], t.model);
      assert calls[..i + 1] == calls[..i] + [calls[i]];
      var a := PerformInMemory(m, calls[i]);
      var b := PerformOnTables(t, calls[i]);
      inMemory, onTables := inMemory + [a], onTables + [b];
    }
    assert calls[..|calls|] == calls;
  }
}
