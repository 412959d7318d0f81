/**
 The service's actions against the sequential code: a request, or a purge, that nobody interrupts comes to
 exactly what create_ingestion, or purge_retired_ingestion, run from beginning to end comes to.
 */
module ServiceAlone {
  import opened Wrappers
  import opened Models
  import opened StoreSpec
  import opened StorageKeys
  import opened StoreAnswers
  import opened MemoryStore
  import opened PostgresStore
  import opened Service
  import C = Coordinator
  import L = Lifecycle

  lemma {:induction false} ExecuteConcat(p: Policy, f: Faults, z: System, first: seq<Action>, second: seq<Action>)
    ensures Execute(p, f, z, first + second) == Execute(p, f, Execute(p, f, z, first), second)
    decreases |first|
  {
    if first == [] {
      assert first + second == second;
    } else {
      assert (first + second)[1..] == first[1..] + second;
      ExecuteConcat(p, f, if Possible(f, z, first[0]) then Next(p, f, z, first[0]) else z, first[1..], second);
    }
  }

  function Turn(p: Policy, f: Faults, z: System, a: Action): System { if Possible(f, z, a) then Next(p, f, z, a) else z }

  lemma ThreeTurns(p: Policy, f: Faults, z: System, a: Action, b: Action, c: Action)
    ensures Execute(p, f, z, [a, b, c]) == Turn(p, f, Turn(p, f, Turn(p, f, z, a), b), c)
  {
    assert [a, b, c][1..] == [b, c] && [b, c][1..] == [c] && [c][1..] == [];
    var y := Turn(p, f, z, a);
    assert Execute(p, f, z, [a, b, c]) == Execute(p, f, y, [b, c]);
    var x := Turn(p, f, y, b);
    assert Execute(p, f, y, [b, c]) == Execute(p, f, x, [c]);
    assert Execute(p, f, x, [c]) == Execute(p, f, Turn(p, f, x, c), []);
  }

  // ---- A request ----

  /** One round of the loop: reserve, commit or fail to, and undo the reservation if it is still there. */
  function Round(d: C.Report, i: nat, a: C.Round): seq<Action> {
    [Put(i, a.ingestion), if C.HasCandidate(d, a) then Commit(i, a.clock.value, a.now, a.expiryNow) else CandidateFails(i), Undo(i)]
  }

  /** The request waits in the loop, about to make its n-th attempt, over these stores. */
  predicate Waits(z: System, s: Store, blobs: map<string, Bytes>, d: C.Report, i: nat, n: nat) {
    && z.store == s && z.blobs == blobs
    && i in z.creators && z.creators[i] == Creator(d.tenant, d.fingerprint, d.bytes, d.key, Choosing(n))
  }

  /** put_if_absent on a free storage key. */
  lemma PutReserves(p: Policy, z: System, s: Store, blobs: map<string, Bytes>, d: C.Report, i: nat, n: nat, ingestion: string)
    requires n < MAX_ATTEMPTS && Waits(z, s, blobs, d, i, n)
    requires ValidKey(Key(d.tenant, ingestion)) && StorageKey(Key(d.tenant, ingestion)) !in blobs
    ensures Reserves(Turn(p, NO_FAULTS, z, Put(i, ingestion)), s, blobs, d, i, n, Key(d.tenant, ingestion))
  {
  }

  /** The request has reserved the storage key of k in its n-th attempt. */
  predicate Reserves(z: System, s: Store, blobs: map<string, Bytes>, d: C.Report, i: nat, n: nat, k: Key) {
    && StorageKey(k) !in blobs && k.tenant == d.tenant
    && z.store == s && z.blobs == blobs[StorageKey(k) := d.bytes]
    && i in z.creators && z.creators[i] == Creator(d.tenant, d.fingerprint, d.bytes, d.key, Reserved(k, n))
  }

  /** The request is about to undo that reservation, and to go on with another attempt or to end. */
  predicate Undoes(z: System, s: Store, blobs: map<string, Bytes>, d: C.Report, i: nat, k: Key, resume: Option<nat>) {
    && StorageKey(k) !in blobs
    && z.store == s && z.blobs == blobs[StorageKey(k) := d.bytes]
    && i in z.creators && z.creators[i] == Creator(d.tenant, d.fingerprint, d.bytes, d.key, Undoing(k, resume))
  }

  lemma UndoRestores(p: Policy, z: System, s: Store, blobs: map<string, Bytes>, d: C.Report, i: nat, k: Key, resume: Option<nat>)
    requires Undoes(z, s, blobs, d, i, k, resume)
    ensures var t := Turn(p, NO_FAULTS, z, Undo(i));
            if resume.Some? then Waits(t, s, blobs, d, i, resume.value) else i !in t.creators && t.store == s && t.blobs == blobs
  {
    assert blobs[StorageKey(k) := d.bytes] - {StorageKey(k)} == blobs;
  }

  /** What the loop does with the commit's answer. */
  lemma CommitMoves(p: Policy, z: System, s: Store, blobs: map<string, Bytes>, d: C.Report, i: nat, n: nat, a: C.Round)
    requires Valid(s) && Reserves(z, s, blobs, d, i, n, Key(d.tenant, a.ingestion)) && C.HasCandidate(d, a) && C.Committable(d, a)
    ensures var t := Turn(p, NO_FAULTS, z, Commit(i, a.clock.value, a.now, a.expiryNow));
      var out, k := C.CommitOf(p, s, d, a), Key(d.tenant, a.ingestion);
      if out.reply.Ok? && out.reply.value.created then i !in t.creators && t.store == out.store && t.blobs == blobs[StorageKey(k) := d.bytes]
      else Undoes(t, out.store, blobs, d, i, k, if out.reply == Err(IngestionIdConflict) then Some(n + 1) else None)
  {
    C.CommitExplained(p, s, d, a);
    assert RequestOf(z.creators[i], a.clock.value) == d.Request(a.ingestion, a.clock.value);
  }

  /** A reserved storage key costs the request an attempt and nothing else. */
  lemma RoundCollides(p: Policy, z: System, s: Store, blobs: map<string, Bytes>, d: C.Report, i: nat, n: nat, a: C.Round)
    requires n < MAX_ATTEMPTS && Waits(z, s, blobs, d, i, n)
    requires ValidKey(Key(d.tenant, a.ingestion)) && StorageKey(Key(d.tenant, a.ingestion)) in blobs
    ensures Waits(Execute(p, NO_FAULTS, z, Round(d, i, a)), s, blobs, d, i, n + 1)
  {
    var r := Round(d, i, a);
    ThreeTurns(p, NO_FAULTS, z, r[0], r[1], r[2]);
    var z1 := Turn(p, NO_FAULTS, z, r[0]);
    assert Waits(z1, s, blobs, d, i, n + 1);
    assert Turn(p, NO_FAULTS, z1, r[1]) == z1 && Turn(p, NO_FAULTS, z1, r[2]) == z1;
  }

  /** A taken id costs it an attempt as well: the reservation made for it is undone. */
  lemma RoundTaken(p: Policy, z: System, s: Store, blobs: map<string, Bytes>, d: C.Report, i: nat, n: nat, a: C.Round)
    requires Valid(s) && n < MAX_ATTEMPTS && Waits(z, s, blobs, d, i, n) && C.Committable(d, a) && C.HasCandidate(d, a)
    requires StorageKey(Key(d.tenant, a.ingestion)) !in blobs
    requires C.CommitOf(p, s, d, a).reply == Err(IngestionIdConflict) && C.CommitOf(p, s, d, a).store == s
    ensures Waits(Execute(p, NO_FAULTS, z, Round(d, i, a)), s, blobs, d, i, n + 1)
  {
    var r, k := Round(d, i, a), Key(d.tenant, a.ingestion);
    ThreeTurns(p, NO_FAULTS, z, r[0], r[1], r[2]);
    var z1 := Turn(p, NO_FAULTS, z, r[0]);
    PutReserves(p, z, s, blobs, d, i, n, a.ingestion);
    CommitMoves(p, z1, s, blobs, d, i, n, a);
    UndoRestores(p, Turn(p, NO_FAULTS, z1, r[1]), s, blobs, d, i, k, Some(n + 1));
  }

  lemma RoundRetried(p: Policy, z: System, s: Store, blobs: map<string, Bytes>, d: C.Report, i: nat, n: nat, a: C.Round)
    requires Valid(s) && n < MAX_ATTEMPTS && Waits(z, s, blobs, d, i, n) && C.Retried(p, s, blobs, d, a)
    ensures Waits(Execute(p, NO_FAULTS, z, Round(d, i, a)), s, blobs, d, i, n + 1)
  {
    var k := Key(d.tenant, a.ingestion);
    if StorageKey(k) in blobs {
      RoundCollides(p, z, s, blobs, d, i, n, a);
    } else {
      C.CommitExplained(p, s, d, a);
      RoundTaken(p, z, s, blobs, d, i, n, a);
    }
  }

  /** How the stores are once the request has ended with this outcome in this round. */
  predicate Ended(p: Policy, z: System, s: Store, blobs: map<string, Bytes>, d: C.Report, i: nat, a: C.Round, outcome: C.Outcome) {
    && i !in z.creators
    && (outcome.Made? || outcome.Found? ==> C.HasCandidate(d, a) && z.store == C.CommitOf(p, s, d, a).store)
    && (!outcome.Made? && !outcome.Found? ==> z.store == s)
    && z.blobs == if outcome.Made? then blobs[StorageKey(outcome.record.Id()) := d.bytes] else blobs
  }

  lemma RoundFails(p: Policy, z: System, s: Store, blobs: map<string, Bytes>, d: C.Report, i: nat, n: nat, a: C.Round)
    requires n < MAX_ATTEMPTS && Waits(z, s, blobs, d, i, n)
    requires !ValidKey(Key(d.tenant, a.ingestion)) || (StorageKey(Key(d.tenant, a.ingestion)) !in blobs && !C.Committable(d, a))
    ensures var t := Execute(p, NO_FAULTS, z, Round(d, i, a)); i !in t.creators && t.store == s && t.blobs == blobs
  {
    var r, k := Round(d, i, a), Key(d.tenant, a.ingestion);
    ThreeTurns(p, NO_FAULTS, z, r[0], r[1], r[2]);
    if ValidKey(k) {
      PutReserves(p, z, s, blobs, d, i, n, a.ingestion);
      UndoRestores(p, Turn(p, NO_FAULTS, Turn(p, NO_FAULTS, z, r[0]), r[1]), s, blobs, d, i, k, None);
    }
  }

  lemma RoundCommits(p: Policy, z: System, s: Store, blobs: map<string, Bytes>, d: C.Report, i: nat, n: nat, a: C.Round)
    requires Valid(s) && n < MAX_ATTEMPTS && Waits(z, s, blobs, d, i, n) && C.Committable(d, a)
    requires StorageKey(Key(d.tenant, a.ingestion)) !in blobs
    requires C.HasCandidate(d, a) && C.CommitOf(p, s, d, a).reply != Err(IngestionIdConflict)
    ensures var t, out := Execute(p, NO_FAULTS, z, Round(d, i, a)), C.CommitOf(p, s, d, a);
            && i !in t.creators && t.store == out.store
            && t.blobs == if out.reply.Ok? && out.reply.value.created then blobs[StorageKey(Key(d.tenant, a.ingestion)) := d.bytes] else blobs
  {
    var r, k, out := Round(d, i, a), Key(d.tenant, a.ingestion), C.CommitOf(p, s, d, a);
    ThreeTurns(p, NO_FAULTS, z, r[0], r[1], r[2]);
    var z1 := Turn(p, NO_FAULTS, z, r[0]);
    PutReserves(p, z, s, blobs, d, i, n, a.ingestion);
    CommitMoves(p, z1, s, blobs, d, i, n, a);
    if !(out.reply.Ok? && out.reply.value.created) {
      UndoRestores(p, Turn(p, NO_FAULTS, z1, r[1]), out.store, blobs, d, i, k, None);
    }
  }

  lemma RoundDecides(p: Policy, z: System, s: Store, blobs: map<string, Bytes>, d: C.Report, i: nat, n: nat, a: C.Round, outcome: C.Outcome)
    requires Valid(s) && n < MAX_ATTEMPTS && Waits(z, s, blobs, d, i, n)
    requires !C.Retried(p, s, blobs, d, a) && C.Explained(p, s, d, a, outcome)
    ensures Ended(p, Execute(p, NO_FAULTS, z, Round(d, i, a)), s, blobs, d, i, a, outcome)
  {
    if outcome.InvalidIdentifier? || outcome.NoCandidate? {
      RoundFails(p, z, s, blobs, d, i, n, a);
    } else {
      C.CommitExplained(p, s, d, a);
      RoundCommits(p, z, s, blobs, d, i, n, a);
    }
  }

  /** The whole request: rounds that come after its end do nothing, and a sixth attempt is not made, whatever the id. */
  function Request(d: C.Report, i: nat, rounds: seq<C.Round>, sixth: string): seq<Action> {
    if rounds == [] then [Put(i, sixth)] else Round(d, i, rounds[0]) + Request(d, i, rounds[1..], sixth)
  }

  lemma {:induction false} EndedStays(p: Policy, z: System, d: C.Report, i: nat, rounds: seq<C.Round>, sixth: string)
    requires i !in z.creators
    ensures Execute(p, NO_FAULTS, z, Request(d, i, rounds, sixth)) == z
    decreases |rounds|
  {
    if rounds == [] {
      assert [Put(i, sixth)][1..] == [];
    } else {
      var r := Round(d, i, rounds[0]);
      ExecuteConcat(p, NO_FAULTS, z, r, Request(d, i, rounds[1..], sixth));
      ThreeTurns(p, NO_FAULTS, z, r[0], r[1], r[2]);
      EndedStays(p, z, d, i, rounds[1..], sixth);
    }
  }

  /** From the n-th attempt on: retried until the round that decides, or until no attempt is left. */
  lemma {:induction false} RequestEnds(p: Policy, z: System, s: Store, blobs: map<string, Bytes>, d: C.Report, i: nat, n: nat,
                                       rounds: seq<C.Round>, sixth: string, retries: nat, outcome: C.Outcome)
    requires Valid(s) && Waits(z, s, blobs, d, i, n) && n + |rounds| == MAX_ATTEMPTS && retries <= |rounds|
    requires forall m :: 0 <= m < retries ==> C.Retried(p, s, blobs, d, rounds[m])
    requires retries < |rounds| ==> !C.Retried(p, s, blobs, d, rounds[retries]) && C.Explained(p, s, d, rounds[retries], outcome)
    ensures var t := Execute(p, NO_FAULTS, z, Request(d, i, rounds, sixth));
            if retries < |rounds| then Ended(p, t, s, blobs, d, i, rounds[retries], outcome)
            else i !in t.creators && t.store == s && t.blobs == blobs
    decreases |rounds|
  {
    if rounds == [] {
      assert [Put(i, sixth)][1..] == [];
    } else {
      var r := Round(d, i, rounds[0]);
      var y := Execute(p, NO_FAULTS, z, r);
      ExecuteConcat(p, NO_FAULTS, z, r, Request(d, i, rounds[1..], sixth));
      if retries == 0 {
        RoundDecides(p, z, s, blobs, d, i, n, rounds[0], outcome);
        EndedStays(p, y, d, i, rounds[1..], sixth);
      } else {
        RoundRetried(p, z, s, blobs, d, i, n, rounds[0]);
        assert forall m :: 0 <= m < retries - 1 ==> rounds[1..][m] == rounds[m + 1];
        RequestEnds(p, y, s, blobs, d, i, n + 1, rounds[1..], sixth, retries - 1, outcome);
      }
    }
  }

  /** create_ingestion and the service's actions, one after another, leave the same two stores. */
  method CreateAlone(store: InMemoryMetadataStore, blobStore: InMemoryReportBlobStore, d: C.Report, rounds: seq<C.Round>,
                     ghost z: System, ghost i: nat, ghost sixth: string)
    returns (outcome: C.Outcome)
    requires store.Valid() && |rounds| == MAX_ATTEMPTS
    requires z.store == store.View() && z.blobs == blobStore.blobs && i !in z.creators
    modifies store, blobStore
    ensures store.Valid()
    ensures var t := Execute(store.policy, NO_FAULTS, z, [Arrive(i, d.tenant, d.fingerprint, d.bytes, d.key)] + Request(d, i, rounds, sixth));
            i !in t.creators && t.store == store.View() && t.blobs == blobStore.blobs
  {
    ghost var s, blobs, arrive := store.View(), blobStore.blobs, Arrive(i, d.tenant, d.fingerprint, d.bytes, d.key);
    ghost var y := Next(store.policy, NO_FAULTS, z, arrive);
    assert ([arrive] + Request(d, i, rounds, sixth))[1..] == Request(d, i, rounds, sixth);
    var tried;
    outcome, tried := C.CreateIngestion(store, blobStore, d, rounds);
    RequestEnds(store.policy, y, s, blobs, d, i, 0, rounds, sixth, tried, outcome);
  }

  // ---- A purge ----

  /** finalize_purge may raise here without having committed; a blob delete that raises takes no effect. */
  const FINALIZE_MAY_FAIL := Faults(true, false)

  lemma {:induction false} Unfold(p: Policy, f: Faults, z: System, actions: seq<Action>)
    requires actions != []
    ensures Execute(p, f, z, actions) == Execute(p, f, Turn(p, f, z, actions[0]), actions[1..])
  {
  }

  /** The rest of a purge whose claim was granted. */
  function Rest(j: nat, k: Key, now: int, deleteRaises: bool, finalizeRaises: bool): seq<Action> {
    if !ValidKey(k) then [PurgerCrash(j)]
    else if deleteRaises then [EraseRaises(j), GiveUp(j)]
    else if finalizeRaises then [Erase(j), FinishRaises(j), GiveUp(j)]
    else [Erase(j), Finish(j, now)]
  }

  lemma OneTurn(p: Policy, f: Faults, z: System, a: Action)
    ensures Execute(p, f, z, [a]) == Turn(p, f, z, a)
  {
    assert [a][1..] == [];
    assert Execute(p, f, z, [a]) == Execute(p, f, Turn(p, f, z, a), []);
  }

  lemma TwoTurns(p: Policy, f: Faults, z: System, a: Action, b: Action)
    ensures Execute(p, f, z, [a, b]) == Turn(p, f, Turn(p, f, z, a), b)
  {
    assert [a, b][1..] == [b];
    assert Execute(p, f, z, [a, b]) == Execute(p, f, Turn(p, f, z, a), [b]);
    OneTurn(p, f, Turn(p, f, z, a), b);
  }

  predicate Standing(z: System, t: Store, blobs: map<string, Bytes>, j: nat, u: Purger) {
    z.store == t && z.blobs == blobs && j in z.purgers && z.purgers[j] == u
  }

  /** The purger is gone and has left these stores. */
  predicate Gone(z: System, t: Store, blobs: map<string, Bytes>, j: nat) { j !in z.purgers && z.store == t && z.blobs == blobs }

  lemma EraseTurn(p: Policy, z: System, t: Store, blobs: map<string, Bytes>, j: nat, c: PurgeClaim)
    requires Standing(z, t, blobs, j, Claimed(c))
    ensures Standing(Turn(p, FINALIZE_MAY_FAIL, z, Erase(j)), t, blobs - {StorageKey(c.key)}, j, Erased(c))
  {
  }

  lemma RaiseTurn(p: Policy, z: System, t: Store, blobs: map<string, Bytes>, j: nat, c: PurgeClaim)
    ensures Standing(z, t, blobs, j, Claimed(c)) ==> Standing(Turn(p, FINALIZE_MAY_FAIL, z, EraseRaises(j)), t, blobs, j, Failing(c))
    ensures Standing(z, t, blobs, j, Erased(c)) ==> Standing(Turn(p, FINALIZE_MAY_FAIL, z, FinishRaises(j)), t, blobs, j, Failing(c))
  {
  }

  lemma LastTurn(p: Policy, z: System, t: Store, blobs: map<string, Bytes>, j: nat, u: Purger, now: int)
    requires Standing(z, t, blobs, j, u)
    ensures Gone(Turn(p, FINALIZE_MAY_FAIL, z, PurgerCrash(j)), t, blobs, j)
    ensures u.Failing? ==> Gone(Turn(p, FINALIZE_MAY_FAIL, z, GiveUp(j)), Release(t, u.claim), blobs, j)
    ensures u.Erased? ==> Gone(Turn(p, FINALIZE_MAY_FAIL, z, Finish(j, now)), Finalize(p, t, u.claim, now).store, blobs, j)
  {
  }

  lemma RestEnds(p: Policy, z: System, t: Store, blobs: map<string, Bytes>, j: nat, c: PurgeClaim, now: int, deleteRaises: bool, finalizeRaises: bool)
    requires Standing(z, t, blobs, j, Claimed(c))
    ensures Gone(Execute(p, FINALIZE_MAY_FAIL, z, Rest(j, c.key, now, deleteRaises, finalizeRaises)),
                 if !ValidKey(c.key) then t else if deleteRaises || finalizeRaises then Release(t, c) else Finalize(p, t, c, now).store,
                 if !ValidKey(c.key) || deleteRaises then blobs else blobs - {StorageKey(c.key)}, j)
  {
    var f := FINALIZE_MAY_FAIL;
    if !ValidKey(c.key) {
      OneTurn(p, f, z, PurgerCrash(j));
      LastTurn(p, z, t, blobs, j, Claimed(c), now);
    } else if deleteRaises {
      TwoTurns(p, f, z, EraseRaises(j), GiveUp(j));
      RaiseTurn(p, z, t, blobs, j, c);
      LastTurn(p, Turn(p, f, z, EraseRaises(j)), t, blobs, j, Failing(c), now);
    } else {
      var left, y := blobs - {StorageKey(c.key)}, Turn(p, f, z, Erase(j));
      EraseTurn(p, z, t, blobs, j, c);
      if finalizeRaises {
        ThreeTurns(p, f, z, Erase(j), FinishRaises(j), GiveUp(j));
        RaiseTurn(p, y, t, left, j, c);
        LastTurn(p, Turn(p, f, y, FinishRaises(j)), t, left, j, Failing(c), now);
      } else {
        TwoTurns(p, f, z, Erase(j), Finish(j, now));
        LastTurn(p, y, t, left, j, Erased(c), now);
      }
    }
  }

  lemma {:induction false} NothingGranted(p: Policy, z: System, j: nat, k: Key, now: int, deleteRaises: bool, finalizeRaises: bool)
    requires j !in z.purgers
    ensures Execute(p, FINALIZE_MAY_FAIL, z, Rest(j, k, now, deleteRaises, finalizeRaises)) == z
  {
    IdleStays(p, FINALIZE_MAY_FAIL, z, Rest(j, k, now, deleteRaises, finalizeRaises));
  }

  lemma {:induction false} IdleStays(p: Policy, f: Faults, z: System, actions: seq<Action>)
    requires forall a <- actions :: !Possible(f, z, a)
    ensures Execute(p, f, z, actions) == z
    decreases |actions|
  {
    if actions != [] {
      assert actions[0] in actions;
      IdleStays(p, f, z, actions[1..]);
    }
  }

  /** Where a purge of k leaves two stores that held s and blobs. */
  predicate PurgeLeaves(p: Policy, s: Store, blobs: map<string, Bytes>, t: Store, left: map<string, Bytes>,
                        k: Key, at: int, now: int, deleteRaises: bool, finalizeRaises: bool) {
    var begun := BeginPurge(p, s, k, at, now);
    if begun.reply.Err? || begun.reply.value.None? || !ValidKey(k) then t == begun.store && left == blobs
    else if deleteRaises then L.Untouched(s, t) && left == blobs
    else if finalizeRaises then L.Untouched(s, t) && left == blobs - {StorageKey(k)}
    else PurgedAt(s.(nextClaimId := s.nextClaimId + 1), t, k, at) && left == blobs - {StorageKey(k)}
  }

  lemma GrantedLeaves(p: Policy, s: Store, blobs: map<string, Bytes>, t: Store, left: map<string, Bytes>,
                      k: Key, at: int, now: int, deleteRaises: bool, finalizeRaises: bool)
    requires Valid(s)
    requires var r := BeginPurge(p, s, k, at, now).reply; r.Ok? && r.value.Some?
    requires var b := BeginPurge(p, s, k, at, now);
      var c := b.reply.value.value;
      && t == (if !ValidKey(k) then b.store else if deleteRaises || finalizeRaises then Release(b.store, c) else Finalize(p, b.store, c, now).store)
      && left == if !ValidKey(k) || deleteRaises then blobs else blobs - {StorageKey(k)}
    ensures PurgeLeaves(p, s, blobs, t, left, k, at, now, deleteRaises, finalizeRaises)
  {
    L.GrantedEndings(p, s, k, at, now);
  }

  lemma BeginTurn(p: Policy, z: System, j: nat, k: Key, at: int, now: int)
    requires Valid(z.store) && j !in z.purgers
    ensures var y, begun := Turn(p, FINALIZE_MAY_FAIL, z, Begin(j, k, at, now)), BeginPurge(p, z.store, k, at, now);
            if begun.reply.Ok? && begun.reply.value.Some?
            then begun.reply.value.value.key == k && Standing(y, begun.store, z.blobs, j, Claimed(begun.reply.value.value))
            else Gone(y, begun.store, z.blobs, j)
  {
  }

  /** What the actions of a purge, one after another, leave in the two stores. */
  lemma PurgeTurns(p: Policy, z: System, j: nat, k: Key, at: int, now: int, deleteRaises: bool, finalizeRaises: bool)
    requires Valid(z.store) && j !in z.purgers
    ensures var t := Execute(p, FINALIZE_MAY_FAIL, z, [Begin(j, k, at, now)] + Rest(j, k, now, deleteRaises, finalizeRaises));
            j !in t.purgers && PurgeLeaves(p, z.store, z.blobs, t.store, t.blobs, k, at, now, deleteRaises, finalizeRaises)
  {
    var begin, rest := Begin(j, k, at, now), Rest(j, k, now, deleteRaises, finalizeRaises);
    var y, begun := Turn(p, FINALIZE_MAY_FAIL, z, begin), BeginPurge(p, z.store, k, at, now);
    assert ([begin] + rest)[1..] == rest;
    Unfold(p, FINALIZE_MAY_FAIL, z, [begin] + rest);
    BeginTurn(p, z, j, k, at, now);
    if begun.reply.Ok? && begun.reply.value.Some? {
      var c := begun.reply.value.value;
      RestEnds(p, y, begun.store, z.blobs, j, c, now, deleteRaises, finalizeRaises);
      var t := Execute(p, FINALIZE_MAY_FAIL, y, rest);
      GrantedLeaves(p, z.store, z.blobs, t.store, t.blobs, k, at, now, deleteRaises, finalizeRaises);
    } else {
      NothingGranted(p, y, j, k, now, deleteRaises, finalizeRaises);
    }
  }

  /** There is one way only to leave them so. */
  lemma LeavesOnce(p: Policy, s: Store, blobs: map<string, Bytes>, t: Store, left: map<string, Bytes>, t': Store, left': map<string, Bytes>,
                   k: Key, at: int, now: int, deleteRaises: bool, finalizeRaises: bool)
    requires PurgeLeaves(p, s, blobs, t, left, k, at, now, deleteRaises, finalizeRaises)
    requires PurgeLeaves(p, s, blobs, t', left', k, at, now, deleteRaises, finalizeRaises)
    ensures t == t' && left == left'
  {
  }

  /** purge_retired_ingestion and the service's actions, one after another, leave the same two stores. */
  method PurgeAlone(store: PostgresMetadataStore, blobStore: InMemoryReportBlobStore, k: Key, at: int, now: int,
                    deleteRaises: bool, finalizeRaises: bool, ghost z: System, ghost j: nat)
    returns (outcome: L.PurgeOutcome)
    requires store.Valid() && store != (blobStore as object)
    requires z.store == store.model && z.blobs == blobStore.blobs && j !in z.purgers
    modifies store, blobStore
    ensures store.Valid()
    ensures var t := Execute(store.policy, FINALIZE_MAY_FAIL, z, [Begin(j, k, at, now)] + Rest(j, k, now, deleteRaises, finalizeRaises));
            j !in t.purgers && t.store == store.model && t.blobs == blobStore.blobs
  {
    PurgeTurns(store.policy, z, j, k, at, now, deleteRaises, finalizeRaises);
    outcome := L.PurgeRetiredIngestion(store, blobStore, k, at, now, deleteRaises, finalizeRaises);
    ghost var t := Execute(store.policy, FINALIZE_MAY_FAIL, z, [Begin(j, k, at, now)] + Rest(j, k, now, deleteRaises, finalizeRaises));
    LeavesOnce(store.policy, z.store, z.blobs, t.store, t.blobs, store.model, blobStore.blobs, k, at, now, deleteRaises, finalizeRaises);
  }
}
