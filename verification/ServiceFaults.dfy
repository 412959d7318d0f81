/**
 Cross-store safety holds exactly as long as no claim is released once its blob is gone. Either fault
 alone breaks it, under every retention policy: a claim released after its blob was deleted lets a
 second purger delete the bytes another request has meanwhile reserved under the same storage key.
 */
module ServiceFaults {
  import opened Wrappers
  import opened Models
  import opened StoreSpec
  import opened StoreChanges
  import opened StorageKeys
  import opened Service
  import opened ServiceSafety

  ghost predicate Reachable(p: Policy, f: Faults, z: System) {
    exists actions :: Execute(p, f, INITIAL, actions) == z
  }

  lemma {:induction false} ExecuteSnoc(p: Policy, f: Faults, z: System, actions: seq<Action>, a: Action)
    ensures var y := Execute(p, f, z, actions);
            Execute(p, f, z, actions + [a]) == if Possible(f, y, a) then Next(p, f, y, a) else y
    decreases |actions|
  {
    if actions == [] {
      assert (actions + [a])[1..] == [];
    } else {
      var z1 := if Possible(f, z, actions[0]) then Next(p, f, z, actions[0]) else z;
      ExecuteSnoc(p, f, z1, actions[1..], a);
      assert (actions + [a])[1..] == actions[1..] + [a];
    }
  }

  lemma Then(p: Policy, f: Faults, z: System, a: Action, z': System)
    requires Reachable(p, f, z) && Possible(f, z, a) && Next(p, f, z, a) == z'
    ensures Reachable(p, f, z')
  {
    var actions :| Execute(p, f, INITIAL, actions) == z;
    ExecuteSnoc(p, f, INITIAL, actions, a);
    assert Execute(p, f, INITIAL, actions + [a]) == z';
  }

  // ---- The metadata store in the course of the two runs ----

  const K := Key("t", "a")
  const PATH := StorageKey(K)
  const OLD := Record("t", "a", "f", 0, Received, None, None, None)
  const NEW := Record("t", "a", "g", 0, Received, None, None, None)
  const RETIRED := OLD.AsRetired(0, CustomerRequested)
  const GONE := RETIRED.AsDeleted(0)

  function Claim(n: int): PurgeClaim { PurgeClaim(K, 1, n) }

  function ReceivedStore(): Store {
    Store(map[K := OLD], map[], map[K := 1], 1, map[], 0, map[Slot("t", "f") := "a"], map[])
  }
  function RetiredStore(n: int): Store {
    Store(map[K := RETIRED], map[], map[K := 1], 1, map[], n, map[], map[])
  }
  function ClaimedStore(n: int): Store {
    Store(map[K := RETIRED], map[], map[K := 1], 1, map[K := ActiveClaim(1, n, GONE, TombstoneOf(GONE))], n, map[], map[])
  }
  function DeletedStore(n: int): Store {
    Store(map[K := GONE], map[K := TombstoneOf(GONE)], map[K := 1], 1, map[], n, map[], map[])
  }
  function ReusedStore(n: int): Store {
    Store(map[K := NEW], map[], map[K := 2], 2, map[], n, map[Slot("t", "g") := "a"], map[])
  }

  lemma CreateStep(p: Policy, x: int)
    ensures Create(p, EMPTY, CreateRequest("t", "f", "a", OLD, None), x, x) == Step(ReceivedStore(), Ok(Created(OLD, true)))
  {
  }

  lemma RetireStep(p: Policy, x: int)
    ensures After(p, ReceivedStore(), RetireCall(K, 0, CustomerRequested, x)) == RetiredStore(0)
  {
    assert map[Slot("t", "f") := "a"] - {Slot("t", "f")} == map[];
  }

  lemma BeginStep(p: Policy, n: int, x: int)
    ensures BeginPurge(p, RetiredStore(n), K, 0, x) == Step(ClaimedStore(n + 1), Ok(Some(Claim(n + 1))))
  {
  }

  lemma ReleaseStep(n: int)
    ensures Release(ClaimedStore(n), Claim(n)) == RetiredStore(n)
  {
    var m := map[K := ActiveClaim(1, n, GONE, TombstoneOf(GONE))];
    assert m - {K} == map[];
  }

  lemma FinalizeStep(p: Policy, n: int, x: int)
    ensures Finalize(p, ClaimedStore(n), Claim(n), x).store == DeletedStore(n)
  {
    var m := map[K := ActiveClaim(1, n, GONE, TombstoneOf(GONE))];
    assert m - {K} == map[];
  }

  lemma ReuseStep(p: Policy, n: int, x: int)
    requires x > p.tombstoneRetention
    ensures Create(p, DeletedStore(n), CreateRequest("t", "g", "a", NEW, None), x, x) == Step(ReusedStore(n), Ok(Created(NEW, true)))
  {
    assert map[K := TombstoneOf(GONE)] - {K} == map[] && map[K := GONE] - {K} == map[];
  }

  // ---- The service in the course of the two runs ----

  function Requester(fingerprint: string, bytes: Bytes, phase: Phase): Creator {
    Creator("t", fingerprint, bytes, None, phase)
  }

  function Shape(store: Store, blobs: map<string, Bytes>, creators: map<nat, Creator>, purgers: map<nat, Purger>,
                 lingering: set<string>, owner: map<Key, Owner>): System {
    System(store, blobs, creators, purgers, lingering, owner, map[1 := [1]])
  }

  lemma KeyIsValid()
    ensures ValidKey(K) && Derive(K.tenant, K.ingestion) == Some(PATH)
  {
    assert K.tenant[0] == 't' && K.ingestion[0] == 'a';
  }

  /** A request reserves the storage key while it is free. */
  lemma Reserves(p: Policy, f: Faults, z: System, i: nat, fingerprint: string, bytes: Bytes)
    requires Reachable(p, f, z) && z.blobs == map[] && z.owner == map[] && z.creators == map[]
    ensures Reachable(p, f, z.(blobs := map[PATH := bytes], owner := map[K := ByRequest(i)],
                               creators := map[i := Requester(fingerprint, bytes, Reserved(K, 0))]))
  {
    KeyIsValid();
    var z1 := z.(creators := map[i := Requester(fingerprint, bytes, Choosing(0))]);
    Then(p, f, z, Arrive(i, "t", fingerprint, bytes, None), z1);
    Then(p, f, z1, Put(i, "a"),
         z1.(blobs := map[PATH := bytes], owner := map[K := ByRequest(i)],
             creators := map[i := Requester(fingerprint, bytes, Reserved(K, 0))]));
  }

  /** Both runs begin alike: a report is received and retired, its blob in place. */
  lemma RetiredReachable(p: Policy, f: Faults, x: int)
    ensures Reachable(p, f, Shape(RetiredStore(0), map[PATH := [1]], map[], map[], {}, map[K := ByRecord(1)]))
  {
    assert Execute(p, f, INITIAL, []) == INITIAL;
    Reserves(p, f, INITIAL, 1, "f", [1]);
    var z2 := INITIAL.(blobs := map[PATH := [1]], owner := map[K := ByRequest(1)],
                       creators := map[1 := Requester("f", [1], Reserved(K, 0))]);
    CreateStep(p, x);
    assert z2.creators - {1} == map[];
    var z3 := Shape(ReceivedStore(), map[PATH := [1]], map[], map[], {}, map[K := ByRecord(1)]);
    Then(p, f, z2, Commit(1, 0, x, x), z3);
    RetireStep(p, x);
    Then(p, f, z3, StoreCall(RetireCall(K, 0, CustomerRequested, x)), z3.(store := RetiredStore(0)));
  }

  lemma ClaimStep(p: Policy, f: Faults, n: int, x: int, z: System)
    requires Reachable(p, f, z) && z.store == RetiredStore(n) && z.purgers == map[]
    ensures Reachable(p, f, z.(store := ClaimedStore(n + 1), purgers := map[1 := Claimed(Claim(n + 1))]))
  {
    BeginStep(p, n, x);
    Then(p, f, z, Begin(1, K, 0, x), z.(store := ClaimedStore(n + 1), purgers := map[1 := Claimed(Claim(n + 1))]));
  }

  /** A purger is granted claim n + 1 and deletes whatever the storage key holds. */
  lemma ClaimAndErase(p: Policy, f: Faults, n: int, x: int, z: System, bytes: Bytes, o: Owner)
    requires Reachable(p, f, z) && z.store == RetiredStore(n) && z.purgers == map[]
    requires z.blobs == map[PATH := bytes] && z.owner == map[K := o]
    ensures Reachable(p, f, z.(store := ClaimedStore(n + 1), blobs := map[], owner := map[],
                               purgers := map[1 := Erased(Claim(n + 1))]))
  {
    ClaimStep(p, f, n, x, z);
    var z1 := z.(store := ClaimedStore(n + 1), purgers := map[1 := Claimed(Claim(n + 1))]);
    assert z.blobs - {PATH} == map[] && z.owner - {K} == map[];
    Then(p, f, z1, Erase(1), z1.(blobs := map[], owner := map[], purgers := map[1 := Erased(Claim(n + 1))]));
  }

  lemma FinishStep(p: Policy, f: Faults, n: int, x: int, z: System)
    requires Reachable(p, f, z) && z.store == ClaimedStore(n) && z.purgers == map[1 := Erased(Claim(n))]
    ensures Reachable(p, f, z.(store := DeletedStore(n), purgers := map[]))
  {
    FinalizeStep(p, n, x);
    assert z.purgers - {1} == map[];
    Then(p, f, z, Finish(1, x), z.(store := DeletedStore(n), purgers := map[]));
  }

  lemma GiveUpStep(p: Policy, f: Faults, n: int, z: System)
    requires Reachable(p, f, z) && z.store == ClaimedStore(n) && z.purgers == map[1 := Failing(Claim(n))]
    ensures Reachable(p, f, z.(store := RetiredStore(n), purgers := map[]))
  {
    ReleaseStep(n);
    assert z.purgers - {1} == map[];
    Then(p, f, z, GiveUp(1), z.(store := RetiredStore(n), purgers := map[]));
  }

  /** The second request's commit, once the tombstone has expired. */
  lemma SecondCommits(p: Policy, f: Faults, n: int, x: int, z: System)
    requires x > p.tombstoneRetention
    requires Reachable(p, f, z) && z.store == DeletedStore(n) && 2 in z.creators
    requires z.creators[2] == Requester("g", [2], Reserved(K, 0))
    ensures Reachable(p, f, z.(store := ReusedStore(n), creators := z.creators - {2},
                               owner := z.owner[K := ByRecord(2)], origin := z.origin[2 := [2]]))
  {
    ReuseStep(p, n, x);
    Then(p, f, z, Commit(2, 0, x, x),
         z.(store := ReusedStore(n), creators := z.creators - {2}, owner := z.owner[K := ByRecord(2)], origin := z.origin[2 := [2]]));
  }

  function Second(): map<nat, Creator> { map[2 := Requester("g", [2], Reserved(K, 0))] }

  /** A finalize that raises releases a claim whose blob is gone, and the key can be reserved. */
  lemma ReleasedAfterErase(p: Policy, f: Faults, x: int)
    requires f.finalizeMayFail
    ensures Reachable(p, f, Shape(RetiredStore(1), map[], map[], map[], {}, map[]))
  {
    RetiredReachable(p, f, x);
    ClaimAndErase(p, f, 0, x, Shape(RetiredStore(0), map[PATH := [1]], map[], map[], {}, map[K := ByRecord(1)]), [1], ByRecord(1));
    var z1 := Shape(ClaimedStore(1), map[], map[], map[1 := Erased(Claim(1))], {}, map[]);
    Then(p, f, z1, FinishRaises(1), z1.(purgers := map[1 := Failing(Claim(1))]));
    GiveUpStep(p, f, 1, z1.(purgers := map[1 := Failing(Claim(1))]));
  }

  /** A finalize that raises without committing: the next purger deletes another request's reservation. */
  lemma FailedFinalizeBreaks(p: Policy, f: Faults)
    requires f.finalizeMayFail
    ensures exists z :: Reachable(p, f, z) && !Safe(z)
  {
    var x := p.tombstoneRetention + 1;
    ReleasedAfterErase(p, f, x);
    Reserves(p, f, Shape(RetiredStore(1), map[], map[], map[], {}, map[]), 2, "g", [2]);
    ClaimAndErase(p, f, 1, x, Shape(RetiredStore(1), map[PATH := [2]], Second(), map[], {}, map[K := ByRequest(2)]), [2], ByRequest(2));
    FinishStep(p, f, 2, x, Shape(ClaimedStore(2), map[], Second(), map[1 := Erased(Claim(2))], {}, map[]));
    var z := Shape(DeletedStore(2), map[], Second(), map[], {}, map[]);
    SecondCommits(p, f, 2, x, z);
    var bad := z.(store := ReusedStore(2), creators := Second() - {2}, owner := z.owner[K := ByRecord(2)], origin := z.origin[2 := [2]]);
    assert bad.store.HasStatus(K, Received) && !Intact(bad, K);
  }

  /** A delete that raised may still be under way when another purger has deleted the blob and finished. */
  lemma DeletedWhileLingering(p: Policy, f: Faults, x: int)
    requires f.deletesMayLinger
    ensures Reachable(p, f, Shape(DeletedStore(2), map[], map[], map[], {PATH}, map[]))
  {
    KeyIsValid();
    RetiredReachable(p, f, x);
    var z0 := Shape(RetiredStore(0), map[PATH := [1]], map[], map[], {}, map[K := ByRecord(1)]);
    ClaimStep(p, f, 0, x, z0);
    var z1 := z0.(store := ClaimedStore(1), purgers := map[1 := Claimed(Claim(1))]);
    var z2 := z1.(purgers := map[1 := Failing(Claim(1))], lingering := {PATH});
    Then(p, f, z1, EraseRaises(1), z2);
    GiveUpStep(p, f, 1, z2);
    ClaimAndErase(p, f, 1, x, z2.(store := RetiredStore(1), purgers := map[]), [1], ByRecord(1));
    FinishStep(p, f, 2, x, Shape(ClaimedStore(2), map[], map[], map[1 := Erased(Claim(2))], {PATH}, map[]));
  }

  /** A blob delete that raised but takes effect: it may remove bytes a new record already owns. */
  lemma LingeringDeleteBreaks(p: Policy, f: Faults)
    requires f.deletesMayLinger
    ensures exists z :: Reachable(p, f, z) && !Safe(z)
  {
    var x := p.tombstoneRetention + 1;
    DeletedWhileLingering(p, f, x);
    Reserves(p, f, Shape(DeletedStore(2), map[], map[], map[], {PATH}, map[]), 2, "g", [2]);
    var z := Shape(DeletedStore(2), map[PATH := [2]], Second(), map[], {PATH}, map[K := ByRequest(2)]);
    SecondCommits(p, f, 2, x, z);
    var z' := z.(store := ReusedStore(2), creators := Second() - {2}, owner := z.owner[K := ByRecord(2)], origin := z.origin[2 := [2]]);
    var bad := z'.(blobs := z'.blobs - {PATH}, lingering := z'.lingering - {PATH});
    Then(p, f, z', Linger(PATH), bad);
    KeyIsValid();
    assert bad.store.HasStatus(K, Received) && !Intact(bad, K);
  }

  /** The exact condition: every reachable state is safe if and only if neither fault is possible. */
  lemma SafetyExactly(p: Policy, f: Faults)
    ensures (forall z :: Reachable(p, f, z) ==> Safe(z)) <==> !f.finalizeMayFail && !f.deletesMayLinger
  {
    if f.finalizeMayFail {
      FailedFinalizeBreaks(p, f);
    } else if f.deletesMayLinger {
      LingeringDeleteBreaks(p, f);
    } else {
      assert f == NO_FAULTS;
      forall z | Reachable(p, f, z) ensures Safe(z) {
        var actions :| Execute(p, f, INITIAL, actions) == z;
        CrossStoreSafety(p, actions);
      }
    }
  }
}
