/**
 Idempotency bindings. A binding names an ingestion id, not a generation, and is never pruned, so
 after the id's record is retired, purged, expired and the id reused, the binding names a stranger.
 It may not be honoured then. It is not, exactly when tombstones are kept at least as long as keys.
 */
module Bindings {
  import opened Wrappers
  import opened Models
  import opened StoreSpec
  import opened StoreChanges
  import opened StoreRuns

  /** A store with what it does not record: which generation each binding was made for, and the last clock reading. */
  datatype Traced = Traced(store: Store, bound: map<Handle, int>, clock: int)

  /** The clock readings a call takes, in order. */
  function Readings(c: Call): seq<int> {
    match c
    case CreateCall(_, now, expiryNow) => [now, expiryNow]
    case ReleaseCall(_) => []
    case FinalizeCall(_, now) => [now]
    case _ => [c.now]
  }

  predicate NotBefore(clock: int, readings: seq<int>)
    decreases |readings|
  {
    readings == [] || (clock <= readings[0] && NotBefore(readings[0], readings[1..]))
  }

  function Last(clock: int, readings: seq<int>): int {
    if readings == [] then clock else readings[|readings| - 1]
  }

  function Track(p: Policy, z: Traced, c: Call): Traced {
    var e := ChangeOf(p, z.store, c);
    Traced(
      After(p, z.store, c),
      if e.Insertion? && e.q.key.Some? then z.bound[e.q.BindingHandle() := z.store.nextGeneration + 1]
      else if e.Rebind? && e.q.key.Some? && e.r.Id() in z.store.generations
        then z.bound[e.q.BindingHandle() := z.store.generations[e.r.Id()]]
      else z.bound,
      Last(z.clock, Readings(c)))
  }

  /** Every reading of the run is at least the one before. */
  predicate Monotone(clock: int, calls: seq<Call>)
    decreases |calls|
  {
    calls == [] ||
      (NotBefore(clock, Readings(calls[0])) && Monotone(Last(clock, Readings(calls[0])), calls[1..]))
  }

  /** If the call honours its binding, the binding leads to the very generation it was made for. */
  predicate Honours(p: Policy, z: Traced, c: Call) {
    c.CreateCall? && c.q.Matches() && Bound(p, z.store, c.q, c.now).Some? ==>
      && c.q.BindingHandle() in z.bound
      && z.store.Live(Key(c.q.tenant, z.store.bindings[c.q.BindingHandle()].ingestion), z.bound[c.q.BindingHandle()])
  }

  predicate Faithful(p: Policy, z: Traced, calls: seq<Call>)
    decreases |calls|
  {
    calls == [] || (Honours(p, z, calls[0]) && Faithful(p, Track(p, z, calls[0]), calls[1..]))
  }

  /** A binding leads to its own generation, or its window is over for good. */
  predicate Sound(p: Policy, z: Traced, h: Handle) {
    h in z.store.bindings ==>
      var b := z.store.bindings[h];
      var k := Key(h.tenant, b.ingestion);
      && h in z.bound
      && (|| (z.store.Live(k, z.bound[h]) && z.store.records[k].receivedAt == b.receivedAt)
          || b.receivedAt + p.keyWindow < z.clock)
  }

  lemma SoundBefore(p: Policy, z: Traced, c: Call, h: Handle)
    requires Valid(z.store) && Sound(p, z, h)
    requires p.keyWindow <= p.tombstoneRetention && NotBefore(z.clock, Readings(c))
    ensures Sound(p, Traced(Before(p, z.store, c), z.bound, Last(z.clock, Readings(c))), h)
  {
    if h in z.store.bindings {
      var k := Key(h.tenant, z.store.bindings[h].ingestion);
      ExpireEffect(p, z.store, c, k);
      assert KeyValid(z.store, k);
      assert z.clock <= Last(z.clock, Readings(c)) by {
        if c.CreateCall? { assert Readings(c)[1..] == [c.expiryNow]; }
      }
      if k in z.store.records && k !in Before(p, z.store, c).records {
        // received_at <= retired_at <= deleted_at, and the tombstone outlived its retention
        var t := z.store.tombstones[k];
        assert z.store.records[k].receivedAt <= t.retiredAt <= t.deletedAt;
        assert t.deletedAt + p.tombstoneRetention < Last(z.clock, Readings(c));
      }
    }
  }

  lemma SoundDo(p: Policy, s: Store, e: Change, bound: map<Handle, int>, clock: int, h: Handle)
    requires Valid(s) && Enabled(s, e) && Sound(p, Traced(s, bound, clock), h)
    ensures var bound' :=
              if e.Insertion? && e.q.key.Some? then bound[e.q.BindingHandle() := s.nextGeneration + 1]
              else if e.Rebind? && e.q.key.Some? && e.r.Id() in s.generations
                then bound[e.q.BindingHandle() := s.generations[e.r.Id()]]
              else bound;
            Sound(p, Traced(Do(s, e), bound', clock), h)
  {
    if e.Rebind? { assert KeyValid(s, e.r.Id()); }
    if h in s.bindings {
      var k := Key(h.tenant, s.bindings[h].ingestion);
      if k in s.records && h in bound && s.Live(k, bound[h]) { DoMoves(s, e, k, bound[h]); }
      assert KeyValid(s, k);
    }
  }

  lemma SoundStep(p: Policy, z: Traced, c: Call)
    requires Valid(z.store) && (forall h :: Sound(p, z, h))
    requires p.keyWindow <= p.tombstoneRetention && NotBefore(z.clock, Readings(c))
    ensures Valid(Track(p, z, c).store) && forall h :: Sound(p, Track(p, z, c), h)
  {
    AfterKeepsValid(p, z.store, c);
    NormalForm(p, z.store, c);
    BeforeKeepsValid(p, z.store, c);
    var b, e := Before(p, z.store, c), ChangeOf(p, z.store, c);
    var clock := Last(z.clock, Readings(c));
    ExpireEffect(p, z.store, c, Touched(c));
    forall h ensures Sound(p, Track(p, z, c), h) {
      SoundBefore(p, z, c, h);
      SoundDo(p, b, e, z.bound, clock, h);
    }
  }

  lemma {:induction false} SoundRun(p: Policy, z: Traced, calls: seq<Call>)
    requires Valid(z.store) && (forall h :: Sound(p, z, h))
    requires p.keyWindow <= p.tombstoneRetention && Monotone(z.clock, calls)
    ensures Faithful(p, z, calls)
    decreases |calls|
  {
    if calls != [] {
      var c := calls[0];
      if c.CreateCall? && c.q.Matches() && Bound(p, z.store, c.q, c.now).Some? {
        assert Sound(p, z, c.q.BindingHandle());
      }
      SoundStep(p, z, c);
      SoundRun(p, Track(p, z, c), calls[1..]);
    }
  }

  const START := Traced(EMPTY, map[], 0)

  /** With tombstones kept at least as long as keys stay bound, no stale binding is ever honoured. */
  lemma StaleBindingNeverRevives(p: Policy, clock: int, calls: seq<Call>)
    requires p.keyWindow <= p.tombstoneRetention && Monotone(clock, calls)
    ensures Faithful(p, START.(clock := clock), calls)
  {
    SoundRun(p, START.(clock := clock), calls);
  }

  // ---- With shorter tombstones a stale binding does revive ----

  const K := Key("t", "a")
  const H := Handle("t", "K")

  function New(ingestion: string, fingerprint: string): Record {
    Record("t", ingestion, fingerprint, 0, Received, None, None, None)
  }

  function Ask(ingestion: string, fingerprint: string, key: Option<string>): CreateRequest
    requires ingestion != "" && fingerprint != ""
  {
    CreateRequest("t", fingerprint, ingestion, New(ingestion, fingerprint), key)
  }

  /** Create a under key K, retire and purge it; reuse the id for other content; present K again. */
  function RevivalRun(x: int): seq<Call> {
    [CreateCall(Ask("a", "f", Some("K")), x, x),
     RetireCall(K, 0, CustomerRequested, x),
     PurgeCall(K, 0, x),
     CreateCall(Ask("a", "g", None), x, x),
     CreateCall(Ask("b", "f", Some("K")), x, x)]
  }

  /** The store in the course of that run: received, retired, deleted, reused. */
  function Stage(r: Record, tombstones: map<Key, Tombstone>, generation: int, active: map<Slot, string>): Store {
    Store(map[K := r], tombstones, map[K := generation], generation, map[], 0, active, map[H := Binding("a", 0)])
  }

  const FIRST := New("a", "f")
  const RETIRED := FIRST.AsRetired(0, CustomerRequested)
  const GONE := RETIRED.AsDeleted(0)

  function Stage1(): Store { Stage(FIRST, map[], 1, map[Slot("t", "f") := "a"]) }
  function Stage2(): Store { Stage(RETIRED, map[], 1, map[]) }
  function Stage3(): Store { Stage(GONE, map[K := TombstoneOf(GONE)], 1, map[]) }
  function Stage4(): Store { Stage(New("a", "g"), map[], 2, map[Slot("t", "g") := "a"]) }

  lemma CreateStage(p: Policy, x: int)
    ensures Track(p, START.(clock := x), CreateCall(Ask("a", "f", Some("K")), x, x)) == Traced(Stage1(), map[H := 1], x)
  {
  }

  lemma RetireStage(p: Policy, x: int)
    ensures Track(p, Traced(Stage1(), map[H := 1], x), RetireCall(K, 0, CustomerRequested, x)) == Traced(Stage2(), map[H := 1], x)
  {
    assert map[Slot("t", "f") := "a"] - {Slot("t", "f")} == map[];
  }

  lemma PurgeStage(p: Policy, x: int)
    ensures Track(p, Traced(Stage2(), map[H := 1], x), PurgeCall(K, 0, x)) == Traced(Stage3(), map[H := 1], x)
  {
  }

  lemma ReuseStage(p: Policy, x: int)
    requires x > p.tombstoneRetention
    ensures Track(p, Traced(Stage3(), map[H := 1], x), CreateCall(Ask("a", "g", None), x, x)) == Traced(Stage4(), map[H := 1], x)
  {
    assert map[K := TombstoneOf(GONE)] - {K} == map[] && map[K := GONE] - {K} == map[];
  }

  lemma ReviveStage(p: Policy, x: int)
    requires x <= p.keyWindow
    ensures !Honours(p, Traced(Stage4(), map[H := 1], x), CreateCall(Ask("b", "f", Some("K")), x, x))
  {
    assert Bound(p, Stage4(), Ask("b", "f", Some("K")), x) == Some(New("a", "g"));
  }

  lemma ShortTombstonesRevive(p: Policy, x: int)
    requires x == p.tombstoneRetention + 1 <= p.keyWindow
    ensures Monotone(x, RevivalRun(x)) && !Faithful(p, START.(clock := x), RevivalRun(x))
  {
    var calls := RevivalRun(x);
    RevivalIsMonotone(x, calls);
    CreateStage(p, x);
    RetireStage(p, x);
    PurgeStage(p, x);
    ReuseStage(p, x);
    ReviveStage(p, x);
    assert calls[1..][1..] == calls[2..] && calls[2..][1..] == calls[3..] && calls[3..][1..] == calls[4..];
    assert !Faithful(p, Traced(Stage4(), map[H := 1], x), calls[4..]);
    assert !Faithful(p, Traced(Stage3(), map[H := 1], x), calls[3..]);
    assert !Faithful(p, Traced(Stage2(), map[H := 1], x), calls[2..]);
  }

  lemma {:induction false} RevivalIsMonotone(x: int, calls: seq<Call>)
    requires forall c <- calls :: Readings(c) == [x] || Readings(c) == [x, x]
    ensures Monotone(x, calls)
    decreases |calls|
  {
    if calls != [] {
      assert calls[0] in calls;
      assert NotBefore(x, []);
      assert [x, x][1..] == [x] && [x][1..] == [];
      assert NotBefore(x, [x]);
      RevivalIsMonotone(x, calls[1..]);
    }
  }

  /** The exact condition on the configuration. */
  lemma NoRevivalExactly(p: Policy)
    ensures (forall clock, calls :: Monotone(clock, calls) ==> Faithful(p, START.(clock := clock), calls))
       <==> p.keyWindow <= p.tombstoneRetention
  {
    if p.keyWindow <= p.tombstoneRetention {
      forall clock, calls | Monotone(clock, calls) ensures Faithful(p, START.(clock := clock), calls) {
        StaleBindingNeverRevives(p, clock, calls);
      }
    } else {
      ShortTombstonesRevive(p, p.tombstoneRetention + 1);
    }
  }
}
