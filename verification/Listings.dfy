/** Deterministic listings of stored records, oldest first, ties broken by tenant and ingestion id. */
module Listings {
  import opened Models
  import opened StoreSpec
  import opened Ordering

  /** ORDER BY received_at, tenant_id, ingestion_id */
  function ByReceived(r: Record): Row { [[r.receivedAt], Codes(r.tenant), Codes(r.ingestion)] }

  /** ORDER BY retired_at, tenant_id, ingestion_id */
  function ByRetired(r: Record): Row {
    [[if r.retiredAt.Some? then r.retiredAt.value else 0], Codes(r.tenant), Codes(r.ingestion)]
  }

  /** Every record is stored under its own key. */
  predicate Keyed(records: map<Key, Record>) { forall k <- records :: records[k].Id() == k }

  lemma ValidIsKeyed(s: Store)
    requires Valid(s)
    ensures Keyed(s.records)
  {
    forall k | k in s.records ensures s.records[k].Id() == k { assert KeyValid(s, k); }
  }

  function RecordsOf(records: map<Key, Record>, keys: set<Key>): set<Record>
    requires keys <= records.Keys
  {
    set k | k in keys :: records[k]
  }

  /** The records stored under keys, in the given order. */
  ghost function Listing(records: map<Key, Record>, keys: set<Key>, row: Record -> Row): seq<Record>
    requires keys <= records.Keys
  {
    Sort(row, ToSeq(RecordsOf(records, keys)))
  }

  lemma RowsIdentify(xs: seq<Record>, records: map<Key, Record>)
    requires Keyed(records) && forall r <- xs :: r.Id() in records && records[r.Id()] == r
    ensures Identifies(ByReceived, xs) && Identifies(ByRetired, xs)
  {
    forall x, y | x in xs && y in xs && (ByReceived(x) == ByReceived(y) || ByRetired(x) == ByRetired(y)) ensures x == y {
      assert ByReceived(x) == ByReceived(y) ==> ByReceived(x)[1] == ByReceived(y)[1] && ByReceived(x)[2] == ByReceived(y)[2];
      assert ByRetired(x) == ByRetired(y) ==> ByRetired(x)[1] == ByRetired(y)[1] && ByRetired(x)[2] == ByRetired(y)[2];
      CodesInjective(x.tenant, y.tenant);
      CodesInjective(x.ingestion, y.ingestion);
    }
  }

  /** There is only one such listing: any sorted sequence of exactly these records is it. */
  lemma ListingUnique(records: map<Key, Record>, keys: set<Key>, row: Record -> Row, xs: seq<Record>)
    requires Keyed(records) && keys <= records.Keys && (row == ByReceived || row == ByRetired)
    requires Sorted(row, xs) && multiset(xs) == multiset(RecordsOf(records, keys))
    ensures xs == Listing(records, keys, row)
  {
    var ys := ToSeq(RecordsOf(records, keys));
    ToSeqElements(RecordsOf(records, keys));
    SortSorts(row, ys);
    forall r | r in xs ensures r.Id() in records && records[r.Id()] == r {
      assert r in multiset(xs);
      assert r in RecordsOf(records, keys);
    }
    RowsIdentify(xs, records);
    SortedUnique(row, xs, Listing(records, keys, row));
  }

  /** A listing holds each of the records under keys once, and nothing else. */
  lemma ListingElements(records: map<Key, Record>, keys: set<Key>, row: Record -> Row)
    requires Keyed(records) && keys <= records.Keys
    ensures var xs := Listing(records, keys, row);
            && |xs| == |keys| && Sorted(row, xs)
            && (forall r <- xs :: r.Id() in keys && records[r.Id()] == r)
            && (forall k <- keys :: records[k] in xs)
            && (forall i, j :: 0 <= i < j < |xs| ==> xs[i].Id() != xs[j].Id())
  {
    var xs, rs := Listing(records, keys, row), RecordsOf(records, keys);
    ToSeqElements(rs);
    SortSorts(row, ToSeq(rs));
    assert multiset(xs) == multiset(rs);
    forall r | r in xs ensures r.Id() in keys && records[r.Id()] == r { assert r in multiset(xs); assert r in rs; }
    forall k | k in keys ensures records[k] in xs { assert records[k] in rs; assert records[k] in multiset(xs); }
    CardinalityOfRecords(records, keys);
    assert |multiset(xs)| == |xs| && |multiset(rs)| == |rs|;
    forall i, j | 0 <= i < j < |xs| ensures xs[i].Id() != xs[j].Id() {
      assert xs[i] in xs && xs[j] in xs;
      assert multiset(rs)[xs[i]] <= 1;
      if xs[i] == xs[j] { DuplicatesCount(xs, i, j); }
    }
  }

  lemma {:induction false} CardinalityOfRecords(records: map<Key, Record>, keys: set<Key>)
    requires Keyed(records) && keys <= records.Keys
    ensures |RecordsOf(records, keys)| == |keys|
    decreases |keys|
  {
    if keys != {} {
      var k :| k in keys;
      CardinalityOfRecords(records, keys - {k});
      assert records[k].Id() == k;
      assert records[k] !in RecordsOf(records, keys - {k});
      assert RecordsOf(records, keys) == RecordsOf(records, keys - {k}) + {records[k]};
    }
  }

  /** Collects the records under keys one by one and sorts them: what a listing query does. */
  method Collect(records: map<Key, Record>, keys: set<Key>, row: Record -> Row) returns (out: seq<Record>)
    requires Keyed(records) && keys <= records.Keys && (row == ByReceived || row == ByRetired)
    ensures out == Listing(records, keys, row)
  {
    out := [];
    var rest := keys;
    while rest != {}
      invariant rest <= keys && Sorted(row, out)
      invariant multiset(out) == multiset(RecordsOf(records, keys - rest))
      decreases |rest|
    {
      var k :| k in rest;
      InsertSorts(row, records[k], out);
      CollectStep(records, keys - rest, k);
      out := InsertSorted(row, records[k], out);
      assert keys - (rest - {k}) == (keys - rest) + {k};
      rest := rest - {k};
    }
    assert keys - rest == keys;
    ListingUnique(records, keys, row, out);
  }

  lemma CollectStep(records: map<Key, Record>, keys: set<Key>, k: Key)
    requires Keyed(records) && keys <= records.Keys && k in records && k !in keys
    ensures multiset(RecordsOf(records, keys + {k})) == multiset(RecordsOf(records, keys)) + multiset{records[k]}
  {
    assert records[k].Id() == k;
    assert records[k] !in RecordsOf(records, keys);
    assert RecordsOf(records, keys + {k}) == RecordsOf(records, keys) + {records[k]};
  }

  function Prefix<T>(xs: seq<T>, n: nat): seq<T> { if n < |xs| then xs[..n] else xs }

  // ---- The orders, on the fields ----

  /** Ties are broken by tenant, then by ingestion id. */
  ghost predicate TieBroken(r: Record, s: Record) {
    if r.tenant == s.tenant then r.ingestion == s.ingestion || StringBefore(r.ingestion, s.ingestion) else StringBefore(r.tenant, s.tenant)
  }

  ghost predicate ReceivedNoLater(r: Record, s: Record) {
    r.receivedAt < s.receivedAt || (r.receivedAt == s.receivedAt && TieBroken(r, s))
  }

  ghost predicate RetiredNoLater(r: Record, s: Record) {
    && r.retiredAt.Some? && s.retiredAt.Some?
    && (r.retiredAt.value < s.retiredAt.value || (r.retiredAt == s.retiredAt && TieBroken(r, s)))
  }

  lemma TextOfOne(a: int, b: int)
    ensures TextLeq([a], [b]) <==> a <= b
  {
    assert [a][1..] == [] && [b][1..] == [];
  }

  lemma ThreeColumns(a: Text, b: Text, c: Text, x: Text, y: Text, z: Text)
    ensures RowLeq([a, b, c], [x, y, z])
       <==> if a != x then TextLeq(a, x) else if b != y then TextLeq(b, y) else TextLeq(c, z)
  {
    assert [a, b, c][1..] == [b, c] && [b, c][1..] == [c] && [c][1..] == [];
    assert [x, y, z][1..] == [y, z] && [y, z][1..] == [z] && [z][1..] == [];
    assert RowLeq([c], [z]) <==> TextLeq(c, z) by { TextTotal(c, z); }
    assert RowLeq([b, c], [y, z]) <==> if b != y then TextLeq(b, y) else TextLeq(c, z);
  }

  lemma Tie(r: Record, s: Record)
    ensures TieBroken(r, s) <==> if Codes(r.tenant) != Codes(s.tenant) then TextLeq(Codes(r.tenant), Codes(s.tenant))
                                 else TextLeq(Codes(r.ingestion), Codes(s.ingestion))
  {
    CodesOrdered(r.tenant, s.tenant);
    CodesOrdered(r.ingestion, s.ingestion);
    if Codes(r.tenant) == Codes(s.tenant) { CodesInjective(r.tenant, s.tenant); }
  }

  lemma ByReceivedOrders(r: Record, s: Record)
    ensures RowLeq(ByReceived(r), ByReceived(s)) <==> ReceivedNoLater(r, s)
  {
    ThreeColumns([r.receivedAt], Codes(r.tenant), Codes(r.ingestion), [s.receivedAt], Codes(s.tenant), Codes(s.ingestion));
    TextOfOne(r.receivedAt, s.receivedAt);
    assert [r.receivedAt][0] == r.receivedAt && [s.receivedAt][0] == s.receivedAt;
    Tie(r, s);
  }

  lemma ByRetiredOrders(r: Record, s: Record)
    requires r.retiredAt.Some? && s.retiredAt.Some?
    ensures RowLeq(ByRetired(r), ByRetired(s)) <==> RetiredNoLater(r, s)
  {
    var a, b := r.retiredAt.value, s.retiredAt.value;
    ThreeColumns([a], Codes(r.tenant), Codes(r.ingestion), [b], Codes(s.tenant), Codes(s.ingestion));
    TextOfOne(a, b);
    assert [a][0] == a && [b][0] == b;
    Tie(r, s);
  }

  /** xs are the received records from before the cutoff, each once, oldest receipt first. */
  ghost predicate ListsReceived(s: Store, olderThan: int, xs: seq<Record>) {
    && (forall r <- xs :: r.Id() in s.records && s.records[r.Id()] == r && r.status.Received? && r.receivedAt < olderThan)
    && (forall k <- s.records :: s.records[k].status.Received? && s.records[k].receivedAt < olderThan ==> s.records[k] in xs)
    && (forall i, j :: 0 <= i < j < |xs| ==> xs[i].Id() != xs[j].Id() && ReceivedNoLater(xs[i], xs[j]))
  }

  lemma ListingListsReceived(s: Store, olderThan: int)
    requires Valid(s)
    ensures ListsReceived(s, olderThan, Listing(s.records, ExpiredForRetention(s, olderThan), ByReceived))
  {
    var keys := ExpiredForRetention(s, olderThan);
    var xs := Listing(s.records, keys, ByReceived);
    ValidIsKeyed(s);
    ListingElements(s.records, keys, ByReceived);
    forall i, j | 0 <= i < j < |xs| ensures ReceivedNoLater(xs[i], xs[j]) {
      SortedPairs(ByReceived, xs, i, j);
      ByReceivedOrders(xs[i], xs[j]);
    }
  }

  /** Retired, and nobody holds a claim on it. */
  predicate Purgeable(s: Store, k: Key) { k in s.records && s.records[k].status.Retired? && k !in s.claims }

  /** xs are the oldest purgeable records, at most limit of them, each once, oldest retirement first. */
  ghost predicate ListsOldestRetired(s: Store, limit: nat, xs: seq<Record>) {
    && (forall r <- xs :: Purgeable(s, r.Id()) && s.records[r.Id()] == r)
    && (forall i, j :: 0 <= i < j < |xs| ==> xs[i].Id() != xs[j].Id() && RetiredNoLater(xs[i], xs[j]))
    && |xs| <= limit
    && (forall k :: Purgeable(s, k) && s.records[k] !in xs ==> |xs| == limit && forall r <- xs :: RetiredNoLater(r, s.records[k]))
  }

  lemma {:induction false} PrefixIsLeast<T>(row: T -> Row, xs: seq<T>, n: nat, x: T, y: T)
    requires Sorted(row, xs) && x in Prefix(xs, n) && y in xs && y !in Prefix(xs, n)
    ensures RowLeq(row(x), row(y))
    decreases |xs|
  {
    if x == xs[0] {
      SortedHead(row, xs, y);
    } else {
      assert Prefix(xs, n) == [xs[0]] + Prefix(xs[1..], n - 1);
      PrefixIsLeast(row, xs[1..], n - 1, x, y);
    }
  }

  /** all are the purgeable records, each once, in the order of a sorted listing. */
  ghost predicate ListsPurgeable(s: Store, all: seq<Record>) {
    && Sorted(ByRetired, all)
    && (forall r <- all :: Purgeable(s, r.Id()) && s.records[r.Id()] == r && r.retiredAt.Some?)
    && (forall k :: Purgeable(s, k) ==> s.records[k] in all)
    && (forall i, j :: 0 <= i < j < |all| ==> all[i].Id() != all[j].Id())
  }

  lemma OldestComeFirst(s: Store, all: seq<Record>, limit: nat)
    requires ListsPurgeable(s, all)
    ensures ListsOldestRetired(s, limit, Prefix(all, limit))
  {
    var xs := Prefix(all, limit);
    forall i, j | 0 <= i < j < |xs| ensures RetiredNoLater(xs[i], xs[j]) {
      SortedPairs(ByRetired, all, i, j);
      assert all[i] in all && all[j] in all;
      ByRetiredOrders(xs[i], xs[j]);
    }
    forall k, r | Purgeable(s, k) && s.records[k] !in xs && r in xs ensures RetiredNoLater(r, s.records[k]) {
      PrefixIsLeast(ByRetired, all, limit, r, s.records[k]);
      assert r in all;
      ByRetiredOrders(r, s.records[k]);
    }
  }

  lemma PrefixListsOldestRetired(s: Store, limit: nat)
    requires Valid(s)
    ensures ListsOldestRetired(s, limit, Prefix(Listing(s.records, RetiredUnclaimed(s), ByRetired), limit))
  {
    var keys := RetiredUnclaimed(s);
    var all := Listing(s.records, keys, ByRetired);
    ValidIsKeyed(s);
    ListingElements(s.records, keys, ByRetired);
    forall k | k in keys ensures s.records[k].retiredAt.Some? { assert KeyValid(s, k); }
    forall k | Purgeable(s, k) ensures s.records[k] in all { assert k in keys; }
    OldestComeFirst(s, all, limit);
  }
}
