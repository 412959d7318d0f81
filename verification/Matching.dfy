/**
 The multiset matching of web/src/features/comparison/compare.ts, over items of any type T with a
 fingerprint and a row to sort by.
 */
module Matching {
  import opened Wrappers
  import opened Ordering

  datatype ComparisonStatus = New | Persistent | Resolved

  datatype ComparisonFindingResult<T> = ComparisonFindingResult(
    status: ComparisonStatus, displayFinding: T, olderFinding: Option<T>, newerFinding: Option<T>)

  datatype StatusTotals = StatusTotals(new_: nat, persistent: nat, resolved: nat)

  function PersistentResult<T>(o: T, n: T): ComparisonFindingResult<T> { ComparisonFindingResult(Persistent, n, Some(o), Some(n)) }

  function ResolvedResult<T>(o: T): ComparisonFindingResult<T> { ComparisonFindingResult(Resolved, o, Some(o), None) }

  function NewResult<T>(n: T): ComparisonFindingResult<T> { ComparisonFindingResult(New, n, None, Some(n)) }

  // ---- groupByFingerprint ----

  /** The items with this fingerprint, in input order. */
  function Group<T>(key: T -> Text, xs: seq<T>, fp: Text): seq<T> {
    if xs == [] then []
    else
      var n := |xs| - 1;
      Group(key, xs[..n], fp) + if key(xs[n]) == fp then [xs[n]] else []
  }

  ghost function FingerprintsOf<T>(key: T -> Text, xs: seq<T>): set<Text> { set i | 0 <= i < |xs| :: key(xs[i]) }

  /** A map holds each fingerprint's group and nothing else. */
  ghost predicate Groups<T>(key: T -> Text, groups: map<Text, seq<T>>, xs: seq<T>) {
    groups.Keys == FingerprintsOf(key, xs) && forall fp <- groups :: groups[fp] == Group(key, xs, fp)
  }

  lemma {:induction false} GroupElements<T>(key: T -> Text, xs: seq<T>, fp: Text, x: T)
    ensures multiset(Group(key, xs, fp))[x] == if key(x) == fp then multiset(xs)[x] else 0
  {
    if xs != [] {
      var n := |xs| - 1;
      GroupElements(key, xs[..n], fp, x);
      assert xs == xs[..n] + [xs[n]];
    }
  }

  lemma {:induction false} GroupMembers<T>(key: T -> Text, xs: seq<T>, fp: Text)
    ensures forall x <- Group(key, xs, fp) :: key(x) == fp
    ensures Group(key, xs, fp) == [] <==> fp !in FingerprintsOf(key, xs)
  {
    if xs != [] {
      var n := |xs| - 1;
      GroupMembers(key, xs[..n], fp);
      FingerprintsSnoc(key, xs[..n], xs[n]);
      assert xs == xs[..n] + [xs[n]];
    }
  }

  lemma FingerprintsSnoc<T>(key: T -> Text, xs: seq<T>, x: T)
    ensures FingerprintsOf(key, xs + [x]) == FingerprintsOf(key, xs) + {key(x)}
  {
    var ys := xs + [x];
    forall fp | fp in FingerprintsOf(key, xs) ensures fp in FingerprintsOf(key, ys) {
      var i :| 0 <= i < |xs| && key(xs[i]) == fp;
      assert ys[i] == xs[i];
    }
    assert ys[|xs|] == x;
  }

  lemma GroupsSnoc<T>(key: T -> Text, groups: map<Text, seq<T>>, xs: seq<T>, x: T)
    requires Groups(key, groups, xs)
    ensures var fp := key(x);
            Groups(key, groups[fp := (if fp in groups then groups[fp] else []) + [x]], xs + [x])
  {
    FingerprintsSnoc(key, xs, x);
    assert (xs + [x])[..|xs|] == xs;
    GroupMembers(key, xs, key(x));
  }

  method GroupByFingerprint<T>(key: T -> Text, findings: seq<T>) returns (groups: map<Text, seq<T>>)
    ensures Groups(key, groups, findings)
  {
    groups := map[];
    for i := 0 to |findings|
      invariant Groups(key, groups, findings[..i])
    {
      var finding := findings[i];
      var fingerprint := key(finding);
      GroupsSnoc(key, groups, findings[..i], finding);
      assert findings[..i + 1] == findings[..i] + [finding];
      if fingerprint in groups {
        groups := groups[fingerprint := groups[fingerprint] + [finding]];
      } else {
        groups := groups[fingerprint := [finding]];
        assert [] + [finding] == [finding];
      }
    }
    assert findings[..|findings|] == findings;
  }

  // ---- matchFindings ----

  function Pairs<T>(os: seq<T>, ns: seq<T>): seq<ComparisonFindingResult<T>>
    requires |os| == |ns|
  {
    seq(|os|, i requires 0 <= i < |os| => PersistentResult(os[i], ns[i]))
  }

  function AllResolved<T>(os: seq<T>): seq<ComparisonFindingResult<T>> {
    seq(|os|, i requires 0 <= i < |os| => ResolvedResult(os[i]))
  }

  function AllNew<T>(ns: seq<T>): seq<ComparisonFindingResult<T>> {
    seq(|ns|, i requires 0 <= i < |ns| => NewResult(ns[i]))
  }

  /** Two sorted groups, paired index by index, leftovers after the pairs. */
  function PairUp<T>(os: seq<T>, ns: seq<T>): seq<ComparisonFindingResult<T>> {
    var k := Min(|os|, |ns|);
    Pairs(os[..k], ns[..k]) + AllResolved(os[k..]) + AllNew(ns[k..])
  }

  function MatchGroup<T>(key: T -> Text, row: T -> Row, older: seq<T>, newer: seq<T>, fp: Text): seq<ComparisonFindingResult<T>> {
    PairUp(Sort(row, Group(key, older, fp)), Sort(row, Group(key, newer, fp)))
  }

  function MatchAll<T>(key: T -> Text, row: T -> Row, older: seq<T>, newer: seq<T>, fps: seq<Text>): seq<ComparisonFindingResult<T>> {
    if fps == [] then []
    else
      var n := |fps| - 1;
      MatchAll(key, row, older, newer, fps[..n]) + MatchGroup(key, row, older, newer, fps[n])
  }

  function Itself(fp: Text): Row { [fp] }

  /** The given fingerprints, each once, in code-unit order. */
  ghost predicate InOrder(fps: seq<Text>, all: set<Text>) {
    Sorted(Itself, fps) && multiset(fps) == multiset(all)
  }

  lemma OneOrder(fps: seq<Text>, gps: seq<Text>, all: set<Text>)
    requires InOrder(fps, all) && InOrder(gps, all)
    ensures fps == gps
  {
    forall x, y {:trigger Itself(x), Itself(y)} | x in fps && y in fps && Itself(x) == Itself(y) ensures x == y {
      assert Itself(x)[0] == Itself(y)[0];
    }
    SortedUnique(Itself, fps, gps);
  }

  method SortFingerprints(all: set<Text>) returns (fps: seq<Text>)
    ensures InOrder(fps, all)
  {
    fps := [];
    var rest := all;
    while rest != {}
      invariant rest <= all && Sorted(Itself, fps) && multiset(fps) == multiset(all - rest)
      decreases |rest|
    {
      var fp :| fp in rest;
      InsertSorts(Itself, fp, fps);
      OneMore(all, rest, fp);
      fps := InsertSorted(Itself, fp, fps);
      rest := rest - {fp};
    }
    assert all - rest == all;
  }

  lemma OneMore(all: set<Text>, rest: set<Text>, fp: Text)
    requires rest <= all && fp in rest
    ensures multiset(all - (rest - {fp})) == multiset(all - rest) + multiset{fp}
  {
    assert all - (rest - {fp}) == (all - rest) + {fp};
  }

  /** The fingerprints in order. */
  ghost function Ascending(all: set<Text>): seq<Text> { Sort(Itself, ToSeq(all)) }

  lemma AscendingInOrder(all: set<Text>)
    ensures InOrder(Ascending(all), all)
  {
    ToSeqElements(all);
    SortSorts(Itself, ToSeq(all));
  }

  /** All fingerprints of either side, in order. */
  ghost function AllFingerprints<T>(key: T -> Text, older: seq<T>, newer: seq<T>): seq<Text> {
    Ascending(FingerprintsOf(key, older) + FingerprintsOf(key, newer))
  }

  /** What a comparison produces: the matches of every fingerprint of either side, in order. */
  ghost function Matches<T>(key: T -> Text, row: T -> Row, older: seq<T>, newer: seq<T>): seq<ComparisonFindingResult<T>> {
    MatchAll(key, row, older, newer, AllFingerprints(key, older, newer))
  }

  /** The results of two groups, place by place: first pairs of equal index, then what the longer group has left. */
  ghost predicate PairsByIndex<T>(os: seq<T>, ns: seq<T>, results: seq<ComparisonFindingResult<T>>) {
    && |results| == (if |os| < |ns| then |ns| else |os|)
    && (forall i :: 0 <= i < |os| && i < |ns| ==> results[i] == ComparisonFindingResult(Persistent, ns[i], Some(os[i]), Some(ns[i])))
    && (forall i :: |ns| <= i < |os| ==> results[i] == ComparisonFindingResult(Resolved, os[i], Some(os[i]), None))
    && (forall i :: |os| <= i < |ns| ==> results[i] == ComparisonFindingResult(New, ns[i], None, Some(ns[i])))
  }

  lemma PairUpIndexed<T>(os: seq<T>, ns: seq<T>)
    ensures PairsByIndex(os, ns, PairUp(os, ns))
  {
  }

  lemma OneWayToPair<T>(os: seq<T>, ns: seq<T>, results: seq<ComparisonFindingResult<T>>)
    requires PairsByIndex(os, ns, results)
    ensures results == PairUp(os, ns)
  {
    var rs := PairUp(os, ns);
    PairUpIndexed(os, ns);
    assert |results| == |rs|;
    forall i | 0 <= i < |results| ensures results[i] == rs[i] {}
  }

  method PairGroups<T>(os: seq<T>, ns: seq<T>) returns (results: seq<ComparisonFindingResult<T>>)
    ensures results == PairUp(os, ns) && PairsByIndex(os, ns, results)
  {
    var pairCount := if |os| < |ns| then |os| else |ns|;
    results := [];
    for i := 0 to pairCount
      invariant |results| == i
      invariant forall j :: 0 <= j < i ==> results[j] == PersistentResult(os[j], ns[j])
    {
      results := results + [ComparisonFindingResult(Persistent, ns[i], Some(os[i]), Some(ns[i]))];
    }
    for i := pairCount to |os|
      invariant |results| == i
      invariant forall j :: 0 <= j < pairCount ==> results[j] == PersistentResult(os[j], ns[j])
      invariant forall j :: pairCount <= j < i ==> results[j] == ResolvedResult(os[j])
    {
      results := results + [ComparisonFindingResult(Resolved, os[i], Some(os[i]), None)];
    }
    ghost var paired := results;
    for i := pairCount to |ns|
      invariant |results| == |paired| + i - pairCount && paired <= results
      invariant forall j :: pairCount <= j < i ==> results[j + |paired| - pairCount] == NewResult(ns[j])
    {
      results := results + [ComparisonFindingResult(New, ns[i], None, Some(ns[i]))];
    }
    OneWayToPair(os, ns, results);
  }

  lemma MatchSnoc<T>(key: T -> Text, row: T -> Row, older: seq<T>, newer: seq<T>, fps: seq<Text>, i: nat)
    requires i < |fps|
    ensures MatchAll(key, row, older, newer, fps[..i + 1])
         == MatchAll(key, row, older, newer, fps[..i]) + MatchGroup(key, row, older, newer, fps[i])
  {
    assert fps[..i + 1][..i] == fps[..i];
  }

  /** The matches of one fingerprint. */
  method MatchOne<T>(key: T -> Text, row: T -> Row, ghost older: seq<T>, ghost newer: seq<T>,
                     olderGroups: map<Text, seq<T>>, newerGroups: map<Text, seq<T>>, fp: Text)
    returns (results: seq<ComparisonFindingResult<T>>)
    requires Groups(key, olderGroups, older) && Groups(key, newerGroups, newer)
    ensures results == MatchGroup(key, row, older, newer, fp)
  {
    GroupMembers(key, older, fp);
    GroupMembers(key, newer, fp);
    var olderGroup := Sort(row, if fp in olderGroups then olderGroups[fp] else []);
    var newerGroup := Sort(row, if fp in newerGroups then newerGroups[fp] else []);
    results := PairGroups(olderGroup, newerGroup);
  }

  method MatchFindings<T>(key: T -> Text, row: T -> Row, older: seq<T>, newer: seq<T>) returns (results: seq<ComparisonFindingResult<T>>)
    ensures results == Matches(key, row, older, newer)
  {
    var olderGroups := GroupByFingerprint(key, older);
    var newerGroups := GroupByFingerprint(key, newer);
    var fingerprints := SortFingerprints(olderGroups.Keys + newerGroups.Keys);
    AscendingInOrder(olderGroups.Keys + newerGroups.Keys);
    OneOrder(fingerprints, AllFingerprints(key, older, newer), olderGroups.Keys + newerGroups.Keys);
    results := [];
    for i := 0 to |fingerprints|
      invariant results == MatchAll(key, row, older, newer, fingerprints[..i])
    {
      MatchSnoc(key, row, older, newer, fingerprints, i);
      var paired := MatchOne(key, row, older, newer, olderGroups, newerGroups, fingerprints[i]);
      results := results + paired;
    }
    assert fingerprints[..|fingerprints|] == fingerprints;
  }

  // ---- computeStatusTotals ----

  function Tally<T>(results: seq<ComparisonFindingResult<T>>, status: ComparisonStatus): nat {
    if results == [] then 0
    else
      var n := |results| - 1;
      Tally(results[..n], status) + if results[n].status == status then 1 else 0
  }

  method ComputeStatusTotals<T>(results: seq<ComparisonFindingResult<T>>) returns (totals: StatusTotals)
    ensures totals == StatusTotals(Tally(results, New), Tally(results, Persistent), Tally(results, Resolved))
  {
    var newCount, persistentCount, resolvedCount := 0, 0, 0;
    for i := 0 to |results|
      invariant newCount == Tally(results[..i], New)
      invariant persistentCount == Tally(results[..i], Persistent)
      invariant resolvedCount == Tally(results[..i], Resolved)
    {
      assert results[..i + 1][..i] == results[..i];
      match results[i].status {
        case New => newCount := newCount + 1;
        case Persistent => persistentCount := persistentCount + 1;
        case Resolved => resolvedCount := resolvedCount + 1;
      }
    }
    assert results[..|results|] == results;
    totals := StatusTotals(newCount, persistentCount, resolvedCount);
  }
}
