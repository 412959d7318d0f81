/** What comparing two reports promises (web/src/features/comparison/compare.ts). */
module Compare {
  import opened Wrappers
  import opened JsonText
  import opened Ordering
  import opened Fingerprint
  import opened Matching

  // ---- Conservation ----

  datatype Side = Older | Newer

  function Part<T>(r: ComparisonFindingResult<T>, side: Side): Option<T> {
    if side.Older? then r.olderFinding else r.newerFinding
  }

  /** The findings of one side, in result order. */
  function Parts<T>(rs: seq<ComparisonFindingResult<T>>, side: Side): seq<T> {
    if rs == [] then []
    else
      var n := |rs| - 1;
      Parts(rs[..n], side) + if Part(rs[n], side).Some? then [Part(rs[n], side).value] else []
  }

  function Input<T>(older: seq<T>, newer: seq<T>, side: Side): seq<T> { if side.Older? then older else newer }

  lemma {:induction false} PartsConcat<T>(rs: seq<ComparisonFindingResult<T>>, ss: seq<ComparisonFindingResult<T>>, side: Side)
    ensures Parts(rs + ss, side) == Parts(rs, side) + Parts(ss, side)
    decreases |ss|
  {
    if ss == [] {
      assert rs + ss == rs;
    } else {
      var n := |ss| - 1;
      PartsConcat(rs, ss[..n], side);
      PartsConcatOne(rs, ss[..n], ss[n], side);
      assert ss == ss[..n] + [ss[n]];
    }
  }

  lemma PartsConcatOne<T>(rs: seq<ComparisonFindingResult<T>>, ss: seq<ComparisonFindingResult<T>>, r: ComparisonFindingResult<T>, side: Side)
    requires Parts(rs + ss, side) == Parts(rs, side) + Parts(ss, side)
    ensures Parts(rs + (ss + [r]), side) == Parts(rs, side) + Parts(ss + [r], side)
  {
    PartsSnoc(rs + ss, r, side);
    PartsSnoc(ss, r, side);
    Associates(rs, ss, [r]);
    Associates(Parts(rs, side), Parts(ss, side), if Part(r, side).Some? then [Part(r, side).value] else []);
  }

  lemma PartsSnoc<T>(rs: seq<ComparisonFindingResult<T>>, r: ComparisonFindingResult<T>, side: Side)
    ensures Parts(rs + [r], side) == Parts(rs, side) + if Part(r, side).Some? then [Part(r, side).value] else []
  {
    assert (rs + [r])[..|rs|] == rs;
  }

  lemma {:induction false} PartsAll<T>(rs: seq<ComparisonFindingResult<T>>, side: Side, xs: seq<T>)
    requires |rs| == |xs| && forall i :: 0 <= i < |rs| ==> Part(rs[i], side) == Some(xs[i])
    ensures Parts(rs, side) == xs
  {
    if rs != [] {
      var n := |rs| - 1;
      PartsAll(rs[..n], side, xs[..n]);
      assert xs == xs[..n] + [xs[n]];
    }
  }

  lemma {:induction false} PartsNone<T>(rs: seq<ComparisonFindingResult<T>>, side: Side)
    requires forall i :: 0 <= i < |rs| ==> Part(rs[i], side).None?
    ensures Parts(rs, side) == []
  {
    if rs != [] { PartsNone(rs[..|rs| - 1], side); }
  }

  /** Pairing loses and repeats nothing on either side. */
  lemma PairUpKeeps<T>(os: seq<T>, ns: seq<T>, side: Side)
    ensures Parts(PairUp(os, ns), side) == Input(os, ns, side)
  {
    var k := Min(|os|, |ns|);
    var a, b, c := Pairs(os[..k], ns[..k]), AllResolved(os[k..]), AllNew(ns[k..]);
    PartsConcat(a + b, c, side);
    PartsConcat(a, b, side);
    if side.Older? {
      PartsAll(a, side, os[..k]);
      PartsAll(b, side, os[k..]);
      PartsNone(c, side);
    } else {
      PartsAll(a, side, ns[..k]);
      PartsNone(b, side);
      PartsAll(c, side, ns[k..]);
    }
    CutAt(os, k);
    CutAt(ns, k);
  }

  lemma CutAt<T>(xs: seq<T>, k: nat)
    requires k <= |xs|
    ensures xs[..k] + xs[k..] == xs && xs[..k] + xs[k..] + [] == xs && xs[..k] + [] + xs[k..] == xs
  {
  }

  lemma MatchGroupKeeps<T>(key: T -> Text, row: T -> Row, older: seq<T>, newer: seq<T>, fp: Text, side: Side, x: T)
    ensures multiset(Parts(MatchGroup(key, row, older, newer, fp), side))[x]
         == if key(x) == fp then multiset(Input(older, newer, side))[x] else 0
  {
    var input := Input(older, newer, side);
    PairUpKeeps(Sort(row, Group(key, older, fp)), Sort(row, Group(key, newer, fp)), side);
    SortSorts(row, Group(key, input, fp));
    GroupElements(key, input, fp, x);
  }

  ghost predicate Distinct(fps: seq<Text>) { forall i, j :: 0 <= i < j < |fps| ==> fps[i] != fps[j] }

  lemma InOrderIsDistinct(fps: seq<Text>, all: set<Text>)
    requires InOrder(fps, all)
    ensures Distinct(fps) && forall fp :: fp in fps <==> fp in all
  {
    forall i, j | 0 <= i < j < |fps| ensures fps[i] != fps[j] {
      assert multiset(all)[fps[i]] <= 1;
      if fps[i] == fps[j] { DuplicatesCount(fps, i, j); }
    }
    forall fp ensures fp in fps <==> fp in all { assert fp in fps <==> fp in multiset(fps); }
  }

  lemma {:induction false} MatchAllKeeps<T>(key: T -> Text, row: T -> Row, older: seq<T>, newer: seq<T>, fps: seq<Text>, side: Side, x: T)
    requires Distinct(fps)
    ensures multiset(Parts(MatchAll(key, row, older, newer, fps), side))[x]
         == if key(x) in fps then multiset(Input(older, newer, side))[x] else 0
  {
    if fps != [] {
      var n := |fps| - 1;
      MatchAllKeeps(key, row, older, newer, fps[..n], side, x);
      MatchGroupKeeps(key, row, older, newer, fps[n], side, x);
      PartsConcat(MatchAll(key, row, older, newer, fps[..n]), MatchGroup(key, row, older, newer, fps[n]), side);
      assert fps == fps[..n] + [fps[n]];
    }
  }

  lemma FingerprintPresent<T>(key: T -> Text, xs: seq<T>, x: T)
    ensures multiset(xs)[x] > 0 ==> key(x) in FingerprintsOf(key, xs)
  {
    if multiset(xs)[x] > 0 {
      assert x in xs;
      var i :| 0 <= i < |xs| && xs[i] == x;
      assert key(xs[i]) in FingerprintsOf(key, xs);
    }
  }

  /** Every occurrence of either input appears in exactly one result. */
  lemma MatchesConserve<T>(key: T -> Text, row: T -> Row, older: seq<T>, newer: seq<T>, side: Side)
    ensures multiset(Parts(Matches(key, row, older, newer), side)) == multiset(Input(older, newer, side))
  {
    var all := FingerprintsOf(key, older) + FingerprintsOf(key, newer);
    var a, b := multiset(Parts(Matches(key, row, older, newer), side)), multiset(Input(older, newer, side));
    AscendingInOrder(all);
    InOrderIsDistinct(Ascending(all), all);
    forall x: T | x in a + b ensures a[x] == b[x] {
      MatchAllKeeps(key, row, older, newer, Ascending(all), side, x);
      FingerprintPresent(key, Input(older, newer, side), x);
    }
    SameMultiset(a, b);
  }

  lemma SameMultiset<T>(a: multiset<T>, b: multiset<T>)
    requires forall x <- a + b :: a[x] == b[x]
    ensures a == b
  {
  }

  // ---- Pairs ----

  /** A result's status says which sides it has, and two sides share a fingerprint. */
  ghost predicate WellPaired<T>(key: T -> Text, r: ComparisonFindingResult<T>) {
    match r.status
    case Persistent => r.olderFinding.Some? && r.newerFinding == Some(r.displayFinding) && key(r.olderFinding.value) == key(r.displayFinding)
    case Resolved => r.olderFinding == Some(r.displayFinding) && r.newerFinding.None?
    case New => r.olderFinding.None? && r.newerFinding == Some(r.displayFinding)
  }

  lemma SortedGroupMembers<T>(key: T -> Text, row: T -> Row, xs: seq<T>, fp: Text)
    ensures forall x <- Sort(row, Group(key, xs, fp)) :: key(x) == fp
  {
    SortSorts(row, Group(key, xs, fp));
    GroupMembers(key, xs, fp);
    forall x | x in Sort(row, Group(key, xs, fp)) ensures key(x) == fp {
      assert x in multiset(Sort(row, Group(key, xs, fp)));
      assert x in multiset(Group(key, xs, fp));
    }
  }

  lemma PairUpWellPaired<T>(key: T -> Text, os: seq<T>, ns: seq<T>, fp: Text)
    requires (forall x <- os :: key(x) == fp) && (forall x <- ns :: key(x) == fp)
    ensures forall r <- PairUp(os, ns) :: WellPaired(key, r)
  {
    var k := Min(|os|, |ns|);
    forall r | r in Pairs(os[..k], ns[..k]) ensures WellPaired(key, r) {
      var i :| 0 <= i < k && r == PersistentResult(os[i], ns[i]);
      assert os[i] in os && ns[i] in ns;
    }
  }

  lemma {:induction false} MatchAllWellPaired<T>(key: T -> Text, row: T -> Row, older: seq<T>, newer: seq<T>, fps: seq<Text>)
    ensures forall r <- MatchAll(key, row, older, newer, fps) :: WellPaired(key, r)
  {
    if fps != [] {
      var n := |fps| - 1;
      MatchAllWellPaired(key, row, older, newer, fps[..n]);
      SortedGroupMembers(key, row, older, fps[n]);
      SortedGroupMembers(key, row, newer, fps[n]);
      PairUpWellPaired(key, Sort(row, Group(key, older, fps[n])), Sort(row, Group(key, newer, fps[n])), fps[n]);
    }
  }

  lemma MatchesWellPaired<T>(key: T -> Text, row: T -> Row, older: seq<T>, newer: seq<T>)
    ensures forall r <- Matches(key, row, older, newer) :: WellPaired(key, r)
  {
    MatchAllWellPaired(key, row, older, newer, AllFingerprints(key, older, newer));
  }

  // ---- Totals ----

  /** How many results of a status one fingerprint must give: pairs, and what either side has too many of. */
  function Due<T>(key: T -> Text, older: seq<T>, newer: seq<T>, fp: Text, status: ComparisonStatus): nat {
    var o, n := |Group(key, older, fp)|, |Group(key, newer, fp)|;
    match status
    case Persistent => Min(o, n)
    case Resolved => o - Min(o, n)
    case New => n - Min(o, n)
  }

  function Sum<T>(key: T -> Text, older: seq<T>, newer: seq<T>, fps: seq<Text>, status: ComparisonStatus): nat {
    if fps == [] then 0
    else
      var n := |fps| - 1;
      Sum(key, older, newer, fps[..n], status) + Due(key, older, newer, fps[n], status)
  }

  lemma {:induction false} TallyConcat<T>(rs: seq<ComparisonFindingResult<T>>, ss: seq<ComparisonFindingResult<T>>, status: ComparisonStatus)
    ensures Tally(rs + ss, status) == Tally(rs, status) + Tally(ss, status)
    decreases |ss|
  {
    if ss == [] {
      assert rs + ss == rs;
    } else {
      var n := |ss| - 1;
      TallyConcat(rs, ss[..n], status);
      assert (rs + ss)[..|rs| + n] == rs + ss[..n];
    }
  }

  lemma {:induction false} TallyUniform<T>(rs: seq<ComparisonFindingResult<T>>, was: ComparisonStatus, status: ComparisonStatus)
    requires forall i :: 0 <= i < |rs| ==> rs[i].status == was
    ensures Tally(rs, status) == if was == status then |rs| else 0
  {
    if rs != [] { TallyUniform(rs[..|rs| - 1], was, status); }
  }

  lemma TallyPairUp<T>(os: seq<T>, ns: seq<T>, status: ComparisonStatus)
    ensures var k := Min(|os|, |ns|);
            Tally(PairUp(os, ns), status) == match status case Persistent => k case Resolved => |os| - k case New => |ns| - k
  {
    var k := Min(|os|, |ns|);
    var a, b, c := Pairs(os[..k], ns[..k]), AllResolved(os[k..]), AllNew(ns[k..]);
    TallyConcat(a + b, c, status);
    TallyConcat(a, b, status);
    TallyUniform(a, Persistent, status);
    TallyUniform(b, Resolved, status);
    TallyUniform(c, New, status);
  }

  lemma {:induction false} TallyMatchAll<T>(key: T -> Text, row: T -> Row, older: seq<T>, newer: seq<T>, fps: seq<Text>, status: ComparisonStatus)
    ensures Tally(MatchAll(key, row, older, newer, fps), status) == Sum(key, older, newer, fps, status)
  {
    if fps != [] {
      var n := |fps| - 1;
      TallyMatchAll(key, row, older, newer, fps[..n], status);
      TallyConcat(MatchAll(key, row, older, newer, fps[..n]), MatchGroup(key, row, older, newer, fps[n]), status);
      SameSize(row, Group(key, older, fps[n]));
      SameSize(row, Group(key, newer, fps[n]));
      TallyPairUp(Sort(row, Group(key, older, fps[n])), Sort(row, Group(key, newer, fps[n])), status);
    }
  }

  lemma SameSize<T>(row: T -> Row, xs: seq<T>)
    ensures |Sort(row, xs)| == |xs|
  {
    SortSorts(row, xs);
    assert |multiset(Sort(row, xs))| == |Sort(row, xs)| && |multiset(xs)| == |xs|;
  }

  /** The totals are the sums, over all fingerprints, of min(o, n), of o beyond n, and of n beyond o. */
  lemma TotalsAreSums<T>(key: T -> Text, row: T -> Row, older: seq<T>, newer: seq<T>, status: ComparisonStatus)
    ensures Tally(Matches(key, row, older, newer), status) == Sum(key, older, newer, AllFingerprints(key, older, newer), status)
  {
    TallyMatchAll(key, row, older, newer, AllFingerprints(key, older, newer), status);
  }

  // ---- Order of the inputs ----

  /** Items with one fingerprint and one row are the same item. */
  ghost predicate Distinguishes<T(!new)>(key: T -> Text, row: T -> Row) {
    forall x, y {:trigger row(x), row(y)} :: key(x) == key(y) && row(x) == row(y) ==> x == y
  }

  lemma SortedGroupsAgree<T(!new)>(key: T -> Text, row: T -> Row, xs: seq<T>, ys: seq<T>, fp: Text)
    requires multiset(xs) == multiset(ys) && Distinguishes(key, row)
    ensures Sort(row, Group(key, xs, fp)) == Sort(row, Group(key, ys, fp))
  {
    forall x: T ensures multiset(Group(key, xs, fp))[x] == multiset(Group(key, ys, fp))[x] {
      GroupElements(key, xs, fp, x);
      GroupElements(key, ys, fp, x);
    }
    assert multiset(Group(key, xs, fp)) == multiset(Group(key, ys, fp));
    GroupMembers(key, xs, fp);
    SortForgetsOrder(row, Group(key, xs, fp), Group(key, ys, fp));
  }

  lemma {:induction false} MatchAllAgree<T(!new)>(key: T -> Text, row: T -> Row, older: seq<T>, newer: seq<T>, older': seq<T>, newer': seq<T>, fps: seq<Text>)
    requires multiset(older) == multiset(older') && multiset(newer) == multiset(newer') && Distinguishes(key, row)
    ensures MatchAll(key, row, older, newer, fps) == MatchAll(key, row, older', newer', fps)
  {
    if fps != [] {
      var n := |fps| - 1;
      MatchAllAgree(key, row, older, newer, older', newer', fps[..n]);
      SortedGroupsAgree(key, row, older, older', fps[n]);
      SortedGroupsAgree(key, row, newer, newer', fps[n]);
    }
  }

  lemma FingerprintsAgree<T>(key: T -> Text, xs: seq<T>, ys: seq<T>)
    requires multiset(xs) == multiset(ys)
    ensures FingerprintsOf(key, xs) <= FingerprintsOf(key, ys)
  {
    forall fp | fp in FingerprintsOf(key, xs) ensures fp in FingerprintsOf(key, ys) {
      var i :| 0 <= i < |xs| && key(xs[i]) == fp;
      assert xs[i] in multiset(ys);
      var j :| 0 <= j < |ys| && ys[j] == xs[i];
    }
  }

  lemma AllFingerprintsAgree<T>(key: T -> Text, older: seq<T>, newer: seq<T>, older': seq<T>, newer': seq<T>)
    requires multiset(older) == multiset(older') && multiset(newer) == multiset(newer')
    ensures AllFingerprints(key, older, newer) == AllFingerprints(key, older', newer')
  {
    FingerprintsAgree(key, older, older');
    FingerprintsAgree(key, older', older);
    FingerprintsAgree(key, newer, newer');
    FingerprintsAgree(key, newer', newer);
    assert FingerprintsOf(key, older) + FingerprintsOf(key, newer) == FingerprintsOf(key, older') + FingerprintsOf(key, newer');
  }

  /** Reordering either input changes no result and not even the order of the results. */
  lemma MatchesForgetOrder<T(!new)>(key: T -> Text, row: T -> Row, older: seq<T>, newer: seq<T>, older': seq<T>, newer': seq<T>)
    requires multiset(older) == multiset(older') && multiset(newer) == multiset(newer') && Distinguishes(key, row)
    ensures Matches(key, row, older, newer) == Matches(key, row, older', newer')
  {
    AllFingerprintsAgree(key, older, newer, older', newer');
    MatchAllAgree(key, row, older, newer, older', newer', AllFingerprints(key, older, newer));
  }

  // ---- Swapping the inputs ----

  function Swap<T>(r: ComparisonFindingResult<T>): ComparisonFindingResult<T> {
    match r.status
    case Persistent => r.(displayFinding := if r.olderFinding.Some? then r.olderFinding.value else r.displayFinding,
                          olderFinding := r.newerFinding, newerFinding := r.olderFinding)
    case Resolved => r.(status := New, olderFinding := None, newerFinding := r.olderFinding)
    case New => r.(status := Resolved, olderFinding := r.newerFinding, newerFinding := None)
  }

  function SwapAll<T>(rs: seq<ComparisonFindingResult<T>>): seq<ComparisonFindingResult<T>> {
    seq(|rs|, i requires 0 <= i < |rs| => Swap(rs[i]))
  }

  lemma PairUpSwaps<T>(os: seq<T>, ns: seq<T>)
    ensures PairUp(ns, os) == SwapAll(PairUp(os, ns))
  {
    var rs, ss := PairUp(os, ns), PairUp(ns, os);
    var k := Min(|os|, |ns|);
    assert |rs| == |ss|;
    forall i | 0 <= i < |rs| ensures ss[i] == Swap(rs[i]) {
      if i < k {
        assert rs[i] == PersistentResult(os[i], ns[i]) && ss[i] == PersistentResult(ns[i], os[i]);
      } else if |os| == k {
        assert rs[i] == NewResult(ns[i]) && ss[i] == ResolvedResult(ns[i]);
      } else {
        assert rs[i] == ResolvedResult(os[i]) && ss[i] == NewResult(os[i]);
      }
    }
  }

  lemma {:induction false} MatchAllSwaps<T>(key: T -> Text, row: T -> Row, older: seq<T>, newer: seq<T>, fps: seq<Text>)
    ensures MatchAll(key, row, newer, older, fps) == SwapAll(MatchAll(key, row, older, newer, fps))
  {
    if fps != [] {
      var n := |fps| - 1;
      MatchAllSwaps(key, row, older, newer, fps[..n]);
      PairUpSwaps(Sort(row, Group(key, older, fps[n])), Sort(row, Group(key, newer, fps[n])));
      SwapConcat(MatchAll(key, row, older, newer, fps[..n]), MatchGroup(key, row, older, newer, fps[n]));
    }
  }

  lemma SwapConcat<T>(rs: seq<ComparisonFindingResult<T>>, ss: seq<ComparisonFindingResult<T>>)
    ensures SwapAll(rs + ss) == SwapAll(rs) + SwapAll(ss)
  {
  }

  /** Swapping the inputs swaps new with resolved and the sides of every pair, in place. */
  lemma MatchesSwap<T>(key: T -> Text, row: T -> Row, older: seq<T>, newer: seq<T>)
    ensures Matches(key, row, newer, older) == SwapAll(Matches(key, row, older, newer))
  {
    assert FingerprintsOf(key, newer) + FingerprintsOf(key, older) == FingerprintsOf(key, older) + FingerprintsOf(key, newer);
    MatchAllSwaps(key, row, older, newer, AllFingerprints(key, older, newer));
  }

  // ---- Reports ----

  function SeverityRank(s: Severity): int {
    match s case Critical => 0 case High => 1 case Medium => 2 case Low => 3
  }

  function OrEmpty(f: Field): Units { if f.Some? then f.value else [] }

  function ResourceIdentityFields(f: Finding): Row {
    match f
    case KubernetesFinding(_, _, _, _, _, _, _, _, _, _, _, _, _) => [f.namespace, f.resourceKind, f.resourceName, OrEmpty(f.containerName)]
    case GitLabFinding(_, _, _, _, _, _, _, _, _, _, _, _) => [f.projectPath, f.resourceKind, f.resourceName, OrEmpty(f.jobName)]
  }

  /** The "checkId" comparator chain of sortFindings as a row: one entry per comparator, compared in turn. */
  function ByCheckId(f: Finding): Row {
    [f.checkId, [SeverityRank(f.severity)]] + ResourceIdentityFields(f)
    + [f.title, f.evidence, f.impact, f.recommendation, f.auditedAt, [if f.autoRemediable then 1 else 0]]
  }

  function FingerprintText(f: Finding): Text { ComputeFingerprint(f) }

  lemma ChainIdentifies(a: Finding, b: Finding)
    requires SameIdentity(a, b) && ByCheckId(a) == ByCheckId(b)
    ensures a == b
  {
    var x, y := ByCheckId(a), ByCheckId(b);
    assert x[1] == y[1] && x[6] == y[6] && x[7] == y[7] && x[8] == y[8] && x[9] == y[9] && x[10] == y[10] && x[11] == y[11];
    assert x[1][0] == y[1][0] && x[11][0] == y[11][0];
  }

  /** Within one fingerprint the comparator chain ties only identical findings. */
  lemma FindingsDistinguished()
    ensures Distinguishes(FingerprintText, ByCheckId)
  {
    forall x, y {:trigger ByCheckId(x), ByCheckId(y)} | FingerprintText(x) == FingerprintText(y) && ByCheckId(x) == ByCheckId(y) ensures x == y {
      FingerprintsIdentify(x, y);
      ChainIdentifies(x, y);
    }
  }

  /** The matching half of a comparison, with its totals. */
  method CompareFindings(older: seq<Finding>, newer: seq<Finding>)
    returns (results: seq<ComparisonFindingResult<Finding>>, totals: StatusTotals)
    ensures results == Matches(FingerprintText, ByCheckId, older, newer)
    ensures totals == StatusTotals(Tally(results, New), Tally(results, Persistent), Tally(results, Resolved))
  {
    results := MatchFindings(FingerprintText, ByCheckId, older, newer);
    totals := ComputeStatusTotals(results);
  }

  /** Comparing the same findings in any order gives the same results in the same order. */
  lemma ComparisonForgetsOrder(older: seq<Finding>, newer: seq<Finding>, older': seq<Finding>, newer': seq<Finding>)
    requires multiset(older) == multiset(older') && multiset(newer) == multiset(newer')
    ensures Matches(FingerprintText, ByCheckId, older, newer) == Matches(FingerprintText, ByCheckId, older', newer')
  {
    FindingsDistinguished();
    MatchesForgetOrder(FingerprintText, ByCheckId, older, newer, older', newer');
  }
}
