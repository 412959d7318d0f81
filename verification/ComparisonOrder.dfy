/**
 In which order a comparison lists its results, and which occurrences it pairs: within one fingerprint
 the first of either side with each other, so that the last of the longer side are left over.
 */
module ComparisonOrder {
  import opened Wrappers
  import opened JsonText
  import opened Ordering
  import opened Fingerprint
  import opened Matching
  import opened Compare

  /** The parts of two results, the first listed before the second, are in order where both have them. */
  predicate PartsInOrder<T>(row: T -> Row, a: Option<T>, b: Option<T>) {
    a.Some? && b.Some? ==> RowLeq(row(a.value), row(b.value))
  }

  /** What two results of one fingerprint, the first listed before the second, are to each other. */
  predicate Follows<T>(row: T -> Row, a: ComparisonFindingResult<T>, b: ComparisonFindingResult<T>) {
    && PartsInOrder(row, a.olderFinding, b.olderFinding) && PartsInOrder(row, a.newerFinding, b.newerFinding)
    && (b.status.Persistent? ==> a.status.Persistent?)
    && (a.status.Persistent? || a.status == b.status)
  }

  lemma SortedPart<T>(row: T -> Row, xs: seq<T>, i: nat, j: nat)
    requires i < j < |Sort(row, xs)|
    ensures RowLeq(row(Sort(row, xs)[i]), row(Sort(row, xs)[j]))
  {
    SortSorts(row, xs);
    SortedPairs(row, Sort(row, xs), i, j);
  }

  lemma PairsFollow<T>(row: T -> Row, os: seq<T>, ns: seq<T>, rs: seq<ComparisonFindingResult<T>>, i: nat, j: nat)
    requires PairsByIndex(os, ns, rs) && i < j < |rs|
    requires j < |os| ==> RowLeq(row(os[i]), row(os[j]))
    requires j < |ns| ==> RowLeq(row(ns[i]), row(ns[j]))
    ensures Follows(row, rs[i], rs[j])
  {
  }

  lemma PairUpFollows<T>(row: T -> Row, os: seq<T>, ns: seq<T>, i: nat, j: nat)
    requires i < j < |PairUp(Sort(row, os), Sort(row, ns))|
    ensures var rs := PairUp(Sort(row, os), Sort(row, ns)); Follows(row, rs[i], rs[j])
  {
    var xs, ys := Sort(row, os), Sort(row, ns);
    PairUpIndexed(xs, ys);
    if j < |xs| { SortedPart(row, os, i, j); }
    if j < |ys| { SortedPart(row, ns, i, j); }
    PairsFollow(row, xs, ys, PairUp(xs, ys), i, j);
  }

  lemma GroupKeys<T>(key: T -> Text, row: T -> Row, older: seq<T>, newer: seq<T>, fp: Text, r: ComparisonFindingResult<T>)
    requires r in MatchGroup(key, row, older, newer, fp)
    ensures key(r.displayFinding) == fp
  {
    SortedGroupMembers(key, row, older, fp);
    SortedGroupMembers(key, row, newer, fp);
    var os, ns := Sort(row, Group(key, older, fp)), Sort(row, Group(key, newer, fp));
    var rs := PairUp(os, ns);
    var i :| 0 <= i < |rs| && rs[i] == r;
    assert r.displayFinding in os || r.displayFinding in ns by {
      if i < |ns| { assert r.displayFinding == ns[i]; } else { assert r.displayFinding == os[i]; }
    }
  }

  lemma {:induction false} MatchAllKeys<T>(key: T -> Text, row: T -> Row, older: seq<T>, newer: seq<T>, fps: seq<Text>, r: ComparisonFindingResult<T>)
    requires r in MatchAll(key, row, older, newer, fps)
    ensures key(r.displayFinding) in fps
  {
    var n := |fps| - 1;
    if r in MatchAll(key, row, older, newer, fps[..n]) {
      MatchAllKeys(key, row, older, newer, fps[..n], r);
    } else {
      GroupKeys(key, row, older, newer, fps[n], r);
    }
  }

  /** Results are listed by fingerprint, in code-unit order; those of one fingerprint follow each other as pairs and leftovers. */
  ghost predicate Listed<T>(key: T -> Text, row: T -> Row, a: ComparisonFindingResult<T>, b: ComparisonFindingResult<T>) {
    TextLeq(key(a.displayFinding), key(b.displayFinding)) && (key(a.displayFinding) == key(b.displayFinding) ==> Follows(row, a, b))
  }

  lemma LastFingerprint(fps: seq<Text>, fp: Text)
    requires fps != [] && Sorted(Itself, fps) && Distinct(fps) && fp in fps[..|fps| - 1]
    ensures TextLeq(fp, fps[|fps| - 1]) && fp != fps[|fps| - 1]
  {
    var n := |fps| - 1;
    var i :| 0 <= i < n && fps[i] == fp;
    SortedPairs(Itself, fps, i, n);
    assert Itself(fps[i])[0] == fps[i] && Itself(fps[n])[0] == fps[n];
  }

  lemma {:induction false} SortedPrefix<T>(row: T -> Row, xs: seq<T>)
    requires Sorted(row, xs) && xs != []
    ensures Sorted(row, xs[..|xs| - 1])
  {
    if |xs| > 1 {
      SortedPrefix(row, xs[1..]);
      assert xs[1..][..|xs| - 2] == xs[..|xs| - 1][1..];
    }
  }

  lemma ListedTogether<T>(key: T -> Text, row: T -> Row, older: seq<T>, newer: seq<T>, fp: Text, i: nat, j: nat)
    requires i < j < |MatchGroup(key, row, older, newer, fp)|
    ensures var rs := MatchGroup(key, row, older, newer, fp); Listed(key, row, rs[i], rs[j])
  {
    var rs := MatchGroup(key, row, older, newer, fp);
    GroupKeys(key, row, older, newer, fp, rs[i]);
    GroupKeys(key, row, older, newer, fp, rs[j]);
    PairUpFollows(row, Group(key, older, fp), Group(key, newer, fp), i, j);
    TextTotal(fp, fp);
  }

  lemma ListedApart<T>(key: T -> Text, row: T -> Row, older: seq<T>, newer: seq<T>, fps: seq<Text>,
                       a: ComparisonFindingResult<T>, b: ComparisonFindingResult<T>)
    requires fps != [] && Sorted(Itself, fps) && Distinct(fps)
    requires a in MatchAll(key, row, older, newer, fps[..|fps| - 1]) && b in MatchGroup(key, row, older, newer, fps[|fps| - 1])
    ensures Listed(key, row, a, b)
  {
    var n := |fps| - 1;
    GroupKeys(key, row, older, newer, fps[n], b);
    MatchAllKeys(key, row, older, newer, fps[..n], a);
    LastFingerprint(fps, key(a.displayFinding));
  }

  lemma {:induction false} MatchAllListed<T>(key: T -> Text, row: T -> Row, older: seq<T>, newer: seq<T>, fps: seq<Text>, i: nat, j: nat)
    requires Sorted(Itself, fps) && Distinct(fps) && i < j < |MatchAll(key, row, older, newer, fps)|
    ensures var rs := MatchAll(key, row, older, newer, fps); Listed(key, row, rs[i], rs[j])
  {
    var n := |fps| - 1;
    var before, last := MatchAll(key, row, older, newer, fps[..n]), MatchGroup(key, row, older, newer, fps[n]);
    var m := |before|;
    if j < m {
      SortedPrefix(Itself, fps);
      MatchAllListed(key, row, older, newer, fps[..n], i, j);
    } else if i < m {
      ListedApart(key, row, older, newer, fps, before[i], last[j - m]);
    } else {
      ListedTogether(key, row, older, newer, fps[n], i - m, j - m);
    }
  }

  lemma MatchesListed<T>(key: T -> Text, row: T -> Row, older: seq<T>, newer: seq<T>, i: nat, j: nat)
    requires i < j < |Matches(key, row, older, newer)|
    ensures var rs := Matches(key, row, older, newer); Listed(key, row, rs[i], rs[j])
  {
    var all := FingerprintsOf(key, older) + FingerprintsOf(key, newer);
    AscendingInOrder(all);
    InOrderIsDistinct(Ascending(all), all);
    MatchAllListed(key, row, older, newer, AllFingerprints(key, older, newer), i, j);
  }

  // ---- The order of findings, on their fields ----

  predicate MoreSevere(a: Severity, b: Severity) {
    match a
    case Critical => !b.Critical?
    case High => b.Medium? || b.Low?
    case Medium => b.Low?
    case Low => false
  }

  /** a comes before b in code-unit order. */
  ghost predicate Smaller(a: Units, b: Units) { exists n: nat :: SmallerAt(a, b, n) }

  /** Of two findings about one condition: the more severe first, then by title, evidence, impact, recommendation, time and remedy. */
  ghost predicate NoLater(a: Finding, b: Finding) {
    if a.severity != b.severity then MoreSevere(a.severity, b.severity)
    else if a.title != b.title then Smaller(a.title, b.title)
    else if a.evidence != b.evidence then Smaller(a.evidence, b.evidence)
    else if a.impact != b.impact then Smaller(a.impact, b.impact)
    else if a.recommendation != b.recommendation then Smaller(a.recommendation, b.recommendation)
    else if a.auditedAt != b.auditedAt then Smaller(a.auditedAt, b.auditedAt)
    else a.autoRemediable ==> b.autoRemediable
  }

  lemma FirstColumn(x: Text, xs: Row, y: Text, ys: Row)
    ensures RowLeq([x] + xs, [y] + ys) <==> if x == y then RowLeq(xs, ys) else TextLeq(x, y)
  {
    assert ([x] + xs)[1..] == xs && ([y] + ys)[1..] == ys;
  }

  lemma {:induction false} SameColumns(p: Row, xs: Row, ys: Row)
    ensures RowLeq(p + xs, p + ys) <==> RowLeq(xs, ys)
  {
    if p == [] {
      assert p + xs == xs && p + ys == ys;
    } else {
      SameColumns(p[1..], xs, ys);
      assert p + xs == [p[0]] + (p[1..] + xs) && p + ys == [p[0]] + (p[1..] + ys);
      FirstColumn(p[0], p[1..] + xs, p[0], p[1..] + ys);
    }
  }

  /** One more comparator in front of a chain. */
  lemma ColumnStep(x: Text, y: Text, xs: Row, ys: Row)
    ensures RowLeq([x] + xs, [y] + ys) <==> if x != y then exists n: nat :: SmallerAt(x, y, n) else RowLeq(xs, ys)
  {
    FirstColumn(x, xs, y, ys);
    TextLeqExactly(x, y);
  }

  function Flag(b: bool): Text { [if b then 1 else 0] }

  /** The tail all findings share, comparator by comparator. */
  function Tail(f: Finding): Row { [f.title] + ([f.evidence] + ([f.impact] + ([f.recommendation] + ([f.auditedAt] + [Flag(f.autoRemediable)])))) }

  lemma FlagsOrder(a: bool, b: bool)
    ensures RowLeq([Flag(a)], [Flag(b)]) <==> (a ==> b)
  {
    FirstColumn(Flag(a), [], Flag(b), []);
    assert [Flag(a)] + [] == [Flag(a)] && [Flag(b)] + [] == [Flag(b)];
    assert Flag(a)[0] != Flag(b)[0] <==> a != b;
    assert Flag(a)[1..] == [] && Flag(b)[1..] == [];
  }

  lemma TailOrders(a: Finding, b: Finding)
    requires a.severity == b.severity
    ensures RowLeq(Tail(a), Tail(b)) <==> NoLater(a, b)
  {
    var x1, y1 := [Flag(a.autoRemediable)], [Flag(b.autoRemediable)];
    var x2, y2 := [a.auditedAt] + x1, [b.auditedAt] + y1;
    var x3, y3 := [a.recommendation] + x2, [b.recommendation] + y2;
    var x4, y4 := [a.impact] + x3, [b.impact] + y3;
    var x5, y5 := [a.evidence] + x4, [b.evidence] + y4;
    FlagsOrder(a.autoRemediable, b.autoRemediable);
    ColumnStep(a.auditedAt, b.auditedAt, x1, y1);
    ColumnStep(a.recommendation, b.recommendation, x2, y2);
    ColumnStep(a.impact, b.impact, x3, y3);
    ColumnStep(a.evidence, b.evidence, x4, y4);
    ColumnStep(a.title, b.title, x5, y5);
  }

  /** Within one fingerprint the comparator chain is the order on the fields. */
  lemma ChainOrders(a: Finding, b: Finding)
    requires SameIdentity(a, b)
    ensures RowLeq(ByCheckId(a), ByCheckId(b)) <==> NoLater(a, b)
  {
    var s, t := [SeverityRank(a.severity)], [SeverityRank(b.severity)];
    var ids := ResourceIdentityFields(a);
    assert ids == ResourceIdentityFields(b);
    assert ByCheckId(a) == [a.checkId] + ([s] + (ids + Tail(a)));
    assert ByCheckId(b) == [a.checkId] + ([t] + (ids + Tail(b)));
    SameColumns([a.checkId], [s] + (ids + Tail(a)), [t] + (ids + Tail(b)));
    FirstColumn(s, ids + Tail(a), t, ids + Tail(b));
    SameColumns(ids, Tail(a), Tail(b));
    assert s == t <==> a.severity == b.severity by { assert s[0] == SeverityRank(a.severity) && t[0] == SeverityRank(b.severity); }
    if a.severity == b.severity { TailOrders(a, b); } else { assert s[1..] == [] && t[1..] == []; }
  }

  /** The parts of two results about one condition are in the order of the fields. */
  ghost predicate InFieldOrder(a: Option<Finding>, b: Option<Finding>) { a.Some? && b.Some? ==> NoLater(a.value, b.value) }

  /**
   Of two results of a comparison about one condition, pairs come before leftovers and leftovers are of one side
   only; the older findings, and the newer ones, come in the order of their fields: so the first of either side are
   the ones paired, and the last of the longer side are the ones left over.
   */
  lemma ComparisonPairsFirst(older: seq<Finding>, newer: seq<Finding>, i: nat, j: nat)
    requires i < j < |Matches(FingerprintText, ByCheckId, older, newer)|
    ensures var rs := Matches(FingerprintText, ByCheckId, older, newer);
      && (FingerprintText(rs[i].displayFinding) == FingerprintText(rs[j].displayFinding)
          || exists n: nat :: SmallerAt(FingerprintText(rs[i].displayFinding), FingerprintText(rs[j].displayFinding), n))
      && (SameIdentity(rs[i].displayFinding, rs[j].displayFinding) ==>
            && InFieldOrder(rs[i].olderFinding, rs[j].olderFinding) && InFieldOrder(rs[i].newerFinding, rs[j].newerFinding)
            && (rs[j].status.Persistent? ==> rs[i].status.Persistent?)
            && (rs[i].status.Persistent? || rs[i].status == rs[j].status))
  {
    var rs := Matches(FingerprintText, ByCheckId, older, newer);
    var a, b := rs[i], rs[j];
    MatchesListed(FingerprintText, ByCheckId, older, newer, i, j);
    TextLeqExactly(FingerprintText(a.displayFinding), FingerprintText(b.displayFinding));
    if SameIdentity(a.displayFinding, b.displayFinding) {
      FingerprintsIdentify(a.displayFinding, b.displayFinding);
      MatchesWellPaired(FingerprintText, ByCheckId, older, newer);
      PartOrder(a, b, a.olderFinding, b.olderFinding);
      PartOrder(a, b, a.newerFinding, b.newerFinding);
    }
  }

  lemma PartOrder(a: ComparisonFindingResult<Finding>, b: ComparisonFindingResult<Finding>, x: Option<Finding>, y: Option<Finding>)
    requires WellPaired(FingerprintText, a) && WellPaired(FingerprintText, b)
    requires FingerprintText(a.displayFinding) == FingerprintText(b.displayFinding)
    requires (x == a.olderFinding && y == b.olderFinding) || (x == a.newerFinding && y == b.newerFinding)
    requires PartsInOrder(ByCheckId, x, y)
    ensures InFieldOrder(x, y)
  {
    if x.Some? && y.Some? {
      FingerprintsIdentify(x.value, y.value);
      ChainOrders(x.value, y.value);
    }
  }
}
