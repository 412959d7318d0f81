/**
 Forward-only schema migrations and the deployment gate
 (src/cloudops_guard/ingestion_azure/migration_runner.py, scripts/check_migration_compatibility.py).
 */
module Migrations {
  import opened Wrappers
  import opened Ordering

  datatype MigrationFile = MigrationFile(version: nat, name: string, checksum: string)

  // ---- load_migration_files ----

  function ByVersion(m: MigrationFile): Row { [[m.version]] }

  /** Strictly ascending versions: what loading guarantees. */
  predicate Ascending(ms: seq<MigrationFile>) {
    forall i, j :: 0 <= i < j < |ms| ==> ms[i].version < ms[j].version
  }

  predicate DistinctVersions(ms: seq<MigrationFile>) {
    forall i, j :: 0 <= i < j < |ms| ==> ms[i].version != ms[j].version
  }

  /** Goes through the versions with a set of those seen. */
  method RepeatsVersion(ms: seq<MigrationFile>) returns (repeats: bool)
    ensures repeats <==> !DistinctVersions(ms)
  {
    var seen: set<nat> := {};
    for i := 0 to |ms|
      invariant forall j :: 0 <= j < i ==> ms[j].version in seen
      invariant forall v <- seen :: exists j :: 0 <= j < i && ms[j].version == v
      invariant forall j, k :: 0 <= j < k < i ==> ms[j].version != ms[k].version
    {
      if ms[i].version in seen { return true; }
      seen := seen + {ms[i].version};
    }
    return false;
  }

  /** Sorts by version and rejects duplicates (None). */
  method LoadMigrationFiles(entries: seq<MigrationFile>) returns (r: Option<seq<MigrationFile>>)
    ensures r.Some? <==> DistinctVersions(entries)
    ensures r.Some? ==> Ascending(r.value) && multiset(r.value) == multiset(entries)
  {
    var migrations := Sort(ByVersion, entries);
    SortSorts(ByVersion, entries);
    SortedVersions(migrations);
    if DistinctVersions(entries) { DistinctInAnyOrder(entries, migrations); }
    if DistinctVersions(migrations) { DistinctInAnyOrder(migrations, entries); }
    var repeats := RepeatsVersion(migrations);
    if repeats { return None; }
    return Some(migrations);
  }

  lemma {:induction false} SortedVersions(ms: seq<MigrationFile>)
    requires Sorted(ByVersion, ms)
    ensures forall i, j :: 0 <= i < j < |ms| ==> ms[i].version <= ms[j].version
  {
    if ms != [] {
      SortedVersions(ms[1..]);
      forall i, j | 0 <= i < j < |ms| ensures ms[i].version <= ms[j].version {
        if i == 0 {
          assert ms[j] in ms[1..];
          assert RowLeq(ByVersion(ms[0]), ByVersion(ms[j]));
          assert ByVersion(ms[0])[0] == [ms[0].version] && ByVersion(ms[j])[0] == [ms[j].version];
        } else {
          assert ms[1..][i - 1] == ms[i] && ms[1..][j - 1] == ms[j];
        }
      }
    }
  }

  function VersionCount(ms: seq<MigrationFile>, v: nat): nat {
    if ms == [] then 0 else (if ms[0].version == v then 1 else 0) + VersionCount(ms[1..], v)
  }

  lemma {:induction false} CountRemoved(ms: seq<MigrationFile>, i: nat, v: nat)
    requires i < |ms|
    ensures VersionCount(ms, v) == VersionCount(Without(ms, i), v) + if ms[i].version == v then 1 else 0
  {
    if i > 0 {
      CountRemoved(ms[1..], i - 1, v);
      assert Without(ms, i)[1..] == Without(ms[1..], i - 1) && Without(ms, i)[0] == ms[0];
    } else {
      assert Without(ms, 0) == ms[1..];
    }
  }

  function Without(ms: seq<MigrationFile>, i: nat): seq<MigrationFile>
    requires i < |ms|
  {
    ms[..i] + ms[i + 1..]
  }

  lemma WithoutSame(ms: seq<MigrationFile>, ns: seq<MigrationFile>, i: nat)
    requires multiset(ms) == multiset(ns) && ms != [] && i < |ns| && ns[i] == ms[0]
    ensures multiset(ms[1..]) == multiset(Without(ns, i))
  {
    assert ns == ns[..i] + [ns[i]] + ns[i + 1..];
    assert multiset(Without(ns, i)) == multiset(ns) - multiset{ns[i]};
    assert ms == [ms[0]] + ms[1..];
    assert multiset(ms[1..]) == multiset(ms) - multiset{ms[0]};
  }

  lemma {:induction false} SameCounts(ms: seq<MigrationFile>, ns: seq<MigrationFile>, v: nat)
    requires multiset(ms) == multiset(ns)
    ensures VersionCount(ms, v) == VersionCount(ns, v)
    decreases |ms|
  {
    if ms == [] {
      assert |multiset(ms)| == |ms| && |multiset(ns)| == |ns|;
    } else {
      assert ms[0] in multiset(ns);
      var i: nat :| i < |ns| && ns[i] == ms[0];
      WithoutSame(ms, ns, i);
      SameCounts(ms[1..], Without(ns, i), v);
      CountRemoved(ns, i, v);
    }
  }

  lemma {:induction false} TwiceCounts(ms: seq<MigrationFile>, i: nat, j: nat)
    requires i < j < |ms| && ms[i].version == ms[j].version
    ensures VersionCount(ms, ms[i].version) >= 2
  {
    CountRemoved(ms, j, ms[i].version);
    var rest := Without(ms, j);
    assert rest[i] == ms[i];
    CountRemoved(rest, i, ms[i].version);
  }

  lemma {:induction false} DistinctCounts(ms: seq<MigrationFile>, v: nat)
    requires forall i, j :: 0 <= i < j < |ms| ==> ms[i].version != ms[j].version
    ensures VersionCount(ms, v) <= 1
    ensures VersionCount(ms, v) == 1 ==> exists i :: 0 <= i < |ms| && ms[i].version == v
  {
    if ms != [] {
      DistinctCounts(ms[1..], v);
      if VersionCount(ms[1..], v) == 1 {
        var i :| 0 <= i < |ms[1..]| && ms[1..][i].version == v;
        assert ms[i + 1].version == v;
      }
    }
  }

  /** Whether versions are distinct does not depend on the order of the files. */
  lemma DistinctInAnyOrder(ms: seq<MigrationFile>, ns: seq<MigrationFile>)
    requires multiset(ms) == multiset(ns) && DistinctVersions(ms)
    ensures DistinctVersions(ns)
  {
    forall i, j | 0 <= i < j < |ns| ensures ns[i].version != ns[j].version {
      if ns[i].version == ns[j].version {
        TwiceCounts(ns, i, j);
        SameCounts(ms, ns, ns[i].version);
        DistinctCounts(ms, ns[i].version);
      }
    }
  }

  // ---- run_migrations ----

  /** schema_migrations, and the migrations whose SQL has been committed, in order. */
  datatype Database = Database(applied: map<nat, string>, history: seq<nat>)

  function Commit(d: Database, m: MigrationFile): Database {
    Database(d.applied[m.version := m.checksum], d.history + [m.version])
  }

  datatype Outcome =
    | Finished
    | Drifted(version: nat)   // applied with other content than packaged
    | Interrupted             // a migration failed and was rolled back, or the process died

  datatype Run = Run(database: Database, newlyApplied: seq<nat>, outcome: Outcome)

  /** A run that is interrupted instead of making its (commits + 1)-th commit. */
  function Migrate(ms: seq<MigrationFile>, d: Database, commits: nat): Run {
    if ms == [] then Run(d, [], Finished)
    else
      var m := ms[0];
      if m.version in d.applied then
        if d.applied[m.version] != m.checksum then Run(d, [], Drifted(m.version)) else Migrate(ms[1..], d, commits)
      else if commits == 0 then Run(d, [], Interrupted)
      else
        var r := Migrate(ms[1..], Commit(d, m), commits - 1);
        r.(newlyApplied := [m.version] + r.newlyApplied)
  }

  lemma AscendingRest(ms: seq<MigrationFile>)
    requires Ascending(ms) && ms != []
    ensures Ascending(ms[1..]) && forall m <- ms[1..] :: m.version > ms[0].version
  {
    forall m | m in ms[1..] ensures m.version > ms[0].version {
      var i :| 0 <= i < |ms[1..]| && ms[1..][i] == m;
      assert ms[i + 1] == m;
    }
  }

  predicate StrictlyAscending(vs: seq<nat>) { forall i, j :: 0 <= i < j < |vs| ==> vs[i] < vs[j] }

  /** Packaged migration m is applied with its own checksum. */
  predicate Applied(m: MigrationFile, applied: map<nat, string>) { m.version in applied && applied[m.version] == m.checksum }

  /** What any run, however it ends, has executed: in order, once each, recorded, and nothing applied before. */
  ghost predicate Executed(ms: seq<MigrationFile>, d: Database, r: Run) {
    && r.database.history == d.history + r.newlyApplied
    && (forall v :: v in r.database.applied <==> v in d.applied || v in r.newlyApplied)
    && (forall v <- d.applied :: r.database.applied[v] == d.applied[v] && v !in r.newlyApplied)
    && StrictlyAscending(r.newlyApplied)
    && (forall v <- r.newlyApplied :: exists m <- ms :: m.version == v && Applied(m, r.database.applied))
  }

  /** Where a run stopped: everything packaged before that place is applied. */
  ghost predicate Stopped(ms: seq<MigrationFile>, d: Database, commits: nat, r: Run) {
    match r.outcome
    case Finished => forall m <- ms :: Applied(m, r.database.applied)
    case Drifted(v) =>
      exists i :: 0 <= i < |ms| && ms[i].version == v && v in d.applied && d.applied[v] != ms[i].checksum
                  && forall j :: 0 <= j < i ==> Applied(ms[j], r.database.applied)
    case Interrupted =>
      |r.newlyApplied| == commits &&
      exists i :: 0 <= i < |ms| && ms[i].version !in r.database.applied && forall j :: 0 <= j < i ==> Applied(ms[j], r.database.applied)
  }

  lemma AscendingInFront(v: nat, vs: seq<nat>)
    requires StrictlyAscending(vs) && forall w <- vs :: v < w
    ensures StrictlyAscending([v] + vs)
  {
    var all := [v] + vs;
    forall i, j | 0 <= i < j < |all| ensures all[i] < all[j] {
      if i == 0 { assert all[j] in vs; }
    }
  }

  lemma ExecutedFirst(ms: seq<MigrationFile>, d: Database, r: Run)
    requires ms != [] && Ascending(ms) && ms[0].version !in d.applied && Executed(ms[1..], Commit(d, ms[0]), r)
    ensures Executed(ms, d, r.(newlyApplied := [ms[0].version] + r.newlyApplied))
  {
    AscendingRest(ms);
    var m, e, all := ms[0], Commit(d, ms[0]), [ms[0].version] + r.newlyApplied;
    assert e.history + r.newlyApplied == d.history + all;
    forall v | v in r.newlyApplied ensures v > m.version && exists x <- ms :: x.version == v && Applied(x, r.database.applied) {
      var x :| x in ms[1..] && x.version == v && Applied(x, r.database.applied);
      assert x in ms;
    }
    AscendingInFront(m.version, r.newlyApplied);
    assert Applied(m, r.database.applied) by { assert m.version in e.applied; }
    assert m in ms;
    forall v | v in d.applied ensures r.database.applied[v] == d.applied[v] && v !in all { assert v in e.applied; }
  }

  lemma ExecutedLater(ms: seq<MigrationFile>, d: Database, r: Run)
    requires ms != [] && Executed(ms[1..], d, r)
    ensures Executed(ms, d, r)
  {
    forall v | v in r.newlyApplied ensures exists x <- ms :: x.version == v && Applied(x, r.database.applied) {
      var x :| x in ms[1..] && x.version == v && Applied(x, r.database.applied);
      assert x in ms;
    }
  }

  lemma StoppedLater(ms: seq<MigrationFile>, d: Database, e: Database, commits: nat, more: nat, r: Run, all: Run)
    requires ms != [] && Stopped(ms[1..], e, more, r) && Applied(ms[0], r.database.applied)
    requires all.database == r.database && all.outcome == r.outcome && |all.newlyApplied| - |r.newlyApplied| == commits - more
    requires forall m <- ms[1..] :: m.version in d.applied <==> m.version in e.applied
    requires forall v <- d.applied :: v in e.applied && e.applied[v] == d.applied[v]
    ensures Stopped(ms, d, commits, all)
  {
    match r.outcome
    case Finished => assert forall x <- ms :: x == ms[0] || x in ms[1..];
    case Drifted(v) =>
      var i :| 0 <= i < |ms[1..]| && ms[1..][i].version == v && v in e.applied && e.applied[v] != ms[1..][i].checksum
               && forall j :: 0 <= j < i ==> Applied(ms[1..][j], r.database.applied);
      assert ms[i + 1] == ms[1..][i] && ms[1..][i] in ms[1..];
      assert forall j :: 0 < j < i + 1 ==> ms[j] == ms[1..][j - 1];
    case Interrupted =>
      var i :| 0 <= i < |ms[1..]| && ms[1..][i].version !in r.database.applied
               && forall j :: 0 <= j < i ==> Applied(ms[1..][j], r.database.applied);
      assert ms[i + 1] == ms[1..][i];
      assert forall j :: 0 < j < i + 1 ==> ms[j] == ms[1..][j - 1];
  }

  /** However a run ends, its history, its table and its answer tell the same story. */
  lemma {:induction false} RunExecutes(ms: seq<MigrationFile>, d: Database, commits: nat)
    requires Ascending(ms)
    ensures Executed(ms, d, Migrate(ms, d, commits)) && Stopped(ms, d, commits, Migrate(ms, d, commits))
    decreases |ms|
  {
    if ms != [] {
      var m, all := ms[0], Migrate(ms, d, commits);
      AscendingRest(ms);
      if m.version in d.applied {
        if d.applied[m.version] == m.checksum {
          RunExecutes(ms[1..], d, commits);
          ExecutedLater(ms, d, all);
          StoppedLater(ms, d, d, commits, commits, all, all);
        }
      } else if commits > 0 {
        var r := Migrate(ms[1..], Commit(d, m), commits - 1);
        RunExecutes(ms[1..], Commit(d, m), commits - 1);
        ExecutedFirst(ms, d, r);
        assert m.version in Commit(d, m).applied;
        StoppedLater(ms, d, Commit(d, m), commits, commits - 1, r, all);
      }
    }
  }

  class MigrationRunner {
    var schemaMigrations: map<nat, string>
    var history: seq<nat>

    constructor ()
      ensures View() == Database(map[], [])
    {
      schemaMigrations := map[];
      history := [];
    }

    function View(): Database
      reads this
    {
      Database(schemaMigrations, history)
    }

    /** One run over the packaged migrations; what is applied already is read once, before the loop. */
    method RunMigrations(migrations: seq<MigrationFile>, commits: nat) returns (newlyApplied: seq<nat>, outcome: Outcome)
      requires Ascending(migrations)
      modifies this
      ensures Run(View(), newlyApplied, outcome) == Migrate(migrations, old(View()), commits)
    {
      var applied := schemaMigrations;
      ghost var start := View();
      newlyApplied := [];
      for i := 0 to |migrations|
        invariant |newlyApplied| <= commits
        invariant forall j :: i <= j < |migrations| ==>
          (migrations[j].version in schemaMigrations <==> migrations[j].version in applied)
          && (migrations[j].version in applied ==> schemaMigrations[migrations[j].version] == applied[migrations[j].version])
        invariant var rest := Migrate(migrations[i..], View(), commits - |newlyApplied|);
                  Migrate(migrations, start, commits) == rest.(newlyApplied := newlyApplied + rest.newlyApplied)
      {
        var m := migrations[i];
        assert migrations[i..][1..] == migrations[i + 1..];
        if m.version in applied {
          if applied[m.version] != m.checksum { return newlyApplied, Drifted(m.version); }
        } else {
          if |newlyApplied| == commits { return newlyApplied, Interrupted; }
          ghost var rest := Migrate(migrations[i + 1..], Commit(View(), m), commits - |newlyApplied| - 1);
          schemaMigrations := schemaMigrations[m.version := m.checksum];
          history := history + [m.version];
          assert newlyApplied + ([m.version] + rest.newlyApplied) == (newlyApplied + [m.version]) + rest.newlyApplied;
          newlyApplied := newlyApplied + [m.version];
        }
      }
      outcome := Finished;
    }
  }

  predicate Grows(d: Database, e: Database) {
    forall v <- d.applied :: v in e.applied && e.applied[v] == d.applied[v]
  }

  lemma {:induction false} MigrateGrows(ms: seq<MigrationFile>, d: Database, commits: nat)
    ensures Grows(d, Migrate(ms, d, commits).database)
    decreases |ms|
  {
    if ms != [] {
      var m := ms[0];
      if m.version in d.applied {
        MigrateGrows(ms[1..], d, commits);
      } else if commits > 0 {
        MigrateGrows(ms[1..], Commit(d, m), commits - 1);
      }
    }
  }

  /**
   However a run ends, running again (with commits enough to complete) comes to exactly what one
   uninterrupted run would have: the same table, the same SQL in the same order, the same verdict.
   */
  lemma {:induction false} RerunCompletes(ms: seq<MigrationFile>, d: Database, commits: nat, full: nat)
    requires full >= |ms|
    ensures var first := Migrate(ms, d, commits);
            var again := Migrate(ms, first.database, full);
            Migrate(ms, d, full) == again.(newlyApplied := first.newlyApplied + again.newlyApplied)
    decreases |ms|
  {
    if ms == [] {
    } else {
      var m := ms[0];
      var first := Migrate(ms, d, commits);
      MigrateGrows(ms, d, commits);
      if m.version in d.applied {
        if d.applied[m.version] == m.checksum { RerunCompletes(ms[1..], d, commits, full); }
      } else if commits > 0 {
        var e := Commit(d, m);
        MigrateGrows(ms[1..], e, commits - 1);
        RerunCompletes(ms[1..], e, commits - 1, full - 1);
        MoreCommitsSame(ms[1..], first.database, full - 1, full);
        var again := Migrate(ms, first.database, full);
        var tail := Migrate(ms[1..], e, commits - 1).newlyApplied;
        assert [m.version] + (tail + again.newlyApplied) == ([m.version] + tail) + again.newlyApplied;
      }
    }
  }

  lemma {:induction false} MoreCommitsSame(ms: seq<MigrationFile>, d: Database, a: nat, b: nat)
    requires |ms| <= a && |ms| <= b
    ensures Migrate(ms, d, a) == Migrate(ms, d, b)
    decreases |ms|
  {
    if ms != [] {
      MoreCommitsSame(ms[1..], d, a, b);
      MoreCommitsSame(ms[1..], Commit(d, ms[0]), a - 1, b - 1);
    }
  }

  /** The database after a series of runs, each interrupted wherever its budget says. */
  function AfterRuns(ms: seq<MigrationFile>, d: Database, budgets: seq<nat>): Database
    decreases |budgets|
  {
    if budgets == [] then d else AfterRuns(ms, Migrate(ms, d, budgets[0]).database, budgets[1..])
  }

  /** Any number of interrupted runs changes nothing about where a complete run ends. */
  lemma {:induction false} InterruptionsForgotten(ms: seq<MigrationFile>, d: Database, budgets: seq<nat>)
    ensures var once, last := Migrate(ms, d, |ms|), Migrate(ms, AfterRuns(ms, d, budgets), |ms|);
            once.database == last.database && once.outcome == last.outcome
    decreases |budgets|
  {
    if budgets != [] {
      RerunCompletes(ms, d, budgets[0], |ms|);
      InterruptionsForgotten(ms, Migrate(ms, d, budgets[0]).database, budgets[1..]);
    }
  }

  /** The table agrees with a packaged migration, as far as it has been applied. */
  predicate NoDrift(ms: seq<MigrationFile>, applied: map<nat, string>) {
    forall m <- ms :: m.version in applied ==> applied[m.version] == m.checksum
  }

  predicate AllApplied(ms: seq<MigrationFile>, applied: map<nat, string>) {
    forall m <- ms :: m.version in applied && applied[m.version] == m.checksum
  }

  predicate Mentions(ms: seq<MigrationFile>, v: nat) { exists m <- ms :: m.version == v }

  /** What an uninterrupted run comes to. */
  ghost predicate RunsToCompletion(ms: seq<MigrationFile>, d: Database, commits: nat) {
    var r := Migrate(ms, d, commits);
    && (r.outcome.Finished? <==> NoDrift(ms, d.applied))
    && (r.outcome.Finished? ==> AllApplied(ms, r.database.applied))
    && !r.outcome.Interrupted?
    && Grows(d, r.database)
    && (forall v <- r.database.applied :: v in d.applied || Mentions(ms, v))
  }

  lemma CompletesSkipping(ms: seq<MigrationFile>, d: Database, commits: nat)
    requires ms != [] && ms[0].version in d.applied && RunsToCompletion(ms[1..], d, commits)
    ensures RunsToCompletion(ms, d, commits)
  {
    var m, r := ms[0], Migrate(ms, d, commits);
    assert forall x <- ms :: x == m || x in ms[1..];
    forall v | v in r.database.applied ensures v in d.applied || Mentions(ms, v) {
      if v !in d.applied { MentionedLater(ms, v); }
    }
  }

  lemma NoDriftAfterCommit(ms: seq<MigrationFile>, d: Database)
    requires ms != [] && Ascending(ms) && ms[0].version !in d.applied
    ensures NoDrift(ms, d.applied) <==> NoDrift(ms[1..], Commit(d, ms[0]).applied)
  {
    AscendingRest(ms);
    assert forall x <- ms :: x == ms[0] || x in ms[1..];
    assert forall x <- ms[1..] :: x in ms;
  }

  lemma AllAppliedAfterCommit(ms: seq<MigrationFile>, d: Database, e: Database)
    requires ms != [] && Grows(Commit(d, ms[0]), e) && AllApplied(ms[1..], e.applied)
    ensures AllApplied(ms, e.applied)
  {
    assert ms[0].version in Commit(d, ms[0]).applied;
    assert forall x <- ms :: x == ms[0] || x in ms[1..];
  }

  lemma CompletesCommitting(ms: seq<MigrationFile>, d: Database, commits: nat)
    requires ms != [] && commits > 0 && ms[0].version !in d.applied && RunsToCompletion(ms[1..], Commit(d, ms[0]), commits - 1)
    requires Ascending(ms)
    ensures RunsToCompletion(ms, d, commits)
  {
    var e := Commit(d, ms[0]);
    var r, all := Migrate(ms[1..], e, commits - 1), Migrate(ms, d, commits);
    assert all.database == r.database && all.outcome == r.outcome;
    NoDriftAfterCommit(ms, d);
    if r.outcome.Finished? { AllAppliedAfterCommit(ms, d, r.database); }
    assert Grows(d, r.database) by { assert forall v <- d.applied :: v in e.applied && e.applied[v] == d.applied[v]; }
    forall v | v in r.database.applied ensures v in d.applied || Mentions(ms, v) {
      if v !in d.applied && v != ms[0].version { MentionedLater(ms, v); } else { assert ms[0] in ms; }
    }
  }

  lemma MentionedLater(ms: seq<MigrationFile>, v: nat)
    requires ms != [] && Mentions(ms[1..], v)
    ensures Mentions(ms, v)
  {
    var x :| x in ms[1..] && x.version == v;
    assert x in ms;
  }

  lemma NothingToRun(d: Database, commits: nat)
    ensures RunsToCompletion([], d, commits)
  {
  }

  /**
   An uninterrupted run succeeds exactly when nothing drifted. Then everything packaged is applied; in
   any case nothing applied before is touched and nothing unpackaged is added.
   */
  lemma {:induction false} FinishesExactly(ms: seq<MigrationFile>, d: Database, commits: nat)
    requires Ascending(ms) && commits >= |ms|
    ensures RunsToCompletion(ms, d, commits)
    decreases |ms|
  {
    if ms == [] {
      NothingToRun(d, commits);
    } else {
      AscendingRest(ms);
      if ms[0].version in d.applied {
        FinishesExactly(ms[1..], d, commits);
        CompletesSkipping(ms, d, commits);
      } else {
        FinishesExactly(ms[1..], Commit(d, ms[0]), commits - 1);
        CompletesCommitting(ms, d, commits);
      }
    }
  }

  /** Once everything packaged is applied, a run applies nothing. */
  lemma {:induction false} SecondRunIdle(ms: seq<MigrationFile>, d: Database, commits: nat)
    requires AllApplied(ms, d.applied)
    ensures Migrate(ms, d, commits) == Run(d, [], Finished)
    decreases |ms|
  {
    if ms != [] {
      assert ms[0] in ms;
      SecondRunIdle(ms[1..], d, commits);
    }
  }

  // ---- migration_status and the gate ----

  datatype Value = Flag(b: bool) | Versions(vs: seq<nat>) | Other

  type Document = map<string, Value>

  const REQUIRED_KEYS: seq<string> := [
    "packaged_versions", "applied_versions", "pending_versions", "drifted_versions", "unexpected_applied_versions", "up_to_date"
  ]

  function Pending(ms: seq<MigrationFile>, applied: map<nat, string>): seq<nat> {
    if ms == [] then [] else (if ms[0].version !in applied then [ms[0].version] else []) + Pending(ms[1..], applied)
  }

  function DriftedVersions(ms: seq<MigrationFile>, applied: map<nat, string>): seq<nat> {
    if ms == [] then []
    else (if ms[0].version in applied && applied[ms[0].version] != ms[0].checksum then [ms[0].version] else [])
         + DriftedVersions(ms[1..], applied)
  }

  function AllVersions(ms: seq<MigrationFile>): seq<nat> {
    seq(|ms|, i requires 0 <= i < |ms| => ms[i].version)
  }

  /** sorted(vs) */
  ghost function InOrder(vs: set<nat>): seq<nat> { Sort(VersionRow, ToSeq(vs)) }

  function VersionRow(v: nat): Row { [[v]] }

  ghost function MigrationStatus(ms: seq<MigrationFile>, applied: map<nat, string>): Document {
    var pending, drifted := Pending(ms, applied), DriftedVersions(ms, applied);
    var unexpected := InOrder(set v | v in applied && v !in AllVersions(ms));
    map["packaged_versions" := Versions(AllVersions(ms)),
        "applied_versions" := Versions(InOrder(applied.Keys)),
        "pending_versions" := Versions(pending),
        "drifted_versions" := Versions(drifted),
        "unexpected_applied_versions" := Versions(unexpected),
        "up_to_date" := Flag(pending == [] && drifted == [] && unexpected == [])]
  }

  datatype Rejection =
    | MissingKeys | NotABoolean | NotAList(key: string) | PendingMigrations | DriftedMigrations | UnexpectedMigrations | NotUpToDate

  /** The first complaint validate_status_document raises, None if it accepts. */
  function ValidateStatusDocument(status: Document): Option<Rejection> {
    if exists key <- REQUIRED_KEYS :: key !in status then Some(MissingKeys)
    else if !status["up_to_date"].Flag? then Some(NotABoolean)
    else if !status["pending_versions"].Versions? then Some(NotAList("pending_versions"))
    else if !status["drifted_versions"].Versions? then Some(NotAList("drifted_versions"))
    else if !status["unexpected_applied_versions"].Versions? then Some(NotAList("unexpected_applied_versions"))
    else if status["pending_versions"].vs != [] then Some(PendingMigrations)
    else if status["drifted_versions"].vs != [] then Some(DriftedMigrations)
    else if status["unexpected_applied_versions"].vs != [] then Some(UnexpectedMigrations)
    else if !status["up_to_date"].b then Some(NotUpToDate)
    else None
  }

  /** Each packaged version with its checksum. */
  function Packaged(ms: seq<MigrationFile>): map<nat, string> {
    if ms == [] then map[] else Packaged(ms[1..])[ms[0].version := ms[0].checksum]
  }

  lemma {:induction false} NothingPending(ms: seq<MigrationFile>, applied: map<nat, string>)
    ensures Pending(ms, applied) == [] && DriftedVersions(ms, applied) == [] <==> AllApplied(ms, applied)
  {
    if ms != [] {
      NothingPending(ms[1..], applied);
      assert ms[0] in ms && forall x <- ms :: x == ms[0] || x in ms[1..];
    }
  }

  lemma NoneUnexpected(vs: set<nat>)
    ensures InOrder(vs) == [] <==> vs == {}
  {
    ToSeqElements(vs);
    SortSorts(VersionRow, ToSeq(vs));
    assert |multiset(InOrder(vs))| == |InOrder(vs)| && |multiset(vs)| == |vs|;
  }

  lemma {:induction false} PackagedEntry(ms: seq<MigrationFile>, m: MigrationFile)
    requires Ascending(ms) && m in ms
    ensures m.version in Packaged(ms) && Packaged(ms)[m.version] == m.checksum
  {
    AscendingRest(ms);
    if m in ms[1..] { PackagedEntry(ms[1..], m); }
  }

  lemma {:induction false} PackagedMentioned(ms: seq<MigrationFile>, v: nat)
    requires v in Packaged(ms)
    ensures Mentions(ms, v)
  {
    if v == ms[0].version {
      assert ms[0] in ms;
    } else {
      PackagedMentioned(ms[1..], v);
      var m :| m in ms[1..] && m.version == v;
      assert m in ms;
    }
  }

  lemma PackagedExactly(ms: seq<MigrationFile>, applied: map<nat, string>)
    requires Ascending(ms)
    ensures applied == Packaged(ms) <==> AllApplied(ms, applied) && forall v <- applied :: Mentions(ms, v)
  {
    forall m | m in ms ensures m.version in Packaged(ms) && Packaged(ms)[m.version] == m.checksum { PackagedEntry(ms, m); }
    forall v | v in Packaged(ms) ensures Mentions(ms, v) { PackagedMentioned(ms, v); }
    if AllApplied(ms, applied) && forall v <- applied :: Mentions(ms, v) {
      forall v | v in applied ensures v in Packaged(ms) && Packaged(ms)[v] == applied[v] {
        var m :| m in ms && m.version == v;
      }
      forall v | v in Packaged(ms) ensures v in applied { assert Mentions(ms, v); }
    }
  }

  lemma VersionsMentioned(ms: seq<MigrationFile>, v: nat)
    ensures v in AllVersions(ms) <==> Mentions(ms, v)
  {
    var all := AllVersions(ms);
    if v in all {
      var i :| 0 <= i < |all| && all[i] == v;
      assert ms[i] in ms;
    }
    if Mentions(ms, v) {
      var m :| m in ms && m.version == v;
      var i :| 0 <= i < |ms| && ms[i] == m;
      assert all[i] == v;
    }
  }

  /** The gate accepts a status report exactly when the applied table equals the packaged migrations. */
  lemma GateAcceptsExactly(ms: seq<MigrationFile>, applied: map<nat, string>)
    requires Ascending(ms)
    ensures ValidateStatusDocument(MigrationStatus(ms, applied)).None? <==> applied == Packaged(ms)
  {
    NothingPending(ms, applied);
    var unexpected := set v | v in applied && v !in AllVersions(ms);
    NoneUnexpected(unexpected);
    forall v ensures v in unexpected <==> v in applied && !Mentions(ms, v) { VersionsMentioned(ms, v); }
    assert unexpected == {} <==> forall v <- applied :: Mentions(ms, v);
    PackagedExactly(ms, applied);
    ReportIsWellFormed(ms, applied);
  }

  lemma ReportIsWellFormed(ms: seq<MigrationFile>, applied: map<nat, string>)
    ensures var status := MigrationStatus(ms, applied);
      && (forall key <- REQUIRED_KEYS :: key in status)
      && status["up_to_date"].Flag? && status["pending_versions"].Versions?
      && status["drifted_versions"].Versions? && status["unexpected_applied_versions"].Versions?
  {
  }

  /** After a successful run the gate accepts exactly when nothing unpackaged had been applied before. */
  lemma GateAfterRun(ms: seq<MigrationFile>, d: Database)
    requires Ascending(ms) && Migrate(ms, d, |ms|).outcome.Finished?
    ensures ValidateStatusDocument(MigrationStatus(ms, Migrate(ms, d, |ms|).database.applied)).None?
       <==> forall v <- d.applied :: Mentions(ms, v)
  {
    var after := Migrate(ms, d, |ms|).database.applied;
    FinishesExactly(ms, d, |ms|);
    GateAcceptsExactly(ms, after);
    PackagedExactly(ms, after);
  }

  // ---- What the report lists, and what the gate says to any document ----

  /** Version v is applied with other content than packaged. */
  predicate PackagesOther(ms: seq<MigrationFile>, applied: map<nat, string>, v: nat) {
    exists m <- ms :: m.version == v && v in applied && applied[v] != m.checksum
  }

  lemma {:induction false} PendingLists(ms: seq<MigrationFile>, applied: map<nat, string>)
    requires Ascending(ms)
    ensures StrictlyAscending(Pending(ms, applied))
    ensures forall v :: v in Pending(ms, applied) <==> v !in applied && exists m <- ms :: m.version == v
  {
    if ms != [] {
      var rest := Pending(ms[1..], applied);
      AscendingRest(ms);
      PendingLists(ms[1..], applied);
      assert forall m <- ms :: m == ms[0] || m in ms[1..];
      assert ms[0] in ms && forall m <- ms[1..] :: m in ms;
      AscendingInFront(ms[0].version, rest);
      assert [] + rest == rest;
    }
  }

  lemma {:induction false} DriftedLists(ms: seq<MigrationFile>, applied: map<nat, string>)
    requires Ascending(ms)
    ensures StrictlyAscending(DriftedVersions(ms, applied))
    ensures forall v :: v in DriftedVersions(ms, applied) <==> PackagesOther(ms, applied, v)
  {
    if ms != [] {
      var rest := DriftedVersions(ms[1..], applied);
      AscendingRest(ms);
      DriftedLists(ms[1..], applied);
      assert forall m <- ms :: m == ms[0] || m in ms[1..];
      assert ms[0] in ms && forall m <- ms[1..] :: m in ms;
      forall v ensures PackagesOther(ms, applied, v)
                  <==> PackagesOther(ms[1..], applied, v) || (v == ms[0].version && v in applied && applied[v] != ms[0].checksum) {}
      forall v | v in rest ensures ms[0].version < v { assert PackagesOther(ms[1..], applied, v); }
      AscendingInFront(ms[0].version, rest);
      assert [] + rest == rest;
    }
  }

  lemma {:induction false} SortedRows(vs: seq<nat>)
    requires Sorted(VersionRow, vs)
    ensures forall i, j :: 0 <= i < j < |vs| ==> vs[i] <= vs[j]
  {
    forall i, j | 0 <= i < j < |vs| ensures vs[i] <= vs[j] {
      SortedPairs(VersionRow, vs, i, j);
      assert VersionRow(vs[i])[0] == [vs[i]] && VersionRow(vs[j])[0] == [vs[j]];
    }
  }

  lemma InOrderLists(vs: set<nat>)
    ensures StrictlyAscending(InOrder(vs)) && forall v :: v in InOrder(vs) <==> v in vs
  {
    var xs := InOrder(vs);
    ToSeqElements(vs);
    SortSorts(VersionRow, ToSeq(vs));
    SortedRows(xs);
    assert multiset(xs) == multiset(vs);
    forall v ensures v in xs <==> v in vs { assert v in xs <==> v in multiset(xs); }
    forall i, j | 0 <= i < j < |xs| ensures xs[i] < xs[j] {
      assert multiset(vs)[xs[i]] <= 1;
      if xs[i] == xs[j] { DuplicatesCount(xs, i, j); }
    }
  }

  predicate IsList(status: Document, key: string, vs: seq<nat>) { key in status && status[key] == Versions(vs) }

  lemma ReportFields(ms: seq<MigrationFile>, applied: map<nat, string>)
    ensures var status := MigrationStatus(ms, applied);
      && IsList(status, "packaged_versions", AllVersions(ms))
      && IsList(status, "applied_versions", InOrder(applied.Keys))
      && IsList(status, "pending_versions", Pending(ms, applied))
      && IsList(status, "drifted_versions", DriftedVersions(ms, applied))
      && IsList(status, "unexpected_applied_versions", InOrder(set v | v in applied && v !in AllVersions(ms)))
      && "up_to_date" in status && status["up_to_date"].Flag?
  {
  }

  /** The report's list under key holds exactly the given versions, ascending. */
  predicate Lists(status: Document, key: string, vs: set<nat>) {
    && key in status && status[key].Versions? && StrictlyAscending(status[key].vs)
    && (set v | v in status[key].vs) == vs
  }

  ghost function PackagedVersions(ms: seq<MigrationFile>): set<nat> { set m | m in ms :: m.version }

  /** Each list of the report holds exactly the versions it is named for, and the flag says that all agree. */
  lemma ReportLists(ms: seq<MigrationFile>, applied: map<nat, string>)
    requires Ascending(ms)
    ensures var status := MigrationStatus(ms, applied);
      && Lists(status, "packaged_versions", PackagedVersions(ms))
      && Lists(status, "applied_versions", applied.Keys)
      && Lists(status, "pending_versions", PackagedVersions(ms) - applied.Keys)
      && Lists(status, "drifted_versions", set v | v in applied && PackagesOther(ms, applied, v))
      && Lists(status, "unexpected_applied_versions", applied.Keys - PackagedVersions(ms))
      && "up_to_date" in status && status["up_to_date"] == Flag(applied == Packaged(ms))
  {
    ReportFields(ms, applied);
    PackagedSet(ms);
    PendingSets(ms, applied);
    SortedSet(applied.Keys);
    SortedSet(set v | v in applied && v !in AllVersions(ms));
    FlagSays(ms, applied);
  }

  lemma PackagedSet(ms: seq<MigrationFile>)
    requires Ascending(ms)
    ensures StrictlyAscending(AllVersions(ms)) && (set v | v in AllVersions(ms)) == PackagedVersions(ms)
  {
    forall v ensures v in AllVersions(ms) <==> v in PackagedVersions(ms) { VersionsMentioned(ms, v); }
  }

  lemma PendingSets(ms: seq<MigrationFile>, applied: map<nat, string>)
    requires Ascending(ms)
    ensures var pending, drifted := Pending(ms, applied), DriftedVersions(ms, applied);
      && StrictlyAscending(pending) && (set v | v in pending) == PackagedVersions(ms) - applied.Keys
      && StrictlyAscending(drifted) && (set v | v in drifted) == (set v | v in applied && PackagesOther(ms, applied, v))
  {
    PendingLists(ms, applied);
    DriftedLists(ms, applied);
  }

  lemma SortedSet(vs: set<nat>)
    ensures StrictlyAscending(InOrder(vs)) && (set v | v in InOrder(vs)) == vs
  {
    InOrderLists(vs);
  }

  lemma FlagSays(ms: seq<MigrationFile>, applied: map<nat, string>)
    requires Ascending(ms)
    ensures var status := MigrationStatus(ms, applied);
            "up_to_date" in status && status["up_to_date"] == Flag(applied == Packaged(ms))
  {
    ReportFields(ms, applied);
    GateAcceptsExactly(ms, applied);
    NothingPending(ms, applied);
  }

  predicate IsEmptyList(status: Document, key: string) { key in status && status[key] == Versions([]) }

  /** Whatever document it is shown, the gate accepts it only with all six fields, three empty lists and the flag set. */
  lemma GateDemands(status: Document)
    ensures ValidateStatusDocument(status).None? <==>
      && "packaged_versions" in status && "applied_versions" in status
      && IsEmptyList(status, "pending_versions") && IsEmptyList(status, "drifted_versions")
      && IsEmptyList(status, "unexpected_applied_versions")
      && "up_to_date" in status && status["up_to_date"] == Flag(true)
  {
    assert REQUIRED_KEYS[0] == "packaged_versions" && REQUIRED_KEYS[1] == "applied_versions" && REQUIRED_KEYS[2] == "pending_versions"
        && REQUIRED_KEYS[3] == "drifted_versions" && REQUIRED_KEYS[4] == "unexpected_applied_versions" && REQUIRED_KEYS[5] == "up_to_date";
  }

  lemma UnexpectedNone(ms: seq<MigrationFile>, applied: map<nat, string>)
    ensures InOrder(set v | v in applied && v !in AllVersions(ms)) == [] <==> forall v <- applied :: v in PackagedVersions(ms)
  {
    var unexpected := set v | v in applied && v !in AllVersions(ms);
    NoneUnexpected(unexpected);
    forall v ensures v in AllVersions(ms) <==> v in PackagedVersions(ms) { VersionsMentioned(ms, v); }
    assert unexpected == {} <==> forall v <- applied :: v in PackagedVersions(ms) by {
      forall v | v in applied && v !in PackagedVersions(ms) ensures v in unexpected {}
    }
  }

  /** What the gate says of a report, going by its three lists. */
  lemma VerdictByLists(ms: seq<MigrationFile>, applied: map<nat, string>)
    requires Ascending(ms)
    ensures ValidateStatusDocument(MigrationStatus(ms, applied)) ==
      if Pending(ms, applied) != [] then Some(PendingMigrations)
      else if DriftedVersions(ms, applied) != [] then Some(DriftedMigrations)
      else if InOrder(set v | v in applied && v !in AllVersions(ms)) != [] then Some(UnexpectedMigrations)
      else None
  {
    ReportIsWellFormed(ms, applied);
    ReportFields(ms, applied);
  }

  lemma PendingNone(ms: seq<MigrationFile>, applied: map<nat, string>)
    requires Ascending(ms)
    ensures Pending(ms, applied) != [] <==> exists m <- ms :: m.version !in applied
  {
    PendingLists(ms, applied);
    var pending := Pending(ms, applied);
    if pending != [] { assert pending[0] in pending; }
    if m :| m in ms && m.version !in applied { assert m.version in pending; }
  }

  lemma DriftedNone(ms: seq<MigrationFile>, applied: map<nat, string>)
    requires Ascending(ms)
    ensures DriftedVersions(ms, applied) != [] <==> exists m <- ms :: m.version in applied && applied[m.version] != m.checksum
  {
    DriftedLists(ms, applied);
    var drifted := DriftedVersions(ms, applied);
    if drifted != [] { assert PackagesOther(ms, applied, drifted[0]); }
    if m :| m in ms && m.version in applied && applied[m.version] != m.checksum { assert PackagesOther(ms, applied, m.version); }
  }

  /** Refusing a report, the gate names the first thing wrong: something pending, then drifted, then unpackaged. */
  lemma GateNames(ms: seq<MigrationFile>, applied: map<nat, string>)
    requires Ascending(ms)
    ensures ValidateStatusDocument(MigrationStatus(ms, applied)) ==
      if exists m <- ms :: m.version !in applied then Some(PendingMigrations)
      else if exists m <- ms :: m.version in applied && applied[m.version] != m.checksum then Some(DriftedMigrations)
      else if exists v <- applied :: v !in PackagedVersions(ms) then Some(UnexpectedMigrations)
      else None
  {
    VerdictByLists(ms, applied);
    PendingNone(ms, applied);
    DriftedNone(ms, applied);
    UnexpectedNone(ms, applied);
  }
}
