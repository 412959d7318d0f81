/**
 The rolling window of authentication failures
 (src/cloudops_guard/ingestion_azure/postgres_attempt_limiter.py). Instants and durations are
 microseconds.
 */
module Attempts {
  import opened Limiters

  datatype FailureRow = FailureRow(scope: string, occurredAt: int)

  /** SELECT count(*) ... WHERE scope_key_hash = scope AND occurred_at > since */
  function Recent(rows: seq<FailureRow>, scope: string, since: int): nat {
    if rows == [] then 0
    else
      var last := rows[|rows| - 1];
      Recent(rows[..|rows| - 1], scope, since) + if last.scope == scope && last.occurredAt > since then 1 else 0
  }

  /** DELETE ... WHERE occurred_at < horizon */
  function Surviving(rows: seq<FailureRow>, horizon: int): seq<FailureRow> {
    if rows == [] then []
    else
      var last := rows[|rows| - 1];
      Surviving(rows[..|rows| - 1], horizon) + if last.occurredAt < horizon then [] else [last]
  }

  datatype AttemptEvent = Failure(scope: string, now: int) | Query(scope: string, now: int) | Cleanup(maxAge: int, now: int)

  function RowsAfter(events: seq<AttemptEvent>): seq<FailureRow> {
    if events == [] then []
    else
      var rows := RowsAfter(events[..|events| - 1]);
      match events[|events| - 1]
      case Failure(scope, now) => rows + [FailureRow(scope, now)]
      case Query(_, _) => rows
      case Cleanup(maxAge, now) => Surviving(rows, now - maxAge)
  }

  /** What a run on the limiter's table answers to a query made after these events. */
  function Blocked(l: Limit, events: seq<AttemptEvent>, scope: string, now: int): bool {
    Recent(RowsAfter(events), scope, now - l.window) >= l.threshold
  }

  /** The failures recorded for scope after an instant, read off the history itself. */
  function FailuresSince(events: seq<AttemptEvent>, scope: string, since: int): nat {
    if events == [] then 0
    else
      var e := events[|events| - 1];
      FailuresSince(events[..|events| - 1], scope, since) + if e.Failure? && e.scope == scope && e.now > since then 1 else 0
  }

  predicate Monotone(events: seq<AttemptEvent>) {
    forall i, j :: 0 <= i < j < |events| ==> events[i].now <= events[j].now
  }

  predicate CleansUpAt(events: seq<AttemptEvent>, age: int) {
    forall e <- events :: e.Cleanup? ==> e.maxAge >= age
  }

  lemma {:induction false} SurvivorsCount(rows: seq<FailureRow>, horizon: int, scope: string, since: int)
    requires since >= horizon - 1
    ensures Recent(Surviving(rows, horizon), scope, since) == Recent(rows, scope, since)
  {
    if rows != [] {
      var n := |rows| - 1;
      SurvivorsCount(rows[..n], horizon, scope, since);
      var kept := Surviving(rows[..n], horizon);
      if rows[n].occurredAt < horizon {
        assert Surviving(rows, horizon) == kept;
      } else {
        assert (kept + [rows[n]])[..|kept|] == kept;
      }
    }
  }

  lemma RowsStep(before: seq<AttemptEvent>, e: AttemptEvent, scope: string, since: int)
    requires e.Cleanup? ==> since >= e.now - e.maxAge - 1
    ensures Recent(RowsAfter(before + [e]), scope, since)
         == Recent(RowsAfter(before), scope, since) + if e.Failure? && e.scope == scope && e.now > since then 1 else 0
  {
    var rows := RowsAfter(before);
    assert (before + [e])[..|before|] == before;
    match e {
      case Failure(s, now) => assert (rows + [FailureRow(s, now)])[..|rows|] == rows;
      case Query(_, _) =>
      case Cleanup(maxAge, now) => SurvivorsCount(rows, now - maxAge, scope, since);
    }
  }

  lemma PrefixFits(events: seq<AttemptEvent>, age: int)
    requires events != [] && Monotone(events) && CleansUpAt(events, age)
    ensures var before := events[..|events| - 1];
            && Monotone(before) && CleansUpAt(before, age)
            && (before != [] ==> before[|before| - 1].now <= events[|events| - 1].now)
  {
    assert forall x <- events[..|events| - 1] :: x in events;
  }

  lemma {:induction false} TableCountsHistory(l: Limit, events: seq<AttemptEvent>, scope: string, since: int)
    requires l.Valid() && Monotone(events) && CleansUpAt(events, l.window - 1)
    requires events != [] ==> since >= events[|events| - 1].now - l.window
    ensures Recent(RowsAfter(events), scope, since) == FailuresSince(events, scope, since)
  {
    if events != [] {
      var n := |events| - 1;
      var before, e := events[..n], events[n];
      assert e in events;
      PrefixFits(events, l.window - 1);
      TableCountsHistory(l, before, scope, since);
      RowsStep(before, e, scope, since);
      assert events == before + [e];
    }
  }

  /**
   A scope is blocked exactly when the history holds threshold failures younger than the window, so
   failures stop counting by ageing alone; cleanups of rows at least a window old change nothing.
   */
  lemma BlockedByRecentFailures(l: Limit, events: seq<AttemptEvent>, scope: string, now: int)
    requires l.Valid() && Monotone(events + [Query(scope, now)]) && CleansUpAt(events, l.window - 1)
    ensures Blocked(l, events, scope, now) <==> FailuresSince(events, scope, now - l.window) >= l.threshold
  {
    var all := events + [Query(scope, now)];
    assert forall i :: 0 <= i < |events| ==> all[i] == events[i];
    if events != [] { assert all[|events| - 1].now <= all[|events|].now; }
    TableCountsHistory(l, events, scope, now - l.window);
  }

  /** The rows of scope younger than an instant, one by one. */
  ghost function RecentRows(rows: seq<FailureRow>, scope: string, since: int): set<int> {
    set i | 0 <= i < |rows| && rows[i].scope == scope && rows[i].occurredAt > since
  }

  lemma {:induction false} RecentCounts(rows: seq<FailureRow>, scope: string, since: int)
    ensures Recent(rows, scope, since) == |RecentRows(rows, scope, since)|
  {
    if rows != [] {
      var n := |rows| - 1;
      RecentCounts(rows[..n], scope, since);
      var before := RecentRows(rows[..n], scope, since);
      assert RecentRows(rows, scope, since) == before + if rows[n].scope == scope && rows[n].occurredAt > since then {n} else {};
    }
  }

  /** The survivors are exactly the rows from the horizon on, each as often as before. */
  lemma {:induction false} SurvivorsExactly(rows: seq<FailureRow>, horizon: int, row: FailureRow)
    ensures multiset(Surviving(rows, horizon))[row] == if row.occurredAt >= horizon then multiset(rows)[row] else 0
  {
    if rows != [] {
      SurvivorsExactly(rows[..|rows| - 1], horizon, row);
      assert rows == rows[..|rows| - 1] + [rows[|rows| - 1]];
    }
  }

  /** The table of one limiter; history is what was called on it, in order. */
  class PostgresAttemptLimiter {
    const limit: Limit
    var attemptFailures: seq<FailureRow>
    ghost var history: seq<AttemptEvent>

    ghost predicate Valid()
      reads this
    {
      limit.Valid() && attemptFailures == RowsAfter(history)
    }

    constructor (limit: Limit)
      requires limit.Valid()
      ensures Valid() && this.limit == limit && history == []
    {
      this.limit := limit;
      attemptFailures := [];
      history := [];
    }

    method RecordFailure(scope: string, now: int)
      requires Valid()
      modifies this
      ensures Valid() && history == old(history) + [Failure(scope, now)]
      ensures multiset(attemptFailures) == multiset(old(attemptFailures)) + multiset{FailureRow(scope, now)}
    {
      attemptFailures := attemptFailures + [FailureRow(scope, now)];
      history := history + [Failure(scope, now)];
      assert history[..|history| - 1] == old(history);
    }

    /**
     Blocked when at least threshold rows of the scope are younger than the window. On a forward clock,
     with nothing younger than a window ever cleaned up, that is: when the failures recorded within the
     last window number at least threshold.
     */
    method IsBlocked(scope: string, now: int) returns (blocked: bool)
      requires Valid()
      ensures blocked <==> |RecentRows(attemptFailures, scope, now - limit.window)| >= limit.threshold
      ensures Monotone(history + [Query(scope, now)]) && CleansUpAt(history, limit.window - 1) ==>
        (blocked <==> FailuresSince(history, scope, now - limit.window) >= limit.threshold)
    {
      RecentCounts(attemptFailures, scope, now - limit.window);
      if Monotone(history + [Query(scope, now)]) && CleansUpAt(history, limit.window - 1) {
        BlockedByRecentFailures(limit, history, scope, now);
      }
      blocked := Recent(attemptFailures, scope, now - limit.window) >= limit.threshold;
    }

    /** Every row younger than max_age is kept, every older one is deleted and counted. */
    method CleanupExpired(maxAge: int, now: int) returns (deleted: int)
      requires Valid()
      modifies this
      ensures Valid() && history == old(history) + [Cleanup(maxAge, now)]
      ensures forall row: FailureRow :: multiset(attemptFailures)[row]
                         == if row.occurredAt >= now - maxAge then multiset(old(attemptFailures))[row] else 0
      ensures deleted == |old(attemptFailures)| - |attemptFailures|
    {
      var kept := Surviving(attemptFailures, now - maxAge);
      forall row: FailureRow ensures multiset(kept)[row] == if row.occurredAt >= now - maxAge then multiset(attemptFailures)[row] else 0 {
        SurvivorsExactly(attemptFailures, now - maxAge, row);
      }
      deleted := |attemptFailures| - |kept|;
      attemptFailures := kept;
      history := history + [Cleanup(maxAge, now)];
      assert history[..|history| - 1] == old(history);
    }
  }

  /** Cleaning up at this age changes no answer of any run. */
  ghost predicate AttemptCleanupUnseen(l: Limit, maxAge: int) {
    forall events, scope, now {:trigger Blocked(l, events, scope, now)} ::
      Monotone(events + [Query(scope, now)]) && CleansUpAt(events, maxAge) ==>
        (Blocked(l, events, scope, now) <==> FailuresSince(events, scope, now - l.window) >= l.threshold)
  }

  function Failing(scope: string, now: int, n: nat): seq<AttemptEvent> { seq(n, _ => Failure(scope, now)) }

  lemma {:induction false} FailingRows(scope: string, now: int, n: nat)
    ensures RowsAfter(Failing(scope, now, n)) == seq(n, _ => FailureRow(scope, now))
    ensures forall since :: since < now ==> FailuresSince(Failing(scope, now, n), scope, since) == n
  {
    if n > 0 {
      assert Failing(scope, now, n)[..n - 1] == Failing(scope, now, n - 1);
      FailingRows(scope, now, n - 1);
      assert seq(n - 1, _ => FailureRow(scope, now)) + [FailureRow(scope, now)] == seq(n, _ => FailureRow(scope, now));
    }
  }

  lemma {:induction false} AllTooOld(scope: string, now: int, n: nat, horizon: int)
    requires now < horizon
    ensures Surviving(seq(n, _ => FailureRow(scope, now)), horizon) == []
  {
    if n > 0 {
      assert seq(n, _ => FailureRow(scope, now))[..n - 1] == seq(n - 1, _ => FailureRow(scope, now));
      AllTooOld(scope, now, n - 1, horizon);
    }
  }

  lemma YoungCleanupUnblocks(l: Limit, scope: string, maxAge: int)
    requires l.Valid() && maxAge + 1 < l.window
    ensures var t := l.window - 1;
            var events := Failing(scope, 0, l.threshold) + [Cleanup(maxAge, t)];
            && Monotone(events + [Query(scope, t)]) && CleansUpAt(events, maxAge)
            && !Blocked(l, events, scope, t) && FailuresSince(events, scope, t - l.window) >= l.threshold
  {
    var t, failing := l.window - 1, Failing(scope, 0, l.threshold);
    var events := failing + [Cleanup(maxAge, t)];
    assert events[..|events| - 1] == failing;
    FailingRows(scope, 0, l.threshold);
    AllTooOld(scope, 0, l.threshold, t - maxAge);
  }

  /** Exactly the ages of at least a window, to the microsecond, are safe to clean up at. */
  lemma AttemptCleanupUnseenExactly(l: Limit, maxAge: int)
    requires l.Valid()
    ensures AttemptCleanupUnseen(l, maxAge) <==> maxAge + 1 >= l.window
  {
    if maxAge + 1 >= l.window {
      forall events, scope, now | Monotone(events + [Query(scope, now)]) && CleansUpAt(events, maxAge)
        ensures Blocked(l, events, scope, now) <==> FailuresSince(events, scope, now - l.window) >= l.threshold
      {
        BlockedByRecentFailures(l, events, scope, now);
      }
    } else {
      YoungCleanupUnblocks(l, "source", maxAge);
    }
  }
}
