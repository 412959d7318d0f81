/**
 The persistent limiters: fixed-window request counters and rolling-window failure rows
 (src/cloudops_guard/ingestion_azure/postgres_request_rate_limiter.py, postgres_attempt_limiter.py).
 Instants and durations are microseconds, the resolution of the database's timestamps.
 */
module Limiters {
  import opened Wrappers

  datatype Limit = Limit(threshold: nat, window: int)
  {
    /** What both constructors demand. */
    predicate Valid() { threshold >= 1 && window > 0 }
  }

  // ---- Fixed windows ----

  datatype Slot = Slot(scope: string, start: int)

  type Counters = map<Slot, nat>

  /** floor(now / window) * window */
  function WindowStart(l: Limit, now: int): int
    requires l.Valid()
  {
    now / l.window * l.window
  }

  function CountOf(rows: Counters, slot: Slot): nat { if slot in rows then rows[slot] else 0 }

  function Admits(l: Limit, rows: Counters, scope: string, now: int): bool
    requires l.Valid()
  {
    CountOf(rows, Slot(scope, WindowStart(l, now))) < l.threshold
  }

  function Counted(l: Limit, rows: Counters, scope: string, now: int): Counters
    requires l.Valid()
  {
    var slot := Slot(scope, WindowStart(l, now));
    if Admits(l, rows, scope, now) then rows[slot := CountOf(rows, slot) + 1] else rows
  }

  function Cleaned(rows: Counters, maxAge: int, now: int): Counters {
    map slot | slot in rows && slot.start >= now - maxAge :: rows[slot]
  }

  class PostgresRequestRateLimiter {
    const limit: Limit
    var requestRateCounters: Counters

    constructor (limit: Limit)
      requires limit.Valid()
      ensures this.limit == limit && requestRateCounters == map[]
    {
      this.limit := limit;
      requestRateCounters := map[];
    }

    /** INSERT a first row, or increment the existing one while it is below the threshold. */
    method CheckAndRecordRequest(scope: string, now: int) returns (admitted: bool)
      requires limit.Valid()
      modifies this
      ensures admitted == Admits(limit, old(requestRateCounters), scope, now)
      ensures requestRateCounters == Counted(limit, old(requestRateCounters), scope, now)
    {
      var slot := Slot(scope, now / limit.window * limit.window);
      if slot !in requestRateCounters {
        requestRateCounters := requestRateCounters[slot := 1];
        return true;
      }
      if requestRateCounters[slot] < limit.threshold {
        requestRateCounters := requestRateCounters[slot := requestRateCounters[slot] + 1];
        return true;
      }
      return false;
    }

    method CleanupExpired(maxAge: int, now: int) returns (deleted: nat)
      modifies this
      ensures requestRateCounters == Cleaned(old(requestRateCounters), maxAge, now)
      ensures deleted == |old(requestRateCounters)| - |requestRateCounters|
    {
      var doomed := set slot | slot in requestRateCounters && slot.start < now - maxAge;
      deleted := |doomed|;
      ghost var before := requestRateCounters;
      requestRateCounters := requestRateCounters - doomed;
      assert before.Keys == requestRateCounters.Keys + doomed && requestRateCounters.Keys !! doomed;
      assert |before.Keys| == |before| && |requestRateCounters.Keys| == |requestRateCounters|;
    }
  }

  datatype RateEvent = Request(scope: string, now: int) | RateCleanup(maxAge: int, now: int)

  datatype Answered = Answered(scope: string, now: int, admitted: bool)

  /** What each request of a run was answered. */
  function RateAnswers(l: Limit, rows: Counters, events: seq<RateEvent>): seq<Answered>
    requires l.Valid()
    decreases |events|
  {
    if events == [] then []
    else match events[0]
      case Request(scope, now) =>
        [Answered(scope, now, Admits(l, rows, scope, now))] + RateAnswers(l, Counted(l, rows, scope, now), events[1..])
      case RateCleanup(maxAge, now) =>
        RateAnswers(l, Cleaned(rows, maxAge, now), events[1..])
  }

  function Requests(events: seq<RateEvent>): seq<RateEvent> {
    if events == [] then [] else (if events[0].Request? then [events[0]] else []) + Requests(events[1..])
  }

  /** A clock that never goes back, from the given instant on. */
  predicate RateClock(events: seq<RateEvent>, from: int)
    decreases |events|
  {
    events == [] || (from <= events[0].now && RateClock(events[1..], events[0].now))
  }

  /** Every cleanup of the run uses at least this age. */
  predicate RateAges(events: seq<RateEvent>, age: int) {
    forall e <- events :: e.RateCleanup? ==> e.maxAge >= age
  }

  lemma WindowStartBounds(l: Limit, now: int)
    requires l.Valid()
    ensures WindowStart(l, now) <= now < WindowStart(l, now) + l.window
  {
  }

  lemma WindowStartMonotone(l: Limit, now: int, later: int)
    requires l.Valid() && now <= later
    ensures WindowStart(l, now) <= WindowStart(l, later)
  {
    var w, a, b := l.window, now / l.window, later / l.window;
    assert a * w < (b + 1) * w;
    Unscale(a, b + 1, w);
    Scale(a, b, w);
  }

  lemma Scale(a: int, b: int, w: int)
    requires a <= b && w > 0
    ensures a * w <= b * w
  {
  }

  lemma Unscale(a: int, b: int, w: int)
    requires a * w < b * w && w > 0
    ensures a < b
  {
    if b <= a { Scale(b, a, w); }
  }

  /** The counters that a request from now on can still look at agree. */
  ghost predicate AgreeFrom(l: Limit, rows: Counters, others: Counters, now: int)
    requires l.Valid()
  {
    forall slot: Slot :: slot.start >= WindowStart(l, now) ==> CountOf(rows, slot) == CountOf(others, slot)
  }

  lemma {:induction false} RateCleanupHarmless(l: Limit, rows: Counters, others: Counters, events: seq<RateEvent>, from: int)
    requires l.Valid() && RateClock(events, from) && RateAges(events, l.window - 1) && AgreeFrom(l, rows, others, from)
    ensures RateAnswers(l, rows, events) == RateAnswers(l, others, Requests(events))
    decreases |events|
  {
    if events != [] {
      var now := events[0].now;
      WindowStartMonotone(l, from, now);
      WindowStartBounds(l, now);
      match events[0] {
        case Request(scope, _) =>
          assert Requests(events)[1..] == Requests(events[1..]);
          RateCleanupHarmless(l, Counted(l, rows, scope, now), Counted(l, others, scope, now), events[1..], now);
        case RateCleanup(maxAge, _) =>
          assert events[0] in events && Requests(events) == Requests(events[1..]);
          RateCleanupHarmless(l, Cleaned(rows, maxAge, now), others, events[1..], now);
      }
    }
  }

  function Asking(scope: string, now: int, n: nat): seq<RateEvent> { seq(n, _ => Request(scope, now)) }

  function AllIn(scope: string, now: int, n: nat): seq<Answered> { seq(n, _ => Answered(scope, now, true)) }

  lemma OneIn(l: Limit, rows: Counters, scope: string, now: int, rest: seq<RateEvent>)
    requires l.Valid() && Admits(l, rows, scope, now)
    ensures RateAnswers(l, rows, [Request(scope, now)] + rest)
         == [Answered(scope, now, true)] + RateAnswers(l, Counted(l, rows, scope, now), rest)
  {
    assert ([Request(scope, now)] + rest)[1..] == rest;
  }

  lemma AskingFront(scope: string, now: int, n: nat, rest: seq<RateEvent>)
    requires n > 0
    ensures Asking(scope, now, n) + rest == [Request(scope, now)] + (Asking(scope, now, n - 1) + rest)
  {
  }

  lemma AllInFront(scope: string, now: int, n: nat, tail: seq<Answered>)
    requires n > 0
    ensures AllIn(scope, now, n) + tail == [Answered(scope, now, true)] + (AllIn(scope, now, n - 1) + tail)
  {
  }

  /** One more request before a burst that gets in, gets in too. */
  lemma BurstStep(l: Limit, rows: Counters, scope: string, now: int, n: nat, rest: seq<RateEvent>, tail: seq<Answered>)
    requires l.Valid() && n > 0 && Admits(l, rows, scope, now)
    requires RateAnswers(l, Counted(l, rows, scope, now), Asking(scope, now, n - 1) + rest) == AllIn(scope, now, n - 1) + tail
    ensures RateAnswers(l, rows, Asking(scope, now, n) + rest) == AllIn(scope, now, n) + tail
  {
    OneIn(l, rows, scope, now, Asking(scope, now, n - 1) + rest);
    AskingFront(scope, now, n, rest);
    AllInFront(scope, now, n, tail);
  }

  function Filled(l: Limit, rows: Counters, scope: string, now: int, n: nat): Counters
    requires l.Valid()
  {
    var slot := Slot(scope, WindowStart(l, now));
    if n == 0 then rows else rows[slot := CountOf(rows, slot) + n]
  }

  /** n requests at one instant, into a window with room for them: all get in. */
  lemma {:induction false} Burst(l: Limit, rows: Counters, scope: string, now: int, n: nat, rest: seq<RateEvent>)
    requires l.Valid() && CountOf(rows, Slot(scope, WindowStart(l, now))) + n <= l.threshold
    ensures RateAnswers(l, rows, Asking(scope, now, n) + rest)
         == AllIn(scope, now, n) + RateAnswers(l, Filled(l, rows, scope, now, n), rest)
    decreases n
  {
    if n == 0 {
      assert Asking(scope, now, n) + rest == rest && AllIn(scope, now, n) == [];
    } else {
      var counted := Counted(l, rows, scope, now);
      Burst(l, counted, scope, now, n - 1, rest);
      assert Filled(l, counted, scope, now, n - 1) == Filled(l, rows, scope, now, n);
      BurstStep(l, rows, scope, now, n, rest, RateAnswers(l, Filled(l, rows, scope, now, n), rest));
    }
  }

  /** Requests for scope at instants in [lo, hi). */
  function Asked(events: seq<RateEvent>, scope: string, lo: int, hi: int): nat {
    if events == [] then 0
    else (if events[0].Request? && events[0].scope == scope && lo <= events[0].now < hi then 1 else 0) + Asked(events[1..], scope, lo, hi)
  }

  /** Requests for scope admitted at instants in [lo, hi). */
  function Admitted(answers: seq<Answered>, scope: string, lo: int, hi: int): nat {
    if answers == [] then 0
    else (if answers[0].admitted && answers[0].scope == scope && lo <= answers[0].now < hi then 1 else 0)
         + Admitted(answers[1..], scope, lo, hi)
  }

  lemma InWindow(l: Limit, b: int, now: int)
    requires l.Valid() && b == WindowStart(l, b)
    ensures WindowStart(l, now) == b <==> b <= now < b + l.window
  {
    WindowStartBounds(l, now);
    if b <= now < b + l.window { Quotient(now, b / l.window, l.window); }
  }

  lemma Quotient(x: int, k: int, w: int)
    requires w > 0 && k * w <= x < k * w + w
    ensures x / w == k
  {
    var q, r := x / w, x % w;
    assert q * w + r == x;
    assert q * w < (k + 1) * w && k * w < (q + 1) * w;
    Unscale(q, k + 1, w);
    Unscale(k, q + 1, w);
  }

  /** A window's start, and the next one's, are their own windows' starts. */
  lemma NextWindow(l: Limit, now: int)
    requires l.Valid()
    ensures var b := WindowStart(l, now); WindowStart(l, b) == b && WindowStart(l, b + l.window) == b + l.window
  {
    var k, w := now / l.window, l.window;
    Quotient(k * w, k, w);
    assert (k + 1) * w == k * w + w;
    Quotient((k + 1) * w, k + 1, w);
  }

  /** Without cleanups, a window admits exactly as many requests as its budget has left, whatever the clock does. */
  lemma {:induction false} WindowAdmits(l: Limit, rows: Counters, events: seq<RateEvent>, scope: string, b: int)
    requires l.Valid() && b == WindowStart(l, b) && (forall e <- events :: e.Request?)
    requires CountOf(rows, Slot(scope, b)) <= l.threshold
    ensures Admitted(RateAnswers(l, rows, events), scope, b, b + l.window)
         == Min(l.threshold - CountOf(rows, Slot(scope, b)), Asked(events, scope, b, b + l.window))
    decreases |events|
  {
    if events != [] {
      assert events[0] in events;
      var s, now := events[0].scope, events[0].now;
      InWindow(l, b, now);
      WindowAdmits(l, Counted(l, rows, s, now), events[1..], scope, b);
      assert RateAnswers(l, rows, events)[1..] == RateAnswers(l, Counted(l, rows, s, now), events[1..]);
    }
  }

  lemma {:induction false} RequestsOnly(events: seq<RateEvent>, scope: string, lo: int, hi: int)
    ensures (forall e <- Requests(events) :: e.Request?) && Asked(Requests(events), scope, lo, hi) == Asked(events, scope, lo, hi)
  {
    if events != [] {
      RequestsOnly(events[1..], scope, lo, hi);
      if events[0].Request? {
        assert Requests(events)[1..] == Requests(events[1..]);
      } else {
        assert Requests(events) == Requests(events[1..]);
      }
    }
  }

  /** A run from an empty table on a clock that never goes back, cleaning up nothing younger than a window. */
  predicate RateRun(l: Limit, events: seq<RateEvent>) {
    RateAges(events, l.window - 1) && (events == [] || RateClock(events, events[0].now))
  }

  /** Each aligned window admits exactly what is asked of it, up to the threshold. */
  lemma WindowBudget(l: Limit, events: seq<RateEvent>, scope: string, b: int)
    requires l.Valid() && RateRun(l, events) && b == WindowStart(l, b)
    ensures Admitted(RateAnswers(l, map[], events), scope, b, b + l.window) == Min(l.threshold, Asked(events, scope, b, b + l.window))
  {
    if events != [] { RateCleanupHarmless(l, map[], map[], events, events[0].now); }
    RequestsOnly(events, scope, b, b + l.window);
    WindowAdmits(l, map[], Requests(events), scope, b);
  }

  lemma {:induction false} AdmittedSplits(answers: seq<Answered>, scope: string, lo: int, mid: int, hi: int)
    requires lo <= mid <= hi
    ensures Admitted(answers, scope, lo, hi) == Admitted(answers, scope, lo, mid) + Admitted(answers, scope, mid, hi)
  {
    if answers != [] { AdmittedSplits(answers[1..], scope, lo, mid, hi); }
  }

  /** Any span no longer than the window admits at most twice the threshold. */
  lemma SpanBudget(l: Limit, events: seq<RateEvent>, scope: string, lo: int, hi: int)
    requires l.Valid() && RateRun(l, events) && lo <= hi <= lo + l.window
    ensures Admitted(RateAnswers(l, map[], events), scope, lo, hi) <= 2 * l.threshold
  {
    var answers, b, c := RateAnswers(l, map[], events), WindowStart(l, lo), WindowStart(l, lo) + l.window;
    WindowStartBounds(l, lo);
    NextWindow(l, lo);
    WindowBudget(l, events, scope, b);
    WindowBudget(l, events, scope, c);
    AdmittedSplits(answers, scope, b, lo, c + l.window);
    AdmittedSplits(answers, scope, lo, hi, c + l.window);
    AdmittedSplits(answers, scope, b, c, c + l.window);
  }

  lemma {:induction false} AdmittedBurst(scope: string, now: int, n: nat, rest: seq<Answered>, lo: int, hi: int)
    requires lo <= now < hi
    ensures Admitted(AllIn(scope, now, n) + rest, scope, lo, hi) == n + Admitted(rest, scope, lo, hi)
  {
    var xs := AllIn(scope, now, n) + rest;
    if n == 0 {
      assert xs == rest;
    } else {
      assert xs[1..] == AllIn(scope, now, n - 1) + rest;
      AdmittedBurst(scope, now, n - 1, rest, lo, hi);
    }
  }

  /** Twice the threshold is reached: a full window's requests just before a boundary, another's just after. */
  lemma SpanBudgetIsTight(l: Limit, scope: string)
    requires l.Valid() && l.window >= 2
    ensures var w := l.window;
            var events := Asking(scope, w - 1, l.threshold) + Asking(scope, w, l.threshold);
            RateRun(l, events) && Admitted(RateAnswers(l, map[], events), scope, w - 1, w + 1) == 2 * l.threshold
  {
    var w, n := l.window, l.threshold;
    var second := Asking(scope, w, n);
    InWindow(l, 0, w - 1);
    NextWindow(l, 0);
    var rows: Counters := map[Slot(scope, 0) := n];
    Burst(l, map[], scope, w - 1, n, second);
    assert second + [] == second;
    Burst(l, rows, scope, w, n, []);
    assert AllIn(scope, w, n) + [] == AllIn(scope, w, n);
    AdmittedBurst(scope, w - 1, n, AllIn(scope, w, n), w - 1, w + 1);
    AdmittedBurst(scope, w, n, [], w - 1, w + 1);
    ClockOf(scope, w, n, [], w - 1);
    ClockOf(scope, w - 1, n, second, w - 1);
  }

  lemma {:induction false} ClockOf(scope: string, now: int, n: nat, rest: seq<RateEvent>, from: int)
    requires from <= now && RateClock(rest, now)
    ensures RateClock(Asking(scope, now, n) + rest, from)
    decreases n
  {
    var events := Asking(scope, now, n) + rest;
    if n == 0 {
      assert events == rest;
    } else {
      assert events[1..] == Asking(scope, now, n - 1) + rest;
      ClockOf(scope, now, n - 1, rest, now);
    }
  }

  /** The run that shows what a younger cleanup does: it forgets a spent window that is still open. */
  function Forgetful(l: Limit, scope: string, maxAge: int): seq<RateEvent> {
    Asking(scope, 0, l.threshold) + [RateCleanup(maxAge, l.window - 1), Request(scope, l.window - 1)]
  }

  lemma YoungCleanupHarms(l: Limit, scope: string, maxAge: int)
    requires l.Valid() && maxAge + 1 < l.window
    ensures var events := Forgetful(l, scope, maxAge);
            RateClock(events, 0) && RateAnswers(l, map[], events) != RateAnswers(l, map[], Requests(events))
  {
    var n, t := l.threshold, l.window - 1;
    var rest, kept := [RateCleanup(maxAge, t), Request(scope, t)], [Request(scope, t)];
    var full: Counters := map[Slot(scope, 0) := n];
    InWindow(l, 0, 0);
    InWindow(l, 0, t);
    Burst(l, map[], scope, 0, n, rest);
    Burst(l, map[], scope, 0, n, kept);
    assert rest[1..] == kept && kept[1..] == [];
    assert RateAnswers(l, full, rest) == RateAnswers(l, Cleaned(full, maxAge, t), kept);
    assert RateAnswers(l, Cleaned(full, maxAge, t), kept)[0].admitted && !RateAnswers(l, full, kept)[0].admitted;
    assert Requests(rest) == kept by { assert Requests(kept) == kept; }
    RequestsOf(scope, 0, n, rest);
    assert RateClock(kept, t) && RateClock(rest, 0);
    ClockOf(scope, 0, n, rest, 0);
    var burst := AllIn(scope, 0, n);
    assert (burst + RateAnswers(l, full, kept))[n] == RateAnswers(l, full, kept)[0];
    assert (burst + RateAnswers(l, full, rest))[n] == RateAnswers(l, full, rest)[0];
  }

  lemma {:induction false} RequestsOf(scope: string, now: int, n: nat, rest: seq<RateEvent>)
    ensures Requests(Asking(scope, now, n) + rest) == Asking(scope, now, n) + Requests(rest)
    decreases n
  {
    var events := Asking(scope, now, n) + rest;
    if n == 0 {
      assert events == rest && Asking(scope, now, 0) == [];
    } else {
      assert events[1..] == Asking(scope, now, n - 1) + rest;
      RequestsOf(scope, now, n - 1, rest);
      assert [Request(scope, now)] + Asking(scope, now, n - 1) == Asking(scope, now, n);
    }
  }

  /** Cleaning up at this age changes no answer of any run. */
  ghost predicate RateCleanupUnseen(l: Limit, maxAge: int)
    requires l.Valid()
  {
    forall events, from {:trigger RateClock(events, from)} ::
      RateClock(events, from) && RateAges(events, maxAge) ==> RateAnswers(l, map[], events) == RateAnswers(l, map[], Requests(events))
  }

  /** Exactly the ages of at least a window, to the microsecond, are safe to clean up at. */
  lemma RateCleanupUnseenExactly(l: Limit, maxAge: int)
    requires l.Valid()
    ensures RateCleanupUnseen(l, maxAge) <==> maxAge + 1 >= l.window
  {
    if maxAge + 1 >= l.window {
      forall events, from | RateClock(events, from) && RateAges(events, maxAge)
        ensures RateAnswers(l, map[], events) == RateAnswers(l, map[], Requests(events))
      {
        RateCleanupHarmless(l, map[], map[], events, from);
      }
    } else {
      YoungCleanupHarms(l, "source", maxAge);
      assert RateAges(Forgetful(l, "source", maxAge), maxAge);
      assert RateClock(Forgetful(l, "source", maxAge), 0);
    }
  }
}
