/** The work bound is reached: k requests pass Layer 1's check together before any of them records its failure. */
module AuthenticationTight {
  import opened Wrappers
  import opened Authentication
  import opened AuthenticationRuns

  /** Someone presents a known, unrevoked lookup_id with a wrong secret, again and again. */
  datatype Scenario = Scenario(env: Env, k: nat, tokens: map<string, TokenRecord>, token: string)
  {
    predicate Valid() {
      && env.Valid() && k >= 1 && Keyed(tokens)
      && env.parse(token).Some? && L() in tokens && !tokens[L()].revoked
      && !env.verify(env.parse(token).value.secret, tokens[L()].secretHash)
    }

    function L(): string
      requires env.parse(token).Some?
    {
      env.parse(token).value.lookupId
    }

    /** The n-th request, from a source of its own. */
    function Waiting(n: nat): Request
      requires Valid()
    {
      Request(token, Source(n), Verifying(env.parse(token).value, tokens[L()]), None)
    }

    function Rejected(n: nat): Request
      requires Valid()
    {
      Request(token, Source(n), RecordingLookup(L()), Some(false))
    }
  }

  function Source(n: nat): string { seq(n, _ => 's') }

  ghost predicate Reachable(x: Scenario, sys: System) {
    exists events :: Execute(x.env, x.k, Initial(x.tokens), events) == Some(sys)
  }

  lemma {:induction false} ExecuteSnoc(env: Env, k: nat, start: System, events: seq<Event>, e: Event)
    requires Execute(env, k, start, events).Some?
    requires Possible(env, k, Execute(env, k, start, events).value, e)
    ensures Execute(env, k, start, events + [e]) == Some(Next(env, Execute(env, k, start, events).value, e))
    decreases |events|
  {
    if events == [] {
      assert (events + [e])[1..] == [];
    } else {
      assert (events + [e])[1..] == events[1..] + [e];
      ExecuteSnoc(env, k, Next(env, start, events[0]), events[1..], e);
    }
  }

  lemma Onward(x: Scenario, sys: System, e: Event)
    requires Reachable(x, sys) && Possible(x.env, x.k, sys, e)
    ensures Reachable(x, Next(x.env, sys, e))
  {
    var events :| Execute(x.env, x.k, Initial(x.tokens), events) == Some(sys);
    ExecuteSnoc(x.env, x.k, Initial(x.tokens), events, e);
  }

  /** n requests so far: c failures recorded, f in flight, v of them past the check, d secrets rejected. */
  ghost predicate At(x: Scenario, sys: System, n: nat, c: nat, f: nat, v: nat, d: nat)
    requires x.Valid()
  {
    && Reachable(x, sys)
    && (forall i: nat :: i in sys.requests <==> i < n)
    && sys.shared.tokens == x.tokens
    && CountFor(sys.shared.lookupFailures, x.L()) == c
    && (forall s <- sys.shared.sourceFailures :: |s| < n)
    && Count(x.env, sys.requests, InFlight) == f
    && Count(x.env, sys.requests, AtVerify(x.L())) == v
    && Count(x.env, sys.requests, FailedCheck(x.L())) == d
  }

  /** How putting r under id changes a count. */
  function Recount(x: Scenario, requests: map<nat, Request>, id: nat, r: Request, kind: Kind): int {
    Count(x.env, requests, kind) + Indicator(Is(x.env, r, kind)) - Indicator(id in requests && Is(x.env, requests[id], kind))
  }

  lemma Counts(x: Scenario, sys: System, next: System, id: nat, r: Request)
    requires x.Valid() && next.requests == sys.requests[id := r]
    ensures Count(x.env, next.requests, InFlight) == Recount(x, sys.requests, id, r, InFlight)
    ensures Count(x.env, next.requests, AtVerify(x.L())) == Recount(x, sys.requests, id, r, AtVerify(x.L()))
    ensures Count(x.env, next.requests, FailedCheck(x.L())) == Recount(x, sys.requests, id, r, FailedCheck(x.L()))
  {
    CountUpdate(x.env, sys.requests, id, r, InFlight);
    CountUpdate(x.env, sys.requests, id, r, AtVerify(x.L()));
    CountUpdate(x.env, sys.requests, id, r, FailedCheck(x.L()));
  }

  /** A new request gets as far as the secret check. */
  lemma Enter(x: Scenario, sys: System, n: nat, c: nat, f: nat, v: nat, d: nat) returns (next: System)
    requires x.Valid() && At(x, sys, n, c, f, v, d) && f < x.k && c < x.env.lookupThreshold
    ensures At(x, next, n + 1, c, f + 1, v + 1, d) && next.requests == sys.requests[n := x.Waiting(n)]
  {
    assert n !in sys.requests;
    var s1 := Next(x.env, sys, Arrive(n, x.token, Source(n)));
    Onward(x, sys, Arrive(n, x.token, Source(n)));
    assert Source(n) !in sys.shared.sourceFailures;
    next := PassChecks(x, s1, n);
    assert next.requests == sys.requests[n := x.Waiting(n)];
    Counts(x, sys, next, n, x.Waiting(n));
  }

  /** Layer 2, the token lookup and Layer 1 let an arrived request through. */
  lemma PassChecks(x: Scenario, s1: System, n: nat) returns (next: System)
    requires x.Valid() && Reachable(x, s1) && n in s1.requests && s1.requests[n] == Arrived(x.token, Source(n))
    requires s1.shared.tokens == x.tokens && Source(n) !in s1.shared.sourceFailures
    requires CountFor(s1.shared.lookupFailures, x.L()) < x.env.lookupThreshold
    ensures Reachable(x, next) && next == System(s1.shared, s1.requests[n := x.Waiting(n)])
  {
    var s2 := Next(x.env, s1, Step(n));
    Onward(x, s1, Step(n));
    var s3 := Next(x.env, s2, Step(n));
    Onward(x, s2, Step(n));
    next := Next(x.env, s3, Step(n));
    Onward(x, s3, Step(n));
  }

  /** Its secret is found wrong. */
  lemma Reject(x: Scenario, sys: System, id: nat, n: nat, c: nat, f: nat, v: nat, d: nat) returns (next: System)
    requires x.Valid() && At(x, sys, n, c, f, v, d) && id < n && sys.requests[id] == x.Waiting(id)
    ensures v > 0 && At(x, next, n, c, f, v - 1, d + 1) && next.requests == sys.requests[id := x.Rejected(id)]
  {
    next := Next(x.env, sys, Step(id));
    Onward(x, sys, Step(id));
    Counts(x, sys, next, id, x.Rejected(id));
  }

  /** Its failure is recorded and it is answered. */
  lemma Settle(x: Scenario, sys: System, id: nat, n: nat, c: nat, f: nat, v: nat, d: nat) returns (next: System)
    requires x.Valid() && At(x, sys, n, c, f, v, d) && id < n && sys.requests[id] == x.Rejected(id)
    ensures f > 0 && At(x, next, n, c + 1, f - 1, v, d)
  {
    var s1 := Next(x.env, sys, Step(id));
    Onward(x, sys, Step(id));
    next := Next(x.env, s1, Step(id));
    Onward(x, s1, Step(id));
    var r := x.Rejected(id).(phase := Done(AuthenticationFailed));
    assert next.requests == sys.requests[id := r];
    Counts(x, sys, next, id, r);
  }

  /** One after the other, m requests fail and are recorded. */
  lemma {:induction false} FailInTurn(x: Scenario, m: nat) returns (sys: System)
    requires x.Valid() && m < x.env.lookupThreshold
    ensures At(x, sys, m, m, 0, 0, m)
  {
    if m == 0 {
      sys := Initial(x.tokens);
      assert Execute(x.env, x.k, sys, []) == Some(sys);
      assert Those(x.env, sys.requests, InFlight) == {} && Those(x.env, sys.requests, AtVerify(x.L())) == {}
          && Those(x.env, sys.requests, FailedCheck(x.L())) == {};
    } else {
      var before := FailInTurn(x, m - 1);
      var entered := Enter(x, before, m - 1, m - 1, 0, 0, m - 1);
      var rejected := Reject(x, entered, m - 1, m, m - 1, 1, 1, m - 1);
      sys := Settle(x, rejected, m - 1, m, m - 1, 1, 0, m);
    }
  }

  /** Then j more get past Layer 1 while none of them has recorded anything. */
  lemma {:induction false} EnterTogether(x: Scenario, j: nat) returns (sys: System)
    requires x.Valid() && j <= x.k
    ensures var t := x.env.lookupThreshold - 1;
      At(x, sys, t + j, t, j, j, t) && forall i :: t <= i < t + j ==> sys.requests[i] == x.Waiting(i)
  {
    var t := x.env.lookupThreshold - 1;
    if j == 0 {
      sys := FailInTurn(x, t);
    } else {
      var before := EnterTogether(x, j - 1);
      sys := Enter(x, before, t + j - 1, t, j - 1, j - 1, t);
    }
  }

  /** And the first j of those k secrets are checked. */
  lemma {:induction false} RejectTogether(x: Scenario, j: nat) returns (sys: System)
    requires x.Valid() && j <= x.k
    ensures var t := x.env.lookupThreshold - 1;
      && At(x, sys, t + x.k, t, x.k, x.k - j, t + j)
      && forall i :: t + j <= i < t + x.k ==> sys.requests[i] == x.Waiting(i)
  {
    var t := x.env.lookupThreshold - 1;
    if j == 0 {
      sys := EnterTogether(x, x.k);
    } else {
      var before := RejectTogether(x, j - 1);
      sys := Reject(x, before, t + j - 1, t + x.k, t, x.k, x.k - (j - 1), t + j - 1);
    }
  }

  /** The bound of WorkBound is attained, whatever the thresholds and however many may be in flight. */
  lemma WorkBoundReached(x: Scenario)
    requires x.Valid()
    ensures exists events ::
      var end := Execute(x.env, x.k, Initial(x.tokens), events);
      end.Some? && Count(x.env, end.value.requests, FailedCheck(x.L())) == x.env.lookupThreshold + x.k - 1
  {
    var sys := RejectTogether(x, x.k);
    var events :| Execute(x.env, x.k, Initial(x.tokens), events) == Some(sys);
  }
}
