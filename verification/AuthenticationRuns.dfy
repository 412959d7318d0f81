/**
 Concurrent authentications: requests in flight advance one atomic call at a time in any interleaving,
 while the token store may be rewritten at any moment.
 */
module AuthenticationRuns {
  import opened Wrappers
  import opened Authentication

  datatype System = System(shared: Shared, requests: map<nat, Request>)

  datatype Event =
    | Arrive(id: nat, token: string, source: string)
    | Step(id: nat)
    | Rewrite(tokens: map<string, TokenRecord>)   // provisioning and revocation, arbitrary

  /** What the bounds count requests by; l is a lookup_id. */
  datatype Kind =
    | InFlight
    | AtVerify(l: string)      // let through by Layer 1, secret not yet checked
    | AtRecord(l: string)      // secret found wrong, failure not yet recorded
    | FailedCheck(l: string)   // secret ever found wrong
    | PassedCheck(l: string)   // secret ever found right
    | AtCharge(l: string)      // secret found right, budget not yet consulted
    | Admitted(l: string)      // answered with a principal
    | Refused(l: string)       // answered with RateLimited

  predicate For(env: Env, r: Request, l: string) {
    env.parse(r.token).Some? && env.parse(r.token).value.lookupId == l
  }

  predicate Is(env: Env, r: Request, kind: Kind) {
    match kind
    case InFlight => !r.phase.Done?
    case AtVerify(l) => r.phase.Verifying? && r.phase.parsed.lookupId == l
    case AtRecord(l) => r.phase.RecordingLookup? && r.phase.lookupId == l
    case FailedCheck(l) => r.verdict == Some(false) && For(env, r, l)
    case PassedCheck(l) => r.verdict == Some(true) && For(env, r, l)
    case AtCharge(l) => r.phase.Charging? && r.phase.record.lookupId == l
    case Admitted(l) => r.phase.Done? && r.phase.outcome.Authenticated? && r.phase.outcome.principal.lookupId == l
    case Refused(l) => r.phase == Done(RateLimited) && For(env, r, l)
  }

  function Those(env: Env, requests: map<nat, Request>, kind: Kind): set<nat> {
    set id | id in requests && Is(env, requests[id], kind)
  }

  function Count(env: Env, requests: map<nat, Request>, kind: Kind): nat { |Those(env, requests, kind)| }

  predicate Keyed(tokens: map<string, TokenRecord>) { forall l <- tokens :: tokens[l].lookupId == l }

  predicate Possible(env: Env, k: nat, sys: System, e: Event) {
    match e
    case Arrive(id, _, _) => id !in sys.requests && Count(env, sys.requests, InFlight) < k
    case Step(id) => id in sys.requests
    case Rewrite(tokens) => Keyed(tokens)
  }

  function Next(env: Env, sys: System, e: Event): System
    requires e.Step? ==> e.id in sys.requests
  {
    match e
    case Arrive(id, token, source) => sys.(requests := sys.requests[id := Arrived(token, source)])
    case Step(id) =>
      var p := Advance(env, sys.shared, sys.requests[id]);
      System(p.shared, sys.requests[id := p.request])
    case Rewrite(tokens) => sys.(shared := sys.shared.(tokens := tokens))
  }

  /** The system after a run of events, None if one of them was not possible with at most k in flight. */
  function Execute(env: Env, k: nat, sys: System, events: seq<Event>): Option<System>
    decreases |events|
  {
    if events == [] then Some(sys)
    else if !Possible(env, k, sys, events[0]) then None
    else Execute(env, k, Next(env, sys, events[0]), events[1..])
  }

  function Initial(tokens: map<string, TokenRecord>): System { System(Shared(tokens, map[], map[], map[]), map[]) }

  // ---- Invariant ----

  /** A request's phase and verdict fit the token it presented. */
  predicate Fits(env: Env, r: Request) {
    && (r.verdict.Some? ==> env.parse(r.token).Some?)
    && match r.phase
       case CheckingSource => r.verdict.None?
       case LookingUp(p) => r.verdict.None? && env.parse(r.token) == Some(p)
       case CheckingLookup(p, record) => r.verdict.None? && env.parse(r.token) == Some(p) && record.lookupId == p.lookupId && !record.revoked
       case Verifying(p, record) => r.verdict.None? && env.parse(r.token) == Some(p) && record.lookupId == p.lookupId && !record.revoked
       case RecordingLookup(l) => r.verdict == Some(false) && For(env, r, l)
       case RecordingSource => r.verdict != Some(true)
       case Charging(record) => r.verdict == Some(true) && For(env, r, record.lookupId)
       case Done(Authenticated(principal)) => r.verdict == Some(true) && For(env, r, principal.lookupId)
       case Done(RateLimited) => r.verdict == Some(true)
       case Done(AuthenticationFailed) => r.verdict != Some(true)
  }

  /** Layer 1 accounting for one lookup_id. */
  predicate LookupInv(env: Env, k: nat, sys: System, l: string) {
    && Count(env, sys.requests, FailedCheck(l)) == CountFor(sys.shared.lookupFailures, l) + Count(env, sys.requests, AtRecord(l))
    && Count(env, sys.requests, FailedCheck(l)) + Count(env, sys.requests, AtVerify(l)) <= env.lookupThreshold + k - 1
  }

  /** Layer 3 accounting for one lookup_id. */
  predicate TokenInv(env: Env, sys: System, l: string) {
    && Count(env, sys.requests, Admitted(l)) == CountFor(sys.shared.tokenRequests, l) <= env.tokenThreshold
    && Count(env, sys.requests, PassedCheck(l))
         == Count(env, sys.requests, AtCharge(l)) + Count(env, sys.requests, Admitted(l)) + Count(env, sys.requests, Refused(l))
    && (Count(env, sys.requests, Refused(l)) > 0 ==> Count(env, sys.requests, Admitted(l)) == env.tokenThreshold)
  }

  ghost predicate Inv(env: Env, k: nat, sys: System) {
    && Keyed(sys.shared.tokens)
    && Count(env, sys.requests, InFlight) <= k
    && (forall id <- sys.requests :: Fits(env, sys.requests[id]))
    && (forall l :: LookupInv(env, k, sys, l))
    && (forall l :: TokenInv(env, sys, l))
  }

  /** Replacing or adding one request changes a count by that request alone. */
  lemma CountUpdate(env: Env, requests: map<nat, Request>, id: nat, r: Request, kind: Kind)
    ensures Count(env, requests[id := r], kind)
         == Count(env, requests, kind) + Indicator(Is(env, r, kind)) - Indicator(id in requests && Is(env, requests[id], kind))
  {
    var a, b := Those(env, requests, kind), Those(env, requests[id := r], kind);
    assert a - {id} == b - {id};
    DifferAtOne(a, b, id);
  }

  lemma DifferAtOne(a: set<nat>, b: set<nat>, id: nat)
    requires a - {id} == b - {id}
    ensures |b| == |a| + Indicator(id in b) - Indicator(id in a)
  {
    assert |a - {id}| == |a| - Indicator(id in a) && |b - {id}| == |b| - Indicator(id in b);
  }

  /** Requests at the two places are different requests in flight. */
  lemma VerifyAndRecordInFlight(env: Env, requests: map<nat, Request>, l: string)
    ensures Count(env, requests, AtVerify(l)) + Count(env, requests, AtRecord(l)) <= Count(env, requests, InFlight)
  {
    var a, b, c := Those(env, requests, AtVerify(l)), Those(env, requests, AtRecord(l)), Those(env, requests, InFlight);
    assert a !! b && a + b <= c;
    assert |a + b| == |a| + |b|;
    Subset(a + b, c);
  }

  lemma {:induction false} Subset(a: set<nat>, b: set<nat>)
    requires a <= b
    ensures |a| <= |b|
  {
    assert b == a + (b - a);
  }

  lemma StepFits(env: Env, s: Shared, r: Request)
    requires Fits(env, r) && Keyed(s.tokens)
    ensures Fits(env, Advance(env, s, r).request) && Advance(env, s, r).shared.tokens == s.tokens
    ensures !Advance(env, s, r).request.phase.Done? ==> !r.phase.Done?
  {
  }

  /** Only three places touch what Layer 1 counts. */
  lemma LookupPlaces(env: Env, s: Shared, r: Request, l: string)
    requires Fits(env, r) && Keyed(s.tokens)
    ensures var p := Advance(env, s, r);
      && (p.shared.lookupFailures == if r.phase.RecordingLookup? then Bumped(s.lookupFailures, r.phase.lookupId) else s.lookupFailures)
      && Indicator(Is(env, p.request, FailedCheck(l))) == Indicator(Is(env, r, FailedCheck(l)))
           + Indicator(r.phase.Verifying? && For(env, r, l) && p.request.verdict == Some(false))
      && (Is(env, p.request, AtRecord(l)) <==> r.phase.Verifying? && For(env, r, l) && p.request.verdict == Some(false))
      && (Is(env, r, AtRecord(l)) <==> r.phase.RecordingLookup? && r.phase.lookupId == l)
      && (Is(env, p.request, AtVerify(l)) <==> r.phase.CheckingLookup? && For(env, r, l) && CountFor(s.lookupFailures, l) < env.lookupThreshold)
      && (Is(env, r, AtVerify(l)) <==> r.phase.Verifying? && For(env, r, l))
  {
  }

  lemma StepKeepsLookup(env: Env, k: nat, sys: System, id: nat, l: string)
    requires env.Valid() && id in sys.requests && Fits(env, sys.requests[id]) && LookupInv(env, k, sys, l)
    requires Count(env, sys.requests, InFlight) <= k
    requires Keyed(sys.shared.tokens)
    ensures LookupInv(env, k, Next(env, sys, Step(id)), l)
  {
    var r, next := sys.requests[id], Next(env, sys, Step(id));
    var r' := next.requests[id];
    StepFits(env, sys.shared, r);
    LookupPlaces(env, sys.shared, r, l);
    CountUpdate(env, sys.requests, id, r', FailedCheck(l));
    CountUpdate(env, sys.requests, id, r', AtVerify(l));
    CountUpdate(env, sys.requests, id, r', AtRecord(l));
    CountUpdate(env, sys.requests, id, r', InFlight);
    VerifyAndRecordInFlight(env, next.requests, l);
  }

  /** Only two places touch what Layer 3 counts. */
  lemma TokenPlaces(env: Env, s: Shared, r: Request, l: string)
    requires Fits(env, r) && Keyed(s.tokens)
    ensures var p := Advance(env, s, r);
      var charging, within := r.phase.Charging? && For(env, r, l), CountFor(s.tokenRequests, l) < env.tokenThreshold;
      && CountFor(p.shared.tokenRequests, l) == CountFor(s.tokenRequests, l) + Indicator(charging && within)
      && Indicator(Is(env, p.request, PassedCheck(l))) == Indicator(Is(env, r, PassedCheck(l))) + Indicator(Is(env, p.request, AtCharge(l)))
      && (Is(env, r, AtCharge(l)) <==> charging)
      && Indicator(Is(env, p.request, Admitted(l))) == Indicator(Is(env, r, Admitted(l))) + Indicator(charging && within)
      && Indicator(Is(env, p.request, Refused(l))) == Indicator(Is(env, r, Refused(l))) + Indicator(charging && !within)
  {
  }

  lemma StepKeepsToken(env: Env, sys: System, id: nat, l: string)
    requires env.Valid() && id in sys.requests && Fits(env, sys.requests[id]) && TokenInv(env, sys, l)
    requires Keyed(sys.shared.tokens)
    ensures TokenInv(env, Next(env, sys, Step(id)), l)
  {
    var r, next := sys.requests[id], Next(env, sys, Step(id));
    var r' := next.requests[id];
    TokenPlaces(env, sys.shared, r, l);
    CountUpdate(env, sys.requests, id, r', PassedCheck(l));
    CountUpdate(env, sys.requests, id, r', AtCharge(l));
    CountUpdate(env, sys.requests, id, r', Admitted(l));
    CountUpdate(env, sys.requests, id, r', Refused(l));
  }

  lemma ArriveKeeps(env: Env, k: nat, sys: System, id: nat, token: string, source: string, l: string)
    requires id !in sys.requests && LookupInv(env, k, sys, l) && TokenInv(env, sys, l)
    ensures var next := Next(env, sys, Arrive(id, token, source)); LookupInv(env, k, next, l) && TokenInv(env, next, l)
  {
    var r := Arrived(token, source);
    CountUpdate(env, sys.requests, id, r, FailedCheck(l));
    CountUpdate(env, sys.requests, id, r, AtVerify(l));
    CountUpdate(env, sys.requests, id, r, AtRecord(l));
    CountUpdate(env, sys.requests, id, r, PassedCheck(l));
    CountUpdate(env, sys.requests, id, r, AtCharge(l));
    CountUpdate(env, sys.requests, id, r, Admitted(l));
    CountUpdate(env, sys.requests, id, r, Refused(l));
  }

  lemma NextKeepsInv(env: Env, k: nat, sys: System, e: Event)
    requires env.Valid() && Inv(env, k, sys) && Possible(env, k, sys, e)
    ensures Inv(env, k, Next(env, sys, e))
  {
    var next := Next(env, sys, e);
    match e {
      case Arrive(id, token, source) =>
        CountUpdate(env, sys.requests, id, Arrived(token, source), InFlight);
        forall l ensures LookupInv(env, k, next, l) && TokenInv(env, next, l) { ArriveKeeps(env, k, sys, id, token, source, l); }
      case Step(id) =>
        StepFits(env, sys.shared, sys.requests[id]);
        CountUpdate(env, sys.requests, id, next.requests[id], InFlight);
        forall l ensures LookupInv(env, k, next, l) { StepKeepsLookup(env, k, sys, id, l); }
        forall l ensures TokenInv(env, next, l) { StepKeepsToken(env, sys, id, l); }
      case Rewrite(tokens) =>
        forall l ensures LookupInv(env, k, next, l) && TokenInv(env, next, l) { assert LookupInv(env, k, sys, l) && TokenInv(env, sys, l); }
    }
  }

  lemma {:induction false} ExecuteKeepsInv(env: Env, k: nat, sys: System, events: seq<Event>)
    requires env.Valid() && Inv(env, k, sys)
    ensures var end := Execute(env, k, sys, events); end.Some? ==> Inv(env, k, end.value)
    decreases |events|
  {
    if events != [] && Possible(env, k, sys, events[0]) {
      NextKeepsInv(env, k, sys, events[0]);
      ExecuteKeepsInv(env, k, Next(env, sys, events[0]), events[1..]);
    }
  }

  lemma InitialInv(env: Env, k: nat, tokens: map<string, TokenRecord>)
    requires env.Valid() && Keyed(tokens)
    ensures Inv(env, k, Initial(tokens))
  {
    forall kind ensures Count(env, Initial(tokens).requests, kind) == 0 {
      assert Those(env, Initial(tokens).requests, kind) == {};
    }
  }

  // ---- What every run keeps ----

  /**
   With at most k requests in flight at once, no run checks and rejects secrets for one lookup_id more
   than threshold + k - 1 times.
   */
  lemma WorkBound(env: Env, k: nat, tokens: map<string, TokenRecord>, events: seq<Event>, l: string)
    requires env.Valid() && Keyed(tokens)
    ensures var end := Execute(env, k, Initial(tokens), events);
            end.Some? ==> Count(env, end.value.requests, FailedCheck(l)) <= env.lookupThreshold + k - 1
  {
    InitialInv(env, k, tokens);
    ExecuteKeepsInv(env, k, Initial(tokens), events);
    var end := Execute(env, k, Initial(tokens), events);
    if end.Some? { assert LookupInv(env, k, end.value, l); }
  }

  /**
   Every verified request consults the token budget once, no other request does, and the first
   tokenThreshold of them are the ones let through.
   */
  lemma BudgetExactly(env: Env, k: nat, tokens: map<string, TokenRecord>, events: seq<Event>, l: string)
    requires env.Valid() && Keyed(tokens)
    ensures var end := Execute(env, k, Initial(tokens), events);
            end.Some? ==>
              var passed, waiting, admitted := Count(env, end.value.requests, PassedCheck(l)),
                                               Count(env, end.value.requests, AtCharge(l)),
                                               Count(env, end.value.requests, Admitted(l));
              && admitted == CountFor(end.value.shared.tokenRequests, l)
              && admitted == if passed - waiting < env.tokenThreshold then passed - waiting else env.tokenThreshold
  {
    InitialInv(env, k, tokens);
    ExecuteKeepsInv(env, k, Initial(tokens), events);
    var end := Execute(env, k, Initial(tokens), events);
    if end.Some? { assert TokenInv(env, end.value, l); }
  }

  // ---- Only identified, unrevoked tokens are ever verified ----

  /** The request has been let past the token lookup. */
  predicate Identified(r: Request) { r.verdict.Some? || r.phase.CheckingLookup? || r.phase.Verifying? }

  predicate Live(tokens: map<string, TokenRecord>, l: string) { l in tokens && !tokens[l].revoked }

  /** After these events lookup_id l is known and unrevoked, and the request has arrived. */
  ghost predicate LiveWith(env: Env, k: nat, tokens: map<string, TokenRecord>, events: seq<Event>, id: nat, l: string) {
    var s := Execute(env, k, Initial(tokens), events);
    s.Some? && id in s.value.requests && Live(s.value.shared.tokens, l)
  }

  /** A request gets past the token lookup only by finding a live token. */
  lemma StepIdentifies(env: Env, before: System, e: Event, id: nat)
    requires forall i <- before.requests :: Fits(env, before.requests[i])
    requires e.Arrive? ==> e.id !in before.requests
    requires e.Step? ==> e.id in before.requests
    requires id in Next(env, before, e).requests && Identified(Next(env, before, e).requests[id])
    ensures id in before.requests
    ensures var r := before.requests[id];
      && r.token == Next(env, before, e).requests[id].token && env.parse(r.token).Some?
      && (Identified(r) || Live(before.shared.tokens, env.parse(r.token).value.lookupId))
  {
    assert id in before.requests;
    assert Fits(env, before.requests[id]);
  }

  lemma {:induction false} ExecuteLast(env: Env, k: nat, start: System, events: seq<Event>)
    requires events != [] && Execute(env, k, start, events).Some?
    ensures var n := |events| - 1;
            var before := Execute(env, k, start, events[..n]);
            && before.Some? && Possible(env, k, before.value, events[n])
            && Execute(env, k, start, events) == Some(Next(env, before.value, events[n]))
    decreases |events|
  {
    if |events| == 1 {
      assert events[..0] == [] && events[1..] == [];
    } else {
      var n := |events| - 1;
      ExecuteLast(env, k, Next(env, start, events[0]), events[1..]);
      assert events[1..][..n - 1] == events[..n][1..];
    }
  }

  /**
   A secret is only ever checked for a well-formed token whose lookup_id was known and not revoked at
   some moment of the run, while the request was in flight: malformed, unknown and revoked tokens never
   reach verification.
   */
  lemma {:induction false} VerifiedWasLive(env: Env, k: nat, tokens: map<string, TokenRecord>, events: seq<Event>, id: nat)
    requires env.Valid() && Keyed(tokens)
    requires var end := Execute(env, k, Initial(tokens), events);
             end.Some? && id in end.value.requests && Identified(end.value.requests[id])
    ensures var r := Execute(env, k, Initial(tokens), events).value.requests[id];
            && env.parse(r.token).Some?
            && exists i :: 0 <= i <= |events| && LiveWith(env, k, tokens, events[..i], id, env.parse(r.token).value.lookupId)
    decreases |events|
  {
    if events != [] {
      var n := |events| - 1;
      ExecuteLast(env, k, Initial(tokens), events);
      InitialInv(env, k, tokens);
      ExecuteKeepsInv(env, k, Initial(tokens), events[..n]);
      var before := Execute(env, k, Initial(tokens), events[..n]).value;
      StepIdentifies(env, before, events[n], id);
      var l := env.parse(before.requests[id].token).value.lookupId;
      if Identified(before.requests[id]) {
        VerifiedWasLive(env, k, tokens, events[..n], id);
        var i :| 0 <= i <= n && LiveWith(env, k, tokens, events[..n][..i], id, l);
        assert events[..n][..i] == events[..i];
      } else {
        assert LiveWith(env, k, tokens, events[..n], id, l);
      }
    }
  }

  // ---- Whose principal a request is answered with ----

  /** The request has taken token record t from the store. */
  predicate Holds(r: Request, t: TokenRecord) {
    match r.phase
    case CheckingLookup(_, record) => record == t
    case Verifying(_, record) => record == t
    case Charging(record) => record == t
    case _ => false
  }

  predicate SecretFits(env: Env, r: Request, t: TokenRecord) {
    env.parse(r.token).Some? && env.verify(env.parse(r.token).value.secret, t.secretHash)
  }

  /** After these events the request is about to look its token up, and t stands unrevoked under its lookup_id. */
  ghost predicate StoodWith(env: Env, k: nat, tokens: map<string, TokenRecord>, events: seq<Event>, id: nat, t: TokenRecord) {
    var s := Execute(env, k, Initial(tokens), events);
    && s.Some? && id in s.value.requests && s.value.requests[id].phase.LookingUp?
    && For(env, s.value.requests[id], t.lookupId)
    && t.lookupId in s.value.shared.tokens && s.value.shared.tokens[t.lookupId] == t && !t.revoked
  }

  /** A request takes its token record from the store once, and is charged only once the secret has matched it. */
  lemma StepHolds(env: Env, before: System, e: Event, id: nat, t: TokenRecord)
    requires Keyed(before.shared.tokens) && forall i <- before.requests :: Fits(env, before.requests[i])
    requires e.Arrive? ==> e.id !in before.requests
    requires e.Step? ==> e.id in before.requests
    requires id in Next(env, before, e).requests && Holds(Next(env, before, e).requests[id], t)
    ensures id in before.requests
    ensures var r, next := before.requests[id], Next(env, before, e).requests[id];
            && r.token == next.token
            && (next.phase.Charging? ==> r.phase.Charging? || SecretFits(env, next, t))
            && (|| Holds(r, t)
                || (&& r.phase.LookingUp? && For(env, r, t.lookupId) && !next.phase.Charging?
                    && t.lookupId in before.shared.tokens && before.shared.tokens[t.lookupId] == t && !t.revoked))
  {
    assert id in before.requests && Fits(env, before.requests[id]);
  }

  lemma {:induction false} HeldStood(env: Env, k: nat, tokens: map<string, TokenRecord>, events: seq<Event>, id: nat, t: TokenRecord)
    returns (i: nat)
    requires env.Valid() && Keyed(tokens)
    requires var end := Execute(env, k, Initial(tokens), events);
             end.Some? && id in end.value.requests && Holds(end.value.requests[id], t)
    ensures i <= |events| && StoodWith(env, k, tokens, events[..i], id, t)
    ensures var r := Execute(env, k, Initial(tokens), events).value.requests[id]; r.phase.Charging? ==> SecretFits(env, r, t)
    decreases |events|
  {
    if events != [] {
      var n := |events| - 1;
      ExecuteLast(env, k, Initial(tokens), events);
      InitialInv(env, k, tokens);
      ExecuteKeepsInv(env, k, Initial(tokens), events[..n]);
      var before := Execute(env, k, Initial(tokens), events[..n]).value;
      StepHolds(env, before, events[n], id, t);
      if Holds(before.requests[id], t) {
        i := HeldStood(env, k, tokens, events[..n], id, t);
        assert events[..n][..i] == events[..i];
      } else {
        i := n;
      }
    }
  }

  /** The request was answered with exactly this record's identity, tenant and scopes, and its secret matches it. */
  predicate AnsweredAs(env: Env, r: Request, t: TokenRecord) {
    && r.phase.Done? && r.phase.outcome.Authenticated? && SecretFits(env, r, t)
    && r.phase.outcome.principal.lookupId == t.lookupId
    && r.phase.outcome.principal.tenant == t.tenant
    && r.phase.outcome.principal.scopes == t.scopes
  }

  /** A principal is issued by the charging step, from the record the request holds. */
  lemma StepAnswers(env: Env, before: System, e: Event, id: nat)
    requires e.Arrive? ==> e.id !in before.requests
    requires e.Step? ==> e.id in before.requests
    requires id in Next(env, before, e).requests
    requires var r := Next(env, before, e).requests[id]; r.phase.Done? && r.phase.outcome.Authenticated?
    ensures id in before.requests
    ensures var r, next := before.requests[id], Next(env, before, e).requests[id];
            || r == next
            || (r.phase.Charging? && (SecretFits(env, r, r.phase.record) ==> AnsweredAs(env, next, r.phase.record)))
  {
  }

  /**
   A principal is issued for a token record that stood unrevoked under its lookup_id when its request looked
   the token up: the secret matches that record, and identity, tenant and scopes are that record's, whatever
   the token store holds by the time the answer is given.
   */
  lemma {:induction false} PrincipalIsARecords(env: Env, k: nat, tokens: map<string, TokenRecord>, events: seq<Event>, id: nat)
    requires env.Valid() && Keyed(tokens)
    requires var end := Execute(env, k, Initial(tokens), events);
             end.Some? && id in end.value.requests && end.value.requests[id].phase.Done? && end.value.requests[id].phase.outcome.Authenticated?
    ensures exists t, i :: 0 <= i <= |events| && StoodWith(env, k, tokens, events[..i], id, t)
                           && AnsweredAs(env, Execute(env, k, Initial(tokens), events).value.requests[id], t)
    decreases |events|
  {
    if events != [] {
      var n := |events| - 1;
      ExecuteLast(env, k, Initial(tokens), events);
      var before := Execute(env, k, Initial(tokens), events[..n]).value;
      StepAnswers(env, before, events[n], id);
      if before.requests[id] == Execute(env, k, Initial(tokens), events).value.requests[id] {
        PrincipalIsARecords(env, k, tokens, events[..n], id);
        var t, i :| 0 <= i <= n && StoodWith(env, k, tokens, events[..n][..i], id, t) && AnsweredAs(env, before.requests[id], t);
        assert events[..n][..i] == events[..i];
      } else {
        var t := before.requests[id].phase.record;
        var i := HeldStood(env, k, tokens, events[..n], id, t);
        assert events[..n][..i] == events[..i];
      }
    }
  }
}
