/**
 The layered authentication flow (src/cloudops_guard/ingestion/authenticator.py) over the reference
 limiters and token store (src/cloudops_guard/ingestion/reference.py). Token parsing and secret
 verification are functions of their arguments about which nothing else is assumed.
 */
module Authentication {
  import opened Wrappers

  datatype Scope = ReportsWrite | ReportsRead | ReportsDelete

  datatype TokenRecord = TokenRecord(lookupId: string, tenant: string, secretHash: string, scopes: set<Scope>, revoked: bool)

  datatype Parsed = Parsed(lookupId: string, secret: string)

  datatype Principal = Principal(lookupId: string, tenant: string, scopes: set<Scope>)

  function PrincipalOf(r: TokenRecord): Principal { Principal(r.lookupId, r.tenant, r.scopes) }

  datatype Outcome = Authenticated(principal: Principal) | AuthenticationFailed | RateLimited

  datatype Env = Env(parse: string -> Option<Parsed>, verify: (string, string) -> bool,
                     lookupThreshold: nat, sourceThreshold: nat, tokenThreshold: nat)
  {
    predicate Valid() { lookupThreshold >= 1 && sourceThreshold >= 1 && tokenThreshold >= 1 }
  }

  type Counts = map<string, nat>

  function CountFor(counts: Counts, key: string): nat { if key in counts then counts[key] else 0 }

  function Bumped(counts: Counts, key: string): Counts { counts[key := CountFor(counts, key) + 1] }

  // ---- The reference limiters ----

  class InMemoryAttemptLimiter {
    const threshold: nat
    var failureCounts: Counts

    constructor (threshold: nat)
      requires threshold >= 1
      ensures this.threshold == threshold && failureCounts == map[]
    {
      this.threshold := threshold;
      failureCounts := map[];
    }

    method RecordFailure(key: string)
      modifies this
      ensures failureCounts == Bumped(old(failureCounts), key)
    {
      failureCounts := failureCounts[key := (if key in failureCounts then failureCounts[key] else 0) + 1];
    }

    method IsBlocked(key: string) returns (blocked: bool)
      ensures blocked <==> CountFor(failureCounts, key) >= threshold
    {
      blocked := (if key in failureCounts then failureCounts[key] else 0) >= threshold;
    }
  }

  class InMemoryRequestRateLimiter {
    const threshold: nat
    var requestCounts: Counts

    constructor (threshold: nat)
      requires threshold >= 1
      ensures this.threshold == threshold && requestCounts == map[]
    {
      this.threshold := threshold;
      requestCounts := map[];
    }

    method CheckAndRecordRequest(key: string) returns (admitted: bool)
      modifies this
      ensures admitted <==> CountFor(old(requestCounts), key) < threshold
      ensures requestCounts == if admitted then Bumped(old(requestCounts), key) else old(requestCounts)
    {
      var count := if key in requestCounts then requestCounts[key] else 0;
      if count >= threshold { return false; }
      requestCounts := requestCounts[key := count + 1];
      return true;
    }
  }

  // ---- The flow, one atomic call at a time ----

  /** Everything concurrent requests share. Scope-key prefixes are dropped: each limiter sees one kind of key. */
  datatype Shared = Shared(tokens: map<string, TokenRecord>, lookupFailures: Counts, sourceFailures: Counts, tokenRequests: Counts)

  /** What a request does next. */
  datatype Phase =
    | CheckingSource
    | LookingUp(parsed: Parsed)
    | CheckingLookup(parsed: Parsed, record: TokenRecord)
    | Verifying(parsed: Parsed, record: TokenRecord)
    | RecordingLookup(lookupId: string)
    | RecordingSource
    | Charging(record: TokenRecord)
    | Done(outcome: Outcome)
  {
    function Rank(): nat {
      match this
      case CheckingSource => 7 case LookingUp(_) => 6 case CheckingLookup(_, _) => 5 case Verifying(_, _) => 4
      case RecordingLookup(_) => 3 case RecordingSource => 2 case Charging(_) => 1 case Done(_) => 0
    }
  }

  /** A request in flight or finished; verdict is what verify_secret answered, if it was asked. */
  datatype Request = Request(token: string, source: string, phase: Phase, verdict: Option<bool>)

  function Arrived(token: string, source: string): Request { Request(token, source, CheckingSource, None) }

  datatype Pair = Pair(shared: Shared, request: Request)

  /** The next atomic call of a request. */
  function Advance(env: Env, s: Shared, r: Request): Pair {
    match r.phase
    case CheckingSource =>
      if CountFor(s.sourceFailures, r.source) >= env.sourceThreshold then Pair(s, r.(phase := Done(AuthenticationFailed)))
      else (match env.parse(r.token)
            case None => Pair(s, r.(phase := RecordingSource))
            case Some(parsed) => Pair(s, r.(phase := LookingUp(parsed))))
    case LookingUp(parsed) =>
      if parsed.lookupId !in s.tokens then Pair(s, r.(phase := RecordingSource))
      else if s.tokens[parsed.lookupId].revoked then Pair(s, r.(phase := Done(AuthenticationFailed)))
      else Pair(s, r.(phase := CheckingLookup(parsed, s.tokens[parsed.lookupId])))
    case CheckingLookup(parsed, record) =>
      if CountFor(s.lookupFailures, parsed.lookupId) >= env.lookupThreshold then Pair(s, r.(phase := Done(AuthenticationFailed)))
      else Pair(s, r.(phase := Verifying(parsed, record)))
    case Verifying(parsed, record) =>
      if env.verify(parsed.secret, record.secretHash) then Pair(s, r.(phase := Charging(record), verdict := Some(true)))
      else Pair(s, r.(phase := RecordingLookup(parsed.lookupId), verdict := Some(false)))
    case RecordingLookup(lookupId) =>
      Pair(s.(lookupFailures := Bumped(s.lookupFailures, lookupId)), r.(phase := RecordingSource))
    case RecordingSource =>
      Pair(s.(sourceFailures := Bumped(s.sourceFailures, r.source)), r.(phase := Done(AuthenticationFailed)))
    case Charging(record) =>
      if CountFor(s.tokenRequests, record.lookupId) >= env.tokenThreshold then Pair(s, r.(phase := Done(RateLimited)))
      else Pair(s.(tokenRequests := Bumped(s.tokenRequests, record.lookupId)), r.(phase := Done(Authenticated(PrincipalOf(record)))))
    case Done(_) => Pair(s, r)
  }

  /** A request carried through to its end with nobody else in between. */
  function Finish(env: Env, s: Shared, r: Request): (p: Pair)
    ensures p.request.phase.Done?
    decreases r.phase.Rank()
  {
    if r.phase.Done? then Pair(s, r)
    else
      var p := Advance(env, s, r);
      Finish(env, p.shared, p.request)
  }

  /** Whether this request reaches verify_secret. */
  predicate Admissible(env: Env, s: Shared, token: string, source: string) {
    && CountFor(s.sourceFailures, source) < env.sourceThreshold
    && env.parse(token).Some?
    && var l := env.parse(token).value.lookupId;
       l in s.tokens && !s.tokens[l].revoked && CountFor(s.lookupFailures, l) < env.lookupThreshold
  }

  /** Malformed or unknown: the two failures charged to the source alone. */
  predicate Unidentified(env: Env, s: Shared, token: string) {
    env.parse(token).None? || env.parse(token).value.lookupId !in s.tokens
  }

  /** How a request whose secret is about to be checked ends when left alone. */
  function Checked(env: Env, s: Shared, r: Request, parsed: Parsed, record: TokenRecord): Pair {
    if !env.verify(parsed.secret, record.secretHash) then
      Pair(s.(lookupFailures := Bumped(s.lookupFailures, parsed.lookupId), sourceFailures := Bumped(s.sourceFailures, r.source)),
           r.(phase := Done(AuthenticationFailed), verdict := Some(false)))
    else if CountFor(s.tokenRequests, record.lookupId) >= env.tokenThreshold then
      Pair(s, r.(phase := Done(RateLimited), verdict := Some(true)))
    else
      Pair(s.(tokenRequests := Bumped(s.tokenRequests, record.lookupId)),
           r.(phase := Done(Authenticated(PrincipalOf(record))), verdict := Some(true)))
  }

  /** The token names an unrevoked record, its secret is right, and the principal is that record's, field by field. */
  predicate IssuedFrom(env: Env, tokens: map<string, TokenRecord>, token: string, p: Principal) {
    env.parse(token).Some? &&
    var parsed := env.parse(token).value;
    && parsed.lookupId in tokens && !tokens[parsed.lookupId].revoked
    && env.verify(parsed.secret, tokens[parsed.lookupId].secretHash)
    && p.lookupId == tokens[parsed.lookupId].lookupId
    && p.tenant == tokens[parsed.lookupId].tenant
    && p.scopes == tokens[parsed.lookupId].scopes
  }

  lemma OneStep(env: Env, s: Shared, r: Request)
    requires !r.phase.Done?
    ensures Finish(env, s, r) == var p := Advance(env, s, r); Finish(env, p.shared, p.request)
  {
  }

  lemma FinishVerifying(env: Env, s: Shared, r: Request)
    requires r.phase.Verifying?
    ensures Finish(env, s, r) == Checked(env, s, r, r.phase.parsed, r.phase.record)
  {
    var p := Advance(env, s, r);
    OneStep(env, s, r);
    OneStep(env, p.shared, p.request);
    var q := Advance(env, p.shared, p.request);
    if !q.request.phase.Done? { OneStep(env, q.shared, q.request); }
  }

  lemma FinishRecording(env: Env, s: Shared, r: Request)
    requires r.phase.RecordingSource?
    ensures Finish(env, s, r) == Pair(s.(sourceFailures := Bumped(s.sourceFailures, r.source)), r.(phase := Done(AuthenticationFailed)))
  {
    OneStep(env, s, r);
  }

  /** The verdict and the effects of a request left alone, from its arrival. */
  lemma FinishArrived(env: Env, s: Shared, token: string, source: string)
    ensures var r := Arrived(token, source);
      Finish(env, s, r) ==
      if Admissible(env, s, token, source) then
        Checked(env, s, r, env.parse(token).value, s.tokens[env.parse(token).value.lookupId])
      else if CountFor(s.sourceFailures, source) < env.sourceThreshold && Unidentified(env, s, token) then
        Pair(s.(sourceFailures := Bumped(s.sourceFailures, source)), r.(phase := Done(AuthenticationFailed)))
      else
        Pair(s, r.(phase := Done(AuthenticationFailed)))
  {
    var r := Arrived(token, source);
    OneStep(env, s, r);
    var a := Advance(env, s, r).request;
    if a.phase.RecordingSource? {
      FinishRecording(env, s, a);
    } else if a.phase.LookingUp? {
      OneStep(env, s, a);
      var b := Advance(env, s, a).request;
      if b.phase.RecordingSource? {
        FinishRecording(env, s, b);
      } else if b.phase.CheckingLookup? {
        OneStep(env, s, b);
        var c := Advance(env, s, b).request;
        if c.phase.Verifying? { FinishVerifying(env, s, c); }
      }
    }
  }

  class AuthenticationCoordinator {
    const env: Env
    var tokens: map<string, TokenRecord>
    const lookupLimiter: InMemoryAttemptLimiter
    const sourceLimiter: InMemoryAttemptLimiter
    const tokenRateLimiter: InMemoryRequestRateLimiter

    ghost predicate Valid()
      reads this
    {
      && lookupLimiter != sourceLimiter
      && env.Valid()
      && lookupLimiter.threshold == env.lookupThreshold
      && sourceLimiter.threshold == env.sourceThreshold
      && tokenRateLimiter.threshold == env.tokenThreshold
    }

    ghost function View(): Shared
      reads this, lookupLimiter, sourceLimiter, tokenRateLimiter
    {
      Shared(tokens, lookupLimiter.failureCounts, sourceLimiter.failureCounts, tokenRateLimiter.requestCounts)
    }

    constructor (env: Env, tokens: map<string, TokenRecord>)
      requires env.Valid()
      ensures Valid() && this.env == env && View() == Shared(tokens, map[], map[], map[])
      ensures fresh(lookupLimiter) && fresh(sourceLimiter) && fresh(tokenRateLimiter)
    {
      this.env := env;
      this.tokens := tokens;
      lookupLimiter := new InMemoryAttemptLimiter(env.lookupThreshold);
      sourceLimiter := new InMemoryAttemptLimiter(env.sourceThreshold);
      tokenRateLimiter := new InMemoryRequestRateLimiter(env.tokenThreshold);
    }

    /** One call, uninterrupted; verified tells whether the secret was checked and with what answer. */
    method Authenticate(token: string, source: string) returns (outcome: Outcome, verdict: Option<bool>)
      requires Valid()
      modifies lookupLimiter, sourceLimiter, tokenRateLimiter
      ensures tokens == old(tokens)
      ensures var end := Finish(env, old(View()), Arrived(token, source));
              View() == end.shared && end.request.phase == Done(outcome) && end.request.verdict == verdict
      ensures outcome.Authenticated? ==> IssuedFrom(env, tokens, token, outcome.principal)
    {
      FinishArrived(env, View(), token, source);
      verdict := None;
      var blocked := sourceLimiter.IsBlocked(source);
      if blocked { return AuthenticationFailed, None; }
      var parsed := env.parse(token);
      if parsed.None? {
        sourceLimiter.RecordFailure(source);
        return AuthenticationFailed, None;
      }
      if parsed.value.lookupId !in tokens {
        sourceLimiter.RecordFailure(source);
        return AuthenticationFailed, None;
      }
      var record := tokens[parsed.value.lookupId];
      if record.revoked { return AuthenticationFailed, None; }
      blocked := lookupLimiter.IsBlocked(parsed.value.lookupId);
      if blocked { return AuthenticationFailed, None; }
      var verified := env.verify(parsed.value.secret, record.secretHash);
      if !verified {
        lookupLimiter.RecordFailure(parsed.value.lookupId);
        sourceLimiter.RecordFailure(source);
        return AuthenticationFailed, Some(false);
      }
      var principal := PrincipalOf(record);
      var admitted := tokenRateLimiter.CheckAndRecordRequest(record.lookupId);
      if !admitted { return RateLimited, Some(true); }
      return Authenticated(principal), Some(true);
    }
  }

  /**
   What one uninterrupted call comes to: the secret is checked exactly for admissible requests; each
   kind of failure is charged to exactly its own counters; the token budget is used exactly by verified requests.
   */
  lemma AloneOutcome(env: Env, s: Shared, token: string, source: string)
    ensures var end := Finish(env, s, Arrived(token, source));
      && (end.request.verdict.Some? <==> Admissible(env, s, token, source))
      && (end.request.phase.outcome.AuthenticationFailed? <==> end.request.verdict != Some(true))
      && end.shared.tokens == s.tokens
      && end.shared.lookupFailures ==
           (if end.request.verdict == Some(false) then Bumped(s.lookupFailures, env.parse(token).value.lookupId) else s.lookupFailures)
      && end.shared.sourceFailures ==
           (if end.request.verdict == Some(false) || (CountFor(s.sourceFailures, source) < env.sourceThreshold && Unidentified(env, s, token))
            then Bumped(s.sourceFailures, source) else s.sourceFailures)
      && (end.request.verdict == Some(true) ==>
            var record := s.tokens[env.parse(token).value.lookupId];
            var within := CountFor(s.tokenRequests, record.lookupId) < env.tokenThreshold;
            && (if within then end.request.phase.outcome.Authenticated? && IssuedFrom(env, s.tokens, token, end.request.phase.outcome.principal)
                else end.request.phase.outcome == RateLimited)
            && end.shared.tokenRequests == if within then Bumped(s.tokenRequests, record.lookupId) else s.tokenRequests)
      && (end.request.verdict != Some(true) ==> end.shared.tokenRequests == s.tokenRequests)
  {
    FinishArrived(env, s, token, source);
  }
}
