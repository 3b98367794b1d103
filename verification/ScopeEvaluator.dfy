/**
 Scope decisions and passport fetching (s1/scope-evaluator-runtime/src/service.rs, `evaluate_scope`,
 `context_matches` and `get_or_fetch_passport`). Clock readings and the passport client's answer are parameters.
 */
module ScopeEvaluator {
  import opened Wrappers
  import opened ScopeTypes
  import opened PassportCache
  import opened CircuitBreaker
  import opened GlobMatcher
  import opened GlobLanguage

  datatype Request = Request(
    evaluationId: string, agentId: string, actionClass: string, resource: string, context: map<string, string>)

  datatype MissReason =
    | ScopeExpired | ActionClassMismatch | ResourcePatternNoMatch | InvalidResourcePattern | ContextConstraintFailed

  datatype ScopeMatch = ScopeMatch(
    scopeId: string, actionClass: string, resourcePattern: string, isEscalation: bool, scopeExpiresTs: int)

  datatype ScopeMiss = ScopeMiss(scopeId: string, actionClass: string, reason: MissReason)

  datatype Response = Response(
    inScope: bool, matches: seq<ScopeMatch>, misses: seq<ScopeMiss>, passportExpired: bool)

  /** What `evaluate_scope` answers: the decision with what identifies the request and the passport. */
  datatype Reply = Reply(
    evaluationId: string,
    agentId: string,
    decision: Response,
    passportId: string,
    passportType: string,
    passportExpiresTs: int,
    cacheHit: bool,
    evaluatedTs: int)

  datatype ScopeError = InvalidArgument | PassportNotFound | ServiceUnavailable

  /******* One scope *******/

  /** `context_matches`: no constraints, or equally many entries and every constraint found in the request. */
  predicate ContextMatches(constraints: map<string, string>, context: map<string, string>) {
    || constraints == map[]
    || (&& |context| == |constraints|
        && forall k :: k in constraints ==> k in context && context[k] == constraints[k])
  }

  /** Equal size and inclusion make the two maps equal. */
  lemma ContextMatchesExact(constraints: map<string, string>, context: map<string, string>)
    ensures ContextMatches(constraints, context) <==> constraints == map[] || constraints == context
  {
    if |context| == |constraints| && forall k :: k in constraints ==> k in context && context[k] == constraints[k] {
      assert constraints.Keys <= context.Keys;
      SameSizeSubset(constraints.Keys, context.Keys);
      assert constraints == context;
    }
  }

  lemma SameSizeSubset(a: set<string>, b: set<string>)
    requires a <= b && |a| == |b|
    ensures a == b
  {
    assert b == a + (b - a) && |a + (b - a)| == |a| + |b - a|;
  }

  function MatchOf(s: ScopeEntry): ScopeMatch {
    ScopeMatch(s.scopeId, s.actionClass, s.resourcePattern, s.isEscalation, s.expiresTs)
  }

  function MissOf(s: ScopeEntry, reason: MissReason): ScopeMiss {
    ScopeMiss(s.scopeId, s.actionClass, reason)
  }

  /** Why the scope does not cover the request, the first failing test deciding; `None` if it does. */
  function Obstacle(s: ScopeEntry, r: Request, now: int): Option<MissReason> {
    if s.expiresTs <= now then Some(ScopeExpired)
    else if s.actionClass != r.actionClass then Some(ActionClassMismatch)
    else match GlobMatch(s.resourcePattern, r.resource)
      case Failure(_) => Some(InvalidResourcePattern)
      case Success(false) => Some(ResourcePatternNoMatch)
      case Success(true) =>
        if ContextMatches(s.contextConstraints, r.context) then None else Some(ContextConstraintFailed)
  }

  /** The scope covers the request: unexpired, same action class, pattern matched within budget, context equal if constrained. */
  ghost predicate Covers(s: ScopeEntry, r: Request, now: int) {
    && s.expiresTs > now
    && s.actionClass == r.actionClass
    && GlobMatch(s.resourcePattern, r.resource) == Success(true)
    && (s.contextConstraints == map[] || s.contextConstraints == r.context)
  }

  lemma CoversIffNoObstacle(s: ScopeEntry, r: Request, now: int)
    ensures Obstacle(s, r, now).None? <==> Covers(s, r, now)
  {
    ContextMatchesExact(s.contextConstraints, r.context);
  }

  /** The reason for a miss is the first test that fails: expiry, action class, pattern, context. */
  lemma ObstacleExact(s: ScopeEntry, r: Request, now: int)
    ensures var live, same, answer := now < s.expiresTs, s.actionClass == r.actionClass, GlobMatch(s.resourcePattern, r.resource);
      var context := s.contextConstraints == map[] || s.contextConstraints == r.context;
      Obstacle(s, r, now) == if !live then Some(ScopeExpired)
                             else if !same then Some(ActionClassMismatch)
                             else if answer.Failure? then Some(InvalidResourcePattern)
                             else if answer == Success(false) then Some(ResourcePatternNoMatch)
                             else if !context then Some(ContextConstraintFailed) else None
  {
    ContextMatchesExact(s.contextConstraints, r.context);
  }

  /** A covering scope's pattern matches the resource in the declarative sense. */
  lemma CoversMeansMatch(s: ScopeEntry, r: Request, now: int)
    requires Covers(s, r, now)
    ensures s.resourcePattern != "" && Matches(Split(s.resourcePattern), ResourceSegments(r.resource))
  {
    if s.resourcePattern != "" {
      GlobMatchExact(s.resourcePattern, r.resource);
    }
  }

  /******* All scopes of a passport *******/

  function Matched(scopes: seq<ScopeEntry>, r: Request, now: int): seq<ScopeMatch> {
    if scopes == [] then []
    else
      var last := scopes[|scopes| - 1];
      Matched(scopes[..|scopes| - 1], r, now) + if Obstacle(last, r, now).None? then [MatchOf(last)] else []
  }

  function Missed(scopes: seq<ScopeEntry>, r: Request, now: int): seq<ScopeMiss> {
    if scopes == [] then []
    else
      var last := scopes[|scopes| - 1];
      Missed(scopes[..|scopes| - 1], r, now)
      + if Obstacle(last, r, now).Some? then [MissOf(last, Obstacle(last, r, now).value)] else []
  }

  lemma LandsNext(scopes: seq<ScopeEntry>, r: Request, now: int, i: nat)
    requires i < |scopes|
    ensures var o := Obstacle(scopes[i], r, now);
      && Matched(scopes[..i + 1], r, now) == Matched(scopes[..i], r, now) + (if o.None? then [MatchOf(scopes[i])] else [])
      && Missed(scopes[..i + 1], r, now) == Missed(scopes[..i], r, now) + (if o.Some? then [MissOf(scopes[i], o.value)] else [])
  {
    assert scopes[..i + 1][..i] == scopes[..i];
  }

  function Decision(passport: Passport, r: Request, now: int): Response {
    var matches := Matched(passport.scopes, r, now);
    Response(passport.expiresTs > now && matches != [], matches, Missed(passport.scopes, r, now), passport.expiresTs <= now)
  }

  method EvaluateScope(passport: Passport, r: Request, now: int) returns (response: Response)
    ensures response == Decision(passport, r, now)
  {
    var passportExpired := passport.expiresTs <= now;
    var matches, misses := [], [];
    for i := 0 to |passport.scopes|
      invariant matches == Matched(passport.scopes[..i], r, now) && misses == Missed(passport.scopes[..i], r, now)
    {
      var scope := passport.scopes[i];
      LandsNext(passport.scopes, r, now, i);
      if scope.expiresTs <= now {
        misses := misses + [MissOf(scope, ScopeExpired)];
        continue;
      }
      if scope.actionClass != r.actionClass {
        misses := misses + [MissOf(scope, ActionClassMismatch)];
        continue;
      }
      var answer := MatchGlob(scope.resourcePattern, r.resource);
      if answer.Failure? {
        misses := misses + [MissOf(scope, InvalidResourcePattern)];
        continue;
      }
      if !answer.value {
        misses := misses + [MissOf(scope, ResourcePatternNoMatch)];
        continue;
      }
      if !ContextMatches(scope.contextConstraints, r.context) {
        misses := misses + [MissOf(scope, ContextConstraintFailed)];
        continue;
      }
      matches := matches + [MatchOf(scope)];
    }
    assert passport.scopes[..|passport.scopes|] == passport.scopes;
    response := Response(!passportExpired && matches != [], matches, misses, passportExpired);
  }

  /** Each scope lands in exactly one list, at the place its predecessors leave for it. */
  lemma {:induction false} EveryScopeLandsOnce(scopes: seq<ScopeEntry>, r: Request, now: int, i: nat)
    requires i < |scopes|
    ensures |Matched(scopes, r, now)| + |Missed(scopes, r, now)| == |scopes|
    ensures |Matched(scopes[..i], r, now)| + |Missed(scopes[..i], r, now)| == i
    ensures var m, n := |Matched(scopes[..i], r, now)|, |Missed(scopes[..i], r, now)|;
      if Covers(scopes[i], r, now)
      then && m < |Matched(scopes, r, now)|
           && Matched(scopes, r, now)[m] == ScopeMatch(scopes[i].scopeId, scopes[i].actionClass, scopes[i].resourcePattern,
                                                       scopes[i].isEscalation, scopes[i].expiresTs)
      else && n < |Missed(scopes, r, now)|
           && Obstacle(scopes[i], r, now).Some?
           && Missed(scopes, r, now)[n] == ScopeMiss(scopes[i].scopeId, scopes[i].actionClass, Obstacle(scopes[i], r, now).value)
    decreases |scopes|
  {
    var init := scopes[..|scopes| - 1];
    CoversIffNoObstacle(scopes[i], r, now);
    if i < |scopes| - 1 {
      EveryScopeLandsOnce(init, r, now, i);
      assert init[..i] == scopes[..i];
    } else if |scopes| > 1 {
      EveryScopeLandsOnce(init, r, now, 0);
      assert scopes[..i] == init;
    } else {
      assert scopes[..i] == [] && init == [];
    }
  }

  lemma {:induction false} SomeMatchIffSomeCovers(scopes: seq<ScopeEntry>, r: Request, now: int)
    ensures Matched(scopes, r, now) != [] <==> exists s :: s in scopes && Covers(s, r, now)
  {
    if scopes != [] {
      var init, last := scopes[..|scopes| - 1], scopes[|scopes| - 1];
      SomeMatchIffSomeCovers(init, r, now);
      CoversIffNoObstacle(last, r, now);
      assert forall s :: s in scopes <==> s in init || s == last;
    }
  }

  /** The response says whether the passport has expired, and an expired passport is never in scope. */
  lemma ExpiryExact(passport: Passport, r: Request, now: int)
    ensures Decision(passport, r, now).passportExpired <==> passport.expiresTs <= now
    ensures passport.expiresTs <= now ==> !Decision(passport, r, now).inScope
    ensures Decision(passport, r, now).matches == Matched(passport.scopes, r, now)
    ensures Decision(passport, r, now).misses == Missed(passport.scopes, r, now)
  {}

  /** In scope means: the passport is unexpired and one of its scopes covers the request, so its pattern really matches. */
  lemma InScopeExact(passport: Passport, r: Request, now: int)
    ensures Decision(passport, r, now).inScope <==>
      (passport.expiresTs > now && exists s :: s in passport.scopes && Covers(s, r, now))
    ensures Decision(passport, r, now).inScope ==>
      exists s :: s in passport.scopes && Covers(s, r, now) && Matches(Split(s.resourcePattern), ResourceSegments(r.resource))
  {
    SomeMatchIffSomeCovers(passport.scopes, r, now);
    if s :| s in passport.scopes && Covers(s, r, now) {
      CoversMeansMatch(s, r, now);
    }
  }

  /******* Fetching the passport *******/

  /** The cache and the breaker. */
  datatype State = State(cache: Cache, failures: nat, open: bool)

  datatype Fetch = Fetch(state: State, result: Result<(Passport, bool), FetchError>)

  /** One fetch with nobody else in between; `answer` is what the passport client would say. */
  function DoFetch(cfg: Config, threshold: nat, s: State, agentId: string, now: int, answer: Result<Passport, FetchError>,
                   insertedAt: int): Fetch
  {
    var looked := Apply(cfg, s.cache, Get(agentId, now));
    if Hits(cfg, s.cache, agentId, now) then
      Fetch(s.(cache := looked), Success((s.cache.entries[agentId].passport, true)))
    else if s.open then Fetch(s.(cache := looked), Failure(Unavailable))
    else
      var (failures, open) := Update(threshold, s.failures, s.open, answer.Failure?);
      match answer
      case Success(passport) =>
        Fetch(State(Apply(cfg, looked, Insert(agentId, passport, insertedAt)), failures, open), Success((passport, false)))
      case Failure(error) => Fetch(State(looked, failures, open), Failure(error))
  }

  /** The breaker of this state with the given fetches under way. */
  function BreakerOf(s: State, fetches: map<nat, Phase>): Breaker {
    Breaker(s.failures, s.open, fetches)
  }

  /**
   One undisturbed fetch is its steps: it starts, and unless the cache answers it checks the breaker and, if that is closed,
   returns from the client; the breaker and the result are those the steps leave.
   */
  lemma FetchIsSteps(cfg: Config, threshold: nat, s: State, agentId: string, now: int, answer: Result<Passport, FetchError>,
                     insertedAt: int, fetches: map<nat, Phase>, f: nat)
    requires f !in fetches
    ensures var fetch, cached := DoFetch(cfg, threshold, s, agentId, now, answer, insertedAt), Hits(cfg, s.cache, agentId, now);
      var error := if answer.Success? then None else Some(answer.error);
      var b1 := Step(threshold, BreakerOf(s, fetches), Start(f, cached));
      if cached then
        && fetch.result == Success((s.cache.entries[agentId].passport, true))
        && b1 == BreakerOf(fetch.state, fetches[f := Finished(None)])
      else
        && Enabled(b1, Check(f))
        && var b2 := Step(threshold, b1, Check(f));
           if b2.fetches[f] == Finished(Some(Unavailable)) then
             fetch.result == Failure(Unavailable) && b2 == BreakerOf(fetch.state, b2.fetches)
           else
             && Enabled(b2, Return(f, error))
             && var b3 := Step(threshold, b2, Return(f, error));
                && b3 == BreakerOf(fetch.state, b3.fetches)
                && (fetch.result.Success? <==> b3.fetches[f] == Finished(None))
                && fetch.result == (if answer.Success? then Success((answer.value, false)) else Failure(answer.error))
  {}

  /** While the breaker is open an uncached fetch asks nobody; while it is closed it gets the client's answer. */
  lemma FetchAsks(cfg: Config, threshold: nat, s: State, agentId: string, now: int, answer: Result<Passport, FetchError>, insertedAt: int)
    requires !Hits(cfg, s.cache, agentId, now)
    ensures var fetch := DoFetch(cfg, threshold, s, agentId, now, answer, insertedAt);
      if s.open then fetch.result == Failure(Unavailable) && fetch.state.failures == s.failures && fetch.state.open
      else && (answer.Success? ==> fetch.result == Success((answer.value, false)) && fetch.state.failures == 0 && !fetch.state.open)
           && (answer.Failure? ==> fetch.result == Failure(answer.error) && fetch.state.failures == s.failures + 1
                                   && (fetch.state.open <==> s.failures + 1 >= threshold))
  {}

  /** What a fetch does to the cache: one lookup and, exactly after a successful client call, one insertion. */
  lemma FetchCaches(cfg: Config, threshold: nat, ops: seq<Op>, s: State, agentId: string, now: int, answer: Result<Passport, FetchError>,
                    insertedAt: int)
    requires s.cache == Run(cfg, ops)
    ensures var fetch, called := DoFetch(cfg, threshold, s, agentId, now, answer, insertedAt), !Hits(cfg, s.cache, agentId, now) && !s.open;
      && fetch.state.cache
         == Run(cfg, ops + [Get(agentId, now)] + if called && answer.Success? then [Insert(agentId, answer.value, insertedAt)] else [])
      && (called && answer.Success? && cfg.maxEntries >= 1 ==>
            agentId in fetch.state.cache.entries && fetch.state.cache.entries[agentId] == Cached(answer.value, insertedAt))
  {
    var looked := ops + [Get(agentId, now)];
    RunAppend(cfg, ops, Get(agentId, now));
    assert looked + [] == looked;
    if !Hits(cfg, s.cache, agentId, now) && !s.open && answer.Success? {
      RunAppend(cfg, looked, Insert(agentId, answer.value, insertedAt));
      InsertExact(cfg, looked, agentId, answer.value, insertedAt);
    }
  }

  class ScopeEvaluatorService {
    const threshold: nat
    const cache: LruPassportCache
    var failures: nat
    var open: bool

    constructor (cfg: Config, threshold: nat)
      ensures this.threshold == threshold && failures == 0 && !open
      ensures fresh(cache) && cache.cfg == cfg && cache.Contents() == EMPTY
    {
      this.threshold, failures, open := threshold, 0, false;
      cache := new LruPassportCache(cfg);
    }

    function Contents(): State
      reads this, cache
    {
      State(cache.Contents(), failures, open)
    }

    method GetOrFetchPassport(agentId: string, now: int, answer: Result<Passport, FetchError>, insertedAt: int)
      returns (r: Result<(Passport, bool), FetchError>)
      modifies this`failures, this`open, cache
      ensures Fetch(Contents(), r) == DoFetch(cache.cfg, threshold, old(Contents()), agentId, now, answer, insertedAt)
    {
      var cached := cache.Lookup(agentId, now);
      if cached.Some? {
        return Success((cached.value, true));
      }
      if open {
        return Failure(Unavailable);
      }
      match answer
      case Success(passport) =>
        failures := 0;
        open := false;
        cache.Put(agentId, passport, insertedAt);
        r := Success((passport, false));
      case Failure(error) =>
        failures := failures + 1;
        if failures >= threshold {
          open := true;
        }
        r := Failure(error);
    }

    /** `evaluate_scope`: a request with an empty field touches nothing; otherwise the fetched passport decides. */
    method Evaluate(request: Request, clock: int, now: int, answer: Result<Passport, FetchError>, insertedAt: int)
      returns (r: Result<Reply, ScopeError>)
      modifies this`failures, this`open, cache
      ensures |request.evaluationId| == 0 || |request.agentId| == 0 || |request.actionClass| == 0 || |request.resource| == 0 ==>
        r == Failure(InvalidArgument) && Contents() == old(Contents())
      ensures |request.evaluationId| > 0 && |request.agentId| > 0 && |request.actionClass| > 0 && |request.resource| > 0 ==>
        var fetch := DoFetch(cache.cfg, threshold, old(Contents()), request.agentId, now, answer, insertedAt);
        && Contents() == fetch.state
        && match fetch.result
           case Success((passport, cacheHit)) =>
             r == Success(Reply(request.evaluationId, request.agentId, Decision(passport, request, clock), passport.passportId,
                                passport.passportType, passport.expiresTs, cacheHit, clock))
           case Failure(error) => r == Failure(if error.NotFound? then PassportNotFound else ServiceUnavailable)
    {
      if request.evaluationId == "" || request.agentId == "" || request.actionClass == "" || request.resource == "" {
        return Failure(InvalidArgument);
      }
      var fetched := GetOrFetchPassport(request.agentId, now, answer, insertedAt);
      if fetched.Failure? {
        return Failure(if fetched.error.NotFound? then PassportNotFound else ServiceUnavailable);
      }
      var (passport, cacheHit) := fetched.value;
      var response := EvaluateScope(passport, request, clock);
      r := Success(Reply(request.evaluationId, request.agentId, response, passport.passportId, passport.passportType,
                         passport.expiresTs, cacheHit, clock));
    }
  }
}
