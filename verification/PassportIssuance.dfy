/**
 Passport issuance, forced reissue and revocation (s0/passport-issuance-engine/internal/service/service.go).

 Each operation holds the mutex from its first map access on, so it is one step. What the agent registry, the
 credential store and the policy bundle registry answer, clock readings and fresh identifiers are inputs.
 */
module PassportIssuance {
  import opened Wrappers

  datatype Status = Active | Expired | Revoked | Superseded

  datatype PassportType = Provisional | Standard | OtherType(name: string)

  datatype AgentStatus = AgentPending | AgentActive | AgentSuspended | AgentDeregistered | AgentUnknown(name: string)

  datatype Scope = Scope(scopeId: string, actionClass: string, resourcePattern: string)

  datatype Signature = Signature(credentialId: string, publicKey: string, bytes: string)

  datatype Passport = Passport(
    id: string,
    agentId: string,
    passportType: PassportType,
    scopes: seq<Scope>,
    status: Status,
    issuedBy: string,
    signature: Signature,
    reason: string,
    issuedTs: int,
    expiresTs: int,
    revokedTs: Option<int>,
    revocationReason: string,
    policyId: string,
    policyVer: string)

  datatype IssueInput = IssueInput(
    agentId: string,
    passportType: PassportType,
    scopes: seq<Scope>,
    ttlSeconds: int,
    issuedBy: string,
    forceReissue: bool,
    reason: string,
    policyId: string,
    policyVer: string)

  datatype BundleAnswer = NoBundleClient | BundleFailed | ActiveBundle(policyId: string, policyVer: string)

  /** What the outside world contributes to one issuance. */
  datatype World = World(
    agentStatus: Option<AgentStatus>, signature: Option<Signature>, bundle: BundleAnswer, newId: string, revokedAt: int, now: int)

  datatype Error = InvalidArgument | Unavailable | FailedPrecondition | AlreadyExists | NotFound

  datatype Event = PassportRevoked(agentId: string, passportId: string, reason: string)
                 | PassportIssued(agentId: string, passportId: string, reason: string)

  datatype State = State(passports: map<string, Passport>, activeByAgent: map<string, string>, outbox: seq<Event>)

  const INITIAL := State(map[], map[], [])

  const BLANK := Passport("", "", OtherType(""), [], Superseded, "", Signature("", "", ""), "", 0, 0, None, "", "", "")

  /******* Issuing *******/

  predicate ProvisionalAction(actionClass: string) {
    actionClass == "READ" || actionClass == "NOTIFY" || actionClass == "QUERY"
  }

  /** The checks made before the mutex is taken. */
  function Precheck(input: IssueInput, w: World): Option<Error> {
    if input.agentId == "" || input.issuedBy == "" || input.reason == "" || input.scopes == [] then Some(InvalidArgument)
    else if input.ttlSeconds < 300 then Some(InvalidArgument)
    else if input.passportType == Provisional && input.ttlSeconds > 86400 then Some(InvalidArgument)
    else if input.passportType == Standard && input.ttlSeconds > 2592000 then Some(InvalidArgument)
    else if w.agentStatus.None? then Some(Unavailable)
    else if w.agentStatus.value != AgentActive && w.agentStatus.value != AgentPending then Some(FailedPrecondition)
    else if input.passportType == Provisional && exists s :: s in input.scopes && !ProvisionalAction(s.actionClass)
    then Some(InvalidArgument)
    else None
  }

  predicate BundleNeeded(input: IssueInput, w: World) {
    input.policyId == "" && input.policyVer == "" && !w.bundle.NoBundleClient?
  }

  /** Signing or the bundle lookup fails. */
  predicate DependencyFails(input: IssueInput, w: World) {
    w.signature.None? || (BundleNeeded(input, w) && w.bundle.BundleFailed?)
  }

  function NewPassport(input: IssueInput, w: World): Passport
    requires !DependencyFails(input, w)
  {
    var policy := if BundleNeeded(input, w) then (w.bundle.policyId, w.bundle.policyVer) else (input.policyId, input.policyVer);
    Passport(w.newId, input.agentId, input.passportType, input.scopes, Active, input.issuedBy, w.signature.value, input.reason,
             w.now, w.now + input.ttlSeconds, None, "", policy.0, policy.1)
  }

  function RevokedCopy(p: Passport, at: int, reason: string): Passport {
    p.(status := Revoked, revokedTs := Some(at), revocationReason := reason)
  }

  /** The forced reissue's first effect: the passport named for the agent is revoked, but stays named. */
  function Supersede(s: State, agentId: string, at: int): State {
    if agentId in s.activeByAgent then
      var current := s.activeByAgent[agentId];
      var p := RevokedCopy(if current in s.passports then s.passports[current] else BLANK, at, "superseded_by_force_reissue");
      s.(passports := s.passports[current := p], outbox := s.outbox + [PassportRevoked(p.agentId, p.id, p.revocationReason)])
    else s
  }

  datatype Issued = Issued(state: State, result: Result<Passport, Error>)

  function DoIssue(s: State, input: IssueInput, w: World): Issued {
    var error := Precheck(input, w);
    if error.Some? then Issued(s, Failure(error.value))
    else if input.agentId in s.activeByAgent && !input.forceReissue then Issued(s, Failure(AlreadyExists))
    else
      var s1 := Supersede(s, input.agentId, w.revokedAt);
      if DependencyFails(input, w) then Issued(s1, Failure(Unavailable))
      else
        var p := NewPassport(input, w);
        Issued(State(s1.passports[p.id := p], s1.activeByAgent[p.agentId := p.id],
                     s1.outbox + [PassportIssued(p.agentId, p.id, p.reason)]),
               Success(p))
  }

  /******* Revoking and verifying *******/

  function DoRevoke(s: State, id: string, reason: string, revokedBy: string, now: int): Issued {
    if id == "" || reason == "" || revokedBy == "" then Issued(s, Failure(InvalidArgument))
    else if id !in s.passports then Issued(s, Failure(NotFound))
    else if s.passports[id].status == Revoked then Issued(s, Success(s.passports[id]))
    else
      var p := RevokedCopy(s.passports[id], now, reason);
      var named := p.agentId in s.activeByAgent && s.activeByAgent[p.agentId] == id;
      Issued(State(s.passports[id := p], if named then s.activeByAgent - {p.agentId} else s.activeByAgent,
                   s.outbox + [PassportRevoked(p.agentId, id, reason)]),
             Success(p))
  }

  datatype Verification = Verification(valid: bool, status: Status, note: string)

  /** `VerifyPassport`; `check` is the credential store's answer, `None` if it fails. */
  function Verify(s: State, id: string, now: int, check: Option<bool>): Result<Verification, Error> {
    if id !in s.passports then Failure(NotFound)
    else
      var p := s.passports[id];
      if p.status == Revoked then Success(Verification(false, Revoked, "revoked"))
      else if p.status == Expired || now > p.expiresTs then Success(Verification(false, Expired, "expired"))
      else if check.None? then Failure(Unavailable)
      else Success(Verification(check.value, p.status, if check.value then "" else "signature_invalid"))
  }

  /******* Runs *******/

  datatype Action =
    | Issue(input: IssueInput, world: World)
    | Revoke(id: string, reason: string, revokedBy: string, now: int)

  /** New identifiers are fresh. */
  predicate Enabled(s: State, a: Action) {
    a.Issue? ==> a.world.newId !in s.passports
  }

  function Step(s: State, a: Action): State {
    match a
    case Issue(input, w) => DoIssue(s, input, w).state
    case Revoke(id, reason, revokedBy, now) => DoRevoke(s, id, reason, revokedBy, now).state
  }

  function Exec(run: seq<Action>): Option<State> {
    if run == [] then Some(INITIAL)
    else
      var before := Exec(run[..|run| - 1]);
      if before.Some? && Enabled(before.value, run[|run| - 1]) then Some(Step(before.value, run[|run| - 1])) else None
  }

  /******* Invariants *******/

  /** Every ACTIVE passport is the one named for its agent; every other is REVOKED. */
  ghost predicate ActiveIsNamed(s: State) {
    forall id :: id in s.passports ==>
      var p := s.passports[id];
      && p.id == id
      && (p.status == Active || p.status == Revoked)
      && (p.status == Active ==> p.agentId in s.activeByAgent && s.activeByAgent[p.agentId] == id)
  }

  /** Every named passport exists and belongs to the agent. */
  ghost predicate NamedExists(s: State) {
    forall a :: a in s.activeByAgent ==> s.activeByAgent[a] in s.passports && s.passports[s.activeByAgent[a]].agentId == a
  }

  ghost predicate Sound(s: State) {
    ActiveIsNamed(s) && NamedExists(s)
  }

  lemma SupersedeSound(s: State, agentId: string, at: int)
    requires Sound(s)
    ensures Sound(Supersede(s, agentId, at))
    ensures Supersede(s, agentId, at).passports.Keys == s.passports.Keys
    ensures forall id :: id in s.passports && s.passports[id].agentId == agentId ==>
      Supersede(s, agentId, at).passports[id].status == Revoked
  {}

  lemma StepSound(s: State, a: Action)
    requires Sound(s) && Enabled(s, a)
    ensures Sound(Step(s, a))
  {
    if a.Issue? {
      SupersedeSound(s, a.input.agentId, a.world.revokedAt);
    }
  }

  lemma {:induction false} RunSound(run: seq<Action>)
    requires Exec(run).Some?
    ensures Sound(Exec(run).value)
  {
    if run != [] {
      RunSound(run[..|run| - 1]);
      StepSound(Exec(run[..|run| - 1]).value, run[|run| - 1]);
    }
  }

  /** In every reachable state an agent has at most one ACTIVE passport. */
  lemma AtMostOneActive(run: seq<Action>, x: string, y: string)
    requires Exec(run).Some?
    requires var s := Exec(run).value;
      && x in s.passports && y in s.passports && s.passports[x].status == Active && s.passports[y].status == Active
      && s.passports[x].agentId == s.passports[y].agentId
    ensures x == y
  {
    RunSound(run);
  }

  /** Revocation is permanent, and nothing but the revocation data of a passport ever changes. */
  ghost predicate Keeps(p: Passport, p': Passport) {
    && p' == p.(status := p'.status, revokedTs := p'.revokedTs, revocationReason := p'.revocationReason)
    && (p.status == Revoked ==> p'.status == Revoked)
  }

  ghost predicate Lasts(s: State, s': State) {
    forall id :: id in s.passports ==> id in s'.passports && Keeps(s.passports[id], s'.passports[id])
  }

  lemma SupersedeLasts(s: State, agentId: string, at: int)
    requires Sound(s)
    ensures Lasts(s, Supersede(s, agentId, at))
  {}

  lemma IssueLasts(s: State, input: IssueInput, w: World)
    requires Sound(s) && w.newId !in s.passports
    ensures Lasts(s, DoIssue(s, input, w).state)
  {
    SupersedeLasts(s, input.agentId, w.revokedAt);
  }

  lemma RevokeLasts(s: State, id: string, reason: string, revokedBy: string, now: int)
    ensures Lasts(s, DoRevoke(s, id, reason, revokedBy, now).state)
  {}

  lemma StepLasts(s: State, a: Action)
    requires Sound(s) && Enabled(s, a)
    ensures Lasts(s, Step(s, a))
  {
    match a
    case Issue(input, w) => IssueLasts(s, input, w);
    case Revoke(id, reason, revokedBy, now) => RevokeLasts(s, id, reason, revokedBy, now);
  }

  lemma LastsTransitive(s: State, s': State, s'': State)
    requires Lasts(s, s') && Lasts(s', s'')
    ensures Lasts(s, s'')
  {}

  lemma {:induction false} RunLasts(run: seq<Action>, more: seq<Action>)
    requires Exec(run + more).Some?
    ensures Exec(run).Some? && Lasts(Exec(run).value, Exec(run + more).value)
  {
    if more == [] {
      assert run + more == run;
    } else {
      var init, all := more[..|more| - 1], run + more;
      assert all[..|all| - 1] == run + init;
      RunLasts(run, init);
      RunSound(run + init);
      StepLasts(Exec(run + init).value, all[|all| - 1]);
      LastsTransitive(Exec(run).value, Exec(run + init).value, Exec(all).value);
    }
  }

  /** A revoked passport never verifies again, whatever happens and whatever the credential store says. */
  lemma RevokedNeverVerifies(run: seq<Action>, more: seq<Action>, id: string, now: int, check: Option<bool>)
    requires Exec(run + more).Some? && Exec(run).Some?
    requires id in Exec(run).value.passports && Exec(run).value.passports[id].status == Revoked
    ensures Verify(Exec(run + more).value, id, now, check) == Success(Verification(false, Revoked, "revoked"))
  {
    RunLasts(run, more);
  }

  /******* What each operation does *******/

  /** A revocation of a stored, unrevoked passport stores it revoked, frees the agent if it named it, and enqueues one event. */
  lemma RevokeExact(s: State, id: string, reason: string, revokedBy: string, now: int)
    requires id != "" && reason != "" && revokedBy != "" && id in s.passports && s.passports[id].status != Revoked
    ensures var d, p := DoRevoke(s, id, reason, revokedBy, now), s.passports[id];
      && id in d.state.passports && d.result == Success(d.state.passports[id])
      && d.state.passports[id] == p.(status := Revoked, revokedTs := Some(now), revocationReason := reason)
      && d.state.passports.Keys == s.passports.Keys
      && (forall x :: x in s.passports && x != id ==> d.state.passports[x] == s.passports[x])
      && !(p.agentId in d.state.activeByAgent && d.state.activeByAgent[p.agentId] == id)
      && (forall g :: g in s.activeByAgent && !(g == p.agentId && s.activeByAgent[g] == id) ==>
            g in d.state.activeByAgent && d.state.activeByAgent[g] == s.activeByAgent[g])
      && d.state.activeByAgent.Keys <= s.activeByAgent.Keys
      && d.state.outbox == s.outbox + [PassportRevoked(p.agentId, id, reason)]
  {}

  /** Any other revocation changes nothing: a missing argument or passport is an error, a revoked passport the answer. */
  lemma RevokeIdle(s: State, id: string, reason: string, revokedBy: string, now: int)
    ensures var d := DoRevoke(s, id, reason, revokedBy, now);
      && (id == "" || reason == "" || revokedBy == "" ==> d == Issued(s, Failure(InvalidArgument)))
      && (id != "" && reason != "" && revokedBy != "" && id !in s.passports ==> d == Issued(s, Failure(NotFound)))
      && (id != "" && reason != "" && revokedBy != "" && id in s.passports && s.passports[id].status == Revoked ==>
            d == Issued(s, Success(s.passports[id])))
  {}

  /** After a successful revocation the passport is reported revoked for ever. */
  lemma RevokedFromThenOn(run: seq<Action>, id: string, reason: string, revokedBy: string, now: int, more: seq<Action>, at: int,
                          check: Option<bool>)
    requires Exec(run).Some? && id != "" && reason != "" && revokedBy != "" && id in Exec(run).value.passports
    requires Exec(run + [Revoke(id, reason, revokedBy, now)] + more).Some?
    ensures Verify(Exec(run + [Revoke(id, reason, revokedBy, now)] + more).value, id, at, check)
         == Success(Verification(false, Revoked, "revoked"))
  {
    var revoked := run + [Revoke(id, reason, revokedBy, now)];
    assert revoked[..|revoked| - 1] == run;
    RevokedNeverVerifies(revoked, more, id, at, check);
  }

  /** The request is complete and its lifetime lies within the limits of its type. */
  ghost predicate WellShaped(input: IssueInput) {
    && input.agentId != "" && input.issuedBy != "" && input.reason != "" && input.scopes != []
    && 300 <= input.ttlSeconds
    && (input.passportType == Provisional ==> input.ttlSeconds <= 86400)
    && (input.passportType == Standard ==> input.ttlSeconds <= 2592000)
  }

  /** What each check before the mutex rejects, and that it is made in this order. */
  lemma PrecheckExact(input: IssueInput, w: World)
    ensures var known, allowed := w.agentStatus == Some(AgentActive) || w.agentStatus == Some(AgentPending),
                                  input.passportType == Provisional ==>
                                    forall x :: x in input.scopes ==> x.actionClass in {"READ", "NOTIFY", "QUERY"};
      Precheck(input, w) == if !WellShaped(input) then Some(InvalidArgument)
                            else if w.agentStatus.None? then Some(Unavailable)
                            else if !known then Some(FailedPrecondition)
                            else if !allowed then Some(InvalidArgument) else None
  {}

  /** An issuance succeeds exactly if it completes, and then stores, names and announces this passport. */
  lemma IssueExact(s: State, input: IssueInput, w: World)
    requires Sound(s) && w.newId !in s.passports
    ensures var d, current := DoIssue(s, input, w), input.agentId in s.activeByAgent;
      && (d.result.Success? <==> Completed(s, Issue(input, w)))
      && (d.result.Success? ==>
            var p := d.result.value;
            && p.id == w.newId && p.agentId == input.agentId && p.passportType == input.passportType && p.scopes == input.scopes
            && p.status == Active && p.issuedBy == input.issuedBy && p.reason == input.reason && Some(p.signature) == w.signature
            && p.issuedTs == w.now && p.expiresTs == w.now + input.ttlSeconds && p.revokedTs == None && p.revocationReason == ""
            && (input.policyId != "" || input.policyVer != "" || w.bundle.NoBundleClient? ==>
                  p.policyId == input.policyId && p.policyVer == input.policyVer)
            && (input.policyId == "" && input.policyVer == "" && w.bundle.ActiveBundle? ==>
                  p.policyId == w.bundle.policyId && p.policyVer == w.bundle.policyVer)
            && p.id in d.state.passports && d.state.passports[p.id] == p
            && d.state.activeByAgent == s.activeByAgent[input.agentId := p.id]
            && d.state.outbox == s.outbox
               + (if current then [PassportRevoked(input.agentId, s.activeByAgent[input.agentId], "superseded_by_force_reissue")] else [])
               + [PassportIssued(input.agentId, p.id, input.reason)])
  {}

  /** Of the passports there were, an issuance alters only the one the agent named, which becomes revoked as superseded. */
  lemma IssueSupersedes(s: State, input: IssueInput, w: World, x: string)
    requires Sound(s) && w.newId !in s.passports && x in s.passports
    ensures var d := DoIssue(s, input, w);
      && x in d.state.passports
      && d.state.passports[x]
         == if Precheck(input, w).None? && input.forceReissue && input.agentId in s.activeByAgent && s.activeByAgent[input.agentId] == x
            then s.passports[x].(status := Revoked, revokedTs := Some(w.revokedAt), revocationReason := "superseded_by_force_reissue")
            else s.passports[x]
  {}

  /** A failed issuance leaves everything as it was, unless a forced reissue had already revoked and announced the old passport. */
  lemma FailureLeaves(s: State, input: IssueInput, w: World)
    requires Sound(s) && w.newId !in s.passports
    ensures var d, revoked := DoIssue(s, input, w), Precheck(input, w).None? && input.forceReissue && input.agentId in s.activeByAgent;
      && d.state.passports.Keys == s.passports.Keys + (if d.result.Success? then {w.newId} else {})
      && (d.result.Failure? && !revoked ==> d.state == s)
      && (d.result.Failure? && revoked ==>
            && d.state.activeByAgent == s.activeByAgent
            && d.state.outbox == s.outbox
               + [PassportRevoked(input.agentId, s.activeByAgent[input.agentId], "superseded_by_force_reissue")])
  {}

  /** An issuance that does not complete says why. */
  lemma IssueFails(s: State, input: IssueInput, w: World)
    ensures var d := DoIssue(s, input, w);
      && (Precheck(input, w).Some? ==> d == Issued(s, Failure(Precheck(input, w).value)))
      && (Precheck(input, w).None? && input.agentId in s.activeByAgent && !input.forceReissue ==> d == Issued(s, Failure(AlreadyExists)))
      && (Precheck(input, w).None? && (input.agentId !in s.activeByAgent || input.forceReissue) && DependencyFails(input, w) ==>
            d.result == Failure(Unavailable) && d.state.activeByAgent == s.activeByAgent)
  {}

  /** Signing fails, or the bundle registry does where it is asked: only when the request names no policy at all. */
  lemma DependencyExact(input: IssueInput, w: World)
    ensures DependencyFails(input, w) <==>
      w.signature.None? || (input.policyId == "" && input.policyVer == "" && w.bundle == BundleFailed)
  {}

  /** A stored passport verifies exactly if it is neither revoked nor past its expiry and the signature checks out. */
  lemma VerifyExact(s: State, id: string, now: int, check: Option<bool>)
    requires id in s.passports
    ensures var p, v := s.passports[id], Verify(s, id, now, check);
      && (v.Success? && v.value.valid <==> p.status != Revoked && p.status != Expired && now <= p.expiresTs && check == Some(true))
      && (p.status == Revoked ==> v == Success(Verification(false, Revoked, "revoked")))
      && (p.status != Revoked && (p.status == Expired || now > p.expiresTs) ==> v == Success(Verification(false, Expired, "expired")))
      && (p.status != Revoked && p.status != Expired && now <= p.expiresTs ==>
            v == if check.None? then Failure(Unavailable)
                 else Success(Verification(check.value, p.status, if check.value then "" else "signature_invalid")))
  {}

  lemma VerifyUnknown(s: State, id: string, now: int, check: Option<bool>)
    requires id !in s.passports
    ensures Verify(s, id, now, check) == Failure(NotFound)
  {}

  /******* When the named passport is ACTIVE *******/

  /** A forced reissue that gets past the checks and then fails at signing or at the bundle lookup. */
  predicate Botched(s: State, a: Action) {
    && a.Issue? && Precheck(a.input, a.world).None? && a.input.forceReissue
    && a.input.agentId in s.activeByAgent && DependencyFails(a.input, a.world)
  }

  /** An issuance that gets past the checks and succeeds: the agent has no passport yet or the reissue is forced. */
  predicate Completed(s: State, a: Action) {
    && a.Issue? && Precheck(a.input, a.world).None? && (a.input.agentId !in s.activeByAgent || a.input.forceReissue)
    && !DependencyFails(a.input, a.world)
  }

  /** The last issuance that changed anything for the agent was a botched forced reissue. */
  function Dangling(run: seq<Action>, agentId: string): bool {
    if run == [] then false
    else
      var init, a := run[..|run| - 1], run[|run| - 1];
      var before := Exec(init);
      if a.Issue? && a.input.agentId == agentId && before.Some? then
        if Botched(before.value, a) then true
        else if Completed(before.value, a) then false
        else Dangling(init, agentId)
      else Dangling(init, agentId)
  }

  ghost predicate NamedIsActive(s: State, agentId: string) {
    agentId in s.activeByAgent ==>
      s.activeByAgent[agentId] in s.passports && s.passports[s.activeByAgent[agentId]].status == Active
  }

  lemma StepDangling(s: State, a: Action, agentId: string, dangling: bool)
    requires Sound(s) && Enabled(s, a)
    requires NamedIsActive(s, agentId) <==> !dangling
    ensures var dangling' :=
        if a.Issue? && a.input.agentId == agentId && Botched(s, a) then true
        else if a.Issue? && a.input.agentId == agentId && Completed(s, a) then false
        else dangling;
      NamedIsActive(Step(s, a), agentId) <==> !dangling'
  {
    StepSound(s, a);
  }

  /** The passport named for an agent is ACTIVE exactly unless a botched forced reissue is the last thing issued for it. */
  lemma {:induction false} NamedActiveIffNotDangling(run: seq<Action>, agentId: string)
    requires Exec(run).Some?
    ensures NamedIsActive(Exec(run).value, agentId) <==> !Dangling(run, agentId)
  {
    if run != [] {
      var init, a := run[..|run| - 1], run[|run| - 1];
      NamedActiveIffNotDangling(init, agentId);
      RunSound(init);
      StepDangling(Exec(init).value, a, agentId, Dangling(init, agentId));
    }
  }

  /** A dangling agent stays so until a forced reissue succeeds: unforced issuance is refused and revocation changes nothing. */
  lemma DanglingIsStuck(run: seq<Action>, agentId: string, input: IssueInput, w: World, reason: string, revokedBy: string, now: int)
    requires Exec(run).Some? && Dangling(run, agentId)
    requires input.agentId == agentId && !input.forceReissue && Precheck(input, w).None?
    ensures agentId in Exec(run).value.activeByAgent
    ensures DoIssue(Exec(run).value, input, w) == Issued(Exec(run).value, Failure(AlreadyExists))
    ensures DoRevoke(Exec(run).value, Exec(run).value.activeByAgent[agentId], reason, revokedBy, now).state == Exec(run).value
  {
    RunSound(run);
    NamedActiveIffNotDangling(run, agentId);
  }

  /** Such a state is reachable: one issuance and one forced reissue whose signing fails. */
  lemma DanglingReachable(input: IssueInput, w: World, w': World)
    requires Precheck(input, w).None? && !DependencyFails(input, w) && input.forceReissue
    requires Precheck(input, w').None? && w'.signature.None? && w'.newId != w.newId
    ensures Exec([Issue(input, w), Issue(input, w')]).Some?
    ensures Dangling([Issue(input, w), Issue(input, w')], input.agentId)
  {
    var one, two := [Issue(input, w)], [Issue(input, w), Issue(input, w')];
    assert two[..1] == one && one[..0] == [];
    assert Exec(one) == Some(Step(INITIAL, Issue(input, w)));
  }

  /******* What an issued passport satisfies *******/

  /** The limits that issuance enforces, read off a stored passport. */
  ghost predicate WithinLimits(p: Passport) {
    var ttl := p.expiresTs - p.issuedTs;
    && p.agentId != "" && p.issuedBy != "" && p.reason != "" && p.scopes != []
    && ttl >= 300
    && (p.passportType == Provisional ==>
          ttl <= 86400 && forall s :: s in p.scopes ==> s.actionClass in {"READ", "NOTIFY", "QUERY"})
    && (p.passportType == Standard ==> ttl <= 2592000)
  }

  ghost predicate AllWithinLimits(s: State) {
    forall id :: id in s.passports ==> WithinLimits(s.passports[id])
  }

  lemma SupersedeWithinLimits(s: State, agentId: string, at: int)
    requires Sound(s) && AllWithinLimits(s)
    ensures AllWithinLimits(Supersede(s, agentId, at))
  {
    if agentId in s.activeByAgent {
      assert WithinLimits(s.passports[s.activeByAgent[agentId]]);
    }
  }

  lemma StepWithinLimits(s: State, a: Action)
    requires Sound(s) && AllWithinLimits(s)
    ensures AllWithinLimits(Step(s, a))
  {
    if a.Issue? {
      SupersedeWithinLimits(s, a.input.agentId, a.world.revokedAt);
      if Precheck(a.input, a.world).None? && !DependencyFails(a.input, a.world) {
        assert WithinLimits(NewPassport(a.input, a.world));
      }
    } else if a.id in s.passports {
      assert WithinLimits(s.passports[a.id]);
    }
  }

  /** Every passport in every reachable state respects the limits of its type. */
  lemma {:induction false} RunWithinLimits(run: seq<Action>)
    requires Exec(run).Some?
    ensures AllWithinLimits(Exec(run).value)
  {
    if run != [] {
      RunWithinLimits(run[..|run| - 1]);
      RunSound(run[..|run| - 1]);
      StepWithinLimits(Exec(run[..|run| - 1]).value, run[|run| - 1]);
    }
  }

  /******* The service object *******/

  class PassportService {
    var passports: map<string, Passport>
    var activeByAgent: map<string, string>
    var outbox: seq<Event>

    function Contents(): State
      reads this
    {
      State(passports, activeByAgent, outbox)
    }

    constructor ()
      ensures Contents() == INITIAL
    {
      passports, activeByAgent, outbox := map[], map[], [];
    }

    method IssuePassport(input: IssueInput, w: World) returns (r: Result<Passport, Error>)
      modifies this
      ensures Issued(Contents(), r) == DoIssue(old(Contents()), input, w)
    {
      var error := Precheck(input, w);
      if error.Some? {
        return Failure(error.value);
      }
      if input.agentId in activeByAgent {
        if !input.forceReissue {
          return Failure(AlreadyExists);
        }
        var currentId := activeByAgent[input.agentId];
        var p := if currentId in passports then passports[currentId] else BLANK;
        p := p.(status := Revoked, revokedTs := Some(w.revokedAt), revocationReason := "superseded_by_force_reissue");
        passports := passports[currentId := p];
        outbox := outbox + [PassportRevoked(p.agentId, p.id, p.revocationReason)];
      }
      if w.signature.None? {
        return Failure(Unavailable);
      }
      var policyId, policyVer := input.policyId, input.policyVer;
      if policyId == "" && policyVer == "" && !w.bundle.NoBundleClient? {
        if w.bundle.BundleFailed? {
          return Failure(Unavailable);
        }
        policyId, policyVer := w.bundle.policyId, w.bundle.policyVer;
      }
      var passport := Passport(w.newId, input.agentId, input.passportType, input.scopes, Active, input.issuedBy, w.signature.value,
                               input.reason, w.now, w.now + input.ttlSeconds, None, "", policyId, policyVer);
      passports := passports[w.newId := passport];
      activeByAgent := activeByAgent[input.agentId := w.newId];
      outbox := outbox + [PassportIssued(input.agentId, w.newId, input.reason)];
      r := Success(passport);
    }

    method RevokePassport(id: string, reason: string, revokedBy: string, now: int) returns (r: Result<Passport, Error>)
      modifies this
      ensures Issued(Contents(), r) == DoRevoke(old(Contents()), id, reason, revokedBy, now)
    {
      if id == "" || reason == "" || revokedBy == "" {
        return Failure(InvalidArgument);
      }
      if id !in passports {
        return Failure(NotFound);
      }
      var p := passports[id];
      if p.status == Revoked {
        return Success(p);
      }
      p := p.(status := Revoked, revokedTs := Some(now), revocationReason := reason);
      passports := passports[id := p];
      if p.agentId in activeByAgent && activeByAgent[p.agentId] == id {
        activeByAgent := activeByAgent - {p.agentId};
      }
      outbox := outbox + [PassportRevoked(p.agentId, id, reason)];
      r := Success(p);
    }
  }
}
