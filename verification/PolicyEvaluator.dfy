/**
 Admission checks and rule evaluation (s1/opa-integration-layer/src/evaluator.ts): deny over escalate over allow,
 deny by default.
 */
module PolicyEvaluator {
  import opened Wrappers

  datatype Effect = Allow | Deny | Escalate

  datatype Rule = Rule(name: string, actionClass: string, effect: Effect, resourcePrefix: Option<string>)

  datatype Bundle = Bundle(name: string, id: string, version: string, rules: seq<Rule>)

  /** `caps` lists the metrics in the order in which they are checked. */
  datatype Envelope = Envelope(id: string, scopes: seq<string>, caps: seq<(string, real)>)

  datatype Request = Request(
    evaluationId: string,
    agentId: string,
    actionClass: string,
    resource: string,
    passportId: string,
    metadata: map<string, string>,
    envelope: Option<Envelope>,
    bundleNames: seq<string>)

  datatype RuleMatch = RuleMatch(ruleName: string, bundleName: string, actionClass: string, effect: Effect, fired: bool)

  datatype DenyReason =
    | NoReason
    | AdmissionScopeViolation
    | AdmissionCapInvalidNumeric(metric: string)
    | AdmissionCapExceeded(metric: string)
    | NoPolicyCoversActionClass
    | DenyRuleFired
    | NoRuleFired
    | EvaluationError

  datatype Decision = Decision(effect: Effect, reason: DenyReason, matched: seq<RuleMatch>, fired: seq<string>)

  datatype CapCheck = Within | Exceeded | NotNumeric

  /** How a metadata text compares with a cap; number parsing is not modelled. */
  type Numeric = (string, real) -> CapCheck

  /******* Admission *******/

  predicate StartsWith(s: string, prefix: string) {
    |prefix| <= |s| && s[..|prefix|] == prefix
  }

  predicate ScopeAdmits(pattern: string, actionClass: string) {
    if pattern != "" && pattern[|pattern| - 1] == '*'
    then actionClass == pattern[..|pattern| - 1] || StartsWith(actionClass, pattern[..|pattern| - 1])
    else actionClass == pattern
  }

  /** What the first offending cap from number `i` on reports. */
  function CapObstacle(num: Numeric, caps: seq<(string, real)>, metadata: map<string, string>, i: nat): Option<DenyReason>
    requires i <= |caps|
    decreases |caps| - i
  {
    if i == |caps| then None
    else
      var metric := caps[i].0;
      if metric !in metadata || metadata[metric] == "" then CapObstacle(num, caps, metadata, i + 1)
      else match num(metadata[metric], caps[i].1)
        case NotNumeric => Some(AdmissionCapInvalidNumeric(metric))
        case Exceeded => Some(AdmissionCapExceeded(metric))
        case Within => CapObstacle(num, caps, metadata, i + 1)
  }

  function AdmissionObstacle(num: Numeric, r: Request): Option<DenyReason> {
    if r.envelope.None? then None
    else
      var e := r.envelope.value;
      if e.scopes != [] && !(exists p :: p in e.scopes && ScopeAdmits(p, r.actionClass)) then Some(AdmissionScopeViolation)
      else CapObstacle(num, e.caps, r.metadata, 0)
  }

  method AssertAdmissionEnvelope(num: Numeric, r: Request) returns (obstacle: Option<DenyReason>)
    ensures obstacle == AdmissionObstacle(num, r)
  {
    if r.envelope.None? {
      return None;
    }
    var env := r.envelope.value;
    if |env.scopes| > 0 {
      var scopeOk := false;
      for i := 0 to |env.scopes|
        invariant !scopeOk ==> forall j :: 0 <= j < i ==> !ScopeAdmits(env.scopes[j], r.actionClass)
        invariant scopeOk ==> exists p :: p in env.scopes && ScopeAdmits(p, r.actionClass)
      {
        if ScopeAdmits(env.scopes[i], r.actionClass) {
          scopeOk := true;
          break;
        }
      }
      if !scopeOk {
        return Some(AdmissionScopeViolation);
      }
    }
    for i := 0 to |env.caps|
      invariant CapObstacle(num, env.caps, r.metadata, 0) == CapObstacle(num, env.caps, r.metadata, i)
    {
      var metric := env.caps[i].0;
      if metric !in r.metadata || r.metadata[metric] == "" {
        continue;
      }
      var check := num(r.metadata[metric], env.caps[i].1);
      if check.NotNumeric? {
        return Some(AdmissionCapInvalidNumeric(metric));
      }
      if check.Exceeded? {
        return Some(AdmissionCapExceeded(metric));
      }
    }
    obstacle := None;
  }

  lemma {:induction false} CapsClear(num: Numeric, caps: seq<(string, real)>, metadata: map<string, string>, i: nat)
    requires i <= |caps|
    ensures CapObstacle(num, caps, metadata, i).None? <==>
      forall j :: i <= j < |caps| && caps[j].0 in metadata && metadata[caps[j].0] != "" ==>
        num(metadata[caps[j].0], caps[j].1) == Within
    decreases |caps| - i
  {
    if i < |caps| {
      CapsClear(num, caps, metadata, i + 1);
    }
  }

  /** Admitted exactly if some scope pattern admits the action class, or there is none, and every present metric is within its cap. */
  lemma AdmissionExact(num: Numeric, r: Request)
    ensures AdmissionObstacle(num, r).None? <==>
      (r.envelope.Some? ==>
         var e := r.envelope.value;
         && (e.scopes == [] || exists p :: p in e.scopes && ScopeAdmits(p, r.actionClass))
         && forall j :: 0 <= j < |e.caps| && e.caps[j].0 in r.metadata && r.metadata[e.caps[j].0] != "" ==>
              num(r.metadata[e.caps[j].0], e.caps[j].1) == Within)
  {
    if r.envelope.Some? {
      CapsClear(num, r.envelope.value.caps, r.metadata, 0);
    }
  }

  /******* Rules *******/

  predicate ResourceMatches(rule: Rule, resource: string) {
    rule.resourcePrefix.None? || rule.resourcePrefix.value == "" || StartsWith(resource, rule.resourcePrefix.value)
  }

  function RuleMatchOf(b: Bundle, rule: Rule, resource: string): RuleMatch {
    RuleMatch(rule.name, b.name, rule.actionClass, rule.effect, ResourceMatches(rule, resource))
  }

  function MatchedInBundle(b: Bundle, rules: seq<Rule>, r: Request): seq<RuleMatch> {
    if rules == [] then []
    else
      var last := rules[|rules| - 1];
      MatchedInBundle(b, rules[..|rules| - 1], r)
      + if last.actionClass == r.actionClass then [RuleMatchOf(b, last, r.resource)] else []
  }

  function MatchedRules(bundles: seq<Bundle>, r: Request): seq<RuleMatch> {
    if bundles == [] then []
    else
      var last := bundles[|bundles| - 1];
      MatchedRules(bundles[..|bundles| - 1], r) + MatchedInBundle(last, last.rules, r)
  }

  /** Some matched rule with this effect fired. */
  predicate Seen(matched: seq<RuleMatch>, effect: Effect) {
    exists m :: m in matched && m.fired && m.effect == effect
  }

  function FiredNames(matched: seq<RuleMatch>, effect: Effect): seq<string> {
    if matched == [] then []
    else (if matched[0].fired && matched[0].effect == effect then [matched[0].ruleName] else []) + FiredNames(matched[1..], effect)
  }

  function Decide(num: Numeric, r: Request, bundles: seq<Bundle>): Decision {
    var obstacle := AdmissionObstacle(num, r);
    if obstacle.Some? then Decision(Deny, obstacle.value, [], [])
    else
      var matched := MatchedRules(bundles, r);
      if matched == [] then Decision(Deny, NoPolicyCoversActionClass, matched, [])
      else if Seen(matched, Deny) then Decision(Deny, DenyRuleFired, matched, FiredNames(matched, Deny))
      else if Seen(matched, Escalate) then Decision(Escalate, NoReason, matched, FiredNames(matched, Escalate))
      else if Seen(matched, Allow) then Decision(Allow, NoReason, matched, FiredNames(matched, Allow))
      else Decision(Deny, NoRuleFired, matched, [])
  }

  /** The flags of the evaluation loops say what has been matched and seen. */
  ghost predicate Flags(matched: seq<RuleMatch>, seenAllow: bool, seenEscalate: bool, seenDeny: bool, covered: bool) {
    && covered == (matched != [])
    && seenAllow == Seen(matched, Allow) && seenEscalate == Seen(matched, Escalate) && seenDeny == Seen(matched, Deny)
  }

  lemma FlagsNext(matched: seq<RuleMatch>, allow: bool, escalate: bool, deny: bool, any: bool, m: RuleMatch)
    requires Flags(matched, allow, escalate, deny, any)
    ensures Flags(matched + [m], allow || (m.fired && m.effect == Allow), escalate || (m.fired && m.effect == Escalate),
                  deny || (m.fired && m.effect == Deny), true)
  {
    SeenExtends(matched, m);
  }

  lemma MatchedNext(b: Bundle, r: Request, j: nat)
    requires j < |b.rules|
    ensures MatchedInBundle(b, b.rules[..j + 1], r) == MatchedInBundle(b, b.rules[..j], r)
      + if b.rules[j].actionClass == r.actionClass then [RuleMatchOf(b, b.rules[j], r.resource)] else []
  {
    assert b.rules[..j + 1][..j] == b.rules[..j];
  }

  /** The inner loop: one bundle's rules, added to what the bundles before it gave. */
  method MatchBundle(bundle: Bundle, r: Request, earlier: seq<RuleMatch>, allow: bool, escalate: bool, deny: bool, any: bool)
    returns (matched: seq<RuleMatch>, seenAllow: bool, seenEscalate: bool, seenDeny: bool, covered: bool)
    requires Flags(earlier, allow, escalate, deny, any)
    ensures matched == earlier + MatchedInBundle(bundle, bundle.rules, r)
    ensures Flags(matched, seenAllow, seenEscalate, seenDeny, covered)
  {
    matched, seenAllow, seenEscalate, seenDeny, covered := earlier, allow, escalate, deny, any;
    for j := 0 to |bundle.rules|
      invariant matched == earlier + MatchedInBundle(bundle, bundle.rules[..j], r)
      invariant Flags(matched, seenAllow, seenEscalate, seenDeny, covered)
    {
      var rule := bundle.rules[j];
      MatchedNext(bundle, r, j);
      if rule.actionClass != r.actionClass {
        continue;
      }
      var m := RuleMatchOf(bundle, rule, r.resource);
      FlagsNext(matched, seenAllow, seenEscalate, seenDeny, covered, m);
      covered := true;
      matched := matched + [m];
      if m.fired {
        match rule.effect
        case Allow => seenAllow := true;
        case Escalate => seenEscalate := true;
        case Deny => seenDeny := true;
      }
    }
    assert bundle.rules[..|bundle.rules|] == bundle.rules;
  }

  method EvaluateWithBundles(num: Numeric, r: Request, bundles: seq<Bundle>) returns (d: Decision)
    ensures d == Decide(num, r, bundles)
  {
    var admission := AssertAdmissionEnvelope(num, r);
    if admission.Some? {
      return Decision(Deny, admission.value, [], []);
    }
    var matched: seq<RuleMatch> := [];
    var seenAllow, seenEscalate, seenDeny, covered := false, false, false, false;
    for i := 0 to |bundles|
      invariant matched == MatchedRules(bundles[..i], r) && Flags(matched, seenAllow, seenEscalate, seenDeny, covered)
    {
      matched, seenAllow, seenEscalate, seenDeny, covered :=
        MatchBundle(bundles[i], r, matched, seenAllow, seenEscalate, seenDeny, covered);
      assert bundles[..i + 1][..i] == bundles[..i];
    }
    assert bundles[..|bundles|] == bundles;
    if !covered {
      return Decision(Deny, NoPolicyCoversActionClass, matched, []);
    }
    if seenDeny {
      return Decision(Deny, DenyRuleFired, matched, FiredNames(matched, Deny));
    }
    if seenEscalate {
      return Decision(Escalate, NoReason, matched, FiredNames(matched, Escalate));
    }
    if seenAllow {
      return Decision(Allow, NoReason, matched, FiredNames(matched, Allow));
    }
    d := Decision(Deny, NoRuleFired, matched, []);
  }

  lemma SeenExtends(matched: seq<RuleMatch>, m: RuleMatch)
    ensures forall effect :: Seen(matched + [m], effect) <==> Seen(matched, effect) || (m.fired && m.effect == effect)
  {
    forall effect
      ensures Seen(matched + [m], effect) <==> Seen(matched, effect) || (m.fired && m.effect == effect)
    {
      assert forall x :: x in matched + [m] <==> x in matched || x == m;
    }
  }

  /******* What the effect means *******/

  /** Some rule with this effect, in some bundle, applies to the request. */
  ghost predicate Fires(bundles: seq<Bundle>, r: Request, effect: Effect) {
    exists b, rule :: b in bundles && rule in b.rules && Applies(rule, r, effect)
  }

  predicate Applies(rule: Rule, r: Request, effect: Effect) {
    rule.actionClass == r.actionClass && rule.effect == effect && ResourceMatches(rule, r.resource)
  }

  lemma {:induction false} SeenInBundle(b: Bundle, rules: seq<Rule>, r: Request, effect: Effect)
    ensures Seen(MatchedInBundle(b, rules, r), effect) <==> exists rule :: rule in rules && Applies(rule, r, effect)
  {
    if rules != [] {
      var init, last := rules[..|rules| - 1], rules[|rules| - 1];
      SeenInBundle(b, init, r, effect);
      SeenExtends(MatchedInBundle(b, init, r), RuleMatchOf(b, last, r.resource));
      var matched := MatchedInBundle(b, init, r);
      assert matched + [] == matched;
      assert rules == init + [last];
      if rule :| rule in init && Applies(rule, r, effect) {
        assert rule in rules;
      }
      assert last in rules;
    }
  }

  lemma {:induction false} SeenIffFires(bundles: seq<Bundle>, r: Request, effect: Effect)
    ensures Seen(MatchedRules(bundles, r), effect) <==> Fires(bundles, r, effect)
  {
    if bundles != [] {
      var init, last := bundles[..|bundles| - 1], bundles[|bundles| - 1];
      SeenIffFires(init, r, effect);
      SeenInBundle(last, last.rules, r, effect);
      assert forall b :: b in bundles <==> b in init || b == last;
      var x, y := MatchedRules(init, r), MatchedInBundle(last, last.rules, r);
      assert forall m :: m in x + y <==> m in x || m in y;
    }
  }

  /** Deny over escalate over allow, deny by default: the effect depends only on which effects fire, not on any order. */
  lemma EffectExact(num: Numeric, r: Request, bundles: seq<Bundle>)
    ensures var admitted, effect := AdmissionObstacle(num, r).None?, Decide(num, r, bundles).effect;
      && (effect == Escalate <==> (admitted && !Fires(bundles, r, Deny) && Fires(bundles, r, Escalate)))
      && (effect == Allow <==> (admitted && !Fires(bundles, r, Deny) && !Fires(bundles, r, Escalate) && Fires(bundles, r, Allow)))
  {
    SeenIffFires(bundles, r, Deny);
    SeenIffFires(bundles, r, Escalate);
    SeenIffFires(bundles, r, Allow);
  }

  /** The decision looks at nothing in a request but its action class, resource, metadata and envelope. */
  lemma {:induction false} DecisionView(num: Numeric, r: Request, r': Request, bundles: seq<Bundle>)
    requires r.actionClass == r'.actionClass && r.resource == r'.resource
    requires r.metadata == r'.metadata && r.envelope == r'.envelope
    ensures Decide(num, r, bundles) == Decide(num, r', bundles)
  {
    MatchedView(r, r', bundles);
  }

  lemma {:induction false} MatchedView(r: Request, r': Request, bundles: seq<Bundle>)
    requires r.actionClass == r'.actionClass && r.resource == r'.resource
    ensures MatchedRules(bundles, r) == MatchedRules(bundles, r')
  {
    if bundles != [] {
      MatchedView(r, r', bundles[..|bundles| - 1]);
      MatchedInBundleView(r, r', bundles[|bundles| - 1], bundles[|bundles| - 1].rules);
    }
  }

  lemma {:induction false} MatchedInBundleView(r: Request, r': Request, b: Bundle, rules: seq<Rule>)
    requires r.actionClass == r'.actionClass && r.resource == r'.resource
    ensures MatchedInBundle(b, rules, r) == MatchedInBundle(b, rules, r')
  {
    if rules != [] {
      MatchedInBundleView(r, r', b, rules[..|rules| - 1]);
    }
  }

  /** Some rule, firing or not, is about the request's action class. */
  ghost predicate Covered(bundles: seq<Bundle>, r: Request) {
    exists b, rule :: b in bundles && rule in b.rules && rule.actionClass == r.actionClass
  }

  lemma {:induction false} CoveredInBundle(b: Bundle, rules: seq<Rule>, r: Request)
    ensures MatchedInBundle(b, rules, r) != [] <==> exists rule :: rule in rules && rule.actionClass == r.actionClass
  {
    if rules != [] {
      var init, last := rules[..|rules| - 1], rules[|rules| - 1];
      CoveredInBundle(b, init, r);
      assert rules == init + [last] && last in rules;
      if rule :| rule in init && rule.actionClass == r.actionClass {
        assert rule in rules;
      }
    }
  }

  lemma {:induction false} MatchedIffCovered(bundles: seq<Bundle>, r: Request)
    ensures MatchedRules(bundles, r) != [] <==> Covered(bundles, r)
  {
    if bundles != [] {
      var init, last := bundles[..|bundles| - 1], bundles[|bundles| - 1];
      MatchedIffCovered(init, r);
      CoveredInBundle(last, last.rules, r);
      assert forall b :: b in bundles <==> b in init || b == last;
    }
  }

  /**
   Why a request is denied: it is not admitted, and then no rule is looked at; or nothing covers its action class, a deny rule
   fired, or no rule fired at all.
   */
  lemma DenyReasonExact(num: Numeric, r: Request, bundles: seq<Bundle>)
    requires Decide(num, r, bundles).effect == Deny
    ensures var d, obstacle := Decide(num, r, bundles), AdmissionObstacle(num, r);
      if obstacle.Some? then d.reason == obstacle.value && |d.matched| == 0 && |d.fired| == 0
      else d.reason == if Fires(bundles, r, Deny) then DenyRuleFired
                       else if Covered(bundles, r) then NoRuleFired
                       else NoPolicyCoversActionClass
  {
    SeenIffFires(bundles, r, Deny);
    MatchedIffCovered(bundles, r);
  }

  /** The names of the rules that apply with the given effect, in the order of the bundle. */
  function AppliedInBundle(rules: seq<Rule>, r: Request, effect: Effect): seq<string> {
    if rules == [] then []
    else
      var last := rules[|rules| - 1];
      AppliedInBundle(rules[..|rules| - 1], r, effect) + if Applies(last, r, effect) then [last.name] else []
  }

  function AppliedNames(bundles: seq<Bundle>, r: Request, effect: Effect): seq<string> {
    if bundles == [] then []
    else AppliedNames(bundles[..|bundles| - 1], r, effect) + AppliedInBundle(bundles[|bundles| - 1].rules, r, effect)
  }

  lemma {:induction false} FiredNamesConcat(a: seq<RuleMatch>, b: seq<RuleMatch>, effect: Effect)
    ensures FiredNames(a + b, effect) == FiredNames(a, effect) + FiredNames(b, effect)
  {
    if a == [] {
      assert a + b == b;
    } else {
      FiredNamesConcat(a[1..], b, effect);
      assert (a + b)[1..] == a[1..] + b;
      var first := if a[0].fired && a[0].effect == effect then [a[0].ruleName] else [];
      assert first + (FiredNames(a[1..], effect) + FiredNames(b, effect)) == (first + FiredNames(a[1..], effect)) + FiredNames(b, effect);
    }
  }

  lemma {:induction false} FiredInBundle(b: Bundle, rules: seq<Rule>, r: Request, effect: Effect)
    ensures FiredNames(MatchedInBundle(b, rules, r), effect) == AppliedInBundle(rules, r, effect)
  {
    if rules != [] {
      var init, last := rules[..|rules| - 1], rules[|rules| - 1];
      FiredInBundle(b, init, r, effect);
      var one := [RuleMatchOf(b, last, r.resource)];
      FiredNamesConcat(MatchedInBundle(b, init, r), if last.actionClass == r.actionClass then one else [], effect);
      assert one[1..] == [];
    }
  }

  lemma {:induction false} FiredIsApplied(bundles: seq<Bundle>, r: Request, effect: Effect)
    ensures FiredNames(MatchedRules(bundles, r), effect) == AppliedNames(bundles, r, effect)
  {
    if bundles != [] {
      var init, last := bundles[..|bundles| - 1], bundles[|bundles| - 1];
      FiredIsApplied(init, r, effect);
      FiredInBundle(last, last.rules, r, effect);
      FiredNamesConcat(MatchedRules(init, r), MatchedInBundle(last, last.rules, r), effect);
    }
  }

  lemma {:induction false} UnseenNamesNothing(matched: seq<RuleMatch>, effect: Effect)
    requires !Seen(matched, effect)
    ensures FiredNames(matched, effect) == []
  {
    if matched != [] {
      assert matched[0] in matched && forall m :: m in matched[1..] ==> m in matched;
      UnseenNamesNothing(matched[1..], effect);
    }
  }

  /** The fired names of a decision are those of all rules that apply with its effect, in bundle and rule order. */
  lemma FiredNamesExact(num: Numeric, r: Request, bundles: seq<Bundle>)
    ensures var d := Decide(num, r, bundles);
      d.fired == if AdmissionObstacle(num, r).Some? then [] else AppliedNames(bundles, r, d.effect)
  {
    var d, matched := Decide(num, r, bundles), MatchedRules(bundles, r);
    FiredIsApplied(bundles, r, d.effect);
    if !Seen(matched, d.effect) {
      UnseenNamesNothing(matched, d.effect);
    }
  }

  /******* What the tests mean *******/

  lemma StartsWithExact(s: string, prefix: string)
    ensures StartsWith(s, prefix) <==> exists rest :: s == prefix + rest
  {
    if StartsWith(s, prefix) {
      assert s == prefix + s[|prefix|..];
    }
  }

  /** A pattern that ends in a star admits the action classes with that beginning; any other pattern only itself. */
  lemma ScopeAdmitsExact(pattern: string, actionClass: string)
    ensures ScopeAdmits(pattern + "*", actionClass) <==> exists rest :: actionClass == pattern + rest
    ensures pattern == "" || pattern[|pattern| - 1] != '*' ==> (ScopeAdmits(pattern, actionClass) <==> actionClass == pattern)
  {
    var starred := pattern + "*";
    assert starred[..|starred| - 1] == pattern;
    StartsWithExact(actionClass, pattern);
    if actionClass == pattern {
      assert actionClass == pattern + "";
    }
  }

  /** A rule without a prefix, or with the empty one, applies to every resource; otherwise to those with that beginning. */
  lemma ResourceMatchesExact(rule: Rule, resource: string)
    ensures ResourceMatches(rule, resource) <==>
      (rule.resourcePrefix.Some? ==> exists rest :: resource == rule.resourcePrefix.value + rest)
  {
    if rule.resourcePrefix.Some? {
      StartsWithExact(resource, rule.resourcePrefix.value);
      if rule.resourcePrefix.value == "" {
        assert resource == "" + resource;
      }
    }
  }

  /** Cap `j` is the first whose metric is present and not within it. */
  ghost predicate FirstOffending(num: Numeric, caps: seq<(string, real)>, metadata: map<string, string>, i: nat, j: nat) {
    && i <= j < |caps|
    && caps[j].0 in metadata && metadata[caps[j].0] != "" && num(metadata[caps[j].0], caps[j].1) != Within
    && forall k :: i <= k < j && caps[k].0 in metadata && metadata[caps[k].0] != "" ==>
         num(metadata[caps[k].0], caps[k].1) == Within
  }

  lemma {:induction false} FirstCapReported(num: Numeric, caps: seq<(string, real)>, metadata: map<string, string>, i: nat, j: nat)
    requires FirstOffending(num, caps, metadata, i, j)
    ensures CapObstacle(num, caps, metadata, i)
         == Some(if num(metadata[caps[j].0], caps[j].1) == Exceeded then AdmissionCapExceeded(caps[j].0)
                 else AdmissionCapInvalidNumeric(caps[j].0))
    decreases j - i
  {
    if i < j {
      FirstCapReported(num, caps, metadata, i + 1, j);
    }
  }

  /** The reason given: the scopes if none admits the action class, else the first offending cap. */
  lemma ObstacleReason(num: Numeric, r: Request, e: Envelope, j: nat)
    requires r.envelope == Some(e)
    ensures var admitted := e.scopes == [] || exists p :: p in e.scopes && ScopeAdmits(p, r.actionClass);
      && (!admitted <==> AdmissionObstacle(num, r) == Some(AdmissionScopeViolation))
      && (admitted && FirstOffending(num, e.caps, r.metadata, 0, j) ==>
            AdmissionObstacle(num, r)
            == Some(if num(r.metadata[e.caps[j].0], e.caps[j].1) == Exceeded then AdmissionCapExceeded(e.caps[j].0)
                    else AdmissionCapInvalidNumeric(e.caps[j].0)))
  {
    CapNeverScope(num, e.caps, r.metadata, 0);
    if FirstOffending(num, e.caps, r.metadata, 0, j) {
      FirstCapReported(num, e.caps, r.metadata, 0, j);
    }
  }

  lemma {:induction false} CapNeverScope(num: Numeric, caps: seq<(string, real)>, metadata: map<string, string>, i: nat)
    requires i <= |caps|
    ensures CapObstacle(num, caps, metadata, i) != Some(AdmissionScopeViolation)
    decreases |caps| - i
  {
    if i < |caps| {
      CapNeverScope(num, caps, metadata, i + 1);
    }
  }

  /** The matched rules list every rule about the action class, in bundle and rule order, with its own fields. */
  lemma {:induction false} MatchedInBundleExact(b: Bundle, rules: seq<Rule>, r: Request, j: nat)
    requires j < |rules| && rules[j].actionClass == r.actionClass
    ensures var n, matched := |MatchedInBundle(b, rules[..j], r)|, MatchedInBundle(b, rules, r);
      && n < |matched|
      && matched[n] == RuleMatch(rules[j].name, b.name, r.actionClass, rules[j].effect, ResourceMatches(rules[j], r.resource))
  {
    var init := rules[..|rules| - 1];
    if j < |rules| - 1 {
      MatchedInBundleExact(b, init, r, j);
      assert init[..j] == rules[..j];
    } else {
      assert rules[..j] == init;
    }
  }

  lemma {:induction false} MatchedCount(b: Bundle, rules: seq<Rule>, r: Request)
    ensures |MatchedInBundle(b, rules, r)| == multiset(Classes(rules))[r.actionClass]
  {
    if rules != [] {
      MatchedCount(b, rules[..|rules| - 1], r);
    }
  }

  function Classes(rules: seq<Rule>): seq<string> {
    if rules == [] then [] else Classes(rules[..|rules| - 1]) + [rules[|rules| - 1].actionClass]
  }

  /** A decision that passed admission lists, bundle by bundle, what their rules contribute. */
  lemma MatchedExact(num: Numeric, r: Request, bundles: seq<Bundle>, i: nat, j: nat)
    requires AdmissionObstacle(num, r).None? && i < |bundles| && j < |bundles[i].rules|
    requires bundles[i].rules[j].actionClass == r.actionClass
    ensures var rule, matched := bundles[i].rules[j], Decide(num, r, bundles).matched;
      var n := |MatchedRules(bundles[..i], r)| + |MatchedInBundle(bundles[i], bundles[i].rules[..j], r)|;
      && n < |matched|
      && matched[n] == RuleMatch(rule.name, bundles[i].name, r.actionClass, rule.effect, ResourceMatches(rule, r.resource))
  {
    MatchedInBundleExact(bundles[i], bundles[i].rules, r, j);
    MatchedPrefix(bundles, r, i);
  }

  lemma {:induction false} MatchedPrefix(bundles: seq<Bundle>, r: Request, i: nat)
    requires i < |bundles|
    ensures MatchedRules(bundles[..i], r) + MatchedInBundle(bundles[i], bundles[i].rules, r) <= MatchedRules(bundles, r)
  {
    if i < |bundles| - 1 {
      var init := bundles[..|bundles| - 1];
      MatchedPrefix(init, r, i);
      assert init[..i] == bundles[..i];
    } else {
      assert bundles[..i] == bundles[..|bundles| - 1];
    }
  }
}
