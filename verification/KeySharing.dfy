/**
 Policy requests that share a cache key (s1/opa-integration-layer/src/service.ts): what the cache then serves, how that goes
 wrong, and exactly when it does not. Nothing is assumed of the texts, and the digest of a key text is any function.
 */
module KeySharing {
  import opened Sorting
  import opened Strings
  import opened Wrappers
  import opened PolicyEvaluator
  import opened DecisionKey
  import opened EvaluationCache
  import opened PolicyService

  /******* An answer just computed *******/

  /** Keys stay distinct and the capacity is respected in every reachable state. */
  lemma {:induction false} RunWithinLimits(setup: Setup, run: seq<Action>)
    ensures DistinctKeys(Exec(setup, run).items) && |Exec(setup, run).items| <= setup.limits.maxEntries
  {
    if run != [] {
      var s, a := Exec(setup, run[..|run| - 1]), run[|run| - 1];
      RunWithinLimits(setup, run[..|run| - 1]);
      match a
      case Load(b, _) => DropForLimits(s.items, b.name);
      case Reload(b, _) => DropForLimits(s.items, b.name);
      case Deprecate(name) => DropForLimits(s.items, name);
      case Evaluate(r, now, throws) => EvaluateWithinLimits(setup, s, r, now, throws);
    }
  }

  lemma EvaluateWithinLimits(setup: Setup, s: State, r: Request, now: int, throws: bool)
    requires DistinctKeys(s.items) && |s.items| <= setup.limits.maxEntries
    ensures var items := DoEvaluate(setup, s, r, now, throws).state.items;
      DistinctKeys(items) && |items| <= setup.limits.maxEntries
  {
    var selected := Select(s.loaded, r.bundleNames);
    var key, answer := KeyOf(setup, r, selected), Answer(setup.num, r, selected, now);
    CacheKeepsLimits(setup.limits, s.items, key, answer, now);
    CacheKeepsLimits(setup.limits, AfterGet(setup.limits, s.items, key, now), key, answer, now);
  }

  /** An evaluation that is not served and does not throw stores its answer and leaves the bundles alone. */
  lemma EvaluateStores(setup: Setup, s: State, r: Request, now: int)
    requires Complete(r) && Served(setup.limits, s.items, KeyOf(setup, r, Select(s.loaded, r.bundleNames)), now).None?
    ensures var s', selected := DoEvaluate(setup, s, r, now, false).state, Select(s.loaded, r.bundleNames);
      var key := KeyOf(setup, r, selected);
      && s'.loaded == s.loaded
      && s'.items == AfterSet(setup.limits, AfterGet(setup.limits, s.items, key, now), key, Answer(setup.num, r, selected, now), now)
  {}

  lemma ServedAfter(setup: Setup, s: State, r: Request, now: int, later: int)
    requires DistinctKeys(s.items) && |s.items| <= setup.limits.maxEntries && Complete(r)
    requires setup.limits.maxEntries >= 1 && later - now <= setup.limits.ttlMs
    requires Served(setup.limits, s.items, KeyOf(setup, r, Select(s.loaded, r.bundleNames)), now).None?
    ensures var selected := Select(s.loaded, r.bundleNames);
      && DoEvaluate(setup, s, r, now, false).state.loaded == s.loaded
      && Served(setup.limits, DoEvaluate(setup, s, r, now, false).state.items, KeyOf(setup, r, selected), later)
         == Some(Answer(setup.num, r, selected, later).(cacheHit := true))
  {
    var selected := Select(s.loaded, r.bundleNames);
    var key, answer := KeyOf(setup, r, selected), Answer(setup.num, r, selected, now);
    EvaluateStores(setup, s, r, now);
    CacheKeepsLimits(setup.limits, s.items, key, answer, now);
    SetThenGet(setup.limits, AfterGet(setup.limits, s.items, key, now), key, answer, now, later);
    AnswerTime(setup.num, r, selected, now, later);
  }

  lemma ExecAppend(setup: Setup, run: seq<Action>, a: Action)
    ensures Exec(setup, run + [a]) == Step(setup, Exec(setup, run), a)
  {
    assert (run + [a])[..|run + [a]| - 1] == run;
  }

  lemma SameKey(setup: Setup, r: Request, bundles: seq<Bundle>, r': Request, bundles': seq<Bundle>)
    requires Preimage(r, bundles) == Preimage(r', bundles')
    ensures KeyOf(setup, r, bundles) == KeyOf(setup, r', bundles')
  {}

  lemma ServedAfterRun(setup: Setup, run: seq<Action>, r: Request, now: int, later: int)
    requires Complete(r) && ServedFor(setup, run, r, now).None?
    requires setup.limits.maxEntries >= 1 && later - now <= setup.limits.ttlMs
    ensures var s, s' := Exec(setup, run), Exec(setup, run + [Evaluate(r, now, false)]);
      var selected := Select(s.loaded, r.bundleNames);
      && s'.loaded == s.loaded
      && Served(setup.limits, s'.items, KeyOf(setup, r, selected), later)
         == Some(Answer(setup.num, r, selected, later).(cacheHit := true))
  {
    ExecAppend(setup, run, Evaluate(r, now, false));
    RunWithinLimits(setup, run);
    ServedAfter(setup, Exec(setup, run), r, now, later);
  }

  /** An answer just computed is served to every request with the same key text, whoever asks, within its time to live. */
  lemma ServedNext(setup: Setup, run: seq<Action>, r0: Request, r: Request, now: int, later: int)
    requires Complete(r0) && ServedFor(setup, run, r0, now).None?
    requires setup.limits.maxEntries >= 1 && later - now <= setup.limits.ttlMs
    requires var loaded := Exec(setup, run).loaded;
      Preimage(r0, Select(loaded, r0.bundleNames)) == Preimage(r, Select(loaded, r.bundleNames))
    ensures var selected := Select(Exec(setup, run).loaded, r0.bundleNames);
      ServedFor(setup, run + [Evaluate(r0, now, false)], r, later)
      == Some(Answer(setup.num, r0, selected, later).(cacheHit := true))
  {
    ServedAfterRun(setup, run, r0, now, later);
    var loaded := Exec(setup, run).loaded;
    SameKey(setup, r0, Select(loaded, r0.bundleNames), r, Select(loaded, r.bundleNames));
  }

  /** A repeated request under a new evaluation id is answered with the evaluation id of the earlier one. */
  lemma ServesEarlierId(setup: Setup, run: seq<Action>, r: Request, id: string, now: int, later: int)
    requires Complete(r) && ServedFor(setup, run, r, now).None?
    requires setup.limits.maxEntries >= 1 && later - now <= setup.limits.ttlMs
    ensures var served := ServedFor(setup, run + [Evaluate(r, now, false)], r.(evaluationId := id), later);
      served.Some? && served.value.evaluationId == r.evaluationId
  {
    ServedNext(setup, run, r, r.(evaluationId := id), now, later);
  }

  /** The run that loads the bundles in order. */
  function LoadAll(bundles: seq<Bundle>): seq<Action> {
    if bundles == [] then [] else LoadAll(bundles[..|bundles| - 1]) + [Load(bundles[|bundles| - 1], true)]
  }

  lemma {:induction false} PutNew(loaded: seq<Bundle>, b: Bundle)
    requires forall i :: 0 <= i < |loaded| ==> loaded[i].name != b.name
    ensures Put(loaded, b) == loaded + [b]
  {
    if loaded != [] {
      PutNew(loaded[1..], b);
    }
  }

  lemma {:induction false} LoadAllLoads(setup: Setup, bundles: seq<Bundle>)
    requires DistinctNames(bundles)
    ensures Exec(setup, LoadAll(bundles)) == State(bundles, [], map[])
  {
    if bundles != [] {
      var init, last := bundles[..|bundles| - 1], bundles[|bundles| - 1];
      LoadAllLoads(setup, init);
      ExecAppend(setup, LoadAll(init), Load(last, true));
      PutNew(init, last);
      assert init + [last] == bundles;
    }
  }

  /** The run that loads the bundles and then answers the request. */
  function LoadThenAsk(bundles: seq<Bundle>, r: Request, now: int): seq<Action> {
    LoadAll(bundles) + [Evaluate(r, now, false)]
  }

  /** With these bundles loaded and `r0` answered, a request with the same key text gets the answer to `r0`. */
  lemma ServedOnLoaded(setup: Setup, bundles: seq<Bundle>, r0: Request, r: Request, now: int)
    requires setup.limits.maxEntries >= 1 && setup.limits.ttlMs >= 0 && Complete(r0) && DistinctNames(bundles)
    requires Preimage(r0, Select(bundles, r0.bundleNames)) == Preimage(r, Select(bundles, r.bundleNames))
    ensures Exec(setup, LoadThenAsk(bundles, r0, now)).loaded == bundles
    ensures ServedFor(setup, LoadThenAsk(bundles, r0, now), r, now)
         == Some(Answer(setup.num, r0, Select(bundles, r0.bundleNames), now).(cacheHit := true))
  {
    var load := LoadAll(bundles);
    LoadAllLoads(setup, bundles);
    NothingServed(setup, load, r0, now);
    ServedAfterRun(setup, load, r0, now, now);
    ServedNext(setup, load, r0, r, now, now);
  }

  lemma NothingServed(setup: Setup, run: seq<Action>, r: Request, now: int)
    requires Exec(setup, run).items == []
    ensures ServedFor(setup, run, r, now) == None
  {}

  /******* Wrong answers *******/

  /** The one rule allows an action class on resources with the given prefix. */
  function OneRule(actionClass: string, prefix: string): seq<Rule> {
    [Rule("r", actionClass, Allow, Some(prefix))]
  }

  /** Every bundle with these rules in place of its own. */
  function WithRules(bundles: seq<Bundle>, rules: seq<Rule>): (r: seq<Bundle>)
    ensures |r| == |bundles| && forall i :: 0 <= i < |r| ==> r[i] == bundles[i].(rules := rules)
  {
    if bundles == [] then [] else [bundles[0].(rules := rules)] + WithRules(bundles[1..], rules)
  }

  lemma OneRuleDecides(num: Numeric, bundles: seq<Bundle>, actionClass: string, prefix: string, r: Request)
    requires AdmissionObstacle(num, r).None? && bundles != []
    ensures Decide(num, r, WithRules(bundles, OneRule(actionClass, prefix))).effect
         == if r.actionClass == actionClass && StartsWith(r.resource, prefix) then Allow else Deny
  {
    var all, rule := WithRules(bundles, OneRule(actionClass, prefix)), OneRule(actionClass, prefix)[0];
    assert forall b, x :: b in all && x in b.rules ==> x == rule;
    assert all[0] in all && all[0].rules[0] == rule && rule in all[0].rules;
    assert Applies(rule, r, Allow) <==> r.actionClass == actionClass && StartsWith(r.resource, prefix);
    EffectExact(num, r, all);
  }

  /** A bundle that allows one action class and says nothing of others. */
  function Allowing(actionClass: string): Bundle {
    Bundle("b", "b", "1", OneRule(actionClass, ""))
  }

  lemma AllowingDecides(num: Numeric, b: Bundle, actionClass: string, r: Request)
    requires AdmissionObstacle(num, r).None? && b.rules == OneRule(actionClass, "")
    ensures Decide(num, r, [b]).effect == if r.actionClass == actionClass then Allow else Deny
  {
    OneRuleDecides(num, [b], actionClass, "", r);
    assert WithRules([b], b.rules) == [b];
  }

  /** The cache serves Allow to a request that a fresh evaluation denies. */
  ghost predicate WronglyAllowed(setup: Setup, run: seq<Action>, r: Request, now: int) {
    var served := ServedFor(setup, run, r, now);
    && served.Some? && served.value.effect == Allow
    && Answer(setup.num, r, Select(Exec(setup, run).loaded, r.bundleNames), now).effect == Deny
  }

  lemma AllowServed(setup: Setup, actionClass: string, r0: Request, r: Request, now: int)
    requires setup.limits.maxEntries >= 1 && setup.limits.ttlMs >= 0
    requires Complete(r0) && r0.bundleNames == [] == r.bundleNames
    requires r0.actionClass == actionClass && AdmissionObstacle(setup.num, r0).None?
    requires Preimage(r0, [Allowing(actionClass)]) == Preimage(r, [Allowing(actionClass)])
    requires Decide(setup.num, r, [Allowing(actionClass)]).effect == Deny
    ensures WronglyAllowed(setup, LoadThenAsk([Allowing(actionClass)], r0, now), r, now)
  {
    ServedOnLoaded(setup, [Allowing(actionClass)], r0, r, now);
    AllowingDecides(setup.num, Allowing(actionClass), actionClass, r0);
  }

  /**
   A bar in a field: the agent `x|y` may do `z`, and with that cached the agent `x` is served Allow for the action class
   `y|z`, which no rule covers.
   */
  lemma BarServesWrongly(setup: Setup, r: Request, x: string, y: string, z: string, now: int)
    requires setup.limits.maxEntries >= 1 && setup.limits.ttlMs >= 0
    requires r.evaluationId != "" && r.resource != "" && r.passportId != "" && r.envelope == None && r.bundleNames == [] && z != ""
    ensures WronglyAllowed(setup, LoadThenAsk([Allowing(z)], r.(agentId := x + "|" + y, actionClass := z), now),
                           r.(agentId := x, actionClass := y + "|" + z), now)
  {
    var r0, r1 := r.(agentId := x + "|" + y, actionClass := z), r.(agentId := x, actionClass := y + "|" + z);
    BarIsAmbiguous(r, [Allowing(z)], x, y, z);
    assert |r1.actionClass| > |z|;
    AllowingDecides(setup.num, Allowing(z), z, r1);
    AllowServed(setup, z, r0, r1, now);
  }

  /** An envelope called `none`: with the answer to the bare request cached, its scopes are not looked at. */
  lemma NoneServesWrongly(setup: Setup, r: Request, e: Envelope, now: int)
    requires setup.limits.maxEntries >= 1 && setup.limits.ttlMs >= 0
    requires Complete(r) && r.bundleNames == []
    requires e.id == "none" && AdmissionObstacle(setup.num, r.(envelope := Some(e))).Some?
    ensures WronglyAllowed(setup, LoadThenAsk([Allowing(r.actionClass)], r.(envelope := None), now), r.(envelope := Some(e)), now)
  {
    NoneIsAmbiguous(r, e, [Allowing(r.actionClass)]);
    AllowServed(setup, r.actionClass, r.(envelope := None), r.(envelope := Some(e)), now);
  }

  /** One envelope id for two envelopes: with the answer under the admitting one cached, the other is not looked at. */
  lemma EnvelopeServesWrongly(setup: Setup, r: Request, e: Envelope, e': Envelope, now: int)
    requires setup.limits.maxEntries >= 1 && setup.limits.ttlMs >= 0
    requires Complete(r) && r.bundleNames == [] && e.id == e'.id
    requires AdmissionObstacle(setup.num, r.(envelope := Some(e))).None? && AdmissionObstacle(setup.num, r.(envelope := Some(e'))).Some?
    ensures WronglyAllowed(setup, LoadThenAsk([Allowing(r.actionClass)], r.(envelope := Some(e)), now), r.(envelope := Some(e')), now)
  {
    AllowServed(setup, r.actionClass, r.(envelope := Some(e)), r.(envelope := Some(e')), now);
  }

  lemma TwoVersions(first: Bundle, second: Bundle)
    requires LexLe(Versioned(first), Versioned(second))
    ensures VersionsKey([first, second]) == Versioned(first) + "," + Versioned(second)
  {
    var texts := [Versioned(first), Versioned(second)];
    assert VersionList([first, second]) == texts;
    SortByFixed(LexLe, texts);
    assert texts[1..] == [Versioned(second)] && Join([Versioned(second)], ',') == Versioned(second);
  }

  lemma OneVersion(b: Bundle)
    ensures VersionsKey([b]) == b.name + ":" + b.version
  {
    assert VersionList([b]) == [Versioned(b)];
    SortByFixed(LexLe, [Versioned(b)]);
  }

  /** Two selections with one version text: two bundles, and a single one whose name holds the delimiters. */
  lemma SelectionIsAmbiguous(whole: Bundle, first: Bundle, second: Bundle)
    requires whole.name == Versioned(first) + "," + second.name && whole.version == second.version
    requires LexLe(Versioned(first), Versioned(second))
    ensures VersionsKey([whole]) == VersionsKey([first, second])
  {
    OneVersion(whole);
    TwoVersions(first, second);
    assert Versioned(whole) == Versioned(first) + "," + Versioned(second);
  }

  lemma SelectionKey(r: Request, wanted: seq<string>, a: seq<Bundle>, wanted': seq<string>, b: seq<Bundle>)
    requires VersionsKey(a) == VersionsKey(b)
    ensures Preimage(r.(bundleNames := wanted), a) == Preimage(r.(bundleNames := wanted'), b)
  {
    assert KeyFields(r.(bundleNames := wanted), a) == KeyFields(r.(bundleNames := wanted'), b);
  }

  lemma SelectionServed(setup: Setup, r: Request, whole: Bundle, first: Bundle, second: Bundle, now: int)
    requires setup.limits.maxEntries >= 1 && setup.limits.ttlMs >= 0
    requires Complete(r) && AdmissionObstacle(setup.num, r).None?
    requires whole.name != first.name && whole.name != second.name && first.name != second.name
    requires VersionsKey([whole]) == VersionsKey([first, second])
    requires whole.rules == OneRule(r.actionClass, "") && first.rules == [] == second.rules
    ensures WronglyAllowed(setup, LoadThenAsk([whole, first, second], r.(bundleNames := [whole.name]), now),
                           r.(bundleNames := [first.name, second.name]), now)
  {
    var r0, r1 := r.(bundleNames := [whole.name]), r.(bundleNames := [first.name, second.name]);
    ThreeSelected(whole, first, second);
    SelectionKey(r, r0.bundleNames, [whole], r1.bundleNames, [first, second]);
    ServedOnLoaded(setup, [whole, first, second], r0, r1, now);
    AllowingDecides(setup.num, whole, r.actionClass, r0);
    NoRulesDeny(setup.num, r1, [first, second]);
  }

  /**
   A bundle name with delimiters: with the answer from the single bundle cached, a request for the two bundles is served
   Allow, although neither of them has a rule.
   */
  lemma SelectionServesWrongly(setup: Setup, r: Request, p: string, v: string, q: string, w: string, now: int)
    requires setup.limits.maxEntries >= 1 && setup.limits.ttlMs >= 0
    requires Complete(r) && AdmissionObstacle(setup.num, r).None?
    requires p != q && LexLe(p + ":" + v, q + ":" + w)
    ensures var whole := p + ":" + v + "," + q;
      WronglyAllowed(setup, LoadThenAsk([Bundle(whole, "", w, OneRule(r.actionClass, "")), Bundle(p, "", v, []), Bundle(q, "", w, [])],
                                        r.(bundleNames := [whole]), now),
                     r.(bundleNames := [p, q]), now)
  {
    var first, second := Bundle(p, "", v, []), Bundle(q, "", w, []);
    var whole := Bundle(p + ":" + v + "," + q, "", w, OneRule(r.actionClass, ""));
    assert |whole.name| > |p| && |whole.name| > |q|;
    SelectionIsAmbiguous(whole, first, second);
    SelectionServed(setup, r, whole, first, second, now);
  }

  lemma ThreeSelected(whole: Bundle, first: Bundle, second: Bundle)
    requires whole.name != first.name && whole.name != second.name && first.name != second.name
    ensures Select([whole, first, second], [whole.name]) == [whole]
    ensures Select([whole, first, second], [first.name, second.name]) == [first, second]
  {
    var all, rest := [whole, first, second], [first, second];
    assert all[1..] == rest && rest[1..] == [second] && [second][1..] == [];
    var one, two := (set n | n in [whole.name]), (set n | n in [first.name, second.name]);
    assert Restrict([second], one) == [] && Restrict(rest, one) == [] && Restrict(all, one) == [whole];
    assert Restrict([second], two) == [second] && Restrict(rest, two) == rest && Restrict(all, two) == rest;
  }

  lemma NoRulesDeny(num: Numeric, r: Request, bundles: seq<Bundle>)
    requires forall b :: b in bundles ==> b.rules == []
    ensures Decide(num, r, bundles).effect == Deny
  {
    EffectExact(num, r, bundles);
  }

  /******* Exactly when a shared key is harmless *******/

  /** Both requests meet the same admission obstacle, or none and are about the same action class and resource. */
  ghost predicate SameCase(num: Numeric, r0: Request, r: Request) {
    && AdmissionObstacle(num, r0) == AdmissionObstacle(num, r)
    && (AdmissionObstacle(num, r).None? ==> r0.actionClass == r.actionClass && r0.resource == r.resource)
  }

  /** The selections have the same names, and are empty or the requests are of one case. */
  ghost predicate Harmless(num: Numeric, r0: Request, selected0: seq<Bundle>, r: Request, selected: seq<Bundle>) {
    NameList(selected0) == NameList(selected) && (selected == [] || SameCase(num, r0, r))
  }

  lemma SameCaseSameDecision(num: Numeric, r0: Request, r: Request, bundles: seq<Bundle>)
    requires SameCase(num, r0, r)
    ensures Decide(num, r0, bundles) == Decide(num, r, bundles)
  {
    if AdmissionObstacle(num, r).None? {
      MatchedView(r0, r, bundles);
    }
  }

  lemma HarmlessAnswers(num: Numeric, r0: Request, r: Request, bundles: seq<Bundle>, now: int)
    requires bundles == [] || SameCase(num, r0, r)
    ensures Answer(num, r0, bundles, now) == Answer(num, r, bundles, now).(evaluationId := r0.evaluationId)
  {
    if bundles != [] {
      SameCaseSameDecision(num, r0, r, bundles);
    }
  }

  lemma SameListSameNames(a: seq<Bundle>, b: seq<Bundle>)
    requires NameList(a) == NameList(b)
    ensures Names(a) == Names(b)
  {
    forall n
      ensures n in Names(a) <==> n in Names(b)
    {
      NamesInList(a, n);
      NamesInList(b, n);
    }
  }

  /** A valid decision whose name list is that of the bundles selected now used those bundles. */
  lemma SameListSameBundles(used: seq<Bundle>, loaded: seq<Bundle>, wanted: seq<string>)
    requires DistinctNames(loaded) && StillValid(used, loaded) && NameList(used) == NameList(Select(loaded, wanted))
    ensures used == Select(loaded, wanted)
  {
    SameListSameNames(used, Select(loaded, wanted));
    ValidAndSameNames(used, loaded, wanted);
  }

  /**
   Over every run, whatever texts it holds: an answer served from the cache was computed by an earlier evaluation under the
   same key text, or a colliding one, and is right but for the evaluation id if sharing the key is harmless.
   */
  lemma ServedRightIfHarmless(setup: Setup, run: seq<Action>, r: Request, now: int) returns (i: nat)
    requires ServedFor(setup, run, r, now).Some?
    ensures i < |run| && run[i].Evaluate?
    ensures var r0, used := run[i].request, SelectedAt(setup, run, i);
      var selected := Select(Exec(setup, run).loaded, r.bundleNames);
      && (Preimage(r0, used) == Preimage(r, selected)
          || KeyCollision(setup.H, Preimage(r0, used), Preimage(r, selected)))
      && (Harmless(setup.num, r0, used, r, selected) ==>
            ServedFor(setup, run, r, now)
            == Some(Answer(setup.num, r, selected, now).(evaluationId := r0.evaluationId, cacheHit := true)))
  {
    i := ServedWasComputed(setup, run, r, now);
    RunJustified(setup, run);
    var r0, used, loaded := run[i].request, SelectedAt(setup, run, i), Exec(setup, run).loaded;
    if Harmless(setup.num, r0, used, r, Select(loaded, r.bundleNames)) {
      SameListSameBundles(used, loaded, r.bundleNames);
      HarmlessAnswers(setup.num, r0, r, used, now);
    }
  }

  /** Rules under which two requests of different cases are decided differently. */
  lemma DistinguishingRules(num: Numeric, bundles: seq<Bundle>, r0: Request, r: Request) returns (rules: seq<Rule>)
    requires !SameCase(num, r0, r) && bundles != []
    ensures Decide(num, r0, WithRules(bundles, rules)) != Decide(num, r, WithRules(bundles, rules))
  {
    var o0, o := AdmissionObstacle(num, r0), AdmissionObstacle(num, r);
    var prefix := if StartsWith(r.resource, r0.resource) then r.resource else r0.resource;
    if o0.None? && o.None? {
      var actionClass, p := r0.actionClass, if r0.actionClass == r.actionClass then prefix else "";
      OneRuleDecides(num, bundles, actionClass, p, r0);
      OneRuleDecides(num, bundles, actionClass, p, r);
      rules := OneRule(actionClass, p);
    } else {
      var actionClass := if o0.None? then r0.actionClass else r.actionClass;
      if o0.None? {
        OneRuleDecides(num, bundles, actionClass, "", r0);
      } else if o.None? {
        OneRuleDecides(num, bundles, actionClass, "", r);
      }
      rules := OneRule(actionClass, "");
    }
  }

  /** The two lists agree in names and versions; ids and rules may differ. */
  ghost predicate SameHeaders(a: seq<Bundle>, b: seq<Bundle>) {
    |a| == |b| && forall i :: 0 <= i < |a| ==> a[i].name == b[i].name && a[i].version == b[i].version
  }

  lemma {:induction false} RestrictHeaders(a: seq<Bundle>, b: seq<Bundle>, names: set<string>)
    requires SameHeaders(a, b)
    ensures SameHeaders(Restrict(a, names), Restrict(b, names))
  {
    if a != [] {
      RestrictHeaders(a[1..], b[1..], names);
    }
  }

  lemma {:induction false} RestrictWithRules(bundles: seq<Bundle>, rules: seq<Rule>, names: set<string>)
    ensures Restrict(WithRules(bundles, rules), names) == WithRules(Restrict(bundles, names), rules)
  {
    if bundles != [] {
      RestrictWithRules(bundles[1..], rules, names);
      assert WithRules(bundles, rules)[1..] == WithRules(bundles[1..], rules);
      var rest := Restrict(bundles[1..], names);
      assert ([bundles[0]] + rest)[1..] == rest && [] + rest == rest;
    }
  }

  /** Neither the key text nor the names of a selection depend on ids and rules. */
  lemma HeadersDetermine(r: Request, a: seq<Bundle>, b: seq<Bundle>)
    requires SameHeaders(a, b)
    ensures Preimage(r, a) == Preimage(r, b) && NameList(a) == NameList(b)
  {
    assert VersionList(a) == VersionList(b);
  }

  /** With these bundles loaded and `r0` answered, `r` is served what a fresh evaluation of it gives, but for the evaluation id. */
  ghost predicate ServedRight(setup: Setup, bundles: seq<Bundle>, r0: Request, r: Request, now: int) {
    ServedFor(setup, LoadThenAsk(bundles, r0, now), r, now)
    == Some(Answer(setup.num, r, Select(bundles, r.bundleNames), now).(evaluationId := r0.evaluationId, cacheHit := true))
  }

  /** The two requests share a key text over these bundles, and answers are kept at all. */
  ghost predicate Shares(setup: Setup, bundles: seq<Bundle>, r0: Request, r: Request) {
    && setup.limits.maxEntries >= 1 && setup.limits.ttlMs >= 0 && Complete(r0) && DistinctNames(bundles)
    && Preimage(r0, Select(bundles, r0.bundleNames)) == Preimage(r, Select(bundles, r.bundleNames))
  }

  lemma SharesHeaders(setup: Setup, a: seq<Bundle>, b: seq<Bundle>, r0: Request, r: Request)
    requires Shares(setup, a, r0, r) && SameHeaders(a, b)
    ensures Shares(setup, b, r0, r)
    ensures NameList(Select(a, r0.bundleNames)) == NameList(Select(b, r0.bundleNames))
    ensures SameHeaders(Select(a, r.bundleNames), Select(b, r.bundleNames))
  {
    RestrictHeaders(a, b, set n | n in r0.bundleNames);
    RestrictHeaders(a, b, set n | n in r.bundleNames);
    HeadersDetermine(r0, Select(a, r0.bundleNames), Select(b, r0.bundleNames));
    HeadersDetermine(r, Select(a, r.bundleNames), Select(b, r.bundleNames));
  }

  lemma HarmlessIsRight(setup: Setup, bundles: seq<Bundle>, r0: Request, r: Request, now: int)
    requires Shares(setup, bundles, r0, r)
    requires Harmless(setup.num, r0, Select(bundles, r0.bundleNames), r, Select(bundles, r.bundleNames))
    ensures ServedRight(setup, bundles, r0, r, now)
  {
    ServedOnLoaded(setup, bundles, r0, r, now);
    SelectedStillValid(bundles, r0.bundleNames);
    SameListSameBundles(Select(bundles, r0.bundleNames), bundles, r.bundleNames);
    HarmlessAnswers(setup.num, r0, r, Select(bundles, r.bundleNames), now);
  }

  /** Names that differ show in the answer itself. */
  lemma OtherNamesAreWrong(setup: Setup, bundles: seq<Bundle>, r0: Request, r: Request, now: int)
    requires Shares(setup, bundles, r0, r)
    requires NameList(Select(bundles, r0.bundleNames)) != NameList(Select(bundles, r.bundleNames))
    ensures !ServedRight(setup, bundles, r0, r, now)
  {
    ServedOnLoaded(setup, bundles, r0, r, now);
  }

  lemma OtherDecisionIsWrong(setup: Setup, bundles: seq<Bundle>, r0: Request, r: Request, now: int, selected: seq<Bundle>)
    requires Shares(setup, bundles, r0, r) && selected != []
    requires Select(bundles, r0.bundleNames) == selected == Select(bundles, r.bundleNames)
    requires Decide(setup.num, r0, selected) != Decide(setup.num, r, selected)
    ensures !ServedRight(setup, bundles, r0, r, now)
  {
    ServedOnLoaded(setup, bundles, r0, r, now);
  }

  lemma SelectWithRules(bundles: seq<Bundle>, rules: seq<Rule>, wanted: seq<string>)
    ensures Select(WithRules(bundles, rules), wanted) == WithRules(Select(bundles, wanted), rules)
  {
    RestrictWithRules(bundles, rules, set n | n in wanted);
  }

  /** If sharing is not harmless, some rules in these bundles make the served answer wrong. */
  lemma HarmfulIsWrong(setup: Setup, bundles: seq<Bundle>, r0: Request, r: Request, now: int) returns (bundles': seq<Bundle>)
    requires Shares(setup, bundles, r0, r)
    requires !Harmless(setup.num, r0, Select(bundles, r0.bundleNames), r, Select(bundles, r.bundleNames))
    ensures SameHeaders(bundles, bundles') && !ServedRight(setup, bundles', r0, r, now)
  {
    bundles' := bundles;
    var selected0, selected := Select(bundles, r0.bundleNames), Select(bundles, r.bundleNames);
    if NameList(selected0) != NameList(selected) {
      OtherNamesAreWrong(setup, bundles, r0, r, now);
    } else {
      SelectedStillValid(bundles, r0.bundleNames);
      SameListSameBundles(selected0, bundles, r.bundleNames);
      var rules := DistinguishingRules(setup.num, selected, r0, r);
      bundles' := WithRules(bundles, rules);
      SelectWithRules(bundles, rules, r0.bundleNames);
      SelectWithRules(bundles, rules, r.bundleNames);
      SharesHeaders(setup, bundles, bundles', r0, r);
      OtherDecisionIsWrong(setup, bundles', r0, r, now, WithRules(selected, rules));
    }
  }

  /**
   Two requests, whatever bundles they name, share a key text over the loaded bundles. What is served to the second for the
   first is right under all rules of those bundles exactly if their selections have the same names and are empty, or the
   requests are of the same case.
   */
  lemma SharedKeyHarmlessExactly(setup: Setup, bundles: seq<Bundle>, r0: Request, r: Request, now: int)
    requires Shares(setup, bundles, r0, r)
    ensures (forall bundles' :: SameHeaders(bundles, bundles') ==> ServedRight(setup, bundles', r0, r, now)) <==>
      Harmless(setup.num, r0, Select(bundles, r0.bundleNames), r, Select(bundles, r.bundleNames))
  {
    if Harmless(setup.num, r0, Select(bundles, r0.bundleNames), r, Select(bundles, r.bundleNames)) {
      forall bundles' | SameHeaders(bundles, bundles')
        ensures ServedRight(setup, bundles', r0, r, now)
      {
        SharesHeaders(setup, bundles, bundles', r0, r);
        HeadersDetermine(r, Select(bundles, r.bundleNames), Select(bundles', r.bundleNames));
        HarmlessIsRight(setup, bundles', r0, r, now);
      }
    } else {
      var bundles' := HarmfulIsWrong(setup, bundles, r0, r, now);
    }
  }
}
