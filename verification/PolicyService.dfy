/**
 The policy service around the decision cache (s1/opa-integration-layer/src/service.ts): bundle loads, reloads,
 deprecations, error unloads and evaluations, in any order.

 JavaScript runs each of these to completion, so a run is a list of whole operations. Bundle compilation and
 signature checks are an input (`compiled`), as are clock readings, the envelope a request ends up with, and whether the
 evaluator throws. The digest of a key's preimage is a parameter `H`.
 */
module PolicyService {
  import opened Wrappers
  import opened PolicyEvaluator
  import opened DecisionKey
  import opened EvaluationCache

  const ERROR_LIMIT: nat := 10

  /** `loaded` is the insertion-ordered map of bundles by name. */
  datatype State = State(loaded: seq<Bundle>, items: seq<Item>, errors: map<string, nat>)

  datatype Setup = Setup(H: string -> string, num: Numeric, limits: Limits)

  const INITIAL := State([], [], map[])

  datatype Action =
    | Load(bundle: Bundle, compiled: bool)
    | Reload(bundle: Bundle, compiled: bool)
    | Deprecate(name: string)
    | Evaluate(request: Request, now: int, throws: bool)

  /******* Bundles *******/

  /** `Map.set`: an existing name keeps its place. */
  function Put(loaded: seq<Bundle>, b: Bundle): seq<Bundle> {
    if loaded == [] then [b]
    else if loaded[0].name == b.name then [b] + loaded[1..]
    else [loaded[0]] + Put(loaded[1..], b)
  }

  /** The bundles whose names are in the set, in order. */
  function Restrict(loaded: seq<Bundle>, names: set<string>): seq<Bundle> {
    if loaded == [] then [] else (if loaded[0].name in names then [loaded[0]] else []) + Restrict(loaded[1..], names)
  }

  function Names(bundles: seq<Bundle>): set<string> {
    set b | b in bundles :: b.name
  }

  function NameList(bundles: seq<Bundle>): (r: seq<string>)
    ensures |r| == |bundles| && forall i :: 0 <= i < |r| ==> r[i] == bundles[i].name
  {
    if bundles == [] then [] else [bundles[0].name] + NameList(bundles[1..])
  }

  function Versions(bundles: seq<Bundle>): seq<string> {
    if bundles == [] then [] else [bundles[0].version] + Versions(bundles[1..])
  }

  function Select(loaded: seq<Bundle>, wanted: seq<string>): seq<Bundle> {
    if wanted == [] then loaded else Restrict(loaded, set n | n in wanted)
  }

  function Unload(loaded: seq<Bundle>, gone: set<string>): seq<Bundle> {
    Restrict(loaded, Names(loaded) - gone)
  }

  /******* Evaluation *******/

  predicate Complete(r: Request) {
    r.evaluationId != "" && r.agentId != "" && r.actionClass != "" && r.resource != "" && r.passportId != ""
  }

  predicate IsAdmission(reason: DenyReason) {
    reason.AdmissionScopeViolation? || reason.AdmissionCapInvalidNumeric? || reason.AdmissionCapExceeded?
  }

  function ReasonFor(d: Decision): DecisionReason {
    if d.effect == Deny && IsAdmission(d.reason) then AdmissionEnvelope
    else if d.effect == Deny then DenyByDefault
    else PolicyDecision
  }

  function DenyResponse(r: Request, now: int, bundles: seq<Bundle>, reason: DenyReason): Response {
    Response(r.evaluationId, Deny, DenyByDefault, [], [], NameList(bundles), Versions(bundles), now, false, reason)
  }

  /** The answer computed without looking at the cache. */
  function Answer(num: Numeric, r: Request, bundles: seq<Bundle>, now: int): Response {
    if bundles == [] then DenyResponse(r, now, [], NoPolicyCoversActionClass)
    else
      var d := Decide(num, r, bundles);
      Response(r.evaluationId, d.effect, ReasonFor(d), d.matched, d.fired, NameList(bundles), Versions(bundles), now, false, d.reason)
  }

  function KeyOf(setup: Setup, r: Request, bundles: seq<Bundle>): string {
    setup.H(Preimage(r, bundles))
  }

  /** The error count a throw leaves for a selected bundle. */
  function Counted(errors: map<string, nat>, name: string): nat {
    (if name in errors then errors[name] else 0) + 1
  }

  /**
   After a throw: one more error for each selected bundle in turn, and a bundle whose count reaches the limit
   is unloaded.
   */
  function Punish(loaded: seq<Bundle>, errors: map<string, nat>, bundles: seq<Bundle>): (seq<Bundle>, map<string, nat>)
    decreases |bundles|
  {
    if bundles == [] then (loaded, errors)
    else
      var name := bundles[0].name;
      var count := Counted(errors, name);
      Punish(if count >= ERROR_LIMIT then Unload(loaded, {name}) else loaded, errors[name := count], bundles[1..])
  }

  function Reset(errors: map<string, nat>, bundles: seq<Bundle>): map<string, nat>
    decreases |bundles|
  {
    if bundles == [] then errors else Reset(errors[bundles[0].name := 0], bundles[1..])
  }

  datatype Evaluated = Evaluated(state: State, response: Option<Response>)

  /** `evaluate` on a request whose envelope is settled; `None` stands for INVALID_ARGUMENT. */
  function DoEvaluate(setup: Setup, s: State, r: Request, now: int, throws: bool): Evaluated {
    if !Complete(r) then Evaluated(s, None)
    else
      var selected := Select(s.loaded, r.bundleNames);
      var key := KeyOf(setup, r, selected);
      var served, items := Served(setup.limits, s.items, key, now), AfterGet(setup.limits, s.items, key, now);
      if served.Some? then Evaluated(s.(items := items), served)
      else if selected == [] then
        var deny := Answer(setup.num, r, selected, now);
        Evaluated(s.(items := AfterSet(setup.limits, items, key, deny, now)), Some(deny))
      else if throws then
        var (loaded, errors) := Punish(s.loaded, s.errors, selected);
        Evaluated(State(loaded, items, errors), Some(DenyResponse(r, now, selected, EvaluationError)))
      else
        var response := Answer(setup.num, r, selected, now);
        Evaluated(State(s.loaded, AfterSet(setup.limits, items, key, response, now), Reset(s.errors, selected)), Some(response))
  }

  function DoLoad(s: State, b: Bundle, compiled: bool): State {
    if compiled then s.(loaded := Put(s.loaded, b), items := DropFor(s.items, b.name)) else s
  }

  predicate Current(loaded: seq<Bundle>, b: Bundle) {
    exists x :: x in loaded && x.name == b.name && x.version == b.version
  }

  function Step(setup: Setup, s: State, a: Action): State {
    match a
    case Load(b, compiled) => DoLoad(s, b, compiled)
    case Reload(b, compiled) => if Current(s.loaded, b) then s else DoLoad(s, b, compiled)
    case Deprecate(name) => s.(loaded := Unload(s.loaded, {name}), items := DropFor(s.items, name))
    case Evaluate(r, now, throws) => DoEvaluate(setup, s, r, now, throws).state
  }

  function Exec(setup: Setup, run: seq<Action>): State {
    if run == [] then INITIAL else Step(setup, Exec(setup, run[..|run| - 1]), run[|run| - 1])
  }

  /******* Bundle lists *******/

  ghost predicate DistinctNames(bundles: seq<Bundle>) {
    forall i, j :: 0 <= i < j < |bundles| ==> bundles[i].name != bundles[j].name
  }

  lemma {:induction false} RestrictMembers(loaded: seq<Bundle>, names: set<string>, b: Bundle)
    ensures b in Restrict(loaded, names) <==> b in loaded && b.name in names
  {
    if loaded != [] {
      RestrictMembers(loaded[1..], names, b);
    }
  }

  lemma {:induction false} RestrictDistinct(loaded: seq<Bundle>, names: set<string>)
    requires DistinctNames(loaded)
    ensures DistinctNames(Restrict(loaded, names))
  {
    if loaded != [] {
      RestrictDistinct(loaded[1..], names);
      var rest := Restrict(loaded[1..], names);
      forall i | 0 <= i < |rest|
        ensures rest[i].name != loaded[0].name
      {
        RestrictMembers(loaded[1..], names, rest[i]);
      }
    }
  }

  lemma {:induction false} RestrictAll(bundles: seq<Bundle>, names: set<string>)
    requires forall b :: b in bundles ==> b.name in names
    ensures Restrict(bundles, names) == bundles
  {
    if bundles != [] {
      RestrictAll(bundles[1..], names);
      assert bundles[0] in bundles;
    }
  }

  lemma {:induction false} RestrictTwice(bundles: seq<Bundle>, a: set<string>, b: set<string>)
    ensures Restrict(Restrict(bundles, a), b) == Restrict(bundles, a * b)
  {
    if bundles != [] {
      RestrictTwice(bundles[1..], a, b);
      var rest := Restrict(bundles[1..], a);
      assert ([bundles[0]] + rest)[1..] == rest && [] + rest == rest;
    }
  }

  /** Names outside the list do not matter to a restriction. */
  lemma {:induction false} RestrictSame(bundles: seq<Bundle>, a: set<string>, b: set<string>)
    requires forall x :: x in bundles ==> (x.name in a <==> x.name in b)
    ensures Restrict(bundles, a) == Restrict(bundles, b)
  {
    if bundles != [] {
      RestrictSame(bundles[1..], a, b);
      assert bundles[0] in bundles;
    }
  }

  /** Loading a bundle does not disturb a restriction to other names. */
  lemma {:induction false} PutElsewhere(loaded: seq<Bundle>, b: Bundle, names: set<string>)
    requires b.name !in names
    ensures Restrict(Put(loaded, b), names) == Restrict(loaded, names)
  {
    if loaded != [] {
      PutElsewhere(loaded[1..], b, names);
    }
  }

  lemma {:induction false} PutMembers(loaded: seq<Bundle>, b: Bundle)
    ensures forall x :: x in Put(loaded, b) ==> x in loaded || x == b
  {
    if loaded != [] {
      PutMembers(loaded[1..], b);
    }
  }

  lemma NamesCons(b: Bundle, bundles: seq<Bundle>)
    ensures Names([b] + bundles) == {b.name} + Names(bundles)
  {
    assert forall x :: x in [b] + bundles <==> x == b || x in bundles;
  }

  lemma {:induction false} PutNames(loaded: seq<Bundle>, b: Bundle)
    ensures Names(Put(loaded, b)) == Names(loaded) + {b.name}
  {
    if loaded == [] {
      NamesCons(b, []);
    } else {
      assert loaded == [loaded[0]] + loaded[1..];
      NamesCons(loaded[0], loaded[1..]);
      if loaded[0].name == b.name {
        NamesCons(b, loaded[1..]);
      } else {
        PutNames(loaded[1..], b);
        NamesCons(loaded[0], Put(loaded[1..], b));
      }
    }
  }

  lemma {:induction false} PutDistinct(loaded: seq<Bundle>, b: Bundle)
    requires DistinctNames(loaded)
    ensures DistinctNames(Put(loaded, b))
  {
    if loaded != [] {
      PutDistinct(loaded[1..], b);
      if loaded[0].name != b.name {
        var rest := Put(loaded[1..], b);
        PutMembers(loaded[1..], b);
        forall i | 0 <= i < |rest|
          ensures rest[i].name != loaded[0].name
        {
          assert rest[i] in rest;
        }
      }
    }
  }

  /******* What is loaded *******/

  /** A bundle put under a name takes the place of the one there, or comes last; no other bundle moves. */
  lemma {:induction false} PutExact(loaded: seq<Bundle>, b: Bundle, i: nat)
    requires DistinctNames(loaded)
    ensures i < |loaded| && loaded[i].name == b.name ==> Put(loaded, b) == loaded[i := b]
    ensures (forall j :: 0 <= j < |loaded| ==> loaded[j].name != b.name) ==> Put(loaded, b) == loaded + [b]
  {
    if loaded != [] {
      if loaded[0].name != b.name {
        PutExact(loaded[1..], b, if i > 0 then i - 1 else 0);
      } else if i < |loaded| && loaded[i].name == b.name {
        assert i == 0;
      }
    }
  }

  lemma PutHolds(loaded: seq<Bundle>, b: Bundle, x: Bundle)
    requires DistinctNames(loaded)
    ensures x in Put(loaded, b) <==> x == b || (x in loaded && x.name != b.name)
  {
    if i :| 0 <= i < |loaded| && loaded[i].name == b.name {
      PutExact(loaded, b, i);
      assert loaded[i := b][i] == b;
      if x in loaded && x.name != b.name {
        var j :| 0 <= j < |loaded| && loaded[j] == x;
        assert loaded[i := b][j] == x;
      }
    } else {
      PutExact(loaded, b, 0);
    }
  }

  /** The selected bundles are those named, or all if none is named, in the order in which they are loaded. */
  lemma {:induction false} SelectExact(loaded: seq<Bundle>, wanted: seq<string>, i: nat)
    requires i < |loaded|
    ensures var n := |Select(loaded[..i], wanted)|;
      if wanted == [] || loaded[i].name in wanted
      then n < |Select(loaded, wanted)| && Select(loaded, wanted)[n] == loaded[i]
      else |Select(loaded[..i + 1], wanted)| == n
  {
    if wanted != [] {
      RestrictAt(loaded, (set n | n in wanted), i);
    }
  }

  lemma {:induction false} RestrictAt(loaded: seq<Bundle>, names: set<string>, i: nat)
    requires i < |loaded|
    ensures var n := |Restrict(loaded[..i], names)|;
      if loaded[i].name in names
      then n < |Restrict(loaded, names)| && Restrict(loaded, names)[n] == loaded[i]
      else |Restrict(loaded[..i + 1], names)| == n
  {
    if i > 0 {
      RestrictAt(loaded[1..], names, i - 1);
      assert loaded[1..][..i - 1] == loaded[..i][1..] && loaded[1..][..i] == loaded[..i + 1][1..];
    } else {
      assert loaded[..0] == [] && loaded[..1][1..] == [];
    }
  }

  /** Some loaded bundle of this name is selected. */
  ghost predicate SelectedName(loaded: seq<Bundle>, wanted: seq<string>, name: string) {
    (wanted == [] || name in wanted) && exists b :: b in loaded && b.name == name
  }

  lemma SelectedNames(loaded: seq<Bundle>, wanted: seq<string>, name: string)
    ensures name in Names(Select(loaded, wanted)) <==> SelectedName(loaded, wanted, name)
  {
    var names := set n | n in wanted;
    if wanted != [] {
      if name in Names(Select(loaded, wanted)) {
        var b :| b in Select(loaded, wanted) && b.name == name;
        RestrictMembers(loaded, names, b);
      }
      if SelectedName(loaded, wanted, name) {
        var b :| b in loaded && b.name == name;
        RestrictMembers(loaded, names, b);
      }
    }
  }

  /** The evaluation gets to the evaluator with this name selected: the request is complete and nothing is cached for it. */
  ghost predicate Evaluates(setup: Setup, s: State, a: Action, name: string) {
    && a.Evaluate? && Complete(a.request) && SelectedName(s.loaded, a.request.bundleNames, name)
    && Served(setup.limits, s.items, KeyOf(setup, a.request, Select(s.loaded, a.request.bundleNames)), a.now).None?
  }

  /** How often in a row, up to now, evaluations with this name selected have thrown. */
  ghost function Streak(setup: Setup, run: seq<Action>, name: string): nat {
    if run == [] then 0
    else
      var init, a := run[..|run| - 1], run[|run| - 1];
      if !Evaluates(setup, Exec(setup, init), a, name) then Streak(setup, init, name)
      else if a.throws then Streak(setup, init, name) + 1
      else 0
  }

  function ErrorsOf(errors: map<string, nat>, name: string): nat {
    if name in errors then errors[name] else 0
  }

  /** The bundle that stands under the name: the last one loaded, unless deprecated or unloaded for errors since. */
  ghost function Standing(setup: Setup, run: seq<Action>, name: string): Option<Bundle> {
    if run == [] then None
    else
      var init, a := run[..|run| - 1], run[|run| - 1];
      var before := Standing(setup, init, name);
      match a
      case Load(b, compiled) => if b.name == name && compiled then Some(b) else before
      case Reload(b, compiled) =>
        if b.name == name && compiled && !(before.Some? && before.value.version == b.version) then Some(b) else before
      case Deprecate(n) => if n == name then None else before
      case Evaluate(_, _, throws) =>
        if Evaluates(setup, Exec(setup, init), a, name) && throws && Streak(setup, run, name) >= 10 then None else before
  }

  lemma {:induction false} PunishCounts(loaded: seq<Bundle>, errors: map<string, nat>, bundles: seq<Bundle>, name: string)
    requires DistinctNames(bundles)
    ensures ErrorsOf(Punish(loaded, errors, bundles).1, name) == ErrorsOf(errors, name) + if name in Names(bundles) then 1 else 0
    decreases |bundles|
  {
    if bundles != [] {
      var first, rest := bundles[0].name, bundles[1..];
      var count := Counted(errors, first);
      PunishCounts(if count >= ERROR_LIMIT then Unload(loaded, {first}) else loaded, errors[first := count], rest, name);
      assert bundles == [bundles[0]] + rest;
      NamesCons(bundles[0], rest);
      assert first !in Names(rest);
    }
  }

  lemma {:induction false} ResetCounts(errors: map<string, nat>, bundles: seq<Bundle>, name: string)
    ensures ErrorsOf(Reset(errors, bundles), name) == if name in Names(bundles) then 0 else ErrorsOf(errors, name)
    decreases |bundles|
  {
    if bundles != [] {
      ResetCounts(errors[bundles[0].name := 0], bundles[1..], name);
      assert bundles == [bundles[0]] + bundles[1..];
      NamesCons(bundles[0], bundles[1..]);
    }
  }

  /** Only an evaluation that gets to the evaluator touches the error counts. */
  lemma EvaluateErrors(setup: Setup, s: State, a: Action)
    requires a.Evaluate?
    ensures var selected := Select(s.loaded, a.request.bundleNames);
      var reached := Complete(a.request) && Served(setup.limits, s.items, KeyOf(setup, a.request, selected), a.now).None?;
      Step(setup, s, a).errors
      == if !reached then s.errors else if a.throws then Punish(s.loaded, s.errors, selected).1 else Reset(s.errors, selected)
  {}

  /** One step changes the error count of a name only by an evaluation with it selected. */
  lemma StepErrors(setup: Setup, s: State, a: Action, name: string)
    requires DistinctNames(s.loaded)
    ensures ErrorsOf(Step(setup, s, a).errors, name)
         == if !Evaluates(setup, s, a, name) then ErrorsOf(s.errors, name) else if a.throws then ErrorsOf(s.errors, name) + 1 else 0
  {
    if a.Evaluate? {
      var selected := Select(s.loaded, a.request.bundleNames);
      SelectDistinct(s.loaded, a.request.bundleNames);
      SelectedNames(s.loaded, a.request.bundleNames, name);
      EvaluateErrors(setup, s, a);
      if a.throws {
        PunishCounts(s.loaded, s.errors, selected, name);
      } else {
        ResetCounts(s.errors, selected, name);
      }
    }
  }

  lemma {:induction false} RunBundles(setup: Setup, run: seq<Action>)
    ensures DistinctNames(Exec(setup, run).loaded)
  {
    if run != [] {
      RunBundles(setup, run[..|run| - 1]);
      StepBundles(setup, Exec(setup, run[..|run| - 1]), run[|run| - 1]);
    }
  }

  /** The error count kept for a name is the length of its current streak of throws. */
  lemma {:induction false} ErrorsAreStreak(setup: Setup, run: seq<Action>, name: string)
    ensures ErrorsOf(Exec(setup, run).errors, name) == Streak(setup, run, name)
  {
    if run != [] {
      var init := run[..|run| - 1];
      ErrorsAreStreak(setup, init, name);
      RunBundles(setup, init);
      StepErrors(setup, Exec(setup, init), run[|run| - 1], name);
    }
  }

  lemma UnloadHolds(loaded: seq<Bundle>, gone: set<string>, b: Bundle)
    ensures b in Unload(loaded, gone) <==> b in loaded && b.name !in gone
  {
    RestrictMembers(loaded, Names(loaded) - gone, b);
  }

  /** A deprecation unloads exactly the bundle of that name, and no decision that used it stays cached. */
  lemma DeprecateExact(setup: Setup, s: State, name: string, b: Bundle, x: Item)
    ensures var s' := Step(setup, s, Deprecate(name));
      && (b in s'.loaded <==> b in s.loaded && b.name != name)
      && (x in s'.items <==> x in s.items && name !in x.value.bundleNames)
      && s'.errors == s.errors
  {
    UnloadHolds(s.loaded, {name}, b);
  }

  /** A load that compiles puts the bundle under its name and drops the decisions that used the name; any other does nothing. */
  lemma LoadExact(setup: Setup, s: State, b: Bundle, compiled: bool, x: Bundle, y: Item)
    requires DistinctNames(s.loaded)
    ensures var s' := Step(setup, s, Load(b, compiled));
      if !compiled then s' == s
      else && (x in s'.loaded <==> x == b || (x in s.loaded && x.name != b.name))
           && (y in s'.items <==> y in s.items && b.name !in y.value.bundleNames)
           && s'.errors == s.errors
  {
    PutHolds(s.loaded, b, x);
  }

  /** A reload does nothing if the version loaded under the name is the active one, and is a load otherwise. */
  lemma ReloadExact(setup: Setup, s: State, b: Bundle, compiled: bool)
    ensures var current := exists x :: x in s.loaded && x.name == b.name && x.version == b.version;
      Step(setup, s, Reload(b, compiled)) == if current then s else Step(setup, s, Load(b, compiled))
  {}

  lemma SelectDistinct(loaded: seq<Bundle>, wanted: seq<string>)
    requires DistinctNames(loaded)
    ensures DistinctNames(Select(loaded, wanted))
  {
    var _ := SelectIsRestriction(loaded, wanted);
  }

  /** Only a throw of the evaluator touches what is loaded. */
  lemma EvaluateLoaded(setup: Setup, s: State, a: Action)
    requires a.Evaluate?
    ensures var selected := Select(s.loaded, a.request.bundleNames);
      var reached := Complete(a.request) && Served(setup.limits, s.items, KeyOf(setup, a.request, selected), a.now).None? && selected != [];
      Step(setup, s, a).loaded == if reached && a.throws then Punish(s.loaded, s.errors, selected).0 else s.loaded
  {}

  /** A throw unloads a bundle exactly if it was selected and its count reaches ten; otherwise nothing is unloaded. */
  lemma EvaluateUnloads(setup: Setup, s: State, a: Action, b: Bundle)
    requires DistinctNames(s.loaded) && a.Evaluate?
    ensures b in Step(setup, s, a).loaded <==>
      b in s.loaded && !(Evaluates(setup, s, a, b.name) && a.throws && ErrorsOf(s.errors, b.name) + 1 >= 10)
  {
    var selected := Select(s.loaded, a.request.bundleNames);
    SelectDistinct(s.loaded, a.request.bundleNames);
    SelectedNames(s.loaded, a.request.bundleNames, b.name);
    PunishHolds(s.loaded, s.errors, selected, b);
    EvaluateLoaded(setup, s, a);
  }

  lemma {:induction false} PunishHolds(loaded: seq<Bundle>, errors: map<string, nat>, bundles: seq<Bundle>, b: Bundle)
    requires DistinctNames(bundles)
    ensures b in Punish(loaded, errors, bundles).0 <==>
      b in loaded && !(b.name in Names(bundles) && ErrorsOf(errors, b.name) + 1 >= 10)
    decreases |bundles|
  {
    if bundles != [] {
      var name, rest := bundles[0].name, bundles[1..];
      var count := Counted(errors, name);
      var loaded' := if count >= ERROR_LIMIT then Unload(loaded, {name}) else loaded;
      UnloadHolds(loaded, {name}, b);
      PunishHolds(loaded', errors[name := count], rest, b);
      assert bundles == [bundles[0]] + rest;
      NamesCons(bundles[0], rest);
      assert name !in Names(rest);
    }
  }

  /** Under the name exactly this bundle is loaded, if any. */
  ghost predicate Stands(loaded: seq<Bundle>, name: string, standing: Option<Bundle>) {
    && (standing.Some? ==> standing.value.name == name)
    && forall x: Bundle :: x.name == name ==> (x in loaded <==> standing == Some(x))
  }

  lemma CurrentStands(loaded: seq<Bundle>, b: Bundle, standing: Option<Bundle>)
    requires Stands(loaded, b.name, standing)
    ensures Current(loaded, b) <==> standing.Some? && standing.value.version == b.version
  {
    if Current(loaded, b) {
      var x :| x in loaded && x.name == b.name && x.version == b.version;
      assert standing == Some(x);
    }
    if standing.Some? {
      assert standing.value in loaded;
    }
  }

  lemma ReloadStands(setup: Setup, s: State, a: Action, b: Bundle, standing: Option<Bundle>)
    requires a.Reload? && DistinctNames(s.loaded) && Stands(s.loaded, b.name, standing)
    ensures b in Step(setup, s, a).loaded <==>
      (if a.bundle.name == b.name && a.compiled && !(standing.Some? && standing.value.version == a.bundle.version)
       then Some(a.bundle) else standing) == Some(b)
  {
    PutHolds(s.loaded, a.bundle, b);
    if a.bundle.name == b.name {
      CurrentStands(s.loaded, a.bundle, standing);
    }
  }

  lemma StepStands(setup: Setup, init: seq<Action>, a: Action, b: Bundle)
    requires DistinctNames(Exec(setup, init).loaded) && Stands(Exec(setup, init).loaded, b.name, Standing(setup, init, b.name))
    ensures b in Step(setup, Exec(setup, init), a).loaded <==> Standing(setup, init + [a], b.name) == Some(b)
  {
    var s, run := Exec(setup, init), init + [a];
    assert run[..|run| - 1] == init;
    match a
    case Load(x, compiled) => PutHolds(s.loaded, x, b);
    case Reload(x, compiled) => ReloadStands(setup, s, a, b, Standing(setup, init, b.name));
    case Deprecate(name) => UnloadHolds(s.loaded, {name}, b);
    case Evaluate(_, _, _) =>
      ErrorsAreStreak(setup, init, b.name);
      EvaluateUnloads(setup, s, a, b);
  }

  lemma {:induction false} StandingNamed(setup: Setup, run: seq<Action>, name: string)
    ensures Standing(setup, run, name).Some? ==> Standing(setup, run, name).value.name == name
  {
    if run != [] {
      StandingNamed(setup, run[..|run| - 1], name);
    }
  }

  /** In every run a bundle is loaded exactly if it stands under its name. */
  lemma {:induction false} LoadedExactly(setup: Setup, run: seq<Action>, b: Bundle)
    ensures b in Exec(setup, run).loaded <==> Standing(setup, run, b.name) == Some(b)
  {
    if run != [] {
      var init, a := run[..|run| - 1], run[|run| - 1];
      assert run == init + [a];
      RunBundles(setup, init);
      StandingNamed(setup, init, b.name);
      forall x: Bundle | x.name == b.name
        ensures x in Exec(setup, init).loaded <==> Standing(setup, init, b.name) == Some(x)
      {
        LoadedExactly(setup, init, x);
      }
      StepStands(setup, init, a, b);
    }
  }

  /******* What is answered *******/

  /** A request is refused exactly if one of its five identifying fields is empty. */
  lemma RefusedExact(setup: Setup, s: State, r: Request, now: int, throws: bool)
    ensures var missing := |r.evaluationId| == 0 || |r.agentId| == 0 || |r.actionClass| == 0 || |r.resource| == 0 || |r.passportId| == 0;
      (DoEvaluate(setup, s, r, now, throws).response.None? <==> missing) && (missing ==> DoEvaluate(setup, s, r, now, throws).state == s)
  {}

  /** A computed answer carries the decision, names and versions of the bundles, and says where a denial comes from. */
  lemma AnswerExact(num: Numeric, r: Request, bundles: seq<Bundle>, now: int)
    requires bundles != []
    ensures var a, d := Answer(num, r, bundles, now), Decide(num, r, bundles);
      && a.evaluationId == r.evaluationId && a.evaluatedTs == now && !a.cacheHit
      && a.effect == d.effect && a.matchedRules == d.matched && a.firedRules == d.fired && a.denyReason == d.reason
      && |a.bundleNames| == |bundles| == |a.bundleVersions|
      && (forall i :: 0 <= i < |bundles| ==> a.bundleNames[i] == bundles[i].name && a.bundleVersions[i] == bundles[i].version)
      && a.decisionReason == (if a.effect != Deny then PolicyDecision
                              else if AdmissionObstacle(num, r).Some? then AdmissionEnvelope else DenyByDefault)
  {
    VersionsAt(bundles);
    ObstacleIsAdmission(num, r);
  }

  lemma {:induction false} VersionsAt(bundles: seq<Bundle>)
    ensures |Versions(bundles)| == |bundles| && forall i :: 0 <= i < |bundles| ==> Versions(bundles)[i] == bundles[i].version
  {
    if bundles != [] {
      VersionsAt(bundles[1..]);
    }
  }

  lemma ObstacleIsAdmission(num: Numeric, r: Request)
    ensures AdmissionObstacle(num, r).Some? ==> IsAdmission(AdmissionObstacle(num, r).value)
  {
    if r.envelope.Some? {
      CapIsAdmission(num, r.envelope.value.caps, r.metadata, 0);
    }
  }

  lemma {:induction false} CapIsAdmission(num: Numeric, caps: seq<(string, real)>, metadata: map<string, string>, i: nat)
    requires i <= |caps|
    ensures CapObstacle(num, caps, metadata, i).Some? ==> IsAdmission(CapObstacle(num, caps, metadata, i).value)
    decreases |caps| - i
  {
    if i < |caps| {
      CapIsAdmission(num, caps, metadata, i + 1);
    }
  }

  /**
   What a complete request that is not cached gets: with nothing selected a denial, which is cached; after a throw a denial,
   which is not; otherwise the computed answer, which is.
   */
  lemma EvaluateExact(setup: Setup, s: State, r: Request, now: int, throws: bool)
    requires Complete(r) && Served(setup.limits, s.items, KeyOf(setup, r, Select(s.loaded, r.bundleNames)), now).None?
    ensures var selected, e := Select(s.loaded, r.bundleNames), DoEvaluate(setup, s, r, now, throws);
      var key := KeyOf(setup, r, selected); var looked := AfterGet(setup.limits, s.items, key, now);
      && e.response.Some?
      && (selected == [] ==>
            && e.response.value == Response(r.evaluationId, Deny, DenyByDefault, [], [], [], [], now, false, NoPolicyCoversActionClass)
            && e.state.items == AfterSet(setup.limits, looked, key, e.response.value, now))
      && (selected != [] && throws ==>
            && e.response.value
               == Response(r.evaluationId, Deny, DenyByDefault, [], [], NameList(selected), Versions(selected), now, false, EvaluationError)
            && e.state.items == looked)
      && (selected != [] && !throws ==>
            && e.response.value == Answer(setup.num, r, selected, now)
            && e.state.items == AfterSet(setup.limits, looked, key, e.response.value, now))
  {}

  /** An answer from the cache changes nothing but its place in the cache. */
  lemma HitExact(setup: Setup, s: State, r: Request, now: int, throws: bool, i: nat)
    requires Complete(r) && DistinctKeys(s.items) && i < |s.items|
    requires s.items[i].key == KeyOf(setup, r, Select(s.loaded, r.bundleNames)) && now - s.items[i].cachedTs <= setup.limits.ttlMs
    ensures DoEvaluate(setup, s, r, now, throws)
         == Evaluated(s.(items := s.items[..i] + s.items[i + 1..] + [s.items[i]]),
                      Some(s.items[i].value.(cacheHit := true, evaluatedTs := now)))
  {
    FreshExact(setup.limits, s.items, i, now);
  }

  /******* Transparency *******/

  /** The bundles a decision used, less those unloaded since, are what is loaded under their names, in the same order. */
  ghost predicate StillValid(used: seq<Bundle>, loaded: seq<Bundle>) {
    Restrict(loaded, Names(used)) == Restrict(used, Names(loaded))
  }

  /** What the bundles selected for action `i` of the run were. */
  function SelectedAt(setup: Setup, run: seq<Action>, i: nat): seq<Bundle>
    requires i < |run| && run[i].Evaluate?
  {
    Select(Exec(setup, run[..i]).loaded, run[i].request.bundleNames)
  }

  /** The cached item is the answer computed by evaluation `i` of the run, and the bundles it used are still valid. */
  ghost predicate JustifiedBy(setup: Setup, run: seq<Action>, item: Item, loaded: seq<Bundle>, i: nat) {
    && i < |run| && run[i].Evaluate?
    && var r, used := run[i].request, SelectedAt(setup, run, i);
       && item.key == KeyOf(setup, r, used)
       && item.value == Answer(setup.num, r, used, run[i].now)
       && StillValid(used, loaded)
  }

  ghost predicate AllJustified(setup: Setup, run: seq<Action>, s: State) {
    forall item :: item in s.items ==> exists i: nat :: JustifiedBy(setup, run, item, s.loaded, i)
  }

  lemma SelectIsRestriction(loaded: seq<Bundle>, wanted: seq<string>) returns (names: set<string>)
    requires DistinctNames(loaded)
    ensures Select(loaded, wanted) == Restrict(loaded, names) && names == Names(Select(loaded, wanted))
    ensures DistinctNames(Select(loaded, wanted))
  {
    var want := if wanted == [] then Names(loaded) else set n | n in wanted;
    RestrictAll(loaded, Names(loaded));
    var selected := Select(loaded, wanted);
    assert selected == Restrict(loaded, want);
    RestrictDistinct(loaded, want);
    names := Names(selected);
    forall x | x in loaded
      ensures x.name in names <==> x.name in want
    {
      RestrictMembers(loaded, want, x);
      if x.name in names {
        var y :| y in selected && y.name == x.name;
        RestrictMembers(loaded, want, y);
      }
    }
    RestrictSame(loaded, names, want);
  }

  /** What was selected is still valid at the moment of selection. */
  lemma SelectedStillValid(loaded: seq<Bundle>, wanted: seq<string>)
    requires DistinctNames(loaded)
    ensures StillValid(Select(loaded, wanted), loaded)
  {
    var names := SelectIsRestriction(loaded, wanted);
    var selected := Select(loaded, wanted);
    forall b | b in selected
      ensures b.name in Names(loaded)
    {
      RestrictMembers(loaded, names, b);
    }
    RestrictAll(selected, Names(loaded));
  }

  lemma UnloadNames(loaded: seq<Bundle>, gone: set<string>)
    ensures Names(Unload(loaded, gone)) == Names(loaded) - gone
  {
    var keep := Names(loaded) - gone;
    forall n
      ensures n in Names(Unload(loaded, gone)) <==> n in keep
    {
      if n in Names(Unload(loaded, gone)) {
        var b :| b in Unload(loaded, gone) && b.name == n;
        RestrictMembers(loaded, keep, b);
      }
      if n in keep {
        var b :| b in loaded && b.name == n;
        RestrictMembers(loaded, keep, b);
      }
    }
  }

  /** Unloading bundles keeps earlier decisions valid. */
  lemma UnloadKeepsValid(used: seq<Bundle>, loaded: seq<Bundle>, gone: set<string>)
    requires StillValid(used, loaded)
    ensures StillValid(used, Unload(loaded, gone))
  {
    var loaded', keep := Unload(loaded, gone), Names(loaded) - gone;
    UnloadNames(loaded, gone);
    RestrictTwice(loaded, keep, Names(used));
    RestrictTwice(loaded, Names(used), keep);
    RestrictTwice(used, Names(loaded), keep);
    assert keep * Names(used) == Names(used) * keep && Names(loaded) * keep == keep;
  }

  /** Loading a bundle under a name the decision did not use keeps it valid. */
  lemma LoadKeepsValid(used: seq<Bundle>, loaded: seq<Bundle>, b: Bundle)
    requires StillValid(used, loaded) && b.name !in Names(used)
    ensures StillValid(used, Put(loaded, b))
  {
    PutElsewhere(loaded, b, Names(used));
    PutNames(loaded, b);
    RestrictSame(used, Names(loaded), Names(Put(loaded, b)));
  }

  /** A valid decision whose bundle names are exactly those selected now used exactly the bundles selected now. */
  lemma ValidAndSameNames(used: seq<Bundle>, loaded: seq<Bundle>, wanted: seq<string>)
    requires DistinctNames(loaded) && StillValid(used, loaded)
    requires Names(used) == Names(Select(loaded, wanted))
    ensures used == Select(loaded, wanted)
  {
    var names := SelectIsRestriction(loaded, wanted);
    forall b | b in used
      ensures b.name in Names(loaded)
    {
      assert b.name in names;
      var y :| y in Select(loaded, wanted) && y.name == b.name;
      RestrictMembers(loaded, names, y);
    }
    RestrictAll(used, Names(loaded));
  }

  lemma JustifiedLonger(setup: Setup, run: seq<Action>, a: Action, item: Item, loaded: seq<Bundle>, loaded': seq<Bundle>, i: nat)
    requires JustifiedBy(setup, run, item, loaded, i) && StillValid(SelectedAt(setup, run, i), loaded')
    ensures JustifiedBy(setup, run + [a], item, loaded', i)
  {
    assert (run + [a])[..i] == run[..i];
  }

  lemma NamesInList(bundles: seq<Bundle>, name: string)
    ensures name in NameList(bundles) <==> name in Names(bundles)
  {
    if name in NameList(bundles) {
      var i :| 0 <= i < |bundles| && NameList(bundles)[i] == name;
      assert bundles[i] in bundles;
    }
    if name in Names(bundles) {
      var b :| b in bundles && b.name == name;
      var i :| 0 <= i < |bundles| && bundles[i] == b;
      assert NameList(bundles)[i] == name;
    }
  }

  lemma AnswerNames(num: Numeric, r: Request, bundles: seq<Bundle>, now: int, name: string)
    ensures name in Answer(num, r, bundles, now).bundleNames <==> name in Names(bundles)
  {
    NamesInList(bundles, name);
  }

  lemma {:induction false} PunishKeepsValid(used: seq<Bundle>, loaded: seq<Bundle>, errors: map<string, nat>, bundles: seq<Bundle>)
    requires StillValid(used, loaded)
    ensures StillValid(used, Punish(loaded, errors, bundles).0)
    decreases |bundles|
  {
    if bundles != [] {
      var name := bundles[0].name;
      var count := Counted(errors, name);
      UnloadKeepsValid(used, loaded, {name});
      PunishKeepsValid(used, if count >= ERROR_LIMIT then Unload(loaded, {name}) else loaded, errors[name := count], bundles[1..]);
    }
  }

  lemma {:induction false} PunishKeepsBundles(loaded: seq<Bundle>, errors: map<string, nat>, bundles: seq<Bundle>)
    requires DistinctNames(loaded)
    ensures DistinctNames(Punish(loaded, errors, bundles).0)
    ensures forall b :: b in Punish(loaded, errors, bundles).0 ==> b in loaded
    decreases |bundles|
  {
    if bundles != [] {
      var name := bundles[0].name;
      var count := Counted(errors, name);
      var loaded' := if count >= ERROR_LIMIT then Unload(loaded, {name}) else loaded;
      UnloadKeepsBundles(loaded, {name});
      PunishKeepsBundles(loaded', errors[name := count], bundles[1..]);
    }
  }

  /** The names whose error count reaches the limit. */
  function Gone(errors: map<string, nat>, bundles: seq<Bundle>): set<string> {
    set b | b in bundles && Counted(errors, b.name) >= ERROR_LIMIT :: b.name
  }

  lemma GoneCons(errors: map<string, nat>, bundles: seq<Bundle>, count: nat)
    requires DistinctNames(bundles) && bundles != []
    ensures var name := bundles[0].name;
      Gone(errors, bundles) == Gone(errors[name := count], bundles[1..]) + if Counted(errors, name) >= ERROR_LIMIT then {name} else {}
  {
    assert forall b :: b in bundles <==> b == bundles[0] || b in bundles[1..];
    assert forall b :: b in bundles[1..] ==> b.name != bundles[0].name;
  }

  /** A throw unloads exactly the selected bundles whose error count reaches the limit. */
  lemma {:induction false} PunishExact(loaded: seq<Bundle>, errors: map<string, nat>, bundles: seq<Bundle>)
    requires DistinctNames(bundles)
    ensures Names(Punish(loaded, errors, bundles).0) == Names(loaded) - Gone(errors, bundles)
    decreases |bundles|
  {
    if bundles != [] {
      var name, rest := bundles[0].name, bundles[1..];
      var count := Counted(errors, name);
      var loaded' := if count >= ERROR_LIMIT then Unload(loaded, {name}) else loaded;
      UnloadNames(loaded, {name});
      PunishExact(loaded', errors[name := count], rest);
      GoneCons(errors, bundles, count);
    }
  }

  lemma UnloadKeepsBundles(loaded: seq<Bundle>, gone: set<string>)
    requires DistinctNames(loaded)
    ensures DistinctNames(Unload(loaded, gone)) && forall b :: b in Unload(loaded, gone) ==> b in loaded
  {
    RestrictDistinct(loaded, Names(loaded) - gone);
    forall b | b in Unload(loaded, gone)
      ensures b in loaded
    {
      RestrictMembers(loaded, Names(loaded) - gone, b);
    }
  }

  /** Every loaded bundle was handed in by the action or was loaded before; names stay distinct. */
  lemma StepBundles(setup: Setup, s: State, a: Action)
    requires DistinctNames(s.loaded)
    ensures DistinctNames(Step(setup, s, a).loaded)
    ensures forall b :: b in Step(setup, s, a).loaded ==> b in s.loaded || ((a.Load? || a.Reload?) && b == a.bundle)
  {
    match a
    case Load(b, _) =>
      PutDistinct(s.loaded, b);
      PutMembers(s.loaded, b);
    case Reload(b, _) =>
      PutDistinct(s.loaded, b);
      PutMembers(s.loaded, b);
    case Deprecate(name) =>
      UnloadKeepsBundles(s.loaded, {name});
    case Evaluate(r, _, _) =>
      PunishKeepsBundles(s.loaded, s.errors, Select(s.loaded, r.bundleNames));
  }

  /** One item survives a step together with its justification. */
  lemma LoadJustifies(setup: Setup, run: seq<Action>, a: Action, s: State, b: Bundle, item: Item)
    requires AllJustified(setup, run, s) && item in DropFor(s.items, b.name)
    ensures exists i: nat :: JustifiedBy(setup, run + [a], item, Put(s.loaded, b), i)
  {
    var i: nat :| JustifiedBy(setup, run, item, s.loaded, i);
    var used := SelectedAt(setup, run, i);
    AnswerNames(setup.num, run[i].request, used, run[i].now, b.name);
    LoadKeepsValid(used, s.loaded, b);
    JustifiedLonger(setup, run, a, item, s.loaded, Put(s.loaded, b), i);
  }

  lemma KeepJustifies(setup: Setup, run: seq<Action>, a: Action, s: State, item: Item)
    requires AllJustified(setup, run, s) && item in s.items
    ensures exists i: nat :: JustifiedBy(setup, run + [a], item, s.loaded, i)
  {
    var i: nat :| JustifiedBy(setup, run, item, s.loaded, i);
    JustifiedLonger(setup, run, a, item, s.loaded, s.loaded, i);
  }

  lemma UnloadJustifies(setup: Setup, run: seq<Action>, a: Action, s: State, gone: set<string>, item: Item)
    requires AllJustified(setup, run, s) && item in s.items
    ensures exists i: nat :: JustifiedBy(setup, run + [a], item, Unload(s.loaded, gone), i)
  {
    var i: nat :| JustifiedBy(setup, run, item, s.loaded, i);
    UnloadKeepsValid(SelectedAt(setup, run, i), s.loaded, gone);
    JustifiedLonger(setup, run, a, item, s.loaded, Unload(s.loaded, gone), i);
  }

  lemma PunishJustifies(setup: Setup, run: seq<Action>, a: Action, s: State, selected: seq<Bundle>, item: Item)
    requires AllJustified(setup, run, s) && item in s.items
    ensures exists i: nat :: JustifiedBy(setup, run + [a], item, Punish(s.loaded, s.errors, selected).0, i)
  {
    var i: nat :| JustifiedBy(setup, run, item, s.loaded, i);
    PunishKeepsValid(SelectedAt(setup, run, i), s.loaded, s.errors, selected);
    JustifiedLonger(setup, run, a, item, s.loaded, Punish(s.loaded, s.errors, selected).0, i);
  }

  /** An answer just cached is justified by the evaluation that computed it. */
  lemma NewJustified(setup: Setup, run: seq<Action>, r: Request, now: int, throws: bool, s: State)
    requires s == Exec(setup, run) && DistinctNames(s.loaded)
    ensures var selected := Select(s.loaded, r.bundleNames);
      JustifiedBy(setup, run + [Evaluate(r, now, throws)],
                  Item(KeyOf(setup, r, selected), Answer(setup.num, r, selected, now).(cacheHit := false), now), s.loaded, |run|)
  {
    var run' := run + [Evaluate(r, now, throws)];
    assert run'[..|run|] == run;
    SelectedStillValid(s.loaded, r.bundleNames);
  }

  /** What an evaluation can leave in the cache and loaded. */
  lemma EvaluateLeaves(setup: Setup, s: State, r: Request, now: int, throws: bool, item: Item)
    requires item in DoEvaluate(setup, s, r, now, throws).state.items
    ensures var selected := Select(s.loaded, r.bundleNames); var s' := DoEvaluate(setup, s, r, now, throws).state;
      || (item in s.items && (s'.loaded == s.loaded || s'.loaded == Punish(s.loaded, s.errors, selected).0))
      || (&& item == Item(KeyOf(setup, r, selected), Answer(setup.num, r, selected, now).(cacheHit := false), now)
          && s'.loaded == s.loaded)
  {}

  lemma EvaluateJustifies(setup: Setup, run: seq<Action>, r: Request, now: int, throws: bool, item: Item)
    requires DistinctNames(Exec(setup, run).loaded) && AllJustified(setup, run, Exec(setup, run))
    requires item in DoEvaluate(setup, Exec(setup, run), r, now, throws).state.items
    ensures exists i: nat :: JustifiedBy(setup, run + [Evaluate(r, now, throws)], item,
                                         DoEvaluate(setup, Exec(setup, run), r, now, throws).state.loaded, i)
  {
    var s, a := Exec(setup, run), Evaluate(r, now, throws);
    EvaluateLeaves(setup, s, r, now, throws, item);
    if item in s.items {
      KeepJustifies(setup, run, a, s, item);
      PunishJustifies(setup, run, a, s, Select(s.loaded, r.bundleNames), item);
    } else {
      NewJustified(setup, run, r, now, throws, s);
    }
  }

  lemma StepJustifies(setup: Setup, run: seq<Action>, a: Action)
    requires DistinctNames(Exec(setup, run).loaded) && AllJustified(setup, run, Exec(setup, run))
    ensures AllJustified(setup, run + [a], Step(setup, Exec(setup, run), a))
  {
    var s := Exec(setup, run);
    var s' := Step(setup, s, a);
    forall item | item in s'.items
      ensures exists i: nat :: JustifiedBy(setup, run + [a], item, s'.loaded, i)
    {
      match a
      case Load(b, compiled) =>
        if compiled { LoadJustifies(setup, run, a, s, b, item); } else { KeepJustifies(setup, run, a, s, item); }
      case Reload(b, compiled) =>
        if compiled && !Current(s.loaded, b) { LoadJustifies(setup, run, a, s, b, item); } else { KeepJustifies(setup, run, a, s, item); }
      case Deprecate(name) =>
        UnloadJustifies(setup, run, a, s, {name}, item);
      case Evaluate(r, now, throws) =>
        EvaluateJustifies(setup, run, r, now, throws, item);
    }
  }

  /** In every reachable state every cached item is the answer of some evaluation of the run whose bundles are still valid. */
  lemma {:induction false} RunJustified(setup: Setup, run: seq<Action>)
    ensures DistinctNames(Exec(setup, run).loaded) && AllJustified(setup, run, Exec(setup, run))
  {
    if run != [] {
      var init, a := run[..|run| - 1], run[|run| - 1];
      assert run == init + [a];
      RunJustified(setup, init);
      StepBundles(setup, Exec(setup, init), a);
      StepJustifies(setup, init, a);
    }
  }

  /******* The theorem *******/

  /** One immutable envelope per envelope id, and no envelope is called `none`. */
  ghost predicate EnvelopeKnown(envelopes: string -> Envelope, r: Request) {
    r.envelope.Some? ==> r.envelope.value.id != "none" && r.envelope.value == envelopes(r.envelope.value.id)
  }

  ghost predicate CleanAction(envelopes: string -> Envelope, a: Action) {
    match a
    case Load(b, _) => CleanBundle(b)
    case Reload(b, _) => CleanBundle(b)
    case Deprecate(_) => true
    case Evaluate(r, _, _) => CleanRequest(r) && EnvelopeKnown(envelopes, r)
  }

  ghost predicate CleanRun(envelopes: string -> Envelope, run: seq<Action>) {
    forall a :: a in run ==> CleanAction(envelopes, a)
  }

  lemma {:induction false} LoadedClean(setup: Setup, envelopes: string -> Envelope, run: seq<Action>)
    requires CleanRun(envelopes, run)
    ensures CleanBundles(Exec(setup, run).loaded)
  {
    if run != [] {
      var init, a := run[..|run| - 1], run[|run| - 1];
      LoadedClean(setup, envelopes, init);
      RunJustified(setup, init);
      StepBundles(setup, Exec(setup, init), a);
      assert CleanAction(envelopes, a);
    }
  }

  lemma SelectClean(loaded: seq<Bundle>, wanted: seq<string>)
    requires CleanBundles(loaded)
    ensures CleanBundles(Select(loaded, wanted))
  {
    forall b | b in Select(loaded, wanted)
      ensures CleanBundle(b)
    {
      RestrictMembers(loaded, (set n | n in wanted), b);
    }
  }

  lemma EvaluationClean(setup: Setup, envelopes: string -> Envelope, run: seq<Action>, i: nat)
    requires CleanRun(envelopes, run) && i < |run| && run[i].Evaluate?
    ensures CleanRequest(run[i].request) && EnvelopeKnown(envelopes, run[i].request)
    ensures CleanBundles(SelectedAt(setup, run, i))
  {
    assert CleanAction(envelopes, run[i]);
    assert forall a :: a in run[..i] ==> a in run;
    LoadedClean(setup, envelopes, run[..i]);
    SelectClean(Exec(setup, run[..i]).loaded, run[i].request.bundleNames);
  }

  lemma SameNames(a: seq<Bundle>, b: seq<Bundle>)
    requires SameVersions(a, b) && SameVersions(b, a)
    ensures Names(a) == Names(b)
  {}

  /** Two clean requests with one preimage over bundles of one run get the same decision from the same bundles. */
  lemma SamePreimageSameAnswer(num: Numeric, envelopes: string -> Envelope, r: Request, used: seq<Bundle>, at: int,
                               r': Request, loaded: seq<Bundle>, now: int)
    requires CleanRequest(r) && CleanRequest(r') && EnvelopeKnown(envelopes, r) && EnvelopeKnown(envelopes, r')
    requires CleanBundles(used) && CleanBundles(loaded) && DistinctNames(loaded) && StillValid(used, loaded)
    requires Preimage(r, used) == Preimage(r', Select(loaded, r'.bundleNames))
    ensures used == Select(loaded, r'.bundleNames)
    ensures Answer(num, r, used, at).(evaluatedTs := now)
         == Answer(num, r', Select(loaded, r'.bundleNames), now).(evaluationId := r.evaluationId)
  {
    var selected := Select(loaded, r'.bundleNames);
    SelectClean(loaded, r'.bundleNames);
    PreimageDetermined(r, used, r', selected);
    SameNames(used, selected);
    ValidAndSameNames(used, loaded, r'.bundleNames);
    DecisionView(num, r, r', selected);
  }

  /** The two hashed texts differ and have one hash. */
  ghost predicate KeyCollision(H: string -> string, x: string, y: string) {
    x != y && H(x) == H(y)
  }

  /** The answer served from the cache on request `r`, if any. */
  function ServedFor(setup: Setup, run: seq<Action>, r: Request, now: int): Option<Response> {
    var s := Exec(setup, run);
    Served(setup.limits, s.items, KeyOf(setup, r, Select(s.loaded, r.bundleNames)), now)
  }

  /**
   The response is what a fresh evaluation over the bundles selected now gives, but for the evaluation id, which is that
   of the earlier evaluation `i` of the run; or the key texts of that evaluation and of this one collide.
   */
  ghost predicate ExplainedBy(setup: Setup, run: seq<Action>, r: Request, now: int, response: Response, i: nat) {
    && i < |run| && run[i].Evaluate?
    && var selected := Select(Exec(setup, run).loaded, r.bundleNames);
       || KeyCollision(setup.H, Preimage(run[i].request, SelectedAt(setup, run, i)), Preimage(r, selected))
       || response == Answer(setup.num, r, selected, now).(evaluationId := run[i].request.evaluationId, cacheHit := true)
  }

  lemma AnswerTime(num: Numeric, r: Request, bundles: seq<Bundle>, now: int, later: int)
    ensures Answer(num, r, bundles, now).(evaluatedTs := later) == Answer(num, r, bundles, later)
  {}

  lemma ItemJustified(setup: Setup, run: seq<Action>, item: Item) returns (i: nat)
    requires item in Exec(setup, run).items
    ensures JustifiedBy(setup, run, item, Exec(setup, run).loaded, i)
  {
    RunJustified(setup, run);
    i :| JustifiedBy(setup, run, item, Exec(setup, run).loaded, i);
  }

  /**
   Whatever the run and the request: an answer served from the cache is, but for its time, the answer that an earlier
   evaluation computed, from bundles that are still valid, under the same key text or one that collides with it.
   */
  lemma ServedWasComputed(setup: Setup, run: seq<Action>, r: Request, now: int) returns (i: nat)
    requires ServedFor(setup, run, r, now).Some?
    ensures i < |run| && run[i].Evaluate?
    ensures var s, r0, used := Exec(setup, run), run[i].request, SelectedAt(setup, run, i);
      var selected := Select(s.loaded, r.bundleNames);
      && ServedFor(setup, run, r, now) == Some(Answer(setup.num, r0, used, now).(cacheHit := true))
      && StillValid(used, s.loaded)
      && (Preimage(r0, used) == Preimage(r, selected)
          || KeyCollision(setup.H, Preimage(r0, used), Preimage(r, selected)))
  {
    var s := Exec(setup, run);
    var key := KeyOf(setup, r, Select(s.loaded, r.bundleNames));
    var item := Find(s.items, key).value;
    i := ItemJustified(setup, run, item);
    AnswerTime(setup.num, run[i].request, SelectedAt(setup, run, i), run[i].now, now);
  }

  /**
   Cache transparency: over every run whose texts are free of the key's delimiters, every answer served from the cache is
   explained by an earlier evaluation.
   */
  lemma CacheTransparent(setup: Setup, envelopes: string -> Envelope, run: seq<Action>, r: Request, now: int)
    requires CleanRun(envelopes, run) && CleanRequest(r) && EnvelopeKnown(envelopes, r)
    ensures var served := ServedFor(setup, run, r, now);
      served.Some? ==> exists i: nat :: ExplainedBy(setup, run, r, now, served.value, i)
  {
    var s, served := Exec(setup, run), ServedFor(setup, run, r, now);
    if served.Some? {
      var selected := Select(s.loaded, r.bundleNames);
      var i := ServedWasComputed(setup, run, r, now);
      RunJustified(setup, run);
      var r0, used := run[i].request, SelectedAt(setup, run, i);
      if Preimage(r0, used) == Preimage(r, selected) {
        EvaluationClean(setup, envelopes, run, i);
        LoadedClean(setup, envelopes, run);
        SamePreimageSameAnswer(setup.num, envelopes, r0, used, run[i].now, r, s.loaded, now);
      }
      assert ExplainedBy(setup, run, r, now, served.value, i);
    }
  }

  /** A complete request is answered from the cache exactly if something is served for it, and then with that. */
  lemma AnsweredFromCache(setup: Setup, run: seq<Action>, r: Request, now: int, throws: bool)
    requires Complete(r)
    ensures var response := DoEvaluate(setup, Exec(setup, run), r, now, throws).response;
      && response.Some?
      && (response.value.cacheHit <==> ServedFor(setup, run, r, now).Some?)
      && (response.value.cacheHit ==> response == ServedFor(setup, run, r, now))
  {}

  /******* The service object *******/

  lemma {:induction false} DropForLimits(items: seq<Item>, bundle: string)
    requires DistinctKeys(items)
    ensures DistinctKeys(DropFor(items, bundle)) && |DropFor(items, bundle)| <= |items|
  {
    if items != [] {
      DropForLimits(items[1..], bundle);
      var rest := DropFor(items[1..], bundle);
      forall i | 0 <= i < |rest|
        ensures rest[i].key != items[0].key
      {
        assert rest[i] in rest;
      }
    }
  }

  class OpaIntegrationService {
    const setup: Setup
    const cache: DecisionCache
    var loaded: seq<Bundle>
    var errors: map<string, nat>

    function Contents(): State
      reads this, cache
    {
      State(loaded, cache.items, errors)
    }

    /** The cache uses the service's limits, holds each key once and respects its capacity. */
    ghost predicate Valid()
      reads this, cache
    {
      cache.limits == setup.limits && DistinctKeys(cache.items) && |cache.items| <= setup.limits.maxEntries
    }

    constructor (setup: Setup)
      ensures this.setup == setup && fresh(cache) && Valid() && Contents() == INITIAL
    {
      this.setup, loaded, errors := setup, [], map[];
      cache := new DecisionCache(setup.limits);
    }

    method EvaluateRequest(r: Request, now: int, throws: bool) returns (response: Option<Response>)
      requires Valid()
      modifies this, cache
      ensures Valid()
      ensures Evaluated(Contents(), response) == DoEvaluate(setup, old(Contents()), r, now, throws)
    {
      if r.evaluationId == "" || r.agentId == "" || r.actionClass == "" || r.resource == "" || r.passportId == "" {
        return None;
      }
      var selected := Select(loaded, r.bundleNames);
      var key := setup.H(Preimage(r, selected));
      var deny := DenyResponse(r, now, [], NoPolicyCoversActionClass);
      CacheKeepsLimits(setup.limits, cache.items, key, deny, now);
      var cached := cache.Get(key, now);
      if cached.Some? {
        return cached;
      }
      if selected == [] {
        CacheKeepsLimits(setup.limits, cache.items, key, deny, now);
        cache.Set(key, deny, now);
        return Some(deny);
      }
      if throws {
        Fail(selected);
        return Some(DenyResponse(r, now, selected, EvaluationError));
      }
      var decision := EvaluateWithBundles(setup.num, r, selected);
      var answer := Response(r.evaluationId, decision.effect, ReasonFor(decision), decision.matched, decision.fired,
                            NameList(selected), Versions(selected), now, false, decision.reason);
      CacheKeepsLimits(setup.limits, cache.items, key, answer, now);
      cache.Set(key, answer, now);
      ghost var before := errors;
      for i := 0 to |selected|
        invariant Reset(before, selected) == Reset(errors, selected[i..])
        invariant Valid() && loaded == old(loaded)
        invariant cache.items == AfterSet(setup.limits, AfterGet(setup.limits, old(cache.items), key, now), key, answer, now)
      {
        assert selected[i..][1..] == selected[i + 1..];
        errors := errors[selected[i].name := 0];
      }
      response := Some(answer);
    }

    /** The error path: count, and unload what has failed ten times in a row. */
    method Fail(selected: seq<Bundle>)
      modifies this
      ensures (loaded, errors) == Punish(old(loaded), old(errors), selected)
    {
      for i := 0 to |selected|
        invariant Punish(old(loaded), old(errors), selected) == Punish(loaded, errors, selected[i..])
      {
        assert selected[i..][1..] == selected[i + 1..];
        var name := selected[i].name;
        var count := Counted(errors, name);
        errors := errors[name := count];
        if count >= ERROR_LIMIT {
          loaded := Unload(loaded, {name});
        }
      }
    }

    method LoadBundle(b: Bundle, compiled: bool)
      requires Valid()
      modifies this, cache
      ensures Valid() && Contents() == Step(setup, old(Contents()), Load(b, compiled))
    {
      if compiled {
        DropForLimits(cache.items, b.name);
        loaded := Put(loaded, b);
        cache.InvalidateForBundle(b.name);
      }
    }

    method ReloadBundle(b: Bundle, compiled: bool) returns (reloaded: bool)
      requires Valid()
      modifies this, cache
      ensures Valid() && Contents() == Step(setup, old(Contents()), Reload(b, compiled))
      ensures reloaded == !Current(old(loaded), b)
    {
      if Current(loaded, b) {
        return false;
      }
      LoadBundle(b, compiled);
      reloaded := true;
    }

    method HandleDeprecated(name: string)
      requires Valid()
      modifies this, cache
      ensures Valid() && Contents() == Step(setup, old(Contents()), Deprecate(name))
    {
      DropForLimits(cache.items, name);
      loaded := Unload(loaded, {name});
      cache.InvalidateForBundle(name);
    }
  }
}
