/**
 `write_entry` as one call of the service object (`LedgerService.WriteCall`) against `write_entry` as steps of the
 protocol (`LedgerProtocol.Step`). In every run, whatever the interleaving, a call that has finished ended as `WriteCall`
 says for what others did between its own steps.
 */
module LedgerRefinement {
  import opened Wrappers
  import opened LedgerCrypto
  import opened LedgerRepository
  import opened LedgerProtocol
  import opened LedgerService

  /******* A call's own steps and what lands between them *******/

  /** The step is one of call `c`. */
  predicate Mine(c: nat, a: Action) {
    (a.Begin? || a.LookUp? || a.ReadTip? || a.Commit? || a.Halt?) && a.call == c
  }

  /** What the step does to the repository. */
  function Effect(h: Scheme, s: System, a: Action): seq<Foreign>
    requires Enabled(s, a)
  {
    match a
    case Commit(_, _, id, outboxId, _) => [Foreign(CommitInput(h, s, a), id, outboxId)]
    case MarkSent => [Delivery(s.sent.value.id)]
    case _ => []
  }

  /** What has landed since the call's last own step. */
  function Since(h: Scheme, maxContent: nat, run: seq<Action>, c: nat): seq<Foreign> {
    if run == [] || Mine(c, run[|run| - 1]) then []
    else
      var init, a := run[..|run| - 1], run[|run| - 1];
      var before := Exec(h, maxContent, init);
      Since(h, maxContent, init, c) + if before.Some? && Enabled(before.value, a) then Effect(h, before.value, a) else []
  }

  datatype OwnStep = OwnStep(foreign: seq<Foreign>, action: Action)

  /** The call's own steps, each with what landed between it and the one before. */
  function OwnSteps(h: Scheme, maxContent: nat, run: seq<Action>, c: nat): seq<OwnStep> {
    if run == [] then []
    else
      var init, a := run[..|run| - 1], run[|run| - 1];
      OwnSteps(h, maxContent, init, c) + if Mine(c, a) then [OwnStep(Since(h, maxContent, init, c), a)] else []
  }

  /** The state in which the call began. */
  function Entered(h: Scheme, maxContent: nat, run: seq<Action>, c: nat): System
    requires Exec(h, maxContent, run).Some?
  {
    if run == [] then INITIAL
    else if run[|run| - 1].Begin? && run[|run| - 1].call == c then Exec(h, maxContent, run[..|run| - 1]).value
    else Entered(h, maxContent, run[..|run| - 1], c)
  }

  /** Own step 1 is the key lookup, steps 2 + 2k and 3 + 2k the tip read and the append of attempt k, step 12 the halt. */
  function AttemptOf(steps: seq<OwnStep>, k: nat): Attempt {
    if 3 + 2 * k < |steps| && steps[3 + 2 * k].action.Commit?
    then
      var a := steps[3 + 2 * k].action;
      Attempt(steps[2 + 2 * k].foreign, steps[3 + 2 * k].foreign, a.timestamp, a.id, a.outboxId, a.payload)
    else Attempt(if 2 + 2 * k < |steps| then steps[2 + 2 * k].foreign else [], [], 0, 0, 0, [])
  }

  function SurroundingsOf(steps: seq<OwnStep>): (w: Surroundings)
    ensures |w.attempts| == MAX_ATTEMPTS
  {
    Surroundings(if |steps| > 1 then steps[1].foreign else [],
                 seq(MAX_ATTEMPTS, k requires 0 <= k < MAX_ATTEMPTS => AttemptOf(steps, k)),
                 if |steps| > 12 then steps[12].foreign else [])
  }

  /******* Steps of others *******/

  lemma OthersLand(h: Scheme, maxContent: nat, s: System, a: Action, c: nat)
    requires Enabled(s, a) && !Mine(c, a) && c in s.calls
    ensures var s' := Step(h, maxContent, s, a);
      c in s'.calls && s'.calls[c] == s.calls[c] && s'.store == Disturbed(s.store, Effect(h, s, a)) && s.halted <= s'.halted
  {
    var e := Effect(h, s, a);
    assert |e| == 1 ==> e[..0] == [];
  }

  lemma {:induction false} DisturbedConcat(s: Store, a: seq<Foreign>, b: seq<Foreign>)
    ensures Disturbed(s, a + b) == Disturbed(Disturbed(s, a), b)
  {
    if b == [] {
      assert a + b == a;
    } else {
      assert (a + b)[..|a + b| - 1] == a + b[..|b| - 1];
      DisturbedConcat(s, a, b[..|b| - 1]);
    }
  }

  /******* Where a call stands *******/

  /** Where the call stands after `n` own steps, the last of which left `base`, and how it will end. */
  ghost predicate Stands(h: Scheme, maxContent: nat, entered: System, r: Request, w: Surroundings, n: nat, phase: Phase,
                         base: Store, halted: set<Text>)
    requires |w.attempts| == MAX_ATTEMPTS
  {
    var result := WriteCall(h, maxContent, entered.store, entered.halted, r, w);
    match phase
    case Admitted => n == 1 && Valid(maxContent, r) && r.entryType !in entered.halted && base == entered.store
    case Seeking(k) => n == 2 + 2 * k && k < MAX_ATTEMPTS && result == Retry(h, base, r, w, k)
    case Holding(k, tip) =>
      n == 3 + 2 * k && k < MAX_ATTEMPTS && tip == CurrentTip(h, base, r.entryType) && result == Held(h, base, r, w, k)
    case Halting => n == 12 && result == CallResult(Disturbed(base, w.late), Failure(Internal), true)
    case Finished(outcome) => result.outcome == outcome && result.store == base && (result.halts ==> r.entryType in halted)
  }

  /** The attempt is what the append of this step brings and meets. */
  predicate Brings(m: Attempt, step: OwnStep)
    requires step.action.Commit?
  {
    var a := step.action;
    && m.foreign == step.foreign
    && m.timestamp == a.timestamp && m.id == a.id && m.outboxId == a.outboxId && m.payload == a.payload
  }

  /** The surroundings agree with the own step taken after `n` others. */
  ghost predicate Agrees(w: Surroundings, n: nat, step: OwnStep)
    requires |w.attempts| == MAX_ATTEMPTS
  {
    && (n == 1 ==> w.early == step.foreign)
    && (n == 12 ==> w.late == step.foreign)
    && (forall k :: 0 <= k < MAX_ATTEMPTS && n == 2 + 2 * k ==> w.attempts[k].before == step.foreign)
    && (forall k :: 0 <= k < MAX_ATTEMPTS && n == 3 + 2 * k && step.action.Commit? ==> Brings(w.attempts[k], step))
  }

  lemma StepsAgree(steps: seq<OwnStep>, n: nat)
    requires n < |steps|
    ensures Agrees(SurroundingsOf(steps), n, steps[n])
  {
    var w := SurroundingsOf(steps);
    assert forall k :: 0 <= k < MAX_ATTEMPTS ==> w.attempts[k] == AttemptOf(steps, k);
  }

  lemma LookUpStands(h: Scheme, maxContent: nat, entered: System, r: Request, w: Surroundings, n: nat, s: System, c: nat, base: Store)
    requires |w.attempts| == MAX_ATTEMPTS && c in s.calls && s.calls[c] == Call(r, Admitted)
    requires Stands(h, maxContent, entered, r, w, n, Admitted, base, s.halted) && s.store == Disturbed(base, w.early)
    ensures Stands(h, maxContent, entered, r, w, n + 1, DoLookUp(s, c).calls[c].phase, s.store, s.halted)
  {}

  lemma ReadStands(h: Scheme, maxContent: nat, entered: System, r: Request, w: Surroundings, n: nat, s: Store, k: nat, base: Store,
                   halted: set<Text>)
    requires |w.attempts| == MAX_ATTEMPTS && Stands(h, maxContent, entered, r, w, n, Seeking(k), base, halted)
    requires s == Disturbed(base, w.attempts[k].before)
    ensures Stands(h, maxContent, entered, r, w, n + 1, Holding(k, CurrentTip(h, s, r.entryType)), s, halted)
  {}

  lemma CommitStands(h: Scheme, maxContent: nat, entered: System, r: Request, w: Surroundings, n: nat, s: System, a: Action, base: Store)
    requires |w.attempts| == MAX_ATTEMPTS && a.Commit? && InPhase(s, a.call, true) && s.calls[a.call].request == r
    requires Stands(h, maxContent, entered, r, w, n, s.calls[a.call].phase, base, s.halted)
    requires var m := w.attempts[s.calls[a.call].phase.attempt];
      s.store == Disturbed(base, m.foreign) && Brings(m, OwnStep(m.foreign, a))
    ensures var s' := DoCommit(h, s, a);
      Stands(h, maxContent, entered, r, w, n + 1, s'.calls[a.call].phase, s'.store, s'.halted)
  {}

  lemma HaltStands(h: Scheme, maxContent: nat, entered: System, r: Request, w: Surroundings, n: nat, base: Store, halted: set<Text>)
    requires |w.attempts| == MAX_ATTEMPTS && Stands(h, maxContent, entered, r, w, n, Halting, base, halted)
    ensures Stands(h, maxContent, entered, r, w, n + 1, Finished(Failure(Internal)), Disturbed(base, w.late), halted + {r.entryType})
  {}

  lemma BeginStands(h: Scheme, maxContent: nat, s: System, a: Action, w: Surroundings)
    requires |w.attempts| == MAX_ATTEMPTS && a.Begin?
    ensures var s' := DoBegin(maxContent, s, a.call, a.request);
      Stands(h, maxContent, s, a.request, w, 1, s'.calls[a.call].phase, s'.store, s'.halted)
  {}

  /** The phase in which the call takes the step. */
  lemma OwnPhase(s: System, a: Action, c: nat)
    requires Enabled(s, a) && Mine(c, a) && c in s.calls
    ensures match s.calls[c].phase
            case Admitted => a.LookUp?
            case Seeking(_) => a.ReadTip?
            case Holding(_, _) => a.Commit?
            case Halting => a.Halt?
            case Finished(_) => false
  {}

  /** The call's own step takes it to where it then stands. */
  lemma OwnStands(h: Scheme, maxContent: nat, entered: System, r: Request, w: Surroundings, n: nat, s: System, a: Action,
                  c: nat, base: Store, foreign: seq<Foreign>)
    requires |w.attempts| == MAX_ATTEMPTS && Enabled(s, a) && Mine(c, a) && c in s.calls && s.calls[c].request == r
    requires Stands(h, maxContent, entered, r, w, n, s.calls[c].phase, base, s.halted)
    requires s.store == Disturbed(base, foreign) && Agrees(w, n, OwnStep(foreign, a))
    ensures var s' := Step(h, maxContent, s, a);
      Stands(h, maxContent, entered, r, w, n + 1, s'.calls[c].phase, s'.store, s'.halted)
  {
    OwnPhase(s, a, c);
    match s.calls[c].phase
    case Admitted => LookUpStands(h, maxContent, entered, r, w, n, s, c, base);
    case Seeking(k) => ReadStands(h, maxContent, entered, r, w, n, s.store, k, base, s.halted);
    case Holding(k, _) =>
      assert Brings(w.attempts[k], OwnStep(foreign, a));
      CommitStands(h, maxContent, entered, r, w, n, s, a, base);
    case Halting => HaltStands(h, maxContent, entered, r, w, n, base, s.halted);
  }

  /******* Every run *******/

  /** Somewhere along the run the call stood as it should, and only others have acted since. */
  ghost predicate Follows(h: Scheme, maxContent: nat, run: seq<Action>, c: nat, w: Surroundings, base: Store)
    requires |w.attempts| == MAX_ATTEMPTS
  {
    && Exec(h, maxContent, run).Some?
    && c in Exec(h, maxContent, run).value.calls
    && var s := Exec(h, maxContent, run).value;
       && s.store == Disturbed(base, Since(h, maxContent, run, c))
       && Stands(h, maxContent, Entered(h, maxContent, run, c), s.calls[c].request, w, |OwnSteps(h, maxContent, run, c)|,
                 s.calls[c].phase, base, s.halted)
  }

  /** Before it begins, a call has taken no step. */
  lemma {:induction false} NoStepsBefore(h: Scheme, maxContent: nat, run: seq<Action>, c: nat)
    requires Exec(h, maxContent, run).Some? && c !in Exec(h, maxContent, run).value.calls
    ensures OwnSteps(h, maxContent, run, c) == []
  {
    if run != [] {
      var s, a := Exec(h, maxContent, run[..|run| - 1]).value, run[|run| - 1];
      CallsStay(h, maxContent, s, a, c);
      NoStepsBefore(h, maxContent, run[..|run| - 1], c);
    }
  }

  lemma CallsStay(h: Scheme, maxContent: nat, s: System, a: Action, c: nat)
    requires Enabled(s, a)
    ensures c in Step(h, maxContent, s, a).calls <==> c in s.calls || (Mine(c, a) && a.Begin?)
  {}

  lemma FollowsOthers(h: Scheme, maxContent: nat, init: seq<Action>, a: Action, c: nat, w: Surroundings, base: Store)
    requires |w.attempts| == MAX_ATTEMPTS && Follows(h, maxContent, init, c, w, base) && !Mine(c, a)
    requires Enabled(Exec(h, maxContent, init).value, a)
    ensures Follows(h, maxContent, init + [a], c, w, base)
  {
    var s := Exec(h, maxContent, init).value;
    assert (init + [a])[..|init + [a]| - 1] == init;
    OthersLand(h, maxContent, s, a, c);
    DisturbedConcat(base, Since(h, maxContent, init, c), Effect(h, s, a));
  }

  lemma FollowsOwn(h: Scheme, maxContent: nat, init: seq<Action>, a: Action, c: nat, w: Surroundings, base: Store)
    returns (base': Store)
    requires |w.attempts| == MAX_ATTEMPTS && Follows(h, maxContent, init, c, w, base) && Mine(c, a)
    requires Enabled(Exec(h, maxContent, init).value, a)
    requires Agrees(w, |OwnSteps(h, maxContent, init, c)|, OwnStep(Since(h, maxContent, init, c), a))
    ensures Follows(h, maxContent, init + [a], c, w, base')
  {
    var s := Exec(h, maxContent, init).value;
    assert (init + [a])[..|init + [a]| - 1] == init;
    OwnStands(h, maxContent, Entered(h, maxContent, init, c), s.calls[c].request, w, |OwnSteps(h, maxContent, init, c)|, s, a,
              c, base, Since(h, maxContent, init, c));
    base' := Step(h, maxContent, s, a).store;
  }

  lemma FollowsBegin(h: Scheme, maxContent: nat, init: seq<Action>, a: Action, w: Surroundings) returns (base': Store)
    requires |w.attempts| == MAX_ATTEMPTS && Exec(h, maxContent, init).Some? && a.Begin?
    requires Enabled(Exec(h, maxContent, init).value, a)
    ensures Follows(h, maxContent, init + [a], a.call, w, base')
  {
    var s := Exec(h, maxContent, init).value;
    assert (init + [a])[..|init + [a]| - 1] == init;
    NoStepsBefore(h, maxContent, init, a.call);
    BeginStands(h, maxContent, s, a, w);
    base' := Step(h, maxContent, s, a).store;
  }

  /** Along every run, every call that has begun stands where its own steps have brought it. */
  lemma {:induction false} RunFollows(h: Scheme, maxContent: nat, run: seq<Action>, c: nat, steps: seq<OwnStep>) returns (base: Store)
    requires Exec(h, maxContent, run).Some? && c in Exec(h, maxContent, run).value.calls
    requires OwnSteps(h, maxContent, run, c) <= steps
    ensures Follows(h, maxContent, run, c, SurroundingsOf(steps), base)
  {
    var init, a, w := run[..|run| - 1], run[|run| - 1], SurroundingsOf(steps);
    assert run == init + [a];
    CallsStay(h, maxContent, Exec(h, maxContent, init).value, a, c);
    if c !in Exec(h, maxContent, init).value.calls {
      base := FollowsBegin(h, maxContent, init, a, w);
    } else {
      base := RunFollows(h, maxContent, init, c, steps);
      if Mine(c, a) {
        var n := |OwnSteps(h, maxContent, init, c)|;
        assert OwnSteps(h, maxContent, run, c)[n] == steps[n];
        StepsAgree(steps, n);
        base := FollowsOwn(h, maxContent, init, a, c, w, base);
      } else {
        FollowsOthers(h, maxContent, init, a, c, w, base);
      }
    }
  }

  /**
   In every run, every call that has finished ended with the outcome that `WriteCall` gives for the state it began in and
   for what others did between its steps; and the store is what that call left, with what others did since.
   */
  lemma RunIsCall(h: Scheme, maxContent: nat, run: seq<Action>, c: nat)
    requires Exec(h, maxContent, run).Some? && c in Exec(h, maxContent, run).value.calls
    requires Exec(h, maxContent, run).value.calls[c].phase.Finished?
    ensures var s, entered := Exec(h, maxContent, run).value, Entered(h, maxContent, run, c);
      var w := SurroundingsOf(OwnSteps(h, maxContent, run, c));
      var result := WriteCall(h, maxContent, entered.store, entered.halted, s.calls[c].request, w);
      && s.calls[c].phase == Finished(result.outcome)
      && s.store == Disturbed(result.store, Since(h, maxContent, run, c))
      && (result.halts ==> s.calls[c].request.entryType in s.halted)
  {
    var base := RunFollows(h, maxContent, run, c, OwnSteps(h, maxContent, run, c));
  }
}
