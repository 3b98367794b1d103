/**
 The circuit breaker around passport fetches (s1/scope-evaluator-runtime/src/service.rs, `get_or_fetch_passport`).

 Checking the breaker, calling the passport service and updating the breaker are separate critical sections, so the
 fetches of different callers interleave. A run is the list of the steps taken; what the cache and the passport
 service answer is part of the steps.
 */
module CircuitBreaker {
  import opened Wrappers

  datatype FetchError = NotFound | Unavailable

  datatype Phase =
    | Missed                                              // not cached, about to check the breaker
    | InFlight                                            // the client call has started
    | Finished(error: Option<FetchError>)

  datatype Breaker = Breaker(failures: nat, open: bool, fetches: map<nat, Phase>)

  const INITIAL := Breaker(0, false, map[])

  datatype Action =
    | Start(fetch: nat, cached: bool)
    | Check(fetch: nat)
    | Return(fetch: nat, error: Option<FetchError>)

  predicate Enabled(s: Breaker, a: Action) {
    match a
    case Start(f, _) => f !in s.fetches
    case Check(f) => f in s.fetches && s.fetches[f].Missed?
    case Return(f, _) => f in s.fetches && s.fetches[f].InFlight?
  }

  function Step(threshold: nat, s: Breaker, a: Action): Breaker
    requires Enabled(s, a)
  {
    match a
    case Start(f, cached) => s.(fetches := s.fetches[f := if cached then Finished(None) else Missed])
    case Check(f) => s.(fetches := s.fetches[f := if s.open then Finished(Some(Unavailable)) else InFlight])
    case Return(f, error) =>
      var (failures, open) := Update(threshold, s.failures, s.open, error.Some?);
      Breaker(failures, open, s.fetches[f := Finished(error)])
  }

  /** The breaker after a client call: a success resets it, a failure may open it. */
  function Update(threshold: nat, failures: nat, open: bool, failed: bool): (nat, bool) {
    if failed then (failures + 1, open || failures + 1 >= threshold) else (0, false)
  }

  function Exec(threshold: nat, run: seq<Action>): Option<Breaker> {
    if run == [] then Some(INITIAL)
    else
      var before := Exec(threshold, run[..|run| - 1]);
      if before.Some? && Enabled(before.value, run[|run| - 1])
      then Some(Step(threshold, before.value, run[|run| - 1]))
      else None
  }

  /** The fetches whose client call has started and not yet returned. */
  function Flying(s: Breaker): set<nat> {
    set f | f in s.fetches && s.fetches[f].InFlight?
  }

  /** The breaker is open exactly if the consecutive failures have reached the threshold. */
  lemma {:induction false} OpenIffThreshold(threshold: nat, run: seq<Action>)
    requires threshold >= 1 && Exec(threshold, run).Some?
    ensures Exec(threshold, run).value.open <==> Exec(threshold, run).value.failures >= threshold
  {
    if run != [] {
      OpenIffThreshold(threshold, run[..|run| - 1]);
    }
  }

  /** `failures` counts the failed returns since the last successful one. */
  function FailedReturns(run: seq<Action>): nat {
    if run == [] || run[|run| - 1] == Return(run[|run| - 1].fetch, None) then 0
    else FailedReturns(run[..|run| - 1]) + if run[|run| - 1].Return? then 1 else 0
  }

  lemma {:induction false} FailuresCounted(threshold: nat, run: seq<Action>)
    requires Exec(threshold, run).Some?
    ensures Exec(threshold, run).value.failures == FailedReturns(run)
  {
    if run != [] {
      FailuresCounted(threshold, run[..|run| - 1]);
    }
  }

  /** While the breaker is open no step starts a client call. */
  lemma NoCallWhileOpen(threshold: nat, s: Breaker, a: Action)
    requires Enabled(s, a) && s.open
    ensures Flying(Step(threshold, s, a)) <= Flying(s)
    ensures a.Return? ==> Flying(Step(threshold, s, a)) == Flying(s) - {a.fetch}
  {}

  /** From `run` on, the breaker stays open through every step of `more`. */
  ghost predicate OpenThroughout(threshold: nat, run: seq<Action>, more: seq<Action>) {
    forall i :: 0 <= i <= |more| ==> Exec(threshold, run + more[..i]).Some? && Exec(threshold, run + more[..i]).value.open
  }

  /** As long as the breaker stays open, every call in flight was already in flight before. */
  lemma {:induction false} OpenOnlyDrains(threshold: nat, run: seq<Action>, more: seq<Action>)
    requires OpenThroughout(threshold, run, more)
    ensures Exec(threshold, run).Some? && Exec(threshold, run + more).Some?
    ensures Flying(Exec(threshold, run + more).value) <= Flying(Exec(threshold, run).value)
  {
    assert run + more[..0] == run && more[..|more|] == more;
    if more != [] {
      var init, all := more[..|more| - 1], run + more;
      assert all[..|all| - 1] == run + init;
      assert OpenThroughout(threshold, run, init) by {
        forall i | 0 <= i <= |init|
          ensures Exec(threshold, run + init[..i]).Some? && Exec(threshold, run + init[..i]).value.open
        {
          assert init[..i] == more[..i];
        }
      }
      OpenOnlyDrains(threshold, run, init);
      NoCallWhileOpen(threshold, Exec(threshold, run + init).value, all[|all| - 1]);
    }
  }

  /** A step that closes the breaker is the successful return of a call in flight when it was last seen to open. */
  lemma OnlyFlyingCanClose(threshold: nat, run: seq<Action>, more: seq<Action>, a: Action)
    requires OpenThroughout(threshold, run, more)
    requires Exec(threshold, run + more).Some? && Enabled(Exec(threshold, run + more).value, a)
    requires !Step(threshold, Exec(threshold, run + more).value, a).open
    ensures Exec(threshold, run).Some?
    ensures a.Return? && a.error == None && a.fetch in Flying(Exec(threshold, run).value)
  {
    OpenOnlyDrains(threshold, run, more);
    assert run + more[..|more|] == run + more;
    assert a.fetch in Flying(Exec(threshold, run + more).value);
  }

  /** Once open with no call in flight, the breaker stays open, and idle, for ever. */
  lemma {:induction false} OpenForever(threshold: nat, run: seq<Action>, more: seq<Action>)
    requires Exec(threshold, run).Some? && Exec(threshold, run).value.open && Flying(Exec(threshold, run).value) == {}
    requires Exec(threshold, run + more).Some?
    ensures Exec(threshold, run + more).value.open && Flying(Exec(threshold, run + more).value) == {}
  {
    if more == [] {
      assert run + more == run;
    } else {
      var init, all := more[..|more| - 1], run + more;
      assert all[..|all| - 1] == run + init;
      OpenForever(threshold, run, init);
      var s, a := Exec(threshold, run + init).value, all[|all| - 1];
      NoCallWhileOpen(threshold, s, a);
      assert a.Return? ==> a.fetch in Flying(s);
    }
  }

  ghost predicate OpenAgrees(threshold: nat, run: seq<Action>) {
    Exec(threshold, run).Some? ==>
      (Exec(threshold, run).value.open <==> Exec(threshold, run).value.failures >= threshold)
  }

  /** That the flag and the count agree in every run takes a threshold of at least one, and no more. */
  lemma AgreesExactlyWhen(threshold: nat)
    ensures (forall run :: OpenAgrees(threshold, run)) <==> threshold >= 1
  {
    if threshold >= 1 {
      forall run
        ensures OpenAgrees(threshold, run)
      {
        if Exec(threshold, run).Some? {
          OpenIffThreshold(threshold, run);
        }
      }
    } else {
      assert !OpenAgrees(threshold, []);
    }
  }
}
