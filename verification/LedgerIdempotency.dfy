/**
 Idempotency keys under overlapping calls (s0/immutable-ledger/src/service/mod.rs, the lookup before the retry loop, and
 s0/immutable-ledger/src/repository/mod.rs, the append): a key is looked up once and not again at the append, so one type
 and key can get several entries. Exactly when it does is read off the run.
 */
module LedgerIdempotency {
  import opened Wrappers
  import opened LedgerCrypto
  import opened LedgerRepository
  import opened LedgerProtocol
  import opened LedgerContention

  /******* Counting *******/

  /** How many entries of the chain carry the key. */
  function KeyCount(chain: seq<Entry>, key: Text): nat {
    if chain == [] then 0
    else KeyCount(chain[..|chain| - 1], key) + if chain[|chain| - 1].idempotencyKey == Some(key) then 1 else 0
  }

  lemma {:induction false} ScanMissesIffNone(chain: seq<Entry>, key: Text)
    ensures ScanForKey(chain, key).None? <==> KeyCount(chain, key) == 0
  {
    if chain != [] {
      ScanMissesIffNone(chain[..|chain| - 1], key);
    }
  }

  /** The step appends an entry of this type under this key. */
  predicate AppendsUnder(h: Scheme, s: System, a: Action, t: Text, key: Text) {
    CommitsTo(h, s, a, t) && s.calls[a.call].request.idempotencyKey == Some(key)
  }

  lemma CountAppend(chain: seq<Entry>, e: Entry, key: Text)
    ensures KeyCount(chain + [e], key) == KeyCount(chain, key) + if e.idempotencyKey == Some(key) then 1 else 0
  {
    assert (chain + [e])[..|chain + [e]| - 1] == chain;
  }

  lemma StepChain(h: Scheme, maxContent: nat, s: System, a: Action, t: Text)
    requires Indexed(s.store) && Enabled(s, a)
    ensures var s' := Step(h, maxContent, s, a);
      Chain(s'.store, t) == if CommitsTo(h, s, a, t) then Chain(s.store, t) + [NewEntry(s.store, CommitInput(h, s, a), a.id)]
                            else Chain(s.store, t)
  {
    if a.Commit? && Accepts(s.store, CommitInput(h, s, a)) {
      AppendChains(s.store, CommitInput(h, s, a), a.id, a.outboxId, t);
    }
  }

  lemma StepCounts(h: Scheme, maxContent: nat, s: System, a: Action, t: Text, key: Text)
    requires Indexed(s.store) && Enabled(s, a)
    ensures KeyCount(Chain(Step(h, maxContent, s, a).store, t), key)
         == KeyCount(Chain(s.store, t), key) + if AppendsUnder(h, s, a, t, key) then 1 else 0
  {
    StepChain(h, maxContent, s, a, t);
    if CommitsTo(h, s, a, t) {
      CountAppend(Chain(s.store, t), NewEntry(s.store, CommitInput(h, s, a), a.id), key);
    }
  }

  lemma {:induction false} PrefixRuns(h: Scheme, maxContent: nat, run: seq<Action>, n: nat)
    requires Exec(h, maxContent, run).Some? && n <= |run|
    ensures Exec(h, maxContent, run[..n]).Some?
  {
    if n == |run| {
      assert run[..n] == run;
    } else {
      PrefixRuns(h, maxContent, run[..|run| - 1], n);
      assert run[..|run| - 1][..n] == run[..n];
    }
  }

  /** Step `m` of the run appends under the type and key. */
  ghost predicate CommitAt(h: Scheme, maxContent: nat, run: seq<Action>, m: nat, t: Text, key: Text) {
    m < |run| && Exec(h, maxContent, run[..m]).Some? && AppendsUnder(h, Exec(h, maxContent, run[..m]).value, run[m], t, key)
  }

  /** The appends under the type and key among the first `n` steps. */
  ghost function Commits(h: Scheme, maxContent: nat, run: seq<Action>, n: nat, t: Text, key: Text): nat {
    if n == 0 then 0
    else Commits(h, maxContent, run, n - 1, t, key) + if CommitAt(h, maxContent, run, n - 1, t, key) then 1 else 0
  }

  /** The entries with the type and key are those appends. */
  lemma {:induction false} CommitsAreEntries(h: Scheme, maxContent: nat, run: seq<Action>, n: nat, t: Text, key: Text)
    requires Exec(h, maxContent, run).Some? && n <= |run|
    ensures Exec(h, maxContent, run[..n]).Some?
    ensures KeyCount(Chain(Exec(h, maxContent, run[..n]).value.store, t), key) == Commits(h, maxContent, run, n, t, key)
  {
    PrefixRuns(h, maxContent, run, n);
    if n > 0 {
      CommitsAreEntries(h, maxContent, run, n - 1, t, key);
      assert run[..n][..n - 1] == run[..n - 1];
      RunIndexed(h, maxContent, run[..n - 1]);
      StepCounts(h, maxContent, Exec(h, maxContent, run[..n - 1]).value, run[n - 1], t, key);
    }
  }

  lemma {:induction false} CommitsGrow(h: Scheme, maxContent: nat, run: seq<Action>, n: nat, m: nat, t: Text, key: Text)
    requires n <= m
    ensures Commits(h, maxContent, run, n, t, key) <= Commits(h, maxContent, run, m, t, key)
    decreases m
  {
    if n < m {
      CommitsGrow(h, maxContent, run, n, m - 1, t, key);
    }
  }

  /** Where the count has grown, some step in between appended. */
  lemma {:induction false} SomeCommit(h: Scheme, maxContent: nat, run: seq<Action>, n: nat, m: nat, t: Text, key: Text) returns (k: nat)
    requires n <= m && Commits(h, maxContent, run, n, t, key) < Commits(h, maxContent, run, m, t, key)
    ensures n <= k < m && CommitAt(h, maxContent, run, k, t, key)
    decreases m
  {
    k := m - 1;
    if !CommitAt(h, maxContent, run, k, t, key) {
      k := SomeCommit(h, maxContent, run, n, m - 1, t, key);
    }
  }

  /******* The lookup *******/

  /** The call got past its lookup without finding an entry. */
  predicate PastLookUp(phase: Phase) {
    phase.Seeking? || phase.Holding? || phase.Halting?
  }

  lemma LookUpMisses(s: System, c: nat, key: Text)
    requires IdempotencyAgrees(s.store) && c in s.calls && s.calls[c].request.idempotencyKey == Some(key)
    requires PastLookUp(DoLookUp(s, c).calls[c].phase)
    ensures KeyCount(Chain(s.store, s.calls[c].request.entryType), key) == 0
  {
    ScanMissesIffNone(Chain(s.store, s.calls[c].request.entryType), key);
    assert FindIdempotent(s.store, s.calls[c].request.entryType, key) == ScanForKey(Chain(s.store, s.calls[c].request.entryType), key);
  }

  /** Nothing but its lookup gets a call past its lookup, and a request never changes. */
  lemma OnlyLookUp(h: Scheme, maxContent: nat, s: System, a: Action, c: nat)
    requires Enabled(s, a) && c in Step(h, maxContent, s, a).calls && PastLookUp(Step(h, maxContent, s, a).calls[c].phase)
    ensures c in s.calls && Step(h, maxContent, s, a).calls[c].request == s.calls[c].request
    ensures PastLookUp(s.calls[c].phase) || a == LookUp(c)
  {}

  /** Step `i` is the call's lookup, made before any entry of its type carried its key. */
  ghost predicate MissedAt(h: Scheme, maxContent: nat, run: seq<Action>, i: nat, c: nat, t: Text, key: Text) {
    && i < |run| && run[i] == LookUp(c) && Exec(h, maxContent, run[..i]).Some?
    && KeyCount(Chain(Exec(h, maxContent, run[..i]).value.store, t), key) == 0
  }

  lemma {:induction false} RunMissed(h: Scheme, maxContent: nat, run: seq<Action>, c: nat, t: Text, key: Text) returns (i: nat)
    requires Exec(h, maxContent, run).Some? && c in Exec(h, maxContent, run).value.calls
    requires var call := Exec(h, maxContent, run).value.calls[c];
      PastLookUp(call.phase) && call.request.entryType == t && call.request.idempotencyKey == Some(key)
    ensures MissedAt(h, maxContent, run, i, c, t, key)
  {
    var init, a := run[..|run| - 1], run[|run| - 1];
    var s := Exec(h, maxContent, init).value;
    OnlyLookUp(h, maxContent, s, a, c);
    if PastLookUp(s.calls[c].phase) {
      i := RunMissed(h, maxContent, init, c, t, key);
      assert init[..i] == run[..i];
    } else {
      i := |init|;
      RunSafe(h, maxContent, init);
      LookUpMisses(s, c, key);
    }
  }

  /******* Exactly when a key repeats *******/

  /** Between the lookup at `i` and the append at `j` of one call another append under the same type and key happens, at `m`. */
  ghost predicate OverlapAt(h: Scheme, maxContent: nat, run: seq<Action>, i: nat, m: nat, j: nat, t: Text, key: Text) {
    && i < m < j && CommitAt(h, maxContent, run, m, t, key) && CommitAt(h, maxContent, run, j, t, key)
    && run[i] == LookUp(run[j].call)
  }

  /** An append under a key that already has an entry overlapped the append of one. */
  lemma RepeatOverlaps(h: Scheme, maxContent: nat, run: seq<Action>, j: nat, t: Text, key: Text) returns (i: nat, m: nat)
    requires Exec(h, maxContent, run).Some? && CommitAt(h, maxContent, run, j, t, key)
    requires Commits(h, maxContent, run, j, t, key) >= 1
    ensures OverlapAt(h, maxContent, run, i, m, j, t, key)
  {
    var before := run[..j];
    i := RunMissed(h, maxContent, before, run[j].call, t, key);
    assert before[..i] == run[..i];
    CommitsAreEntries(h, maxContent, run, i, t, key);
    m := SomeCommit(h, maxContent, run, i, j, t, key);
    assert m != i;
  }

  lemma {:induction false} TwiceOverlaps(h: Scheme, maxContent: nat, run: seq<Action>, n: nat, t: Text, key: Text)
    returns (i: nat, m: nat, j: nat)
    requires Exec(h, maxContent, run).Some? && Commits(h, maxContent, run, n, t, key) >= 2
    ensures OverlapAt(h, maxContent, run, i, m, j, t, key)
    decreases n
  {
    if Commits(h, maxContent, run, n - 1, t, key) >= 2 {
      i, m, j := TwiceOverlaps(h, maxContent, run, n - 1, t, key);
    } else {
      j := n - 1;
      i, m := RepeatOverlaps(h, maxContent, run, j, t, key);
    }
  }

  lemma OverlapCounts(h: Scheme, maxContent: nat, run: seq<Action>, m: nat, j: nat, t: Text, key: Text)
    requires m < j < |run| && CommitAt(h, maxContent, run, m, t, key) && CommitAt(h, maxContent, run, j, t, key)
    ensures Commits(h, maxContent, run, |run|, t, key) >= 2
  {
    assert Commits(h, maxContent, run, m + 1, t, key) >= 1;
    CommitsGrow(h, maxContent, run, m + 1, j, t, key);
    assert Commits(h, maxContent, run, j + 1, t, key) >= 2;
    CommitsGrow(h, maxContent, run, j + 1, |run|, t, key);
  }

  /**
   In every run a type and key have at most one entry exactly if no call appended under them between the lookup and the
   append of another that did.
   */
  lemma OnceExactly(h: Scheme, maxContent: nat, run: seq<Action>, t: Text, key: Text)
    requires Exec(h, maxContent, run).Some?
    ensures KeyCount(Chain(Exec(h, maxContent, run).value.store, t), key) <= 1 <==>
      !exists i: nat, m: nat, j: nat :: OverlapAt(h, maxContent, run, i, m, j, t, key)
  {
    assert run[..|run|] == run;
    CommitsAreEntries(h, maxContent, run, |run|, t, key);
    if Commits(h, maxContent, run, |run|, t, key) >= 2 {
      var i, m, j := TwiceOverlaps(h, maxContent, run, |run|, t, key);
    } else if i: nat, m: nat, j: nat :| OverlapAt(h, maxContent, run, i, m, j, t, key) {
      OverlapCounts(h, maxContent, run, m, j, t, key);
    }
  }

  /******* A key can repeat *******/

  /** The run ends with call `c` seeking the tip for the first time and the given number of entries under its key. */
  ghost predicate Ready(h: Scheme, maxContent: nat, run: seq<Action>, c: nat, r: Request, key: Text, count: nat) {
    && Exec(h, maxContent, run).Some?
    && c in Exec(h, maxContent, run).value.calls
    && Exec(h, maxContent, run).value.calls[c] == Call(r, Seeking(0))
    && KeyCount(Chain(Exec(h, maxContent, run).value.store, r.entryType), key) == count
  }

  lemma ExtendCount(h: Scheme, maxContent: nat, run: seq<Action>, a: Action, t: Text, key: Text)
    requires Exec(h, maxContent, run).Some? && Enabled(Exec(h, maxContent, run).value, a)
    ensures Exec(h, maxContent, run + [a]) == Some(Step(h, maxContent, Exec(h, maxContent, run).value, a))
    ensures KeyCount(Chain(Exec(h, maxContent, run + [a]).value.store, t), key)
         == KeyCount(Chain(Exec(h, maxContent, run).value.store, t), key)
            + if AppendsUnder(h, Exec(h, maxContent, run).value, a, t, key) then 1 else 0
  {
    assert (run + [a])[..|run + [a]| - 1] == run;
    RunIndexed(h, maxContent, run);
    StepCounts(h, maxContent, Exec(h, maxContent, run).value, a, t, key);
  }

  /** A ready call reads the tip and appends; another call is left as it is. */
  lemma ReadAndAppend(h: Scheme, maxContent: nat, run: seq<Action>, c: nat, r: Request, key: Text, count: nat, d: nat)
    returns (run': seq<Action>)
    requires h.genesis != [] && r.idempotencyKey == Some(key) && Ready(h, maxContent, run, c, r, key, count)
    requires d != c && d in Exec(h, maxContent, run).value.calls
    ensures Exec(h, maxContent, run').Some?
    ensures KeyCount(Chain(Exec(h, maxContent, run').value.store, r.entryType), key) == count + 1
    ensures c in Exec(h, maxContent, run').value.calls && d in Exec(h, maxContent, run').value.calls
    ensures Exec(h, maxContent, run').value.calls[d] == Exec(h, maxContent, run).value.calls[d]
  {
    var s := Exec(h, maxContent, run).value;
    RunIndexed(h, maxContent, run);
    ExtendCount(h, maxContent, run, ReadTip(c), r.entryType, key);
    run' := run + [ReadTip(c)];
    var id := Unused(s.store.entries.Keys);
    var outboxId := Unused(s.store.outbox.Keys);
    var a := Commit(c, 0, id, outboxId, []);
    var s1 := Exec(h, maxContent, run').value;
    assert s1.store == s.store;
    CurrentTipAccepted(h, s.store, CommitInput(h, s1, a));
    ExtendCount(h, maxContent, run', a, r.entryType, key);
    run' := run' + [a];
  }

  /** A call begins and looks up a key that no entry carries; another call is left as it is. */
  lemma BeginAndMiss(h: Scheme, maxContent: nat, run: seq<Action>, c: nat, r: Request, key: Text) returns (run': seq<Action>)
    requires Exec(h, maxContent, run).Some? && c !in Exec(h, maxContent, run).value.calls
    requires Valid(maxContent, r) && r.idempotencyKey == Some(key)
    requires Exec(h, maxContent, run).value.store == EMPTY_STORE && Exec(h, maxContent, run).value.halted == {}
    ensures Ready(h, maxContent, run', c, r, key, 0)
    ensures Exec(h, maxContent, run').value
         == Exec(h, maxContent, run).value.(calls := Exec(h, maxContent, run).value.calls[c := Call(r, Seeking(0))])
  {
    var s := Exec(h, maxContent, run).value;
    ExtendCount(h, maxContent, run, Begin(c, r), r.entryType, key);
    run' := run + [Begin(c, r)];
    ExtendCount(h, maxContent, run', LookUp(c), r.entryType, key);
    run' := run' + [LookUp(c)];
    assert s.calls[c := Call(r, Admitted)][c := Call(r, Seeking(0))] == s.calls[c := Call(r, Seeking(0))];
    assert Chain(s.store, r.entryType) == [];
  }

  /** For every valid request with a key, two calls that both look it up before either appends leave two entries under it. */
  lemma KeyCanRepeat(h: Scheme, maxContent: nat, c: nat, d: nat, r: Request, key: Text) returns (run: seq<Action>)
    requires h.genesis != [] && c != d && Valid(maxContent, r) && r.idempotencyKey == Some(key)
    ensures Exec(h, maxContent, run).Some?
    ensures KeyCount(Chain(Exec(h, maxContent, run).value.store, r.entryType), key) == 2
  {
    run := BeginAndMiss(h, maxContent, [], c, r, key);
    run := BeginAndMiss(h, maxContent, run, d, r, key);
    run := ReadAndAppend(h, maxContent, run, d, r, key, 0, c);
    run := ReadAndAppend(h, maxContent, run, c, r, key, 1, d);
  }
}
