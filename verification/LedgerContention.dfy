/**
 Contention between writers: what makes an append be refused, and how many foreign appends a call
 must overlap before it halts a chain (s0/immutable-ledger/src/service/mod.rs, the five attempts).
 Overlaps are counted on the run itself, as successful appends by other calls to the same type.
 */
module LedgerContention {
  import opened Wrappers
  import opened LedgerCrypto
  import opened LedgerRepository
  import opened LedgerProtocol

  /** The action appends an entry of type `t`. */
  predicate CommitsTo(h: Scheme, s: System, a: Action, t: Text) {
    && a.Commit? && InPhase(s, a.call, true)
    && s.calls[a.call].request.entryType == t
    && Accepts(s.store, CommitInput(h, s, a))
  }

  /** Another call appends to the type that call `c` writes. */
  predicate ForeignCommit(h: Scheme, s: System, a: Action, c: nat) {
    a.Commit? && a.call != c && c in s.calls && CommitsTo(h, s, a, s.calls[c].request.entryType)
  }

  datatype Mark = SinceBegin | SinceRead

  predicate Resets(a: Action, c: nat, mark: Mark) {
    match mark
    case SinceBegin => a.Begin? && a.call == c
    case SinceRead => a.ReadTip? && a.call == c
  }

  /** Foreign commits in the run since call `c` began, or since it last read the tip. */
  function Overlap(h: Scheme, maxContent: nat, run: seq<Action>, c: nat, mark: Mark): nat {
    if run == [] || Resets(run[|run| - 1], c, mark) then 0
    else
      var init := run[..|run| - 1];
      var before := Exec(h, maxContent, init);
      Overlap(h, maxContent, init, c, mark)
      + if before.Some? && ForeignCommit(h, before.value, run[|run| - 1], c) then 1 else 0
  }

  /** What a call's phase says about the foreign commits since it began (`o`) and since it read the tip (`n`). */
  ghost predicate Tracks(h: Scheme, s: System, call: Call, o: nat, n: nat) {
    var t := call.request.entryType;
    match call.phase
    case Admitted => true
    case Seeking(k) => k < MAX_ATTEMPTS && o >= k
    case Holding(k, tip) =>
      && k < MAX_ATTEMPTS && o >= k + n
      && (n == 0 ==> tip == CurrentTip(h, s.store, t))
      && (n > 0 ==> t in s.store.tips)
    case Halting => o >= MAX_ATTEMPTS
    case Finished(outcome) => outcome == Failure(Internal) ==> o >= MAX_ATTEMPTS
  }

  /** An append linked to the current tip is never refused. */
  lemma CurrentTipAccepted(h: Scheme, s: Store, input: WriteInput)
    requires Indexed(s) && h.genesis != [] && input.previousHash == CurrentTip(h, s, input.entryType)
    ensures Accepts(s, input)
  {
    ChainElements(s, input.entryType);
  }

  /** Between a tip read on `s` and an append on a later `s1`, the append is accepted exactly if the tip has not moved. */
  lemma AcceptedIffTipUnmoved(h: Scheme, s: Store, s1: Store, r: Request, timestamp: int, payload: Text)
    requires Indexed(s1) && h.genesis != [] && (r.entryType in s.tips ==> r.entryType in s1.tips)
    ensures Accepts(s1, InputFor(h, r, CurrentTip(h, s, r.entryType), timestamp, payload)) <==>
      CurrentTip(h, s, r.entryType) == CurrentTip(h, s1, r.entryType)
  {
    ChainElements(s1, r.entryType);
  }

  /** How a count of overlaps goes on over one step. */
  function Counts(h: Scheme, s: System, a: Action, c: nat, mark: Mark, count: nat): nat {
    if Resets(a, c, mark) then 0 else count + if ForeignCommit(h, s, a, c) then 1 else 0
  }

  /** One step keeps track of call `c`, from the given counts on. */
  ghost predicate StaysTracked(h: Scheme, maxContent: nat, s: System, a: Action, c: nat, o: nat, n: nat)
    requires Enabled(s, a)
  {
    var s' := Step(h, maxContent, s, a);
    c in s'.calls ==>
      Tracks(h, s', s'.calls[c], Counts(h, s, a, c, SinceBegin, o), Counts(h, s, a, c, SinceRead, n))
  }

  lemma OwnAppend(h: Scheme, maxContent: nat, s: System, a: Action, o: nat, n: nat)
    requires Enabled(s, a) && a.Commit? && Tracks(h, s, s.calls[a.call], o, n)
    requires n == 0 ==> Accepts(s.store, CommitInput(h, s, a))
    ensures StaysTracked(h, maxContent, s, a, a.call, o, n)
  {}

  lemma OwnStep(h: Scheme, maxContent: nat, s: System, a: Action, o: nat, n: nat)
    requires Enabled(s, a) && (a.LookUp? || a.ReadTip? || a.Halt?) && Tracks(h, s, s.calls[a.call], o, n)
    ensures StaysTracked(h, maxContent, s, a, a.call, o, n)
  {}

  lemma BeginStep(h: Scheme, maxContent: nat, s: System, a: Action, o: nat, n: nat)
    requires Enabled(s, a) && a.Begin?
    ensures StaysTracked(h, maxContent, s, a, a.call, o, n)
  {}

  /** Steps by others leave a call as it is. */
  lemma OthersKeep(h: Scheme, maxContent: nat, s: System, a: Action, c: nat)
    requires Enabled(s, a) && ((a.Begin? || a.LookUp? || a.ReadTip? || a.Commit? || a.Halt?) ==> a.call != c)
    ensures var s' := Step(h, maxContent, s, a);
      (c in s'.calls <==> c in s.calls) && (c in s.calls ==> s'.calls[c] == s.calls[c])
  {}

  /** They move its tip only by appending to its type. */
  lemma OthersMoveTip(h: Scheme, maxContent: nat, s: System, a: Action, c: nat)
    requires Enabled(s, a) && c in s.calls && ((a.Begin? || a.LookUp? || a.ReadTip? || a.Commit? || a.Halt?) ==> a.call != c)
    ensures var s', t := Step(h, maxContent, s, a), s.calls[c].request.entryType;
      && (!ForeignCommit(h, s, a, c) ==> CurrentTip(h, s'.store, t) == CurrentTip(h, s.store, t))
      && (ForeignCommit(h, s, a, c) || t in s.store.tips ==> t in s'.store.tips)
  {}

  lemma OthersStep(h: Scheme, maxContent: nat, s: System, a: Action, c: nat, o: nat, n: nat)
    requires Enabled(s, a) && (c in s.calls ==> Tracks(h, s, s.calls[c], o, n))
    requires (a.Begin? || a.LookUp? || a.ReadTip? || a.Commit? || a.Halt?) ==> a.call != c
    ensures StaysTracked(h, maxContent, s, a, c, o, n)
  {
    OthersKeep(h, maxContent, s, a, c);
    if c in s.calls {
      OthersMoveTip(h, maxContent, s, a, c);
    }
  }

  lemma StepTracked(h: Scheme, maxContent: nat, s: System, a: Action, c: nat, o: nat, n: nat)
    requires Enabled(s, a) && Indexed(s.store) && h.genesis != [] && (c in s.calls ==> Tracks(h, s, s.calls[c], o, n))
    ensures StaysTracked(h, maxContent, s, a, c, o, n)
  {
    if a.Poll? || a.Publish? || a.MarkSent? || a.call != c {
      OthersStep(h, maxContent, s, a, c, o, n);
    } else if a.Begin? {
      BeginStep(h, maxContent, s, a, o, n);
    } else if a.Commit? {
      if n == 0 {
        CurrentTipAccepted(h, s.store, CommitInput(h, s, a));
      }
      OwnAppend(h, maxContent, s, a, o, n);
    } else {
      OwnStep(h, maxContent, s, a, o, n);
    }
  }

  lemma OverlapCounts(h: Scheme, maxContent: nat, run: seq<Action>, c: nat, mark: Mark)
    requires run != [] && Exec(h, maxContent, run).Some?
    ensures var init, a := run[..|run| - 1], run[|run| - 1];
      Exec(h, maxContent, init).Some?
      && Overlap(h, maxContent, run, c, mark)
         == Counts(h, Exec(h, maxContent, init).value, a, c, mark, Overlap(h, maxContent, init, c, mark))
  {}

  /** Every call in every reachable state is tracked by the overlaps of the run that led there. */
  lemma {:induction false} RunTracked(h: Scheme, maxContent: nat, run: seq<Action>, c: nat)
    requires h.genesis != [] && Exec(h, maxContent, run).Some?
    requires c in Exec(h, maxContent, run).value.calls
    ensures var s := Exec(h, maxContent, run).value;
      Tracks(h, s, s.calls[c], Overlap(h, maxContent, run, c, SinceBegin), Overlap(h, maxContent, run, c, SinceRead))
  {
    if run != [] {
      var init, a := run[..|run| - 1], run[|run| - 1];
      var s := Exec(h, maxContent, init).value;
      OverlapCounts(h, maxContent, run, c, SinceBegin);
      OverlapCounts(h, maxContent, run, c, SinceRead);
      RunIndexed(h, maxContent, init);
      if c in s.calls {
        RunTracked(h, maxContent, init, c);
      }
      StepTracked(h, maxContent, s, a, c, Overlap(h, maxContent, init, c, SinceBegin), Overlap(h, maxContent, init, c, SinceRead));
    }
  }

  /** A refused append means another call appended to the same type since this call read the tip. */
  lemma RefusalMeansOverlap(h: Scheme, maxContent: nat, run: seq<Action>, a: Action)
    requires h.genesis != [] && Exec(h, maxContent, run).Some?
    requires a.Commit? && Enabled(Exec(h, maxContent, run).value, a)
    requires !Accepts(Exec(h, maxContent, run).value.store, CommitInput(h, Exec(h, maxContent, run).value, a))
    ensures Overlap(h, maxContent, run, a.call, SinceRead) >= 1
  {
    RunIndexed(h, maxContent, run);
    RunTracked(h, maxContent, run, a.call);
    var s := Exec(h, maxContent, run).value;
    if Overlap(h, maxContent, run, a.call, SinceRead) == 0 {
      CurrentTipAccepted(h, s.store, CommitInput(h, s, a));
    }
  }

  /** A call that reports an integrity violation, or is about to halt its chain, overlapped at least five foreign appends. */
  lemma HaltMeansFiveOverlaps(h: Scheme, maxContent: nat, run: seq<Action>, c: nat)
    requires h.genesis != [] && Exec(h, maxContent, run).Some?
    requires c in Exec(h, maxContent, run).value.calls
    requires Exec(h, maxContent, run).value.calls[c].phase in {Halting, Finished(Failure(Internal))}
    ensures Overlap(h, maxContent, run, c, SinceBegin) >= 5
  {
    RunTracked(h, maxContent, run, c);
  }

  /** Every halted type was halted by a call that overlapped five foreign appends to it. */
  lemma {:induction false} HaltedByOverlap(h: Scheme, maxContent: nat, run: seq<Action>, t: Text) returns (c: nat)
    requires h.genesis != [] && Exec(h, maxContent, run).Some? && t in Exec(h, maxContent, run).value.halted
    ensures var s := Exec(h, maxContent, run).value;
      && c in s.calls && s.calls[c].request.entryType == t && s.calls[c].phase == Finished(Failure(Internal))
      && Overlap(h, maxContent, run, c, SinceBegin) >= 5
  {
    var init, a := run[..|run| - 1], run[|run| - 1];
    var s := Exec(h, maxContent, init).value;
    if t in s.halted {
      c := HaltedByOverlap(h, maxContent, init, t);
    } else {
      c := a.call;
    }
    HaltMeansFiveOverlaps(h, maxContent, run, c);
  }

  /******* Five is tight *******/

  /** There is a timestamp at which the request, linked to `tip`, hashes to something else. */
  ghost predicate SeparatesAt(h: Scheme, r: Request, tip: Text) {
    exists ts: int :: HashAt(h, r, tip, ts) != tip
  }

  function HashAt(h: Scheme, r: Request, tip: Text, ts: int): Text {
    h.hash(Body(r.entryType, r.agentId, r.content, r.contentType, r.sourceId, ts, tip))
  }

  /** The bytes of the request linked to `tip`. */
  function BytesAt(r: Request, tip: Text, ts: int): Text {
    CanonicalBytes(Body(r.entryType, r.agentId, r.content, r.contentType, r.sourceId, ts, tip))
  }

  /** Under the canonical scheme one of any two timestamps separates, or their bytes collide. */
  lemma CanonicalSeparates(H: Digest, genesis: Text, r: Request, tip: Text, ts: int, ts': int)
    requires ts != ts'
    ensures var h := Canonical(H, genesis);
      || HashAt(h, r, tip, ts) != tip
      || HashAt(h, r, tip, ts') != tip
      || Collision(H, BytesAt(r, tip, ts), BytesAt(r, tip, ts'))
  {
    var b := Body(r.entryType, r.agentId, r.content, r.contentType, r.sourceId, ts, tip);
    OneFieldChangesBytes(b, b.(timestamp := ts'));
  }

  /** An identifier not in use. */
  lemma {:induction false} Unused(used: set<nat>) returns (r: nat)
    ensures forall u :: u in used ==> u < r
  {
    r := 0;
    if used != {} {
      var u :| u in used;
      r := Unused(used - {u});
      assert forall v :: v in used ==> v == u || v in used - {u};
      r := if r <= u then u + 1 else r;
    }
  }

  lemma Extend(h: Scheme, maxContent: nat, run: seq<Action>, a: Action, c: nat)
    requires Exec(h, maxContent, run).Some? && Enabled(Exec(h, maxContent, run).value, a)
    ensures Exec(h, maxContent, run + [a]) == Some(Step(h, maxContent, Exec(h, maxContent, run).value, a))
    ensures !Resets(a, c, SinceBegin) ==>
      Overlap(h, maxContent, run + [a], c, SinceBegin)
      == Overlap(h, maxContent, run, c, SinceBegin) + if ForeignCommit(h, Exec(h, maxContent, run).value, a, c) then 1 else 0
    ensures Resets(a, c, SinceBegin) ==> Overlap(h, maxContent, run + [a], c, SinceBegin) == 0
  {
    assert (run + [a])[..|run + [a]| - 1] == run;
  }

  /** The state in which call `w` has written `r` on top of `s`, undisturbed. */
  function Written(h: Scheme, s: System, w: nat, r: Request, ts: int, id: nat, outboxId: nat): System {
    var input := InputFor(h, r, CurrentTip(h, s.store, r.entryType), ts, []);
    s.(calls := s.calls[w := Call(r, Finished(Success(ReceiptOf(NewEntry(s.store, input, id)))))],
       store := Append(s.store, input, id, outboxId))
  }

  /** A call about to append with nobody in between does append. */
  lemma CommitUndisturbed(h: Scheme, s: System, s3: System, w: nat, r: Request, a: Action)
    requires h.genesis != [] && Indexed(s.store) && a.Commit? && a.call == w && a.payload == []
    requires s3 == s.(calls := s.calls[w := Call(r, Holding(0, CurrentTip(h, s.store, r.entryType)))])
    ensures CommitsTo(h, s3, a, r.entryType)
    ensures DoCommit(h, s3, a) == Written(h, s, w, r, a.timestamp, a.id, a.outboxId)
  {
    CurrentTipAccepted(h, s.store, CommitInput(h, s3, a));
  }

  /** The state in which call `w` has begun, found no entry for its key and read the tip. */
  function Prepared(h: Scheme, s: System, w: nat, r: Request): System {
    s.(calls := s.calls[w := Call(r, Holding(0, CurrentTip(h, s.store, r.entryType)))])
  }

  lemma AdmitUndisturbed(h: Scheme, maxContent: nat, run: seq<Action>, w: nat, r: Request, c: nat) returns (run': seq<Action>)
    requires Exec(h, maxContent, run).Some? && w !in Exec(h, maxContent, run).value.calls && w != c
    requires Valid(maxContent, r) && r.entryType !in Exec(h, maxContent, run).value.halted && r.idempotencyKey == None
    ensures var s := Exec(h, maxContent, run).value;
      Exec(h, maxContent, run') == Some(s.(calls := s.calls[w := Call(r, Seeking(0))]))
    ensures Overlap(h, maxContent, run', c, SinceBegin) == Overlap(h, maxContent, run, c, SinceBegin)
  {
    var s := Exec(h, maxContent, run).value;
    Extend(h, maxContent, run, Begin(w, r), c);
    run' := run + [Begin(w, r)];
    var s1 := s.(calls := s.calls[w := Call(r, Admitted)]);
    assert Exec(h, maxContent, run') == Some(s1);
    Extend(h, maxContent, run', LookUp(w), c);
    run' := run' + [LookUp(w)];
    assert s1.calls[w := Call(r, Seeking(0))] == s.calls[w := Call(r, Seeking(0))];
  }

  lemma PrepareUndisturbed(h: Scheme, maxContent: nat, run: seq<Action>, w: nat, r: Request, c: nat) returns (run': seq<Action>)
    requires Exec(h, maxContent, run).Some? && w !in Exec(h, maxContent, run).value.calls && w != c
    requires Valid(maxContent, r) && r.entryType !in Exec(h, maxContent, run).value.halted && r.idempotencyKey == None
    ensures Exec(h, maxContent, run') == Some(Prepared(h, Exec(h, maxContent, run).value, w, r))
    ensures Overlap(h, maxContent, run', c, SinceBegin) == Overlap(h, maxContent, run, c, SinceBegin)
  {
    var s := Exec(h, maxContent, run).value;
    run' := AdmitUndisturbed(h, maxContent, run, w, r, c);
    var s2 := s.(calls := s.calls[w := Call(r, Seeking(0))]);
    Extend(h, maxContent, run', ReadTip(w), c);
    run' := run' + [ReadTip(w)];
    var held := Call(r, Holding(0, CurrentTip(h, s.store, r.entryType)));
    assert s2.calls[w := held] == s.calls[w := held];
  }

  /** A fresh, valid call that nobody disturbs begins, reads the tip and appends at its first attempt. */
  lemma WriteUndisturbed(h: Scheme, maxContent: nat, run: seq<Action>, w: nat, r: Request, ts: int, id: nat, outboxId: nat, c: nat)
    returns (run': seq<Action>)
    requires h.genesis != [] && Exec(h, maxContent, run).Some?
    requires var s := Exec(h, maxContent, run).value;
      && Indexed(s.store) && w !in s.calls && id !in s.store.entries && outboxId !in s.store.outbox
      && Valid(maxContent, r) && r.entryType !in s.halted && r.idempotencyKey == None
      && c in s.calls && s.calls[c].request.entryType == r.entryType
    ensures Exec(h, maxContent, run') == Some(Written(h, Exec(h, maxContent, run).value, w, r, ts, id, outboxId))
    ensures Overlap(h, maxContent, run', c, SinceBegin) == Overlap(h, maxContent, run, c, SinceBegin) + 1
  {
    var s := Exec(h, maxContent, run).value;
    var a := Commit(w, ts, id, outboxId, []);
    run' := PrepareUndisturbed(h, maxContent, run, w, r, c);
    CommitUndisturbed(h, s, Prepared(h, s, w, r), w, r, a);
    Extend(h, maxContent, run', a, c);
    run' := run' + [a];
  }

  /** The run leaves call `c` with request `r` in the given phase, its type not halted, after `o` overlaps. */
  ghost predicate At(h: Scheme, maxContent: nat, run: seq<Action>, c: nat, r: Request, phase: Phase, o: nat) {
    && Exec(h, maxContent, run).Some?
    && c in Exec(h, maxContent, run).value.calls
    && Exec(h, maxContent, run).value.calls[c] == Call(r, phase)
    && r.entryType !in Exec(h, maxContent, run).value.halted
    && Overlap(h, maxContent, run, c, SinceBegin) == o
  }

  function AfterRefusal(k: nat): Phase {
    if k + 1 < MAX_ATTEMPTS then Seeking(k + 1) else Halting
  }

  /** While `c` holds the tip it read, a fresh call appends an entry with another hash. */
  lemma TipMovesAway(h: Scheme, maxContent: nat, run: seq<Action>, c: nat, r: Request, k: nat, tip: Text, o: nat)
    returns (run': seq<Action>, id: nat, outboxId: nat)
    requires h.genesis != [] && Valid(maxContent, r) && SeparatesAt(h, r, tip)
    requires At(h, maxContent, run, c, r, Holding(k, tip), o)
    requires tip == CurrentTip(h, Exec(h, maxContent, run).value.store, r.entryType)
    ensures At(h, maxContent, run', c, r, Holding(k, tip), o + 1)
    ensures var s' := Exec(h, maxContent, run').value.store;
      && r.entryType in s'.tips && s'.tips[r.entryType].hash != tip && s'.tips[r.entryType].position > 0
      && id !in s'.entries && outboxId !in s'.outbox
  {
    var s := Exec(h, maxContent, run).value;
    RunIndexed(h, maxContent, run);
    ChainElements(s.store, r.entryType);
    var w := Unused(s.calls.Keys);
    var i := Unused(s.store.entries.Keys);
    var j := Unused(s.store.outbox.Keys);
    var ts :| HashAt(h, r, tip, ts) != tip;
    run' := WriteUndisturbed(h, maxContent, run, w, r.(idempotencyKey := None), ts, i, j, c);
    id, outboxId := i + 1, j + 1;
  }

  lemma ReadStep(h: Scheme, maxContent: nat, run: seq<Action>, c: nat, r: Request, k: nat, o: nat)
    requires At(h, maxContent, run, c, r, Seeking(k), o)
    ensures Exec(h, maxContent, run + [ReadTip(c)]).Some?
    ensures var s := Exec(h, maxContent, run + [ReadTip(c)]).value.store;
      At(h, maxContent, run + [ReadTip(c)], c, r, Holding(k, CurrentTip(h, s, r.entryType)), o)
  {
    Extend(h, maxContent, run, ReadTip(c), c);
  }

  /** An append linked to a hash that is no longer the tip's is refused. */
  lemma StaleRefused(h: Scheme, s: System, c: nat, r: Request, k: nat, tip: Text, a: Action)
    requires c in s.calls && s.calls[c] == Call(r, Holding(k, tip)) && a.Commit? && a.call == c
    requires r.entryType in s.store.tips && s.store.tips[r.entryType].hash != tip && s.store.tips[r.entryType].position > 0
    ensures DoCommit(h, s, a) == Move(s, c, AfterRefusal(k))
  {}

  lemma StaleCommit(h: Scheme, maxContent: nat, run: seq<Action>, c: nat, r: Request, k: nat, tip: Text, o: nat, a: Action)
    requires At(h, maxContent, run, c, r, Holding(k, tip), o)
    requires a.Commit? && a.call == c && Enabled(Exec(h, maxContent, run).value, a)
    requires var s := Exec(h, maxContent, run).value.store;
      r.entryType in s.tips && s.tips[r.entryType].hash != tip && s.tips[r.entryType].position > 0
    ensures At(h, maxContent, run + [a], c, r, AfterRefusal(k), o)
  {
    StaleRefused(h, Exec(h, maxContent, run).value, c, r, k, tip, a);
    Extend(h, maxContent, run, a, c);
  }

  /** The run ends at a tip which the request, linked to it, hashes to at every timestamp. */
  ghost predicate Stuck(h: Scheme, maxContent: nat, run: seq<Action>, r: Request) {
    && Exec(h, maxContent, run).Some?
    && !SeparatesAt(h, r, CurrentTip(h, Exec(h, maxContent, run).value.store, r.entryType))
  }

  /** One refused attempt sends the call back to read the tip again, or, the fifth time, makes it halt. */
  lemma RefusedAttempt(h: Scheme, maxContent: nat, run: seq<Action>, c: nat, r: Request, k: nat, o: nat)
    returns (run': seq<Action>)
    requires h.genesis != [] && Valid(maxContent, r)
    requires At(h, maxContent, run, c, r, Seeking(k), o)
    ensures At(h, maxContent, run', c, r, AfterRefusal(k), o + 1) || Stuck(h, maxContent, run', r)
  {
    ReadStep(h, maxContent, run, c, r, k, o);
    run' := run + [ReadTip(c)];
    var tip := CurrentTip(h, Exec(h, maxContent, run').value.store, r.entryType);
    if SeparatesAt(h, r, tip) {
      var id, outboxId;
      run', id, outboxId := TipMovesAway(h, maxContent, run', c, r, k, tip, o);
      var a := Commit(c, 0, id, outboxId, []);
      StaleCommit(h, maxContent, run', c, r, k, tip, o + 1, a);
      run' := run' + [a];
    }
  }

  lemma {:induction false} RefusedUntilHalt(h: Scheme, maxContent: nat, run: seq<Action>, c: nat, r: Request, k: nat)
    returns (run': seq<Action>)
    requires h.genesis != [] && Valid(maxContent, r)
    requires k < MAX_ATTEMPTS && At(h, maxContent, run, c, r, Seeking(k), k)
    ensures At(h, maxContent, run', c, r, Halting, MAX_ATTEMPTS) || Stuck(h, maxContent, run', r)
    decreases MAX_ATTEMPTS - k
  {
    run' := RefusedAttempt(h, maxContent, run, c, r, k, k);
    if k + 1 < MAX_ATTEMPTS && !Stuck(h, maxContent, run', r) {
      run' := RefusedUntilHalt(h, maxContent, run', c, r, k + 1);
    }
  }

  /** The run ends with the call having halted its chain after exactly five overlaps. */
  ghost predicate HaltsAfterFive(h: Scheme, maxContent: nat, run: seq<Action>, c: nat, r: Request) {
    && Exec(h, maxContent, run).Some?
    && Overlap(h, maxContent, run, c, SinceBegin) == 5
    && var s := Exec(h, maxContent, run).value;
       r.entryType in s.halted && c in s.calls && s.calls[c] == Call(r, Finished(Failure(Internal)))
  }

  /**
   Five overlaps suffice: for every valid request there is a run in which exactly five foreign appends halt its chain,
   or one that ends at a tip which the request hashes to whatever its timestamp.
   */
  lemma FiveOverlapsCanHalt(h: Scheme, maxContent: nat, c: nat, r: Request) returns (run: seq<Action>)
    requires h.genesis != [] && Valid(maxContent, r)
    ensures HaltsAfterFive(h, maxContent, run, c, r) || Stuck(h, maxContent, run, r)
  {
    Extend(h, maxContent, [], Begin(c, r), c);
    run := [] + [Begin(c, r)];
    Extend(h, maxContent, run, LookUp(c), c);
    run := run + [LookUp(c)];
    run := RefusedUntilHalt(h, maxContent, run, c, r, 0);
    if !Stuck(h, maxContent, run, r) {
      Extend(h, maxContent, run, Halt(c), c);
      run := run + [Halt(c)];
    }
  }

  /**
   The same for the ledger's own hashing, with nothing assumed of the digest: the run halts the chain, or, at the tip the
   run ends at, the request's bytes at any two timestamps collide.
   */
  lemma LedgerCanHalt(H: Digest, genesis: Text, maxContent: nat, c: nat, r: Request, ts: int, ts': int)
    returns (run: seq<Action>)
    requires H(genesis) != [] && Valid(maxContent, r) && ts != ts'
    ensures var h := Canonical(H, genesis);
      && Exec(h, maxContent, run).Some?
      && var tip := CurrentTip(h, Exec(h, maxContent, run).value.store, r.entryType);
         HaltsAfterFive(h, maxContent, run, c, r) || Collision(H, BytesAt(r, tip, ts), BytesAt(r, tip, ts'))
  {
    var h := Canonical(H, genesis);
    run := FiveOverlapsCanHalt(h, maxContent, c, r);
    CanonicalSeparates(H, genesis, r, CurrentTip(h, Exec(h, maxContent, run).value.store, r.entryType), ts, ts');
  }
}
