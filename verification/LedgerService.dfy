/**
 One `write_entry` call from start to finish (s0/immutable-ledger/src/service/mod.rs), as the object runs it,
 and runs in which calls do not overlap. What others do to the repository between any two of the call's accesses
 is given with the call.
 */
module LedgerService {
  import opened Wrappers
  import opened LedgerCrypto
  import opened LedgerRepository
  import opened LedgerVerifier
  import opened LedgerProtocol
  import opened LedgerContention

  /** An append by another call, or a delivery mark by the outbox processor. */
  datatype Foreign =
    | Foreign(input: WriteInput, id: nat, outboxId: nat)
    | Delivery(outboxId: nat)

  /** What one attempt meets before its tip read and after it, and its own clock reading and identifiers. */
  datatype Attempt = Attempt(
    before: seq<Foreign>, foreign: seq<Foreign>, timestamp: int, id: nat, outboxId: nat, payload: Text)

  /** What a call meets: before its key lookup, around its attempts, and before it halts the chain. */
  datatype Surroundings = Surroundings(early: seq<Foreign>, attempts: seq<Attempt>, late: seq<Foreign>)

  /** The repository after one foreign access; a refused append leaves it as it is. */
  function Landed(s: Store, f: Foreign): Store {
    match f
    case Foreign(input, id, outboxId) => if Accepts(s, input) then Append(s, input, id, outboxId) else s
    case Delivery(outboxId) => MarkDelivered(s, outboxId)
  }

  /** The repository after the foreign accesses. */
  function Disturbed(s: Store, foreign: seq<Foreign>): Store {
    if foreign == [] then s else Landed(Disturbed(s, foreign[..|foreign| - 1]), foreign[|foreign| - 1])
  }

  datatype CallResult = CallResult(store: Store, outcome: Result<Receipt, ServiceError>, halts: bool)

  /** The attempts of a call from number `k` on. */
  function Retry(h: Scheme, s: Store, r: Request, w: Surroundings, k: nat): CallResult
    requires |w.attempts| == MAX_ATTEMPTS && k < MAX_ATTEMPTS
    decreases MAX_ATTEMPTS - k, 1
  {
    Held(h, Disturbed(s, w.attempts[k].before), r, w, k)
  }

  /** The same from the tip read of attempt `k` on. */
  function Held(h: Scheme, s: Store, r: Request, w: Surroundings, k: nat): CallResult
    requires |w.attempts| == MAX_ATTEMPTS && k < MAX_ATTEMPTS
    decreases MAX_ATTEMPTS - k, 0
  {
    var a := w.attempts[k];
    var input := InputFor(h, r, CurrentTip(h, s, r.entryType), a.timestamp, a.payload);
    var s1 := Disturbed(s, a.foreign);
    if Accepts(s1, input) then
      CallResult(Append(s1, input, a.id, a.outboxId), Success(ReceiptOf(NewEntry(s1, input, a.id))), false)
    else if k + 1 < MAX_ATTEMPTS then Retry(h, s1, r, w, k + 1)
    else CallResult(Disturbed(s1, w.late), Failure(Internal), true)
  }

  /** The entry that the key lookup finds, if there is a key. */
  function LookedUp(s: Store, r: Request): Option<Entry> {
    if r.idempotencyKey.Some? then FindIdempotent(s, r.entryType, r.idempotencyKey.value) else None
  }

  function WriteCall(h: Scheme, maxContent: nat, s: Store, halted: set<Text>, r: Request, w: Surroundings): CallResult
    requires |w.attempts| == MAX_ATTEMPTS
  {
    if !Valid(maxContent, r) then CallResult(s, Failure(InvalidArgument), false)
    else if r.entryType in halted then CallResult(s, Failure(Unavailable), false)
    else
      var s1 := Disturbed(s, w.early);
      var found := LookedUp(s1, r);
      if found.Some? then CallResult(s1, Success(ReceiptOf(found.value)), false)
      else Retry(h, s1, r, w, 0)
  }

  class ImmutableLedgerService {
    const h: Scheme
    const maxContent: nat
    const repo: InMemoryLedgerRepository
    var halted: set<Text>

    constructor (h: Scheme, maxContent: nat)
      ensures this.h == h && this.maxContent == maxContent && halted == {}
      ensures fresh(repo) && repo.Contents() == EMPTY_STORE
    {
      this.h, this.maxContent, halted := h, maxContent, {};
      repo := new InMemoryLedgerRepository();
    }

    /** Others reach the repository. */
    method Interfere(foreign: seq<Foreign>)
      modifies repo
      ensures repo.Contents() == Disturbed(old(repo.Contents()), foreign)
    {
      for i := 0 to |foreign|
        invariant repo.Contents() == Disturbed(old(repo.Contents()), foreign[..i])
      {
        assert foreign[..i + 1][..i] == foreign[..i];
        match foreign[i]
        case Foreign(input, id, outboxId) =>
          var _ := repo.WriteEntryWithOutbox(input, id, outboxId);
        case Delivery(outboxId) =>
          var _ := repo.MarkOutboxDelivered(outboxId);
      }
      assert foreign[..|foreign|] == foreign;
    }

    /** One attempt: read the tip, then append to what the others have made of the repository. */
    method TryAppend(r: Request, a: Attempt) returns (written: Result<Entry, RepositoryError>)
      modifies repo
      ensures var s := Disturbed(old(repo.Contents()), a.before); var s1 := Disturbed(s, a.foreign);
        var input := InputFor(h, r, CurrentTip(h, s, r.entryType), a.timestamp, a.payload);
        if Accepts(s1, input)
        then written == Success(NewEntry(s1, input, a.id)) && repo.Contents() == Append(s1, input, a.id, a.outboxId)
        else written.Failure? && repo.Contents() == s1
    {
      Interfere(a.before);
      var tip := if r.entryType in repo.tips then repo.tips[r.entryType].hash else h.genesis;
      Interfere(a.foreign);
      written := repo.WriteEntryWithOutbox(InputFor(h, r, tip, a.timestamp, a.payload), a.id, a.outboxId);
    }

    /** The five attempts, and the halt after the last. */
    method AppendWithRetry(r: Request, w: Surroundings) returns (outcome: Result<Receipt, ServiceError>)
      requires |w.attempts| == MAX_ATTEMPTS
      modifies this`halted, repo
      ensures var result := Retry(h, old(repo.Contents()), r, w, 0);
        && repo.Contents() == result.store
        && outcome == result.outcome
        && halted == if result.halts then old(halted) + {r.entryType} else old(halted)
    {
      var attempt := 0;
      while attempt < MAX_ATTEMPTS
        invariant 0 <= attempt < MAX_ATTEMPTS && halted == old(halted)
        invariant Retry(h, old(repo.Contents()), r, w, 0) == Retry(h, repo.Contents(), r, w, attempt)
        decreases MAX_ATTEMPTS - attempt
      {
        var written := TryAppend(r, w.attempts[attempt]);
        if written.Success? {
          return Success(ReceiptOf(written.value));
        }
        if attempt + 1 == MAX_ATTEMPTS {
          Interfere(w.late);
          halted := halted + {r.entryType};
          return Failure(Internal);
        }
        attempt := attempt + 1;
      }
    }

    method WriteEntry(r: Request, w: Surroundings) returns (outcome: Result<Receipt, ServiceError>)
      requires |w.attempts| == MAX_ATTEMPTS
      modifies this`halted, repo
      ensures var result := WriteCall(h, maxContent, old(repo.Contents()), old(halted), r, w);
        && repo.Contents() == result.store
        && outcome == result.outcome
        && halted == if result.halts then old(halted) + {r.entryType} else old(halted)
    {
      if r.entryType == [] || r.agentId == [] || r.contentType == [] || r.sourceId == [] {
        return Failure(InvalidArgument);
      }
      if |r.content| > maxContent {
        return Failure(InvalidArgument);
      }
      if r.entryType in halted {
        return Failure(Unavailable);
      }
      Interfere(w.early);
      if r.idempotencyKey.Some? {
        var existing := FindIdempotent(repo.Contents(), r.entryType, r.idempotencyKey.value);
        if existing.Some? {
          return Success(ReceiptOf(existing.value));
        }
      }
      outcome := AppendWithRetry(r, w);
    }

    method VerifyChainOf(entryType: Text, start: Option<nat>, end: Option<nat>)
      returns (r: Result<ChainReport, RepositoryError>)
      ensures r == Verdict(h, Chain(repo.Contents(), entryType), start, end)
    {
      var entries := repo.GetEntriesByType(entryType);
      r := VerifyChain(h, entries, start, end);
    }
  }

  /******* What the retry loop amounts to *******/

  /** The foreign appends use identifiers that are new when they land. */
  ghost predicate ForeignFresh(s: Store, foreign: seq<Foreign>) {
    foreign == [] ||
    var init, f := foreign[..|foreign| - 1], foreign[|foreign| - 1];
    ForeignFresh(s, init) && (f.Foreign? ==> f.id !in Disturbed(s, init).entries)
  }

  lemma LandedIndexed(s: Store, f: Foreign)
    requires Indexed(s) && (f.Foreign? ==> f.id !in s.entries)
    ensures Indexed(Landed(s, f)) && s.tips.Keys <= Landed(s, f).tips.Keys
  {
    if f.Foreign? {
      AppendIndexed(s, f.input, f.id, f.outboxId);
    }
  }

  lemma {:induction false} DisturbedIndexed(s: Store, foreign: seq<Foreign>)
    requires Indexed(s) && ForeignFresh(s, foreign)
    ensures Indexed(Disturbed(s, foreign)) && s.tips.Keys <= Disturbed(s, foreign).tips.Keys
  {
    if foreign != [] {
      var init, f := foreign[..|foreign| - 1], foreign[|foreign| - 1];
      DisturbedIndexed(s, init);
      LandedIndexed(Disturbed(s, init), f);
    }
  }

  /** The store whose tip the attempt reads, and the store it appends to. */
  function ReadStore(s: Store, a: Attempt): Store {
    Disturbed(s, a.before)
  }

  function MetStore(s: Store, a: Attempt): Store {
    Disturbed(ReadStore(s, a), a.foreign)
  }

  /** The tip of type `t` moves between the attempt's tip read and its append. */
  predicate TipMoves(h: Scheme, s: Store, t: Text, a: Attempt) {
    CurrentTip(h, ReadStore(s, a), t) != CurrentTip(h, MetStore(s, a), t)
  }

  ghost predicate AttemptFresh(s: Store, a: Attempt) {
    ForeignFresh(s, a.before) && ForeignFresh(ReadStore(s, a), a.foreign)
  }

  ghost predicate AttemptsFresh(s: Store, attempts: seq<Attempt>, k: nat)
    requires k < |attempts|
    decreases |attempts| - k
  {
    AttemptFresh(s, attempts[k]) && (k + 1 < |attempts| ==> AttemptsFresh(MetStore(s, attempts[k]), attempts, k + 1))
  }

  /** From attempt `k` on, the tip of type `t` moves during every attempt. */
  ghost predicate TipAlwaysMoves(h: Scheme, s: Store, t: Text, attempts: seq<Attempt>, k: nat)
    requires k < |attempts|
    decreases |attempts| - k
  {
    && TipMoves(h, s, t, attempts[k])
    && (k + 1 < |attempts| ==> TipAlwaysMoves(h, MetStore(s, attempts[k]), t, attempts, k + 1))
  }

  /** From `k` on, attempt `j` is the first during which the tip stays, and `s1` is the store it then finds. */
  ghost predicate FirstStill(h: Scheme, s: Store, t: Text, attempts: seq<Attempt>, k: nat, j: nat, s1: Store)
    requires k <= j < |attempts|
    decreases j - k
  {
    if k == j then MetStore(s, attempts[k]) == s1 && !TipMoves(h, s, t, attempts[k])
    else TipMoves(h, s, t, attempts[k]) && FirstStill(h, MetStore(s, attempts[k]), t, attempts, k + 1, j, s1)
  }

  /** The call appended to `s1` with what attempt `a` brought, linked to the tip of `s1`. */
  ghost predicate AppendedTo(h: Scheme, s1: Store, r: Request, a: Attempt, result: CallResult) {
    var input := InputFor(h, r, CurrentTip(h, s1, r.entryType), a.timestamp, a.payload);
    && Indexed(s1)
    && result == CallResult(Append(s1, input, a.id, a.outboxId), Success(ReceiptOf(NewEntry(s1, input, a.id))), false)
  }

  /** One attempt: it appends if the tip stays, else hands over to the next attempt, and the last one halts. */
  lemma RetryStep(h: Scheme, s: Store, r: Request, w: Surroundings, k: nat)
    requires |w.attempts| == MAX_ATTEMPTS && k < MAX_ATTEMPTS && h.genesis != []
    requires Indexed(s) && AttemptFresh(s, w.attempts[k])
    ensures var s1, result := MetStore(s, w.attempts[k]), Retry(h, s, r, w, k);
      && Indexed(s1)
      && (if !TipMoves(h, s, r.entryType, w.attempts[k]) then AppendedTo(h, s1, r, w.attempts[k], result)
          else if k + 1 < MAX_ATTEMPTS then result == Retry(h, s1, r, w, k + 1)
          else result == CallResult(Disturbed(s1, w.late), Failure(Internal), true))
  {
    var a := w.attempts[k];
    DisturbedIndexed(s, a.before);
    DisturbedIndexed(ReadStore(s, a), a.foreign);
    AcceptedIffTipUnmoved(h, ReadStore(s, a), MetStore(s, a), r, a.timestamp, a.payload);
  }

  /** What the attempts from `k` on amount to, given which of them is the first to find the tip still. */
  ghost predicate Explains(h: Scheme, s: Store, r: Request, attempts: seq<Attempt>, k: nat, j: nat, s1: Store,
                           result: CallResult)
    requires k <= j < |attempts|
  {
    && (result.halts <==> TipAlwaysMoves(h, s, r.entryType, attempts, k))
    && (result.halts ==> result.outcome == Failure(Internal))
    && (!result.halts ==> FirstStill(h, s, r.entryType, attempts, k, j, s1) && AppendedTo(h, s1, r, attempts[j], result))
  }

  lemma ExplainsEarlier(h: Scheme, s: Store, r: Request, attempts: seq<Attempt>, k: nat, j: nat, s1: Store,
                        result: CallResult)
    requires k < j < |attempts| && TipMoves(h, s, r.entryType, attempts[k])
    requires Explains(h, MetStore(s, attempts[k]), r, attempts, k + 1, j, s1, result)
    ensures Explains(h, s, r, attempts, k, j, s1, result)
  {}

  /** The steps of every attempt from `k` on, as `RetryStep` has them. */
  ghost predicate Steps(h: Scheme, s: Store, r: Request, w: Surroundings, k: nat, result: CallResult)
    requires k < |w.attempts|
    decreases |w.attempts| - k
  {
    var s1 := MetStore(s, w.attempts[k]);
    if !TipMoves(h, s, r.entryType, w.attempts[k]) then AppendedTo(h, s1, r, w.attempts[k], result)
    else if k + 1 < |w.attempts| then Steps(h, s1, r, w, k + 1, result)
    else result == CallResult(Disturbed(s1, w.late), Failure(Internal), true)
  }

  lemma {:induction false} RetrySteps(h: Scheme, s: Store, r: Request, w: Surroundings, k: nat)
    requires |w.attempts| == MAX_ATTEMPTS && k < MAX_ATTEMPTS && h.genesis != []
    requires Indexed(s) && AttemptsFresh(s, w.attempts, k)
    ensures Steps(h, s, r, w, k, Retry(h, s, r, w, k))
    decreases MAX_ATTEMPTS - k
  {
    RetryStep(h, s, r, w, k);
    if TipMoves(h, s, r.entryType, w.attempts[k]) && k + 1 < MAX_ATTEMPTS {
      RetrySteps(h, MetStore(s, w.attempts[k]), r, w, k + 1);
    }
  }

  lemma {:induction false} StepsExplain(h: Scheme, s: Store, r: Request, w: Surroundings, k: nat, result: CallResult)
    returns (j: nat, s1: Store)
    requires k < |w.attempts| && Steps(h, s, r, w, k, result)
    ensures k <= j < |w.attempts| && Explains(h, s, r, w.attempts, k, j, s1, result)
    decreases |w.attempts| - k
  {
    j, s1 := k, MetStore(s, w.attempts[k]);
    if TipMoves(h, s, r.entryType, w.attempts[k]) && k + 1 < |w.attempts| {
      j, s1 := StepsExplain(h, s1, r, w, k + 1, result);
      ExplainsEarlier(h, s, r, w.attempts, k, j, s1, result);
    }
  }

  /**
   The retry loop halts exactly if the tip moved during every attempt; otherwise it appends, at the first attempt during
   which it did not, a record linked to the tip of that moment.
   */
  lemma RetryExact(h: Scheme, s: Store, r: Request, w: Surroundings, k: nat) returns (j: nat, s1: Store)
    requires |w.attempts| == MAX_ATTEMPTS && k < MAX_ATTEMPTS && h.genesis != []
    requires Indexed(s) && AttemptsFresh(s, w.attempts, k)
    ensures k <= j < MAX_ATTEMPTS && Explains(h, s, r, w.attempts, k, j, s1, Retry(h, s, r, w, k))
  {
    RetrySteps(h, s, r, w, k);
    j, s1 := StepsExplain(h, s, r, w, k, Retry(h, s, r, w, k));
  }

  /******* Calls that do not overlap *******/

  datatype Solo = Solo(request: Request, attempt: Attempt)

  /** The effect of a call nobody disturbs, on a ledger with no halted chain. */
  function Alone(h: Scheme, maxContent: nat, s: Store, c: Solo): CallResult {
    var r, a := c.request, c.attempt;
    if !Valid(maxContent, r) then CallResult(s, Failure(InvalidArgument), false)
    else
      var found := LookedUp(s, r);
      if found.Some? then CallResult(s, Success(ReceiptOf(found.value)), false)
      else
        var input := InputFor(h, r, CurrentTip(h, s, r.entryType), a.timestamp, a.payload);
        CallResult(Append(s, input, a.id, a.outboxId), Success(ReceiptOf(NewEntry(s, input, a.id))), false)
  }

  /** Undisturbed at its first attempt, a call neither retries nor halts. */
  lemma UndisturbedIsAlone(h: Scheme, maxContent: nat, s: Store, r: Request, w: Surroundings)
    requires |w.attempts| == MAX_ATTEMPTS && Indexed(s) && h.genesis != []
    requires w.early == [] && w.attempts[0].before == [] && w.attempts[0].foreign == []
    ensures WriteCall(h, maxContent, s, {}, r, w) == Alone(h, maxContent, s, Solo(r, w.attempts[0]))
  {
    var a := w.attempts[0];
    CurrentTipAccepted(h, s, InputFor(h, r, CurrentTip(h, s, r.entryType), a.timestamp, a.payload));
  }

  /** The store after the first `i` calls of the run. */
  function StoreAt(h: Scheme, maxContent: nat, calls: seq<Solo>, i: nat): Store
    requires i <= |calls|
  {
    if i == 0 then EMPTY_STORE else Alone(h, maxContent, StoreAt(h, maxContent, calls, i - 1), calls[i - 1]).store
  }

  /** What call `i` of the run answers. */
  function Answer(h: Scheme, maxContent: nat, calls: seq<Solo>, i: nat): Result<Receipt, ServiceError>
    requires i < |calls|
  {
    Alone(h, maxContent, StoreAt(h, maxContent, calls, i), calls[i]).outcome
  }

  /** Every call uses identifiers that are new when it is made. */
  ghost predicate FreshIds(h: Scheme, maxContent: nat, calls: seq<Solo>) {
    forall i {:trigger FreshAt(h, maxContent, calls, i)} :: 0 <= i < |calls| ==> FreshAt(h, maxContent, calls, i)
  }

  ghost predicate FreshAt(h: Scheme, maxContent: nat, calls: seq<Solo>, i: nat)
    requires i < |calls|
  {
    && calls[i].attempt.id !in StoreAt(h, maxContent, calls, i).entries
    && calls[i].attempt.outboxId !in StoreAt(h, maxContent, calls, i).outbox
  }

  /** Runs without overlap keep the maps consistent: in particular the key index agrees with a scan of each chain. */
  lemma {:induction false} AloneWellFormed(h: Scheme, maxContent: nat, calls: seq<Solo>, i: nat)
    requires FreshIds(h, maxContent, calls) && i <= |calls|
    ensures WellFormed(StoreAt(h, maxContent, calls, i))
  {
    if i == 0 {
      EmptyWellFormed();
    } else {
      AloneWellFormed(h, maxContent, calls, i - 1);
      assert FreshAt(h, maxContent, calls, i - 1);
      var s, c := StoreAt(h, maxContent, calls, i - 1), calls[i - 1];
      var input := InputFor(h, c.request, CurrentTip(h, s, c.request.entryType), c.attempt.timestamp, c.attempt.payload);
      AppendWellFormed(s, input, c.attempt.id, c.attempt.outboxId);
    }
  }

  /** Once the index knows a key, a call keeps the answer, whatever it writes. */
  lemma KeyKept(h: Scheme, maxContent: nat, s: Store, c: Solo, t: Text, k: Text)
    requires FindIdempotent(s, t, k).Some? && c.attempt.id !in s.entries
    ensures FindIdempotent(Alone(h, maxContent, s, c).store, t, k) == FindIdempotent(s, t, k)
  {}

  lemma {:induction false} KeyKeptByRun(h: Scheme, maxContent: nat, calls: seq<Solo>, i: nat, j: nat, t: Text, k: Text)
    requires FreshIds(h, maxContent, calls) && i <= j <= |calls|
    requires FindIdempotent(StoreAt(h, maxContent, calls, i), t, k).Some?
    ensures FindIdempotent(StoreAt(h, maxContent, calls, j), t, k) == FindIdempotent(StoreAt(h, maxContent, calls, i), t, k)
    decreases j
  {
    if i < j {
      KeyKeptByRun(h, maxContent, calls, i, j - 1, t, k);
      assert FreshAt(h, maxContent, calls, j - 1);
      KeyKept(h, maxContent, StoreAt(h, maxContent, calls, j - 1), calls[j - 1], t, k);
    }
  }

  /** A successful call with a key leaves the index answering its receipt. */
  lemma KeyRecorded(h: Scheme, maxContent: nat, s: Store, c: Solo)
    requires Alone(h, maxContent, s, c).outcome.Success? && c.request.idempotencyKey.Some?
    ensures var result := Alone(h, maxContent, s, c);
      var found := FindIdempotent(result.store, c.request.entryType, c.request.idempotencyKey.value);
      found.Some? && result.outcome == Success(ReceiptOf(found.value))
  {}

  /**
   In runs without overlap, two successful writes with the same type and key give the same receipt, and the
   later one leaves the store as it was.
   */
  lemma IdempotentReplay(h: Scheme, maxContent: nat, calls: seq<Solo>, i: nat, j: nat)
    requires FreshIds(h, maxContent, calls) && i < j < |calls|
    requires calls[i].request.entryType == calls[j].request.entryType
    requires calls[i].request.idempotencyKey == calls[j].request.idempotencyKey && calls[i].request.idempotencyKey.Some?
    requires Answer(h, maxContent, calls, i).Success? && Answer(h, maxContent, calls, j).Success?
    ensures Answer(h, maxContent, calls, i) == Answer(h, maxContent, calls, j)
    ensures StoreAt(h, maxContent, calls, j + 1) == StoreAt(h, maxContent, calls, j)
  {
    var t, k := calls[i].request.entryType, calls[i].request.idempotencyKey.value;
    KeyRecorded(h, maxContent, StoreAt(h, maxContent, calls, i), calls[i]);
    KeyKeptByRun(h, maxContent, calls, i + 1, j, t, k);
  }
}
