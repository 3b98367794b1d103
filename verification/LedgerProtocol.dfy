/**
 Concurrent writers over the ledger (s0/immutable-ledger/src/service/mod.rs, `write_entry_impl`,
 `start_outbox_processor` and `publish_one`).

 Any number of calls run at once. Each repository or halt-set access is one atomic step, because it
 happens under one lock; steps of different calls interleave freely. A run is the list of the steps
 taken, so everything below is stated for every list of actions that can be carried out.
 Timestamps, UUIDs, event payloads and publish outcomes are part of the actions.
 */
module LedgerProtocol {
  import opened Wrappers
  import opened LedgerCrypto
  import opened LedgerRepository
  import opened LedgerVerifier

  const MAX_ATTEMPTS: nat := 5

  /******* Requests *******/

  /** `WriteEntryInput`. */
  datatype Request = Request(
    entryType: Text,
    agentId: Text,
    content: Text,
    contentType: Text,
    sourceId: Text,
    correlationId: Option<Text>,
    idempotencyKey: Option<Text>)

  /** `WriteEntryOutput`. */
  datatype Receipt = Receipt(id: nat, hash: Text, position: int, timestamp: int)

  datatype ServiceError = InvalidArgument | Unavailable | Internal

  predicate Valid(maxContent: nat, r: Request) {
    r.entryType != [] && r.agentId != [] && r.contentType != [] && r.sourceId != [] && |r.content| <= maxContent
  }

  function ReceiptOf(e: Entry): Receipt {
    Receipt(e.id, e.entryHash, e.position, e.timestamp)
  }

  /** The hash a writer links to: the tip's, or the genesis hash of an empty chain. */
  function CurrentTip(h: Scheme, s: Store, t: Text): Text {
    if t in s.tips then s.tips[t].hash else h.genesis
  }

  /** The write a call submits after reading `tip`. */
  function InputFor(h: Scheme, r: Request, tip: Text, timestamp: int, payload: Text): WriteInput {
    WriteInput(r.entryType, r.agentId, r.content, r.contentType, r.sourceId, r.correlationId, r.idempotencyKey,
               h.hash(Body(r.entryType, r.agentId, r.content, r.contentType, r.sourceId, timestamp, tip)),
               tip, timestamp, payload)
  }

  /******* States and actions *******/

  datatype Phase =
    | Admitted                                    // validated and not halted; the key is still to be looked up
    | Seeking(attempt: nat)                       // about to read the tip
    | Holding(attempt: nat, tip: Text)            // has read the tip, about to append
    | Halting                                     // fifth refusal, about to halt the chain
    | Finished(outcome: Result<Receipt, ServiceError>)

  datatype Call = Call(request: Request, phase: Phase)

  /** `queue`, `sent` and `published` belong to the outbox processor and its publisher. */
  datatype System = System(
    store: Store,
    halted: set<Text>,
    calls: map<nat, Call>,
    queue: seq<OutboxRecord>,
    sent: Option<OutboxRecord>,
    published: seq<OutboxRecord>)

  const INITIAL := System(EMPTY_STORE, {}, map[], [], None, [])

  datatype Action =
    | Begin(call: nat, request: Request)
    | LookUp(call: nat)
    | ReadTip(call: nat)
    | Commit(call: nat, timestamp: int, id: nat, outboxId: nat, payload: Text)
    | Halt(call: nat)
    | Poll(batch: seq<OutboxRecord>)
    | Publish(ok: bool)
    | MarkSent

  function Move(s: System, c: nat, phase: Phase): System
    requires c in s.calls
  {
    s.(calls := s.calls[c := s.calls[c].(phase := phase)])
  }

  predicate InPhase(s: System, c: nat, attempting: bool) {
    c in s.calls && if attempting then s.calls[c].phase.Holding? else s.calls[c].phase.Seeking?
  }

  function DoBegin(maxContent: nat, s: System, c: nat, r: Request): System {
    var phase :=
      if !Valid(maxContent, r) then Finished(Failure(InvalidArgument))
      else if r.entryType in s.halted then Finished(Failure(Unavailable))
      else Admitted;
    s.(calls := s.calls[c := Call(r, phase)])
  }

  function DoLookUp(s: System, c: nat): System
    requires c in s.calls
  {
    var r := s.calls[c].request;
    var found := if r.idempotencyKey.Some? then FindIdempotent(s.store, r.entryType, r.idempotencyKey.value) else None;
    Move(s, c, if found.Some? then Finished(Success(ReceiptOf(found.value))) else Seeking(0))
  }

  function DoCommit(h: Scheme, s: System, a: Action): System
    requires a.Commit? && InPhase(s, a.call, true)
  {
    var c := a.call;
    var attempt, input := s.calls[c].phase.attempt, CommitInput(h, s, a);
    if Accepts(s.store, input) then
      Move(s, c, Finished(Success(ReceiptOf(NewEntry(s.store, input, a.id)))))
      .(store := Append(s.store, input, a.id, a.outboxId))
    else
      Move(s, c, if attempt + 1 < MAX_ATTEMPTS then Seeking(attempt + 1) else Halting)
  }

  function CommitInput(h: Scheme, s: System, a: Action): WriteInput
    requires a.Commit? && InPhase(s, a.call, true)
  {
    InputFor(h, s.calls[a.call].request, s.calls[a.call].phase.tip, a.timestamp, a.payload)
  }

  /** The batch lists every pending record once, in some order. */
  predicate Enumerates(outbox: map<nat, OutboxRecord>, batch: seq<OutboxRecord>) {
    && (forall r :: r in batch ==> r.id in outbox && outbox[r.id] == r && r.status == Pending)
    && (forall o :: o in outbox && outbox[o].status == Pending ==> outbox[o] in batch)
    && (forall i, j :: 0 <= i < j < |batch| ==> batch[i] != batch[j])
  }

  /** Can the action be taken? New calls, entries and outbox records get fresh identifiers. */
  predicate Enabled(s: System, a: Action) {
    match a
    case Begin(c, _) => c !in s.calls
    case LookUp(c) => c in s.calls && s.calls[c].phase.Admitted?
    case ReadTip(c) => InPhase(s, c, false)
    case Commit(c, _, id, outboxId, _) => InPhase(s, c, true) && id !in s.store.entries && outboxId !in s.store.outbox
    case Halt(c) => c in s.calls && s.calls[c].phase.Halting?
    case Poll(batch) => s.queue == [] && s.sent.None? && Enumerates(s.store.outbox, batch)
    case Publish(_) => s.queue != [] && s.sent.None?
    case MarkSent => s.sent.Some?
  }

  function Step(h: Scheme, maxContent: nat, s: System, a: Action): System
    requires Enabled(s, a)
  {
    match a
    case Begin(c, r) => DoBegin(maxContent, s, c, r)
    case LookUp(c) => DoLookUp(s, c)
    case ReadTip(c) =>
      Move(s, c, Holding(s.calls[c].phase.attempt, CurrentTip(h, s.store, s.calls[c].request.entryType)))
    case Commit(_, _, _, _, _) => DoCommit(h, s, a)
    case Halt(c) => Move(s, c, Finished(Failure(Internal))).(halted := s.halted + {s.calls[c].request.entryType})
    case Poll(batch) => s.(queue := batch)
    case Publish(ok) =>
      if ok then s.(queue := s.queue[1..], sent := Some(s.queue[0]),
                    published := s.published + [s.queue[0]])
      else s.(queue := s.queue[1..])
    case MarkSent => s.(store := MarkDelivered(s.store, s.sent.value.id), sent := None)
  }

  /** The state after a run, if every action could be taken. */
  function Exec(h: Scheme, maxContent: nat, run: seq<Action>): Option<System> {
    if run == [] then Some(INITIAL)
    else
      var before := Exec(h, maxContent, run[..|run| - 1]);
      if before.Some? && Enabled(before.value, run[|run| - 1])
      then Some(Step(h, maxContent, before.value, run[|run| - 1]))
      else None
  }

  /******* Safety: the chains *******/

  ghost predicate ChainsGood(h: Scheme, s: Store) {
    forall t :: GoodChain(h, t, Chain(s, t))
  }

  /** Whoever read an empty chain holds the genesis hash as long as the chain is empty. */
  ghost predicate TipsHeld(h: Scheme, s: System) {
    forall c :: c in s.calls && s.calls[c].phase.Holding? && s.calls[c].request.entryType !in s.store.tips ==>
      s.calls[c].phase.tip == h.genesis
  }

  /** A call is rejected as invalid exactly for a missing field or too much content, and otherwise exactly on a halted type. */
  lemma BeginExact(h: Scheme, maxContent: nat, s: System, c: nat, r: Request)
    requires c !in s.calls
    ensures var s' := Step(h, maxContent, s, Begin(c, r));
      && s' == s.(calls := s'.calls) && s'.calls.Keys == s.calls.Keys + {c} && s'.calls[c].request == r
      && (forall d :: d in s.calls ==> s'.calls[d] == s.calls[d])
      && s'.calls[c].phase ==
         if |r.entryType| == 0 || |r.agentId| == 0 || |r.contentType| == 0 || |r.sourceId| == 0 || |r.content| > maxContent
         then Finished(Failure(InvalidArgument))
         else if r.entryType in s.halted then Finished(Failure(Unavailable)) else Admitted
  {}

  /** Entry `i` of the chain is the latest with the key. */
  ghost predicate LatestWith(chain: seq<Entry>, key: Text, i: nat) {
    i < |chain| && chain[i].idempotencyKey == Some(key) && forall j :: i < j < |chain| ==> chain[j].idempotencyKey != Some(key)
  }

  lemma {:induction false} ScanLatest(chain: seq<Entry>, key: Text, i: nat)
    requires LatestWith(chain, key, i)
    ensures ScanForKey(chain, key) == Some(chain[i])
  {
    if i < |chain| - 1 {
      ScanLatest(chain[..|chain| - 1], key, i);
    }
  }

  lemma {:induction false} ScanNone(chain: seq<Entry>, key: Text)
    requires forall i :: 0 <= i < |chain| ==> chain[i].idempotencyKey != Some(key)
    ensures ScanForKey(chain, key) == None
  {
    if chain != [] {
      ScanNone(chain[..|chain| - 1], key);
    }
  }

  /** A lookup answers with the latest entry of the type that carries the key, and goes on exactly if there is none. */
  lemma LookUpExact(h: Scheme, maxContent: nat, s: System, c: nat, key: Text, i: nat)
    requires IdempotencyAgrees(s.store) && Enabled(s, LookUp(c)) && s.calls[c].request.idempotencyKey == Some(key)
    ensures var chain, s' := Chain(s.store, s.calls[c].request.entryType), Step(h, maxContent, s, LookUp(c));
      && s'.store == s.store
      && (LatestWith(chain, key, i) ==>
            s'.calls[c].phase == Finished(Success(Receipt(chain[i].id, chain[i].entryHash, chain[i].position, chain[i].timestamp))))
      && ((forall j :: 0 <= j < |chain| ==> chain[j].idempotencyKey != Some(key)) ==> s'.calls[c].phase == Seeking(0))
  {
    var t := s.calls[c].request.entryType;
    assert FindIdempotent(s.store, t, key) == ScanForKey(Chain(s.store, t), key);
    if LatestWith(Chain(s.store, t), key, i) {
      ScanLatest(Chain(s.store, t), key, i);
    }
    if forall j :: 0 <= j < |Chain(s.store, t)| ==> Chain(s.store, t)[j].idempotencyKey != Some(key) {
      ScanNone(Chain(s.store, t), key);
    }
  }

  /** An accepted append extends a good chain by a good record. */
  lemma AppendGood(h: Scheme, s: Store, r: Request, tip: Text, timestamp: int, payload: Text, id: nat, outboxId: nat)
    requires Indexed(s) && ChainsGood(h, s) && id !in s.entries
    requires r.entryType !in s.tips ==> tip == h.genesis
    requires Accepts(s, InputFor(h, r, tip, timestamp, payload))
    ensures ChainsGood(h, Append(s, InputFor(h, r, tip, timestamp, payload), id, outboxId))
  {
    var input := InputFor(h, r, tip, timestamp, payload);
    var s', e := Append(s, input, id, outboxId), NewEntry(s, input, id);
    forall t
      ensures GoodChain(h, t, Chain(s', t))
    {
      AppendChains(s, input, id, outboxId, t);
      var es, es' := Chain(s, t), Chain(s', t);
      assert GoodChain(h, t, es);
      if t == r.entryType {
        ChainElements(s, t);
        ExtendGood(h, t, es, e);
      }
    }
  }

  /**
   What one successful append does: the request's own fields become the last record of its chain, linked to the record
   before it; no other chain changes; and exactly one pending outbox record is added.
   */
  lemma CommitRecords(h: Scheme, maxContent: nat, s: System, a: Action, t: Text)
    requires Indexed(s.store) && TipsHeld(h, s) && Enabled(s, a) && a.Commit? && Accepts(s.store, CommitInput(h, s, a))
    ensures var r, chain, s' := s.calls[a.call].request, Chain(s.store, t), Step(h, maxContent, s, a);
      if t != r.entryType then Chain(s'.store, t) == chain
      else
        var previous := if chain == [] then h.genesis else chain[|chain| - 1].entryHash;
        var hash := h.hash(Body(t, r.agentId, r.content, r.contentType, r.sourceId, a.timestamp, previous));
        && Chain(s'.store, t) == chain + [Entry(a.id, t, r.agentId, r.content, r.contentType, r.sourceId, r.correlationId,
                                                r.idempotencyKey, hash, previous, |chain| + 1, a.timestamp)]
        && s'.calls[a.call].phase == Finished(Success(Receipt(a.id, hash, |chain| + 1, a.timestamp)))
        && s'.store.outbox == s.store.outbox[a.outboxId := OutboxRecord(a.outboxId, a.id, t, a.payload, Pending, 0)]
  {
    AppendChains(s.store, CommitInput(h, s, a), a.id, a.outboxId, t);
    ChainElements(s.store, t);
  }

  lemma ExtendGood(h: Scheme, t: Text, es: seq<Entry>, e: Entry)
    requires GoodChain(h, t, es)
    requires e.position == |es| + 1 && e.entryType == t && e.entryHash == h.hash(BodyOf(e))
    requires e.previousHash == if es == [] then h.genesis else es[|es| - 1].entryHash
    ensures GoodChain(h, t, es + [e])
  {
    var es' := es + [e];
    forall i | 0 <= i < |es'|
      ensures GoodRecord(h, t, es', i)
    {
      assert i < |es| ==> GoodRecord(h, t, es, i);
    }
  }

  lemma MarkKeepsChains(h: Scheme, s: Store, outboxId: nat)
    requires ChainsGood(h, s)
    ensures ChainsGood(h, MarkDelivered(s, outboxId))
  {
    forall t
      ensures GoodChain(h, t, Chain(MarkDelivered(s, outboxId), t))
    {
      assert GoodChain(h, t, Chain(s, t));
    }
  }

  lemma StepTipsHeld(h: Scheme, maxContent: nat, s: System, a: Action)
    requires TipsHeld(h, s) && Enabled(s, a)
    ensures TipsHeld(h, Step(h, maxContent, s, a))
  {}

  lemma StepSafe(h: Scheme, maxContent: nat, s: System, a: Action)
    requires WellFormed(s.store) && ChainsGood(h, s.store) && TipsHeld(h, s) && Enabled(s, a)
    ensures WellFormed(Step(h, maxContent, s, a).store) && ChainsGood(h, Step(h, maxContent, s, a).store)
  {
    if a.Commit? && Accepts(s.store, CommitInput(h, s, a)) {
      AppendWellFormed(s.store, CommitInput(h, s, a), a.id, a.outboxId);
      AppendGood(h, s.store, s.calls[a.call].request, s.calls[a.call].phase.tip, a.timestamp, a.payload, a.id, a.outboxId);
    } else if a.MarkSent? {
      MarkDeliveredWellFormed(s.store, s.sent.value.id);
      MarkKeepsChains(h, s.store, s.sent.value.id);
    }
  }

  /** Every reachable ledger: consistent maps, and for every type a chain that is good in the sense of `GoodChain`. */
  lemma {:induction false} RunSafe(h: Scheme, maxContent: nat, run: seq<Action>)
    requires Exec(h, maxContent, run).Some?
    ensures var s := Exec(h, maxContent, run).value;
      WellFormed(s.store) && ChainsGood(h, s.store) && TipsHeld(h, s)
  {
    if run == [] {
      EmptyWellFormed();
    } else {
      RunSafe(h, maxContent, run[..|run| - 1]);
      StepSafe(h, maxContent, Exec(h, maxContent, run[..|run| - 1]).value, run[|run| - 1]);
      StepTipsHeld(h, maxContent, Exec(h, maxContent, run[..|run| - 1]).value, run[|run| - 1]);
    }
  }

  lemma RunIndexed(h: Scheme, maxContent: nat, run: seq<Action>)
    requires Exec(h, maxContent, run).Some?
    ensures Indexed(Exec(h, maxContent, run).value.store)
  {
    RunSafe(h, maxContent, run);
  }

  /** Whatever the interleaving, the full-range check accepts every chain and counts all its entries. */
  lemma ReachableChainsVerify(h: Scheme, maxContent: nat, run: seq<Action>, t: Text)
    requires Exec(h, maxContent, run).Some?
    ensures var chain := Chain(Exec(h, maxContent, run).value.store, t);
      && GoodChain(h, t, chain)
      && Verdict(h, chain, None, None) == Success(ChainReport(true, |chain|, None, NoFailure))
  {
    RunSafe(h, maxContent, run);
    GoodChainAccepted(h, t, Chain(Exec(h, maxContent, run).value.store, t));
  }

  lemma ReachableIntact(h: Scheme, maxContent: nat, run: seq<Action>, t: Text)
    requires Exec(h, maxContent, run).Some?
    ensures var s := Exec(h, maxContent, run).value.store;
      Indexed(s) && GoodChain(h, t, Chain(s, t))
  {
    RunSafe(h, maxContent, run);
  }

  /**
   The verdict of the full check on every reachable ledger with one record replaced by any other at its position, and
   exactly which replacements it sees.
   */
  lemma ReachableAlterationExact(H: Digest, genesis: Text, maxContent: nat, run: seq<Action>, id: nat, e': Entry)
    requires Exec(Canonical(H, genesis), maxContent, run).Some?
    requires var s := Exec(Canonical(H, genesis), maxContent, run).value.store;
      id in s.entries && e'.position == s.entries[id].position
    ensures Assessed(H, genesis, Exec(Canonical(H, genesis), maxContent, run).value.store, id, e')
  {
    var s := Exec(Canonical(H, genesis), maxContent, run).value.store;
    ReachableIntact(Canonical(H, genesis), maxContent, run, s.entries[id].entryType);
    StoreAlterationExact(H, genesis, s, id, e');
  }

  /** The records of a reachable chain are numbered from 1 on, each with its own id. */
  lemma ReachableNumbered(h: Scheme, maxContent: nat, run: seq<Action>, t: Text)
    requires Exec(h, maxContent, run).Some?
    ensures Numbered(Chain(Exec(h, maxContent, run).value.store, t))
  {
    RunIndexed(h, maxContent, run);
    IndexedNumbered(Exec(h, maxContent, run).value.store, t);
  }

  lemma IndexedNumbered(s: Store, t: Text)
    requires Indexed(s)
    ensures Numbered(Chain(s, t))
  {
    ChainElements(s, t);
    var chain := Chain(s, t);
    forall i | 0 <= i < |chain|
      ensures chain[i].id == Ids(s, t)[i] && chain[i].position == i + 1
    {
      assert Listed(s.entries[Ids(s, t)[i]], Ids(s, t)[i], s.ordered);
    }
    forall i | 0 <= i < |chain|
      ensures PlacedAt(chain, i) && FirstWith(chain, chain[i].id, i)
    {
      assert forall j :: 0 <= j < i ==> chain[j].position == j + 1;
    }
  }

  /** Every bounded check of every reachable chain accepts and counts what lies between the bounds. */
  lemma ReachableWindowsVerify(h: Scheme, maxContent: nat, run: seq<Action>, t: Text, i: nat, j: nat)
    requires Exec(h, maxContent, run).Some? && i <= j < |Chain(Exec(h, maxContent, run).value.store, t)|
    ensures var chain := Chain(Exec(h, maxContent, run).value.store, t);
      Verdict(h, chain, Some(chain[i].id), Some(chain[j].id)) == Success(ChainReport(true, j - i + 1, None, NoFailure))
  {
    ReachableIntact(h, maxContent, run, t);
    ReachableNumbered(h, maxContent, run, t);
    GoodWindowAccepted(h, t, Chain(Exec(h, maxContent, run).value.store, t), i, j);
  }

  /** The verdict of every bounded check on a reachable chain with one record replaced by any other with its id and position. */
  lemma ReachableWindowAlteration(h: Scheme, maxContent: nat, run: seq<Action>, t: Text, i: nat, j: nat, k: nat, e': Entry)
    requires Exec(h, maxContent, run).Some? && i <= k <= j < |Chain(Exec(h, maxContent, run).value.store, t)|
    requires var e := Chain(Exec(h, maxContent, run).value.store, t)[k]; e'.id == e.id && e'.position == e.position
    ensures var chain := Chain(Exec(h, maxContent, run).value.store, t);
      Verdict(h, chain[k := e'], Some(chain[i].id), Some(chain[j].id)) == Success(WindowReport(h, chain, i, j, k, e'))
  {
    ReachableIntact(h, maxContent, run, t);
    ReachableNumbered(h, maxContent, run, t);
    WindowAlterationExact(h, t, Chain(Exec(h, maxContent, run).value.store, t), i, j, k, e');
  }

  /** Tampering with one record of a reachable ledger is pinned on that record, or exhibits a collision. */
  lemma ReachableTamperPinpointed(H: Digest, genesis: Text, maxContent: nat, run: seq<Action>, id: nat, e': Entry)
    requires Exec(Canonical(H, genesis), maxContent, run).Some?
    requires var s := Exec(Canonical(H, genesis), maxContent, run).value.store;
      id in s.entries && Tampered(s.entries[id], e')
    ensures var s := Exec(Canonical(H, genesis), maxContent, run).value.store;
      && s.entries[id].position >= 1 && s.entries[id].id == id
      && BlamedOrCollides(H, genesis, Chain(Altered(s, id, e'), s.entries[id].entryType),
                          s.entries[id].position - 1, s.entries[id], e')
  {
    var s := Exec(Canonical(H, genesis), maxContent, run).value.store;
    ReachableIntact(Canonical(H, genesis), maxContent, run, s.entries[id].entryType);
    TamperedStorePinpointed(H, genesis, s, id, e');
  }

  /**
   Two reachable ledgers over one genesis input whose chains end in the same hash have, in those chains, equally many
   records with the same hashed bytes, or two inputs hashed for them, at the returned places, collide.
   */
  lemma ReachableTipCommits(H: Digest, genesis: Text, maxContent: nat, run: seq<Action>, t: Text, run': seq<Action>, t': Text)
    returns (x: nat, y: nat)
    requires HexDigest(H) && |genesis| < 64
    requires Exec(Canonical(H, genesis), maxContent, run).Some? && Exec(Canonical(H, genesis), maxContent, run').Some?
    requires var s, s' := Exec(Canonical(H, genesis), maxContent, run).value.store, Exec(Canonical(H, genesis), maxContent, run').value.store;
      t in s.tips && t' in s'.tips && s.tips[t].hash == s'.tips[t'].hash
    ensures var s, s' := Exec(Canonical(H, genesis), maxContent, run).value.store, Exec(Canonical(H, genesis), maxContent, run').value.store;
      var a, b := BytesOf(Chain(s, t)), BytesOf(Chain(s', t'));
      a == b || CollideAcross(H, genesis, a, x, b, y)
  {
    var h := Canonical(H, genesis);
    ReachableTip(h, maxContent, run, t);
    ReachableTip(h, maxContent, run', t');
    x, y := TipCommits(H, genesis, Chain(Exec(h, maxContent, run).value.store, t), Chain(Exec(h, maxContent, run').value.store, t'));
  }

  lemma ReachableTip(h: Scheme, maxContent: nat, run: seq<Action>, t: Text)
    requires Exec(h, maxContent, run).Some? && t in Exec(h, maxContent, run).value.store.tips
    ensures var s := Exec(h, maxContent, run).value.store;
      && AcceptedFromGenesis(h, Chain(s, t))
      && s.tips[t].hash == Chain(s, t)[|Chain(s, t)| - 1].entryHash
  {
    RunSafe(h, maxContent, run);
    var s := Exec(h, maxContent, run).value.store;
    ChainElements(s, t);
    GoodChainAcceptedFromGenesis(h, t, Chain(s, t));
  }
}
