/**
 What a run never loses: entries, acknowledged receipts and outbox records
 (s0/immutable-ledger/src/service/mod.rs, `write_entry_impl` and `publish_one`).
 */
module LedgerDelivery {
  import opened Wrappers
  import opened LedgerCrypto
  import opened LedgerRepository
  import opened LedgerProtocol

  /******* The store only grows *******/

  /** A record moves from Pending to Delivered, if at all, and nothing else about it changes. */
  ghost predicate Advances(r: OutboxRecord, r': OutboxRecord) {
    r' == r || r' == r.(status := Delivered)
  }

  ghost predicate Grows(s: Store, s': Store) {
    && (forall id :: id in s.entries ==> id in s'.entries && s'.entries[id] == s.entries[id])
    && (forall t :: Chain(s, t) <= Chain(s', t))
    && (forall o :: o in s.outbox ==> o in s'.outbox && Advances(s.outbox[o], s'.outbox[o]))
  }

  lemma GrowsTransitive(s: Store, s': Store, s'': Store)
    requires Grows(s, s') && Grows(s', s'')
    ensures Grows(s, s'')
  {
    forall t
      ensures Chain(s, t) <= Chain(s'', t)
    {
      assert Chain(s, t) <= Chain(s', t) && Chain(s', t) <= Chain(s'', t);
    }
  }

  lemma AppendGrows(s: Store, input: WriteInput, id: nat, outboxId: nat)
    requires Indexed(s) && id !in s.entries && outboxId !in s.outbox
    ensures Grows(s, Append(s, input, id, outboxId))
  {
    forall t
      ensures Chain(s, t) <= Chain(Append(s, input, id, outboxId), t)
    {
      AppendChains(s, input, id, outboxId, t);
    }
  }

  lemma GrowsReflexive(s: Store)
    ensures Grows(s, s)
  {}

  lemma MarkGrows(s: Store, outboxId: nat)
    ensures Grows(s, MarkDelivered(s, outboxId))
  {}

  lemma StepGrows(h: Scheme, maxContent: nat, s: System, a: Action)
    requires Indexed(s.store) && Enabled(s, a)
    ensures Grows(s.store, Step(h, maxContent, s, a).store)
  {
    if a.Commit? && Accepts(s.store, CommitInput(h, s, a)) {
      AppendGrows(s.store, CommitInput(h, s, a), a.id, a.outboxId);
    } else if a.MarkSent? {
      MarkGrows(s.store, s.sent.value.id);
    } else {
      GrowsReflexive(s.store);
    }
  }

  /** Along every run entries are never altered, chains only extend, and outbox records only advance. */
  lemma {:induction false} RunGrows(h: Scheme, maxContent: nat, run: seq<Action>, more: seq<Action>)
    requires Exec(h, maxContent, run + more).Some?
    ensures Exec(h, maxContent, run).Some?
    ensures Grows(Exec(h, maxContent, run).value.store, Exec(h, maxContent, run + more).value.store)
  {
    if more == [] {
      assert run + more == run;
    } else {
      var init, all := more[..|more| - 1], run + more;
      assert all[..|all| - 1] == run + init;
      RunGrows(h, maxContent, run, init);
      RunSafe(h, maxContent, run + init);
      StepGrows(h, maxContent, Exec(h, maxContent, run + init).value, all[|all| - 1]);
      GrowsTransitive(Exec(h, maxContent, run).value.store, Exec(h, maxContent, run + init).value.store,
                      Exec(h, maxContent, all).value.store);
    }
  }

  /******* Receipts *******/

  /** The receipt describes a stored entry of the request's type and key. */
  ghost predicate Honoured(s: Store, r: Request, receipt: Receipt) {
    && receipt.id in s.entries
    && ReceiptOf(s.entries[receipt.id]) == receipt
    && s.entries[receipt.id].entryType == r.entryType
    && s.entries[receipt.id].idempotencyKey == r.idempotencyKey
  }

  ghost predicate CallHonoured(s: Store, call: Call) {
    call.phase.Finished? && call.phase.outcome.Success? ==> Honoured(s, call.request, call.phase.outcome.value)
  }

  ghost predicate ReceiptsHonoured(s: System) {
    forall c :: c in s.calls ==> CallHonoured(s.store, s.calls[c])
  }

  lemma {:induction false} ScanFinds(chain: seq<Entry>, key: Text)
    ensures var r := ScanForKey(chain, key);
      r.Some? ==> r.value in chain && r.value.idempotencyKey == Some(key)
  {
    if chain != [] {
      ScanFinds(chain[..|chain| - 1], key);
    }
  }

  lemma FoundIsHonoured(s: Store, r: Request)
    requires WellFormed(s) && r.idempotencyKey.Some?
    ensures var found := FindIdempotent(s, r.entryType, r.idempotencyKey.value);
      found.Some? ==> Honoured(s, r, ReceiptOf(found.value))
  {
    var t, k := r.entryType, r.idempotencyKey.value;
    var found := FindIdempotent(s, t, k);
    assert found == ScanForKey(Chain(s, t), k);
    ScanFinds(Chain(s, t), k);
    ChainElements(s, t);
    if found.Some? {
      var id := s.idempotency[(t, k)];
      assert Listed(s.entries[id], id, s.ordered);
      var i :| 0 <= i < |Chain(s, t)| && Chain(s, t)[i] == found.value;
      assert NumberedFromOne(s.entries, t, Ids(s, t));
    }
  }

  lemma HonouredGrows(s: Store, s': Store, r: Request, receipt: Receipt)
    requires Honoured(s, r, receipt) && Grows(s, s')
    ensures Honoured(s', r, receipt)
  {}

  /** A call that looks up its key or appends gets a receipt that is honoured. */
  lemma ActorHonoured(h: Scheme, maxContent: nat, s: System, a: Action)
    requires WellFormed(s.store) && Enabled(s, a) && (a.LookUp? || a.Commit?)
    ensures var s' := Step(h, maxContent, s, a);
      a.call in s'.calls && CallHonoured(s'.store, s'.calls[a.call])
  {
    if a.LookUp? && s.calls[a.call].request.idempotencyKey.Some? {
      FoundIsHonoured(s.store, s.calls[a.call].request);
    }
  }

  lemma StepHonours(h: Scheme, maxContent: nat, s: System, a: Action)
    requires WellFormed(s.store) && ReceiptsHonoured(s) && Enabled(s, a)
    ensures ReceiptsHonoured(Step(h, maxContent, s, a))
  {
    var s' := Step(h, maxContent, s, a);
    StepGrows(h, maxContent, s, a);
    if a.LookUp? || a.Commit? {
      ActorHonoured(h, maxContent, s, a);
    }
    forall c | c in s'.calls
      ensures CallHonoured(s'.store, s'.calls[c])
    {
      if c in s.calls && s'.calls[c] == s.calls[c] {
        assert CallHonoured(s.store, s.calls[c]);
      }
    }
  }

  lemma {:induction false} RunHonours(h: Scheme, maxContent: nat, run: seq<Action>)
    requires Exec(h, maxContent, run).Some?
    ensures ReceiptsHonoured(Exec(h, maxContent, run).value)
  {
    if run != [] {
      RunHonours(h, maxContent, run[..|run| - 1]);
      RunSafe(h, maxContent, run[..|run| - 1]);
      StepHonours(h, maxContent, Exec(h, maxContent, run[..|run| - 1]).value, run[|run| - 1]);
    }
  }

  lemma HonouredInChain(s: Store, r: Request, receipt: Receipt)
    requires Indexed(s) && Honoured(s, r, receipt)
    ensures Acknowledged(s, r, receipt)
  {
    var e := s.entries[receipt.id];
    assert Listed(e, receipt.id, s.ordered);
    ChainElements(s, e.entryType);
  }

  /** The receipt's entry stands in the chain at the receipt's position. */
  ghost predicate Acknowledged(s: Store, r: Request, receipt: Receipt) {
    && Honoured(s, r, receipt)
    && 1 <= receipt.position <= |Chain(s, r.entryType)|
    && Chain(s, r.entryType)[receipt.position - 1] == s.entries[receipt.id]
  }

  /** Once a write is acknowledged its entry stays, unaltered and at the acknowledged position, whatever happens next. */
  lemma AcknowledgedForever(h: Scheme, maxContent: nat, run: seq<Action>, more: seq<Action>, c: nat, receipt: Receipt)
    requires Exec(h, maxContent, run + more).Some? && Exec(h, maxContent, run).Some?
    requires c in Exec(h, maxContent, run).value.calls
    requires Exec(h, maxContent, run).value.calls[c].phase == Finished(Success(receipt))
    ensures Acknowledged(Exec(h, maxContent, run + more).value.store, Exec(h, maxContent, run).value.calls[c].request, receipt)
  {
    var s, s' := Exec(h, maxContent, run).value, Exec(h, maxContent, run + more).value.store;
    RunHonours(h, maxContent, run);
    assert CallHonoured(s.store, s.calls[c]);
    RunGrows(h, maxContent, run, more);
    HonouredGrows(s.store, s', s.calls[c].request, receipt);
    RunIndexed(h, maxContent, run + more);
    HonouredInChain(s', s.calls[c].request, receipt);
  }

  /******* Delivery *******/

  /** The publications of the record with identifier `o`, in order. */
  function Publications(published: seq<OutboxRecord>, o: nat): seq<OutboxRecord> {
    if published == [] then []
    else
      var last := published[|published| - 1];
      Publications(published[..|published| - 1], o) + if last.id == o then [last] else []
  }

  /** The record is delivered, or published and about to be marked so. */
  predicate IsOut(outbox: map<nat, OutboxRecord>, sent: Option<OutboxRecord>, o: nat) {
    o in outbox && (outbox[o].status == Delivered || (sent.Some? && sent.value.id == o))
  }

  /** The record was published once, as it was while pending, if it is out, and never otherwise. */
  ghost predicate PublishedAsDue(outbox: map<nat, OutboxRecord>, sent: Option<OutboxRecord>, published: seq<OutboxRecord>, o: nat) {
    Publications(published, o) == if IsOut(outbox, sent, o) then [outbox[o].(status := Pending)] else []
  }

  ghost predicate PublishedOnce(s: System) {
    forall o: nat {:trigger PublishedAsDue(s.store.outbox, s.sent, s.published, o)} ::
      PublishedAsDue(s.store.outbox, s.sent, s.published, o)
  }

  /** The record is stored as it is, and pending. */
  ghost predicate Waiting(outbox: map<nat, OutboxRecord>, r: OutboxRecord) {
    r.id in outbox && outbox[r.id] == r && r.status == Pending
  }

  /** The processor's records are pending, each listed once, the one just sent no longer among them. */
  ghost predicate QueueCurrent(outbox: map<nat, OutboxRecord>, sent: Option<OutboxRecord>, queue: seq<OutboxRecord>) {
    && (forall i :: 0 <= i < |queue| ==> Waiting(outbox, queue[i]))
    && (forall i, j :: 0 <= i < j < |queue| ==> queue[i].id != queue[j].id)
    && (sent.Some? ==> Waiting(outbox, sent.value) && forall i :: 0 <= i < |queue| ==> queue[i].id != sent.value.id)
  }

  /** Every record of the old outbox is kept, and new records are pending. */
  lemma AppendKeepsQueue(outbox: map<nat, OutboxRecord>, sent: Option<OutboxRecord>, queue: seq<OutboxRecord>, r: OutboxRecord)
    requires QueueCurrent(outbox, sent, queue) && r.id !in outbox
    ensures QueueCurrent(outbox[r.id := r], sent, queue)
  {}

  lemma MarkKeepsQueue(outbox: map<nat, OutboxRecord>, sent: OutboxRecord, queue: seq<OutboxRecord>)
    requires QueueCurrent(outbox, Some(sent), queue)
    ensures QueueCurrent(outbox[sent.id := sent.(status := Delivered)], None, queue)
  {}

  lemma StepQueue(h: Scheme, maxContent: nat, s: System, a: Action)
    requires QueueCurrent(s.store.outbox, s.sent, s.queue) && Enabled(s, a)
    ensures var s' := Step(h, maxContent, s, a); QueueCurrent(s'.store.outbox, s'.sent, s'.queue)
  {
    if a.Commit? && Accepts(s.store, CommitInput(h, s, a)) {
      var input := CommitInput(h, s, a);
      AppendKeepsQueue(s.store.outbox, s.sent, s.queue,
                       OutboxRecord(a.outboxId, a.id, input.entryType, input.payload, Pending, 0));
    } else if a.MarkSent? {
      MarkKeepsQueue(s.store.outbox, s.sent.value, s.queue);
    }
  }

  lemma PublishNext(s: System, r: OutboxRecord, o: nat)
    requires PublishedAsDue(s.store.outbox, None, s.published, o) && Waiting(s.store.outbox, r)
    ensures PublishedAsDue(s.store.outbox, Some(r), s.published + [r], o)
  {
    var all := s.published + [r];
    assert all[..|all| - 1] == s.published;
  }

  /** A mark makes the record that is out Delivered. */
  lemma MarkPublished(store: Store, r: OutboxRecord, published: seq<OutboxRecord>, o: nat)
    requires PublishedAsDue(store.outbox, Some(r), published, o) && Waiting(store.outbox, r)
    ensures PublishedAsDue(MarkDelivered(store, r.id).outbox, None, published, o)
  {}

  /** A new record has not been published yet. */
  lemma AppendPublishes(s: Store, input: WriteInput, id: nat, outboxId: nat, sent: Option<OutboxRecord>, published: seq<OutboxRecord>, o: nat)
    requires PublishedAsDue(s.outbox, sent, published, o) && outboxId !in s.outbox
    requires sent.Some? ==> Waiting(s.outbox, sent.value)
    ensures PublishedAsDue(Append(s, input, id, outboxId).outbox, sent, published, o)
  {}

  lemma StepPublishes(h: Scheme, maxContent: nat, s: System, a: Action, o: nat)
    requires QueueCurrent(s.store.outbox, s.sent, s.queue) && Enabled(s, a)
    requires PublishedAsDue(s.store.outbox, s.sent, s.published, o)
    ensures var s' := Step(h, maxContent, s, a); PublishedAsDue(s'.store.outbox, s'.sent, s'.published, o)
  {
    if a.Publish? && a.ok {
      PublishNext(s, s.queue[0], o);
    } else if a.MarkSent? {
      MarkPublished(s.store, s.sent.value, s.published, o);
    } else if a.Commit? {
      AppendPublishes(s.store, CommitInput(h, s, a), a.id, a.outboxId, s.sent, s.published, o);
    }
  }

  /**
   In every reachable state entries and outbox records correspond one to one, every record is Pending or Delivered, and
   a record was published exactly once, as it is stored, if it is Delivered or about to be marked so, and never otherwise.
   */
  lemma {:induction false} RunDelivers(h: Scheme, maxContent: nat, run: seq<Action>)
    requires Exec(h, maxContent, run).Some?
    ensures var s := Exec(h, maxContent, run).value;
      OutboxPaired(s.store) && PublishedOnce(s) && QueueCurrent(s.store.outbox, s.sent, s.queue)
  {
    RunSafe(h, maxContent, run);
    if run != [] {
      var init, a := run[..|run| - 1], run[|run| - 1];
      RunDelivers(h, maxContent, init);
      var s := Exec(h, maxContent, init).value;
      StepQueue(h, maxContent, s, a);
      forall o: nat
        ensures PublishedAsDue(Step(h, maxContent, s, a).store.outbox, Step(h, maxContent, s, a).sent,
                               Step(h, maxContent, s, a).published, o)
      {
        assert PublishedAsDue(s.store.outbox, s.sent, s.published, o);
        StepPublishes(h, maxContent, s, a, o);
      }
    }
  }

  /** The outbox with these records marked as delivered. */
  function AllMarked(outbox: map<nat, OutboxRecord>, batch: seq<OutboxRecord>): map<nat, OutboxRecord> {
    map o | o in outbox :: if exists r :: r in batch && r.id == o then outbox[o].(status := Delivered) else outbox[o]
  }

  /** The state after publishing and marking the first record of the queue. */
  function FirstOut(s: System): System
    requires s.queue != []
  {
    var r := s.queue[0];
    s.(queue := s.queue[1..], published := s.published + [r],
       store := s.store.(outbox := s.store.outbox[r.id := r.(status := Delivered)]))
  }

  /** A publish that succeeds is followed by the mark of that record: both steps can be taken, and change nothing else. */
  lemma PublishThenMark(h: Scheme, maxContent: nat, s: System)
    requires s.queue != [] && s.sent.None? && QueueCurrent(s.store.outbox, s.sent, s.queue)
    ensures Enabled(s, Publish(true)) && Enabled(Step(h, maxContent, s, Publish(true)), MarkSent)
    ensures Step(h, maxContent, Step(h, maxContent, s, Publish(true)), MarkSent) == FirstOut(s)
  {
    assert Waiting(s.store.outbox, s.queue[0]);
  }

  /** A publish that fails leaves the record pending and unpublished, for a later poll. */
  lemma PublishFails(h: Scheme, maxContent: nat, s: System)
    requires s.queue != [] && s.sent.None?
    ensures Enabled(s, Publish(false))
    ensures Step(h, maxContent, s, Publish(false)) == s.(queue := s.queue[1..])
  {}

  /** `n` successful publishes, each with its mark. */
  function Pass(n: nat): seq<Action> {
    if n == 0 then [] else [Publish(true), MarkSent] + Pass(n - 1)
  }

  lemma ExtendTwice(h: Scheme, maxContent: nat, run: seq<Action>, a: Action, b: Action)
    requires Exec(h, maxContent, run).Some? && Enabled(Exec(h, maxContent, run).value, a)
    requires Enabled(Step(h, maxContent, Exec(h, maxContent, run).value, a), b)
    ensures Exec(h, maxContent, run + [a, b])
         == Some(Step(h, maxContent, Step(h, maxContent, Exec(h, maxContent, run).value, a), b))
  {
    var all := run + [a, b];
    assert all[..|all| - 1] == run + [a] && (run + [a])[..|run + [a]| - 1] == run;
  }

  lemma MarkedFirst(outbox: map<nat, OutboxRecord>, batch: seq<OutboxRecord>)
    requires batch != [] && QueueCurrent(outbox, None, batch)
    ensures AllMarked(outbox[batch[0].id := batch[0].(status := Delivered)], batch[1..]) == AllMarked(outbox, batch)
  {
    assert Waiting(outbox, batch[0]);
    assert forall r :: r in batch <==> r == batch[0] || r in batch[1..];
  }

  /** The whole queue of `s` has been published in order, and exactly its records marked. */
  ghost predicate PassedTo(s: System, s': System) {
    && s'.published == s.published + s.queue && s'.queue == [] && s'.sent.None?
    && s'.store == s.store.(outbox := AllMarked(s.store.outbox, s.queue))
  }

  lemma FirstOutCurrent(s: System)
    requires s.queue != [] && s.sent.None? && QueueCurrent(s.store.outbox, None, s.queue)
    ensures QueueCurrent(FirstOut(s).store.outbox, None, FirstOut(s).queue)
  {
    var outbox, queue := FirstOut(s).store.outbox, s.queue[1..];
    forall i | 0 <= i < |queue|
      ensures Waiting(outbox, queue[i]) && queue[i].id != s.queue[0].id
    {
      assert queue[i] == s.queue[i + 1] && Waiting(s.store.outbox, s.queue[i + 1]);
    }
  }

  lemma PassedOn(s: System, s': System)
    requires s.queue != [] && s.sent.None? && QueueCurrent(s.store.outbox, None, s.queue) && PassedTo(FirstOut(s), s')
    ensures PassedTo(s, s')
  {
    MarkedFirst(s.store.outbox, s.queue);
    assert [s.queue[0]] + s.queue[1..] == s.queue;
  }

  lemma PassFirst(h: Scheme, maxContent: nat, run: seq<Action>, s: System)
    requires Exec(h, maxContent, run) == Some(s) && s.queue != [] && s.sent.None? && QueueCurrent(s.store.outbox, None, s.queue)
    ensures Exec(h, maxContent, run + [Publish(true), MarkSent]) == Some(FirstOut(s))
  {
    PublishThenMark(h, maxContent, s);
    ExtendTwice(h, maxContent, run, Publish(true), MarkSent);
  }

  /** A pass in which every publish succeeds publishes the whole queue in order and marks exactly its records. */
  lemma {:induction false} PassDelivers(h: Scheme, maxContent: nat, run: seq<Action>, s: System, n: nat) returns (s': System)
    requires Exec(h, maxContent, run) == Some(s) && s.sent.None? && QueueCurrent(s.store.outbox, None, s.queue) && n == |s.queue|
    ensures Exec(h, maxContent, run + Pass(n)) == Some(s') && PassedTo(s, s')
    decreases n
  {
    if n == 0 {
      s' := s;
      assert run + Pass(0) == run;
      NothingMarked(s);
    } else {
      PassFirst(h, maxContent, run, s);
      FirstOutCurrent(s);
      var next := run + [Publish(true), MarkSent];
      s' := PassDelivers(h, maxContent, next, FirstOut(s), n - 1);
      PassSplits(run, n);
      PassedOn(s, s');
    }
  }

  lemma PassSplits(run: seq<Action>, n: nat)
    requires n > 0
    ensures run + [Publish(true), MarkSent] + Pass(n - 1) == run + Pass(n)
  {}

  lemma NothingMarked(s: System)
    requires s.queue == [] && s.sent.None?
    ensures PassedTo(s, s)
  {
    assert AllMarked(s.store.outbox, s.queue) == s.store.outbox;
  }

  lemma ExtendOnce(h: Scheme, maxContent: nat, run: seq<Action>, s: System, a: Action)
    requires Exec(h, maxContent, run) == Some(s) && Enabled(s, a)
    ensures Exec(h, maxContent, run + [a]) == Some(Step(h, maxContent, s, a))
  {
    var all := run + [a];
    assert all[..|all| - 1] == run && all[|all| - 1] == a;
  }

  /** Marking a batch of all that is pending leaves every record Delivered. */
  lemma BatchIsAllPending(store: Store, batch: seq<OutboxRecord>)
    requires OutboxPaired(store) && Enumerates(store.outbox, batch)
    ensures AllMarked(store.outbox, batch).Keys == store.outbox.Keys
    ensures forall o :: o in store.outbox ==> AllMarked(store.outbox, batch)[o] == store.outbox[o].(status := Delivered)
  {
    forall o | o in store.outbox
      ensures AllMarked(store.outbox, batch)[o] == store.outbox[o].(status := Delivered)
    {
      assert RecordOf(store.entries, o, store.outbox[o]);
      if store.outbox[o].status == Pending {
        assert store.outbox[o] in batch;
      }
    }
  }

  /** After a poll, such a pass leaves nothing pending: every record of the outbox is Delivered, and nothing else is stored. */
  lemma PolledAreDelivered(h: Scheme, maxContent: nat, run: seq<Action>, s: System, batch: seq<OutboxRecord>) returns (s': System)
    requires Exec(h, maxContent, run) == Some(s) && s.queue == [] && s.sent.None? && Enumerates(s.store.outbox, batch)
    ensures Exec(h, maxContent, run + [Poll(batch)] + Pass(|batch|)) == Some(s')
    ensures s'.published == s.published + batch && s'.queue == [] && s'.sent.None?
    ensures s'.store == s.store.(outbox := s'.store.outbox) && s'.store.outbox.Keys == s.store.outbox.Keys
    ensures forall o :: o in s.store.outbox ==> s'.store.outbox[o] == s.store.outbox[o].(status := Delivered)
  {
    ExtendOnce(h, maxContent, run, s, Poll(batch));
    RunDelivers(h, maxContent, run + [Poll(batch)]);
    s' := PassDelivers(h, maxContent, run + [Poll(batch)], s.(queue := batch), |batch|);
    BatchIsAllPending(s.store, batch);
  }

  /** There is always a batch to poll. */
  lemma {:induction false} SomeBatch(outbox: map<nat, OutboxRecord>, todo: set<nat>) returns (batch: seq<OutboxRecord>)
    requires todo <= outbox.Keys && forall o :: o in outbox ==> outbox[o].id == o
    ensures forall r :: r in batch ==> r.id in todo && outbox[r.id] == r && r.status == Pending
    ensures forall o :: o in todo && outbox[o].status == Pending ==> outbox[o] in batch
    ensures forall i, j :: 0 <= i < j < |batch| ==> batch[i] != batch[j]
    decreases todo
  {
    if todo == {} {
      batch := [];
    } else {
      var o :| o in todo;
      batch := SomeBatch(outbox, todo - {o});
      if outbox[o].status == Pending {
        assert forall r :: r in [outbox[o]] + batch ==> r == outbox[o] || r in batch;
        batch := [outbox[o]] + batch;
      }
    }
  }

  /** The outbox of `s'` holds the records of `s`, and the entries are the same. */
  ghost predicate SameRecords(s: System, s': System) {
    s'.store.entries == s.store.entries && s'.store.outbox.Keys == s.store.outbox.Keys
  }

  ghost predicate OnlyProcessor(more: seq<Action>) {
    forall a :: a in more ==> a.Poll? || a.Publish? || a.MarkSent?
  }

  lemma {:induction false} PassIsProcessor(n: nat)
    ensures OnlyProcessor(Pass(n))
  {
    if n > 0 {
      PassIsProcessor(n - 1);
    }
  }

  /** A record that is out is marked. */
  lemma MarkLast(h: Scheme, maxContent: nat, run: seq<Action>, s: System) returns (more: seq<Action>, s': System)
    requires Exec(h, maxContent, run) == Some(s)
    ensures Exec(h, maxContent, run + more) == Some(s') && s'.sent.None? && SameRecords(s, s') && OnlyProcessor(more)
  {
    if s.sent.None? {
      more, s' := [], s;
      assert run + more == run;
    } else {
      more, s' := [MarkSent], Step(h, maxContent, s, MarkSent);
      ExtendOnce(h, maxContent, run, s, MarkSent);
      RunDelivers(h, maxContent, run);
      assert Waiting(s.store.outbox, s.sent.value);
    }
  }

  /** What is left of the last batch is published and marked. */
  lemma DrainQueue(h: Scheme, maxContent: nat, run: seq<Action>, s: System) returns (more: seq<Action>, s': System)
    requires Exec(h, maxContent, run) == Some(s) && s.sent.None?
    ensures Exec(h, maxContent, run + more) == Some(s') && s'.sent.None? && s'.queue == [] && SameRecords(s, s') && OnlyProcessor(more)
  {
    RunDelivers(h, maxContent, run);
    more := Pass(|s.queue|);
    s' := PassDelivers(h, maxContent, run, s, |s.queue|);
    PassIsProcessor(|s.queue|);
  }

  lemma BatchOf(store: Store) returns (batch: seq<OutboxRecord>)
    requires OutboxPaired(store)
    ensures Enumerates(store.outbox, batch)
  {
    assert forall o :: o in store.outbox ==> RecordOf(store.entries, o, store.outbox[o]);
    batch := SomeBatch(store.outbox, store.outbox.Keys);
  }

  /** A poll and a pass deliver everything. */
  lemma PollAll(h: Scheme, maxContent: nat, run: seq<Action>, s: System) returns (more: seq<Action>, s': System)
    requires Exec(h, maxContent, run) == Some(s) && s.sent.None? && s.queue == []
    ensures Exec(h, maxContent, run + more) == Some(s') && SameRecords(s, s') && OnlyProcessor(more)
    ensures forall o :: o in s'.store.outbox ==> s'.store.outbox[o].status == Delivered
  {
    RunDelivers(h, maxContent, run);
    var batch := BatchOf(s.store);
    s' := PolledAreDelivered(h, maxContent, run, s, batch);
    more := [Poll(batch)] + Pass(|batch|);
    assert run + [Poll(batch)] + Pass(|batch|) == run + more;
    PassIsProcessor(|batch|);
  }

  /** From every reachable state steps of the outbox processor alone lead to one in which every record is Delivered. */
  lemma DeliveryPossible(h: Scheme, maxContent: nat, run: seq<Action>, s: System) returns (more: seq<Action>, s': System)
    requires Exec(h, maxContent, run) == Some(s)
    ensures Exec(h, maxContent, run + more) == Some(s') && OnlyProcessor(more) && SameRecords(s, s')
    ensures forall o :: o in s'.store.outbox ==> s'.store.outbox[o].status == Delivered
  {
    var m1, s1 := MarkLast(h, maxContent, run, s);
    var m2, s2 := DrainQueue(h, maxContent, run + m1, s1);
    var m3, s3 := PollAll(h, maxContent, run + m1 + m2, s2);
    more, s' := m1 + m2 + m3, s3;
    InThree(run, m1, m2, m3);
  }

  lemma InThree(run: seq<Action>, m1: seq<Action>, m2: seq<Action>, m3: seq<Action>)
    requires OnlyProcessor(m1) && OnlyProcessor(m2) && OnlyProcessor(m3)
    ensures run + m1 + m2 + m3 == run + (m1 + m2 + m3) && OnlyProcessor(m1 + m2 + m3)
  {}

  /******* Only valid requests leave entries *******/

  ghost predicate Admissible(maxContent: nat, e: Entry) {
    && e.entryType != [] && e.agentId != [] && e.contentType != [] && e.sourceId != []
    && |e.content| <= maxContent
  }

  ghost predicate EntriesAdmissible(maxContent: nat, s: System) {
    && (forall id :: id in s.store.entries ==> Admissible(maxContent, s.store.entries[id]))
    && (forall c :: c in s.calls ==>
          s.calls[c].phase == Finished(Failure(InvalidArgument)) || Valid(maxContent, s.calls[c].request))
  }

  lemma StepAdmissible(h: Scheme, maxContent: nat, s: System, a: Action)
    requires EntriesAdmissible(maxContent, s) && Enabled(s, a)
    ensures EntriesAdmissible(maxContent, Step(h, maxContent, s, a))
  {}

  /** Every stored entry has its required fields and content within the limit; a call is rejected as invalid or was valid. */
  lemma {:induction false} RunAdmissible(h: Scheme, maxContent: nat, run: seq<Action>)
    requires Exec(h, maxContent, run).Some?
    ensures EntriesAdmissible(maxContent, Exec(h, maxContent, run).value)
  {
    if run != [] {
      RunAdmissible(h, maxContent, run[..|run| - 1]);
      StepAdmissible(h, maxContent, Exec(h, maxContent, run[..|run| - 1]).value, run[|run| - 1]);
    }
  }

  /******* A halted chain *******/

  /** A call that may still append to type `t`. */
  ghost predicate Live(call: Call, t: Text) {
    call.request.entryType == t && !call.phase.Finished?
  }

  ghost predicate Frozen(s: System, t: Text) {
    t in s.halted && forall c :: c in s.calls ==> !Live(s.calls[c], t)
  }

  lemma StepFrozen(h: Scheme, maxContent: nat, s: System, a: Action, t: Text)
    requires Indexed(s.store) && Frozen(s, t) && Enabled(s, a)
    ensures Frozen(Step(h, maxContent, s, a), t) && Chain(Step(h, maxContent, s, a).store, t) == Chain(s.store, t)
  {
    if a.Commit? {
      assert !Live(s.calls[a.call], t);
      if Accepts(s.store, CommitInput(h, s, a)) {
        AppendChains(s.store, CommitInput(h, s, a), a.id, a.outboxId, t);
      }
    }
  }

  /** Once a type is halted and no call for it is under way, its chain never changes again. */
  lemma {:induction false} HaltedForever(h: Scheme, maxContent: nat, run: seq<Action>, more: seq<Action>, t: Text)
    requires Exec(h, maxContent, run).Some? && Exec(h, maxContent, run + more).Some?
    requires Frozen(Exec(h, maxContent, run).value, t)
    ensures Frozen(Exec(h, maxContent, run + more).value, t)
    ensures Chain(Exec(h, maxContent, run + more).value.store, t) == Chain(Exec(h, maxContent, run).value.store, t)
  {
    if more == [] {
      assert run + more == run;
    } else {
      var init, all := more[..|more| - 1], run + more;
      assert all[..|all| - 1] == run + init;
      HaltedForever(h, maxContent, run, init, t);
      RunIndexed(h, maxContent, run + init);
      StepFrozen(h, maxContent, Exec(h, maxContent, run + init).value, all[|all| - 1], t);
    }
  }
}
