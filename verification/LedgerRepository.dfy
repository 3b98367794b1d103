/**
 The in-memory ledger repository (s0/immutable-ledger/src/repository/mod.rs).

 Five maps guarded by one lock. `Store` is the value they hold, `Append` the effect of one accepted
 write, and the class `InMemoryLedgerRepository` performs the same updates in place.
 Fresh UUIDs are parameters of the append.
 */
module LedgerRepository {
  import opened Wrappers
  import opened LedgerCrypto

  datatype OutboxStatus = Pending | Delivered | Failed

  datatype OutboxRecord = OutboxRecord(
    id: nat, entryId: nat, entryType: Text, payload: Text, status: OutboxStatus, attempts: nat)

  datatype ChainTip = ChainTip(entryId: nat, hash: Text, position: int, timestamp: int)

  datatype RepositoryError = NotFound | ChainIntegrityViolation

  /** `EntryWriteInput`. */
  datatype WriteInput = WriteInput(
    entryType: Text,
    agentId: Text,
    content: Text,
    contentType: Text,
    sourceId: Text,
    correlationId: Option<Text>,
    idempotencyKey: Option<Text>,
    entryHash: Text,
    previousHash: Text,
    timestamp: int,
    payload: Text)

  datatype Store = Store(
    entries: map<nat, Entry>,
    ordered: map<Text, seq<nat>>,
    tips: map<Text, ChainTip>,
    idempotency: map<(Text, Text), nat>,
    outbox: map<nat, OutboxRecord>)

  const EMPTY_STORE := Store(map[], map[], map[], map[], map[])

  /******* One atomic append *******/

  function NextPosition(s: Store, entryType: Text): int {
    if entryType in s.tips then s.tips[entryType].position + 1 else 1
  }

  /** The two refusals of the append: an empty first link, or a link that is not the current tip. */
  predicate Accepts(s: Store, input: WriteInput) {
    var next := NextPosition(s, input.entryType);
    && !(next == 1 && input.previousHash == [])
    && (next > 1 ==> input.entryType in s.tips && s.tips[input.entryType].hash == input.previousHash)
  }

  function NewEntry(s: Store, input: WriteInput, id: nat): Entry {
    Entry(id, input.entryType, input.agentId, input.content, input.contentType, input.sourceId,
          input.correlationId, input.idempotencyKey, input.entryHash, input.previousHash,
          NextPosition(s, input.entryType), input.timestamp)
  }

  function TipOf(e: Entry): ChainTip {
    ChainTip(e.id, e.entryHash, e.position, e.timestamp)
  }

  function Listing(ordered: map<Text, seq<nat>>, t: Text): seq<nat> {
    if t in ordered then ordered[t] else []
  }

  function Ids(s: Store, entryType: Text): seq<nat> {
    Listing(s.ordered, entryType)
  }

  function Append(s: Store, input: WriteInput, id: nat, outboxId: nat): Store {
    var e := NewEntry(s, input, id);
    Store(
      s.entries[id := e],
      s.ordered[e.entryType := Ids(s, e.entryType) + [id]],
      s.tips[e.entryType := TipOf(e)],
      if e.idempotencyKey.Some? then s.idempotency[(e.entryType, e.idempotencyKey.value) := id] else s.idempotency,
      s.outbox[outboxId := OutboxRecord(outboxId, id, e.entryType, input.payload, Pending, 0)])
  }

  function MarkDelivered(s: Store, outboxId: nat): Store {
    if outboxId in s.outbox
    then s.(outbox := s.outbox[outboxId := s.outbox[outboxId].(status := Delivered)])
    else s
  }

  /******* Reads *******/

  /** The entries the ids name, in order, skipping ids without an entry. */
  function Gather(entries: map<nat, Entry>, ids: seq<nat>): seq<Entry> {
    if ids == [] then []
    else
      var last := ids[|ids| - 1];
      Gather(entries, ids[..|ids| - 1]) + if last in entries then [entries[last]] else []
  }

  /** `get_entries_by_type`. */
  function Chain(s: Store, entryType: Text): seq<Entry> {
    Gather(s.entries, Ids(s, entryType))
  }

  /** `find_idempotent`. */
  function FindIdempotent(s: Store, entryType: Text, key: Text): Option<Entry> {
    LookUpKey(s.entries, s.idempotency, (entryType, key))
  }

  function LookUpKey(entries: map<nat, Entry>, index: map<(Text, Text), nat>, typeAndKey: (Text, Text)): Option<Entry> {
    if typeAndKey in index && index[typeAndKey] in entries then Some(entries[index[typeAndKey]]) else None
  }

  /** The latest entry of a chain that carries the key, found by scanning the chain. */
  function ScanForKey(chain: seq<Entry>, key: Text): Option<Entry> {
    if chain == [] then None
    else if chain[|chain| - 1].idempotencyKey == Some(key) then Some(chain[|chain| - 1])
    else ScanForKey(chain[..|chain| - 1], key)
  }

  lemma {:induction false} GatherAll(entries: map<nat, Entry>, ids: seq<nat>)
    requires forall i :: 0 <= i < |ids| ==> ids[i] in entries
    ensures |Gather(entries, ids)| == |ids|
    ensures forall i :: 0 <= i < |ids| ==> Gather(entries, ids)[i] == entries[ids[i]]
  {
    if ids != [] {
      GatherAll(entries, ids[..|ids| - 1]);
    }
  }

  lemma {:induction false} GatherFrame(entries: map<nat, Entry>, ids: seq<nat>, id: nat, e: Entry)
    requires id !in ids
    ensures Gather(entries[id := e], ids) == Gather(entries, ids)
  {
    if ids != [] {
      GatherFrame(entries, ids[..|ids| - 1], id, e);
    }
  }

  /******* Invariants of the five maps *******/

  /** `entries`, `ordered_by_type` and `chain_tips` describe the same chains, numbered 1, 2, 3, ... */
  ghost predicate Indexed(s: Store) {
    && OrderedAreEntries(s.entries, s.ordered)
    && EntriesAreOrdered(s.entries, s.ordered)
    && TipsAreLast(s.entries, s.ordered, s.tips)
  }

  ghost predicate OrderedAreEntries(entries: map<nat, Entry>, ordered: map<Text, seq<nat>>) {
    forall t :: t in ordered ==> ordered[t] != [] && NumberedFromOne(entries, t, ordered[t])
  }

  ghost predicate NumberedFromOne(entries: map<nat, Entry>, t: Text, ids: seq<nat>) {
    forall i :: 0 <= i < |ids| ==>
      && ids[i] in entries
      && entries[ids[i]].entryType == t
      && entries[ids[i]].position == i + 1
  }

  ghost predicate EntriesAreOrdered(entries: map<nat, Entry>, ordered: map<Text, seq<nat>>) {
    forall id :: id in entries ==> Listed(entries[id], id, ordered)
  }

  ghost predicate Listed(e: Entry, id: nat, ordered: map<Text, seq<nat>>) {
    && e.id == id
    && e.entryType in ordered
    && 1 <= e.position <= |ordered[e.entryType]|
    && ordered[e.entryType][e.position - 1] == id
  }

  ghost predicate TipsAreLast(entries: map<nat, Entry>, ordered: map<Text, seq<nat>>, tips: map<Text, ChainTip>) {
    && tips.Keys == ordered.Keys
    && forall t :: t in tips ==> TipIsLast(entries, ordered[t], tips[t])
  }

  ghost predicate TipIsLast(entries: map<nat, Entry>, ids: seq<nat>, tip: ChainTip) {
    ids != [] && ids[|ids| - 1] in entries && tip == TipOf(entries[ids[|ids| - 1]])
  }

  /** `idempotency_index` answers exactly what a scan of the chain answers. */
  ghost predicate IdempotencyAgrees(s: Store) {
    IndexAgrees(s.entries, s.ordered, s.idempotency)
  }

  ghost predicate IndexAgrees(entries: map<nat, Entry>, ordered: map<Text, seq<nat>>, index: map<(Text, Text), nat>) {
    && (forall t, k :: LookUpKey(entries, index, (t, k)) == ScanForKey(Gather(entries, Listing(ordered, t)), k))
    && (forall tk :: tk in index ==> index[tk] in entries)
  }

  /** Entries and outbox records correspond one to one, with the entry's own type. */
  ghost predicate OutboxPaired(s: Store) {
    Paired(s.entries, s.outbox)
  }

  ghost predicate Paired(entries: map<nat, Entry>, outbox: map<nat, OutboxRecord>) {
    && (forall o :: o in outbox ==> RecordOf(entries, o, outbox[o]))
    && (forall id :: id in entries ==> HasRecord(outbox, id))
    && OneRecordEach(outbox)
  }

  ghost predicate RecordOf(entries: map<nat, Entry>, o: nat, r: OutboxRecord) {
    r.id == o && r.entryId in entries && r.entryType == entries[r.entryId].entryType && r.status != Failed
  }

  ghost predicate HasRecord(outbox: map<nat, OutboxRecord>, id: nat) {
    exists o :: o in outbox && outbox[o].entryId == id
  }

  ghost predicate OneRecordEach(outbox: map<nat, OutboxRecord>) {
    forall o, o' :: o in outbox && o' in outbox && outbox[o].entryId == outbox[o'].entryId ==> o == o'
  }

  ghost predicate WellFormed(s: Store) {
    Indexed(s) && IdempotencyAgrees(s) && OutboxPaired(s)
  }

  lemma EmptyWellFormed()
    ensures WellFormed(EMPTY_STORE)
  {}

  /******* What an append does to the chains *******/

  lemma ChainElements(s: Store, t: Text)
    requires Indexed(s)
    ensures |Chain(s, t)| == |Ids(s, t)|
    ensures forall i :: 0 <= i < |Ids(s, t)| ==>
      Ids(s, t)[i] in s.entries && Chain(s, t)[i] == s.entries[Ids(s, t)[i]] && Chain(s, t)[i].position == i + 1
    ensures t in s.tips <==> Chain(s, t) != []
    ensures t in s.tips ==> s.tips[t] == TipOf(Chain(s, t)[|Chain(s, t)| - 1])
    ensures NextPosition(s, t) == |Chain(s, t)| + 1
  {
    GatherAll(s.entries, Ids(s, t));
    if t in s.tips {
      assert TipIsLast(s.entries, s.ordered[t], s.tips[t]);
    }
  }

  /** A type has a tip exactly if it has entries, and it describes the last of them. */
  lemma TipExact(s: Store, t: Text)
    requires Indexed(s)
    ensures t in s.tips <==> Chain(s, t) != []
    ensures t in s.tips ==>
      var n, e := |Chain(s, t)|, Chain(s, t)[|Chain(s, t)| - 1];
      s.tips[t] == ChainTip(e.id, e.entryHash, n, e.timestamp)
  {
    ChainElements(s, t);
  }

  /** An append is accepted exactly if it names the last entry's hash or, on an empty chain, any hash but the empty text. */
  lemma AcceptsExact(s: Store, input: WriteInput)
    requires Indexed(s)
    ensures var chain := Chain(s, input.entryType);
      Accepts(s, input) <==> if chain == [] then input.previousHash != [] else input.previousHash == chain[|chain| - 1].entryHash
  {
    ChainElements(s, input.entryType);
  }

  lemma AppendChains(s: Store, input: WriteInput, id: nat, outboxId: nat, t: Text)
    requires Indexed(s) && id !in s.entries
    ensures Chain(Append(s, input, id, outboxId), t)
         == if t == input.entryType then Chain(s, t) + [NewEntry(s, input, id)] else Chain(s, t)
  {
    ChainElements(s, t);
    var s' := Append(s, input, id, outboxId);
    GatherFrame(s.entries, Ids(s, t), id, NewEntry(s, input, id));
    if t == input.entryType {
      var ids := Ids(s', t);
      assert ids[..|ids| - 1] == Ids(s, t);
    }
  }

  lemma ExtendOrdered(entries: map<nat, Entry>, ordered: map<Text, seq<nat>>, id: nat, e: Entry)
    requires OrderedAreEntries(entries, ordered) && id !in entries
    requires e.position == |Listing(ordered, e.entryType)| + 1
    ensures OrderedAreEntries(entries[id := e], ordered[e.entryType := Listing(ordered, e.entryType) + [id]])
  {
    var t := e.entryType;
    var entries', ordered' := entries[id := e], ordered[t := Listing(ordered, t) + [id]];
    forall u | u in ordered'
      ensures ordered'[u] != [] && NumberedFromOne(entries', u, ordered'[u])
    {
      assert NumberedFromOne(entries, u, Listing(ordered, u));
    }
  }

  lemma ExtendEntries(entries: map<nat, Entry>, ordered: map<Text, seq<nat>>, id: nat, e: Entry)
    requires EntriesAreOrdered(entries, ordered) && id !in entries && e.id == id
    requires e.position == |Listing(ordered, e.entryType)| + 1
    ensures EntriesAreOrdered(entries[id := e], ordered[e.entryType := Listing(ordered, e.entryType) + [id]])
  {
    var t := e.entryType;
    var entries', ordered' := entries[id := e], ordered[t := Listing(ordered, t) + [id]];
    forall j | j in entries'
      ensures Listed(entries'[j], j, ordered')
    {
      if j != id {
        assert Listed(entries[j], j, ordered);
      }
    }
  }

  lemma ExtendTips(entries: map<nat, Entry>, ordered: map<Text, seq<nat>>, tips: map<Text, ChainTip>, id: nat, e: Entry)
    requires TipsAreLast(entries, ordered, tips) && id !in entries
    ensures TipsAreLast(entries[id := e], ordered[e.entryType := Listing(ordered, e.entryType) + [id]],
                        tips[e.entryType := TipOf(e)])
  {
    var t := e.entryType;
    var entries', ordered', tips' := entries[id := e], ordered[t := Listing(ordered, t) + [id]], tips[t := TipOf(e)];
    forall u | u in tips'
      ensures TipIsLast(entries', ordered'[u], tips'[u])
    {
      if u != t {
        assert TipIsLast(entries, ordered[u], tips[u]);
      }
    }
  }

  lemma AppendIndexed(s: Store, input: WriteInput, id: nat, outboxId: nat)
    requires Indexed(s) && id !in s.entries
    ensures Indexed(Append(s, input, id, outboxId))
  {
    ChainElements(s, input.entryType);
    var e := NewEntry(s, input, id);
    ExtendOrdered(s.entries, s.ordered, id, e);
    ExtendEntries(s.entries, s.ordered, id, e);
    ExtendTips(s.entries, s.ordered, s.tips, id, e);
  }

  lemma AppendScan(s: Store, input: WriteInput, id: nat, outboxId: nat, t: Text, k: Text)
    requires Indexed(s) && id !in s.entries
    ensures ScanForKey(Chain(Append(s, input, id, outboxId), t), k)
         == if t == input.entryType && input.idempotencyKey == Some(k) then Some(NewEntry(s, input, id))
            else ScanForKey(Chain(s, t), k)
  {
    AppendChains(s, input, id, outboxId, t);
    var chain, chain' := Chain(s, t), Chain(Append(s, input, id, outboxId), t);
    assert t == input.entryType ==> chain'[..|chain'| - 1] == chain;
  }

  lemma AppendFind(s: Store, input: WriteInput, id: nat, outboxId: nat, t: Text, k: Text)
    requires id !in s.entries && forall tk :: tk in s.idempotency ==> s.idempotency[tk] in s.entries
    ensures FindIdempotent(Append(s, input, id, outboxId), t, k)
         == if t == input.entryType && input.idempotencyKey == Some(k) then Some(NewEntry(s, input, id))
            else FindIdempotent(s, t, k)
  {}

  lemma AppendAgreesAt(s: Store, input: WriteInput, id: nat, outboxId: nat, t: Text, k: Text)
    requires Indexed(s) && IdempotencyAgrees(s) && id !in s.entries
    ensures var s' := Append(s, input, id, outboxId);
      LookUpKey(s'.entries, s'.idempotency, (t, k)) == ScanForKey(Gather(s'.entries, Listing(s'.ordered, t)), k)
  {
    AppendScan(s, input, id, outboxId, t, k);
    AppendFind(s, input, id, outboxId, t, k);
    assert LookUpKey(s.entries, s.idempotency, (t, k)) == ScanForKey(Gather(s.entries, Listing(s.ordered, t)), k);
  }

  lemma AppendIdempotency(s: Store, input: WriteInput, id: nat, outboxId: nat)
    requires Indexed(s) && IdempotencyAgrees(s) && id !in s.entries
    ensures IdempotencyAgrees(Append(s, input, id, outboxId))
  {
    var s' := Append(s, input, id, outboxId);
    var entries, ordered, index := s'.entries, s'.ordered, s'.idempotency;
    assert forall tk :: tk in index ==> index[tk] in entries;
    forall t, k
      ensures LookUpKey(entries, index, (t, k)) == ScanForKey(Gather(entries, Listing(ordered, t)), k)
    {
      AppendAgreesAt(s, input, id, outboxId, t, k);
    }
  }

  lemma ExtendRecords(entries: map<nat, Entry>, outbox: map<nat, OutboxRecord>, e: Entry, r: OutboxRecord,
                      entries': map<nat, Entry>, outbox': map<nat, OutboxRecord>)
    requires Paired(entries, outbox) && e.id !in entries && r.id !in outbox
    requires r.entryId == e.id && r.entryType == e.entryType && r.status != Failed
    requires entries' == entries[e.id := e] && outbox' == outbox[r.id := r]
    ensures forall o :: o in outbox' ==> RecordOf(entries', o, outbox'[o])
    ensures OneRecordEach(outbox')
  {
    forall o | o in outbox
      ensures RecordOf(entries', o, outbox[o]) && outbox[o].entryId != e.id
    {
      assert RecordOf(entries, o, outbox[o]);
    }
  }

  lemma ExtendHasRecord(outbox: map<nat, OutboxRecord>, r: OutboxRecord, id: nat)
    requires r.id !in outbox && (id == r.entryId || HasRecord(outbox, id))
    ensures HasRecord(outbox[r.id := r], id)
  {
    var outbox' := outbox[r.id := r];
    if id == r.entryId {
      assert outbox'[r.id].entryId == id;
    } else {
      var o :| o in outbox && outbox[o].entryId == id;
      assert outbox'[o].entryId == id;
    }
  }

  lemma AppendOutbox(s: Store, input: WriteInput, id: nat, outboxId: nat)
    requires OutboxPaired(s) && id !in s.entries && outboxId !in s.outbox
    ensures OutboxPaired(Append(s, input, id, outboxId))
  {
    var e, r := NewEntry(s, input, id), OutboxRecord(outboxId, id, input.entryType, input.payload, Pending, 0);
    var s' := Append(s, input, id, outboxId);
    ExtendRecords(s.entries, s.outbox, e, r, s'.entries, s'.outbox);
    forall j | j in s'.entries
      ensures HasRecord(s'.outbox, j)
    {
      ExtendHasRecord(s.outbox, r, j);
    }
  }

  /** Every accepted or refused write, and every delivery mark, keeps the five maps consistent. */
  lemma AppendWellFormed(s: Store, input: WriteInput, id: nat, outboxId: nat)
    requires WellFormed(s) && id !in s.entries && outboxId !in s.outbox
    ensures WellFormed(Append(s, input, id, outboxId))
  {
    AppendIndexed(s, input, id, outboxId);
    AppendIdempotency(s, input, id, outboxId);
    AppendOutbox(s, input, id, outboxId);
  }

  lemma MarkKeepsPairing(entries: map<nat, Entry>, outbox: map<nat, OutboxRecord>, marked: nat)
    requires Paired(entries, outbox) && marked in outbox
    ensures Paired(entries, outbox[marked := outbox[marked].(status := Delivered)])
  {
    var outbox' := outbox[marked := outbox[marked].(status := Delivered)];
    forall o | o in outbox'
      ensures RecordOf(entries, o, outbox'[o]) && outbox'[o].entryId == outbox[o].entryId
    {
      assert RecordOf(entries, o, outbox[o]);
    }
    forall id | id in entries
      ensures HasRecord(outbox', id)
    {
      assert HasRecord(outbox, id);
      var o :| o in outbox && outbox[o].entryId == id;
      assert outbox'[o].entryId == id;
    }
  }

  lemma MarkDeliveredWellFormed(s: Store, outboxId: nat)
    requires WellFormed(s)
    ensures WellFormed(MarkDelivered(s, outboxId))
  {
    if outboxId in s.outbox {
      MarkKeepsPairing(s.entries, s.outbox, outboxId);
    }
  }

  /******* The repository object *******/

  class InMemoryLedgerRepository {
    var entries: map<nat, Entry>
    var ordered: map<Text, seq<nat>>
    var tips: map<Text, ChainTip>
    var idempotency: map<(Text, Text), nat>
    var outbox: map<nat, OutboxRecord>

    function Contents(): Store
      reads this
    {
      Store(entries, ordered, tips, idempotency, outbox)
    }

    constructor ()
      ensures Contents() == EMPTY_STORE
    {
      entries, ordered, tips, idempotency, outbox := map[], map[], map[], map[], map[];
    }

    method WriteEntryWithOutbox(input: WriteInput, id: nat, outboxId: nat)
      returns (r: Result<Entry, RepositoryError>)
      modifies this
      ensures r == if Accepts(old(Contents()), input) then Success(NewEntry(old(Contents()), input, id))
                   else Failure(ChainIntegrityViolation)
      ensures Contents() == if r.Success? then Append(old(Contents()), input, id, outboxId) else old(Contents())
    {
      var nextPosition := if input.entryType in tips then tips[input.entryType].position + 1 else 1;
      if nextPosition == 1 && input.previousHash == [] {
        return Failure(ChainIntegrityViolation);
      }
      if nextPosition > 1 {
        if input.entryType !in tips || tips[input.entryType].hash != input.previousHash {
          return Failure(ChainIntegrityViolation);
        }
      }
      var entry := Entry(id, input.entryType, input.agentId, input.content, input.contentType, input.sourceId,
                         input.correlationId, input.idempotencyKey, input.entryHash, input.previousHash,
                         nextPosition, input.timestamp);
      entries := entries[id := entry];
      var ids := if input.entryType in ordered then ordered[input.entryType] else [];
      ordered := ordered[input.entryType := ids + [id]];
      tips := tips[input.entryType := ChainTip(id, input.entryHash, nextPosition, input.timestamp)];
      if input.idempotencyKey.Some? {
        idempotency := idempotency[(entry.entryType, input.idempotencyKey.value) := id];
      }
      outbox := outbox[outboxId := OutboxRecord(outboxId, id, input.entryType, input.payload, Pending, 0)];
      r := Success(entry);
    }

    method GetEntriesByType(entryType: Text) returns (r: seq<Entry>)
      ensures r == Chain(Contents(), entryType)
    {
      if entryType !in ordered {
        return [];
      }
      var ids := ordered[entryType];
      r := [];
      for i := 0 to |ids|
        invariant r == Gather(entries, ids[..i])
      {
        assert ids[..i + 1][..i] == ids[..i];
        if ids[i] in entries {
          r := r + [entries[ids[i]]];
        }
      }
      assert ids[..|ids|] == ids;
    }

    method MarkOutboxDelivered(outboxId: nat) returns (r: Result<(), RepositoryError>)
      modifies this
      ensures r.Success? <==> outboxId in old(outbox)
      ensures Contents() == MarkDelivered(old(Contents()), outboxId)
    {
      if outboxId !in outbox {
        return Failure(NotFound);
      }
      outbox := outbox[outboxId := outbox[outboxId].(status := Delivered)];
      r := Success(());
    }
  }
}
