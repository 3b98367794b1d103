# ARE Foundation: a verified model of the S0/S1 core

This project models, in Dafny, the parts of ARE Foundation that decide what is recorded and what is allowed: the
hash-chained ledger with its concurrent writers, the resource pattern matcher and scope evaluator, the policy
decision cache, passport issuance and the agent registry. It proves properties of these models for every input and
every run. `dafny verify dfyconfig.toml` checks the whole project.

How it is laid out:

- `LedgerCrypto`, `LedgerRepository`, `LedgerVerifier`: canonical bytes and hashing schemes, the five maps of the
  in-memory repository, chain verification, tampering and what a tip hash commits to.
- `LedgerProtocol`, `LedgerContention`, `LedgerDelivery`: any number of `write_entry` calls and the outbox processor as a
  state machine. A run is the list of atomic steps taken; theorems hold for every list that can be carried out.
- `LedgerService`, `LedgerQuery`: one call as the service object performs it, calls that do not overlap, and paging.
- `LedgerRefinement`, `LedgerIdempotency`: that call against the steps of the state machine in every run, and idempotency
  keys under overlapping calls.
- `GlobLanguage`, `GlobMatcher`: the declarative pattern language and the budgeted matcher.
- `PassportCache`, `CircuitBreaker`, `ScopeEvaluator`: the LRU/TTL cache, the breaker under interleaved fetches, decisions.
- `RecencyOrder`: the order of last use, which both caches keep a part of.
- `PolicyEvaluator`, `DecisionKey`, `EvaluationCache`, `PolicyService`: rule evaluation, cache keys, the cache, and
  transparency of the cache over bundle loads, reloads, deprecations and error unloads.
- `KeySharing`: what the cache serves when different requests share a key, and exactly when that does no harm.
- `PassportIssuance`, `AgentRegistry`, `AgentListing`: two lifecycle state machines, and the paged listing of agents.
- `Wrappers`, `Sorting`, `Strings`, `ScopeTypes`: shared types, stable sorting and joining.

Conventions and assumptions:

- SHA-256 (section 6.2 of FIPS 180-4) is a function parameter. Where its output length matters it is assumed to be 64
  characters; it is never assumed to be injective. Tamper, tip and cache results end in "or these two inputs, both
  hashed in the run, collide".
- Clocks, UUIDs, publishers, signers, the registries and the passport client are inputs of the operations. Fresh UUIDs are
  required to be unused where a lemma needs it.
- Ledger strings are their UTF-8 bytes; elsewhere strings are sequences of Unicode characters, sorted by code
  point where JavaScript sorts by UTF-16 unit; no result depends on which of the two orders it is. Integers are
  unbounded: `chain_position`, timestamps and the `u32` failure counter do not wrap.
- Objects that the source updates in place are classes whose methods are proved equal to a function on values; the
  theorems are about runs of those functions. For `ImmutableLedgerService.WriteEntry` that function is `WriteCall`, which
  `RunIsCall` relates to the steps of the protocol.

Where the code and what is said about it part:

- The ledger's test `concurrent_same_type_writes_succeed_without_halt` expects 200 concurrent writers never to halt a
  chain. The code does not promise that: five foreign appends within one call can halt it (`LedgerCanHalt`), fewer
  cannot (`HaltMeansFiveOverlaps`).
- The matcher rejects an empty run for two or more trailing stars, so `foo**` does not match `foo`
  (`TrailingStarsRejected`). Its exact language is `SegmentsMeaning`. Which segments it affects is `StrictExactlyWhen`, which
  patterns `LanguagesAgreeExactly`: a lone `***` is not affected, because no resource splits into one empty segment.
- A cached policy answer carries the evaluation id of the request that was cached, not of the request being answered
  (`ServesEarlierId`).
- Requests that differ can share a cache key: a bar can belong to one field or to the next, an envelope called `none` looks
  like no envelope, only the id of an envelope counts, and a bundle name can hold the delimiters of the version list. The
  cache then serves Allow where a fresh evaluation denies (`BarServesWrongly`, `NoneServesWrongly`, `EnvelopeServesWrongly`,
  `SelectionServesWrongly`). `CacheTransparent` is about texts without the delimiters; over all texts `ServedWasComputed`
  says what is served, and `SharedKeyHarmlessExactly` when that is right.
- An idempotency key does not keep overlapping calls from writing twice: it is looked up once, before the retry loop
  (`KeyCanRepeat`). When a key has at most one entry is `OnceExactly`.
- The token of `ListAgents` names the first agent left out and the next page starts behind it, so that agent is never listed
  (`ListingSkips`); the listing is complete exactly if it fits on one page (`ListingCompleteExactly`).
- A forced passport reissue revokes the old passport before signing. If signing or the bundle lookup then fails, the
  agent keeps naming a revoked passport; `NamedActiveIffNotDangling` says exactly when, `DanglingIsStuck` what follows.
- Hashed ledger fields carry no lengths, so moving a byte across a field boundary leaves the hash unchanged
  (`BytesDoNotDetermineFields`), and `verify_chain` accepts the altered chain (`ShiftUnseen`). The layout loses exactly the
  lengths (`BytesAndLengthsDetermine`); what the check reports of any altered record is `AlterationExact` and `TamperExact`.

## Model

| member | source | states |
|---|---|---|
| LedgerCrypto.CanonicalSuffix | s0/immutable-ledger/src/crypto/mod.rs:27-34 | the hashed bytes end in the previous hash |
| LedgerCrypto.DecimalExact | s0/immutable-ledger/src/crypto/mod.rs:32-32 | a timestamp is written in decimal, without leading zeros, after a minus sign exactly if it is negative |
| LedgerCrypto.DecimalInjective | s0/immutable-ledger/src/crypto/mod.rs:32-32 | the decimal rendering of timestamps is injective, negative ones included |
| LedgerCrypto.BytesAreConcat | s0/immutable-ledger/src/crypto/mod.rs:27-33 | the hashed bytes are the seven fields in this order |
| LedgerCrypto.OneFieldChangesBytes | s0/immutable-ledger/src/crypto/mod.rs:9-35 | changing any single hashed field changes the hashed bytes |
| LedgerCrypto.BytesAndLengthsDetermine | s0/immutable-ledger/src/crypto/mod.rs:9-35 | two bodies are equal exactly if their hashed bytes and the lengths of their texts are |
| LedgerCrypto.BytesDoNotDetermineFields | s0/immutable-ledger/src/crypto/mod.rs:27-28 | two fields changed together can leave the hashed bytes unchanged |
| LedgerRepository.InMemoryLedgerRepository.constructor | s0/immutable-ledger/src/repository/mod.rs:108-120 | a new repository holds five empty maps |
| LedgerRepository.InMemoryLedgerRepository.WriteEntryWithOutbox | s0/immutable-ledger/src/repository/mod.rs:124-195 | refuses exactly an empty first link or a link other than the tip, else performs `Append` on all five maps and returns the new entry |
| LedgerRepository.AcceptsExact | s0/immutable-ledger/src/repository/mod.rs:129-146 | an append is accepted exactly if it names the hash of the last entry or, on an empty chain, any hash but the empty text |
| LedgerRepository.InMemoryLedgerRepository.GetEntriesByType | s0/immutable-ledger/src/repository/mod.rs:224-239 | returns the entries its ids name, in order |
| LedgerRepository.InMemoryLedgerRepository.MarkOutboxDelivered | s0/immutable-ledger/src/repository/mod.rs:266-273 | marks exactly the named record, fails exactly when it is unknown |
| LedgerRepository.AppendChains | s0/immutable-ledger/src/repository/mod.rs:173-178 | an append extends its own type's chain by one record and leaves every other chain alone |
| LedgerRepository.AppendIndexed | s0/immutable-ledger/src/repository/mod.rs:129-187 | entries, ordering and tips keep describing the same chains, numbered from 1 |
| LedgerRepository.TipExact | s0/immutable-ledger/src/repository/mod.rs:179-187 | a type has a tip exactly if it has entries, and it describes the last of them |
| LedgerRepository.AppendIdempotency | s0/immutable-ledger/src/repository/mod.rs:188-254 | the key index keeps answering what a linear scan of the chain answers |
| LedgerRepository.AppendOutbox | s0/immutable-ledger/src/repository/mod.rs:164-193 | entries and outbox records stay in one-to-one correspondence |
| LedgerRepository.AppendWellFormed | s0/immutable-ledger/src/repository/mod.rs:124-195 | all invariants of the five maps survive an append |
| LedgerRepository.MarkDeliveredWellFormed | s0/immutable-ledger/src/repository/mod.rs:266-273 | all invariants of the five maps survive a delivery mark |
| LedgerVerifier.VerifyChain | s0/immutable-ledger/src/service/mod.rs:363-453 | computes `Verdict` |
| LedgerVerifier.Examine | s0/immutable-ledger/src/service/mod.rs:411-452 | the examination loop reports what `ReportFrom` says |
| LedgerVerifier.VerdictExact | s0/immutable-ledger/src/service/mod.rs:374-452 | fails only on unknown bounds; otherwise examines, as often as they occur, exactly the records whose position is not below that of the first record with the start id (or 1) and not above that of the first record with the end id (or any), in position order, and names the least failing one |
| LedgerVerifier.PositionOfFirst | s0/immutable-ledger/src/service/mod.rs:382-400 | the position looked up for an id is that of the first record with it |
| LedgerVerifier.NumberedWindow | s0/immutable-ledger/src/service/mod.rs:374-409 | on records numbered 1..n with distinct ids, the window between two ids is the slice from the one record to the other, both included |
| LedgerVerifier.NumberedWindowFrom | s0/immutable-ledger/src/service/mod.rs:374-409 | without an end it runs to the last record |
| LedgerVerifier.NumberedWindowTo | s0/immutable-ledger/src/service/mod.rs:374-409 | without a start it runs from the first |
| LedgerVerifier.NumberedVerdict | s0/immutable-ledger/src/service/mod.rs:374-452 | the bounded check names the least failing record of that slice |
| LedgerVerifier.ReportPinpoints | s0/immutable-ledger/src/service/mod.rs:411-446 | the report names the least index at which link or hash fails, with the right reason |
| LedgerVerifier.PinpointsUnique | s0/immutable-ledger/src/service/mod.rs:411-452 | that condition determines the report |
| LedgerVerifier.GoodChainAccepted | s0/immutable-ledger/src/service/mod.rs:404-452 | a chain numbered 1..n, linked from genesis and hashed is accepted with n entries checked |
| LedgerVerifier.AlterationExact | s0/immutable-ledger/src/service/mod.rs:374-452 | the full check's report on a good chain with one record replaced by any other at its position: that record for a changed link or an unfitting hash, its successor for a rehashed record, acceptance otherwise |
| LedgerVerifier.WindowAlterationExact | s0/immutable-ledger/src/service/mod.rs:374-452 | the report of every bounded check on a good chain with one record inside the bounds replaced by any other with its id and position |
| LedgerVerifier.GoodWindowAccepted | s0/immutable-ledger/src/service/mod.rs:374-452 | every bounded check of a good chain accepts and counts what lies between the bounds |
| LedgerVerifier.TamperExact | s0/immutable-ledger/src/service/mod.rs:411-446 | under an unchanged stored hash the full check accepts exactly if link and hashed bytes are unchanged and names the record otherwise, or old and new bytes collide |
| LedgerVerifier.ShiftUnseen | s0/immutable-ledger/src/service/mod.rs:411-446 | in every record of every good chain a byte moved from the agent id to the entry type goes unseen |
| LedgerVerifier.TamperPinpointed | s0/immutable-ledger/src/service/mod.rs:411-446 | altering the stored hash alone, one hashed field, or any number of them at equal lengths makes the full check name that record, or its old and new bytes collide |
| LedgerVerifier.StoreAlterationExact | s0/immutable-ledger/src/service/mod.rs:363-452 | both exact results for a record altered inside the repository |
| LedgerVerifier.TamperedStorePinpointed | s0/immutable-ledger/src/service/mod.rs:363-446 | `TamperPinpointed` for a record altered inside the repository |
| LedgerVerifier.AgreeBelow | s0/immutable-ledger/src/service/mod.rs:411-446 | linked byte sequences that meet in one hash agree below it, or two of their inputs collide |
| LedgerVerifier.TipCommits | s0/immutable-ledger/src/service/mod.rs:411-446 | two accepted sequences from position 1 with one final hash have the same length and the same hashed bytes, or two of their inputs collide |
| LedgerVerifier.VerifiedTipCommits | s0/immutable-ledger/src/service/mod.rs:363-453 | two windows that `verify_chain` accepts, from position 1 to one last hash, have the same hashed bytes throughout, or two of their inputs collide |
| LedgerVerifier.ChainVerdictIsEntryVerdicts | s0/immutable-ledger/src/service/mod.rs:319-361 | on records numbered 1..n, `verify_chain` accepts exactly if `verify_entry` accepts every record |
| LedgerVerifier.EntryVerdictExact | s0/immutable-ledger/src/service/mod.rs:319-361 | for any record of a numbered chain, sound or not: the hash is valid exactly if the stored one fits, the link exactly if it names genesis or the stored hash before, and a bad hash is the reason given before a bad link |
| LedgerVerifier.MissingPredecessor | s0/immutable-ledger/src/service/mod.rs:339-345 | a record without a predecessor in the chain has no valid link |
| LedgerProtocol.CommitRecords | s0/immutable-ledger/src/service/mod.rs:186-241 | a successful append stores the request's own fields as the next linked record, answers with its receipt and adds one pending outbox record |
| LedgerProtocol.BeginExact | s0/immutable-ledger/src/service/mod.rs:152-169 | a call is rejected as invalid exactly for an empty required field or too much content, else as unavailable exactly on a halted type, and nothing else changes |
| LedgerProtocol.LookUpExact | s0/immutable-ledger/src/service/mod.rs:170-184 | a lookup ends the call with the receipt of the latest entry of the type under the key, and lets it go on if there is none |
| LedgerProtocol.AppendGood | s0/immutable-ledger/src/service/mod.rs:187-231 | an accepted append extends a good chain by a good record |
| LedgerProtocol.RunSafe | s0/immutable-ledger/src/service/mod.rs:148-261 | for every interleaving, every chain is numbered 1..n, starts at genesis, links and hashes correctly, and the maps agree |
| LedgerProtocol.ReachableChainsVerify | s0/immutable-ledger/src/service/mod.rs:363-453 | the full-range check accepts every chain of every reachable state and counts all entries |
| LedgerProtocol.ReachableNumbered | s0/immutable-ledger/src/repository/mod.rs:129-187 | the records of a reachable chain are numbered from 1 on, each with its own id |
| LedgerProtocol.ReachableWindowsVerify | s0/immutable-ledger/src/service/mod.rs:374-452 | every bounded check of every reachable chain accepts and counts what lies between the bounds |
| LedgerProtocol.ReachableWindowAlteration | s0/immutable-ledger/src/service/mod.rs:374-452 | what every bounded check reports of a reachable chain with one record inside the bounds replaced |
| LedgerProtocol.ReachableAlterationExact | s0/immutable-ledger/src/service/mod.rs:363-452 | both exact results in every reachable state, for every record and every replacement at its position |
| LedgerProtocol.ReachableTamperPinpointed | s0/immutable-ledger/src/service/mod.rs:404-452 | in every reachable state, tampering in the sense of `TamperPinpointed` is pinned on the record, or a collision is exhibited |
| LedgerProtocol.ReachableTipCommits | s0/immutable-ledger/src/service/mod.rs:186-257 | two reachable ledgers with one genesis input and one tip hash have the same hashed history, or two of their inputs collide |
| LedgerContention.AcceptedIffTipUnmoved | s0/immutable-ledger/src/repository/mod.rs:129-146 | an append is accepted exactly if the tip is still the one read |
| LedgerContention.RunTracked | s0/immutable-ledger/src/service/mod.rs:186-256 | in every run, a call on attempt k has overlapped at least k foreign appends, and holds the current tip unless one came since its read |
| LedgerContention.RefusalMeansOverlap | s0/immutable-ledger/src/service/mod.rs:242-244 | a refused append means another call appended to the type since this call's tip read |
| LedgerContention.HaltMeansFiveOverlaps | s0/immutable-ledger/src/service/mod.rs:245-254 | a call that halts overlapped at least five foreign appends, so one that overlapped at most four never halts |
| LedgerContention.HaltedByOverlap | s0/immutable-ledger/src/service/mod.rs:247-250 | every halted type was halted by such a call |
| LedgerContention.WriteUndisturbed | s0/immutable-ledger/src/service/mod.rs:186-241 | an undisturbed valid call succeeds at its first attempt |
| LedgerContention.CanonicalSeparates | s0/immutable-ledger/src/service/mod.rs:194-203 | for every tip one of any two timestamps yields another hash, or their bytes collide |
| LedgerContention.FiveOverlapsCanHalt | s0/immutable-ledger/src/service/mod.rs:186-256 | five is tight, for every hashing scheme: for every valid request there is a run in which exactly five foreign appends halt its chain, or one that ends at a tip the request hashes to at every timestamp |
| LedgerContention.LedgerCanHalt | s0/immutable-ledger/src/service/mod.rs:186-256 | the same for the ledger's own hashing: the run halts the chain after exactly five foreign appends, or at its tip the request's bytes at any two given timestamps collide |
| LedgerDelivery.RunGrows | s0/immutable-ledger/src/repository/mod.rs:173-194 | along every run entries never change, chains only extend, outbox records only move from Pending to Delivered |
| LedgerDelivery.AcknowledgedForever | s0/immutable-ledger/src/service/mod.rs:167-241 | an acknowledged write stays stored, unaltered, at the acknowledged position in every continuation |
| LedgerDelivery.RunDelivers | s0/immutable-ledger/src/service/mod.rs:111-132 | in every reachable state there is one outbox record per entry, and a record was published exactly once, as it is stored, if it is Delivered or about to be marked so, and never otherwise |
| LedgerDelivery.PublishThenMark | s0/immutable-ledger/src/service/mod.rs:463-476 | a successful publish and the mark after it can be taken, publish the first record of the batch, mark it Delivered and change nothing else |
| LedgerDelivery.PublishFails | s0/immutable-ledger/src/service/mod.rs:468-471 | a failed publish leaves the record Pending and unpublished |
| LedgerDelivery.PassDelivers | s0/immutable-ledger/src/service/mod.rs:123-128 | from every reachable state, a pass in which every publish succeeds publishes the whole batch in order and marks exactly its records |
| LedgerDelivery.PolledAreDelivered | s0/immutable-ledger/src/service/mod.rs:114-130 | from every reachable state in which a poll can be made, the poll and such a pass leave every record of the outbox Delivered and publish exactly those that were Pending |
| LedgerDelivery.DeliveryPossible | s0/immutable-ledger/src/service/mod.rs:111-132 | from every reachable state steps of the outbox processor alone lead to one in which every record is Delivered |
| LedgerDelivery.RunAdmissible | s0/immutable-ledger/src/service/mod.rs:152-166 | every stored entry has its required fields and content within the limit |
| LedgerDelivery.HaltedForever | s0/immutable-ledger/src/service/mod.rs:167-169 | once a type is halted with no call for it under way, its chain never changes again |
| LedgerService.ImmutableLedgerService.constructor | s0/immutable-ledger/src/service/mod.rs:100-109 | a new service has an empty repository and no halted type |
| LedgerService.ImmutableLedgerService.TryAppend | s0/immutable-ledger/src/service/mod.rs:187-239 | one attempt appends to what others have made of the repository, linked to the tip it read, whatever lands before the read and after it |
| LedgerService.ImmutableLedgerService.AppendWithRetry | s0/immutable-ledger/src/service/mod.rs:186-261 | the five attempts and the halt compute `Retry` |
| LedgerService.ImmutableLedgerService.WriteEntry | s0/immutable-ledger/src/service/mod.rs:148-261 | the call computes `WriteCall` for whatever appends and delivery marks land between any two of its accesses |
| LedgerService.ImmutableLedgerService.VerifyChainOf | s0/immutable-ledger/src/service/mod.rs:363-453 | verifies the stored chain of a type |
| LedgerService.RetryExact | s0/immutable-ledger/src/service/mod.rs:186-257 | the retry loop halts exactly if the tip moved during each of its attempts; otherwise it appends, at the first attempt during which it did not, a record linked to the tip of that moment |
| LedgerRefinement.RunFollows | s0/immutable-ledger/src/service/mod.rs:148-261 | in every run every call that has begun stands where its own steps have brought it, and is bound to end as `WriteCall` says |
| LedgerRefinement.RunIsCall | s0/immutable-ledger/src/service/mod.rs:148-261 | in every run and interleaving, a finished call ended with the outcome `WriteCall` gives for the state it began in and for what others did between its steps, and the store is what it left with what others did since |
| LedgerIdempotency.RunMissed | s0/immutable-ledger/src/service/mod.rs:167-184 | a call that got past its lookup made it before any entry of its type carried its key |
| LedgerIdempotency.CommitsAreEntries | s0/immutable-ledger/src/repository/mod.rs:129-192 | the entries of a type with a key are the run's accepted appends under them |
| LedgerIdempotency.OnceExactly | s0/immutable-ledger/src/service/mod.rs:167-239 | in every run a type and key have at most one entry exactly if no call appended under them between the lookup and the append of another that did |
| LedgerIdempotency.KeyCanRepeat | s0/immutable-ledger/src/service/mod.rs:167-239 | for every valid request with a key there is a run that leaves two entries under it |
| LedgerService.UndisturbedIsAlone | s0/immutable-ledger/src/service/mod.rs:186-241 | undisturbed at its first attempt, a call neither retries nor halts |
| LedgerService.AloneWellFormed | s0/immutable-ledger/src/repository/mod.rs:188-254 | in runs without overlap the key index and tips agree with linear scans |
| LedgerService.IdempotentReplay | s0/immutable-ledger/src/service/mod.rs:170-184 | in runs without overlap, successful writes with one type and key give one receipt and only the first changes the store |
| LedgerQuery.QueryEntries | s0/immutable-ledger/src/service/mod.rs:267-317 | returns the page of `Answers` at the token's offset, for any filters, size and token |
| LedgerQuery.ApplyFilter | s0/immutable-ledger/src/service/mod.rs:272-289 | one optional `retain` selects by one more filter |
| LedgerQuery.AnswersExact | s0/immutable-ledger/src/service/mod.rs:271-290 | the answers are exactly the entries that pass the six filters, written out, as often as they occur, ordered by time and then position |
| LedgerQuery.TokenRoundTrip | s0/immutable-ledger/src/service/mod.rs:300-315 | a page token parses back to the offset it was written from |
| LedgerQuery.OtherTokens | s0/immutable-ledger/src/service/mod.rs:300-303 | a leading plus sign and leading zeros are read too; an empty text, a lone sign, any other character and numbers beyond 64 bits are not |
| LedgerQuery.SessionFollows | s0/immutable-ledger/src/service/mod.rs:293-316 | successive calls, each with the token the last returned, answer exactly the pages of one list |
| LedgerQuery.PagingComplete | s0/immutable-ledger/src/service/mod.rs:267-317 | successive `query_entries` calls that follow the tokens yield every answer once, in order, each with the right total, in max(1, ceil(total / size)) pages, for every requested size, which is 100 if not positive and at most 1000 |
| Sorting.SortBySorts | s0/immutable-ledger/src/service/mod.rs:290-290 | sorting by a total preorder yields an ordered rearrangement |
| Sorting.SortByStable | s0/immutable-ledger/src/service/mod.rs:290-290 | elements that tie keep their order |
| GlobLanguage.StrictExactlyWhen | s1/scope-evaluator-runtime/src/glob_match.rs:78-89 | a bracket-free segment means the same to the matcher as in ordinary glob exactly if it does not end in two stars |
| GlobLanguage.StrictAllOnlyRejects | s1/scope-evaluator-runtime/src/glob_match.rs:88-88 | the difference only ever rejects |
| GlobMatcher.MatchSegment | s1/scope-evaluator-runtime/src/glob_match.rs:70-107 | the segment loop answers and spends what `Segment` says |
| GlobMatcher.MatchStar | s1/scope-evaluator-runtime/src/glob_match.rs:78-89 | the inner loop of a star answers and spends what `Star` says |
| GlobMatcher.MatchSegments | s1/scope-evaluator-runtime/src/glob_match.rs:36-68 | the segment-list matcher answers and spends what `Segments` says |
| GlobMatcher.MatchGlob | s1/scope-evaluator-runtime/src/glob_match.rs:22-34 | computes `GlobMatch` |
| GlobMatcher.EmptyPatternRejected | s1/scope-evaluator-runtime/src/glob_match.rs:22-26 | the empty pattern matches no resource |
| GlobMatcher.BracketInvalid | s1/scope-evaluator-runtime/src/glob_match.rs:96-96 | a pattern that opens with one of the four bracket characters is invalid on every non-empty resource |
| GlobMatcher.InvalidMeansBracket | s1/scope-evaluator-runtime/src/glob_match.rs:96-96 | and no pattern without one of them ever is |
| GlobMatcher.Segments | s1/scope-evaluator-runtime/src/glob_match.rs:36-68 | matcher calls plus work left never exceed the budget |
| GlobMatcher.SegmentsCharged | s1/scope-evaluator-runtime/src/glob_match.rs:16-68 | with any budget the matcher gives the unbudgeted answer at the unbudgeted cost if the budget covers it, and otherwise fails closed |
| GlobMatcher.SegmentsMeaning | s1/scope-evaluator-runtime/src/glob_match.rs:36-107 | an answer is exactly membership in the strict pattern language |
| GlobMatcher.DepthCapUnreached | s1/scope-evaluator-runtime/src/glob_match.rs:46-49 | with at most 48 bare double stars the depth cap is never hit |
| GlobMatcher.DepthCapTight | s1/scope-evaluator-runtime/src/glob_match.rs:46-49 | a pattern opening with 49 bare double stars hits the cap on every resource |
| GlobMatcher.SplitJoins | s1/scope-evaluator-runtime/src/glob_match.rs:27-32 | splitting cuts at every slash and only there |
| GlobMatcher.LanguagesAgreeExactly | s1/scope-evaluator-runtime/src/glob_match.rs:22-34 | for every pattern, the matcher's language and ordinary glob agree on every resource exactly if the pattern has a bracket, has no segment but bare double stars that ends in two stars, or is a single run of stars |
| GlobMatcher.GlobMatchExact | s1/scope-evaluator-runtime/src/glob_match.rs:22-34 | `Ok(true)` implies a declarative match; `Ok(false)` excludes one if the pattern is ordinary; the unbudgeted answer is given if it takes at most 65536 ticks; `InvalidPattern` means a bracket, and with at most 48 bare double stars `PatternTooComplex` means an exceeded budget |
| GlobMatcher.WronglyRejected | s1/scope-evaluator-runtime/src/glob_match.rs:22-34 | every other pattern has a resource it ordinarily matches and `glob_match` never accepts |
| GlobMatcher.TrailingStarsRejected | s1/scope-evaluator-runtime/src/glob_match.rs:78-89 | `glob_match` answers `Ok(false)` for every literal text followed by two stars on that very text |
| PassportCache.LruPassportCache.constructor | s1/scope-evaluator-runtime/src/cache.rs:20-27 | a new cache is empty |
| PassportCache.LruPassportCache.Lookup | s1/scope-evaluator-runtime/src/cache.rs:29-37 | serves exactly unexpired entries, moves hits to the back and drops expired ones |
| PassportCache.LruPassportCache.Put | s1/scope-evaluator-runtime/src/cache.rs:39-58 | inserts at the back and evicts from the front down to the capacity |
| PassportCache.LruPassportCache.InvalidateKey | s1/scope-evaluator-runtime/src/cache.rs:60-78 | removes the key from both structures and says whether it was there |
| PassportCache.LruPassportCache.Drop | s1/scope-evaluator-runtime/src/cache.rs:72-78 | removes the key from both structures |
| PassportCache.RunCoherent | s1/scope-evaluator-runtime/src/cache.rs:29-84 | after any operations map and queue hold the same keys once each, within the capacity |
| PassportCache.QueueIsRecency | s1/scope-evaluator-runtime/src/cache.rs:39-84 | without expiry or invalidation the queue is the most recent part of the order of last use |
| PassportCache.PresentIffRecent | s1/scope-evaluator-runtime/src/cache.rs:39-84 | then a key is present exactly if it was used and fewer than the capacity of distinct other keys were used since |
| PassportCache.ServedWithinTtl | s1/scope-evaluator-runtime/src/cache.rs:29-37 | an answer is the last inserted passport, at most the time to live after its insertion, however often it was hit |
| PassportCache.LookupExact | s1/scope-evaluator-runtime/src/cache.rs:29-37 | after any operations, a present key is served exactly up to its time to live from insertion; a later lookup removes it from both structures and nothing else |
| PassportCache.MissExact | s1/scope-evaluator-runtime/src/cache.rs:29-31 | a lookup of an absent key changes nothing |
| PassportCache.InsertExact | s1/scope-evaluator-runtime/src/cache.rs:39-58 | an insertion stores the passport with its instant as the most recent key, and alters no other entry it keeps |
| PassportCache.InvalidateExact | s1/scope-evaluator-runtime/src/cache.rs:60-78 | an invalidation removes exactly the key from both structures |
| CircuitBreaker.OpenIffThreshold | s1/scope-evaluator-runtime/src/service.rs:194-216 | in every interleaving the breaker is open exactly if the failures have reached the threshold |
| CircuitBreaker.FailuresCounted | s1/scope-evaluator-runtime/src/service.rs:196-207 | the counter is the number of failed returns since the last successful one |
| CircuitBreaker.AgreesExactlyWhen | s1/scope-evaluator-runtime/src/service.rs:30-34 | flag and counter agree in every run exactly if the threshold is at least one |
| CircuitBreaker.NoCallWhileOpen | s1/scope-evaluator-runtime/src/service.rs:187-192 | no step starts a client call while the breaker is open |
| CircuitBreaker.OnlyFlyingCanClose | s1/scope-evaluator-runtime/src/service.rs:187-199 | only the successful return of a call already in flight while the breaker was open can close it |
| CircuitBreaker.OpenForever | s1/scope-evaluator-runtime/src/service.rs:179-218 | once open with no call in flight it stays open for ever |
| ScopeEvaluator.ContextMatchesExact | s1/scope-evaluator-runtime/src/service.rs:221-234 | the size-and-inclusion test holds exactly for no constraints or equal maps |
| ScopeEvaluator.ObstacleExact | s1/scope-evaluator-runtime/src/service.rs:80-102 | the reason for a miss is the first failing test in the order expiry, action class, pattern, context, each written out |
| ScopeEvaluator.EvaluateScope | s1/scope-evaluator-runtime/src/service.rs:74-124 | the loop over scopes computes `Decision` |
| ScopeEvaluator.EveryScopeLandsOnce | s1/scope-evaluator-runtime/src/service.rs:76-110 | each scope lands in exactly one of matches and misses, in order, with its own fields and, if missed, its reason |
| ScopeEvaluator.InScopeExact | s1/scope-evaluator-runtime/src/service.rs:74-124 | in scope exactly if the passport is unexpired and a scope covers the request, whose pattern then matches declaratively |
| ScopeEvaluator.ExpiryExact | s1/scope-evaluator-runtime/src/service.rs:74-124 | the response says whether the passport has expired, and an expired passport is never in scope |
| ScopeEvaluator.ScopeEvaluatorService.constructor | s1/scope-evaluator-runtime/src/service.rs:44-59 | starts with an empty cache and a closed breaker |
| ScopeEvaluator.ScopeEvaluatorService.GetOrFetchPassport | s1/scope-evaluator-runtime/src/service.rs:179-218 | one undisturbed fetch: cache hit, open breaker, success and failure, with their effects on cache and breaker |
| ScopeEvaluator.FetchIsSteps | s1/scope-evaluator-runtime/src/service.rs:179-218 | an undisturbed fetch is the steps Start, Check and Return of the breaker, with the breaker and the result they leave |
| ScopeEvaluator.FetchAsks | s1/scope-evaluator-runtime/src/service.rs:187-217 | while the breaker is open an uncached fetch answers Unavailable and counts nothing; while it is closed it gives the answer of the client, and resets the count or raises it and opens at the threshold |
| ScopeEvaluator.FetchCaches | s1/scope-evaluator-runtime/src/service.rs:180-203 | a fetch performs one lookup and, exactly after a successful client call, one insertion with its instant |
| ScopeEvaluator.ScopeEvaluatorService.Evaluate | s1/scope-evaluator-runtime/src/service.rs:61-125 | an incomplete request touches nothing; otherwise cache and breaker change as the fetch says, and the reply holds the decision on the fetched passport with the request's and passport's identifying fields, or the mapped error |
| PolicyEvaluator.AssertAdmissionEnvelope | s1/opa-integration-layer/src/evaluator.ts:4-49 | the two loops find what `AdmissionObstacle` says |
| PolicyEvaluator.AdmissionExact | s1/opa-integration-layer/src/evaluator.ts:12-48 | admitted exactly if a scope pattern admits the action class, or there is none, and every present metric is within its cap |
| PolicyEvaluator.ScopeAdmitsExact | s1/opa-integration-layer/src/evaluator.ts:16-27 | a pattern that ends in a star admits the action classes with that beginning, any other only itself |
| PolicyEvaluator.ObstacleReason | s1/opa-integration-layer/src/evaluator.ts:28-46 | the reason is the scopes exactly if none admits the action class, else the first offending cap, by name and kind |
| PolicyEvaluator.MatchBundle | s1/opa-integration-layer/src/evaluator.ts:119-144 | the inner loop adds one bundle's matches and keeps the flags in step with them |
| PolicyEvaluator.EvaluateWithBundles | s1/opa-integration-layer/src/evaluator.ts:103-174 | the nested loops and flags compute `Decide` |
| PolicyEvaluator.EffectExact | s1/opa-integration-layer/src/evaluator.ts:146-173 | deny over escalate over allow, deny by default, whatever the order of bundles and rules |
| PolicyEvaluator.DenyReasonExact | s1/opa-integration-layer/src/evaluator.ts:146-173 | why a denied request is denied: the admission obstacle, with no rule listed, or one of three reasons, each with its exact condition |
| PolicyEvaluator.FiredNamesExact | s1/opa-integration-layer/src/evaluator.ts:149-172 | the fired rules a decision lists are all rules that apply with its effect, in bundle and rule order, each as often as it occurs |
| PolicyEvaluator.ResourceMatchesExact | s1/opa-integration-layer/src/evaluator.ts:124-124 | a rule without a prefix, or with the empty one, applies to every resource, otherwise to those with that beginning |
| PolicyEvaluator.MatchedInBundleExact | s1/opa-integration-layer/src/evaluator.ts:119-133 | every rule about the action class is listed in the place its predecessors leave for it, with its own fields |
| PolicyEvaluator.MatchedCount | s1/opa-integration-layer/src/evaluator.ts:119-133 | and no other rule is |
| PolicyEvaluator.MatchedExact | s1/opa-integration-layer/src/evaluator.ts:118-144 | an admitted decision lists what the rules of all bundles contribute, in bundle and rule order |
| PolicyEvaluator.DecisionView | s1/opa-integration-layer/src/evaluator.ts:103-144 | the decision depends on nothing in the request but action class, resource, metadata and envelope |
| DecisionKey.SortStringsSorts | s1/opa-integration-layer/src/service.ts:77-77 | sorting version texts yields an ordered rearrangement |
| DecisionKey.SortedKeysSorted | s1/opa-integration-layer/src/service.ts:295-298 | metadata keys are listed once each, in order |
| DecisionKey.MetadataDetermined | s1/opa-integration-layer/src/service.ts:295-298 | flattened metadata determines the metadata if its parts avoid the delimiters |
| DecisionKey.VersionsDetermined | s1/opa-integration-layer/src/service.ts:77-77 | the sorted version list determines which bundles are present in which version |
| DecisionKey.VersionsOrderFree | s1/opa-integration-layer/src/service.ts:77-77 | the order in which bundles are listed does not show in the key |
| DecisionKey.PreimageDetermined | s1/opa-integration-layer/src/service.ts:300-324 | the hashed key text determines every input it is built from |
| DecisionKey.PreimageSpelled | s1/opa-integration-layer/src/service.ts:309-322 | the hashed text, field by field |
| DecisionKey.FlattenSpelled | s1/opa-integration-layer/src/service.ts:295-298 | the flattened text of one or two metadata keys |
| DecisionKey.BarIsAmbiguous | s1/opa-integration-layer/src/service.ts:309-323 | without the delimiter condition two different requests share a key text |
| DecisionKey.NoneIsAmbiguous | s1/opa-integration-layer/src/service.ts:78-78 | no envelope and an envelope called `none` share a key text |
| EvaluationCache.DecisionCache.Get | s1/opa-integration-layer/src/cache.ts:19-31 | serves exactly unexpired entries and moves hits to the end |
| EvaluationCache.DecisionCache.Set | s1/opa-integration-layer/src/cache.ts:33-44 | replaces the key's entry at the end and evicts the oldest beyond the capacity |
| EvaluationCache.DecisionCache.InvalidateForBundle | s1/opa-integration-layer/src/cache.ts:51-61 | drops exactly the entries that used the bundle |
| EvaluationCache.CacheKeepsLimits | s1/opa-integration-layer/src/cache.ts:19-44 | keys stay distinct and the capacity is respected |
| EvaluationCache.SetThenGet | s1/opa-integration-layer/src/cache.ts:19-44 | a response just set is served exactly until its time to live runs out |
| EvaluationCache.FreshExact | s1/opa-integration-layer/src/cache.ts:19-31 | an item is served, flagged and stamped, up to its time to live, and moves to the end with its own instant |
| EvaluationCache.StaleExact | s1/opa-integration-layer/src/cache.ts:24-27 | after that a lookup answers nothing and deletes it, and only it |
| EvaluationCache.SetExact | s1/opa-integration-layer/src/cache.ts:33-44 | a response is stored last under its key; no other item is altered, and none is lost while there is room |
| EvaluationCache.OrderIsRecency | s1/opa-integration-layer/src/cache.ts:19-44 | in runs without expiry the keys kept are the most recent part of the order of last use |
| EvaluationCache.KeptIffRecent | s1/opa-integration-layer/src/cache.ts:19-44 | then a decision is kept exactly if fewer than the capacity of distinct other keys were stored or hit since |
| PolicyService.OpaIntegrationService.constructor | s1/opa-integration-layer/src/service.ts:35-46 | starts with nothing loaded, cached or counted |
| PolicyService.OpaIntegrationService.EvaluateRequest | s1/opa-integration-layer/src/service.ts:58-139 | computes `DoEvaluate`, state and response |
| PolicyService.OpaIntegrationService.Fail | s1/opa-integration-layer/src/service.ts:124-130 | the error loop computes `Punish` |
| PolicyService.OpaIntegrationService.LoadBundle | s1/opa-integration-layer/src/service.ts:241-272 | a compiled bundle is stored in its place and its decisions dropped; otherwise nothing changes |
| PolicyService.OpaIntegrationService.ReloadBundle | s1/opa-integration-layer/src/service.ts:174-185 | the current version is left alone, any other is loaded |
| PolicyService.OpaIntegrationService.HandleDeprecated | s1/opa-integration-layer/src/service.ts:195-199 | the bundle is unloaded and its decisions dropped |
| PolicyService.DeprecateExact | s1/opa-integration-layer/src/service.ts:195-199 | a deprecation unloads exactly the bundle of that name and drops exactly the decisions that used it |
| PolicyService.LoadExact | s1/opa-integration-layer/src/service.ts:241-272 | a load that compiles puts the bundle under its name and drops the decisions that used the name; any other does nothing |
| PolicyService.ReloadExact | s1/opa-integration-layer/src/service.ts:174-185 | a reload does nothing exactly if the version loaded under the name is the active one, and is a load otherwise |
| PolicyService.PutExact | s1/opa-integration-layer/src/service.ts:254-254 | a bundle takes the place of the one under its name, or comes last; no other bundle moves |
| PolicyService.SelectExact | s1/opa-integration-layer/src/service.ts:202-209 | the selected bundles are those named, or all if none is, in the order in which they are loaded |
| PolicyService.LoadedExactly | s1/opa-integration-layer/src/service.ts:94-272 | in every run a bundle is loaded exactly if it was the last one effectively loaded under its name and neither a deprecation nor the tenth throw in a row of evaluations that selected it followed |
| PolicyService.ErrorsAreStreak | s1/opa-integration-layer/src/service.ts:119-130 | in every run the error count of a name is the number of throws since the last successful evaluation that selected it |
| PolicyService.EvaluateUnloads | s1/opa-integration-layer/src/service.ts:124-130 | an evaluation unloads a bundle exactly if it throws, selected it, and its count reaches ten |
| PolicyService.RefusedExact | s1/opa-integration-layer/src/service.ts:60-62 | a request is refused exactly if one of its five identifying fields is empty, and then nothing changes |
| PolicyService.AnswerExact | s1/opa-integration-layer/src/service.ts:100-117 | a computed answer carries the decision, the names and versions of the bundles in order, and the admission envelope as reason exactly for a denial at admission |
| PolicyService.EvaluateExact | s1/opa-integration-layer/src/service.ts:89-138 | what an uncached request gets: a denial that is cached if nothing is selected, a denial that is not after a throw, the computed answer, cached, otherwise |
| PolicyService.HitExact | s1/opa-integration-layer/src/service.ts:89-92 | a request whose key is cached and unexpired gets that answer, and nothing changes but its place in the cache |
| PolicyService.PunishExact | s1/opa-integration-layer/src/service.ts:124-130 | a throw unloads exactly the selected bundles whose error count reaches ten |
| PolicyService.ValidAndSameNames | s1/opa-integration-layer/src/service.ts:76-92 | a cached decision whose bundle names are those selected now used exactly the bundles selected now, in the same order |
| PolicyService.RunJustified | s1/opa-integration-layer/src/service.ts:94-138 | in every reachable state every cached item is the answer of an evaluation of the run whose bundles are still valid |
| PolicyService.ServedWasComputed | s1/opa-integration-layer/src/service.ts:76-138 | for every run and request, an answer served from the cache is one an earlier evaluation computed from bundles still valid, under the same key text or a colliding one |
| PolicyService.CacheTransparent | s1/opa-integration-layer/src/service.ts:76-138 | over texts free of the key's delimiters, an answer served from the cache equals a fresh evaluation over the bundles selected now, but for the evaluation id, or two key texts of the run collide |
| KeySharing.ServedNext | s1/opa-integration-layer/src/service.ts:89-138 | an answer just computed is served to every request with the same key text within its time to live |
| KeySharing.ServesEarlierId | s1/opa-integration-layer/src/service.ts:89-92 | a repeated request is answered with the evaluation id of the earlier one |
| KeySharing.BarServesWrongly | s1/opa-integration-layer/src/service.ts:309-323 | for all texts: once an agent with a bar in its id is allowed an action class, the agent named before the bar is served Allow for the class with the rest of that id in front, which a fresh evaluation denies |
| KeySharing.NoneServesWrongly | s1/opa-integration-layer/src/service.ts:78-92 | an envelope called `none` that does not admit a request is not looked at once the bare request is cached |
| KeySharing.EnvelopeServesWrongly | s1/opa-integration-layer/src/service.ts:78-92 | of two envelopes with one id, the one that does not admit a request is not looked at once the answer under the other is cached |
| KeySharing.SelectionServesWrongly | s1/opa-integration-layer/src/service.ts:77-92 | for all names and versions: once a bundle whose name holds the delimiters is selected alone and allows, a request for the two bundles its version text spells is served Allow, although neither has a rule |
| KeySharing.ServedRightIfHarmless | s1/opa-integration-layer/src/service.ts:76-138 | over every run, whatever its texts, a served answer is right but for the evaluation id, unless key texts collide, if the two selections have the same names and are empty or the requests are of one case |
| KeySharing.SharedKeyHarmlessExactly | s1/opa-integration-layer/src/service.ts:76-138 | over any loaded bundles and for requests that name any of them: what is served across a shared key text is right under all rules of the bundles exactly if the selections have the same names and are empty, or the requests meet the same admission obstacle, or none and share action class and resource |
| PolicyService.AnsweredFromCache | s1/opa-integration-layer/src/service.ts:89-92 | a response says it is a cache hit exactly if the cache served it |
| PassportIssuance.PassportService.constructor | s0/passport-issuance-engine/internal/service/service.go:91-110 | starts with no passports |
| PassportIssuance.PassportService.IssuePassport | s0/passport-issuance-engine/internal/service/service.go:113-203 | computes `DoIssue` on both maps and the outbox |
| PassportIssuance.PassportService.RevokePassport | s0/passport-issuance-engine/internal/service/service.go:250-276 | computes `DoRevoke` on both maps and the outbox |
| PassportIssuance.RevokeExact | s0/passport-issuance-engine/internal/service/service.go:256-275 | a revocation of a stored, unrevoked passport stores it revoked with instant and reason, frees the agent if it named it, enqueues one event, and changes no other passport or name |
| PassportIssuance.RevokeIdle | s0/passport-issuance-engine/internal/service/service.go:251-262 | any other revocation changes nothing, and answers with the error or the revoked passport |
| PassportIssuance.RevokedFromThenOn | s0/passport-issuance-engine/internal/service/service.go:228-276 | once revoked, a passport is reported revoked in every continuation |
| PassportIssuance.PrecheckExact | s0/passport-issuance-engine/internal/service/service.go:114-144 | which requests each check before the mutex rejects, with which error, in which order |
| PassportIssuance.IssueExact | s0/passport-issuance-engine/internal/service/service.go:146-203 | an issuance succeeds exactly if the checks pass, the agent is free or reissue is forced, and signing and bundle lookup succeed; the passport stored, named and announced, field by field |
| PassportIssuance.IssueSupersedes | s0/passport-issuance-engine/internal/service/service.go:149-160 | of the passports there were, an issuance alters only the one the agent named, and only when forced |
| PassportIssuance.IssueFails | s0/passport-issuance-engine/internal/service/service.go:146-178 | an issuance that does not complete says why and leaves the names alone |
| PassportIssuance.FailureLeaves | s0/passport-issuance-engine/internal/service/service.go:146-178 | a failed issuance leaves everything as it was, unless a forced reissue had already revoked and announced the old passport |
| PassportIssuance.DependencyExact | s0/passport-issuance-engine/internal/service/service.go:166-178 | the bundle registry counts only if the request names no policy at all |
| PassportIssuance.VerifyExact | s0/passport-issuance-engine/internal/service/service.go:228-247 | a stored passport verifies exactly if it is neither revoked nor past its expiry and its signature checks out, and what is answered otherwise |
| PassportIssuance.VerifyUnknown | s0/passport-issuance-engine/internal/service/service.go:229-232 | an unknown passport is not found |
| PassportIssuance.RunSound | s0/passport-issuance-engine/internal/service/service.go:149-276 | in every reachable state each ACTIVE passport is the one named for its agent, and each named passport exists and is the agent's |
| PassportIssuance.AtMostOneActive | s0/passport-issuance-engine/internal/service/service.go:149-203 | an agent never has two ACTIVE passports |
| PassportIssuance.RunLasts | s0/passport-issuance-engine/internal/service/service.go:149-276 | REVOKED is permanent and nothing else about a passport ever changes |
| PassportIssuance.RevokedNeverVerifies | s0/passport-issuance-engine/internal/service/service.go:228-247 | a revoked passport is reported revoked in every continuation, whatever the credential store says |
| PassportIssuance.RunWithinLimits | s0/passport-issuance-engine/internal/service/service.go:114-144 | every stored passport respects the lifetime and action limits of its type |
| PassportIssuance.NamedActiveIffNotDangling | s0/passport-issuance-engine/internal/service/service.go:149-203 | the named passport is ACTIVE exactly unless the last effective issuance for the agent was a forced reissue that failed at signing or bundle lookup |
| PassportIssuance.DanglingIsStuck | s0/passport-issuance-engine/internal/service/service.go:149-262 | then unforced issuance is refused and revoking changes nothing |
| PassportIssuance.DanglingReachable | s0/passport-issuance-engine/internal/service/service.go:153-169 | such a state is reached by one issuance and one forced reissue whose signing fails |
| AgentRegistry.Repository.constructor | s0/agent-registry-service/internal/repository/postgres/repository.go:29-32 | starts with empty tables |
| AgentRegistry.Repository.RegisterAgentWithOutbox | s0/agent-registry-service/internal/repository/postgres/repository.go:35-124 | agent, envelope, history and outbox rows are written together, with the status and event type passed in, or, on a bad status, a clash of ids or any failing statement, not at all |
| AgentRegistry.Repository.UpdateAgentStatus | s0/agent-registry-service/internal/repository/postgres/repository.go:292-356 | status, history and outbox change together, or not at all, and only along allowed transitions |
| AgentRegistry.UpdateExact | s0/agent-registry-service/internal/repository/postgres/repository.go:292-356 | an update succeeds exactly if no statement fails and the status stays or moves along one of the five listed ways; the error otherwise, and the rows a move writes |
| AgentRegistry.RegisterExact | s0/agent-registry-service/internal/repository/postgres/repository.go:35-124 | a registration succeeds exactly with a known status, no clash of agent, external or envelope ids and no failing statement, and writes exactly these rows |
| AgentRegistry.AlreadyExistsExact | s0/agent-registry-service/internal/repository/postgres/repository.go:35-124 | `AlreadyExists` means exactly a taken agent id or an external id the owner already uses |
| AgentRegistry.RunConsistent | s0/agent-registry-service/internal/repository/postgres/repository.go:104-353 | each agent's history is a linked path of allowed transitions from PENDING to its stored status, with one matching outbox event per row |
| AgentRegistry.RunUnique | s0/agent-registry-service/migrations/001_init.sql:13-13 | no two agents of one owner ever share an external id, nor any two agents an envelope id |
| AgentRegistry.EnvelopeImmutable | s0/agent-registry-service/internal/service/registry.go:40-41 | once an agent is registered, its registration data and its admission envelope, present or absent, never change |
| AgentRegistry.DeregisteredIsFinal | s0/agent-registry-service/internal/domain/agent.go:12-25 | DEREGISTERED appears at most once, as the last row |
| AgentRegistry.HistoryShape | s0/agent-registry-service/internal/domain/agent.go:12-25 | PENDING is only ever first, ACTIVE always second, and no unknown status is ever stored |
| AgentListing.ListAgents | s0/agent-registry-service/internal/repository/postgres/repository.go:209-289 | returns the page after the token, with the first agent left out as the next token |
| AgentListing.MatchingExact | s0/agent-registry-service/internal/repository/postgres/repository.go:223-244 | which agents are listed: of the given status, or any but DEREGISTERED, of the given type and owner |
| AgentListing.PageExact | s0/agent-registry-service/internal/repository/postgres/repository.go:209-289 | a page holds at most the limit, 50 if not positive and at most 1000, and its token is the first agent left out |
| AgentListing.SessionSkips | s0/agent-registry-service/internal/repository/postgres/repository.go:234-288 | successive calls that follow the tokens list all but every agent right behind a full page, in order |
| AgentListing.ListingSkips | s0/agent-registry-service/internal/repository/postgres/repository.go:234-288 | exactly the agents right behind a full page are never listed |
| AgentListing.ListingCompleteExactly | s0/agent-registry-service/internal/repository/postgres/repository.go:284-287 | the listing is complete exactly if all agents that pass the filter fit on the first page |

## Left out

- Missing prefixes, position gaps and edits of `correlation_id`, `idempotency_key` or `chain_position`: `verify_chain` does not check them.
- The PostgreSQL ledger repository and its constraint errors: the in-memory repository is modelled; it never answers Unavailable.
- Integer widths: `chain_position` (i64), the breaker's failure counter (u32) and timestamps are unbounded.
- JSON event payloads of the ledger outbox: a payload is an arbitrary text supplied with the append.
- Stale inserts into the passport cache after an invalidation: a fetch in flight can insert afterwards, so no such claim is made; the cache steps of interleaved fetches are not part of the breaker's state machine.
- `evaluate_scope_batch`, `get_agent_scope_set`: plain loops and projections over the modelled operations.
- Compilation of rule texts, bundle integrity and signature checks: one input says whether a load succeeds.
- Fetching and caching of admission envelopes: a request arrives with the envelope it ends up with.
- Number parsing of metadata texts against caps: a function parameter.
- Agent columns nothing else depends on: one text; a run registers agents as PENDING with AGENT_REGISTERED, as the one caller does.
- PolicyService.CacheTransparent: requires texts free of the key's delimiters, one envelope per envelope id and none called `none`, because the code is not transparent without; `ServedRightIfHarmless` and `SharedKeyHarmlessExactly` cover all texts.
- `GetAgent` after the commit of a status change, the agent details a listing returns, and the agent registry's outbox processor.
- The passport service's best-effort ledger writes, and the hashing of signed payloads.
- Gateway and REST handlers, gRPC adapters, configuration, metrics, health endpoints, Python tools and scripts.
