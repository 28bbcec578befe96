# Verified model of the orchestration experiments

This project models, in Dafny, the instruments behind the repository's memory experiments and its
reranking benchmark, and proves what their documentation claims for them over every input, run or
interleaving. One module follows one source component, and a second module beside it holds the
theorems over whole runs.

* **Facts, extraction, T6 bounds** (`Facts`, `FactHistory`, `FactProvenance`, `Extraction`,
  `Acceptance`, `Requests`, `TurnOutcomes`, `CausalRuns`, `Json`, `JsonSize`, `JsonRoundTrip`, `ResponseSize`,
  `T6Bounds`, `BoundsReached`). Operations fold into a history of linked facts; the history refines a plain
  slot map and only grows, and every field of every fact is read off the operations; which payloads count, when a
  request is built and what it says are decided exactly; feeding a conversation trips no guard; and the JSON of the active slots is charged, byte by byte, to the responses it came from. A response is
  represented by its concrete syntax tree and the white space around it, so that the bound holds for the
  real text, escapes included, and not for a normal form of it.
* **Ledgers as protocols** (`HeldoutAttempts`, `AttemptDecisions`, `AttemptProtocol`, `EventLog`,
  `EventDefects`, `SpendGuard`, `SpendHistory`, `SharedLedgers`, `Allotments`, `StageBudgets`, `HeldoutAccess`,
  `HeldoutRuns`, `HeldoutRaces`, `ExternalCalls`, `CallTraces`). Each ledger is a class whose methods append to a sequence, and a state
  machine over its steps; the attempt ledger and the pools are also run by any number of processes with stale
  checks and crashes.
* **Ranking and checksums** (`RankingQuality`, `RankingRepeats`, `RankingValues`, `KendallTau`, `Checksums`,
  `CheckDigits`, `IbanExchange`). NDCG by its exact value and a rearrangement inequality for cut sums, Kendall's tau
  by counting pairs, check digits and error detection of the Luhn and IBAN checks at all lengths.
* **Queries, retrieval, chunking** (`QueryFrame`, `QueryText`, `QueryDecoder`, `MemorySearch`,
  `RankFusion`, `FusionOrder`, `Chunking`, `ChunkEnds`, `DocumentChunking`), over `Texts`, `Numerals`, `Sorting` and
  `Wrappers`.

Conventions: a text is a sequence of code points, lone surrogates included, and bytes are counted by
its UTF-8 form. Normalisations (NFC, and the key used to compare values) are parameters, any functions;
NFC is assumed to keep ASCII where identifiers pass through it. A fact's digest is represented by the
record it is taken over. The event log and the pools take any digest function, and where a claim rests on
collision resistance the lemma concludes with a collision instead of assuming that there is none. Money,
scores and similarities are exact reals. `list.sort` is a stable insertion sort. An exception is a value
of a `Result` or an `Option`. Loops of the source are loops here, proved against functions.

Where a claim is not true as first stated, the project keeps the code's behaviour and gives the limit:

* `ExactMemoryIndex.search` tests its limit after it selects, so it returns one result for k = 0, and keeps
  the limit exactly when k is positive or nothing is eligible (`LimitIsKept`).
* NDCG@10 stays within 1 for all grades exactly when the first ten entries in range do not repeat
  (`NdcgBoundIsExact`).
* Rank fusion is Pareto-consistent for constants from -2 up and for no constant below
  (`ParetoConsistent`, `NegativeConstantsBreakIt`).
* The framed query can be decoded exactly when every event has a message (`DecodeInvertsPrinting`). The
  dataset loader demands two messages per event
  (experiments/dual_conversational_memory/dataset.py:311), so only a direct call can print an empty one.
* A request fails, after every guard has passed, exactly when a turn holds a lone surrogate
  (`NextRequestSucceeds`).
* A stage's smaller cap does not bound what other stages spend on a shared ledger
  (`SmallerCapIsOvershot`), and the two stages of the repository price differently
  (`run_t3.py:38-41`, `run_t4.py:95-103`). For stages of any prices a limit bounds every run exactly when no amounts
  that the stages can be charged fit their budgets one after another and exceed it (`StagesCanSpend`); with one
  price list this is a matter of single calls (`CapBoundsEveryRun`), with several it is not (`MixedPricesAddUp`).
* A pool keeps at most one live seal exactly while every check still holds when its event is appended
  (`SoundExactlyWhenChecksHold`). Two seals that race past the check leave a pool that accepts nothing more, for
  good (`RacedSealsFailClosed`); two invalidations leave one that can be sealed and not read
  (`RacedInvalidationsStrandPool`).
* Of the separators of the chunkers only the line feed and the space ever decide where a window ends
  (`WindowEndsAtLastBreak`).
* Kendall's tau of a ranking with itself is 1 exactly when it repeats nothing (`TauWithItself`).
* Feeding a conversation raises exactly at a turn without a UTF-8 form (`FeedingRaisesExactly`).

`dafny verify dfyconfig.toml` checks the whole project.

## Model

| member | source | states |
|---|---|---|
| `Facts.Apply` | experiments/conversational_semantic_memory/facts.py:126-164 | the loop over operations computes the fold of one step per operation; a backward sequence or an invalid statement is refused and nothing changes |
| `Facts.ActiveIndex` | experiments/conversational_semantic_memory/facts.py:143-144 | the first active fact of a slot, or none exactly when the slot has none |
| `Facts.Distinct` | experiments/conversational_semantic_memory/facts.py:152-155 | merged provenance keeps every source once |
| `FactHistory.SupersedeKeepsLinks` | experiments/conversational_semantic_memory/facts.py:156-163 | replacing an active fact by a fresh one keeps every forward and backward link matched |
| `FactHistory.StepsKeepSound` | experiments/conversational_semantic_memory/facts.py:138-164 | any list of operations keeps one active fact per slot, distinct identifiers, and matched, forward, same-slot links |
| `FactHistory.StepRefinesMap` | experiments/conversational_semantic_memory/facts.py:138-164 | one operation acts on the active facts as it acts on a plain slot map: assert replaces unless the normalised values agree, retract deletes |
| `FactHistory.StepsRefineMap` | experiments/conversational_semantic_memory/facts.py:138-164 | the same for a whole operation list |
| `FactHistory.ShownMapIsUnique` | experiments/conversational_semantic_memory/facts.py:143-144 | the facts determine the map they show |
| `FactHistory.StepsExtend` | experiments/conversational_semantic_memory/facts.py:138-164 | no fact is removed; identity, value and `supersedes` never change, provenance only grows, status only leaves active, the audit only grows |
| `FactHistory.ReachableStoresAreSound` | experiments/conversational_semantic_memory/facts.py:113-164 | every store reachable from an empty one by any calls, accepted or refused, is sound and shows exactly the map of the accepted operations |
| `FactHistory.RunsOnlyExtend` | experiments/conversational_semantic_memory/facts.py:126-164 | later calls only extend the history of any sound store |
| `FactHistory.ChainEnd` | experiments/conversational_semantic_memory/facts.py:156-163 | following successors from any fact ends, in the same slot, at a fact that is not superseded |
| `FactHistory.ChainsAreDisjoint` | experiments/conversational_semantic_memory/facts.py:156-163 | supersession chains neither merge nor fork |
| `FactHistory.StepIsOnRecord` | experiments/conversational_semantic_memory/facts.py:146-148 | a retraction is put on record exactly when its slot has no active fact, with its operation, turn and place |
| `FactProvenance.PlayIsAccounted` | experiments/conversational_semantic_memory/facts.py:138-164 | from any sound history and under any operations, each fact is inherited or made by one assertion, with that assertion's value, kind, statement, sequence and scope; its sources are those of the assertion and of the later agreeing ones while it is active; its status and successor are those of the first operation that contradicts it |
| `FactProvenance.AssertionIsRecorded` | experiments/conversational_semantic_memory/facts.py:152-163 | right after an assertion, the active fact of its slot agrees with it and holds every source it cites |
| `FactProvenance.EveryAssertionIsRecorded` | experiments/conversational_semantic_memory/facts.py:152-163 | and some fact goes on holding them, whatever follows |
| `FactProvenance.RunsAreAccounted` | experiments/conversational_semantic_memory/facts.py:126-164 | the same for every store reachable by accepted and refused calls, over the trace of the accepted ones: those after the last sequence with a text for a statement, which is stored in NFC |
| `FactProvenance.FactsBelongToTheStore` | experiments/conversational_semantic_memory/facts.py:113-123 | the facts of a store that began empty carry its tenant, conversation and version in NFC |
| `Extraction.ExtractTurn` | experiments/conversational_semantic_memory/extraction.py:80-115 | one completion of any content yields the accepted operations, one audit entry per rejected payload (or one for a malformed document), and the updated store |
| `Acceptance.AcceptedExactly` | experiments/conversational_semantic_memory/facts.py:58-84 | a payload is accepted as an operation exactly when it is an object of the operation's five fields in any order, their contents are admissible, and the sources are the current turn alone |
| `Acceptance.SnakeCaseIsWords` | experiments/conversational_semantic_memory/facts.py:61-62 | slot keys are the words of lower-case letters and digits, a letter first, joined by single underscores |
| `Acceptance.ResponseIsSorted` | experiments/conversational_semantic_memory/extraction.py:93-109 | the accepted operations are those spelled by payloads, in order, and there is one rejection, at its place, for every other payload |
| `JsonRoundTrip.QuoteDecodes` | experiments/conversational_semantic_memory/events.py:38-42 | a serialised string decodes to itself |
| `JsonRoundTrip.CompactObjectDecodes` | experiments/conversational_semantic_memory/events.py:38-42 | a serialised object decodes to its pairs |
| `Requests.PayloadDecodes` | experiments/conversational_semantic_memory/extraction.py:67-70 | the payload is a JSON document without repeated keys that says the active slots and the turn, and nothing else |
| `Requests.RequestsAreExact` | experiments/conversational_semantic_memory/extraction.py:45-77 | a request is built exactly for the next user turn of the store's own conversation, when every fact rests on earlier user turns only, no slot is active twice and all texts have a UTF-8 form; its payload then says the turn and exactly the active facts by ascending slot |
| `TurnOutcomes.TurnIsExtracted` | experiments/conversational_semantic_memory/extraction.py:80-115 | a turn is extracted exactly when its request may be made and it is not blank; the result holds the operations its completion spells and counts the rest, and the store is accounted for by them, its audit trail included |
| `CausalRuns.NextRequestSucceeds` | experiments/conversational_semantic_memory/extraction.py:45-77 | on a causal store the request for the next user turn is exactly the canonical payload; it fails only, and exactly, when the turn has no UTF-8 form |
| `CausalRuns.SlotsOfCausalStore` | experiments/conversational_semantic_memory/extraction.py:64-66 | the sorted active slots of such a store never repeat a key and can be encoded |
| `CausalRuns.ExtractionKeepsCausal` | experiments/conversational_semantic_memory/extraction.py:84-115 | answering a turn succeeds and keeps scope, causality, provenance in prior user turns and link soundness, whatever the answer is |
| `CausalRuns.FeedingNeverRaises` | experiments/conversational_semantic_memory/extraction.py:45-115 | feeding the user turns of a parsed case in order from a fresh store never trips any guard, for any completions, while the turns have a UTF-8 form, and the store stays causal |
| `CausalRuns.FeedingRaisesExactly` | experiments/conversational_semantic_memory/extraction.py:45-115 | feeding any completions raises exactly when it reaches a turn without a UTF-8 form |
| `JsonSize.PiecesAreNoShorter` | experiments/conversational_semantic_memory/t6_bounds.py:86-90 | no spelling of a string literal, escapes included, is shorter than its compact escaping |
| `JsonSize.StringIsNoShorter` | experiments/conversational_semantic_memory/t6_bounds.py:86-90 | the same for the quoted literal |
| `JsonSize.EscapeGrowth` | experiments/conversational_semantic_memory/t6_bounds.py:113-124 | escaping costs between one and six bytes per byte of text, the factor the payload bound uses |
| `JsonSize.CompactObjectLen` | experiments/conversational_semantic_memory/t6_bounds.py:100-110 | the exact bytes of a serialised object: brackets, pairs, commas between them |
| `ResponseSize.OperationObjectLen` | experiments/conversational_semantic_memory/t6_bounds.py:85-97 | whatever its spelling and key order, the object behind an accepted operation takes at least the operation's floor of bytes |
| `ResponseSize.ResponseHoldsItsOperations` | experiments/conversational_semantic_memory/t6_bounds.py:85-110 | the floors of all accepted operations and eleven bytes of frame fit together in the one response they came from |
| `T6Bounds.T6Extractor.constructor` | experiments/conversational_semantic_memory/t6_bounds.py:51-55 | a fresh extractor owns the fresh store and is not stopped |
| `T6Bounds.T6Extractor.Extract` | experiments/conversational_semantic_memory/t6_bounds.py:32-69 | a stopped extractor refuses everything; an oversized or unencodable response stops it for good and leaves the store; otherwise the store is that of the extraction |
| `T6Bounds.ResponseBoundsHold` | experiments/conversational_semantic_memory/t6_bounds.py:85-97 | every accepted response keeps the computed bounds on operations, key bytes and value bytes, for any demonstrated provenance minimum |
| `T6Bounds.ActiveSlotsFitTheResponses` | experiments/conversational_semantic_memory/t6_bounds.py:100-110 | after any run of responses the active-slot JSON is at most two bytes and all response bytes together |
| `T6Bounds.TotalIsBounded` | experiments/conversational_semantic_memory/t6_bounds.py:100-110 | j accepted responses total at most j allowances, which is `active_slots_json_bytes` |
| `T6Bounds.PayloadLen` | experiments/conversational_semantic_memory/t6_bounds.py:113-124 | the payload's bytes are those of its empty shell, its quoted content and its slots |
| `T6Bounds.PayloadIsBounded` | experiments/conversational_semantic_memory/t6_bounds.py:100-124 | after any j accepted responses the next request exists and its payload and slots keep `extraction_payload_bytes` and `active_slots_json_bytes` |
| `BoundsReached.FloorsAreReached` | experiments/conversational_semantic_memory/t6_bounds.py:85-97 | any operations of a short kind have a response of exactly eleven bytes and their floors |
| `BoundsReached.ResponseBoundsAreReached` | experiments/conversational_semantic_memory/t6_bounds.py:85-97 | accepted responses exist that hold as many operations, as long a value and as long a key as the bounds allow |
| `BoundsReached.PayloadBoundIsReached` | experiments/conversational_semantic_memory/t6_bounds.py:113-124 | before any response some turn reaches the payload bound exactly, and each response raises the bound by one allowance |
| `HeldoutAttempts.HeldoutAttemptLedger.Start` | experiments/conversational_memory/execution.py:127-192 | the decision on the log, then the exclusive reservation, then the start event; a refusal leaves log and reservations as they were |
| `HeldoutAttempts.HeldoutAttemptLedger.Reserve` | experiments/conversational_memory/execution.py:167-176 | exclusive create: it reports whether the reservation existed, and it exists afterwards |
| `HeldoutAttempts.HeldoutAttemptLedger.Terminal` | experiments/conversational_memory/execution.py:220-253 | a terminal is appended exactly when the run has one start and no terminal, with that start's fields |
| `AttemptProtocol.UninterruptedStart` | experiments/conversational_memory/execution.py:127-192 | the three interleavable steps, run without an interruption, have exactly the effect of `Start` |
| `AttemptProtocol.UninterruptedTerminal` | experiments/conversational_memory/execution.py:220-253 | the two steps that close an attempt, run without an interruption, have exactly the effect of `Terminal` |
| `AttemptProtocol.StartDecisionOnGoodLog` | experiments/conversational_memory/execution.py:136-165 | on a well-formed log a start is allowed exactly when the last attempt is closed, invalid and retry-eligible, the limit leaves room and the run is new |
| `AttemptProtocol.ReservationPinsTheLog` | experiments/conversational_memory/execution.py:166-178 | whoever succeeds in creating reservation n decided on the log as it still is, and nobody else holds a reservation |
| `AttemptProtocol.EveryInterleavingIsConsistent` | experiments/conversational_memory/execution.py:127-253 | every state reachable by any interleaving of any number of processes, crashes included, keeps the protocol invariant |
| `AttemptProtocol.EveryReachableLogIsGood` | experiments/conversational_memory/execution.py:127-253 | every reachable log is a run of start/terminal pairs numbered 1..m with m within the limit, all but the last invalid and retry-eligible, and nothing after a completed one |
| `AttemptProtocol.StartsAreNeverStale` | experiments/conversational_memory/execution.py:166-192 | a start is appended only to the very log its decision was taken on, by the only holder |
| `AttemptProtocol.OwnerMayClose` | experiments/conversational_memory/execution.py:220-253 | the owner of the open attempt can always close it, with the fields of its start |
| `AttemptProtocol.OrphanedReservationBlocksForever` | experiments/conversational_memory/execution.py:166-178 | while a reservation without a holder stands for the next attempt, no run changes the log |
| `AttemptProtocol.CrashBlocksForever` | experiments/conversational_memory/execution.py:166-178 | in every reachable state, if the process that holds a reservation crashes before its event, the log stays as it is under every later run: the ledger fails closed |
| `AttemptDecisions.StartIsExact` | experiments/conversational_memory/execution.py:136-165 | on any log, an attempt may start exactly under a policy that adds up, on numbered starts, without a completed event, for an unknown run, within the limit, when the last start has a terminal of which the last is invalid and eligible for a retry |
| `AttemptDecisions.TerminalIsExact` | experiments/conversational_memory/execution.py:229-242 | on any log, a terminal is accepted exactly for a run with one start and no terminal on numbered starts, and closes that start |
| `RankingQuality.Rearrangement` | app/scripts/run_reranking_benchmark.py:291-296 | for strictly decreasing positive weights cut at a rank, no selection of the values sums to more than their descending order, with equality exactly when the same values show before the cut |
| `RankingQuality.NdcgIsNormalised` | app/scripts/run_reranking_benchmark.py:291-299 | NDCG@10 lies in [0,1] for every ranking whose first ten shown candidates do not repeat, and is 1 exactly when some grade is positive and the first ten ranks show the ideal grades |
| `RankingQuality.OnlyShownMatters` | app/scripts/run_reranking_benchmark.py:293-296 | NDCG@10 of a ranking is that of its first ten entries in range |
| `RankingRepeats.NdcgBoundIsExact` | app/scripts/run_reranking_benchmark.py:291-299 | a ranking keeps NDCG@10 within 1 for all grades of n candidates exactly when its first ten entries in range do not repeat |
| `RankingRepeats.RepeatsExceed` | app/scripts/run_reranking_benchmark.py:291-299 | if they repeat, grading every shown candidate 1 and the others 0 gives more than 1 |
| `RankingQuality.SortedRankingIsPerfect` | app/scripts/run_reranking_benchmark.py:291-299 | ordering all candidates by decreasing grade gives 1 |
| `RankingQuality.RepeatedCandidateBreaksNdcg` | app/scripts/run_reranking_benchmark.py:293-299 | for instance the ranking [0, 0] over grades [1, 0] exceeds 1 |
| `RankingQuality.HitsAreHighReciprocalRanks` | app/scripts/run_reranking_benchmark.py:297-302 | the reciprocal rank lies in [0,1] and is at least one fifth exactly when the hit rate counts a hit |
| `RankingValues.NdcgIsExact` | app/scripts/run_reranking_benchmark.py:291-299 | NDCG@10 times the sum of (2^grade - 1) * discount over the first ten of any ideal order is that sum over the first ten shown, and it is zero when the ideal sum is |
| `RankingValues.WorseFirst` | app/scripts/run_reranking_benchmark.py:291-299 | its value when two candidates are shown in the wrong order |
| `RankingValues.ReciprocalRankIsExact` | app/scripts/run_reranking_benchmark.py:297-301 | MRR@10 is the reciprocal of the first rank, up to ten, that shows a grade of at least one, and zero without one |
| `RankingValues.HitRateIsExact` | app/scripts/run_reranking_benchmark.py:302 | the hit rate is one exactly when one of the first five shown grades is at least one |
| `KendallTau.KendallTau` | app/scripts/run_reranking_benchmark.py:411-424 | the nested loops compute tau over the shared items, and zero for fewer than two |
| `KendallTau.CountPairs` | app/scripts/run_reranking_benchmark.py:416-423 | every pair of shared items is counted once, as concordant or as discordant |
| `KendallTau.ConcordantIsCardinality` | app/scripts/run_reranking_benchmark.py:417-421 | the concordant counter is the number of item pairs both orders agree on |
| `KendallTau.ConcordantSetMembers` | app/scripts/run_reranking_benchmark.py:416-421 | a pair counts exactly when the list and the other ranking's positions put its members in the same order |
| `KendallTau.TauIsBounded` | app/scripts/run_reranking_benchmark.py:411-424 | tau lies in [-1,1] for any two rankings |
| `KendallTau.TauIsSymmetric` | app/scripts/run_reranking_benchmark.py:411-424 | tau does not depend on which duplicate-free ranking comes first, even when only some items are shared |
| `KendallTau.TauWithItself` | app/scripts/run_reranking_benchmark.py:411-424 | a ranking of at least two entries has tau 1 with itself exactly when it repeats no item |
| `KendallTau.RepeatedPairIsDiscordant` | app/scripts/run_reranking_benchmark.py:411-424 | a ranking of one item twice has tau -1 with itself |
| `KendallTau.ReversalNegatesTau` | app/scripts/run_reranking_benchmark.py:411-424 | reversing either ranking negates tau |
| `Checksums.CheckLuhn` | experiments/conversational_semantic_memory/payload_scan.py:78-87 | the loop from the right decides whether the weighted digit sum is a multiple of ten |
| `CheckDigits.LuhnIsDoubledSum` | experiments/conversational_semantic_memory/payload_scan.py:78-87 | a number passes exactly when the sum of its digits, with every second one from the right doubled and replaced by its digit sum, is a multiple of ten |
| `Checksums.LuhnDetectsSingleDigit` | experiments/conversational_semantic_memory/payload_scan.py:78-87 | at every length, a change of any one digit of a valid number is rejected (ISO/IEC 7812-1, Annex B) |
| `Checksums.LuhnTranspositions` | experiments/conversational_semantic_memory/payload_scan.py:78-87 | exchanging neighbours of a valid number is missed exactly for equal digits and for 0 and 9 |
| `Checksums.LuhnCheckDigit` | experiments/conversational_semantic_memory/payload_scan.py:78-87 | every digit string has exactly one check digit |
| `Checksums.NumberIsValue` | experiments/conversational_semantic_memory/payload_scan.py:93-96 | the concatenated decimal string denotes the number built character by character |
| `Checksums.EndsAlike` | experiments/conversational_semantic_memory/payload_scan.py:94-96 | characters after a change never cancel its effect on the residue modulo 97, because ten is invertible |
| `Checksums.CompactChange` | experiments/conversational_semantic_memory/payload_scan.py:90-96 | changing a digit to a digit or a letter to a letter keeps a valid account number valid exactly when the value is the same |
| `Checksums.IbanDetectsSingleChange` | experiments/conversational_semantic_memory/payload_scan.py:90-96 | the same on the candidate as written, at every permitted length and spacing (ISO 13616-1, MOD 97-10 of ISO/IEC 7064) |
| `Checksums.IbanTranspositions` | experiments/conversational_semantic_memory/payload_scan.py:90-96 | exchanging neighbours not divided by the rearrangement is missed exactly for equal values and for a digit with the letter of eleven times its value |
| `IbanExchange.IbanExchangeAcrossCut` | experiments/conversational_semantic_memory/payload_scan.py:90-96 | exchanging the fourth and fifth character, two digits or two letters, which the rearrangement moves to opposite ends, is missed exactly for equal values |
| `IbanExchange.IbanDetectsExchange` | experiments/conversational_semantic_memory/payload_scan.py:90-96 | on the candidate as written, at every spacing, exchanging neighbouring characters is missed exactly for equal values and for a digit with the letter of eleven times its value; for the fourth and fifth, two digits or two letters, exactly for equal values |
| `CheckDigits.IbanCheckDigits` | experiments/conversational_semantic_memory/payload_scan.py:90-96 | a candidate, at any spacing, passes exactly when its length is permitted and its check digits are 98 less the residue modulo 97 of the number read from the rest, the country and two zeros; of 02 to 98 that is one value (ISO 13616-1, MOD 97-10) |
| `EventLog.EventFile.Verify` | experiments/conversational_semantic_memory/events.py:96-123 | the events of the file, or the first defect in the order the checks are made |
| `EventLog.EventFile.Append` | experiments/conversational_semantic_memory/events.py:126-157 | a file that verifies gains exactly one line; a bad type or a defective file is refused and left as it is |
| `EventLog.VerifiedIsChained` | experiments/conversational_semantic_memory/events.py:96-123 | a file verifies exactly when every line parses and the events are numbered from zero, linked and hashed |
| `EventDefects.VerifyIsExact` | experiments/conversational_semantic_memory/events.py:96-123 | verifying yields exactly the events of a file in which every line names its place, the digest before it (sixty-four zeros for the first) and its own, and otherwise exactly the first thing wrong with the first line that does not |
| `EventDefects.KindIsExact` | experiments/conversational_semantic_memory/events.py:126-134 | a kind is a lower-case letter and at most 63 letters, digits and underscores |
| `EventLog.AppendKeepsChain` | experiments/conversational_semantic_memory/events.py:126-157 | appending to a verified log leaves a verified log that extends it by one event |
| `EventLog.AppendedFileVerifies` | experiments/conversational_semantic_memory/events.py:126-157 | the file after an append verifies to the old log and the new event |
| `EventLog.SameTipSameLog` | experiments/conversational_semantic_memory/events.py:96-123 | two verified logs with the same last hash are equal, or the lemma returns two contents recorded in them that collide (or one whose digest is the genesis value) |
| `EventLog.FirstIsFirst` | experiments/conversational_semantic_memory/events.py:160-161 | `first` finds the earliest matching event, or none exactly when there is none |
| `EventLog.PrecedesMeans` | experiments/conversational_semantic_memory/events.py:164-178 | on a verified log `precedes` holds exactly when some earlier event comes before every later one |
| `EventLog.PrecedesIsStable` | experiments/conversational_semantic_memory/events.py:164-178 | once true it stays true, and once false with a later event on record it stays false, under any number of appends |
| `SpendGuard.SpendGuard.State` | experiments/conversational_semantic_memory/spend_guard.py:88-109 | committed and open amounts and the next ordinal, or the inconsistency of the ledger |
| `SpendGuard.SpendGuard.Reserve` | experiments/conversational_semantic_memory/spend_guard.py:116-160 | a reservation is recorded exactly when spending and it fit the smaller cap; every refusal leaves the ledger as it was |
| `SpendGuard.SpendGuard.Settle` | experiments/conversational_semantic_memory/spend_guard.py:162-190 | reported usage is charged at cost, and missing usage at the whole reservation |
| `SpendGuard.ValidateLedger` | experiments/conversational_semantic_memory/spend_guard.py:193-235 | the loop computes the report of the fold over the entries |
| `SpendHistory.CallIdsDiffer` | experiments/conversational_semantic_memory/spend_guard.py:143 | identifiers of different ordinals differ, whatever the stage names contain |
| `SpendHistory.Perform` | experiments/conversational_semantic_memory/spend_guard.py:116-190 | each action of a run has the effect of the call it stands for |
| `SpendHistory.CostIsMonotone` | experiments/conversational_semantic_memory/spend_guard.py:45-50 | with fair prices, usage within the reserved tokens never costs more than the reservation |
| `SpendHistory.OpenMeansUnsettled` | experiments/conversational_semantic_memory/spend_guard.py:88-109 | on a readable ledger that issues no identifier twice, a call is open exactly from its reservation to its first result |
| `SpendHistory.SettleNeedsOpenCall` | experiments/conversational_semantic_memory/spend_guard.py:88-109 | settling leaves such a ledger readable exactly when the call was reserved and has no result yet |
| `SpendHistory.SettleKeepsOrder` | experiments/conversational_semantic_memory/spend_guard.py:162-190 | settling an open call keeps the ledger readable, its identifiers distinct and its open amounts backed |
| `SpendHistory.SpendStaysWithinBudget` | experiments/conversational_semantic_memory/spend_guard.py:88-190 | over every sequential run of reservations, settlements and crashes of stages sharing a ledger, whatever their prices, committed plus unresolved stays within any bound on their budgets (one stage: its own budget) and no identifier repeats |
| `StageBudgets.StagesCanSpend` | experiments/conversational_semantic_memory/spend_guard.py:88-190 | for stages of any caps and any fair price lists, listed by budget, a run can spend more than a limit exactly when there are amounts, each a price of its stage, that up to every stage fit that stage's budget and together exceed the limit |
| `StageBudgets.RunsKeepAccounts` | experiments/conversational_semantic_memory/spend_guard.py:88-190 | after every run the ledger has books: what each stage has committed and holds open are prices of that stage, fit the budgets one after another, and add up to the spending |
| `SharedLedgers.CapBoundsEveryRun` | experiments/conversational_semantic_memory/spend_guard.py:88-190 | among guards with one price list and any caps, a cap bounds committed plus unresolved over every run exactly when no guard may reserve a call priced above the cap and within its own budget |
| `SharedLedgers.SmallerCapIsOvershot` | experiments/conversational_semantic_memory/spend_guard.py:116-160 | a run of a stage capped at ten takes the ledger past the cap of five of the stage that shares it |
| `SharedLedgers.MixedPricesAddUp` | experiments/conversational_semantic_memory/spend_guard.py:116-160 | with two price lists single calls do not decide it: calls of three and two dollars add up past a cap that neither alone can pass |
| `SpendHistory.ReportAgrees` | experiments/conversational_semantic_memory/spend_guard.py:193-235 | on a readable ledger the validator reports the guard's total, and passes it exactly when every reservation and the end fit |
| `SpendHistory.LawfulLedgersPass` | experiments/conversational_semantic_memory/spend_guard.py:193-235 | the ledger of any lawful run passes validation with the total the guard reports |
| `SpendHistory.SecondSettlementIsFatal` | experiments/conversational_semantic_memory/spend_guard.py:102-108 | settling a call twice makes the ledger unreadable whatever follows |
| `HeldoutAccess.Pools.FindSealedDigest` | experiments/conversational_semantic_memory/heldout_access.py:25-42 | the digest of the one live seal, by pushing seals and popping invalidations |
| `HeldoutAccess.Pools.CountLiveSeals` | experiments/conversational_semantic_memory/heldout_access.py:64-74 | seals minus invalidations of the pool |
| `HeldoutAccess.Pools.Seal` | experiments/conversational_semantic_memory/heldout_access.py:77-85 | a seal of the present bytes is recorded exactly when no seal is live and the file exists |
| `HeldoutAccess.Pools.InvalidateSeal` | experiments/conversational_semantic_memory/heldout_access.py:45-61 | the one live seal is retired, for a reason of at least twenty characters |
| `HeldoutAccess.Pools.Read` | experiments/conversational_semantic_memory/heldout_access.py:88-100 | every comparison with a live seal leaves an access event, and only matching bytes are returned |
| `HeldoutRuns.CountIsStackHeight` | experiments/conversational_semantic_memory/heldout_access.py:25-74 | the counter and the height of the stack agree on every readable log |
| `HeldoutRuns.Perform` | experiments/conversational_semantic_memory/heldout_access.py:45-100 | each action of a run has the effect of the call it stands for |
| `HeldoutRuns.PoolsAreIndependent` | experiments/conversational_semantic_memory/heldout_access.py:25-100 | an operation on one pool leaves every other pool's live seals unchanged |
| `HeldoutRuns.EveryRunIsSound` | experiments/conversational_semantic_memory/heldout_access.py:25-100 | under any run with outside writes, each pool has no live seal or one, and it is the digest of the bytes sealed |
| `HeldoutRuns.ReadsReturnSealedBytes` | experiments/conversational_semantic_memory/heldout_access.py:88-100 | a successful read returns bytes with the digest of the bytes present at sealing, so the same bytes unless exactly these two collide, and leaves a matching event |
| `HeldoutRuns.SealingIsExclusive` | experiments/conversational_semantic_memory/heldout_access.py:77-100 | a pool may be sealed exactly when a read would be refused for want of a seal |
| `HeldoutRuns.RefusalsAreExact` | experiments/conversational_semantic_memory/heldout_access.py:77-85 | in every run, why a seal is refused |
| `HeldoutRuns.RetiringIsExact` | experiments/conversational_semantic_memory/heldout_access.py:45-61 | a seal is retired exactly when it is the one live seal and the reason spans twenty characters from its first to its last visible one |
| `HeldoutRuns.DoublySealedForever` | experiments/conversational_semantic_memory/heldout_access.py:25-100 | a pool with two live seals keeps them under every run, whatever happens to other pools and files, and gains no event |
| `HeldoutRuns.RacedSealsFailClosed` | experiments/conversational_semantic_memory/heldout_access.py:77-85 | if two seals pass the check before either append, no seal, read or invalidation of that pool is accepted in any run that follows |
| `HeldoutRaces.SoundExactlyWhenChecksHold` | experiments/conversational_semantic_memory/heldout_access.py:45-85 | with check and append as separate steps of any number of processes, a pool has no live seal or one after every move exactly when at each append to it the earlier check would still pass |
| `HeldoutRaces.ExclusionSuffices` | experiments/conversational_semantic_memory/heldout_access.py:45-85 | so it does when nobody checks a pool while another process still has an event of that pool to append |
| `HeldoutRaces.RacedInvalidationsStrandPool` | experiments/conversational_semantic_memory/heldout_access.py:45-74 | after two invalidations of one seal the pool stays unreadable under every run, while its counter is -1 and the next seal is accepted |
| `ExternalCalls.ExternalCallLedger.Reserve` | experiments/dual_conversational_memory/protocol.py:187-230 | a call is started exactly while its kind and the total are below their limits; otherwise a blocked row is written |
| `ExternalCalls.ExternalCallLedger.Terminal` | experiments/dual_conversational_memory/protocol.py:306-322 | an outcome is written exactly for a call with one start and no outcome |
| `ExternalCalls.ExternalCallLedger.ValidateTrace` | experiments/dual_conversational_memory/protocol.py:324-339 | opening succeeds exactly when the trace is well formed and no started call lacks an outcome, and reports unknown outcomes exactly when only those are wrong |
| `CallTraces.CallsAreCountedOnce` | experiments/dual_conversational_memory/protocol.py:306-339 | in a well-formed trace a call starts at most once, ends at most once, and ends only when started |
| `CallTraces.Perform` | experiments/dual_conversational_memory/protocol.py:187-322 | each action of a run has the effect of the call it stands for |
| `CallTraces.OutcomesAddUp` | experiments/dual_conversational_memory/protocol.py:276-304 | started equals succeeded plus failed plus unknown |
| `CallTraces.TotalCheckNeverBinds` | experiments/dual_conversational_memory/protocol.py:89-94 | because the kind limits sum to the total, the total check never blocks a call that its kind limit allows |
| `CallTraces.ReachableLedgers` | experiments/dual_conversational_memory/protocol.py:187-339 | in every reachable ledger each limit holds, every start is accounted for, and reopening succeeds exactly when nothing is unknown |
| `CallTraces.OnlyOpenCallsClose` | experiments/dual_conversational_memory/protocol.py:306-322 | in every reachable ledger an outcome is accepted exactly for an open call |
| `CallTraces.ApprovedNumbers` | experiments/dual_conversational_memory/protocol.py:187-230 | in every reachable ledger at most 528 generations, 144 extractions and 120 embedding batches have started, 792 calls in all, and a call may start exactly while its kind is below its number |
| `CallTraces.OutcomesAreCounted` | experiments/dual_conversational_memory/protocol.py:276-304 | the summary counts the started, succeeded and failed rows |
| `QueryFrame.BuildQuery` | experiments/dual_conversational_memory/memory.py:210-247 | the query shows the longest suffix of the window that fits the token limit; an encodable window is refused exactly when not even the request alone fits |
| `QueryFrame.FittingIsKept` | experiments/dual_conversational_memory/memory.py:227-247 | dropping older events from a query that fits leaves one that fits |
| `QueryText.PrintedIsText` | experiments/dual_conversational_memory/memory.py:227-241 | the query is its heading, a block for every message with its number, role and length in bytes, and the request |
| `QueryText.TwoPassesAreOne` | experiments/dual_conversational_memory/memory.py:232-239 | the two replacements turn every CR LF and every other CR into one LF |
| `QueryText.ShownAreLatest` | experiments/dual_conversational_memory/memory.py:226-247 | what is shown is the last events of the prefix, named by their identifiers, at most as many as asked for |
| `QueryText.TokensAreFourBytes` | experiments/dual_conversational_memory/memory.py:109-112 | a token is charged for every four bytes or part of four |
| `QueryText.WidthIsLeast` | experiments/dual_conversational_memory/memory.py:109-112 | the width of a character is the least number of bytes that holds it (RFC 3629, section 3) |
| `QueryDecoder.DecodeInvertsPrinting` | experiments/dual_conversational_memory/memory.py:227-247 | a decoder driven by the count and the byte lengths recovers the events and the request, line feeds in contents included, exactly when every event has a message, and reports a failure otherwise |
| `QueryDecoder.PrintingIsInjective` | experiments/dual_conversational_memory/memory.py:227-247 | two windows print alike only when they show the same conversation |
| `QueryDecoder.EmptyEventsAreAmbiguous` | experiments/dual_conversational_memory/memory.py:227-247 | two windows that differ in the place of an event without messages print alike |
| `MemorySearch.Search` | experiments/conversational_memory/memory.py:322-375 | argument errors, or an answer in terms of the fields: results in scope and not below the threshold, by falling similarity, then sequence, ordinal and artifact, at most k and `cap` of each message, and every omission forced by better results (one result for k = 0) |
| `MemorySearch.AnswerIsUnique` | experiments/conversational_memory/memory.py:343-375 | for distinct artifacts that description has one solution |
| `MemorySearch.LimitIsKept` | experiments/conversational_memory/memory.py:361-375 | the number of results stays within k exactly when k is positive or nothing is eligible |
| `MemorySearch.Select` | experiments/conversational_memory/memory.py:361-375 | the loop with its set and counters computes that selection |
| `MemorySearch.OrderDoesNotMatter` | experiments/conversational_memory/memory.py:343-360 | for distinct artifacts the answer does not depend on the order of the entries |
| `MemorySearch.KeptAreBest` | experiments/conversational_memory/memory.py:361-375 | for distinct artifacts the loop keeps exactly the best `cap` of each source message, in score order |
| `MemorySearch.AnswersAreSound` | experiments/conversational_memory/memory.py:322-375 | every result is in scope and above the threshold, artifacts are distinct, no source exceeds its cap, scores are in order |
| `MemorySearch.OmissionsAreExplained` | experiments/conversational_memory/memory.py:361-375 | an eligible entry is left out only for k better results, for `cap` better results of its source, or as a repeated artifact |
| `RankFusion.CreditRanking` | experiments/dual_conversational_memory/memory.py:331-338 | one pass credits the row of each chunk, and fails exactly when a denominator is zero |
| `RankFusion.Fuse` | experiments/dual_conversational_memory/memory.py:323-349 | the fused ranking cut by the slice, or a division by zero, exactly for constants from minus the longer length to -1 |
| `RankFusion.RowsAreExact` | experiments/dual_conversational_memory/memory.py:330-347 | one row per chunk of either ranking, with the total of its credits, its last ranks and its first chunk, repeats allowed |
| `RankFusion.FusionHoldsEachOnce` | experiments/dual_conversational_memory/memory.py:339-349 | the result holds each chunk of either ranking exactly once, in sort order |
| `RankFusion.FusionIsExact` | experiments/dual_conversational_memory/memory.py:331-338 | for rankings without repeats a score is exactly the sum of 1/(constant + rank) over the rankings that hold the chunk |
| `RankFusion.ParetoConsistent` | experiments/dual_conversational_memory/memory.py:323-349 | a chunk that no ranking puts behind another comes out before it and survives the cut when the other does, for every constant from -2 up that does not divide by zero |
| `RankFusion.NegativeConstantsBreakIt` | experiments/dual_conversational_memory/memory.py:331-349 | for every constant below -2 the rankings [x, a] and [a, b] put b before a, so the bound on the constant is exact |
| `FusionOrder.FusedIsFusion` | experiments/dual_conversational_memory/memory.py:330-348 | whenever no denominator is zero: one row for each chunk of either ranking, its first occurrence, with the sum of 1/(constant + rank) over its ranks and its last rank in each; by falling score, then event sequence, event identifier and ordinal |
| `FusionOrder.SliceIsPrefix` | experiments/dual_conversational_memory/memory.py:349 | the first k rows, or all but the last -k |
| `Sorting.SortIsStable` | experiments/dual_conversational_memory/memory.py:348 | rows that tie keep their order |
| `Chunking.WindowsProgress` | experiments/conversational_memory/memory.py:149-175 | a window is non-empty and at most the size, and the next begins after its start and no later than its end, for all three chunkers |
| `Chunking.LastOfIsLast` | experiments/conversational_memory/memory.py:155-163 | a cut is at the last place where any separator stands in the late part of the window |
| `ChunkEnds.WindowEndsAtLastBreak` | experiments/conversational_memory/memory.py:151-165 | a window that does not reach the end stops at the last line feed or space of its late part, or at its full size; the other separators never decide |
| `ChunkEnds.NextRepeatsTheOverlap` | experiments/conversational_memory/memory.py:166-169 | the next window repeats exactly the overlap, unless the window is no longer than that |
| `ChunkEnds.FixedWindowsAre` | app/services/rag_chunking.py:38-51 | the k-th fixed window begins k steps into the text and ends at its size or at the end |
| `Chunking.WindowsCover` | experiments/dual_conversational_memory/memory.py:497-512 | windows rebuild the text up to their reach, which is all of it unless the permitted number stopped them |
| `Chunking.WindowsAreDetermined` | experiments/dual_conversational_memory/memory.py:497-512 | the description of the windows leaves no choice |
| `Chunking.ChunkMessage` | experiments/conversational_memory/memory.py:142-200 | the loop over a message yields those windows, or refuses an invalid configuration, an empty index version included |
| `Chunking.ChunkEventText` | experiments/dual_conversational_memory/memory.py:497-512 | the same for an event's text; a limit below one yields no chunk |
| `Texts.StripShape` | app/services/rag_chunking.py:29-46 | stripping keeps one stretch of the text with only white space outside it |
| `DocumentChunking.SplitWindows` | app/services/rag_chunking.py:38-51 | the loop yields the stripped pieces of fixed windows that reach the end of the text |
| `DocumentChunking.SplitRecursive` | app/services/rag_chunking.py:27-51 | pieces are non-empty, trimmed and at most the size, and every visible character lies in a piece that is its stretch of the text |
| `DocumentChunking.HeaderPaths` | app/services/rag_chunking.py:61-76 | the stack of headers is, at every header, the chain of nearest earlier headers of lower level |
| `DocumentChunking.EnclosingIsNearest` | app/services/rag_chunking.py:61-76 | nothing between a header and its parent is of lower level than the header |
| `DocumentChunking.PathsNest` | app/services/rag_chunking.py:61-76 | levels strictly increase along every path, in document order |

## Left out

- SHA-256, UUIDs, NFC, NFKC and case folding: parameters or represented by their inputs, as said above; `QueryFrame` leaves out the digest of the query text.
- Floating point: scores, similarities, discounts and money are exact reals; the discounts enter as any strictly decreasing positive weights, and a similarity is given with its entry, so `cosine_similarity` and its dimension errors are not modelled.
- Error messages, and which of several exceptions of one class is raised, except where a contract names it.
- Files: an append and an exclusive create are single steps; durability, locks, parent directories and permission errors are not modelled, nor is a partly written line, which counts as one that does not parse.
- JSON text of event payloads: a payload is given as its canonical text.
- The JSON parser: a response carries its syntax tree when it parses and none when it does not; that the parser finds the tree is not part of this model. Number lexemes are any non-empty ASCII text.
- `Operation | Mapping` arguments of `apply`: only validated operations are passed, as `extract_turn` does.
- `full_request_bytes` and the provider envelope: the payload bound stops at the extraction payload.
- `HeldoutAttempts.HeldoutAttemptLedger.Start`: dates, hashes and notes recorded with an event are left out, and a start event's retry flag, null in the file, is false.
- `AttemptProtocol.EveryReachableLogIsGood`: one fixed policy for all processes, one process per run identifier, and terminals called by the run's own process.
- `HeldoutRuns.EveryRunIsSound`: seal, invalidate and read are single steps; `HeldoutRaces` separates the check from the append for seals and invalidations, and a read stays one step.
- `SharedLedgers.CapBoundsEveryRun`: one price list for all guards, the special case of `StagesCanSpend`; reported token counts are not negative and within the reservation.
- `StageBudgets.StagesCanSpend`: one guard for each stage name, and a call is settled by the stage that issued it; reported token counts are not negative and within the reservation.
- `SpendHistory.SpendStaysWithinBudget`: sequential use only, as the guard's own documentation assumes; its check and its append are separate steps and no claim is made for interleaved reservations.
- `HeldoutAttempts.HeldoutAttemptLedger.Terminal`: `invalid` and `completed` are its two uses and have no members of their own.
- `ExternalCalls.ExternalCallLedger.Terminal`: usage, latency and error fields of an outcome are not modelled, and call identifiers are given as fresh numbers.
- `Checksums.IbanTranspositions`: for the fourth and fifth character `IbanExchangeAcrossCut` decides the exchange of two digits or two letters; a digit with a letter there is not decided, because the answer depends on the whole number.
- The rest of `payload_scan.py`: patterns, decoding recursion and its budgets.
- `RankingQuality.NdcgIsNormalised`: an idealised logarithm; only its monotonicity is used.
- `QueryFrame.BuildQuery`: events of any number of messages are printed; the round trip asks that none is empty.
- `Chunking.ChunkMessage`: begins with content whose line endings are normalised; chunk identifiers and hashes are left out.
- `Chunking.CutWindows`: one loop, with the cut and the step as parameters, stands for the loops of both memory modules.
- `DocumentChunking.HeaderPaths`: takes the header levels in order; recognising headers and assembling section texts are left out, as is `split_python`.
- `RankFusion.Fuse`: the two loops of the source are one method called twice.
- `build_memory_query`, `fit_latest_messages`, `fit_latest_events`, `current_semantic_facts`, `exact_dense_search`, BM25 and the context composers would only add simpler members of the same kinds.
- Routes, settings, persistence, network clients, report rendering, bootstrap intervals and command lines.
