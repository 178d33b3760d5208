# Linkora verification models

Dafny models of the stateful parts of the Linkora repository, and proofs about them. Each part
has a concrete form that follows the source step by step (a class whose methods change fields, or
a loop) and a specification on values; the methods are proved equal to the specification, and the
theorems are about the specification over every input, run or interleaving.

`dafny verify dfyconfig.toml` checks everything.

| files | part |
|---|---|
| `MerkleProofs.dfy` | sorted-pair Merkle proofs of the SDK |
| `TransactionQueue.dfy`, `QueueModel.dfy`, `QueueProtocol.dfy`, `QueueRecovery.dfy`, `QueueStorage.dfy`, `QueueHistory.dfy` | the transaction queue: its class, its function, what a run does, what survives a crash, what storage holds when writes are lost or late, and any number of calls |
| `SequenceLock.dfy`, `SequenceGuard.dfy` | the per-account promise lock, and the sequence check inside it |
| `AttestationCache.dfy`, `CacheModel.dfy`, `WindowScheduler.dfy` | the oracle's linked-list cache, its most-recent-first list, and the window loop that drives it |
| `Idempotency.dfy`, `KeysetPagination.dfy`, `RetentionCleanup.dfy`, `TypingRateLimit.dfy` | the DM relay: claims, paging, batched deletion, typing throttle |
| `PostCache.dfy`, `DmSync.dfy`, `SchemaMigrations.dfy` | the mobile offline store |
| `PoolQuorum.dfy` | community pools and their multisig check |
| `ListPagination.dfy`, `Json.dfy`, `Base64.dfy` | SDK list pagination, and the text its cursors are made of |
| `Outcomes.dfy` | what the models share |

## How the source is modelled

- Asynchronous code is a sequence of steps. What the signer, the network, the database clock or the
  wallet answer comes in as data (`Env`, `Attempt`, `outcomes`, `clock`), so every theorem holds for
  all answers. Where two callers can interleave (the sequence lock, the sequence guard, idempotency
  claims, a post confirmation around a reconciliation) the interleavings are modelled.
- A SQL table is a map from its primary key, or a list of rows for the ordered queries; one statement
  is one assignment. Where SQL leaves an order open (ties of `ORDER BY`) the order is a parameter.
- Hashing is a function parameter. Soundness assumes that the hash has no collision among the blocks
  actually hashed in the tree and in the proof: no function from 64 to 32 bytes is injective on all
  inputs, so that stronger assumption could not be met.
- `toISOString` and `new Date` are a parameter that is assumed faithful on the range of dates.

## Where the code is not what its documentation says, or a property needs a condition

- The cache documents that expired entries go first. `set` evicts the least recently used entry
  without looking for expired ones. It drops a live entry while an expired one stays exactly when it
  evicts, the last entry is live and an earlier one has expired: `CacheModel.DropsLiveForExpiredExactly`.
  A purge first rules that out: `CacheModel.PurgingFirstKeepsLiveEntries`.
- Snapshots are handed to the persistence adapter and not waited for, and a failed write is ignored
  (packages/sdk/src/queue.ts:515-541), so after a crash storage holds what it held before or any snapshot
  handed over. For each of these, resuming after a crash of the first run sends again a step that was
  already sent exactly when that snapshot does not mark it or the network answered it with an empty hash,
  and the resume gets as far as it: `QueueStorage.SentAgainWhicheverLanded`. Confirmed steps are among
  them, even after a run that ended well: `QueueStorage.LostWritesSendTwice`.
- If every write lands at once, those are exactly the step in flight and the steps with an empty hash.
  A later run finds the marks of the earlier ones. There a step in flight is not sent again if an earlier
  run left it recorded and it was not simulated again since: resume takes it for the earlier transaction.
  For every run: `QueueRecovery.SentStepIsSentAgainExactly`, and for every snapshot it handed over
  `QueueStorage.SentAgainFromAnySnapshot`. `QueueHistory.EmptyHashIsSentAgain` is a run.
- A resume clears the storage first and keeps the steps it queues again in memory. A restart loses them,
  whichever writes landed, exactly when the resume had cleared the storage and handed over no snapshot:
  until the first one, and for good if its first step fails before that, because the signer refuses, say:
  `QueueStorage.RequeuedIsLostExactly`. By then at most the first of them was sent:
  `QueueStorage.LostResumeSendsAtMostOne`. A write of the resumed run that landed lists all of them:
  `QueueStorage.StorageListsTheRequeued`.
- A failed run keeps its steps, and the next run starts again at the first, confirmed ones included:
  `QueueHistory.StepIsSentByBothRunsExactly` says exactly which steps are sent by both.
- A first send carries the next sequence exactly when the step's read of the account was current and
  nothing has landed outside the lock since, be it a transaction given up earlier or one of somebody who
  does not use the lock: `SequenceGuard.FirstSendIsNextExactly`. `SequenceGuard.LateLandingBreaksTheGuard`
  is a run.
- The oracle keeps the end of its last window in memory only. The processed windows are consecutive exactly
  when each first window after a restart happens to start right after the last one, and with a chain that
  never goes back this is also exactly when no ledger in between is skipped or covered twice:
  `WindowScheduler.ProcessedWindowsTileExactly`, `WindowScheduler.EveryLedgerCoveredOnce`.
- In every reachable state, all replayed idempotent responses until the next prune are the row claimers'
  own exactly when every request still processing holds its row and every finished row holds its
  claimer's response: `Idempotency.NoStaleClaimerIsExact`. From a state in which both hold, a prune of a
  row whose claimer is still processing, and nothing else, ends the first:
  `Idempotency.StaleExactlyByAnEarlyPrune`.
- With a clock that never goes back, the typing throttle agrees with an unbounded map exactly until the
  cap evicts a live entry: `TypingRateLimit.StepKeepsCoupling`, `TypingRateLimit.LiveEvictionShows`.
- A direct message that reaches the relay with a timestamp at or behind the device's cursor is never
  synced: `DmSync.LateMessageIsNeverSynced`.
- A post confirmation that a reconciliation interrupts violates the primary key exactly when its read
  had not found the real id, the remote list has it, the two ids differ and the local row survives the
  reconciliation: `PostCache.InterleavedConfirmFailsExactly`.
- Reconciliation commutes with confirmation exactly when the list is empty, or the local id is no remote
  id and one of these holds: the real id is a remote id; the two ids are the same; there is no local row;
  the real id has a row, which survives the reconciliation or the local row does not; the real id has no
  row, and either stale rows are evicted or the local row survives, but not both. For every input:
  `PostCache.ReconcileCommutesWithConfirm`. It fails in particular for a full refresh that does not
  list a confirmed post yet: `PostCache.RefreshDropsAConfirmedPost`.

## Model

| member | source | states |
|---|---|---|
| MerkleProofs.CompareBytes | packages/sdk/src/credentials.ts:14-25 | the byte loop has the sign of the first byte at which the digests differ, and 0 exactly for equal ones |
| MerkleProofs.SortedPairCommutes | packages/sdk/src/credentials.ts:27-33 | a pair hashes the same in either order |
| MerkleProofs.SortedPairDetermines | packages/sdk/src/credentials.ts:27-33 | the 64-byte block determines the two digests up to order |
| MerkleProofs.SortedPairIsSorted | packages/sdk/src/credentials.ts:27-33 | the hashed block is the two digests, the one with the smaller byte at the first difference in front |
| MerkleProofs.DepthIsCeilingOfLog2 | packages/sdk/src/credentials.ts:65-80 | the proof length is the ceiling of the base-2 logarithm of the leaf count |
| MerkleProofs.Completeness | packages/sdk/src/credentials.ts:46-86 | every leaf of every non-empty tree folds to the root through its proof, odd levels included |
| MerkleProofs.ProofIsOfTheTree | packages/sdk/src/credentials.ts:46-86 | root and proof are those of levels of hashed sorted pairs over the leaves, an odd last node paired with itself |
| MerkleProofs.Soundness | packages/sdk/src/credentials.ts:46-86 | a digest that folds to the root through a proof of the tree's depth is a leaf, if no hashed blocks collide |
| MerkleProofs.HonestProofIsCollisionFree | packages/sdk/src/credentials.ts:65-80 | the assumption of soundness holds for honest proofs of a collision-free tree |
| MerkleProofs.ProofLengthFixesTheLevel | packages/sdk/src/credentials.ts:46-86 | a digest is accepted by some proof of a level's length exactly when it is a node of that level |
| MerkleProofs.BuildProof | packages/sdk/src/credentials.ts:62-86 | the in-place climb returns the root of a tree over the leaves and the nodes beside the path of the index, level by level |
| MerkleProofs.GenerateCredentialMerkleProof | packages/sdk/src/credentials.ts:46-86 | the three input errors in their order, and otherwise root and proof of a tree whose nodes hash two nodes below, the smaller first, a last one alone with itself |
| TransactionQueue.TransactionQueue.Enqueue | packages/sdk/src/queue.ts:400-405 | adds a pending step and hands a snapshot to the persistence adapter |
| TransactionQueue.TransactionQueue.MarkPersisted | packages/sdk/src/queue.ts:528-542 | records a status, keeps the hash and the fee known before, hands a snapshot to the persistence adapter |
| TransactionQueue.TransactionQueue.PollConfirmation | packages/sdk/src/queue.ts:805-825 | the polling loop decides whether the transaction is seen to succeed |
| QueueModel.PollSucceedsExactly | packages/sdk/src/queue.ts:805-825 | some answer within the attempts is a success and every one before it is not yet |
| TransactionQueue.TransactionQueue.RunRollbacks | packages/sdk/src/queue.ts:827-838 | calls the rollbacks of the completed steps once each, last first |
| TransactionQueue.TransactionQueue.ExecuteStep | packages/sdk/src/queue.ts:686-797 | sign, simulate, submit and confirm as the specification says, and undo on any failure |
| TransactionQueue.TransactionQueue.RunSteps | packages/sdk/src/queue.ts:577-599 | runs the steps in order up to the first failure |
| TransactionQueue.TransactionQueue.Run | packages/sdk/src/queue.ts:577-599 | a run is the run of the specification |
| TransactionQueue.TransactionQueue.ReconcileStored | packages/sdk/src/queue.ts:438-485 | gives every stored step its verdict, in order |
| TransactionQueue.TransactionQueue.Resume | packages/sdk/src/queue.ts:427-509 | clears the storage, reconciles, runs what is queued again, and returns how many steps that were |
| QueueProtocol.RunFollowsProtocol | packages/sdk/src/queue.ts:577-599 | every run keeps to the protocol: step i+1 starts only after step i is confirmed, a failure undoes all earlier steps last first |
| QueueProtocol.ProtocolSendsOnce | packages/sdk/src/queue.ts:686-797 | steps are sent 0, 1, 2, ... once each, and a dry run sends none |
| QueueProtocol.RunReportsConfirmedHashes | packages/sdk/src/queue.ts:792-796 | a run reports exactly the hashes it announced as confirmed, in order, none of an earlier run; one that got through has cleared the steps and, last of all, the storage |
| QueueProtocol.RunSendsExactly | packages/sdk/src/queue.ts:577-599 | a step is sent exactly when all before it get through and it gets to its send; the run gets through exactly when all steps do |
| QueueProtocol.SentOnlyWhenCleared | packages/sdk/src/queue.ts:615-797 | a step is only sent past its guard, signed, simulated unless that is skipped, in a real run, after all earlier ones polled to a success |
| QueueProtocol.StateExactly | packages/sdk/src/queue.ts:686-797 | status, hash and fee that a step which gets through leaves in its state; no other state changes |
| QueueRecovery.CrashAnywhereIsSafe | packages/sdk/src/queue.ts:515-542 | whenever the host stops, in the first or a later run, if every write lands at once: the stored snapshot is confirmed steps, one step in progress, steps as the run found them; every step sent but at most the one in flight carries its answer |
| QueueRecovery.FirstCrashAnywhereIsSafe | packages/sdk/src/queue.ts:515-542 | in a first run: the others are pending, and exactly the steps sent are marked but at most the one in flight |
| QueueRecovery.EveryStepGetsOneVerdict | packages/sdk/src/queue.ts:438-485 | recovered, lost with its hash, or queued again: exactly one of them for every stored step |
| QueueRecovery.RecoveredHashesExactly | packages/sdk/src/queue.ts:441-477 | the hashes a reconciliation adds: those of the stored steps with a hash that were confirmed, or submitted and polled to a success, in order |
| QueueRecovery.EventsExactly | packages/sdk/src/queue.ts:441-477 | the events of each stored step: unconfirmed and then confirmed or lost, none, or lost |
| QueueRecovery.ResumeReportsExactly | packages/sdk/src/queue.ts:427-509 | a resume adds the recovered hashes and then those of the re-queued steps it announces as confirmed |
| QueueRecovery.ReconcileRequeues | packages/sdk/src/queue.ts:478-492 | exactly the unrecorded steps are queued again, in order, as pending |
| QueueRecovery.ResumeSendsRequeuedOnce | packages/sdk/src/queue.ts:494-509 | a resume sends the re-queued steps in order, each at most once |
| QueueRecovery.MarkedStepIsQueuedAgainExactly | packages/sdk/src/queue.ts:441-485 | of the steps a crashed run left marked as sent, those queued again are exactly the ones answered with an empty hash |
| QueueRecovery.SentStepIsSentAgainExactly | packages/sdk/src/queue.ts:427-509 | after a crash anywhere in any run, if every write lands at once: a saved step is sent again exactly when it had an empty hash, the one in flight unless an earlier run left it recorded and it was not simulated again, and the resume reaches it |
| QueueRecovery.ResumeSendsNoRecordedStepAgain | packages/sdk/src/queue.ts:427-509 | so with real hashes the resume sends a tail of the steps in order, none of those the snapshot records |
| QueueStorage.SnapshotMarksTheSent | packages/sdk/src/queue.ts:515-542 | every snapshot any run hands over carries exactly the answers of the steps sent before; the next step may have been simulated, the others are as the run found them |
| QueueStorage.AnySnapshotIsSafe | packages/sdk/src/queue.ts:515-542 | a first run, whichever writes landed: storage is confirmed steps, one step in progress, pending steps, and marks a first part of the steps sent |
| QueueStorage.SentAgainWhicheverLanded | packages/sdk/src/queue.ts:427-542 | after a first run, whichever writes landed: a sent step is sent again exactly when storage does not mark it or its hash was empty, and the resume reaches it |
| QueueStorage.SentAgainFromAnySnapshot | packages/sdk/src/queue.ts:427-542 | after any run, from any snapshot it handed over: a step sent before it is sent again exactly when its hash was empty, one sent later unless an earlier run left it recorded and it was not simulated again by then, and the resume reaches it |
| QueueStorage.SentTwiceWhicheverLanded | packages/sdk/src/queue.ts:427-542 | after a first run with real hashes: the resume sends a stretch of steps from the first unmarked one, and which of the steps sent before are in it |
| QueueStorage.LostWritesSendTwice | packages/sdk/src/queue.ts:515-541 | when every write of a first run is lost, crash or not, run and resume both send exactly the steps both reach |
| QueueStorage.ResumeIsARun | packages/sdk/src/queue.ts:427-508 | storage is empty while a resume reports its verdicts; after that what it may hold is what a first run of the re-queued steps may leave |
| QueueStorage.RequeuedIsLostExactly | packages/sdk/src/queue.ts:427-508 | wherever a resume stops or ends: a re-queued step is listed by nothing storage may hold exactly when storage was cleared and no snapshot handed over, that is up to the first one, or always if the first step fails before it |
| QueueStorage.StorageListsTheRequeued | packages/sdk/src/queue.ts:486-508 | a write of the resumed run that landed lists every re-queued step in order |
| QueueStorage.LostResumeSendsAtMostOne | packages/sdk/src/queue.ts:494-508 | a resume that has handed over no snapshot has sent nothing, or only its first step, and exactly when |
| QueueHistory.EverySnapshotCarriesHashes | packages/sdk/src/queue.ts:528-542 | after any calls from the empty queue, every snapshot ever saved has a hash with each submitted or confirmed step |
| QueueHistory.EmptyHashIsSentAgain | packages/sdk/src/queue.ts:441-485 | a run, cut off with nothing in flight, whose step is sent again because its hash is empty |
| QueueHistory.RunKeepsStepsExactly | packages/sdk/src/queue.ts:577-599 | a run leaves its steps queued exactly when one of them does not get through |
| QueueHistory.StepIsSentByBothRunsExactly | packages/sdk/src/queue.ts:577-599 | over any calls that leave the steps in place, which steps two runs both send |
| SequenceLock.MutualExclusionInArrivalOrder | packages/sdk/src/queue.ts:151-167 | at most one caller of a key is inside, callers enter in arrival order, and the map drops the key with its last caller |
| SequenceLock.GrantedWhenPredecessorsAreDone | packages/sdk/src/queue.ts:151-167 | a waiter can enter exactly when all its predecessors are done |
| SequenceLock.WaitersMakeProgress | packages/sdk/src/queue.ts:151-167 | every step other than an arrival brings a waiter one step closer |
| SequenceLock.WaitersAreNeverStuck | packages/sdk/src/queue.ts:151-167 | ahead of a waiter there is always a caller that can move |
| SequenceLock.GrantedAfterStepsAhead | packages/sdk/src/queue.ts:151-167 | in any run a waiter can enter exactly after as many steps on its key as its predecessors had left, whoever arrives later |
| SequenceLock.AccountSequenceLocks.Request | packages/sdk/src/queue.ts:153-159 | the caller queues behind the last one and becomes the map's entry |
| SequenceLock.AccountSequenceLocks.Start | packages/sdk/src/queue.ts:160-162 | the caller enters once the promise before it resolved |
| SequenceLock.AccountSequenceLocks.Finish | packages/sdk/src/queue.ts:163-166 | the caller leaves and removes the entry only if it is its own |
| SequenceGuard.FirstSendIsNextExactly | packages/sdk/src/queue.ts:615-658 | with any number of queues and reads that may lag, a first send carries the ledger sequence plus one exactly when its read was current and nothing landed outside the lock since, late or from others |
| SequenceGuard.LandedSequencesAreConsecutive | packages/sdk/src/queue.ts:615-658 | what lands carries consecutive sequences, late landings and those of others included |
| SequenceGuard.FirstSendsCarryTheNextSequence | packages/sdk/src/queue.ts:615-658 | where every read is current and nothing lands outside the lock, every first send ever made carried the ledger sequence plus one |
| SequenceGuard.RefusedExactlyWhenStale | packages/sdk/src/queue.ts:632-652 | a step is refused exactly when its sequence is not the next one after what it has read |
| SequenceGuard.LateLandingBreaksTheGuard | packages/sdk/src/queue.ts:805-825 | a run in which a transaction given up lands late and the next step sends a used sequence |
| AttestationCache.AttestationCache.RemoveNode | services/analytics-oracle/src/attestation-cache.ts:265-273 | unlinks a node: the chain loses exactly it, and its own links are null |
| AttestationCache.AttestationCache.InsertAtFront | services/analytics-oracle/src/attestation-cache.ts:275-281 | links a node behind the head sentinel |
| AttestationCache.AttestationCache.MoveToFront | services/analytics-oracle/src/attestation-cache.ts:283-286 | the node becomes the most recent, the others keep their order |
| AttestationCache.AttestationCache.EvictLru | services/analytics-oracle/src/attestation-cache.ts:250-263 | drops the last node and counts it |
| AttestationCache.AttestationCache.Get | services/analytics-oracle/src/attestation-cache.ts:106-131 | the heap operation is `AfterGet` on the list, with its answer |
| AttestationCache.AttestationCache.Set | services/analytics-oracle/src/attestation-cache.ts:133-160 | the heap operation is `AfterSet` on the list |
| AttestationCache.AttestationCache.Delete | services/analytics-oracle/src/attestation-cache.ts:162-169 | the heap operation is `AfterDelete`, true when the key was there |
| AttestationCache.AttestationCache.PurgeExpired | services/analytics-oracle/src/attestation-cache.ts:171-188 | the backward walk is `AfterPurge`, with the number removed |
| AttestationCache.AttestationCache.Clear | services/analytics-oracle/src/attestation-cache.ts:190-195 | empties map and list and keeps the counters |
| AttestationCache.AttestationCache.SetSignerId | services/analytics-oracle/src/attestation-cache.ts:205-209 | empties the cache when the signer changes |
| AttestationCache.AttestationCache.BeginWindow | services/analytics-oracle/src/attestation-cache.ts:217-224 | refuses an invalid window, empties the cache for a new one |
| CacheModel.EveryHistory | services/analytics-oracle/src/attestation-cache.ts:106-286 | after any operations: keys distinct, size within the maximum, most recently used first, values those last stored, hits plus misses the number of gets |
| CacheModel.GetAbsentExactly | services/analytics-oracle/src/attestation-cache.ts:106-131 | a get of an absent key is a miss and nothing else |
| CacheModel.GetExactly | services/analytics-oracle/src/attestation-cache.ts:106-131 | a get past the time to live drops the entry, counted as miss and eviction; any other is a hit and moves it to the front |
| CacheModel.SetAbsentExactly | services/analytics-oracle/src/attestation-cache.ts:133-160 | a new key goes to the front; only a full cache drops its last entry |
| CacheModel.SetPresentExactly | services/analytics-oracle/src/attestation-cache.ts:133-160 | a present key gets value and time and moves to the front |
| CacheModel.DeleteExactly | services/analytics-oracle/src/attestation-cache.ts:162-169 | a delete removes the entry of its key and counts nothing |
| CacheModel.PurgeExactly | services/analytics-oracle/src/attestation-cache.ts:171-188 | a purge keeps exactly the entries within their time to live, in order, and counts the others as evicted |
| CacheModel.HitsAreTheAnsweredGets | services/analytics-oracle/src/attestation-cache.ts:106-131 | over any history the hits are the answered gets and the misses the others |
| CacheModel.EvictionDropsLeastRecentlyUsed | services/analytics-oracle/src/attestation-cache.ts:250-255 | a full cache drops the key whose last use is furthest back |
| CacheModel.DropsLiveForExpiredExactly | services/analytics-oracle/src/attestation-cache.ts:133-160 | exactly when a `set` drops a live entry of another key while an expired one stays |
| CacheModel.PurgingFirstKeepsLiveEntries | services/analytics-oracle/src/attestation-cache.ts:171-188 | the same for every reachable cache, and never right after a purge |
| CacheModel.EvictsLiveEntryBeforeExpired | services/analytics-oracle/src/attestation-cache.ts:133-160 | a history that meets the condition |
| CacheModel.AnswersAreCurrent | services/analytics-oracle/src/attestation-cache.ts:106-131 | an answered get returns the last value stored, unexpired |
| CacheModel.ReadingAndPurgingChangeNoAnswer | services/analytics-oracle/src/attestation-cache.ts:171-188 | neither a get nor a purge changes what any later get answers |
| CacheModel.WritesAreRead | services/analytics-oracle/src/attestation-cache.ts:133-169 | a stored value is served until it expires, a deleted key is not, other keys keep their answers |
| CacheModel.SurvivorsThin | services/analytics-oracle/src/attestation-cache.ts:171-188 | purging keeps the order of the survivors |
| CacheModel.SurvivorsAreTheUnexpired | services/analytics-oracle/src/attestation-cache.ts:171-188 | purging removes exactly the expired entries |
| CacheModel.InvalidationServesNothing | services/analytics-oracle/src/attestation-cache.ts:205-224 | a changed signer or window leaves nothing to serve |
| WindowScheduler.Oracle.ScheduleLoop | services/analytics-oracle/src/index.ts:218-269 | which ledgers a tick covers; attested exactly when an attempt fetched its creators and no submission failed, and only then the last window moves, to the current ledger |
| WindowScheduler.Oracle.RunWindow | services/analytics-oracle/src/index.ts:113-216 | caches the attestations of the creators that succeed; true exactly when the fetch succeeded and no submission failed |
| WindowScheduler.ProcessedWindowsTileExactly | services/analytics-oracle/src/index.ts:98-262 | over any events and restarts, the processed windows are consecutive exactly when each first window after a restart joins on to the last one |
| WindowScheduler.ProcessedWindowsTile | services/analytics-oracle/src/index.ts:218-269 | without a restart, over any failures and retries, the processed windows are consecutive |
| WindowScheduler.TickProcessesExactly | services/analytics-oracle/src/index.ts:218-269 | a tick moves the last window on exactly when there are ledgers to cover and an attempt misses nobody |
| WindowScheduler.TickStopsExactly | services/analytics-oracle/src/index.ts:218-269 | the cache is that of the attempts up to the first that misses nobody, or of all |
| WindowScheduler.EveryWindowMissedNobody | services/analytics-oracle/src/index.ts:113-269 | in every run each processed window had an attempt of its tick that missed nobody |
| WindowScheduler.EveryLedgerCoveredOnce | services/analytics-oracle/src/index.ts:218-269 | on a chain that never goes back, no ledger between the first and the last processed window is skipped or covered twice exactly under the same condition |
| WindowScheduler.ServedAttestationsAreCurrent | services/analytics-oracle/src/attestation-cache.ts:217-224 | between ticks a served attestation belongs to the window last begun |
| WindowScheduler.AttemptIsItsMoments | services/analytics-oracle/src/index.ts:113-216 | an undisturbed attempt is its moments: the window begins, then one creator after the other |
| WindowScheduler.AttestedIsServed | services/analytics-oracle/src/index.ts:140-210 | a creator whose submission went through is served for the window under way until it expires; any other leaves the cache alone |
| WindowScheduler.ServedAtEveryMoment | services/analytics-oracle/src/index.ts:113-216 | the same at every moment inside a tick, with reads, sweeps and key rotations in between |
| Idempotency.AnswerFrom | services/dm-relay/src/database.ts:337-359 | the second query never claims; a conflict exactly for another payload, a replay exactly for a finished row of the same one, otherwise in progress |
| Idempotency.IdempotencyStore.ClaimIdempotencyKey | services/dm-relay/src/database.ts:317-360 | claimed exactly when the insert found no row; otherwise, by the later row: a conflict exactly for another payload, the response exactly for a finished one, in progress for a pending one or none |
| Idempotency.IdempotencyStore.GetIdempotencyResponse | services/dm-relay/src/database.ts:392-408 | a response exactly for a finished row |
| Idempotency.IdempotencyStore.CompleteIdempotencyKey | services/dm-relay/src/database.ts:414-426 | fills whatever row the key has now, and creates none |
| Idempotency.ClaimsAreSeparatedByAPrune | services/dm-relay/src/database.ts:317-360 | over all interleavings, two claims of a key have a prune of it between them |
| Idempotency.CachedAnswersAreTheClaimers | services/dm-relay/src/database.ts:337-359 | without an early prune every cached answer is the response of the row's claimer, for the same payload |
| Idempotency.CachedAnswersMatchThePayload | services/dm-relay/src/database.ts:347-349 | whatever was pruned, a cached answer never crosses payloads |
| Idempotency.EveryAnswerIsRight | services/dm-relay/src/database.ts:337-359 | over every interleaving each answer is decided by the log: no standing claim or an uncompleted one of the payload, in progress; one of another payload, conflict; else the last completion since |
| Idempotency.RightAnswerIsUnique | services/dm-relay/src/database.ts:337-359 | the log leaves only one right answer |
| Idempotency.StaleExactlyByAnEarlyPrune | services/dm-relay/src/database.ts:436-468 | a claimer loses its row exactly by a prune before it completes |
| Idempotency.NoStaleClaimerIsExact | services/dm-relay/src/database.ts:414-426 | in every state that keeps the invariant: all later cached answers are the claimers' own, as long as nothing is pruned, if and only if no request still processing has lost its row and every finished row holds its claimer's response |
| KeysetPagination.GetMessagesReturnsTheNewest | services/dm-relay/src/database.ts:179-233 | selected rows after the cursor, strictly descending by (created_at, id), and nothing newer left out |
| KeysetPagination.GetMessagesExactly | services/dm-relay/src/database.ts:179-233 | the same in columns: which conversation or recipient, created earlier or with a smaller id, nothing newer left out |
| KeysetPagination.CursorRoundTrip | services/dm-relay/src/validation.ts:87-105 | parsing undoes creation exactly for non-empty ids without a bar |
| KeysetPagination.CursorText | services/dm-relay/src/validation.ts:87-105 | the text of a cursor is the date, a bar and the id |
| KeysetPagination.ParsePositionExactly | services/dm-relay/src/validation.ts:87-105 | what any decoded text is read as, and when it is refused |
| KeysetPagination.GetPageExactly | services/dm-relay/src/routes.ts:388-436 | a page is the first `limit` rows of the query for one more, and has more exactly when that one is there |
| KeysetPagination.NextCursorContinues | services/dm-relay/src/routes.ts:405-412 | a page with more behind it has a cursor that continues after its last row |
| KeysetPagination.WalkDescends | services/dm-relay/src/routes.ts:388-436 | whatever is added and deleted meanwhile, following the cursors shows strictly descending rows: none twice |
| KeysetPagination.WalkMissesNothing | services/dm-relay/src/routes.ts:388-436 | whatever else is added and deleted, a finished walk shows every row that is there throughout |
| KeysetPagination.WalkVisitsEveryMessageOnce | services/dm-relay/src/routes.ts:388-436 | with newer insertions only, a finished walk shows exactly the rows of its start in order, and every walk ends |
| RetentionCleanup.RetentionStore.DeleteBatch | services/dm-relay/src/database.ts:275-288 | one statement deletes the oldest expired rows up to the limit, and a short one leaves none |
| RetentionCleanup.BatchExactly | services/dm-relay/src/database.ts:275-288 | rows created before the cutoff, as many as fit, none newer than a row left |
| RetentionCleanup.RetentionStore.DeleteExpiredMessages | services/dm-relay/src/database.ts:267-298 | keeps exactly the messages not older than the limit at the last batch, returns the number removed, and fills every batch but the last |
| RetentionCleanup.RetentionStore.DeleteExpiredIdempotencyKeys | services/dm-relay/src/database.ts:436-468 | the same for keys, with whole non-negative hours |
| RetentionCleanup.InterruptedCleanupIsOldestFirst | services/dm-relay/src/database.ts:267-298 | stopped anywhere, it deleted only expired rows, none newer than a row it left |
| TypingRateLimit.TypingRateLimitMap.EvictExpired | services/dm-relay/src/typing-rate-limit.ts:34-44 | the early-exit sweep; in time order it removes exactly the expired entries |
| TypingRateLimit.TypingRateLimitMap.Get | services/dm-relay/src/typing-rate-limit.ts:50-54 | the last touch unless it has expired |
| TypingRateLimit.TypingRateLimitMap.Touch | services/dm-relay/src/typing-rate-limit.ts:57-67 | sweep, move to the end, drop the oldest at the cap |
| TypingRateLimit.TypingRateLimitMap.AllowTyping | services/dm-relay/src/routes.ts:196-206 | refused exactly within 3 seconds of a remembered notification of the pair, and then nothing changes |
| TypingRateLimit.SweepRemovesExactlyTheExpired | services/dm-relay/src/typing-rate-limit.ts:34-44 | stopping at the first live entry loses nothing |
| TypingRateLimit.TouchKeepsValid | services/dm-relay/src/typing-rate-limit.ts:57-67 | insertion order stays time order and the size within the cap |
| TypingRateLimit.TouchExactly | services/dm-relay/src/typing-rate-limit.ts:57-67 | the other unexpired entries in time order, without the oldest at the cap, and the own entry last |
| TypingRateLimit.RunKeepsValid | services/dm-relay/src/typing-rate-limit.ts:34-67 | so it is over every run with a clock that never goes back |
| TypingRateLimit.StepKeepsCoupling | services/dm-relay/src/routes.ts:196-206 | the map stays equivalent to an unbounded one exactly when the touch evicts no live entry |
| TypingRateLimit.ThrottleMatchesTheUnboundedMap | services/dm-relay/src/routes.ts:196-206 | without live evictions every decision of a run is that of the unbounded map |
| TypingRateLimit.LiveEvictionShows | services/dm-relay/src/typing-rate-limit.ts:62-65 | after any live eviction the evicted pair is let through too early |
| TypingRateLimit.FewPairsMatchTheUnboundedMap | services/dm-relay/src/routes.ts:38-47 | with the relay's cap, runs over at most 50000 pairs throttle as if unbounded |
| PostCache.PostCache.ReconcilePosts | apps/mobile/utils/db.ts:268-331 | remote ids synced, superseded optimistic rows gone, other optimistic rows unchanged, stale rows gone on a full refresh |
| PostCache.ReconciledPointwise | apps/mobile/utils/db.ts:268-331 | which rows are left, and with what, for every id |
| PostCache.RemoteRowExactly | apps/mobile/utils/db.ts:268-331 | column by column what a remote post leaves in its row |
| PostCache.OtherRowExactly | apps/mobile/utils/db.ts:268-331 | which other rows stay, unchanged: synced ones unless stale rows are evicted, others unless a remote post says the same |
| PostCache.FullRefreshLeavesTheRemoteIds | apps/mobile/utils/db.ts:321-329 | after a non-empty list with eviction on, the synced ids are exactly the remote ids |
| PostCache.ReconcileIsIdempotent | apps/mobile/utils/db.ts:268-331 | reconciling again at any later time changes nothing |
| PostCache.PostCache.ConfirmPendingPost | apps/mobile/utils/db.ts:354-366 | the read and the transaction, with anything in between |
| PostCache.ConfirmExactly | apps/mobile/utils/db.ts:354-366 | when the transaction fails, when it only deletes, and when it moves the row to the real id |
| PostCache.ReconcileCommutesWithConfirm | apps/mobile/utils/db.ts:354-366 | for every table, list and ids: the two orders agree up to `created_at` exactly under a condition on the two rows and the list, spelled out above |
| PostCache.RefreshDropsAConfirmedPost | apps/mobile/utils/db.ts:321-366 | a full refresh that does not list a post yet: confirmed first, the post is lost; refreshed first, it stays |
| PostCache.InterleavedConfirmFailsExactly | apps/mobile/utils/db.ts:354-366 | for every table, list and ids: a reconciliation in between makes the transaction fail exactly when the read had not found the real id, the list has it, the ids differ and the local row survives |
| PostCache.InterleavedConfirmIsSafe | apps/mobile/utils/db.ts:354-366 | for an optimistic row with the author and content of the remote post it never fails and changes nothing |
| PostCache.PostCache.SyncPendingPosts | apps/mobile/utils/sync.ts:436-465 | gives the listed posts their turns one after the other, whatever others do to the table during each |
| PostCache.TurnLeavesNothingPending | apps/mobile/utils/sync.ts:447-464 | if the real id is another id: right after its turn a post is gone or marked failed, and failed exactly when the submission or the confirmation failed |
| PostCache.EveryPendingPostIsSettled | apps/mobile/utils/sync.ts:436-465 | when others leave these posts alone and no real id is a listed id, every listed post ends failed and otherwise unchanged, or gone and synced under its real id |
| PostCache.PostCache.EvictStaleCache | apps/mobile/utils/db.ts:398-434 | the age check and the cap, with any order among ties |
| PostCache.EvictedExactly | apps/mobile/utils/db.ts:398-434 | exactly which rows stay |
| PostCache.EvictionKeepsWithinTheCap | apps/mobile/utils/db.ts:398-434 | only synced rows go, none changes, at most the cap stay |
| PostCache.CapDeletesTheOldest | apps/mobile/utils/db.ts:423-433 | a row the cap deletes is no newer than one it keeps |
| PostCache.AgeLimitHolds | apps/mobile/utils/db.ts:410-421 | unless every synced row is stale, none older than the cutoff stays |
| PostCache.EvictionNeverWipesTheCache | apps/mobile/utils/db.ts:387-434 | the newest synced row stays, whatever its timestamp, unless the cap is 0 |
| PostCache.EvictionIsIdempotent | apps/mobile/utils/db.ts:398-434 | evicting twice at one time is evicting once |
| DmSync.DmStore.MergeDmDeltas | apps/mobile/utils/db.ts:466-511 | the loop merges message after message and returns the newest timestamp |
| DmSync.Newest | apps/mobile/utils/db.ts:502-504 | the maximum of the merged timestamps |
| DmSync.MergedPointwise | apps/mobile/utils/db.ts:466-511 | which rows a merge leaves, changes and deletes, for every id |
| DmSync.MergedRowExactly | apps/mobile/utils/db.ts:466-511 | a merged message ends synced with its own content, hash and time |
| DmSync.MergedPartiesExactly | apps/mobile/utils/db.ts:466-511 | conversation, parties and creation time of a merged row, new or already synced |
| DmSync.DeltasExactly | apps/mobile/utils/sync.ts:527-557 | what is merged: exactly the messages past the cursor, in order, hashed by ciphertext or content |
| DmSync.CursorExactly | apps/mobile/utils/sync.ts:527-557 | a call moves its cursor to the newest message past it, if any, and no other |
| DmSync.MergeLeavesNoTwin | apps/mobile/utils/db.ts:493-500 | right after a merge no outbox row of the conversation carries a merged hash |
| DmSync.DmStore.SetDmSyncCursor | apps/mobile/utils/db.ts:570-578 | the cursor is the maximum of old and new |
| DmSync.DmStore.ReconcileDmThread | apps/mobile/utils/sync.ts:527-557 | merges what is past the cursor and advances it |
| DmSync.DmStore.AddOutboxDmMessage | apps/mobile/utils/db.ts:516-540 | stores one row as given, pending and stamped with the current time twice |
| DmSync.DmStore.SendDmMessageWithOutbox | apps/mobile/utils/sync.ts:566-596 | nothing stored without a key; pending after a send, failed with the reason after a rejected one |
| DmSync.CallSyncsEverythingExactly | apps/mobile/utils/sync.ts:527-557 | a call syncs all returned messages exactly when the unsynced ones are past the cursor |
| DmSync.CursorNeverDecreases | apps/mobile/utils/db.ts:566-578 | over any run no cursor decreases |
| DmSync.SyncedRowsAreTheRelaysMessages | apps/mobile/utils/sync.ts:527-557 | over any run, if new messages arrive past the cursor, the synced rows are exactly the messages returned so far, with the relay's values |
| DmSync.LateMessageIsNeverSynced | apps/mobile/utils/sync.ts:534 | a message at or behind the cursor is never synced |
| SchemaMigrations.MigratableDb.RunMigrations | apps/mobile/utils/db.ts:189-204 | runs the missing migrations in order, up to the one that fails |
| SchemaMigrations.InterruptedUpgradesResume | apps/mobile/utils/db.ts:189-204 | for a database no newer than the app: however often it is cut short, each migration runs once and the end is that of an uninterrupted upgrade |
| PoolQuorum.ValidIsNormal | apps/mobile/utils/poolStore.ts:139-145 | a normalised valid address is a bare key, and normalising it again changes nothing |
| PoolQuorum.NormalizedExactly | apps/mobile/utils/poolStore.ts:143-145 | the address without the space around it, its letters in upper case |
| PoolQuorum.ValidExactly | apps/mobile/utils/poolStore.ts:139-141 | valid exactly for `G` and 55 characters of base 32, space around it aside |
| PoolQuorum.ChainAdminsAreTheSnapshots | apps/mobile/utils/poolStore.ts:160-163 | the admins are exactly the valid normalised addresses of the snapshot |
| PoolQuorum.PoolStore.GetPoolRecord | apps/mobile/utils/poolStore.ts:102-129 | looking a pool up creates its record, without governance and with the metadata of the catalog |
| PoolQuorum.PoolStore.SyncPoolFromChain | apps/mobile/utils/poolStore.ts:160-185 | applied exactly for a snapshot whose finite threshold its valid admins can meet; then the pool has those admins in the order named, the floor of that threshold, balance and token if given, and keeps the rest |
| PoolQuorum.PoolStore.VerifyPoolApprovals | apps/mobile/utils/poolStore.ts:234-271 | what is wrong: the pool, the first approval at fault and how, or their number |
| PoolQuorum.VerifyAcceptsExactlyQuorums | apps/mobile/utils/poolStore.ts:234-271 | accepted exactly for enough signed approvals of distinct current admins |
| PoolQuorum.QuorumCountsAdmins | apps/mobile/utils/poolStore.ts:263-268 | an accepted set names at least `threshold` different admins |
| PoolQuorum.PoolStore.RecordPoolWithdrawal | apps/mobile/utils/poolStore.ts:273-308 | recorded exactly for a valid recipient and a quorum, as asked for, in front of the earlier ones |
| PoolQuorum.PoolStore.ResetPoolState | apps/mobile/utils/poolStore.ts:339-347 | forgets one pool, or all |
| PoolQuorum.ReachablePoolsAreSound | apps/mobile/utils/poolStore.ts:160-185 | in every reachable store a chain-sourced pool has distinct valid normalised admins and a threshold they can meet |
| PoolQuorum.GovernanceIsTheLastSnapshots | apps/mobile/utils/poolStore.ts:160-185 | in every history a chain-sourced pool has the admins and threshold of the last applied snapshot since its last reset |
| PoolQuorum.EveryWithdrawalHadItsQuorum | apps/mobile/utils/poolStore.ts:273-308 | every recorded withdrawal had the quorum of its pool when it was recorded |
| PoolQuorum.EveryWithdrawalWasSigned | apps/mobile/utils/poolStore.ts:234-308 | every recorded withdrawal was asked for as recorded and signed by as many different admins of the last snapshot as it demands |
| ListPagination.CursorRoundTrip | packages/sdk/src/pagination.ts:45-95 | decoding undoes encoding for every offset |
| ListPagination.DecodeCursorExactly | packages/sdk/src/pagination.ts:45-95 | a cursor gives an offset exactly when it is base64 of JSON of a payload that does |
| ListPagination.OffsetInExactly | packages/sdk/src/pagination.ts:58-71 | an object whose version is 1 and whose offset is that natural number |
| ListPagination.PageSizeExactly | packages/sdk/src/pagination.ts:111-116 | a positive integer, 100 if absent |
| ListPagination.FetchPageWithCursor | packages/sdk/src/pagination.ts:104-126 | the two errors, in their order; otherwise the window, and a cursor to its end when it is full |
| ListPagination.PaginateList | packages/sdk/src/pagination.ts:141-166 | yields the pages of the walk, at least one, at most `maxPages` |
| ListPagination.PaginateIsSlice | packages/sdk/src/pagination.ts:141-166 | over a fixed list the walk is a slice, with the exact number of fetches |
| Json.DecimalReadsBack | packages/sdk/src/pagination.ts:86-95 | the decimal digits of a number read back as that number |
| Json.FractionExactly | packages/sdk/src/pagination.ts:94 | a fraction is its digits over a power of ten |
| Json.ExponentExactly | packages/sdk/src/pagination.ts:94 | an exponent multiplies by a power of ten, or divides by it |
| Base64.AtobUndoesEncode | packages/sdk/src/pagination.ts:74-95 | `atob` undoes the encoding of any bytes |
| Base64.ValueExactly | packages/sdk/src/pagination.ts:74-95 | a character stands for its place in the alphabet of RFC 4648 |
| Base64.SextetsExactly | packages/sdk/src/pagination.ts:74-84 | three bytes are the 24 bits of four sextets |
| Base64.BufferFromUndoesEncode | services/dm-relay/src/validation.ts:87-105 | so does the lenient decoder of the relay |

## Left out

- KeysetPagination.CreateCursor: only for ASCII ids, which is what the relay's UUID column holds.
- Step timeouts of the queue: after one, `executeStep` goes on in the background; all statements are for runs without step timeouts.
- Retries and the circuit breaker around submission and simulation: each is one call that returns or throws. `withRetry` and its counters in the oracle's submitter are not modelled either.
- Listeners that throw, and the error strings in events.
- Writes that land only after a restart, a `clear` or `load` of the adapter that fails, and storage that held another queue's steps before this one was filled.
- Which snapshot of an earlier run storage holds when a later run crashes before any of its own has landed: resuming from it sends again what that snapshot does not record, whatever it is.
- The attestation cache reads the clock once in each operation; the model passes that time in.
- A restart of the oracle in the middle of a tick, other settings after a restart, ticks that overlap, and which key signed an attestation that is cached after a rotation.
- The fractional and non-numeric indexes and sizes that JavaScript admits: Merkle indexes are integers, timestamps and row counts are integers, and NaN appears only as a pool threshold.
- `created_at` below the millisecond, and the calendar text of dates.
- KeysetPagination.WalkVisitsEveryMessageOnce: for tables that only gain rows while a client pages; with deletions `WalkDescends` and `WalkMissesNothing` say what holds.
- The text search endpoint of the relay, which pages in the same way over another selection.
- Rows that other requests insert between two batches of a clean-up.
- What Buffer's base64 decoder does with characters after padding, non-ASCII text in cursors, and offsets beyond the integers a double holds exactly.
- Upper-casing of letters outside ASCII in pool addresses, and the formatting of pool balances: a balance is set to any text.
- Two reconciliations of one conversation at the same time; the digest of a direct message, for which any function is allowed. A send hashes the content and a reconciliation the ciphertext when there is one, so deduplication is stated for equal hashes only.
- The read watermark of a conversation, which is advanced like the sync cursor.
- Fetching and normalising indexer posts, the other handlers of the relay, its WebSocket delivery state, health probes, logging, environment parsing, and all user interface code: they hold no state between calls, or hand it to libraries.
- Thin wrappers over the Stellar SDK, signatures, SHA-256 and CBOR, which are library calls.
