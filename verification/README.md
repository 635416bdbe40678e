# Verified model of the audit ledger and the delegation core

This Dafny project models two parts of the `kya-os-mcp` package and proves properties of the model:

- the **verifiable audit ledger**: the RFC 9162 Merkle tree and its proofs, the recorder that appends to a
  compare-and-append journal, write-ahead evidence and its compensation, the checkpoint builder with its lock and
  hooks, the timeline projection, the mirror, and the checkpoint checks of a replay bundle, in both directions;
- the **delegation core**: the packed status bitstring and the lock-chained status list, scope matching and scope
  attenuation over a chain, CRISP attenuation with exact decimal comparison, the delegation graph and cascading
  revocation.

Run `dafny verify dfyconfig.toml` to check everything.

## How it is modelled

- **Hashing.** SHA-256 is a parameter `sha` from byte strings to 32-byte digests. Soundness theorems do not assume it
  injective: they assume that the finite set of inputs hashed by the computations at hand is free of collisions
  (`CollisionFree`), so each reads "this holds, or two inputs that were really hashed collide". Digest functions over
  canonicalized cores (`CoreDigest`, `Digests`) are parameters in the same way.
- **Merkle trees.** Roots and proofs are recursive on the largest power of two below the size. The verifiers are
  methods whose loops shift a pair of node positions, proved equal to a climb that pairs nodes level by level
  (`MerkleClimb`). The lemma that links the two forms is that a climb in a tree is a climb in one half followed by one
  last pairing (`ClimbSplits`, `FollowSplits`).
- **Protocols.** Code that interleaves at `await` is a state machine: a `Step` datatype, a partial `Next`, and `Run`
  over a list of steps; theorems hold for every run. Code that runs alone, or whose caller serializes it, is a class
  whose methods are proved against the same functions. Journal reads in the state machines carry the (possibly stale)
  view they were served from.
- **Adversaries.** Where the source defends against its collaborators, they are unconstrained: the checkpoint builder
  and the projection worker are given whatever a journal reports, the recorder's retry loop whatever it answers.
- **Specification functions.** A function that a method is proved equal to has its meaning stated apart from its body:
  by literal bytes and texts (`RootBytes`, `MostSignificantFirst`, `KindsGrant`), by an if-and-only-if over conditions a
  caller can check (the lemmas named `...Exactly`), or by an independent definition (`FoundLevelByLevel`,
  `SoundMeansFaultless`, `HonestBundleIsAccepted`).
- **Integers** are unbounded naturals. The source keeps tree sizes within the safe integers, and the model checks
  `MAX_SAFE_INTEGER` where the source does. Positions use parity, which the low bit tests also above 2^31.

## Where the code and its description differ

- `onCheckpointCreated` is described as running a failed hook again before any newer one
  (src/audit/checkpoint.ts:114-118). `HooksStayOldestFirst` gives the exact condition over all runs, the guards of two
  steps; calls that do not overlap meet it (`SequentialHooksComplete`), and `OverlapBreaksOrder` is a run of two
  overlapping calls after which the newer failed hook comes first. No hook is lost or completed twice in any run
  (`HookConservation`).
- The recorder is described as failing closed rather than signing a second entry at a receipted sequence
  (src/audit/recorder-service.ts:530-541). `ReceiptsIncreaseExactly` gives the exact condition over all runs: each
  receipt's head is still at least the committed one. A submission that runs alone meets it (`AloneIsStillAhead`), and
  `OverlapReceiptsTwice` is a run of two overlapping submissions that does not.
- Scope containment is described as holding for every value the inner pattern matches
  (src/delegation/scope-matcher.ts:120-124). `ContainmentIsSound` gives the exact exception, values with dot segments
  under a prefix inside a path prefix, and `DotSegmentsEscape` an instance in a chain hop.
- The set lookup of `authorityContains` is described as finding an identical entry
  (src/delegation/scope-matcher.ts:161-166). `FastCheckIsExact` says exactly when it agrees with asking every entry, and
  `NulKeysEscape` is a hop where it does not, through a matcher name that contains NUL.
- `removeDelegation` accepts a node that still has children, and writes twice: a stop in between leaves a stored node
  that its parent does not list. `RemovalKeepsForestExactly` says that the forest survives exactly when neither happens,
  and `RemovalCanCloseACycle` shows two ids that name each other as parent afterwards.
- A node revoked through its status bit alone, on a provider that drops marks, can be revived by restoring another node
  whose status entry names the same bit (`SharedEntryRevives`), even with another spelling of the index
  (`LeadingZeroSameBit`); `RecordOutlivesOperation` gives the exact condition.
- Compensation is described as never stripping a committed entry of its evidence
  (src/audit/recorder-service.ts:220-228). `CommittedEvidenceStays` gives the condition, that the re-check found the
  commit or was not reached, and `StaleRecheckStrips` is a run where a stale re-check strips it.
- `scopeSatisfies` is described as never throwing (src/delegation/scope-matcher.ts:91-95). `ScopeSatisfies` says exactly
  when it throws: at null entries, at the prefix matchers without a string resource, and at a regex without any.
- `setRevoked` reads a node, waits, and writes it back. `OverlapLosesChild` shows a child that drops out of its parent's
  children meanwhile; `StaysInverseExactly` and `OverlooksExactly` give the exact condition over all runs, and reads up
  the chain are not affected (`OverlapKeepsRevocation`).

## Model

| member | source | states |
|---|---|---|
| MerkleTree.LargestPowerOfTwoLessThan | src/audit/merkle.ts:43-47 | the loop returns the one power of two that is below the size and at least half of it |
| MerkleTree.SmallRootBytes | src/audit/merkle.ts:59-66 | the root of nothing is the hash of no bytes, and the root of one leaf the hash of 0x00 and the leaf |
| MerkleTree.RootBytes | src/audit/merkle.ts:59-80 | the root of a full tree followed by at most as many leaves is the hash of 0x01, the one root and the other root, in this order |
| MerkleTree.InclusionProofDigests | src/audit/merkle.ts:82-108 | an inclusion proof lists the roots of the other halves from the leaf up |
| MerkleTree.ConsistencyProofDigests | src/audit/merkle.ts:140-170 | so does a consistency proof, after the root of the last complete subtree unless the prefix is one |
| MerkleTree.ProofsExistExactly | src/audit/merkle.ts:82-170 | there is an inclusion proof exactly for every leaf and a consistency proof exactly for every nonempty prefix |
| MerkleTree.RootInjective | src/audit/merkle.ts:59-80 | two leaf lists with one root are the same list, of whatever lengths, unless two hashed inputs collide |
| MerkleTree.InclusionProofLength | src/audit/merkle.ts:82-108 | an inclusion proof of n leaves has at most ceil(log2 n) digests |
| MerkleClimb.ClimbSplits | src/audit/merkle.ts:116-134 | shifting node positions through a tree is climbing one half of the recursive split and then pairing once with the other half |
| MerkleClimb.FollowSplits | src/audit/merkle.ts:181-216 | the same for the position pair of a consistency proof, including the skipped levels and the power-of-two seed |
| MerkleVerify.VerifyInclusion | src/audit/merkle.ts:110-138 | the loop accepts exactly when the climb from the leaf hash uses up the path and meets the root |
| MerkleVerify.RejectsMalformed | src/audit/merkle.ts:120-137 | a path whose next digest is malformed meets no root |
| MerkleVerify.InclusionExact | src/audit/merkle.ts:82-138 | against the root of a list, a claim is accepted if and only if the leaf is the one at that index and the path is the generated proof: soundness, completeness and uniqueness at once |
| MerkleVerify.InclusionComplete | src/audit/merkle.ts:82-138 | every generated inclusion proof is accepted, with no assumption on the hash |
| MerkleVerify.VerifyConsistency | src/audit/merkle.ts:172-224 | the two-root loop accepts exactly when both readings of the path meet their roots |
| MerkleConsistency.ConsistencyExact | src/audit/merkle.ts:140-224 | against the new root of a list, a claim is accepted if and only if the old root is the root of the list's prefix and the path is the generated proof |
| MerkleConsistency.ConsistencyComplete | src/audit/merkle.ts:140-224 | every generated consistency proof is accepted, with no assumption on the hash |
| CheckpointHistory.SameRootSamePrefix | src/audit/checkpoint.ts:215-236 | a snapshot whose prefix has the latest checkpoint's root starts with that checkpoint's leaves |
| CheckpointHistory.SoundExtends | src/audit/checkpoint.ts:197-207 | storing the signed checkpoint of an extending snapshot keeps the history linked, append-only and equal to the store |
| Checkpoint.ExtensionPasses | src/audit/checkpoint.ts:215-236 | a snapshot that starts with the leaves of the latest checkpoint is accepted, with no assumption on the hash |
| Checkpoint.ExtensionExactly | src/audit/checkpoint.ts:215-236 | unless two hashed inputs collide, exactly such a snapshot is: a shorter one is a rollback and any other a conflict |
| Checkpoint.MemoryAuditCheckpointStore.PutIfAbsent | src/audit/checkpoint.ts:87-105 | inserts only at a new size, reports an equal or conflicting checkpoint otherwise, and moves the latest only forward |
| Checkpoint.AuditCheckpointBuilder.SnapshotAtHead | src/audit/checkpoint.ts:364-380 | a snapshot is accepted exactly when it is contiguous from zero and ends at the reported head, and otherwise fails as out of range or as the journal's fault |
| Checkpoint.AuditCheckpointBuilder.StoreCheckpoint | src/audit/checkpoint.ts:179-208 | it succeeds on every complete snapshot that starts with the leaves of the latest checkpoint, and unless two hashed inputs collide only on those; then it finds that checkpoint again or signs one over exactly these leaves and appends it, and otherwise stores nothing and says why |
| Checkpoint.StoredCheckpointsAreConsistent | src/audit/checkpoint.ts:297-362 | any two checkpoints ever stored are a prefix and its extension, and the consistency proof between them is accepted |
| CheckpointLock.OneAtATimeInOrder | src/audit/checkpoint.ts:163-177 | the operations of one ledger run one at a time in call order, in every run, although the tail entry is deleted when idle |
| CheckpointLock.SomeoneMayProceed | src/audit/checkpoint.ts:163-177 | over every run, while a call waits an earlier one is running or one up to it may start, and with everything before it released it may start itself |
| CheckpointLock.TailIsForgottenExactly | src/audit/checkpoint.ts:163-177 | over every run, the tail entry of a ledger is gone exactly when all its calls are over |
| CheckpointHooks.HookConservation | src/audit/checkpoint.ts:135-161 | in every interleaving of calls and hook failures, each inserted checkpoint is in exactly one place: completed once, held by one call, or in the failed list |
| CheckpointHooks.UndisturbedCallCompletes | src/audit/checkpoint.ts:135-161 | a call that resumes can always go on, and unless a hook throws or another call interferes it completes the failed hooks in their order, then its own, and is over |
| CheckpointHooks.StepKeepsOrderExactly | src/audit/checkpoint.ts:145-160 | a step keeps failed and pending hooks oldest first if and only if it is neither a call picking up a failed hook newer than its own checkpoint nor a failure after an older one has failed |
| CheckpointHooks.HooksStayOldestFirst | src/audit/checkpoint.ts:114-161 | over every run of calls and hook failures, hooks stay oldest first at every moment if and only if no step is one of those two |
| CheckpointHooks.SequentialHooksComplete | src/audit/checkpoint.ts:145-160 | for calls that do not overlap no step disturbs the order, and hooks complete in tree-size order without gaps |
| CheckpointHooks.OverlapBreaksOrder | src/audit/checkpoint.ts:114-161 | two overlapping calls can leave the newer failed hook before the older one |
| Journal.MemoryAuditJournal.CompareAndAppend | src/audit/providers/memory-journal.ts:43-74 | identity is checked first, then the head, and only then is the entry appended and indexed |
| Journal.AppendKeepsChain | src/audit/providers/memory-journal.ts:63-73 | appending an entry built for the current head keeps one gapless hash chain and one entry per identity |
| Journal.AppendsExactly | src/audit/providers/memory-journal.ts:43-74 | with unique identities, an append succeeds exactly under a new identity at the current head, answers a known identity by its content, reports the head it has, and otherwise changes nothing |
| Recorder.BuildCandidate | src/audit/recorder-service.ts:589-626 | a candidate follows its head by sequence and digest, and genesis is accepted exactly at sequence 0 |
| Recorder.AppendsMoveForward | src/audit/recorder-service.ts:462-526 | whatever the journal answers over the retries, an appended entry lies strictly beyond everything this recorder appended before, and any other ending leaves its committed head alone |
| Recorder.RegressionFailsClosed | src/audit/recorder-service.ts:530-558 | once a conflict reports a head below the committed one, or forking the committed or the highest reported one, the call neither appends nor retries |
| RecorderRuns.RegressionIsCaught | src/audit/recorder-service.ts:494-558 | a head that was reported or appended is remembered: a later answer that forks it, or lies below the appended one, ends every later attempt |
| Recorder.ResolvesExactly | src/audit/recorder-service.ts:449-459 | an entry found under the identity is returned exactly when it is the one asked for: the same content, or for genesis the same configuration at sequence 0 |
| Recorder.EndsAsAnswered | src/audit/recorder-service.ts:462-526 | a submission is retried through conflicts that advance, and then ends as the journal answers: with the entry that follows the head, the entry found, the error, or its retries used up |
| Recorder.AuditRecorder.AppendEvent | src/audit/recorder-service.ts:440-528 | a duplicate found first is returned exactly when it is the one asked for, the retry loop gives the specified ending, and the sequences receipted over all calls strictly increase |
| RecorderRuns.LedgerIsOneChain | src/audit/recorder-service.ts:440-528 | over every interleaving of any number of recorders and submissions with stale reads, every ledger position holds its sequence number, its own digest and its predecessor's, genesis is exactly at 0, and no identity occurs twice |
| RecorderRuns.ResubmissionReturnsTheEntry | src/audit/recorder-service.ts:449-459 | calls with one identity that return, return the same entry, the one in the ledger, with the submitted content |
| RecorderRuns.NoFalseAlarm | src/audit/recorder-service.ts:514-523 | a correct journal never triggers the regression error or the no-advance error, and an identity conflict, a genesis mismatch and a misplaced genesis are always real |
| RecorderRuns.FailuresAreEarned | src/audit/recorder-service.ts:462-526 | in every run with any journal, a call fails with the append error only when its own append threw, and gives up only after one more answered append than the maximum of retries |
| RecorderRuns.FoundIsReturned | src/audit/recorder-service.ts:449-459 | over honest runs, a call whose first lookup finds its identity ends with that entry exactly when it is the one asked for |
| RecorderRuns.DuplicateIsReturned | src/audit/recorder-service.ts:508-515 | so does a call that learns of the entry only from its append, however stale its reads |
| RecorderRuns.UndisturbedCallAppends | src/audit/recorder-service.ts:440-506 | a new event is recorded: a call that nobody disturbs returns the entry that follows the last one of the ledger, which is then appended |
| RecorderRuns.LostReplyIsRecovered | src/audit/recorder-service.ts:449-515 | an append that takes effect and throws fails its call, and submitting the same event again returns the entry that it appended |
| RecorderRuns.ReceiptIsNewExactly | src/audit/recorder-service.ts:462-505 | in every run with arbitrary journals, an appended entry lies beyond what its recorder has committed by then if and only if the head it was appended to is still at least the committed head |
| RecorderRuns.ReceiptsIncreaseExactly | src/audit/recorder-service.ts:462-526 | in every run with overlapping submissions and a journal that may be replaced at any moment, a recorder's receipts strictly increase if and only if that holds at each of them |
| RecorderRuns.AloneIsStillAhead | src/audit/recorder-service.ts:462-505 | it holds for every attempt during which its recorder committed nothing else |
| RecorderRuns.OverlapReceiptsTwice | src/audit/recorder-service.ts:468-505 | it can fail: a run of two overlapping calls and a journal that rolls back between their appends gives one recorder two different entries at one sequence |
| Evidence.MemoryAuditEvidenceProvider.PutIfAbsent | src/audit/evidence.ts:138-165 | stores intact bytes under a new id, accepts a repeat of the same bytes, and throws on bad bytes, another object, or a tombstone |
| Evidence.MemoryAuditEvidenceProvider.ApplyRetention | src/audit/evidence.ts:191-215 | holds, releases and disposals change only their object, and a held object is not disposed |
| Evidence.TombstonesStay | src/audit/evidence.ts:138-215 | no later put or retention command makes a disposed object readable again |
| Evidence.PutsExactly | src/audit/evidence.ts:138-165 | a put succeeds exactly for bytes of the stated digest and size under a new id or as a repeat, and then those bytes are there under the reference first given |
| Evidence.HeldObjectsStay | src/audit/evidence.ts:138-215 | a legally held object keeps its bytes and the hold through every run of puts and commands that does not release that hold |
| Evidence.HeldEvidence.HoldEvidence | src/audit/recorder-service.ts:202-210 | each distinct object gains one holder, and is marked shared when it already had one |
| Evidence.HeldEvidence.ReleaseEvidence | src/audit/recorder-service.ts:212-218 | each object loses one holder and keeps its mark while any is left |
| EvidenceRuns.TwoHoldersShare | src/audit/recorder-service.ts:196-210 | an object that two submissions hold at once is marked shared |
| EvidenceRuns.PutMove | src/audit/recorder-service.ts:318-322 | a put keeps every object that looked new to one submission and is needed by another marked shared |
| EvidenceRuns.DisposeMove | src/audit/recorder-service.ts:241-249 | disposing an object that is not marked shared strips no submission that needs it |
| EvidenceRuns.CommittedEvidenceStays | src/audit/recorder-service.ts:178-252 | in every interleaving, with a re-check that may lag and appends that take effect after they threw, all evidence of a submission whose entry committed is still present unless its own re-check found nothing committed, even when its own call or others failed and compensated |
| EvidenceRuns.AcknowledgedEvidenceStays | src/audit/recorder-service.ts:178-252 | once the append of a submission returned, all its evidence stays present through the rest of the run, whatever other calls do |
| EvidenceRuns.LandedEvidenceStays | src/audit/recorder-service.ts:178-252 | in terms of the run alone: once an append took effect, returned or thrown, early or late, the evidence of its submission stays unless a re-check of that submission found nothing |
| EvidenceRuns.DisposesExactly | src/audit/recorder-service.ts:241-252 | a compensating submission disposes each object it stored unless the object is marked shared, and stops at a legally held one |
| EvidenceRuns.StaleRecheckStrips | src/audit/recorder-service.ts:185-252 | the exception is real: an append that throws after committing and a stale re-check make a submission dispose evidence that its own entry refers to |
| HashChain.SameDigestSamePrefix | src/audit/projection.ts:172-188 | two hash-chained lists that agree on one digest agree on everything up to it |
| HashChain.LedgerIsLinked | src/audit/recorder-service.ts:603-616 | the ledger that recorders build is a hash-chained list whose digests identify its entries |
| Projection.MemoryAuditProjectionProvider.CompareAndApply | src/audit/projection.ts:93-124 | a known sequence is a duplicate or a conflict, and a record is added only at the expected offset and next sequence |
| Projection.AppliesExactly | src/audit/projection.ts:93-124 | of any timeline, exactly the next entry under a new sequence at the expected offset is applied, a known sequence is a duplicate by its digest, and a conflict reports the offset that is there |
| Projection.RecordsSay | src/audit/projection.ts:61-77 | each timeline record has the sequence, digest, recording time and event of its entry |
| Projection.ApplyKeepsProjection | src/audit/projection.ts:179-196 | an entry sent with a matching local offset, whatever that offset is, extends the projected chain or changes nothing |
| Projection.RunProjectsAChain | src/audit/projection.ts:172-217 | over any interleaving of synchronizing and rebuilding workers and any journals, the records are the projection of one hash-chained list from sequence 0 ending at the offset |
| Projection.AuditProjectionWorker.Synchronize | src/audit/projection.ts:172-212 | a synchronization succeeds exactly when the feed extends the projected chain, and then all of it is applied once |
| Projection.AuditProjectionWorker.Rebuild | src/audit/projection.ts:214-217 | a rebuild succeeds exactly when the feed is a chain from sequence 0, and then projects exactly it |
| Projection.AuditProjectionWorker.EntryAt | src/audit/projection.ts:244-257 | finds the entry of a sequence, or none when the journal is shorter |
| Projection.AuditProjectionWorker.Reconcile | src/audit/projection.ts:219-242 | against linked entries says empty, verified or pending exactly when the projected chain is empty, equal to, or a proper prefix of the journal, and gap otherwise; against any journal, verified exactly when it ends in the last projected entry and pending exactly when it reaches further and continues from that entry |
| Mirror.AuditMirrorService.Ingest | src/audit/mirror-service.ts:24-87 | one undisturbed call: duplicate, out of order, discontinuous, or appended |
| Mirror.IngestAnswersExactly | src/audit/mirror-service.ts:24-87 | an unverified entry fails verification, a held one is accepted by its digest, a later one is out of order, one that links is accepted, and anything else breaks continuity |
| Mirror.FreshMovesIngest | src/audit/mirror-service.ts:24-87 | a call of the interleaved model that reads the mirror as it is and is not disturbed moves to that answer |
| Mirror.OvertakenCallRechecks | src/audit/mirror-service.ts:74-87 | a call whose append came too late looks again, and accepts exactly an entry with its digest |
| Mirror.IngestKeepsLinked | src/audit/mirror-service.ts:50-78 | even with verified entries of other chains, a mirror stays one hash-chained list, and takes an entry exactly when it links to its end under a new key |
| Mirror.MirrorIsAPrefix | src/audit/mirror-service.ts:24-87 | with one chain's entries delivered in any order, repeatedly and concurrently, the mirror is an exact prefix of the chain and accepted calls return their own stored entry |
| Mirror.AllAcceptedIsTheChain | src/audit/mirror-service.ts:24-87 | once every entry was accepted by some call, the mirror is the whole chain |
| Mirror.RetryMakesProgress | src/audit/mirror-service.ts:50-70 | a mirror of k entries accepts the next one and all earlier ones and asks for a retry of all later ones |
| ReplayBundle.VerifyInclusionComponents | src/audit/replay-bundle.ts:439-480 | collects exactly the keys of the accepted inclusion proofs and reports a reason when any candidate fails |
| ReplayBundle.VerifyInclusionBinding | src/audit/replay-bundle.ts:523-542 | valid exactly when every covered entry has a verified proof and a covered head is the signed one |
| BundleHistory.VerifyConsistencyComponents | src/audit/replay-bundle.ts:482-515 | collects exactly the keys of the accepted consistency proofs and reports a reason when any candidate fails |
| BundleHistory.VerifyLinks | src/audit/replay-bundle.ts:343-379 | no reason exactly when, in each ledger epoch ordered by size, neighbours differ in size and are bound by the chain link or, around an omitted checkpoint, by a consistency proof |
| BundleHistory.LinkedExactly | src/audit/replay-bundle.ts:355-376 | of two neighbours, equal sizes are a fork, naming the older links, naming nothing, another included checkpoint or an omitted one where none fits does not, and the rest stand on a verified proof |
| BundleHistory.VerifyCheckpointDimension | src/audit/replay-bundle.ts:786-816 | the checkpoint dimension is valid exactly when every checkpoint candidate is bound to the entries it covers, every proof is good, the history is linked, each selected epoch has exactly the listed sizes, and each epoch start names the largest included checkpoint of a selected predecessor; without candidates, exactly when the entries' report is and no selection lists a size |
| BundleHistory.VerifySelections | src/audit/replay-bundle.ts:379-388 | comparing sorted sizes finds no reason exactly when each selected epoch's checkpoints have the listed sizes, each as often |
| BundleHistory.VerifyTransitions | src/audit/replay-bundle.ts:390-418 | no reason exactly when every genesis entry whose predecessor epoch is selected names an included checkpoint of it, and none of that epoch is larger |
| BundleHistory.SelectionIsExact | src/audit/replay-bundle.ts:343-388 | then a selected epoch has one checkpoint of each listed size and no other, and no size is listed twice |
| BundleHistory.NoForkedSizes | src/audit/replay-bundle.ts:352-360 | then no two different checkpoints of one ledger epoch have the same tree size |
| BundleHistory.NeighboursAreBound | src/audit/replay-bundle.ts:352-377 | then of two neighbours the newer names the older, or the older's root is the root of a prefix of every leaf list with the newer's root and size |
| ReplayBundle.EntryIsItsLeaf | src/audit/replay-bundle.ts:799-810 | then each covered entry is the leaf at its own sequence in every leaf list of the checkpoint's size and root, whichever path bound it |
| ReplayBundle.CoveredSequencesDistinct | src/audit/replay-bundle.ts:799-810 | then no two different entries covered by one checkpoint share a sequence |
| ReplayBundle.CoveredHeadIsSigned | src/audit/replay-bundle.ts:523-542 | in a valid bundle the entry at a checkpoint's last sequence, if included, is the one whose digest it signed, whichever way the checkpoint is bound |
| ReplayBundle.ConsistentItemIsPrefix | src/audit/replay-bundle.ts:482-515 | an accepted consistency proof makes the older root the root of a prefix of the newer checkpoint's leaves |
| HonestBundle.HonestBundleIsAccepted | src/audit/replay-bundle.ts:786-816 | the other direction: signed checkpoints over one ledger, entries that are its leaves and generated proofs pass every check, whatever is left out, when each checkpoint has all its leaves or a proof for each entry it covers and neighbours are linked or bridged |
| HonestBundle.WholeLedgerIsCovered | src/audit/replay-bundle.ts:799-810 | a bundle with the whole ledger in order covers each checkpoint completely, so that it needs no proofs |
| HonestBundle.PrefixExactly | src/audit/verifier.ts:421-448 | nothing is wrong with a checkpoint's range and root exactly when size, ends, head, ledger and recomputed root are those of the entries |
| HonestBundle.ItemsAreIncluded | src/audit/replay-bundle.ts:439-480 | a proof counts only for an entry and a checkpoint that the bundle includes |
| HonestBundle.MergesExactly | src/audit/verifier.ts:717-729 | one invalid dimension makes a merge invalid, only valid ones make it valid, and no reason is lost |
| HonestBundle.TransitionsExactly | src/audit/replay-bundle.ts:390-418 | a genesis entry whose predecessor epoch is selected passes exactly when the named checkpoint is included and no checkpoint of that epoch is larger |
| Bitstring.UpdateChangesOneFlag | src/delegation/bitstring.ts:72-87 | writing one bit, most significant first, changes that index and no other |
| Bitstring.MostSignificantFirst | src/delegation/bitstring.ts:72-100 | index k is bit 7 - k mod 8 of byte k div 8, the layout of W3C Bitstring Status List |
| Bitstring.ViewInjective | src/delegation/bitstring.ts:72-100 | byte arrays that read the same at every index are the same bytes |
| Bitstring.BitstringManager.SetBit | src/delegation/bitstring.ts:72-87 | sets exactly the flag at an index in range, and nothing out of range |
| Bitstring.BitstringManager.GetBit | src/delegation/bitstring.ts:89-100 | reads the flag at an index in range, and refuses others |
| Bitstring.BitstringManager.GetSetBits | src/delegation/bitstring.ts:102-110 | lists exactly the set indices, in increasing order |
| Bitstring.BitstringManager.Decoded | src/delegation/bitstring.ts:125-136 | decoding rounds the size up to whole bytes |
| Bitstring.FromSetBits | src/delegation/bitstring.ts:152-165 | sets exactly the given bits, or refuses when one is out of range |
| StatusList.DoUpdateStatus | src/delegation/statuslist-manager.ts:124-169 | writes the list with exactly one flag changed, or throws for a missing or oversized list, a non-decimal index or one out of range |
| StatusList.IndexReadsBack | src/utils/statuslist-bits.ts:44-55 | the decimal text of a number is read as that number up to the largest safe integer, and refused beyond |
| StatusList.EffectExactly | src/delegation/statuslist-manager.ts:124-281 | a task fails at its work exactly for a missing or oversized list or an index malformed or out of range; an update sets its one flag, and creation makes a clear list of the configured size in whole bytes |
| StatusList.RunIsSequential | src/delegation/statuslist-manager.ts:106-122 | in every interleaving tasks of a list never overlap, the stored list is what those that took effect produce one after another in lock order, and a task that returned returned what it returns there |
| StatusList.FailuresAreEarned | src/delegation/statuslist-manager.ts:106-169 | over every run, a task that did not throw and whose write was acknowledged fails only if it was blocked at its place in the lock order |
| StatusList.SomeTaskMayProceed | src/delegation/statuslist-manager.ts:106-122 | over every run, while a task is unsettled it or one before it can go on |
| StatusList.ChecksReadTheLastUpdate | src/delegation/statuslist-manager.ts:124-196 | a check answers with the last update of its index to take effect: no update is lost and first creation never clears a set bit |
| StatusList.ReplayKeepsSize | src/delegation/statuslist-manager.ts:228-281 | once it exists, a list keeps its size and purpose |
| StatusList.GrantedIndicesFit | src/delegation/statuslist-manager.ts:75-98 | every granted index is below the capacity of the stored list for good, and none is granted twice |
| StatusList.GrantedExactly | src/delegation/statuslist-manager.ts:75-98 | an allocation whose task ended is granted exactly when the task did not fail and the index is one of the list's |
| StatusEntries.WriteBitEffect | src/delegation/statuslist-manager.ts:124-169 | an update sets or clears the bit for every entry that names it, however its index is spelled, and changes no other bit of any list |
| StatusEntries.CheckReadsBit | src/delegation/statuslist-manager.ts:171-196 | a check that answers reads the bit that the entry names |
| StatusEntries.WritesSucceedExactly | src/delegation/statuslist-manager.ts:124-169 | an update succeeds exactly when the entry's list is stored and can be decoded and its index is in range |
| StatusEntries.ChecksAnswerExactly | src/delegation/statuslist-manager.ts:171-196 | a check answers exactly then and when the list has the entry's purpose |
| StatusEntries.LeadingZeroSameBit | src/utils/statuslist-bits.ts:44-55 | an index with a leading zero names the same bit |
| StatusEntries.MintedIdReadsBack | src/delegation/delegation-status-entry.ts:12-36 | the id that an allocation mints for a list and a number reads back as that list and that number, always with the revocation purpose, whatever the list is for |
| StatusEntries.OnlyReferences | src/delegation/delegation-status-entry.ts:12-36 | nothing but a list, a last hash and digits is read as a reference |
| ScopeMatcher.ContainmentIsSound | src/delegation/scope-matcher.ts:125-159 | when an entry contains another, it grants every value the other grants, except exactly values with dot segments for a prefix inside a path prefix |
| ScopeMatcher.DotSegmentExample | src/delegation/scope-matcher.ts:125-159 | the exception is real |
| ScopeMatcher.ContainmentIsExact | src/delegation/scope-matcher.ts:125-159 | between prefixes, between path prefixes, and for a path prefix in a prefix, containment holds if and only if everything granted by the inner is granted by the outer |
| ScopeMatcher.PrefixInPathIsExact | src/delegation/scope-matcher.ts:125-159 | and a prefix is in a path prefix if and only if the path prefix grants all its values without dot segments |
| ScopeMatcher.OtherContainment | src/delegation/scope-matcher.ts:125-159 | an identical entry is contained, an exact scope exactly where it is granted, and a regex only where it is repeated |
| ScopeMatcher.KindsGrant | src/delegation/scope-matcher.ts:59-88 | an exact scope grants its own text, a prefix what starts with it, with or without a star behind it, and a regex full matches within both length limits |
| ScopeMatcher.PathPrefixGrants | src/delegation/scope-matcher.ts:16-88 | a path prefix, with any slashes and an optional star behind it, grants the path and what lies below it, but nothing with a dot segment |
| ScopeMatcher.DotSegmentMeans | src/delegation/scope-matcher.ts:29-36 | a path has a dot segment if and only if "." or ".." stands somewhere between separators or ends |
| ScopeMatcher.OddEntriesAnswer | src/delegation/scope-matcher.ts:59-88 | what entries that are no scopes answer: null and prefix matchers throw, a regex reads the text of its resource, anything else grants nothing |
| ScopeMatcher.FastCheckIsExact | src/delegation/scope-matcher.ts:141-174 | the set-plus-patterns check equals asking every entry if and only if an entry that shares the scope's key implies that some entry contains it |
| ScopeMatcher.PlainKeysAreHonest | src/delegation/scope-matcher.ts:141-141 | that is so whenever matcher names have no NUL character, as the four kinds have none |
| ScopeMatcher.NulKeyExample | src/delegation/scope-matcher.ts:136-174 | it can fail: a matcher name with NUL shares the key of a prefix that it does not contain |
| ScopeMatcher.WiderAuthorityGrants | src/delegation/scope-matcher.ts:150-174 | what a contained scope with an honest key grants, some entry of the authority grants: every value without dot segments, and every value unless it is a prefix under a path prefix |
| ChainEnforcement.ScopeSatisfies | src/delegation/scope-matcher.ts:191-204 | a value is satisfied exactly when some entry of the authority grants it, coerced resources included; it throws exactly when no flat scope grants it and the first entry that does not say no is one that throws; the flag is set exactly when a pattern is the first to grant it |
| ChainEnforcement.AttenuationIsContainment | src/delegation/chain-enforcement.ts:46-85 | a child attenuates a restricted parent exactly when it has scopes and each is contained in the parent's authority |
| ChainEnforcement.GrantsExactly | src/delegation/scope-matcher.ts:97-119 | a credential grants its flat scopes, those of its constraints included, and what its matchers grant |
| ChainEnforcement.FormsExactly | src/delegation/chain-enforcement.ts:205-249 | the chain is the leaf alone without a parent, or the ancestors and the presented leaf, in place of a copy of itself at their end; anything else is refused |
| ChainEnforcement.CredentialExactly | src/delegation/chain-enforcement.ts:280-341 | what each credential shows: it verifies, its status can be looked up, and it is addressed to this server, by name unless it has no parent |
| ChainEnforcement.AcceptedExactly | src/delegation/chain-enforcement.ts:250-455 | what an accepted chain shows besides, and nothing else: length, a parentless trusted root, hops issued and signed by the subject above and attenuating, distinct ids, none revoked |
| ChainEnforcement.EarliestIs | src/delegation/chain-enforcement.ts:310-322 | the reported deadline is one of the chain's expiry dates and constraints, and none of them is earlier |
| ChainEnforcement.WalkChain | src/delegation/chain-enforcement.ts:263-411 | the walk accepts exactly the chains whose every credential, root and hop passes, with the earliest deadline and the root warning |
| ChainEnforcement.ValidateDelegationChain | src/delegation/chain-enforcement.ts:180-455 | a leaf is accepted if and only if its chain can be formed, is not too long, passes the walk, and no credential on it reads revoked |
| ChainEnforcement.LeafWithinEveryAncestor | src/delegation/chain-enforcement.ts:277-406 | of an accepted chain with honest keys, whatever the leaf grants every ancestor that has scopes grants: every value without dot segments, and every value when no hop puts a prefix under a path prefix |
| ChainEnforcement.PlainChainIsHonest | src/delegation/scope-matcher.ts:141-141 | a chain whose matcher names have no NUL character is honest |
| ChainEnforcement.DotSegmentsEscape | src/delegation/chain-enforcement.ts:46-85 | an accepted hop whose child grants a dot-segment value that its parent does not |
| ChainEnforcement.NulKeysEscape | src/delegation/chain-enforcement.ts:46-85 | an accepted hop whose child grants what its parent does not, through a shared key |
| Decimal.DecimalLteIsExact | src/card/delegation.ts:136-153 | the comparison is exactly at-most on the rationals the strings denote, and false when either is not a decimal |
| Decimal.DecimalsAreRead | src/card/delegation.ts:136-142 | digits with an optional fraction, with any white space around them, are read as those digits |
| Decimal.OnlyDecimalsAreRead | src/card/delegation.ts:136-142 | and nothing else is read as a decimal |
| CrispDelegation.NarrowsTransitive | src/card/delegation.ts:174-192 | narrowing of caveats composes |
| CrispDelegation.NarrowerPermitsLess | src/card/delegation.ts:174-192 | a narrower caveat permits no amount, currency or time that the wider one refuses |
| CrispDelegation.NarrowsExactly | src/card/delegation.ts:174-192 | a caveat of an unknown kind narrows only itself, and one of the two known kinds narrows another if and only if both can be read and it permits no more |
| CrispDelegation.UnknownCaveatsStay | src/card/delegation.ts:174-231 | along an accepted chain a caveat of an unknown kind is still there verbatim at every descendant |
| CrispDelegation.NoReasonsMeansNarrows | src/card/delegation.ts:193-231 | a hop has no reasons exactly when it narrows in every respect |
| CrispDelegation.HopReasonsMean | src/card/delegation.ts:193-231 | each reason of a hop names a fault that it has, and each fault is named |
| CrispDelegation.ExpiryReasons | src/card/delegation.ts:253-275 | no reasons exactly when every readable bound of every hop admits the moment, and the reasons are exactly the faults of each hop's times |
| CrispDelegation.WindowIsInclusive | src/card/delegation.ts:253-275 | validity windows include both of their ends |
| CrispDelegation.SoundMeansFaultless | src/card/delegation.ts:287-339 | a chain fits its context, narrows at every hop and is current exactly when it has none of the faults that reasons name |
| CrispDelegation.ValidateDelegationChain | src/card/delegation.ts:287-339 | ok exactly for chains that fit the root context and the length limit, narrow at every hop and are current; the reasons are exactly the faults of the chain, and the parties are those of its root and leaf |
| CrispDelegation.NarrowingComposes | src/card/delegation.ts:207-231 | along an accepted chain actions only shrink, every caveat of an ancestor is still there at least as narrow, the end date only moves earlier, and the target is constant |
| CrispDelegation.CustodyIsUnbroken | src/card/delegation.ts:207-231 | along an accepted chain each credential is issued by the invoker of the one above, or its controller when it names none, and is for its capability |
| CrispDelegation.LeafWithinEveryAncestor | src/card/delegation.ts:304-339 | the leaf may do nothing that an ancestor may not |
| DelegationGraph.RegisterKeepsForest | src/delegation/delegation-graph.ts:66-133 | registration keeps parents and children inverse and depths finite, whatever it answers |
| DelegationGraph.RegisterKeepsChains | src/delegation/delegation-graph.ts:66-133 | registration never moves a stored node |
| DelegationGraph.RegistersExactly | src/delegation/delegation-graph.ts:66-133 | a node may not name itself or a missing parent, a stored one is returned exactly when nothing registered differs and is never changed, and a new one is stored as it comes and listed last by its parent |
| DelegationGraph.RemovalKeepsForestExactly | src/delegation/delegation-graph.ts:219-232 | however far a removal gets, it leaves a forest, under whatever depths, if and only if it neither deletes a node with children nor stops between its two writes |
| DelegationGraph.DelegationGraphManager.RemoveDelegation | src/delegation/delegation-graph.ts:219-232 | unlinks and deletes any stored node, as far as its writes succeed, and the graph is still a forest exactly when it is none of those removals |
| DelegationGraph.RemoveLeafKeepsChains | src/delegation/delegation-graph.ts:219-232 | removing a node without children moves no other node |
| DelegationGraph.RemovesExactly | src/delegation/delegation-graph.ts:219-232 | how far a removal gets: a stored parent is written first, and unless that throws the node goes; nothing else changes |
| DelegationGraph.RemovalCanCloseACycle | src/delegation/delegation-graph.ts:219-232 | removing a node with children and registering its id again can close a cycle |
| DelegationGraph.MemoryDelegationGraphStorage.RegisterNodeAtomic | src/delegation/storage/memory-graph-storage.ts:52-79 | inserts and links in one step; a stored id is settled first, as a no-op or a refusal, whether or not its parent is stored |
| DelegationGraph.AtomicDiffersOnRepeats | src/delegation/delegation-graph.ts:85-112 | the store and the manager's checks leave the same graph, and answer differently only for a repeat whose parent is gone |
| DelegationGraph.MemoryDelegationGraphStorage.GetChain | src/delegation/storage/memory-graph-storage.ts:191-212 | in any graph it throws exactly when parent links never end, and otherwise returns the one path to the top |
| DelegationGraph.ForestPath | src/delegation/storage/memory-graph-storage.ts:191-212 | in a forest that path is the chain from the root, so the walk never throws |
| DelegationGraph.MemoryDelegationGraphStorage.GetDescendants | src/delegation/storage/memory-graph-storage.ts:105-134 | on any graph returns the nodes that the breadth-first search of the two rows below finds, in its order |
| DelegationGraph.FoundIsBelow | src/delegation/storage/memory-graph-storage.ts:105-134 | on any graph, cycles and missing nodes included, the search finds exactly the stored nodes below its start |
| DelegationGraph.FoundInForest | src/delegation/storage/memory-graph-storage.ts:105-134 | in a forest it finds each node once, and higher nodes first |
| DelegationGraph.FoundLevelByLevel | src/delegation/storage/memory-graph-storage.ts:105-134 | in a forest it goes level by level: the children of the start in their order, then the children of those, and so on |
| DelegationGraph.BelowInForest | src/delegation/storage/memory-graph-storage.ts:105-134 | in a forest lying below by child links is having the node on the chain by parent links |
| DelegationGraph.DelegationGraphManager.RegisterDelegation | src/delegation/delegation-graph.ts:66-133 | the checks and the store together make the specified registration and keep the forest |
| DelegationGraph.DelegationGraphManager.SetRevoked | src/delegation/delegation-graph.ts:158-166 | changes one mark, or none when the provider drops it, and reports which |
| DelegationGraph.DelegationGraphManager.ValidateChain | src/delegation/delegation-graph.ts:190-217 | on any graph, valid exactly when each node on the one path up was issued by the subject above it, and a throw exactly on parent links that never end |
| CascadingRevocation.LiveMeansNoneRevoked | src/delegation/cascading-revocation.ts:152-179 | a chain reads live exactly when every status entry on it can be checked, by a list of its purpose, and no node is recorded revoked by mark or bit |
| CascadingRevocation.FirstDecides | src/delegation/cascading-revocation.ts:152-179 | the first node from the root that is revoked or cannot be checked decides what a chain reads |
| CascadingRevocation.EntryOfNode | src/delegation/delegation-status-entry.ts:12-47 | a structured entry is used as it is, and without one a minted reference stands for the entry it was minted for |
| CascadingRevocation.RevokeAllRecords | src/delegation/cascading-revocation.ts:54-126 | a completed cascade leaves a record at every node it covers, and however far one gets its first node is recorded once its mark was written on a provider that keeps marks |
| CascadingRevocation.RevokeAllOnlyRevokes | src/delegation/cascading-revocation.ts:54-126 | however far a cascade gets, it only adds marks and bits, and a dry run changes nothing |
| CascadingRevocation.OperationKeepsForest | src/delegation/cascading-revocation.ts:37-150 | an operation, complete or stopped between any two writes, leaves a forest if and only if it neither deletes a node that has children nor stops between unlinking a node and deleting it |
| CascadingRevocation.RecordOutlivesOperation | src/delegation/cascading-revocation.ts:86-150 | on any graph a node's record outlives an operation, whichever of its writes throw or take effect all the same, if and only if the operation neither deletes the node, nor clears its mark, nor clears the bit, in whatever spelling of its index, that is its only lasting record |
| CascadingRevocation.RecordLastsExactly | src/delegation/cascading-revocation.ts:37-150 | over every run of registrations, cascades, restores, removals and status updates a record lasts exactly until such an operation |
| CascadingRevocation.RevocationIsRecorded | src/delegation/cascading-revocation.ts:37-126 | a revocation whose first mark was written on a provider that keeps marks, or that completed on any provider, leaves a record of its node |
| CascadingRevocation.RevokedUntilRestored | src/delegation/cascading-revocation.ts:37-174 | after a revocation that left a record of its node, however far it got, every node with the revoked one on its path up, registered before or after, does not read live until that record is erased, on graphs of any shape |
| CascadingRevocation.RestoringTheRootRevivesNobody | src/delegation/cascading-revocation.ts:128-150 | on any provider, nodes below that a completed cascade revoked stay revoked until their own record is erased, so restoring the node it came from does not revive them |
| CascadingRevocation.SharedEntryRevives | src/delegation/cascading-revocation.ts:128-150 | on a provider that drops marks, restoring one node revives another whose status entry names the same bit, though it may spell the index differently |
| CascadingRevocation.SuccessIsRecorded | src/delegation/cascading-revocation.ts:104-126 | a completed revocation is recorded for the node and everything below it even when the provider drops marks |
| CascadingRevocation.SuccessIsPublished | src/delegation/cascading-revocation.ts:104-126 | a completed revocation has set the status bit of everything below that has an entry, on every provider, and has marked it on one that keeps marks |
| CascadingRevocation.CompletesExactly | src/delegation/cascading-revocation.ts:37-126 | a revocation completes if and only if its node is stored and not too deep, no write or hook at or below it throws, every entry there names an existing bit, and a node without one is on a provider that keeps marks |
| CascadingRevocation.RestoreCompletesExactly | src/delegation/cascading-revocation.ts:128-150 | a restore completes if and only if its node is stored, its entry names an existing bit if it has one, and neither write throws |
| CascadingRevocation.RestoreStopsRevoked | src/delegation/cascading-revocation.ts:128-150 | however far a restore gets, its node stays recorded if and only if its mark was there and not cleared or its bit was; a completed one leaves no record of its own, and no other node changes |
| CascadingRevocation.CascadingRevocationManager.RevokeDelegation | src/delegation/cascading-revocation.ts:37-84 | on any graph revokes the node and then exactly what lies below it, in the order found, stopping at the first failing write or throwing hook, mark first and status bit second; a path up that is too long or never ends changes nothing, and a dry run writes nothing |
| CascadingRevocation.CascadingRevocationManager.RestoreDelegation | src/delegation/cascading-revocation.ts:128-150 | clears the bit first and the mark last, each write possibly throwing with or without effect |
| CascadingRevocation.CascadingRevocationManager.IsRevoked | src/delegation/cascading-revocation.ts:152-174 | on any graph reads the one path up from its top and reports the first revoked node, or throws at a bit that cannot be checked or on parent links that never end |
| GraphOverlap.MarkOutlivesStep | src/delegation/delegation-graph.ts:158-166 | with registrations between the read and the write of `setRevoked`, a mark outlives a step if and only if the step is not a write that clears it |
| GraphOverlap.OverlapKeepsRevocation | src/delegation/delegation-graph.ts:66-166 | however registrations and `setRevoked` calls overlap, until a call clears a node's mark every node with it on its path has a mark on its path |
| GraphOverlap.StepKeepsInverse | src/delegation/delegation-graph.ts:158-166 | a step keeps parents and children inverse if and only if it is not a write of a node that has a child which the call did not read |
| GraphOverlap.StaysInverseExactly | src/delegation/delegation-graph.ts:66-166 | over every run of overlapping registrations and `setRevoked` calls, parents and children are inverse at every moment if and only if no step is such a write |
| GraphOverlap.OverlooksExactly | src/delegation/delegation-graph.ts:158-166 | a call's write is one exactly when a child of its node was registered between its read and its write |
| GraphOverlap.OverlapLosesChild | src/delegation/delegation-graph.ts:158-166 | it can fail: a child registered between the read and the write drops out of its parent's children |

## Left out

- LeafWithinEveryAncestor: in the scope chain it is for honest keys, and for values with dot segments only when no hop puts a prefix under a path prefix; NulKeysEscape and DotSegmentsEscape show why.
- AppendEvent: is for one submission at a time; overlapping submissions are in ReceiptsIncreaseExactly.
- CommittedEvidenceStays: takes each provider call as one atomic step, and disposals other than a submission's own compensation as absent.
- Synchronize: its exact outcome is for a worker that runs alone; under overlap RunProjectsAChain holds.
- VerifyCheckpointDimension: takes as input what each entry's event says about its predecessor epoch and the report on the entries, and the outcome of suite, trust and signature checks as an oracle.
- BuildCandidate: an event counts as genesis when the recorder's own initialization writes it; a producer's event of the same type is an ordinary event.
- SetRevoked: the method runs alone; its overlap with registrations is in the GraphOverlap module, and cascades that overlap other operations are not modelled.
- Cryptography and canonicalization: SHA-256, signatures, JWS, AES-GCM and JCS bytes are parameters or absent.
- Schema validation, decimal-string parsing of sizes and sequences, frozen objects and reason texts.
- JavaScript numbers that are not integers, and empty strings as delegation ids.
- Several ledgers, epochs and projections in one store: each module models one ledger epoch, apart from the replay bundle; the entry-range side of selections, observations and anchors of a bundle are not part of this model.
- Submission checks before an append (authorization, authority binding, expected epoch), and initialization other than the genesis append it makes.
- The builder's inclusion proofs for a checkpoint, and the verifier's entry, chain-position and key-trust checks.
- GZIP and base64 encoding of status lists: taken as lossless.
- Regular expressions: a full match is an uninterpreted predicate behind the length limits; only identical patterns contain each other.
- A malformed ancestor credential in a resolved chain, and ports that throw during the walk.
- The non-atomic fallback of registration.
- The revocation half of CRISP chain evaluation, wall-clock defaults, logging, providers other than the reference ones, the CLI, the HTTP servers and the rest of the package.
