/** Offline verification of a replay bundle's checkpoints, src/audit/replay-bundle.ts with the
    checkpoint checks of src/audit/verifier.ts: what binds an included entry to a checkpoint. */
module ReplayBundle {
  import opened Wrappers
  import opened Hashing
  import opened MerkleTree
  import opened MerkleClimb
  import opened MerkleVerify
  import opened MerkleConsistency

  datatype LedgerRef = LedgerRef(ledgerId: string, ledgerEpochId: string)

  datatype Entry = Entry(ledger: LedgerRef, sequence: nat, entryDigest: Digest)

  datatype CheckpointCore = CheckpointCore(
    ledger: LedgerRef, treeSize: nat, firstSequence: nat, lastSequence: nat,
    rootDigest: Digest, headEntryDigest: Digest, previousCheckpointDigest: Option<Digest>)

  datatype Checkpoint = Checkpoint(core: CheckpointCore, checkpointDigest: Digest)

  datatype InclusionItem = InclusionItem(
    ledger: LedgerRef, checkpointDigest: Digest, entryDigest: Digest, sequence: nat,
    leafIndex: nat, treeSize: nat, auditPath: seq<Digest>)

  datatype ConsistencyItem = ConsistencyItem(
    ledger: LedgerRef, oldCheckpointDigest: Digest, newCheckpointDigest: Digest,
    oldTreeSize: nat, newTreeSize: nat, auditPath: seq<Digest>)

  datatype Reason =
    | NotEvaluated
    | KeyBoundaryUnresolved
    | SchemaInvalid
    | UnsupportedSuite
    | UnsupportedAlgorithm
    | UntrustedRecorder
    | SignatureInvalid
    | CheckpointDigestMismatch
    | CheckpointRangeMismatch
    | CheckpointRootMismatch
    | MerkleProofInvalid
    | MerkleProofMissing
    | OtherReason(code: string)

  datatype Verdict = Valid | Invalid | Indeterminate

  datatype Dimension = Dimension(verdict: Verdict, reasons: set<Reason>)

  /** `verdictOf`: some reasons only mean that the collateral does not decide. */
  function VerdictOf(reasons: set<Reason>): Verdict {
    if reasons == {} then Valid
    else if reasons <= {NotEvaluated, KeyBoundaryUnresolved} then Indeterminate
    else Invalid
  }

  function Strict(reasons: set<Reason>): Dimension {
    Dimension(if reasons == {} then Valid else Invalid, reasons)
  }

  function AllReasons(dimensions: seq<Dimension>): set<Reason> {
    set i, r | 0 <= i < |dimensions| && r in dimensions[i].reasons :: r
  }

  /** `mergeAuditDimensions`: an empty merge is never valid. */
  function Merge(dimensions: seq<Dimension>): Dimension {
    if |dimensions| == 0 then Dimension(Indeterminate, {NotEvaluated})
    else
      Dimension(
        if exists i :: 0 <= i < |dimensions| && dimensions[i].verdict == Invalid then Invalid
        else if forall i :: 0 <= i < |dimensions| ==> dimensions[i].verdict == Valid then Valid
        else Indeterminate,
        AllReasons(dimensions))
  }

  type InclusionKey = (Digest, Digest, nat)

  type ConsistencyKey = (Digest, Digest)

  // ---- Merkle proof components -------------------------------------------------------

  function FindCheckpoint(checkpoints: seq<Checkpoint>, digest: Digest, ledger: LedgerRef): (found: Option<Checkpoint>)
    ensures found.Some? ==>
      found.value in checkpoints && found.value.checkpointDigest == digest && found.value.core.ledger == ledger
  {
    if checkpoints == [] then None
    else if checkpoints[0].checkpointDigest == digest && checkpoints[0].core.ledger == ledger then Some(checkpoints[0])
    else FindCheckpoint(checkpoints[1..], digest, ledger)
  }

  predicate InclusionItemAccepted(sha: Hasher, item: InclusionItem, entries: seq<Entry>, checkpoints: seq<Checkpoint>) {
    var checkpoint := FindCheckpoint(checkpoints, item.checkpointDigest, item.ledger);
    && checkpoint.Some?
    && Entry(item.ledger, item.sequence, item.entryDigest) in entries
    && item.treeSize == checkpoint.value.core.treeSize
    && item.leafIndex == item.sequence
    && InclusionAccepted(sha, Sha256(item.entryDigest), item.leafIndex, item.treeSize,
                         Sha256(checkpoint.value.core.rootDigest), Texts(item.auditPath))
  }

  predicate ConsistencyItemAccepted(sha: Hasher, item: ConsistencyItem, checkpoints: seq<Checkpoint>) {
    var older := FindCheckpoint(checkpoints, item.oldCheckpointDigest, item.ledger);
    var newer := FindCheckpoint(checkpoints, item.newCheckpointDigest, item.ledger);
    && older.Some? && newer.Some?
    && item.oldTreeSize == older.value.core.treeSize
    && item.newTreeSize == newer.value.core.treeSize
    && ConsistencyAccepted(sha, item.oldTreeSize, item.newTreeSize,
                           Sha256(older.value.core.rootDigest), Sha256(newer.value.core.rootDigest), Texts(item.auditPath))
  }

  function KeyOf(item: InclusionItem): InclusionKey {
    (item.checkpointDigest, item.entryDigest, item.sequence)
  }

  predicate GoodInclusion(
    sha: Hasher, candidate: Option<InclusionItem>, entries: seq<Entry>, checkpoints: seq<Checkpoint>) {
    candidate.Some? && InclusionItemAccepted(sha, candidate.value, entries, checkpoints)
  }

  function AcceptedKeys(
    sha: Hasher, candidates: seq<Option<InclusionItem>>, entries: seq<Entry>, checkpoints: seq<Checkpoint>): set<InclusionKey>
  {
    set c | c in candidates && GoodInclusion(sha, c, entries, checkpoints) :: KeyOf(c.value)
  }

  lemma {:induction false} AcceptedKeysSnoc(
    sha: Hasher, candidates: seq<Option<InclusionItem>>, next: Option<InclusionItem>, entries: seq<Entry>,
    checkpoints: seq<Checkpoint>)
    ensures AcceptedKeys(sha, candidates + [next], entries, checkpoints) ==
      AcceptedKeys(sha, candidates, entries, checkpoints)
      + if GoodInclusion(sha, next, entries, checkpoints) then {KeyOf(next.value)} else {}
  {
    var all := candidates + [next];
    assert forall c :: c in all <==> c in candidates || c == next;
    forall key | key in AcceptedKeys(sha, candidates, entries, checkpoints)
      ensures key in AcceptedKeys(sha, all, entries, checkpoints)
    {
      var c :| c in candidates && GoodInclusion(sha, c, entries, checkpoints) && KeyOf(c.value) == key;
      assert c in all;
    }
    if GoodInclusion(sha, next, entries, checkpoints) {
      assert next in all;
    }
  }

  /** The inclusion loop of `verifyMerkleProofComponents`; a candidate that fails its schema is None. */
  method VerifyInclusionComponents(
    sha: Hasher, candidates: seq<Option<InclusionItem>>, entries: seq<Entry>, checkpoints: seq<Checkpoint>)
    returns (reasons: set<Reason>, inclusions: set<InclusionKey>)
    ensures inclusions == AcceptedKeys(sha, candidates, entries, checkpoints)
    ensures reasons == {} <==> forall c :: c in candidates ==> GoodInclusion(sha, c, entries, checkpoints)
  {
    reasons, inclusions := {}, {};
    for n := 0 to |candidates|
      invariant inclusions == AcceptedKeys(sha, candidates[..n], entries, checkpoints)
      invariant reasons == {} <==> forall c :: c in candidates[..n] ==> GoodInclusion(sha, c, entries, checkpoints)
    {
      var candidate := candidates[n];
      assert candidates[..n + 1] == candidates[..n] + [candidate];
      AcceptedKeysSnoc(sha, candidates[..n], candidate, entries, checkpoints);
      if candidate.None? {
        reasons := reasons + {SchemaInvalid};
        continue;
      }
      var item := candidate.value;
      var checkpoint := FindCheckpoint(checkpoints, item.checkpointDigest, item.ledger);
      var included := false;
      if checkpoint.Some? && Entry(item.ledger, item.sequence, item.entryDigest) in entries
         && item.treeSize == checkpoint.value.core.treeSize && item.leafIndex == item.sequence {
        included := VerifyInclusion(sha, Sha256(item.entryDigest), item.leafIndex, item.treeSize,
                                    Sha256(checkpoint.value.core.rootDigest), Texts(item.auditPath));
      }
      if included {
        inclusions := inclusions + {KeyOf(item)};
      } else {
        reasons := reasons + {MerkleProofInvalid};
      }
    }
    assert candidates[..|candidates|] == candidates;
  }

  // ---- Checkpoints -------------------------------------------------------------------

  /** What `checkSignedCheckpoint` decides without this model's help: suite, algorithm, issuer
      trust and signature. */
  type SignatureOracle = Checkpoint -> set<Reason>

  type CoreDigest = CheckpointCore -> Digest

  function SignedReasons(oracle: SignatureOracle, digestOf: CoreDigest, checkpoint: Checkpoint): set<Reason> {
    oracle(checkpoint)
    + (if digestOf(checkpoint.core) != checkpoint.checkpointDigest then {CheckpointDigestMismatch} else {})
  }

  function VerifySignedCheckpoint(oracle: SignatureOracle, digestOf: CoreDigest, checkpoint: Checkpoint): Dimension {
    var core := checkpoint.core;
    var reasons := SignedReasons(oracle, digestOf, checkpoint)
      + if core.firstSequence != 0 || core.lastSequence + 1 != core.treeSize then {CheckpointRangeMismatch} else {};
    Dimension(VerdictOf(reasons), reasons)
  }

  function Digests(entries: seq<Entry>): (digests: seq<Digest>)
    ensures |digests| == |entries|
    ensures forall i :: 0 <= i < |digests| ==> digests[i] == entries[i].entryDigest
  {
    Mapped(entries, (entry: Entry) => entry.entryDigest)
  }

  /** What is wrong with a checkpoint's range or root, given its complete leaf prefix. */
  function PrefixReasons(sha: Hasher, core: CheckpointCore, entries: seq<Entry>): set<Reason> {
    if core.treeSize > MAX_SAFE_INTEGER || core.treeSize != |entries| || |entries| == 0
       || entries[0].sequence != core.firstSequence
       || entries[|entries| - 1].sequence != core.lastSequence
       || entries[|entries| - 1].entryDigest != core.headEntryDigest
       || exists e :: e in entries && e.ledger != core.ledger
    then {CheckpointRangeMismatch}
    else if Root(sha, Digests(entries)) != core.rootDigest then {CheckpointRootMismatch}
    else {}
  }

  /** Recomputes a checkpoint's root from its complete leaf prefix. */
  function VerifyCheckpoint(
    sha: Hasher, oracle: SignatureOracle, digestOf: CoreDigest, checkpoint: Checkpoint, entries: seq<Entry>): Dimension
  {
    var reasons := SignedReasons(oracle, digestOf, checkpoint) + PrefixReasons(sha, checkpoint.core, entries);
    Dimension(VerdictOf(reasons), reasons)
  }

  lemma {:induction false} ValidCheckpointRoot(
    sha: Hasher, oracle: SignatureOracle, digestOf: CoreDigest, checkpoint: Checkpoint, entries: seq<Entry>)
    requires VerifyCheckpoint(sha, oracle, digestOf, checkpoint, entries).verdict == Valid
    ensures Root(sha, Digests(entries)) == checkpoint.core.rootDigest
    ensures digestOf(checkpoint.core) == checkpoint.checkpointDigest
  {
  }

  /** The entries a checkpoint covers: same ledger epoch, sequence below its tree size. */
  function Covered(entries: seq<Entry>, checkpoint: Checkpoint): (covered: seq<Entry>)
    ensures forall e :: e in covered <==>
      e in entries && e.ledger == checkpoint.core.ledger && e.sequence < checkpoint.core.treeSize
  {
    if entries == [] then []
    else
      (if entries[0].ledger == checkpoint.core.ledger && entries[0].sequence < checkpoint.core.treeSize
       then [entries[0]] else []) + Covered(entries[1..], checkpoint)
  }

  /** Exactly the leaves 0 .. treeSize - 1, in order. */
  predicate IsCompletePrefix(entries: seq<Entry>, treeSize: nat) {
    |entries| == treeSize && forall i :: 0 <= i < |entries| ==> entries[i].sequence == i
  }

  /** `verifyInclusionBinding`: every covered entry needs a verified inclusion proof, and a
      covered head entry must be the one the checkpoint signed. */
  method VerifyInclusionBinding(checkpoint: Checkpoint, covered: seq<Entry>, verifiedInclusions: set<InclusionKey>)
    returns (dimension: Dimension)
    ensures dimension.verdict == Valid <==> BindingHolds(checkpoint, covered, verifiedInclusions)
    ensures dimension.verdict != Indeterminate
  {
    var reasons: set<Reason> := {};
    for n := 0 to |covered|
      invariant reasons == {} <==> BindingHolds(checkpoint, covered[..n], verifiedInclusions)
    {
      var entry := covered[n];
      assert covered[..n + 1] == covered[..n] + [entry];
      if (checkpoint.checkpointDigest, entry.entryDigest, entry.sequence) !in verifiedInclusions {
        reasons := reasons + {MerkleProofMissing};
      }
      if entry.sequence == checkpoint.core.treeSize - 1 && entry.entryDigest != checkpoint.core.headEntryDigest {
        reasons := reasons + {CheckpointRangeMismatch};
      }
    }
    assert covered[..|covered|] == covered;
    return Strict(reasons);
  }

  predicate BindingHolds(checkpoint: Checkpoint, covered: seq<Entry>, verifiedInclusions: set<InclusionKey>) {
    forall e :: e in covered ==>
      && (checkpoint.checkpointDigest, e.entryDigest, e.sequence) in verifiedInclusions
      && (e.sequence == checkpoint.core.treeSize - 1 ==> e.entryDigest == checkpoint.core.headEntryDigest)
  }

  datatype Bundle = Bundle(
    entries: seq<Entry>,
    checkpointCandidates: seq<Option<Checkpoint>>,
    inclusionCandidates: seq<Option<InclusionItem>>)

  function Present<T(!new)>(candidates: seq<Option<T>>): (present: seq<T>)
    ensures forall x :: x in present <==> Some(x) in candidates
  {
    if candidates == [] then []
    else (if candidates[0].Some? then [candidates[0].value] else []) + Present(candidates[1..])
  }

  /** One checkpoint bound to the entries it covers, by recomputing its root or by proofs. */
  predicate CheckpointBound(
    sha: Hasher, oracle: SignatureOracle, digestOf: CoreDigest, bundle: Bundle, checkpoint: Checkpoint,
    inclusions: set<InclusionKey>)
  {
    var covered := Covered(bundle.entries, checkpoint);
    if IsCompletePrefix(covered, checkpoint.core.treeSize)
    then VerifyCheckpoint(sha, oracle, digestOf, checkpoint, covered).verdict == Valid
    else VerifySignedCheckpoint(oracle, digestOf, checkpoint).verdict == Valid
         && BindingHolds(checkpoint, covered, inclusions)
  }

  function GoodKeys(sha: Hasher, bundle: Bundle): set<InclusionKey> {
    AcceptedKeys(sha, bundle.inclusionCandidates, bundle.entries, Present(bundle.checkpointCandidates))
  }

  predicate CandidateBound(
    sha: Hasher, oracle: SignatureOracle, digestOf: CoreDigest, bundle: Bundle, candidate: Option<Checkpoint>,
    inclusions: set<InclusionKey>)
  {
    candidate.Some? && CheckpointBound(sha, oracle, digestOf, bundle, candidate.value, inclusions)
  }

  /** Every checkpoint candidate is well formed and bound to the entries it covers. */
  ghost predicate AllBound(sha: Hasher, oracle: SignatureOracle, digestOf: CoreDigest, bundle: Bundle) {
    forall c {:trigger CandidateBound(sha, oracle, digestOf, bundle, c, GoodKeys(sha, bundle))} ::
      c in bundle.checkpointCandidates ==> CandidateBound(sha, oracle, digestOf, bundle, c, GoodKeys(sha, bundle))
  }

  predicate AllValid(dimensions: seq<Dimension>) {
    forall i :: 0 <= i < |dimensions| ==> dimensions[i].verdict == Valid
  }

  lemma {:induction false} AllValidSnoc(dimensions: seq<Dimension>, last: Dimension)
    ensures AllValid(dimensions + [last]) <==> AllValid(dimensions) && last.verdict == Valid
  {
    var all := dimensions + [last];
    assert all[|dimensions|] == last;
    assert forall i :: 0 <= i < |dimensions| ==> all[i] == dimensions[i];
  }

  lemma {:induction false} AllValidPair(dimensions: seq<Dimension>, a: Dimension, b: Dimension)
    ensures AllValid(dimensions + [a, b]) <==> AllValid(dimensions) && a.verdict == Valid && b.verdict == Valid
  {
    assert dimensions + [a, b] == dimensions + [a] + [b];
    AllValidSnoc(dimensions, a);
    AllValidSnoc(dimensions + [a], b);
  }

  lemma {:induction false} MergeValid(dimensions: seq<Dimension>)
    ensures Merge(dimensions).verdict == Valid <==> dimensions != [] && AllValid(dimensions)
  {
  }

  method VerifyCandidate(
    sha: Hasher, oracle: SignatureOracle, digestOf: CoreDigest, bundle: Bundle, candidate: Option<Checkpoint>,
    inclusions: set<InclusionKey>) returns (result: Dimension)
    ensures result.verdict == Valid <==> CandidateBound(sha, oracle, digestOf, bundle, candidate, inclusions)
  {
    if candidate.None? {
      return Dimension(Invalid, {SchemaInvalid});
    }
    var checkpoint := candidate.value;
    var covered := Covered(bundle.entries, checkpoint);
    if IsCompletePrefix(covered, checkpoint.core.treeSize) {
      return VerifyCheckpoint(sha, oracle, digestOf, checkpoint, covered);
    }
    var binding := VerifyInclusionBinding(checkpoint, covered, inclusions);
    var signed := VerifySignedCheckpoint(oracle, digestOf, checkpoint);
    MergeValid([signed, binding]);
    AllValidPair([], signed, binding);
    assert [] + [signed, binding] == [signed, binding];
    return Merge([signed, binding]);
  }

  /** The checkpoint loop of `verifyAuditBundle`. */
  method VerifyCandidates(
    sha: Hasher, oracle: SignatureOracle, digestOf: CoreDigest, bundle: Bundle, inclusions: set<InclusionKey>)
    returns (results: seq<Dimension>)
    ensures AllValid(results) <==>
      forall c :: c in bundle.checkpointCandidates ==> CandidateBound(sha, oracle, digestOf, bundle, c, inclusions)
  {
    results := [];
    for n := 0 to |bundle.checkpointCandidates|
      invariant AllValid(results) <==>
        forall c :: c in bundle.checkpointCandidates[..n] ==> CandidateBound(sha, oracle, digestOf, bundle, c, inclusions)
    {
      var candidate := bundle.checkpointCandidates[n];
      assert bundle.checkpointCandidates[..n + 1] == bundle.checkpointCandidates[..n] + [candidate];
      var result := VerifyCandidate(sha, oracle, digestOf, bundle, candidate, inclusions);
      AllValidSnoc(results, result);
      results := results + [result];
    }
    assert bundle.checkpointCandidates[..|bundle.checkpointCandidates|] == bundle.checkpointCandidates;
  }

  /** The bindings and the merge in the checkpoint part of `verifyAuditBundle`, given the verdict
      of the history check and the reasons of the consistency proofs. */
  method VerifyBundleCheckpoints(
    sha: Hasher, oracle: SignatureOracle, digestOf: CoreDigest, bundle: Bundle, history: Dimension, consistency: set<Reason>)
    returns (dimension: Dimension)
    requires bundle.checkpointCandidates != []
    ensures dimension.verdict == Valid <==>
      && AllBound(sha, oracle, digestOf, bundle)
      && (forall c :: c in bundle.inclusionCandidates ==>
            GoodInclusion(sha, c, bundle.entries, Present(bundle.checkpointCandidates)))
      && history.verdict == Valid && consistency == {}
  {
    var checkpoints := Present(bundle.checkpointCandidates);
    var reasons, inclusions := VerifyInclusionComponents(sha, bundle.inclusionCandidates, bundle.entries, checkpoints);
    assert inclusions == GoodKeys(sha, bundle);
    var results := VerifyCandidates(sha, oracle, digestOf, bundle, inclusions);
    AllValidPair(results, history, Strict(reasons + consistency));
    MergeValid(results + [history, Strict(reasons + consistency)]);
    return Merge(results + [history, Strict(reasons + consistency)]);
  }

  // ---- What a bound entry means ------------------------------------------------------

  /** Two climbs that meet at the top started from the same node with the same path. */
  lemma {:induction false} ClimbInjective(
    sha: Hasher, inputs: set<Bytes>, size: nat, i: nat,
    node: Digest, path: seq<DigestText>, node': Digest, path': seq<DigestText>)
    requires CollisionFree(sha, inputs) && i < size
    requires ClimbInputs(sha, size, i, node, path) <= inputs && ClimbInputs(sha, size, i, node', path') <= inputs
    requires Climb(sha, false, size, i, node, path).Some?
    requires Climb(sha, false, size, i, node, path) == Climb(sha, false, size, i, node', path')
    ensures node == node' && path == path'
    decreases size
  {
    if size > 1 {
      if i % 2 == 0 && i == size - 1 {
        ClimbInjective(sha, inputs, (size + 1) / 2, i / 2, node, path, node', path');
      } else {
        var (left, d, d') := (i % 2 == 0, path[0].digest, path'[0].digest);
        ClimbInjective(sha, inputs, (size + 1) / 2, i / 2, Paired(sha, false, left, node, d), path[1..],
                       Paired(sha, false, left, node', d'), path'[1..]);
        PairInjective(sha, inputs, left, node, d, node', d');
        assert path == [path[0]] + path[1..] && path' == [path'[0]] + path'[1..];
      }
    }
  }

  /** Everything hashed while verifying a bundle's roots and inclusion proofs. */
  ghost predicate HashedBy(sha: Hasher, bundle: Bundle, inputs: set<Bytes>) {
    && (forall c: Option<Checkpoint> :: c in bundle.checkpointCandidates && c.Some? ==>
          RootInputs(sha, Digests(Covered(bundle.entries, c.value))) <= inputs)
    && (forall c: Option<InclusionItem> :: c in bundle.inclusionCandidates && c.Some? && c.value.leafIndex < c.value.treeSize ==>
          InclusionInputs(sha, Sha256(c.value.entryDigest), c.value.leafIndex, c.value.treeSize, Texts(c.value.auditPath))
          <= inputs)
  }

  /** Equal checkpoint digests mean equal cores, for the checkpoints of this bundle. */
  ghost predicate CoresDistinct(digestOf: CoreDigest, bundle: Bundle) {
    forall a, b :: (a in Present(bundle.checkpointCandidates) && b in Present(bundle.checkpointCandidates)
                    && digestOf(a.core) == digestOf(b.core)) ==> a.core == b.core
  }

  predicate Covers(checkpoint: Checkpoint, entry: Entry) {
    entry.ledger == checkpoint.core.ledger && entry.sequence < checkpoint.core.treeSize
  }

  lemma {:induction false} BoundDigest(
    sha: Hasher, oracle: SignatureOracle, digestOf: CoreDigest, bundle: Bundle, checkpoint: Checkpoint)
    requires CheckpointBound(sha, oracle, digestOf, bundle, checkpoint, GoodKeys(sha, bundle))
    ensures digestOf(checkpoint.core) == checkpoint.checkpointDigest
  {
  }

  /** In the proof-bound case, an accepted item proves the entry into this very checkpoint. */
  lemma {:induction false} ProvenEntry(
    sha: Hasher, oracle: SignatureOracle, digestOf: CoreDigest, bundle: Bundle, checkpoint: Checkpoint, entry: Entry)
    returns (item: InclusionItem)
    requires AllBound(sha, oracle, digestOf, bundle) && CoresDistinct(digestOf, bundle)
    requires Some(checkpoint) in bundle.checkpointCandidates && entry in bundle.entries && Covers(checkpoint, entry)
    requires !IsCompletePrefix(Covered(bundle.entries, checkpoint), checkpoint.core.treeSize)
    ensures Some(item) in bundle.inclusionCandidates
    ensures item.leafIndex == entry.sequence && item.treeSize == checkpoint.core.treeSize
    ensures item.entryDigest == entry.entryDigest
    ensures InclusionAccepted(sha, Sha256(entry.entryDigest), entry.sequence, checkpoint.core.treeSize,
                              Sha256(checkpoint.core.rootDigest), Texts(item.auditPath))
  {
    assert CandidateBound(sha, oracle, digestOf, bundle, Some(checkpoint), GoodKeys(sha, bundle));
    assert entry in Covered(bundle.entries, checkpoint);
    var key := (checkpoint.checkpointDigest, entry.entryDigest, entry.sequence);
    assert key in GoodKeys(sha, bundle);
    var checkpoints := Present(bundle.checkpointCandidates);
    var c :| c in bundle.inclusionCandidates && GoodInclusion(sha, c, bundle.entries, checkpoints) && KeyOf(c.value) == key;
    item := c.value;
    var found := FindCheckpoint(checkpoints, item.checkpointDigest, item.ledger).value;
    assert CandidateBound(sha, oracle, digestOf, bundle, Some(found), GoodKeys(sha, bundle));
    BoundDigest(sha, oracle, digestOf, bundle, found);
    BoundDigest(sha, oracle, digestOf, bundle, checkpoint);
  }

  /** In the complete case, the root is the one recomputed from the covered entries. */
  lemma {:induction false} RecomputedRoot(
    sha: Hasher, oracle: SignatureOracle, digestOf: CoreDigest, bundle: Bundle, checkpoint: Checkpoint)
    requires AllBound(sha, oracle, digestOf, bundle) && Some(checkpoint) in bundle.checkpointCandidates
    requires IsCompletePrefix(Covered(bundle.entries, checkpoint), checkpoint.core.treeSize)
    ensures Root(sha, Digests(Covered(bundle.entries, checkpoint))) == checkpoint.core.rootDigest
  {
    assert CandidateBound(sha, oracle, digestOf, bundle, Some(checkpoint), GoodKeys(sha, bundle));
    ValidCheckpointRoot(sha, oracle, digestOf, checkpoint, Covered(bundle.entries, checkpoint));
  }

  lemma {:induction false} RecomputedLeaf(
    sha: Hasher, inputs: set<Bytes>, bundle: Bundle, checkpoint: Checkpoint, entry: Entry, leaves: seq<Digest>)
    requires CollisionFree(sha, inputs) && HashedBy(sha, bundle, inputs) && RootInputs(sha, leaves) <= inputs
    requires Some(checkpoint) in bundle.checkpointCandidates
    requires IsCompletePrefix(Covered(bundle.entries, checkpoint), |leaves|)
    requires Root(sha, Digests(Covered(bundle.entries, checkpoint))) == Root(sha, leaves)
    requires entry in Covered(bundle.entries, checkpoint)
    ensures entry.sequence < |leaves| && leaves[entry.sequence] == entry.entryDigest
  {
    RootInjective(sha, inputs, Digests(Covered(bundle.entries, checkpoint)), leaves);
  }

  lemma {:induction false} ProvenLeaf(
    sha: Hasher, inputs: set<Bytes>, bundle: Bundle, item: InclusionItem, leaves: seq<Digest>)
    requires CollisionFree(sha, inputs) && HashedBy(sha, bundle, inputs) && RootInputs(sha, leaves) <= inputs
    requires Some(item) in bundle.inclusionCandidates && item.treeSize == |leaves|
    requires InclusionAccepted(sha, Sha256(item.entryDigest), item.leafIndex, |leaves|,
                               Sha256(Root(sha, leaves)), Texts(item.auditPath))
    ensures item.leafIndex < |leaves| && leaves[item.leafIndex] == item.entryDigest
  {
    InclusionExact(sha, inputs, leaves, Sha256(item.entryDigest), item.leafIndex, Texts(item.auditPath));
  }

  /** When the checkpoint dimension is valid, a covered entry is the leaf at its own sequence in
      every leaf list of the checkpoint's size and root, whichever way it was bound. */
  lemma {:induction false} EntryIsItsLeaf(
    sha: Hasher, inputs: set<Bytes>, oracle: SignatureOracle, digestOf: CoreDigest, bundle: Bundle,
    checkpoint: Checkpoint, entry: Entry, leaves: seq<Digest>)
    requires AllBound(sha, oracle, digestOf, bundle) && CoresDistinct(digestOf, bundle)
    requires CollisionFree(sha, inputs) && HashedBy(sha, bundle, inputs) && RootInputs(sha, leaves) <= inputs
    requires Some(checkpoint) in bundle.checkpointCandidates && entry in bundle.entries && Covers(checkpoint, entry)
    requires |leaves| == checkpoint.core.treeSize && Root(sha, leaves) == checkpoint.core.rootDigest
    ensures leaves[entry.sequence] == entry.entryDigest
  {
    if IsCompletePrefix(Covered(bundle.entries, checkpoint), checkpoint.core.treeSize) {
      RecomputedRoot(sha, oracle, digestOf, bundle, checkpoint);
      RecomputedLeaf(sha, inputs, bundle, checkpoint, entry, leaves);
    } else {
      var item := ProvenEntry(sha, oracle, digestOf, bundle, checkpoint, entry);
      ProvenLeaf(sha, inputs, bundle, item, leaves);
    }
  }

  /** The last entry that a checkpoint covers, if it is included, is the one whose digest the checkpoint
      signed as its head. */
  lemma {:induction false} CoveredHeadIsSigned(
    sha: Hasher, oracle: SignatureOracle, digestOf: CoreDigest, bundle: Bundle, checkpoint: Checkpoint, entry: Entry)
    requires AllBound(sha, oracle, digestOf, bundle) && Some(checkpoint) in bundle.checkpointCandidates
    requires entry in bundle.entries && entry.ledger == checkpoint.core.ledger
    requires entry.sequence + 1 == checkpoint.core.treeSize
    ensures entry.entryDigest == checkpoint.core.headEntryDigest
  {
    assert CandidateBound(sha, oracle, digestOf, bundle, Some(checkpoint), GoodKeys(sha, bundle));
    assert entry in Covered(bundle.entries, checkpoint);
  }

  /** Two entries that one checkpoint covers at the same sequence are the same entry. */
  lemma {:induction false} CoveredSequencesDistinct(
    sha: Hasher, inputs: set<Bytes>, oracle: SignatureOracle, digestOf: CoreDigest, bundle: Bundle,
    checkpoint: Checkpoint, a: Entry, b: Entry)
    requires AllBound(sha, oracle, digestOf, bundle) && CoresDistinct(digestOf, bundle)
    requires CollisionFree(sha, inputs) && HashedBy(sha, bundle, inputs)
    requires Some(checkpoint) in bundle.checkpointCandidates
    requires a in bundle.entries && b in bundle.entries && Covers(checkpoint, a) && Covers(checkpoint, b)
    requires a.sequence == b.sequence
    ensures a == b
  {
    var covered := Covered(bundle.entries, checkpoint);
    if IsCompletePrefix(covered, checkpoint.core.treeSize) {
      assert a in covered && b in covered;
    } else {
      var x := ProvenEntry(sha, oracle, digestOf, bundle, checkpoint, a);
      var y := ProvenEntry(sha, oracle, digestOf, bundle, checkpoint, b);
      ClimbInjective(sha, inputs, checkpoint.core.treeSize, a.sequence,
                     LeafHash(sha, a.entryDigest), Texts(x.auditPath), LeafHash(sha, b.entryDigest), Texts(y.auditPath));
      LeafHashInjective(sha, inputs, a.entryDigest, b.entryDigest);
    }
  }

  /** An accepted consistency item makes the older checkpoint's root the root of a prefix of
      whatever leaves the newer checkpoint's root stands for. */
  lemma {:induction false} ConsistentItemIsPrefix(
    sha: Hasher, inputs: set<Bytes>, item: ConsistencyItem, checkpoints: seq<Checkpoint>, leaves: seq<Digest>)
    requires ConsistencyItemAccepted(sha, item, checkpoints)
    requires var newer := FindCheckpoint(checkpoints, item.newCheckpointDigest, item.ledger).value;
      |leaves| == newer.core.treeSize && Root(sha, leaves) == newer.core.rootDigest
    requires CollisionFree(sha, inputs) && RootInputs(sha, leaves) <= inputs
    requires var older := FindCheckpoint(checkpoints, item.oldCheckpointDigest, item.ledger).value;
      1 <= item.oldTreeSize <= |leaves| ==>
        ConsistencyInputs(sha, item.oldTreeSize, |leaves|, Sha256(older.core.rootDigest), Texts(item.auditPath)) <= inputs
    ensures var older := FindCheckpoint(checkpoints, item.oldCheckpointDigest, item.ledger).value;
      1 <= older.core.treeSize <= |leaves| && older.core.rootDigest == Root(sha, leaves[..older.core.treeSize])
  {
    var older := FindCheckpoint(checkpoints, item.oldCheckpointDigest, item.ledger).value;
    ConsistencyExact(sha, inputs, leaves, item.oldTreeSize, Sha256(older.core.rootDigest), Texts(item.auditPath));
  }
}
