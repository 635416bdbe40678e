/** Bundles that an honest exporter makes are accepted: the other half of src/audit/replay-bundle.ts. */
module HonestBundle {
  import opened Wrappers
  import opened Hashing
  import opened MerkleTree
  import opened MerkleVerify
  import opened MerkleConsistency
  import opened ReplayBundle
  import opened BundleHistory

  // ---- What the checks decide --------------------------------------------------------

  /** Nothing wrong is valid; reasons that only leave something open are undecided; all others are
      invalid. */
  lemma {:induction false} VerdictsAre(reasons: set<Reason>)
    ensures VerdictOf(reasons) == Valid <==> forall r :: r !in reasons
    ensures VerdictOf(reasons) == Invalid <==> exists r :: r in reasons && r != NotEvaluated && r != KeyBoundaryUnresolved
  {
    if forall r :: r !in reasons {
      assert reasons == {};
    }
  }

  /** One invalid dimension makes a merge invalid, only valid ones make it valid, and no reason is lost. */
  lemma {:induction false} MergesExactly(dimensions: seq<Dimension>)
    requires dimensions != []
    ensures Merge(dimensions).verdict == Invalid <==> exists d :: d in dimensions && d.verdict == Invalid
    ensures Merge(dimensions).verdict == Valid <==> forall d :: d in dimensions ==> d.verdict == Valid
    ensures forall r :: r in Merge(dimensions).reasons <==> exists d :: d in dimensions && r in d.reasons
  {
    forall r
      ensures r in Merge(dimensions).reasons <==> exists d :: d in dimensions && r in d.reasons
    {
      if i :| 0 <= i < |dimensions| && r in dimensions[i].reasons {
        assert dimensions[i] in dimensions;
      }
    }
  }

  lemma {:induction false} NoSignedReasons(oracle: SignatureOracle, digestOf: CoreDigest, checkpoint: Checkpoint)
    ensures SignedReasons(oracle, digestOf, checkpoint) == {} <==>
      oracle(checkpoint) == {} && digestOf(checkpoint.core) == checkpoint.checkpointDigest
  {
    if digestOf(checkpoint.core) != checkpoint.checkpointDigest {
      assert CheckpointDigestMismatch in SignedReasons(oracle, digestOf, checkpoint);
    }
  }

  /** Nothing is wrong with a checkpoint's range and root exactly when they are those of the entries. */
  lemma {:induction false} PrefixExactly(sha: Hasher, core: CheckpointCore, entries: seq<Entry>)
    ensures PrefixReasons(sha, core, entries) == {} <==>
      && var n := |entries|;
      && 1 <= n == core.treeSize <= 9007199254740991
      && core.firstSequence == entries[0].sequence && core.lastSequence == entries[n - 1].sequence
      && core.headEntryDigest == entries[n - 1].entryDigest
      && (forall e :: e in entries ==> e.ledger == core.ledger)
      && core.rootDigest == Root(sha, Digests(entries))
  {
    var reasons := PrefixReasons(sha, core, entries);
    if reasons == {} {
      assert CheckpointRangeMismatch !in reasons && CheckpointRootMismatch !in reasons;
    }
  }

  /** A checkpoint over its complete leaves is valid exactly when nothing is wrong with them, its
      signature and its digest. */
  lemma {:induction false} VerifiesExactly(
    sha: Hasher, oracle: SignatureOracle, digestOf: CoreDigest, checkpoint: Checkpoint, entries: seq<Entry>)
    ensures VerifyCheckpoint(sha, oracle, digestOf, checkpoint, entries).verdict == Valid <==>
      && oracle(checkpoint) == {} && digestOf(checkpoint.core) == checkpoint.checkpointDigest
      && PrefixReasons(sha, checkpoint.core, entries) == {}
  {
    NoSignedReasons(oracle, digestOf, checkpoint);
    var (signed, prefix) := (SignedReasons(oracle, digestOf, checkpoint), PrefixReasons(sha, checkpoint.core, entries));
    assert signed + prefix == {} <==> signed == {} && prefix == {};
  }

  /** And one over leaves that are not all at hand exactly when its stated range begins at 0 and ends
      with its size. */
  lemma {:induction false} SignedExactly(oracle: SignatureOracle, digestOf: CoreDigest, checkpoint: Checkpoint)
    ensures VerifySignedCheckpoint(oracle, digestOf, checkpoint).verdict == Valid <==>
      && oracle(checkpoint) == {} && digestOf(checkpoint.core) == checkpoint.checkpointDigest
      && checkpoint.core.firstSequence == 0 && checkpoint.core.lastSequence + 1 == checkpoint.core.treeSize
  {
  }

  lemma {:induction false} FindsAny(checkpoints: seq<Checkpoint>, c: Checkpoint)
    requires c in checkpoints
    ensures FindCheckpoint(checkpoints, c.checkpointDigest, c.core.ledger).Some?
  {
    if checkpoints[0] != c {
      FindsAny(checkpoints[1..], c);
    }
  }

  /** A proof only counts for an entry and a checkpoint that the bundle includes. */
  lemma {:induction false} ItemsAreIncluded(
    sha: Hasher, item: InclusionItem, entries: seq<Entry>, checkpoints: seq<Checkpoint>)
    requires GoodInclusion(sha, Some(item), entries, checkpoints)
    ensures exists c :: c in checkpoints && c.checkpointDigest == item.checkpointDigest && c.core.ledger == item.ledger
                        && c.core.treeSize == item.treeSize
    ensures exists e :: e in entries && e.ledger == item.ledger && e.sequence == item.sequence == item.leafIndex
                        && e.entryDigest == item.entryDigest
  {
  }

  lemma {:induction false} ConsistencyItemsAreIncluded(sha: Hasher, item: ConsistencyItem, checkpoints: seq<Checkpoint>)
    requires GoodConsistency(sha, Some(item), checkpoints)
    ensures exists c :: c in checkpoints && c.checkpointDigest == item.oldCheckpointDigest && c.core.ledger == item.ledger
                        && c.core.treeSize == item.oldTreeSize
    ensures exists c :: c in checkpoints && c.checkpointDigest == item.newCheckpointDigest && c.core.ledger == item.ledger
                        && c.core.treeSize == item.newTreeSize
  {
  }

  // ---- Honest parts ------------------------------------------------------------------

  /** What the checkpoint builder signs over the first leaves of a ledger. */
  ghost predicate Signs(
    sha: Hasher, oracle: SignatureOracle, digestOf: CoreDigest, c: Checkpoint, ledger: LedgerRef, leaves: seq<Digest>)
  {
    var n := c.core.treeSize;
    && 1 <= n <= |leaves| <= MAX_SAFE_INTEGER
    && c.core.ledger == ledger && c.core.firstSequence == 0 && c.core.lastSequence == n - 1
    && c.core.rootDigest == Root(sha, leaves[..n]) && c.core.headEntryDigest == leaves[n - 1]
    && c.checkpointDigest == digestOf(c.core) && oracle(c) == {}
  }

  /** An entry that is the leaf at its sequence. */
  predicate IsLeaf(e: Entry, ledger: LedgerRef, leaves: seq<Digest>) {
    e.ledger == ledger && e.sequence < |leaves| && e.entryDigest == leaves[e.sequence]
  }

  /** The inclusion proof that is generated for an entry under a checkpoint. */
  function ProofFor(sha: Hasher, c: Checkpoint, e: Entry, leaves: seq<Digest>): InclusionItem
    requires e.sequence < c.core.treeSize <= |leaves|
  {
    InclusionItem(c.core.ledger, c.checkpointDigest, e.entryDigest, e.sequence, e.sequence, c.core.treeSize,
                  BuildInclusionProof(sha, leaves[..c.core.treeSize], e.sequence))
  }

  /** The consistency proof that is generated between two checkpoints. */
  function ConsistencyFor(sha: Hasher, a: Checkpoint, b: Checkpoint, leaves: seq<Digest>): ConsistencyItem
    requires 1 <= a.core.treeSize <= b.core.treeSize <= |leaves|
  {
    ConsistencyItem(b.core.ledger, a.checkpointDigest, b.checkpointDigest, a.core.treeSize, b.core.treeSize,
                    if a.core.treeSize == b.core.treeSize then []
                    else BuildConsistencyProof(sha, a.core.treeSize, leaves[..b.core.treeSize], true))
  }

  /** No two of these checkpoints differ under one digest. */
  ghost predicate DigestsApart(checkpoints: seq<Checkpoint>) {
    forall a, b :: a in checkpoints && b in checkpoints && a.checkpointDigest == b.checkpointDigest ==> a.core == b.core
  }

  lemma {:induction false} FindsTheCore(checkpoints: seq<Checkpoint>, c: Checkpoint)
    requires c in checkpoints && DigestsApart(checkpoints)
    ensures var found := FindCheckpoint(checkpoints, c.checkpointDigest, c.core.ledger);
      found.Some? && found.value.core == c.core
  {
    FindsAny(checkpoints, c);
  }

  /** A generated inclusion proof counts. */
  lemma {:induction false} GeneratedInclusionIsGood(
    sha: Hasher, oracle: SignatureOracle, digestOf: CoreDigest, entries: seq<Entry>, checkpoints: seq<Checkpoint>,
    ledger: LedgerRef, leaves: seq<Digest>, c: Checkpoint, e: Entry)
    requires c in checkpoints && DigestsApart(checkpoints) && Signs(sha, oracle, digestOf, c, ledger, leaves)
    requires e in entries && IsLeaf(e, ledger, leaves) && e.sequence < c.core.treeSize
    ensures GoodInclusion(sha, Some(ProofFor(sha, c, e, leaves)), entries, checkpoints)
  {
    FindsTheCore(checkpoints, c);
    InclusionComplete(sha, leaves[..c.core.treeSize], e.sequence);
    assert e == Entry(ledger, e.sequence, e.entryDigest);
  }

  /** So does a generated consistency proof. */
  lemma {:induction false} GeneratedConsistencyIsGood(
    sha: Hasher, oracle: SignatureOracle, digestOf: CoreDigest, checkpoints: seq<Checkpoint>,
    ledger: LedgerRef, leaves: seq<Digest>, a: Checkpoint, b: Checkpoint)
    requires a in checkpoints && b in checkpoints && DigestsApart(checkpoints)
    requires Signs(sha, oracle, digestOf, a, ledger, leaves) && Signs(sha, oracle, digestOf, b, ledger, leaves)
    requires a.core.treeSize <= b.core.treeSize
    ensures GoodConsistency(sha, Some(ConsistencyFor(sha, a, b, leaves)), checkpoints)
  {
    FindsTheCore(checkpoints, a);
    FindsTheCore(checkpoints, b);
    var newer := leaves[..b.core.treeSize];
    assert newer[..a.core.treeSize] == leaves[..a.core.treeSize];
    ConsistencyComplete(sha, newer, a.core.treeSize);
  }

  lemma {:induction false} CompleteAreLeaves(
    entries: seq<Entry>, c: Checkpoint, ledger: LedgerRef, leaves: seq<Digest>, covered: seq<Entry>)
    requires covered == Covered(entries, c) && c.core.treeSize <= |leaves|
    requires forall e :: e in entries ==> IsLeaf(e, ledger, leaves)
    requires IsCompletePrefix(covered, c.core.treeSize)
    ensures Digests(covered) == leaves[..c.core.treeSize]
    ensures forall e :: e in covered ==> e.ledger == ledger
  {
    forall i | 0 <= i < |covered|
      ensures covered[i].entryDigest == leaves[i]
    {
      assert covered[i] in covered;
    }
  }

  lemma {:induction false} LeavesHaveNoReasons(
    sha: Hasher, oracle: SignatureOracle, digestOf: CoreDigest, c: Checkpoint, ledger: LedgerRef, leaves: seq<Digest>,
    covered: seq<Entry>)
    requires Signs(sha, oracle, digestOf, c, ledger, leaves) && IsCompletePrefix(covered, c.core.treeSize)
    requires Digests(covered) == leaves[..c.core.treeSize] && forall e :: e in covered ==> e.ledger == ledger
    ensures VerifyCheckpoint(sha, oracle, digestOf, c, covered).verdict == Valid
  {
    var n := c.core.treeSize;
    assert Digests(covered)[n - 1] == covered[n - 1].entryDigest;
    PrefixExactly(sha, c.core, covered);
    VerifiesExactly(sha, oracle, digestOf, c, covered);
  }

  /** A checkpoint is bound when all of its leaves are there, without any proof. */
  lemma {:induction false} CompleteIsBound(
    sha: Hasher, oracle: SignatureOracle, digestOf: CoreDigest, bundle: Bundle, c: Checkpoint,
    ledger: LedgerRef, leaves: seq<Digest>, keys: set<InclusionKey>)
    requires Signs(sha, oracle, digestOf, c, ledger, leaves)
    requires forall e :: e in bundle.entries ==> IsLeaf(e, ledger, leaves)
    requires IsCompletePrefix(Covered(bundle.entries, c), c.core.treeSize)
    ensures CheckpointBound(sha, oracle, digestOf, bundle, c, keys)
  {
    CompleteAreLeaves(bundle.entries, c, ledger, leaves, Covered(bundle.entries, c));
    LeavesHaveNoReasons(sha, oracle, digestOf, c, ledger, leaves, Covered(bundle.entries, c));
  }

  /** And when each entry it covers comes with its generated proof. */
  lemma {:induction false} ProvenIsBound(
    sha: Hasher, oracle: SignatureOracle, digestOf: CoreDigest, bundle: Bundle, c: Checkpoint,
    ledger: LedgerRef, leaves: seq<Digest>)
    requires Some(c) in bundle.checkpointCandidates && DigestsApart(Present(bundle.checkpointCandidates))
    requires Signs(sha, oracle, digestOf, c, ledger, leaves)
    requires forall e :: e in bundle.entries ==> IsLeaf(e, ledger, leaves)
    requires forall e :: e in Covered(bundle.entries, c) ==>
      Some(ProofFor(sha, c, e, leaves)) in bundle.inclusionCandidates
    ensures CheckpointBound(sha, oracle, digestOf, bundle, c, GoodKeys(sha, bundle))
  {
    if IsCompletePrefix(Covered(bundle.entries, c), c.core.treeSize) {
      CompleteIsBound(sha, oracle, digestOf, bundle, c, ledger, leaves, GoodKeys(sha, bundle));
    } else {
      SignedExactly(oracle, digestOf, c);
      var checkpoints := Present(bundle.checkpointCandidates);
      forall e | e in Covered(bundle.entries, c)
        ensures (c.checkpointDigest, e.entryDigest, e.sequence) in GoodKeys(sha, bundle)
      {
        var item := Some(ProofFor(sha, c, e, leaves));
        GeneratedInclusionIsGood(sha, oracle, digestOf, bundle.entries, checkpoints, ledger, leaves, c, e);
        assert KeyOf(item.value) == (c.checkpointDigest, e.entryDigest, e.sequence);
        assert item in bundle.inclusionCandidates && GoodInclusion(sha, item, bundle.entries, checkpoints);
      }
    }
  }

  lemma {:induction false} CoveredParts(a: seq<Entry>, b: seq<Entry>, c: Checkpoint)
    ensures Covered(a + b, c) == Covered(a, c) + Covered(b, c)
  {
    if a == [] {
      assert [] + b == b;
    } else {
      assert (a + b)[1..] == a[1..] + b;
      CoveredParts(a[1..], b, c);
    }
  }

  lemma {:induction false} CoveredAll(entries: seq<Entry>, c: Checkpoint)
    requires forall i :: 0 <= i < |entries| ==> Covers(c, entries[i])
    ensures Covered(entries, c) == entries
  {
    if entries != [] {
      assert entries == [entries[0]] + entries[1..];
      CoveredAll(entries[1..], c);
    }
  }

  lemma {:induction false} CoveredNone(entries: seq<Entry>, c: Checkpoint)
    requires forall i :: 0 <= i < |entries| ==> !Covers(c, entries[i])
    ensures Covered(entries, c) == []
  {
    if entries != [] {
      CoveredNone(entries[1..], c);
    }
  }

  /** A bundle with the whole ledger in order covers each checkpoint completely. */
  lemma {:induction false} WholeLedgerIsCovered(entries: seq<Entry>, c: Checkpoint)
    requires c.core.treeSize <= |entries|
    requires forall i :: 0 <= i < |entries| ==> entries[i].sequence == i && entries[i].ledger == c.core.ledger
    ensures Covered(entries, c) == entries[..c.core.treeSize]
    ensures IsCompletePrefix(Covered(entries, c), c.core.treeSize)
  {
    var (front, rest) := (entries[..c.core.treeSize], entries[c.core.treeSize..]);
    assert entries == front + rest;
    CoveredParts(front, rest, c);
    CoveredAll(front, c);
    CoveredNone(rest, c);
  }

  // ---- The whole bundle --------------------------------------------------------------

  /** Each checkpoint's leaves are all there, or each entry it covers has its proof. */
  ghost predicate Supported(sha: Hasher, bundle: Bundle, c: Checkpoint, leaves: seq<Digest>)
    requires c.core.treeSize <= |leaves|
  {
    || IsCompletePrefix(Covered(bundle.entries, c), c.core.treeSize)
    || forall e :: e in Covered(bundle.entries, c) ==> Some(ProofFor(sha, c, e, leaves)) in bundle.inclusionCandidates
  }

  /** A candidate that was generated for an entry and a checkpoint of the bundle. */
  ghost predicate GeneratedInclusion(
    sha: Hasher, bundle: Bundle, leaves: seq<Digest>, candidate: Option<InclusionItem>, c: Checkpoint, e: Entry)
  {
    && c in Present(bundle.checkpointCandidates) && e in bundle.entries
    && e.sequence < c.core.treeSize <= |leaves| && candidate == Some(ProofFor(sha, c, e, leaves))
  }

  ghost predicate GeneratedConsistency(
    sha: Hasher, checkpoints: seq<Checkpoint>, leaves: seq<Digest>, candidate: Option<ConsistencyItem>,
    a: Checkpoint, b: Checkpoint)
  {
    && a in checkpoints && b in checkpoints && 1 <= a.core.treeSize <= b.core.treeSize <= |leaves|
    && candidate == Some(ConsistencyFor(sha, a, b, leaves))
  }

  /** What an honest exporter puts into a bundle about one ledger epoch: signed checkpoints over its
      leaves, entries that are leaves, and generated proofs, enough of them for every checkpoint. */
  ghost predicate Honest(
    sha: Hasher, oracle: SignatureOracle, digestOf: CoreDigest, bundle: Bundle,
    consistencyCandidates: seq<Option<ConsistencyItem>>, ledger: LedgerRef, leaves: seq<Digest>)
  {
    var checkpoints := Present(bundle.checkpointCandidates);
    && None !in bundle.checkpointCandidates && DigestsApart(checkpoints)
    && (forall c :: c in checkpoints ==> Signs(sha, oracle, digestOf, c, ledger, leaves))
    && (forall c :: c in checkpoints ==> Supported(sha, bundle, c, leaves))
    && (forall e :: e in bundle.entries ==> IsLeaf(e, ledger, leaves))
    && (forall i :: i in bundle.inclusionCandidates ==> exists c, e :: GeneratedInclusion(sha, bundle, leaves, i, c, e))
    && (forall i :: i in consistencyCandidates ==>
          exists a, b :: GeneratedConsistency(sha, checkpoints, leaves, i, a, b))
  }

  lemma {:induction false} HonestCheckpointsAreBound(
    sha: Hasher, oracle: SignatureOracle, digestOf: CoreDigest, bundle: Bundle,
    consistencyCandidates: seq<Option<ConsistencyItem>>, ledger: LedgerRef, leaves: seq<Digest>)
    requires Honest(sha, oracle, digestOf, bundle, consistencyCandidates, ledger, leaves)
    ensures AllBound(sha, oracle, digestOf, bundle)
  {
    forall c | c in bundle.checkpointCandidates
      ensures CandidateBound(sha, oracle, digestOf, bundle, c, GoodKeys(sha, bundle))
    {
      var checkpoint := c.value;
      assert checkpoint in Present(bundle.checkpointCandidates);
      if IsCompletePrefix(Covered(bundle.entries, checkpoint), checkpoint.core.treeSize) {
        CompleteIsBound(sha, oracle, digestOf, bundle, checkpoint, ledger, leaves, GoodKeys(sha, bundle));
      } else {
        ProvenIsBound(sha, oracle, digestOf, bundle, checkpoint, ledger, leaves);
      }
    }
  }

  lemma {:induction false} HonestProofsAreGood(
    sha: Hasher, oracle: SignatureOracle, digestOf: CoreDigest, bundle: Bundle,
    consistencyCandidates: seq<Option<ConsistencyItem>>, ledger: LedgerRef, leaves: seq<Digest>)
    requires Honest(sha, oracle, digestOf, bundle, consistencyCandidates, ledger, leaves)
    ensures var checkpoints := Present(bundle.checkpointCandidates);
      && (forall i :: i in bundle.inclusionCandidates ==> GoodInclusion(sha, i, bundle.entries, checkpoints))
      && (forall i :: i in consistencyCandidates ==> GoodConsistency(sha, i, checkpoints))
  {
    var checkpoints := Present(bundle.checkpointCandidates);
    forall i | i in bundle.inclusionCandidates
      ensures GoodInclusion(sha, i, bundle.entries, checkpoints)
    {
      var c, e :| GeneratedInclusion(sha, bundle, leaves, i, c, e);
      GeneratedInclusionIsGood(sha, oracle, digestOf, bundle.entries, checkpoints, ledger, leaves, c, e);
    }
    forall i | i in consistencyCandidates
      ensures GoodConsistency(sha, i, checkpoints)
    {
      var a, b :| GeneratedConsistency(sha, checkpoints, leaves, i, a, b);
      GeneratedConsistencyIsGood(sha, oracle, digestOf, checkpoints, ledger, leaves, a, b);
    }
  }

  /** Two neighbours of an export: the newer names the older, or one that was left out between them,
      and then their generated consistency proof is there. */
  ghost predicate Neighbours(
    sha: Hasher, checkpoints: seq<Checkpoint>, consistencyCandidates: seq<Option<ConsistencyItem>>,
    leaves: seq<Digest>, older: Checkpoint, newer: Checkpoint)
  {
    var claimed := newer.core.previousCheckpointDigest;
    && 1 <= older.core.treeSize < newer.core.treeSize <= |leaves|
    && (claimed == Some(older.checkpointDigest)
        || (&& claimed.Some? && (forall c :: c in checkpoints ==> c.checkpointDigest != claimed.value)
            && older.core.treeSize + 1 < newer.core.treeSize
            && Some(ConsistencyFor(sha, older, newer, leaves)) in consistencyCandidates))
  }

  lemma {:induction false} NeighboursAreLinked(
    sha: Hasher, oracle: SignatureOracle, digestOf: CoreDigest, bundle: Bundle,
    consistencyCandidates: seq<Option<ConsistencyItem>>, ledger: LedgerRef, leaves: seq<Digest>,
    sorted: seq<Checkpoint>, older: Checkpoint, newer: Checkpoint)
    requires Honest(sha, oracle, digestOf, bundle, consistencyCandidates, ledger, leaves)
    requires var checkpoints := Present(bundle.checkpointCandidates);
      && (forall c :: c in sorted ==> c in checkpoints) && older in checkpoints && newer in checkpoints
      && Neighbours(sha, checkpoints, consistencyCandidates, leaves, older, newer)
    ensures Linked(sorted, older, newer,
                   ConsistencyKeys(sha, consistencyCandidates, Present(bundle.checkpointCandidates)))
  {
    var checkpoints := Present(bundle.checkpointCandidates);
    if newer.core.previousCheckpointDigest != Some(older.checkpointDigest) {
      var item := Some(ConsistencyFor(sha, older, newer, leaves));
      GeneratedConsistencyIsGood(sha, oracle, digestOf, checkpoints, ledger, leaves, older, newer);
      assert item in consistencyCandidates && GoodConsistency(sha, item, checkpoints);
      assert KeyOfConsistency(item.value) == (older.checkpointDigest, newer.checkpointDigest);
    }
  }

  ghost predicate NeighboursMeet(
    sha: Hasher, bundle: Bundle, consistencyCandidates: seq<Option<ConsistencyItem>>, ledger: LedgerRef,
    leaves: seq<Digest>)
  {
    var checkpoints := Present(bundle.checkpointCandidates);
    var sorted := SortBySize(Group(checkpoints, ledger));
    forall i :: 1 <= i < |sorted| ==>
      Neighbours(sha, checkpoints, consistencyCandidates, leaves, sorted[i - 1], sorted[i])
  }

  lemma {:induction false} HonestHistoryIsLinked(
    sha: Hasher, oracle: SignatureOracle, digestOf: CoreDigest, bundle: Bundle,
    consistencyCandidates: seq<Option<ConsistencyItem>>, ledger: LedgerRef, leaves: seq<Digest>)
    requires Honest(sha, oracle, digestOf, bundle, consistencyCandidates, ledger, leaves)
    requires NeighboursMeet(sha, bundle, consistencyCandidates, ledger, leaves)
    ensures var checkpoints := Present(bundle.checkpointCandidates);
      LedgerLinked(checkpoints, ledger, ConsistencyKeys(sha, consistencyCandidates, checkpoints))
  {
    var checkpoints := Present(bundle.checkpointCandidates);
    var (group, keys) := (Group(checkpoints, ledger), ConsistencyKeys(sha, consistencyCandidates, checkpoints));
    var sorted := SortBySize(group);
    SortAscends(group);
    forall i | 1 <= i < |sorted|
      ensures Linked(sorted, sorted[i - 1], sorted[i], keys)
    {
      assert sorted[i - 1] in sorted && sorted[i] in sorted;
      NeighboursAreLinked(sha, oracle, digestOf, bundle, consistencyCandidates, ledger, leaves, sorted,
                          sorted[i - 1], sorted[i]);
    }
  }

  lemma {:induction false} HonestLedger(
    sha: Hasher, oracle: SignatureOracle, digestOf: CoreDigest, bundle: Bundle,
    consistencyCandidates: seq<Option<ConsistencyItem>>, ledger: LedgerRef, leaves: seq<Digest>)
    requires Honest(sha, oracle, digestOf, bundle, consistencyCandidates, ledger, leaves)
    ensures forall c :: c in Present(bundle.checkpointCandidates) ==> c.core.ledger == ledger
  {
  }

  /** An honest export is accepted, whatever checkpoints, entries and proofs it leaves out, as long as
      neighbouring checkpoints are linked or bridged. */
  lemma {:induction false} HonestBundleIsAccepted(
    sha: Hasher, oracle: SignatureOracle, digestOf: CoreDigest, bundle: Bundle,
    consistencyCandidates: seq<Option<ConsistencyItem>>, ledger: LedgerRef, leaves: seq<Digest>)
    requires Honest(sha, oracle, digestOf, bundle, consistencyCandidates, ledger, leaves)
    requires NeighboursMeet(sha, bundle, consistencyCandidates, ledger, leaves)
    ensures var checkpoints := Present(bundle.checkpointCandidates);
      && AllBound(sha, oracle, digestOf, bundle)
      && (forall i :: i in bundle.inclusionCandidates ==> GoodInclusion(sha, i, bundle.entries, checkpoints))
      && (forall i :: i in consistencyCandidates ==> GoodConsistency(sha, i, checkpoints))
      && HistoryLinked(checkpoints, ConsistencyKeys(sha, consistencyCandidates, checkpoints))
  {
    HonestCheckpointsAreBound(sha, oracle, digestOf, bundle, consistencyCandidates, ledger, leaves);
    HonestProofsAreGood(sha, oracle, digestOf, bundle, consistencyCandidates, ledger, leaves);
    HonestHistoryIsLinked(sha, oracle, digestOf, bundle, consistencyCandidates, ledger, leaves);
    HonestLedger(sha, oracle, digestOf, bundle, consistencyCandidates, ledger, leaves);
  }

  // ---- Epoch transitions -------------------------------------------------------------

  /** A start that names an epoch nobody selected demands nothing, and otherwise the named checkpoint
      has to be included, as the largest of its epoch. */
  lemma {:induction false} TransitionsExactly(
    checkpoints: seq<Checkpoint>, selections: seq<Selection>, entry: Entry, previous: string, terminal: Digest)
    requires DigestsApart(checkpoints)
    ensures var predecessor := LedgerRef(entry.ledger.ledgerId, previous);
      TransitionMet(checkpoints, selections, entry, Some(EpochStart(previous, terminal))) <==>
        || entry.sequence > 0 || (forall s :: s in selections ==> s.ledger != predecessor)
        || exists t :: Terminal(checkpoints, predecessor, terminal, t)
    ensures TransitionMet(checkpoints, selections, entry, None)
  {
    var predecessor := LedgerRef(entry.ledger.ledgerId, previous);
    var found := FindCheckpoint(checkpoints, terminal, predecessor);
    if t :| Terminal(checkpoints, predecessor, terminal, t) {
      FindsTheCore(checkpoints, t);
    }
    if found.Some? && (forall c :: c in checkpoints && c.core.ledger == predecessor ==>
                         c.core.treeSize <= found.value.core.treeSize) {
      assert Terminal(checkpoints, predecessor, terminal, found.value);
    }
  }

  /** The included checkpoint of that digest and epoch, with no larger one in its epoch. */
  ghost predicate Terminal(checkpoints: seq<Checkpoint>, ledger: LedgerRef, digest: Digest, t: Checkpoint) {
    && t in checkpoints && t.checkpointDigest == digest && t.core.ledger == ledger
    && forall c :: c in checkpoints && c.core.ledger == ledger ==> c.core.treeSize <= t.core.treeSize
  }
}
