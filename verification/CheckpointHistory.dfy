/** What a run of checkpoints commits to: trees that grow only at the end. */
module CheckpointHistory {
  import opened Wrappers
  import opened Hashing
  import opened MerkleTree

  datatype Entry = Entry(sequence: nat, entryDigest: Digest)

  datatype Head = Head(sequence: nat, entryDigest: Digest)

  datatype CheckpointCore = CheckpointCore(
    treeSize: nat, firstSequence: nat, lastSequence: nat, rootDigest: Digest, headEntryDigest: Digest,
    previousCheckpointDigest: Option<Digest>, createdAt: int)

  datatype SignedCheckpoint = SignedCheckpoint(core: CheckpointCore, checkpointDigest: Digest)

  datatype PutResult =
    | Inserted(checkpoint: SignedCheckpoint)
    | Existing(checkpoint: SignedCheckpoint)
    | Conflict(checkpoint: SignedCheckpoint)

  datatype AuditError = CheckpointInvalid | CheckpointRollback | CheckpointConflict | JournalFailure | ProofRange

  datatype Result<+T> = Ok(value: T) | Err(error: AuditError)

  function Leaves(entries: seq<Entry>): (leaves: seq<Digest>)
    ensures |leaves| == |entries|
    ensures forall i :: 0 <= i < |leaves| ==> leaves[i] == entries[i].entryDigest
  {
    Mapped(entries, (entry: Entry) => entry.entryDigest)
  }

  /** Entries numbered 0, 1, 2, ... in order. */
  predicate Contiguous(entries: seq<Entry>) {
    forall i :: 0 <= i < |entries| ==> entries[i].sequence == i
  }

  /** A stored checkpoint with the leaf list it was computed from. */
  datatype Tree = Tree(checkpoint: SignedCheckpoint, leaves: seq<Digest>)

  type CoreDigest = CheckpointCore -> Digest

  /** The checkpoint that `signCheckpoint` builds over these leaves. */
  ghost predicate Certifies(sha: Hasher, digestOf: CoreDigest, tree: Tree) {
    var core := tree.checkpoint.core;
    && tree.leaves != []
    && core.treeSize == |tree.leaves| && core.firstSequence == 0 && core.lastSequence + 1 == |tree.leaves|
    && core.rootDigest == Root(sha, tree.leaves)
    && core.headEntryDigest == tree.leaves[|tree.leaves| - 1]
    && tree.checkpoint.checkpointDigest == digestOf(core)
  }

  /** Trees of growing size, each linked to the one before. */
  ghost predicate Linked(sha: Hasher, digestOf: CoreDigest, history: seq<Tree>) {
    && (forall i {:trigger Certifies(sha, digestOf, history[i])} :: 0 <= i < |history| ==> Certifies(sha, digestOf, history[i]))
    && (forall i, j :: 0 <= i < j < |history| ==> |history[i].leaves| < |history[j].leaves|)
    && (history != [] ==> history[0].checkpoint.core.previousCheckpointDigest == None)
    && (forall i, j :: 0 <= i < j < |history| && j == i + 1 ==>
          history[j].checkpoint.core.previousCheckpointDigest == Some(history[i].checkpoint.checkpointDigest))
  }

  ghost predicate HashedAll(sha: Hasher, history: seq<Tree>, hashed: set<Bytes>) {
    forall i :: 0 <= i < |history| ==> RootInputs(sha, history[i].leaves) <= hashed
  }

  /** What a store that was given these trees in turn must hold. */
  function StoreOf(history: seq<Tree>): map<nat, SignedCheckpoint> {
    if history == [] then map[]
    else
      var last := history[|history| - 1];
      StoreOf(history[..|history| - 1])[|last.leaves| := last.checkpoint]
  }

  function LatestOf(history: seq<Tree>): Option<SignedCheckpoint> {
    if history == [] then None else Some(history[|history| - 1].checkpoint)
  }

  lemma {:induction false} StoredSizes(history: seq<Tree>, size: nat)
    requires forall i, j :: 0 <= i < j < |history| ==> |history[i].leaves| < |history[j].leaves|
    requires size in StoreOf(history)
    ensures history != [] && size <= |history[|history| - 1].leaves|
  {
    var n := |history| - 1;
    if size != |history[n].leaves| {
      StoredSizes(history[..n], size);
      assert history[..n][n - 1] == history[n - 1];
    }
  }

  /** Later trees start with all the leaves of earlier ones. */
  ghost predicate AppendOnly(history: seq<Tree>) {
    forall i, j :: 0 <= i < j < |history| ==> history[i].leaves <= history[j].leaves
  }

  lemma {:induction false} AppendOnlyExtends(history: seq<Tree>, tree: Tree)
    requires AppendOnly(history)
    requires history != [] ==> history[|history| - 1].leaves <= tree.leaves
    ensures AppendOnly(history + [tree])
  {
    var all := history + [tree];
    forall i, j | 0 <= i < j < |all|
      ensures all[i].leaves <= all[j].leaves
    {
      if j == |history| && i < |history| - 1 {
        var last := history[|history| - 1].leaves;
        assert all[i].leaves <= last <= tree.leaves;
      }
    }
  }

  lemma {:induction false} StoreExtends(history: seq<Tree>, tree: Tree)
    requires forall i, j :: 0 <= i < j < |history| ==> |history[i].leaves| < |history[j].leaves|
    requires history != [] ==> |history[|history| - 1].leaves| < |tree.leaves|
    ensures |tree.leaves| !in StoreOf(history)
    ensures StoreOf(history + [tree]) == StoreOf(history)[|tree.leaves| := tree.checkpoint]
  {
    if |tree.leaves| in StoreOf(history) {
      StoredSizes(history, |tree.leaves|);
    }
    assert (history + [tree])[..|history|] == history;
  }

  lemma {:induction false} SizesExtend(history: seq<Tree>, tree: Tree)
    requires forall i, j :: 0 <= i < j < |history| ==> |history[i].leaves| < |history[j].leaves|
    requires history != [] ==> |history[|history| - 1].leaves| < |tree.leaves|
    ensures forall i, j :: 0 <= i < j < |history + [tree]| ==>
      |(history + [tree])[i].leaves| < |(history + [tree])[j].leaves|
  {
    var last := |history| - 1;
    assert forall i :: 0 <= i < last ==> |history[i].leaves| < |history[last].leaves|;
  }

  lemma {:induction false} LinkedExtends(sha: Hasher, digestOf: CoreDigest, history: seq<Tree>, tree: Tree)
    requires Linked(sha, digestOf, history) && Certifies(sha, digestOf, tree)
    requires history != [] ==> |history[|history| - 1].leaves| < |tree.leaves|
    requires tree.checkpoint.core.previousCheckpointDigest ==
      if history == [] then None else Some(history[|history| - 1].checkpoint.checkpointDigest)
    ensures Linked(sha, digestOf, history + [tree])
  {
    SizesExtend(history, tree);
    var all := history + [tree];
    assert all[|history|] == tree && forall i :: 0 <= i < |history| ==> all[i] == history[i];
  }

  /** A snapshot whose prefix has the latest root extends the latest tree. */
  lemma {:induction false} SameRootSamePrefix(
    sha: Hasher, hashed: set<Bytes>, latest: seq<Digest>, leaves: seq<Digest>)
    requires CollisionFree(sha, hashed) && |latest| <= |leaves|
    requires RootInputs(sha, latest) <= hashed && RootInputs(sha, leaves[..|latest|]) <= hashed
    requires Root(sha, leaves[..|latest|]) == Root(sha, latest)
    ensures latest <= leaves
  {
    RootInjective(sha, hashed, leaves[..|latest|], latest);
  }

  ghost predicate Sound(sha: Hasher, digestOf: CoreDigest, history: seq<Tree>, hashed: set<Bytes>) {
    && Linked(sha, digestOf, history)
    && HashedAll(sha, history, hashed)
    && (CollisionFree(sha, hashed) ==> AppendOnly(history))
  }

  lemma {:induction false} SoundGrows(
    sha: Hasher, digestOf: CoreDigest, history: seq<Tree>, hashed: set<Bytes>, more: set<Bytes>)
    requires Sound(sha, digestOf, history, hashed) && hashed <= more
    ensures Sound(sha, digestOf, history, more)
  {
  }

  lemma {:induction false} SoundExtends(
    sha: Hasher, digestOf: CoreDigest, history: seq<Tree>, hashed: set<Bytes>, tree: Tree)
    requires Sound(sha, digestOf, history, hashed) && Certifies(sha, digestOf, tree)
    requires history != [] ==> |history[|history| - 1].leaves| < |tree.leaves|
    requires CollisionFree(sha, hashed) && history != [] ==> history[|history| - 1].leaves <= tree.leaves
    requires RootInputs(sha, tree.leaves) <= hashed
    requires tree.checkpoint.core.previousCheckpointDigest ==
      if history == [] then None else Some(history[|history| - 1].checkpoint.checkpointDigest)
    ensures Sound(sha, digestOf, history + [tree], hashed)
    ensures |tree.leaves| !in StoreOf(history)
    ensures StoreOf(history + [tree]) == StoreOf(history)[|tree.leaves| := tree.checkpoint]
  {
    LinkedExtends(sha, digestOf, history, tree);
    StoreExtends(history, tree);
    if CollisionFree(sha, hashed) {
      AppendOnlyExtends(history, tree);
    }
  }

  /** Comparing a snapshot with the latest tree, found to have the same root, keeps the history
      sound under everything hashed so far, and shows that the snapshot extends the tree. */
  lemma {:induction false} SoundCompares(
    sha: Hasher, digestOf: CoreDigest, history: seq<Tree>, hashed: set<Bytes>, leaves: seq<Digest>, latestSize: nat)
    requires Sound(sha, digestOf, history, hashed)
    requires latestSize == if history == [] then 0 else |history[|history| - 1].leaves|
    requires latestSize <= |leaves|
    requires history != [] ==> Root(sha, leaves[..latestSize]) == Root(sha, history[|history| - 1].leaves)
    ensures var more := hashed + RootInputs(sha, leaves) + RootInputs(sha, leaves[..latestSize]);
      && Sound(sha, digestOf, history, more)
      && (CollisionFree(sha, more) && history != [] ==> history[|history| - 1].leaves <= leaves)
  {
    var more := hashed + RootInputs(sha, leaves) + RootInputs(sha, leaves[..latestSize]);
    SoundGrows(sha, digestOf, history, hashed, more);
    if CollisionFree(sha, more) && history != [] {
      SameRootSamePrefix(sha, more, history[|history| - 1].leaves, leaves);
    }
  }

  lemma {:induction false} LatestIsCertified(sha: Hasher, digestOf: CoreDigest, history: seq<Tree>)
    requires Linked(sha, digestOf, history) && history != []
    ensures var last := history[|history| - 1];
      && LatestOf(history) == Some(last.checkpoint) && Certifies(sha, digestOf, last)
      && last.checkpoint.core.treeSize == |last.leaves| >= 1
  {
  }
}
