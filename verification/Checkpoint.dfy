/** The checkpoint store and builder of src/audit/checkpoint.ts, for one ledger epoch. The
    journal is an adversary: every call is given whatever the journal reported and yielded. */
module Checkpoint {
  import opened Wrappers
  import opened Hashing
  import opened MerkleTree
  import opened MerkleVerify
  import MerkleConsistency
  import opened CheckpointHistory

  class MemoryAuditCheckpointStore {
    var checkpoints: map<nat, SignedCheckpoint>
    var latest: Option<SignedCheckpoint>

    constructor ()
      ensures checkpoints == map[] && latest == None
    {
      checkpoints, latest := map[], None;
    }

    method PutIfAbsent(checkpoint: SignedCheckpoint) returns (result: PutResult)
      modifies this
      ensures var size := checkpoint.core.treeSize;
        if size in old(checkpoints) then
          && checkpoints == old(checkpoints) && latest == old(latest)
          && var existing := old(checkpoints)[size];
          && result == if existing.checkpointDigest == checkpoint.checkpointDigest
                       then Existing(existing) else Conflict(existing)
        else
          && checkpoints == old(checkpoints)[size := checkpoint]
          && result == Inserted(checkpoint)
          && latest == if old(latest).Some? && size <= old(latest).value.core.treeSize
                       then old(latest) else Some(checkpoint)
    {
      var key := checkpoint.core.treeSize;
      if key in checkpoints {
        var existing := checkpoints[key];
        return if existing.checkpointDigest == checkpoint.checkpointDigest
               then Existing(existing) else Conflict(existing);
      }
      checkpoints := checkpoints[key := checkpoint];
      if latest.None? || latest.value.core.treeSize < checkpoint.core.treeSize {
        latest := Some(checkpoint);
      }
      return Inserted(checkpoint);
    }
  }

  /** Why a snapshot does not extend a checkpoint: it is shorter, or its same-sized prefix differs. */
  function ExtendFailure(sha: Hasher, previous: SignedCheckpoint, entries: seq<Entry>): Option<AuditError> {
    var size := previous.core.treeSize;
    if size > |entries| then Some(CheckpointRollback)
    else if Root(sha, Leaves(entries)[..size]) != previous.core.rootDigest
         || size == 0 || entries[size - 1].entryDigest != previous.core.headEntryDigest
    then Some(CheckpointConflict)
    else None
  }

  /** A snapshot that starts with the leaves of a checkpoint extends it, whatever the hash. */
  lemma {:induction false} ExtensionPasses(sha: Hasher, digestOf: CoreDigest, latest: Tree, entries: seq<Entry>)
    requires Certifies(sha, digestOf, latest) && latest.leaves <= Leaves(entries)
    ensures ExtendFailure(sha, latest.checkpoint, entries) == None
  {
    assert Leaves(entries)[..|latest.leaves|] == latest.leaves;
  }

  /** And only such a snapshot does, unless two hashed inputs collide: one that is too short is a
      rollback, and one that starts otherwise a conflict. */
  lemma {:induction false} ExtensionExactly(
    sha: Hasher, digestOf: CoreDigest, hashed: set<Bytes>, latest: Tree, entries: seq<Entry>)
    requires Certifies(sha, digestOf, latest) && CollisionFree(sha, hashed)
    requires RootInputs(sha, latest.leaves) <= hashed
    requires |latest.leaves| <= |entries| ==> RootInputs(sha, Leaves(entries)[..|latest.leaves|]) <= hashed
    ensures ExtendFailure(sha, latest.checkpoint, entries) ==
      if |entries| < |latest.leaves| then Some(CheckpointRollback)
      else if latest.leaves <= Leaves(entries) then None else Some(CheckpointConflict)
  {
    if latest.leaves <= Leaves(entries) {
      ExtensionPasses(sha, digestOf, latest, entries);
    } else if |latest.leaves| <= |entries|
       && Root(sha, Leaves(entries)[..|latest.leaves|]) == latest.checkpoint.core.rootDigest {
      SameRootSamePrefix(sha, hashed, latest.leaves, Leaves(entries));
    }
  }

  /** There is no checkpoint yet, or the snapshot starts with the leaves of the latest one. */
  predicate Extends(history: seq<Tree>, entries: seq<Entry>) {
    history == [] || history[|history| - 1].leaves <= Leaves(entries)
  }

  lemma {:induction false} ExtendsPasses(sha: Hasher, digestOf: CoreDigest, history: seq<Tree>, entries: seq<Entry>)
    requires Linked(sha, digestOf, history) && Extends(history, entries) && history != []
    ensures ExtendFailure(sha, LatestOf(history).value, entries) == None
  {
    LatestIsCertified(sha, digestOf, history);
    ExtensionPasses(sha, digestOf, history[|history| - 1], entries);
  }

  /** The journal yielded exactly the entries up to the head it reported. */
  predicate CompleteSnapshot(head: Head, yielded: seq<Entry>) {
    && Contiguous(yielded)
    && |yielded| == head.sequence + 1 <= MAX_SAFE_INTEGER
    && yielded[head.sequence].entryDigest == head.entryDigest
  }

  /** So what it yielded is numbered from 0 and ends at the head it reported. */
  lemma {:induction false} SnapshotIsWhole(head: Head, yielded: seq<Entry>)
    ensures CompleteSnapshot(head, yielded) <==>
      && 1 <= |yielded| <= 9007199254740991
      && (forall i :: 0 <= i < |yielded| ==> yielded[i] == Entry(i, yielded[i].entryDigest))
      && head == Head(|yielded| - 1, yielded[|yielded| - 1].entryDigest)
  {
  }

  /** What is signed over a snapshot. */
  function CoreOf(sha: Hasher, entries: seq<Entry>, previous: Option<SignedCheckpoint>, now: int): CheckpointCore
    requires entries != []
  {
    var n := |entries| - 1;
    CheckpointCore(
      n + 1, entries[0].sequence, entries[n].sequence, Root(sha, Leaves(entries)), entries[n].entryDigest,
      if previous.None? then None else Some(previous.value.checkpointDigest), now)
  }

  class AuditCheckpointBuilder {
    const sha: Hasher
    const digestOf: CoreDigest
    const store: MemoryAuditCheckpointStore

    /** Every checkpoint stored so far, oldest first, with its leaves. */
    ghost var history: seq<Tree>
    /** Every input the stored trees and the compared prefixes were hashed from. */
    ghost var hashed: set<Bytes>

    /** The store holds exactly the history, and unless two of the inputs hashed so far
        collide, each stored tree extends every earlier one. */
    ghost predicate Valid()
      reads this, store
    {
      Sound(sha, digestOf, history, hashed)
      && store.checkpoints == StoreOf(history) && store.latest == LatestOf(history)
    }

    constructor (sha: Hasher, digestOf: CoreDigest)
      ensures Valid() && fresh(store) && history == []
      ensures this.sha == sha && this.digestOf == digestOf
    {
      this.sha, this.digestOf := sha, digestOf;
      this.store := new MemoryAuditCheckpointStore();
      history, hashed := [], {};
    }

    /** `readEntries`: what the journal yields must be numbered from zero without gaps. */
    method ReadEntries(yielded: seq<Entry>) returns (result: Result<seq<Entry>>)
      ensures result == if Contiguous(yielded) then Ok(yielded) else Err(JournalFailure)
    {
      for n := 0 to |yielded|
        invariant Contiguous(yielded[..n])
      {
        if yielded[n].sequence != n {
          return Err(JournalFailure);
        }
      }
      assert yielded[..|yielded|] == yielded;
      return Ok(yielded);
    }

    /** `snapshotAtHead`: the range up to the reported head, or an error. */
    method SnapshotAtHead(head: Option<Head>, yielded: seq<Entry>) returns (result: Result<seq<Entry>>)
      ensures result.Ok? <==> head.None? || CompleteSnapshot(head.value, yielded)
      ensures result.Ok? ==> result.value == if head.None? then [] else yielded
      ensures result.Err? ==>
        result.error == if head.value.sequence >= MAX_SAFE_INTEGER then CheckpointInvalid else JournalFailure
    {
      if head.None? {
        return Ok([]);
      }
      var expectedCount := head.value.sequence + 1;
      if expectedCount > MAX_SAFE_INTEGER {
        return Err(CheckpointInvalid);
      }
      var entries := ReadEntries(yielded);
      if entries.Err? {
        return entries;
      }
      if |yielded| != expectedCount || yielded[|yielded| - 1].entryDigest != head.value.entryDigest {
        return Err(JournalFailure);
      }
      return entries;
    }

    /** `assertExtends`: compares the latest checkpoint with the same-sized prefix of a snapshot. */
    method AssertExtends(previous: SignedCheckpoint, entries: seq<Entry>) returns (failure: Option<AuditError>)
      ensures failure == ExtendFailure(sha, previous, entries)
    {
      var size := previous.core.treeSize;
      if size > |entries| {
        return Some(CheckpointRollback);
      }
      var prefix := entries[..size];
      assert Leaves(prefix) == Leaves(entries)[..size];
      if previous.core.rootDigest != Root(sha, Leaves(prefix))
         || |prefix| == 0 || previous.core.headEntryDigest != prefix[|prefix| - 1].entryDigest {
        return Some(CheckpointConflict);
      }
      return None;
    }

    method SignCheckpoint(entries: seq<Entry>, previous: Option<SignedCheckpoint>, now: int)
      returns (checkpoint: SignedCheckpoint)
      requires entries != [] && Contiguous(entries)
      ensures Certifies(sha, digestOf, Tree(checkpoint, Leaves(entries)))
      ensures checkpoint.core == CoreOf(sha, entries, previous, now)
    {
      var core := CheckpointCore(
        |entries|, entries[0].sequence, entries[|entries| - 1].sequence, Root(sha, Leaves(entries)),
        entries[|entries| - 1].entryDigest,
        if previous.None? then None else Some(previous.value.checkpointDigest), now);
      return SignedCheckpoint(core, digestOf(core));
    }

    /** The end of `storeCheckpoint`: signs a snapshot that extends the latest tree and stores it. */
    method PutSigned(entries: seq<Entry>, now: int) returns (checkpoint: SignedCheckpoint, inserted: bool)
      requires Valid()
      requires entries != [] && Contiguous(entries) && RootInputs(sha, Leaves(entries)) <= hashed
      requires history != [] ==> |history[|history| - 1].leaves| < |entries|
      requires CollisionFree(sha, hashed) && history != [] ==> history[|history| - 1].leaves <= Leaves(entries)
      modifies this`history, store
      ensures Valid() && inserted
      ensures history == old(history) + [Tree(checkpoint, Leaves(entries))]
      ensures checkpoint.core == CoreOf(sha, entries, old(store.latest), now)
    {
      if history != [] {
        LatestIsCertified(sha, digestOf, history);
      }
      checkpoint := SignCheckpoint(entries, store.latest, now);
      ghost var tree := Tree(checkpoint, Leaves(entries));
      SoundExtends(sha, digestOf, history, hashed, tree);
      var put := store.PutIfAbsent(checkpoint);
      checkpoint, inserted := put.checkpoint, put.Inserted?;
      history := history + [tree];
    }

    /** The size of the latest stored tree. */
    ghost function LatestSize(): nat
      reads this
    {
      if history == [] then 0 else |history[|history| - 1].leaves|
    }

    /** The comparison in `storeCheckpoint`: a snapshot that passes extends the latest tree, unless
        two of the inputs hashed so far collide. */
    method CompareWithLatest(entries: seq<Entry>) returns (failure: Option<AuditError>)
      requires Valid()
      modifies this`hashed
      ensures Valid() && old(hashed) <= hashed
      ensures failure == if store.latest.None? then None else ExtendFailure(sha, store.latest.value, entries)
      ensures failure.None? && store.latest.Some? && LatestSize() == |entries| ==>
        store.latest.value.core.rootDigest == Root(sha, Leaves(entries))
      ensures store.latest.Some? ==> store.latest.value.core.treeSize == LatestSize()
      ensures failure.None? ==>
        && LatestSize() <= |entries| && RootInputs(sha, Leaves(entries)) <= hashed
        && (history != [] ==> Root(sha, history[|history| - 1].leaves) == Root(sha, Leaves(entries)[..LatestSize()]))
        && (CollisionFree(sha, hashed) && history != [] ==> history[|history| - 1].leaves <= Leaves(entries))
    {
      var previous := store.latest;
      if history != [] {
        LatestIsCertified(sha, digestOf, history);
      }
      if previous.Some? {
        failure := AssertExtends(previous.value, entries);
        if failure.Some? {
          return;
        }
      }
      assert Leaves(entries)[..|entries|] == Leaves(entries);
      NoteHashed(Leaves(entries), LatestSize());
      return None;
    }

    /** `storeCheckpoint` from its snapshot on. */
    method StoreSnapshot(entries: seq<Entry>, now: int) returns (result: Result<(SignedCheckpoint, bool)>)
      requires Valid()
      requires entries != [] && Contiguous(entries)
      modifies this`history, this`hashed, store
      ensures Valid() && old(hashed) <= hashed
      ensures result.Err? || !result.value.1 ==> history == old(history)
      ensures result.Ok? && result.value.1 ==> history == old(history) + [Tree(result.value.0, Leaves(entries))]
      ensures result.Ok? ==>
        && LatestOf(history) == Some(result.value.0)
        && result.value.0.core.treeSize == |entries|
        && result.value.0.core.rootDigest == Root(sha, Leaves(entries))
      ensures result.Err? <==>
        old(store.latest).Some? && ExtendFailure(sha, old(store.latest).value, entries).Some?
      ensures result.Err? ==> Some(result.error) == ExtendFailure(sha, old(store.latest).value, entries)
      ensures result.Ok? && CollisionFree(sha, hashed) ==> Extends(old(history), entries)
      ensures result.Ok? && result.value.1 ==> result.value.0.core == CoreOf(sha, entries, old(store.latest), now)
    {
      var previous := store.latest;
      var failure := CompareWithLatest(entries);
      if failure.Some? {
        return Err(failure.value);
      }
      assert CollisionFree(sha, hashed) ==> Extends(old(history), entries);
      if previous.Some? && previous.value.core.treeSize == |entries| {
        return Ok((previous.value, false));
      }
      var checkpoint, inserted := PutSigned(entries, now);
      return Ok((checkpoint, inserted));
    }

    /** `storeCheckpoint`, the operation that `createCheckpoint` runs under the ledger's lock.
        Whatever the journal answers, it fails and stores nothing, or finds the latest
        checkpoint again, or appends one tree to the history. */
    method StoreCheckpoint(head: Option<Head>, yielded: seq<Entry>, now: int)
      returns (result: Result<(SignedCheckpoint, bool)>)
      requires Valid()
      modifies this`history, this`hashed, store
      ensures Valid() && old(hashed) <= hashed
      ensures result.Err? || !result.value.1 ==> history == old(history)
      ensures result.Ok? && result.value.1 ==> history == old(history) + [Tree(result.value.0, Leaves(yielded))]
      ensures result.Ok? <==>
        && head.Some? && CompleteSnapshot(head.value, yielded)
        && (old(store.latest).Some? ==> ExtendFailure(sha, old(store.latest).value, yielded).None?)
      ensures head.Some? && CompleteSnapshot(head.value, yielded) && Extends(old(history), yielded) ==> result.Ok?
      ensures result.Ok? && CollisionFree(sha, hashed) ==> Extends(old(history), yielded)
      ensures result.Err? ==>
        result.error == if head.None? || head.value.sequence >= MAX_SAFE_INTEGER then CheckpointInvalid
                        else if !CompleteSnapshot(head.value, yielded) then JournalFailure
                        else ExtendFailure(sha, old(store.latest).value, yielded).value
      ensures result.Ok? && result.value.1 ==>
        && var (core, n) := (result.value.0.core, |yielded| - 1);
        && core.firstSequence == 0 && core.lastSequence == n && core.headEntryDigest == yielded[n].entryDigest
        && core.createdAt == now && core.previousCheckpointDigest ==
             if old(store.latest).None? then None else Some(old(store.latest).value.checkpointDigest)
      ensures result.Ok? ==>
        && LatestOf(history) == Some(result.value.0)
        && result.value.0.core.treeSize == |yielded|
        && result.value.0.core.rootDigest == Root(sha, Leaves(yielded))
    {
      if history != [] && Extends(history, yielded) {
        ExtendsPasses(sha, digestOf, history, yielded);
      }
      var snapshot := SnapshotAtHead(head, yielded);
      if snapshot.Err? {
        return Err(snapshot.error);
      }
      if |snapshot.value| == 0 {
        return Err(CheckpointInvalid);
      }
      result := StoreSnapshot(snapshot.value, now);
    }

    /** Records what comparing a snapshot with the latest tree hashed. */
    ghost method NoteHashed(leaves: seq<Digest>, latestSize: nat)
      requires Valid()
      requires latestSize == if history == [] then 0 else |history[|history| - 1].leaves|
      requires latestSize <= |leaves|
      requires history != [] ==> Root(sha, leaves[..latestSize]) == Root(sha, history[|history| - 1].leaves)
      modifies this`hashed
      ensures Valid() && old(hashed) <= hashed && RootInputs(sha, leaves) <= hashed
      ensures CollisionFree(sha, hashed) && history != [] ==> history[|history| - 1].leaves <= leaves
    {
      SoundCompares(sha, digestOf, history, hashed, leaves, latestSize);
      hashed := hashed + RootInputs(sha, leaves) + RootInputs(sha, leaves[..latestSize]);
    }

    /** `consistencyProof` over whatever range the journal still yields for a checkpoint. */
    method ConsistencyProof(oldTreeSize: nat, checkpoint: SignedCheckpoint, yielded: seq<Entry>)
      returns (result: Result<seq<Digest>>)
      ensures result.Ok? ==>
        && Contiguous(yielded) && |yielded| == checkpoint.core.treeSize && 1 <= oldTreeSize <= |yielded|
        && yielded[|yielded| - 1].entryDigest == checkpoint.core.headEntryDigest
        && MerkleTree.ConsistencyProof(sha, Leaves(yielded), oldTreeSize) == Value(result.value)
      ensures result.Err? ==>
        || checkpoint.core.treeSize > MAX_SAFE_INTEGER || oldTreeSize > MAX_SAFE_INTEGER
        || !Contiguous(yielded) || |yielded| != checkpoint.core.treeSize || !(1 <= oldTreeSize <= |yielded|)
        || yielded[|yielded| - 1].entryDigest != checkpoint.core.headEntryDigest
    {
      if checkpoint.core.treeSize > MAX_SAFE_INTEGER {
        return Err(CheckpointInvalid);
      }
      var entries := ReadEntries(yielded);
      if entries.Err? {
        return Err(entries.error);
      }
      if |yielded| != checkpoint.core.treeSize
         || |yielded| == 0 || yielded[|yielded| - 1].entryDigest != checkpoint.core.headEntryDigest {
        return Err(CheckpointInvalid);
      }
      if oldTreeSize > MAX_SAFE_INTEGER {
        return Err(CheckpointInvalid);
      }
      var proof := MerkleTree.ConsistencyProof(sha, Leaves(yielded), oldTreeSize);
      return if proof.Value? then Ok(proof.value) else Err(ProofRange);
    }
  }

  /** Over every run: any two stored checkpoints are append-only related, and while the journal
      still yields the later one's leaves, the proof between them is accepted. */
  lemma {:induction false} StoredCheckpointsAreConsistent(
    builder: AuditCheckpointBuilder, i: nat, j: nat, path: seq<Digest>)
    requires builder.Valid() && CollisionFree(builder.sha, builder.hashed)
    requires i <= j < |builder.history| && |builder.history[j].leaves| <= MAX_SAFE_INTEGER
    requires var (earlier, later) := (builder.history[i], builder.history[j]);
      MerkleTree.ConsistencyProof(builder.sha, later.leaves, |earlier.leaves|) == Value(path)
    ensures var (earlier, later) := (builder.history[i], builder.history[j]);
      && earlier.leaves <= later.leaves
      && ConsistencyAccepted(
           builder.sha, earlier.checkpoint.core.treeSize, later.checkpoint.core.treeSize,
           Sha256(earlier.checkpoint.core.rootDigest), Sha256(later.checkpoint.core.rootDigest), Texts(path))
  {
    var (earlier, later) := (builder.history[i], builder.history[j]);
    assert Certifies(builder.sha, builder.digestOf, earlier) && Certifies(builder.sha, builder.digestOf, later);
    assert later.leaves[..|earlier.leaves|] == earlier.leaves;
    MerkleConsistency.ConsistencyComplete(builder.sha, later.leaves, |earlier.leaves|);
  }
}
