/** The proof verifiers of src/audit/merkle.ts as the loops they are, and exactly what they accept. */
module MerkleVerify {
  import opened Wrappers
  import opened Hashing
  import opened MerkleTree
  import opened MerkleClimb

  // ---- Inclusion ---------------------------------------------------------------------

  /** The verdict of `VerifyInclusion`. */
  predicate InclusionAccepted(
    sha: Hasher, leaf: DigestText, leafIndex: int, treeSize: int, root: DigestText, path: seq<DigestText>)
  {
    && ValidSize(leafIndex) && ValidSize(treeSize) && leafIndex < treeSize
    && leaf.Sha256? && root.Sha256?
    && Climb(sha, false, treeSize, leafIndex, LeafHash(sha, leaf.digest), path) == Some(root.digest)
  }

  /** Everything the verifier hashes for one claim. */
  function InclusionInputs(
    sha: Hasher, leaf: DigestText, leafIndex: nat, treeSize: nat, path: seq<DigestText>): set<Bytes>
    requires leafIndex < treeSize
  {
    if leaf.Malformed? then {}
    else {LeafInput(leaf.digest)} + ClimbInputs(sha, treeSize, leafIndex, LeafHash(sha, leaf.digest), path)
  }

  method VerifyInclusion(
    sha: Hasher, leaf: DigestText, leafIndex: int, treeSize: int, root: DigestText, path: seq<DigestText>)
    returns (accepted: bool)
    ensures accepted == InclusionAccepted(sha, leaf, leafIndex, treeSize, root, path)
  {
    if !ValidSize(leafIndex) || !ValidSize(treeSize) {
      return false;
    }
    if treeSize == 0 || leafIndex >= treeSize {
      return false;
    }
    if leaf.Malformed? {
      return false;
    }
    var leafPosition, lastNodePosition := leafIndex, treeSize - 1;
    var calculated := LeafHash(sha, leaf.digest);
    ghost var outcome := Climb(sha, false, treeSize, leafIndex, calculated, path);
    for k := 0 to |path|
      invariant 0 <= leafPosition <= lastNodePosition
      invariant outcome == Climb(sha, false, lastNodePosition + 1, leafPosition, calculated, path[k..])
    {
      if lastNodePosition == 0 {
        return false;
      }
      assert path[k..][0] == path[k] && path[k..][1..] == path[k + 1..];
      if leafPosition % 2 == 1 || leafPosition == lastNodePosition {
        if path[k].Malformed? {
          RejectsMalformed(sha, lastNodePosition + 1, leafPosition, calculated, path[k..]);
          return false;
        }
        ghost var node := calculated;
        calculated := NodeHash(sha, path[k].digest, calculated);
        while leafPosition % 2 == 0 && leafPosition != 0
          invariant 0 < leafPosition <= lastNodePosition
          invariant leafPosition % 2 == 1 || leafPosition == lastNodePosition
          invariant outcome == Climb(sha, false, lastNodePosition + 1, leafPosition, node, path[k..])
        {
          leafPosition := leafPosition / 2;
          lastNodePosition := lastNodePosition / 2;
        }
      } else {
        if path[k].Malformed? {
          return false;
        }
        calculated := NodeHash(sha, calculated, path[k].digest);
      }
      leafPosition := leafPosition / 2;
      lastNodePosition := lastNodePosition / 2;
    }
    if lastNodePosition != 0 {
      ClimbNeedsPath(sha, false, lastNodePosition + 1, leafPosition, calculated);
    }
    return lastNodePosition == 0 && Sha256(calculated) == root;
  }

  lemma {:induction false} RejectsMalformed(sha: Hasher, size: nat, i: nat, node: Digest, path: seq<DigestText>)
    requires i < size && size >= 2 && path != [] && path[0].Malformed?
    ensures Climb(sha, false, size, i, node, path) == None
    decreases size
  {
    if i % 2 == 0 && i == size - 1 {
      RejectsMalformed(sha, (size + 1) / 2, i / 2, node, path);
    }
  }

  lemma {:induction false} RootOfHalves(sha: Hasher, leaves: seq<Digest>, i: nat)
    requires i < |leaves| && |leaves| >= 2
    ensures Root(sha, leaves)
      == Paired(sha, false, i < Split(|leaves|), Root(sha, HalfWith(leaves, i).0), Root(sha, OtherHalf(leaves, i)))
    ensures PairedInput(i < Split(|leaves|), Root(sha, HalfWith(leaves, i).0), Root(sha, OtherHalf(leaves, i)))
      in RootInputs(sha, leaves)
    ensures RootInputs(sha, HalfWith(leaves, i).0) <= RootInputs(sha, leaves)
  {
  }

  lemma {:induction false} HalfSizes(leaves: seq<Digest>, i: nat)
    requires i < |leaves| && |leaves| >= 2
    ensures |HalfWith(leaves, i).0| == HalfSize(|leaves|, i)
    ensures HalfWith(leaves, i).1 == HalfIndex(|leaves|, i)
  {
  }

  /** A generated path climbs from its leaf to the root. */
  lemma {:induction false} ClimbComplete(sha: Hasher, leaves: seq<Digest>, i: nat)
    requires i < |leaves|
    ensures Climb(sha, false, |leaves|, i, LeafHash(sha, leaves[i]), Texts(BuildInclusionProof(sha, leaves, i)))
         == Some(Root(sha, leaves))
    decreases |leaves|
  {
    if |leaves| > 1 {
      var (half, j) := HalfWith(leaves, i);
      ClimbComplete(sha, half, j);
      var sub, other := BuildInclusionProof(sha, half, j), Root(sha, OtherHalf(leaves, i));
      InclusionProofStep(sha, leaves, i);
      TextsSnoc(sub, other);
      RootOfHalves(sha, leaves, i);
      HalfSizes(leaves, i);
      ClimbByHalves(sha, false, |leaves|, i, LeafHash(sha, leaves[i]), Texts(sub), Sha256(other));
    }
  }

  /** Only the true leaf and the generated path climb to the root. */
  lemma {:induction false} ClimbSound(
    sha: Hasher, inputs: set<Bytes>, leaves: seq<Digest>, i: nat, leaf: Digest, path: seq<DigestText>)
    requires CollisionFree(sha, inputs) && RootInputs(sha, leaves) <= inputs
    requires i < |leaves| && LeafInput(leaf) in inputs
    requires ClimbInputs(sha, |leaves|, i, LeafHash(sha, leaf), path) <= inputs
    requires Climb(sha, false, |leaves|, i, LeafHash(sha, leaf), path) == Some(Root(sha, leaves))
    ensures leaf == leaves[i]
    ensures path == Texts(BuildInclusionProof(sha, leaves, i))
    decreases |leaves|
  {
    if |leaves| == 1 {
      LeafHashInjective(sha, inputs, leaf, leaves[0]);
    } else {
      if path == [] {
        ClimbNeedsPath(sha, false, |leaves|, i, LeafHash(sha, leaf));
      }
      var sub, last := path[..|path| - 1], path[|path| - 1];
      assert path == sub + [last];
      ClimbSoundStep(sha, inputs, leaves, i, leaf, sub, last);
      var (half, j) := HalfWith(leaves, i);
      ClimbSound(sha, inputs, half, j, leaf, sub);
      InclusionProofStep(sha, leaves, i);
      TextsSnoc(BuildInclusionProof(sha, half, j), last.digest);
    }
  }

  lemma {:induction false} ClimbSoundStep(
    sha: Hasher, inputs: set<Bytes>, leaves: seq<Digest>, i: nat, leaf: Digest, sub: seq<DigestText>, last: DigestText)
    requires CollisionFree(sha, inputs) && RootInputs(sha, leaves) <= inputs
    requires i < |leaves| && |leaves| >= 2
    requires ClimbInputs(sha, |leaves|, i, LeafHash(sha, leaf), sub + [last]) <= inputs
    requires Climb(sha, false, |leaves|, i, LeafHash(sha, leaf), sub + [last]) == Some(Root(sha, leaves))
    ensures var (half, j) := HalfWith(leaves, i);
      && RootInputs(sha, half) <= inputs
      && ClimbInputs(sha, |half|, j, LeafHash(sha, leaf), sub) <= inputs
      && Climb(sha, false, |half|, j, LeafHash(sha, leaf), sub) == Some(Root(sha, half))
    ensures last == Sha256(Root(sha, OtherHalf(leaves, i)))
  {
    RootOfHalves(sha, leaves, i);
    HalfSizes(leaves, i);
    ClimbJoinSound(sha, inputs, |leaves|, i, LeafHash(sha, leaf), sub, last,
                   Root(sha, HalfWith(leaves, i).0), Root(sha, OtherHalf(leaves, i)));
  }

  lemma {:induction false} ClimbJoinSound(
    sha: Hasher, inputs: set<Bytes>, size: nat, i: nat, node: Digest, sub: seq<DigestText>, last: DigestText,
    top: Digest, other: Digest)
    requires CollisionFree(sha, inputs)
    requires i < size && size >= 2
    requires ClimbInputs(sha, size, i, node, sub + [last]) <= inputs
    requires PairedInput(i < Split(size), top, other) in inputs
    requires Climb(sha, false, size, i, node, sub + [last]) == Some(Paired(sha, false, i < Split(size), top, other))
    ensures ClimbInputs(sha, HalfSize(size, i), HalfIndex(size, i), node, sub) <= inputs
    ensures Climb(sha, false, HalfSize(size, i), HalfIndex(size, i), node, sub) == Some(top)
    ensures last == Sha256(other)
  {
    ClimbByHalves(sha, false, size, i, node, sub, last);
    ClimbInputsByHalves(sha, size, i, node, sub, last);
    var half := Climb(sha, false, HalfSize(size, i), HalfIndex(size, i), node, sub);
    PairInjective(sha, inputs, i < Split(size), half.value, last.digest, top, other);
  }

  lemma {:induction false} PairInjective(
    sha: Hasher, inputs: set<Bytes>, isLeft: bool, node: Digest, other: Digest, node': Digest, other': Digest)
    requires CollisionFree(sha, inputs)
    requires PairedInput(isLeft, node, other) in inputs && PairedInput(isLeft, node', other') in inputs
    requires Paired(sha, false, isLeft, node, other) == Paired(sha, false, isLeft, node', other')
    ensures node == node' && other == other'
  {
    if isLeft {
      NodeHashInjective(sha, inputs, node, other, node', other');
    } else {
      NodeHashInjective(sha, inputs, other, node, other', node');
    }
  }

  /** Against the root of a leaf list, exactly one claim per index is accepted: the leaf at
      that index with the generated proof. Completeness needs no assumption on the hash. */
  lemma {:induction false} InclusionExact(
    sha: Hasher, inputs: set<Bytes>, leaves: seq<Digest>, leaf: DigestText, leafIndex: int, path: seq<DigestText>)
    requires |leaves| <= MAX_SAFE_INTEGER
    requires CollisionFree(sha, inputs) && RootInputs(sha, leaves) <= inputs
    requires 0 <= leafIndex < |leaves| ==> InclusionInputs(sha, leaf, leafIndex, |leaves|, path) <= inputs
    ensures InclusionAccepted(sha, leaf, leafIndex, |leaves|, Sha256(Root(sha, leaves)), path) <==>
      && 0 <= leafIndex < |leaves|
      && leaf == Sha256(leaves[leafIndex])
      && InclusionProof(sha, leaves, leafIndex).Value?
      && path == Texts(InclusionProof(sha, leaves, leafIndex).value)
  {
    if InclusionAccepted(sha, leaf, leafIndex, |leaves|, Sha256(Root(sha, leaves)), path) {
      ClimbSound(sha, inputs, leaves, leafIndex, leaf.digest, path);
    }
    if 0 <= leafIndex < |leaves| {
      ClimbComplete(sha, leaves, leafIndex);
    }
  }

  lemma {:induction false} InclusionComplete(sha: Hasher, leaves: seq<Digest>, leafIndex: nat)
    requires leafIndex < |leaves| <= MAX_SAFE_INTEGER
    ensures InclusionAccepted(sha, Sha256(leaves[leafIndex]), leafIndex, |leaves|, Sha256(Root(sha, leaves)),
                              Texts(InclusionProof(sha, leaves, leafIndex).value))
  {
    ClimbComplete(sha, leaves, leafIndex);
  }

  // ---- Consistency -------------------------------------------------------------------

  function Seed(root: DigestText): Option<Digest> {
    if root.Sha256? then Some(root.digest) else None
  }

  /** The verdict of `VerifyConsistency`. */
  predicate ConsistencyAccepted(
    sha: Hasher, oldSize: int, newSize: int, oldRoot: DigestText, newRoot: DigestText, path: seq<DigestText>)
  {
    && ValidSize(oldSize) && ValidSize(newSize) && 0 < oldSize <= newSize
    && if oldSize == newSize then path == [] && oldRoot == newRoot
       else
         && oldRoot.Sha256? && newRoot.Sha256?
         && Follow(sha, true, oldSize, newSize, Some(oldRoot.digest), path) == Some(oldRoot.digest)
         && Follow(sha, false, oldSize, newSize, Some(oldRoot.digest), path) == Some(newRoot.digest)
  }

  /** Everything the verifier hashes on the new tree's side of one claim. */
  function ConsistencyInputs(
    sha: Hasher, oldSize: nat, newSize: nat, oldRoot: DigestText, path: seq<DigestText>): set<Bytes>
    requires 1 <= oldSize <= newSize
  {
    FollowInputs(sha, oldSize, newSize, Seed(oldRoot), path)
  }

  /** The old and the new reading of a path, from a pair of digests. */
  function BothClimbs(
    sha: Hasher, size: nat, i: nat, oldNode: Digest, newNode: Digest, path: seq<DigestText>)
    : (Option<Digest>, Option<Digest>)
    requires i < size
  {
    (Climb(sha, true, size, i, oldNode, path), Climb(sha, false, size, i, newNode, path))
  }

  predicate Reaches(tops: (Option<Digest>, Option<Digest>), oldRoot: DigestText, newRoot: DigestText) {
    oldRoot.Sha256? && newRoot.Sha256? && tops == (Some(oldRoot.digest), Some(newRoot.digest))
  }

  /** Sizes and indices beyond the safe integers, and malformed digests, are refused whatever the path. */
  lemma {:induction false} AcceptsSafeSizesOnly(
    sha: Hasher, leaf: DigestText, i: int, size: int, root: DigestText, newRoot: DigestText, path: seq<DigestText>)
    ensures InclusionAccepted(sha, leaf, i, size, root, path) ==>
      0 <= i < size <= 9007199254740991 && leaf.Sha256? && root.Sha256?
    ensures ConsistencyAccepted(sha, i, size, root, newRoot, path) ==>
      1 <= i <= size <= 9007199254740991 && (i < size ==> root.Sha256? && newRoot.Sha256?)
    ensures ConsistencyAccepted(sha, size, size, root, newRoot, path) <==>
      1 <= size <= 9007199254740991 && path == [] && root == newRoot
  {
  }

  method VerifyConsistency(
    sha: Hasher, oldSize: int, newSize: int, oldRoot: DigestText, newRoot: DigestText, path: seq<DigestText>)
    returns (accepted: bool)
    ensures accepted == ConsistencyAccepted(sha, oldSize, newSize, oldRoot, newRoot, path)
  {
    if !ValidSize(oldSize) || !ValidSize(newSize) {
      return false;
    }
    if oldSize == 0 || oldSize > newSize {
      return false;
    }
    if oldSize == newSize {
      return |path| == 0 && oldRoot == newRoot;
    }
    var oldNode, newNode := oldSize - 1, newSize - 1;
    ghost var seed := Seed(oldRoot);
    while oldNode % 2 == 1
      invariant 0 <= oldNode < newNode
      invariant Follow(sha, true, oldSize, newSize, seed, path) == Follow(sha, true, oldNode + 1, newNode + 1, seed, path)
      invariant Follow(sha, false, oldSize, newSize, seed, path) == Follow(sha, false, oldNode + 1, newNode + 1, seed, path)
      decreases oldNode
    {
      oldNode := oldNode / 2;
      newNode := newNode / 2;
    }
    var pathIndex := 0;
    var oldCalculated, newCalculated: DigestText;
    if oldNode == 0 {
      oldCalculated := oldRoot;
      newCalculated := oldRoot;
    } else {
      if |path| == 0 {
        return false;
      }
      pathIndex := 1;
      oldCalculated := path[0];
      newCalculated := path[0];
    }
    accepted := FollowUp(sha, oldNode, newNode, oldCalculated, newCalculated, path, pathIndex, oldRoot, newRoot);
  }

  /** The second loop of `verifyConsistency`, from its seeded digests on. A digest that is not
      well-formed makes `nodeHash` throw, which the verifier turns into a rejection. */
  method FollowUp(
    sha: Hasher, oldNode0: nat, newNode0: nat, oldCalculated0: DigestText, newCalculated0: DigestText,
    path: seq<DigestText>, pathIndex0: nat, oldRoot: DigestText, newRoot: DigestText)
    returns (accepted: bool)
    requires oldNode0 < newNode0 && oldCalculated0 == newCalculated0 && pathIndex0 <= |path|
    ensures accepted == (newCalculated0.Sha256? && Reaches(
      BothClimbs(sha, newNode0 + 1, oldNode0, oldCalculated0.digest, newCalculated0.digest, path[pathIndex0..]),
      oldRoot, newRoot))
  {
    var oldNode, newNode, pathIndex := oldNode0, newNode0, pathIndex0;
    var oldCalculated, newCalculated := oldCalculated0, newCalculated0;
    ghost var seeded := newCalculated0.Sha256?;
    ghost var tops := if seeded then
      BothClimbs(sha, newNode + 1, oldNode, oldCalculated.digest, newCalculated.digest, path[pathIndex..])
      else (None, None);
    while pathIndex < |path|
      invariant 0 <= oldNode <= newNode && pathIndex0 <= pathIndex <= |path|
      invariant !seeded ==> newNode > 0 && newCalculated.Malformed?
      invariant seeded ==> oldCalculated.Sha256? && newCalculated.Sha256?
      invariant seeded ==>
        tops == BothClimbs(sha, newNode + 1, oldNode, oldCalculated.digest, newCalculated.digest, path[pathIndex..])
      decreases |path| - pathIndex
    {
      if newNode == 0 {
        return false;
      }
      var sibling := path[pathIndex];
      assert path[pathIndex..][0] == sibling && path[pathIndex..][1..] == path[pathIndex + 1..];
      if sibling.Malformed? || newCalculated.Malformed? {
        if seeded {
          RejectsMalformed(sha, newNode + 1, oldNode, newCalculated.digest, path[pathIndex..]);
        }
        return false;
      }
      if oldNode % 2 == 1 || oldNode == newNode {
        ghost var o, n := oldCalculated.digest, newCalculated.digest;
        oldCalculated := Sha256(NodeHash(sha, sibling.digest, oldCalculated.digest));
        newCalculated := Sha256(NodeHash(sha, sibling.digest, newCalculated.digest));
        while oldNode % 2 == 0 && oldNode != 0
          invariant 0 < oldNode <= newNode
          invariant oldNode % 2 == 1 || oldNode == newNode
          invariant tops == BothClimbs(sha, newNode + 1, oldNode, o, n, path[pathIndex..])
        {
          oldNode := oldNode / 2;
          newNode := newNode / 2;
        }
      } else {
        newCalculated := Sha256(NodeHash(sha, newCalculated.digest, sibling.digest));
      }
      oldNode := oldNode / 2;
      newNode := newNode / 2;
      pathIndex := pathIndex + 1;
    }
    if newNode != 0 && seeded {
      ClimbNeedsPath(sha, false, newNode + 1, oldNode, newCalculated.digest);
    }
    return newNode == 0 && oldCalculated == oldRoot && newCalculated == newRoot;
  }
}
