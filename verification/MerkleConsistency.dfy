/** What an accepted consistency proof means: the old root is the root of the new tree's prefix. */
module MerkleConsistency {
  import opened Wrappers
  import opened Hashing
  import opened MerkleTree
  import opened MerkleClimb
  import opened MerkleVerify

  /** The half of the tree in which its first `m` leaves end, and how many of them lie there. */
  function PrefixHalf(leaves: seq<Digest>, m: nat): (half: (seq<Digest>, nat))
    requires 1 <= m < |leaves|
    ensures 1 <= half.1 <= |half.0| < |leaves|
    ensures |half.0| == PrefixHalfSize(|leaves|, m) && half.1 == PrefixInHalf(|leaves|, m)
  {
    if m <= Split(|leaves|) then (Left(leaves), m) else (Right(leaves), m - Split(|leaves|))
  }

  function PrefixOther(leaves: seq<Digest>, m: nat): seq<Digest>
    requires 1 <= m < |leaves|
  {
    if m <= Split(|leaves|) then Right(leaves) else Left(leaves)
  }

  lemma {:induction false} PrefixHalfSplits(sha: Hasher, leaves: seq<Digest>, m: nat)
    requires 1 <= m < |leaves|
    ensures var ((half, r), inLeft, other) :=
        (PrefixHalf(leaves, m), m <= Split(|leaves|), Root(sha, PrefixOther(leaves, m)));
      && Root(sha, leaves) == Paired(sha, false, inLeft, Root(sha, half), other)
      && PairedInput(inLeft, Root(sha, half), other) in RootInputs(sha, leaves)
      && RootInputs(sha, half) <= RootInputs(sha, leaves)
  {
  }

  lemma {:induction false} PrefixRootSplits(sha: Hasher, leaves: seq<Digest>, m: nat)
    requires 1 <= m < |leaves|
    ensures var ((half, r), inLeft, other) :=
        (PrefixHalf(leaves, m), m <= Split(|leaves|), Root(sha, PrefixOther(leaves, m)));
      Root(sha, leaves[..m]) == Paired(sha, true, inLeft, Root(sha, half[..r]), other)
  {
    if m <= Split(|leaves|) {
      assert leaves[..m] == Left(leaves)[..m];
    } else {
      RootOfPrefix(sha, leaves, m);
    }
  }

  /** Only power-of-two subtrees are ever covered whole by the old tree. */
  lemma {:induction false} WholeHalfIsPower(leaves: seq<Digest>, m: nat)
    requires 1 <= m < |leaves|
    ensures PrefixHalf(leaves, m).1 == |PrefixHalf(leaves, m).0| ==> IsPowerOfTwo(PrefixHalf(leaves, m).1)
  {
    SplitIsPower(|leaves|);
  }

  lemma {:induction false} ConsistencyProofStep(sha: Hasher, leaves: seq<Digest>, m: nat, complete: bool)
    requires 1 <= m < |leaves|
    ensures var (half, r) := PrefixHalf(leaves, m);
      BuildConsistencyProof(sha, m, leaves, complete)
      == BuildConsistencyProof(sha, r, half, complete && m <= Split(|leaves|)) + [Root(sha, PrefixOther(leaves, m))]
  {
  }

  /** A generated path leads the old reading to the prefix's root and the new one to the root. */
  lemma {:induction false} FollowComplete(
    sha: Hasher, prior: bool, m: nat, leaves: seq<Digest>, seed: Option<Digest>)
    requires 1 <= m <= |leaves| && (m == |leaves| ==> IsPowerOfTwo(m))
    requires seed.Some? && IsPowerOfTwo(m) ==> seed.value == Root(sha, leaves[..m])
    ensures Follow(sha, prior, m, |leaves|, seed, Texts(BuildConsistencyProof(sha, m, leaves, seed.Some?)))
         == Some(Root(sha, if prior then leaves[..m] else leaves))
    decreases |leaves|
  {
    if m == |leaves| {
      assert leaves[..m] == leaves;
      FollowWholePower(sha, prior, m, seed, Texts(BuildConsistencyProof(sha, m, leaves, seed.Some?)));
    } else {
      var (half, r) := PrefixHalf(leaves, m);
      var seed', other := SeedInHalf(|leaves|, m, seed), Root(sha, PrefixOther(leaves, m));
      WholeHalfIsPower(leaves, m);
      PrefixOfPrefixHalf(leaves, m);
      FollowComplete(sha, prior, r, half, seed');
      ConsistencyProofStep(sha, leaves, m, seed.Some?);
      var sub := BuildConsistencyProof(sha, r, half, seed'.Some?);
      TextsSnoc(sub, other);
      FollowByHalves(sha, prior, m, |leaves|, seed, Texts(sub), Sha256(other));
      PrefixHalfSplits(sha, leaves, m);
      PrefixRootSplits(sha, leaves, m);
    }
  }

  lemma {:induction false} PrefixOfPrefixHalf(leaves: seq<Digest>, m: nat)
    requires 1 <= m < |leaves|
    ensures m <= Split(|leaves|) ==> leaves[..m] == PrefixHalf(leaves, m).0[..m]
  {
  }

  /** Only the generated path, over the true old root where that is used, leads to the root. */
  lemma {:induction false} FollowSound(
    sha: Hasher, inputs: set<Bytes>, m: nat, leaves: seq<Digest>, seed: Option<Digest>, path: seq<DigestText>)
    requires CollisionFree(sha, inputs) && RootInputs(sha, leaves) <= inputs
    requires 1 <= m <= |leaves| && (m == |leaves| ==> IsPowerOfTwo(m))
    requires FollowInputs(sha, m, |leaves|, seed, path) <= inputs
    requires Follow(sha, false, m, |leaves|, seed, path) == Some(Root(sha, leaves))
    ensures path == Texts(BuildConsistencyProof(sha, m, leaves, seed.Some?))
    ensures seed.Some? && IsPowerOfTwo(m) ==> seed.value == Root(sha, leaves[..m])
    decreases |leaves|
  {
    if m == |leaves| {
      assert leaves[..m] == leaves;
      FollowWholePower(sha, false, m, seed, path);
    } else {
      if path == [] {
        FollowNeedsPath(sha, false, m, |leaves|, seed);
      }
      var sub, last := path[..|path| - 1], path[|path| - 1];
      assert path == sub + [last];
      FollowSoundStep(sha, inputs, m, leaves, seed, sub, last);
      var (half, r) := PrefixHalf(leaves, m);
      var seed' := SeedInHalf(|leaves|, m, seed);
      WholeHalfIsPower(leaves, m);
      FollowSound(sha, inputs, r, half, seed', sub);
      PrefixOfPrefixHalf(leaves, m);
      ConsistencyProofStep(sha, leaves, m, seed.Some?);
      TextsSnoc(BuildConsistencyProof(sha, r, half, seed'.Some?), last.digest);
      if seed.Some? && IsPowerOfTwo(m) {
        PowerPrefixInLeft(|leaves|, m);
      }
    }
  }

  lemma {:induction false} PowerPrefixInLeft(n: nat, m: nat)
    requires 1 <= m < n && IsPowerOfTwo(m)
    ensures m <= Split(n)
  {
    SplitIsPower(n);
    if Split(n) < m {
      PowersOfTwoNest(Split(n), m);
    }
  }

  lemma {:induction false} FollowSoundStep(
    sha: Hasher, inputs: set<Bytes>, m: nat, leaves: seq<Digest>, seed: Option<Digest>,
    sub: seq<DigestText>, last: DigestText)
    requires CollisionFree(sha, inputs) && RootInputs(sha, leaves) <= inputs
    requires 1 <= m < |leaves|
    requires FollowInputs(sha, m, |leaves|, seed, sub + [last]) <= inputs
    requires Follow(sha, false, m, |leaves|, seed, sub + [last]) == Some(Root(sha, leaves))
    ensures var ((half, r), seed') := (PrefixHalf(leaves, m), SeedInHalf(|leaves|, m, seed));
      && RootInputs(sha, half) <= inputs
      && FollowInputs(sha, r, |half|, seed', sub) <= inputs
      && Follow(sha, false, r, |half|, seed', sub) == Some(Root(sha, half))
    ensures last == Sha256(Root(sha, PrefixOther(leaves, m)))
  {
    PrefixHalfSplits(sha, leaves, m);
    FollowJoinSound(sha, inputs, m, |leaves|, seed, sub, last,
                    Root(sha, PrefixHalf(leaves, m).0), Root(sha, PrefixOther(leaves, m)));
  }

  lemma {:induction false} FollowJoinSound(
    sha: Hasher, inputs: set<Bytes>, m: nat, size: nat, seed: Option<Digest>, sub: seq<DigestText>, last: DigestText,
    top: Digest, other: Digest)
    requires CollisionFree(sha, inputs)
    requires 1 <= m < size
    requires FollowInputs(sha, m, size, seed, sub + [last]) <= inputs
    requires PairedInput(m <= Split(size), top, other) in inputs
    requires Follow(sha, false, m, size, seed, sub + [last]) == Some(Paired(sha, false, m <= Split(size), top, other))
    ensures var (n, r, seed') := (PrefixHalfSize(size, m), PrefixInHalf(size, m), SeedInHalf(size, m, seed));
      && FollowInputs(sha, r, n, seed', sub) <= inputs
      && Follow(sha, false, r, n, seed', sub) == Some(top)
    ensures last == Sha256(other)
  {
    FollowByHalves(sha, false, m, size, seed, sub, last);
    FollowInputsByHalves(sha, m, size, seed, sub, last);
    var half := Follow(sha, false, PrefixInHalf(size, m), PrefixHalfSize(size, m), SeedInHalf(size, m, seed), sub);
    PairInjective(sha, inputs, m <= Split(size), half.value, last.digest, top, other);
  }

  /** Against the root of a leaf list, a consistency claim is accepted exactly when the claimed
      old root is the root of the list's first `oldSize` leaves and the path is the generated
      one, for all sizes. */
  lemma {:induction false} ConsistencyExact(
    sha: Hasher, inputs: set<Bytes>, leaves: seq<Digest>, oldSize: int, oldRoot: DigestText, path: seq<DigestText>)
    requires |leaves| <= MAX_SAFE_INTEGER
    requires CollisionFree(sha, inputs) && RootInputs(sha, leaves) <= inputs
    requires 1 <= oldSize <= |leaves| ==> ConsistencyInputs(sha, oldSize, |leaves|, oldRoot, path) <= inputs
    ensures ConsistencyAccepted(sha, oldSize, |leaves|, oldRoot, Sha256(Root(sha, leaves)), path) <==>
      && 1 <= oldSize <= |leaves|
      && oldRoot == Sha256(Root(sha, leaves[..oldSize]))
      && ConsistencyProof(sha, leaves, oldSize).Value?
      && path == Texts(ConsistencyProof(sha, leaves, oldSize).value)
  {
    if 1 <= oldSize <= |leaves| {
      if oldSize == |leaves| {
        assert leaves[..oldSize] == leaves;
      } else {
        if ConsistencyAccepted(sha, oldSize, |leaves|, oldRoot, Sha256(Root(sha, leaves)), path) {
          FollowSound(sha, inputs, oldSize, leaves, Seed(oldRoot), path);
          FollowComplete(sha, true, oldSize, leaves, Seed(oldRoot));
        }
        ConsistencyComplete(sha, leaves, oldSize);
      }
    }
  }

  /** Every generated consistency proof is accepted, whatever the hash function. */
  lemma {:induction false} ConsistencyComplete(sha: Hasher, leaves: seq<Digest>, oldSize: nat)
    requires 1 <= oldSize <= |leaves| <= MAX_SAFE_INTEGER
    ensures ConsistencyAccepted(
      sha, oldSize, |leaves|, Sha256(Root(sha, leaves[..oldSize])), Sha256(Root(sha, leaves)),
      Texts(ConsistencyProof(sha, leaves, oldSize).value))
  {
    if oldSize == |leaves| {
      assert leaves[..oldSize] == leaves;
    } else {
      FollowComplete(sha, true, oldSize, leaves, Some(Root(sha, leaves[..oldSize])));
      FollowComplete(sha, false, oldSize, leaves, Some(Root(sha, leaves[..oldSize])));
    }
  }
}
