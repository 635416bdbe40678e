/** How the iterative verifiers of src/audit/merkle.ts read a path, level by level, and why
    that agrees with the recursion on the largest power of two. */
module MerkleClimb {
  import opened Wrappers
  import opened Hashing
  import opened MerkleTree

  /** Reads an audit path from node `i` of a row of `size` nodes to the top. A node is hashed
      with its neighbour, or promoted unhashed when it is an unpaired last node. The `prior`
      reading is that of a tree that ends at node `i`: it has no right neighbours, so it skips
      their digests. */
  function Climb(sha: Hasher, prior: bool, size: nat, i: nat, node: Digest, path: seq<DigestText>): Option<Digest>
    requires i < size
    decreases size
  {
    if size == 1 then
      if path == [] then Some(node) else None
    else if i % 2 == 0 && i == size - 1 then
      Climb(sha, prior, (size + 1) / 2, i / 2, node, path)
    else if path == [] || path[0].Malformed? then None
    else
      Climb(sha, prior, (size + 1) / 2, i / 2, Paired(sha, prior, i % 2 == 0, node, path[0].digest), path[1..])
  }

  /** A node under its parent: `isLeft` says on which side of its neighbour it stands. */
  function Paired(sha: Hasher, prior: bool, isLeft: bool, node: Digest, other: Digest): Digest {
    if !isLeft then NodeHash(sha, other, node)
    else if prior then node
    else NodeHash(sha, node, other)
  }

  function PairedInput(isLeft: bool, node: Digest, other: Digest): Bytes {
    if isLeft then NodeInput(node, other) else NodeInput(other, node)
  }

  /** Every byte string `Climb` hashes when it does not skip. */
  function ClimbInputs(sha: Hasher, size: nat, i: nat, node: Digest, path: seq<DigestText>): set<Bytes>
    requires i < size
    decreases size
  {
    if size == 1 then {}
    else if i % 2 == 0 && i == size - 1 then
      ClimbInputs(sha, (size + 1) / 2, i / 2, node, path)
    else if path == [] || path[0].Malformed? then {}
    else
      {PairedInput(i % 2 == 0, node, path[0].digest)}
      + ClimbInputs(sha, (size + 1) / 2, i / 2, Paired(sha, false, i % 2 == 0, node, path[0].digest), path[1..])
  }

  lemma {:induction false} ClimbNeedsPath(sha: Hasher, prior: bool, size: nat, i: nat, node: Digest)
    requires i < size && size >= 2
    ensures Climb(sha, prior, size, i, node, []) == None
    decreases size
  {
    if i % 2 == 0 && i == size - 1 {
      ClimbNeedsPath(sha, prior, (size + 1) / 2, i / 2, node);
    }
  }

  // ---- Climbing by halves ------------------------------------------------------------

  /** The top of one half of a tree, joined with the digest for the other half. */
  function Joined(sha: Hasher, prior: bool, isLeft: bool, half: Option<Digest>, other: DigestText): Option<Digest> {
    if half.None? || other.Malformed? then None
    else Some(Paired(sha, prior, isLeft, half.value, other.digest))
  }

  /** Climbs only the half, split at `k`, that holds node `i`. */
  function ClimbHalf(
    sha: Hasher, prior: bool, size: nat, k: nat, i: nat, node: Digest, path: seq<DigestText>): Option<Digest>
    requires i < size && k < size
  {
    if i < k then Climb(sha, prior, k, i, node, path) else Climb(sha, prior, size - k, i - k, node, path)
  }

  function ClimbHalfInputs(sha: Hasher, size: nat, k: nat, i: nat, node: Digest, path: seq<DigestText>): set<Bytes>
    requires i < size && k < size
  {
    if i < k then ClimbInputs(sha, k, i, node, path) else ClimbInputs(sha, size - k, i - k, node, path)
  }

  lemma {:induction false} ClimbHalfNeedsPath(sha: Hasher, prior: bool, size: nat, k: nat, i: nat, node: Digest)
    requires i < size && size > 2 && k == Split(size) && k % 2 == 0
    requires i % 2 == 1 || i != size - 1
    ensures ClimbHalf(sha, prior, size, k, i, node, []) == None
  {
    if i < k {
      ClimbNeedsPath(sha, prior, k, i, node);
    } else {
      ClimbNeedsPath(sha, prior, size - k, i - k, node);
    }
  }

  /** One level up, the half that holds `i` loses a level too. */
  lemma {:induction false} ClimbHalfPromotes(
    sha: Hasher, prior: bool, size: nat, h: nat, i: nat, node: Digest, path: seq<DigestText>)
    requires size > 2 && 1 <= h && 2 * h < size && i % 2 == 0 && i == size - 1
    ensures ClimbHalf(sha, prior, size, 2 * h, i, node, path)
         == ClimbHalf(sha, prior, (size + 1) / 2, h, i / 2, node, path)
    ensures ClimbHalfInputs(sha, size, 2 * h, i, node, path)
         == ClimbHalfInputs(sha, (size + 1) / 2, h, i / 2, node, path)
  {
    assert (size - 2 * h + 1) / 2 == (size + 1) / 2 - h && (i - 2 * h) / 2 == i / 2 - h;
  }

  lemma {:induction false} ClimbHalfPairs(
    sha: Hasher, prior: bool, size: nat, h: nat, i: nat, node: Digest, path: seq<DigestText>)
    requires i < size && size > 2 && 1 <= h && 2 * h < size && (i % 2 == 1 || i != size - 1)
    requires path != []
    ensures ClimbHalf(sha, prior, size, 2 * h, i, node, path) ==
      if path[0].Malformed? then None
      else ClimbHalf(sha, prior, (size + 1) / 2, h, i / 2,
                     Paired(sha, prior, i % 2 == 0, node, path[0].digest), path[1..])
  {
    if i >= 2 * h {
      var r := i - 2 * h;
      assert (size - 2 * h + 1) / 2 == (size + 1) / 2 - h && r / 2 == i / 2 - h && r % 2 == i % 2;
    }
  }

  lemma {:induction false} ClimbHalfInputsPair(
    sha: Hasher, size: nat, h: nat, i: nat, node: Digest, path: seq<DigestText>)
    requires i < size && size > 2 && 1 <= h && 2 * h < size && (i % 2 == 1 || i != size - 1)
    requires path != [] && path[0].Sha256?
    ensures ClimbHalfInputs(sha, size, 2 * h, i, node, path) ==
      {PairedInput(i % 2 == 0, node, path[0].digest)}
      + ClimbHalfInputs(sha, (size + 1) / 2, h, i / 2,
                        Paired(sha, false, i % 2 == 0, node, path[0].digest), path[1..])
  {
    if i >= 2 * h {
      var r := i - 2 * h;
      assert (size - 2 * h + 1) / 2 == (size + 1) / 2 - h && r / 2 == i / 2 - h && r % 2 == i % 2;
    }
  }

  /** Climbing a tree is climbing the half that holds the node, then hashing with the last
      digest of the path. This ties the shifted positions of the loop to the largest power of
      two of the recursion. */
  lemma {:induction false} ClimbSplits(
    sha: Hasher, prior: bool, size: nat, k: nat, i: nat, node: Digest, path: seq<DigestText>, last: DigestText)
    requires i < size && size >= 2 && k == Split(size)
    ensures Climb(sha, prior, size, i, node, path + [last])
         == Joined(sha, prior, i < k, ClimbHalf(sha, prior, size, k, i, node, path), last)
    decreases size
  {
    if size == 2 {
      ClimbSplitsInTwo(sha, prior, i, node, path, last);
    } else {
      var up, h := (size + 1) / 2, Split((size + 1) / 2);
      SplitHalves(size);
      if i % 2 == 0 && i == size - 1 {
        ClimbHalfPromotes(sha, prior, size, h, i, node, path);
        ClimbSplits(sha, prior, up, h, i / 2, node, path, last);
      } else if path == [] {
        ClimbHalfNeedsPath(sha, prior, size, k, i, node);
        if last.Sha256? {
          assert (path + [last])[1..] == [];
          ClimbNeedsPath(sha, prior, up, i / 2, Paired(sha, prior, i % 2 == 0, node, last.digest));
        }
      } else {
        ClimbHalfPairs(sha, prior, size, h, i, node, path);
        assert (path + [last])[1..] == path[1..] + [last];
        if path[0].Sha256? {
          ClimbSplits(sha, prior, up, h, i / 2, Paired(sha, prior, i % 2 == 0, node, path[0].digest), path[1..], last);
        }
      }
    }
  }

  lemma {:induction false} ClimbSplitsInTwo(
    sha: Hasher, prior: bool, i: nat, node: Digest, path: seq<DigestText>, last: DigestText)
    requires i < 2
    ensures Climb(sha, prior, 2, i, node, path + [last])
         == Joined(sha, prior, i < 1, ClimbHalf(sha, prior, 2, 1, i, node, path), last)
  {
    if path != [] {
      assert (path + [last])[1..] == path[1..] + [last];
    }
  }

  /** A successful climb hashes what the climb of the half hashes, and their join. */
  lemma {:induction false} ClimbInputsSplit(
    sha: Hasher, size: nat, k: nat, i: nat, node: Digest, path: seq<DigestText>, last: DigestText)
    requires i < size && size >= 2 && k == Split(size)
    requires last.Sha256? && ClimbHalf(sha, false, size, k, i, node, path).Some?
    ensures ClimbHalfInputs(sha, size, k, i, node, path) <= ClimbInputs(sha, size, i, node, path + [last])
    ensures PairedInput(i < k, ClimbHalf(sha, false, size, k, i, node, path).value, last.digest)
         in ClimbInputs(sha, size, i, node, path + [last])
    decreases size
  {
    if size > 2 {
      var up, h := (size + 1) / 2, Split((size + 1) / 2);
      SplitHalves(size);
      if i % 2 == 0 && i == size - 1 {
        ClimbHalfPromotes(sha, false, size, h, i, node, path);
        ClimbInputsSplit(sha, up, h, i / 2, node, path, last);
      } else if path == [] {
        ClimbHalfNeedsPath(sha, false, size, k, i, node);
      } else {
        ClimbHalfPairs(sha, false, size, h, i, node, path);
        ClimbHalfInputsPair(sha, size, h, i, node, path);
        assert (path + [last])[1..] == path[1..] + [last];
        ClimbInputsSplit(sha, up, h, i / 2, Paired(sha, false, i % 2 == 0, node, path[0].digest), path[1..], last);
      }
    }
  }

  function HalfSize(size: nat, i: nat): (half: nat)
    requires i < size && size >= 2
    ensures 1 <= half < size
  {
    if i < Split(size) then Split(size) else size - Split(size)
  }

  function HalfIndex(size: nat, i: nat): (j: nat)
    requires i < size && size >= 2
    ensures j < HalfSize(size, i)
  {
    if i < Split(size) then i else i - Split(size)
  }

  lemma {:induction false} ClimbByHalves(
    sha: Hasher, prior: bool, size: nat, i: nat, node: Digest, path: seq<DigestText>, last: DigestText)
    requires i < size && size >= 2
    ensures Climb(sha, prior, size, i, node, path + [last])
         == Joined(sha, prior, i < Split(size), Climb(sha, prior, HalfSize(size, i), HalfIndex(size, i), node, path), last)
  {
    ClimbSplits(sha, prior, size, Split(size), i, node, path, last);
  }

  lemma {:induction false} ClimbInputsByHalves(
    sha: Hasher, size: nat, i: nat, node: Digest, path: seq<DigestText>, last: DigestText)
    requires i < size && size >= 2
    requires last.Sha256? && Climb(sha, false, HalfSize(size, i), HalfIndex(size, i), node, path).Some?
    ensures ClimbInputs(sha, HalfSize(size, i), HalfIndex(size, i), node, path)
         <= ClimbInputs(sha, size, i, node, path + [last])
    ensures PairedInput(i < Split(size), Climb(sha, false, HalfSize(size, i), HalfIndex(size, i), node, path).value, last.digest)
         in ClimbInputs(sha, size, i, node, path + [last])
  {
    ClimbInputsSplit(sha, size, Split(size), i, node, path, last);
  }

  // ---- Consistency paths -------------------------------------------------------------

  /** Reads a consistency path: climbs to the row in which the first `m` of `size` nodes end in
      an unpaired node, which is the whole old tree, named by `seed`, or else the first digest
      of the path, and climbs on from there. */
  function Follow(
    sha: Hasher, prior: bool, m: nat, size: nat, seed: Option<Digest>, path: seq<DigestText>): Option<Digest>
    requires 1 <= m <= size
    decreases size
  {
    if m % 2 == 0 then Follow(sha, prior, m / 2, (size + 1) / 2, seed, path)
    else if m == 1 && seed.Some? then Climb(sha, prior, size, 0, seed.value, path)
    else if path == [] || path[0].Malformed? then None
    else Climb(sha, prior, size, m - 1, path[0].digest, path[1..])
  }

  /** Every byte string the new reading of `Follow` hashes. */
  function FollowInputs(sha: Hasher, m: nat, size: nat, seed: Option<Digest>, path: seq<DigestText>): set<Bytes>
    requires 1 <= m <= size
    decreases size
  {
    if m % 2 == 0 then FollowInputs(sha, m / 2, (size + 1) / 2, seed, path)
    else if m == 1 && seed.Some? then ClimbInputs(sha, size, 0, seed.value, path)
    else if path == [] || path[0].Malformed? then {}
    else ClimbInputs(sha, size, m - 1, path[0].digest, path[1..])
  }

  lemma {:induction false} FollowNeedsPath(sha: Hasher, prior: bool, m: nat, size: nat, seed: Option<Digest>)
    requires 1 <= m < size
    ensures Follow(sha, prior, m, size, seed, []) == None
    decreases size
  {
    if m % 2 == 0 {
      FollowNeedsPath(sha, prior, m / 2, (size + 1) / 2, seed);
    } else if m == 1 && seed.Some? {
      ClimbNeedsPath(sha, prior, size, 0, seed.value);
    }
  }

  /** The whole of a power-of-two tree is its seed, or one digest. */
  lemma {:induction false} FollowWholePower(
    sha: Hasher, prior: bool, m: nat, seed: Option<Digest>, path: seq<DigestText>)
    requires IsPowerOfTwo(m)
    ensures Follow(sha, prior, m, m, seed, path) ==
      if seed.Some? then (if path == [] then seed else None)
      else if |path| == 1 && path[0].Sha256? then Some(path[0].digest) else None
    decreases m
  {
    if m > 1 {
      FollowWholePower(sha, prior, m / 2, seed, path);
    }
  }

  function FollowHalf(
    sha: Hasher, prior: bool, m: nat, size: nat, k: nat, seed: Option<Digest>, path: seq<DigestText>): Option<Digest>
    requires 1 <= m < size && k < size
  {
    if m <= k then Follow(sha, prior, m, k, seed, path) else Follow(sha, prior, m - k, size - k, None, path)
  }

  function FollowHalfInputs(
    sha: Hasher, m: nat, size: nat, k: nat, seed: Option<Digest>, path: seq<DigestText>): set<Bytes>
    requires 1 <= m < size && k < size
  {
    if m <= k then FollowInputs(sha, m, k, seed, path) else FollowInputs(sha, m - k, size - k, None, path)
  }

  lemma {:induction false} FollowHalfDoubles(
    sha: Hasher, prior: bool, m: nat, size: nat, h: nat, seed: Option<Digest>, path: seq<DigestText>)
    requires 1 <= m < size && m % 2 == 0 && 1 <= h && 2 * h < size
    ensures FollowHalf(sha, prior, m, size, 2 * h, seed, path)
         == FollowHalf(sha, prior, m / 2, (size + 1) / 2, h, seed, path)
    ensures FollowHalfInputs(sha, m, size, 2 * h, seed, path)
         == FollowHalfInputs(sha, m / 2, (size + 1) / 2, h, seed, path)
  {
    if m > 2 * h {
      var r := m - 2 * h;
      assert (size - 2 * h + 1) / 2 == (size + 1) / 2 - h && r / 2 == m / 2 - h && r % 2 == 0;
    }
  }

  /** Below an odd prefix size, the halves climb from the same seed. */
  lemma {:induction false} FollowHalfClimbs(
    sha: Hasher, prior: bool, m: nat, size: nat, k: nat, seed: Option<Digest>, path: seq<DigestText>)
    requires 1 <= m < size && m % 2 == 1 && k < size && (k % 2 == 0 || m <= k)
    ensures FollowHalf(sha, prior, m, size, k, seed, path) ==
      if m == 1 && m <= k && seed.Some? then ClimbHalf(sha, prior, size, k, 0, seed.value, path)
      else if path == [] || path[0].Malformed? then None
      else ClimbHalf(sha, prior, size, k, m - 1, path[0].digest, path[1..])
    ensures FollowHalfInputs(sha, m, size, k, seed, path) ==
      if m == 1 && m <= k && seed.Some? then ClimbHalfInputs(sha, size, k, 0, seed.value, path)
      else if path == [] || path[0].Malformed? then {}
      else ClimbHalfInputs(sha, size, k, m - 1, path[0].digest, path[1..])
  {
  }

  /** Following a consistency path is following it in the half where the old tree ends, then
      hashing with the last digest of the path. */
  lemma {:induction false} FollowSplits(
    sha: Hasher, prior: bool, m: nat, size: nat, k: nat, seed: Option<Digest>, path: seq<DigestText>, last: DigestText)
    requires 1 <= m < size && k == Split(size)
    ensures Follow(sha, prior, m, size, seed, path + [last])
         == Joined(sha, prior, m <= k, FollowHalf(sha, prior, m, size, k, seed, path), last)
    decreases size
  {
    if m % 2 == 0 {
      var h := Split((size + 1) / 2);
      SplitHalves(size);
      FollowHalfDoubles(sha, prior, m, size, h, seed, path);
      FollowSplits(sha, prior, m / 2, (size + 1) / 2, h, seed, path, last);
    } else {
      if size > 2 {
        SplitHalves(size);
      }
      FollowHalfClimbs(sha, prior, m, size, k, seed, path);
      if m == 1 && seed.Some? {
        ClimbSplits(sha, prior, size, k, 0, seed.value, path, last);
      } else if path == [] {
        if last.Sha256? {
          assert (path + [last])[1..] == [];
          ClimbNeedsPath(sha, prior, size, m - 1, last.digest);
        }
      } else if path[0].Sha256? {
        assert (path + [last])[1..] == path[1..] + [last];
        ClimbSplits(sha, prior, size, k, m - 1, path[0].digest, path[1..], last);
      }
    }
  }

  lemma {:induction false} FollowInputsSplit(
    sha: Hasher, m: nat, size: nat, k: nat, seed: Option<Digest>, path: seq<DigestText>, last: DigestText)
    requires 1 <= m < size && k == Split(size)
    requires last.Sha256? && FollowHalf(sha, false, m, size, k, seed, path).Some?
    ensures FollowHalfInputs(sha, m, size, k, seed, path) <= FollowInputs(sha, m, size, seed, path + [last])
    ensures PairedInput(m <= k, FollowHalf(sha, false, m, size, k, seed, path).value, last.digest)
         in FollowInputs(sha, m, size, seed, path + [last])
    decreases size
  {
    if m % 2 == 0 {
      var h := Split((size + 1) / 2);
      SplitHalves(size);
      FollowHalfDoubles(sha, false, m, size, h, seed, path);
      FollowInputsSplit(sha, m / 2, (size + 1) / 2, h, seed, path, last);
    } else {
      if size > 2 {
        SplitHalves(size);
      }
      FollowHalfClimbs(sha, false, m, size, k, seed, path);
      if m == 1 && seed.Some? {
        ClimbInputsSplit(sha, size, k, 0, seed.value, path, last);
      } else {
        assert (path + [last])[1..] == path[1..] + [last];
        ClimbInputsSplit(sha, size, k, m - 1, path[0].digest, path[1..], last);
      }
    }
  }

  function PrefixHalfSize(size: nat, m: nat): (half: nat)
    requires 1 <= m < size
    ensures 1 <= half < size
  {
    if m <= Split(size) then Split(size) else size - Split(size)
  }

  function PrefixInHalf(size: nat, m: nat): (r: nat)
    requires 1 <= m < size
    ensures 1 <= r <= PrefixHalfSize(size, m)
  {
    if m <= Split(size) then m else m - Split(size)
  }

  function SeedInHalf(size: nat, m: nat, seed: Option<Digest>): Option<Digest>
    requires 1 <= m < size
  {
    if m <= Split(size) then seed else None
  }

  lemma {:induction false} FollowByHalves(
    sha: Hasher, prior: bool, m: nat, size: nat, seed: Option<Digest>, path: seq<DigestText>, last: DigestText)
    requires 1 <= m < size
    ensures Follow(sha, prior, m, size, seed, path + [last])
         == Joined(sha, prior, m <= Split(size),
                   Follow(sha, prior, PrefixInHalf(size, m), PrefixHalfSize(size, m), SeedInHalf(size, m, seed), path),
                   last)
  {
    FollowSplits(sha, prior, m, size, Split(size), seed, path, last);
  }

  lemma {:induction false} FollowInputsByHalves(
    sha: Hasher, m: nat, size: nat, seed: Option<Digest>, path: seq<DigestText>, last: DigestText)
    requires 1 <= m < size && last.Sha256?
    requires Follow(sha, false, PrefixInHalf(size, m), PrefixHalfSize(size, m), SeedInHalf(size, m, seed), path).Some?
    ensures FollowInputs(sha, PrefixInHalf(size, m), PrefixHalfSize(size, m), SeedInHalf(size, m, seed), path)
         <= FollowInputs(sha, m, size, seed, path + [last])
    ensures var half := Follow(
        sha, false, PrefixInHalf(size, m), PrefixHalfSize(size, m), SeedInHalf(size, m, seed), path).value;
      PairedInput(m <= Split(size), half, last.digest) in FollowInputs(sha, m, size, seed, path + [last])
  {
    FollowInputsSplit(sha, m, size, Split(size), seed, path, last);
  }
}
