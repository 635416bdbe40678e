/** The RFC 9162 tree of src/audit/merkle.ts: roots and proofs, built by recursion
    on the largest power of two below the size. */
module MerkleTree {
  import opened Hashing

  const MAX_SAFE_INTEGER: int := 0x1F_FFFF_FFFF_FFFF

  /** What a proof builder returns, or the RangeError it throws. */
  datatype Outcome<T> = Value(value: T) | RangeError

  // ---- Powers of two -----------------------------------------------------------------

  predicate IsPowerOfTwo(n: nat)
  {
    n == 1 || (n > 1 && n % 2 == 0 && IsPowerOfTwo(n / 2))
  }

  /** The largest `power * 2^j` below `n`, by doubling. */
  function DoubleBelow(power: nat, n: nat): (k: nat)
    requires 1 <= power < n
    ensures power <= k < n <= 2 * k
    decreases n - power
  {
    if power * 2 < n then DoubleBelow(power * 2, n) else power
  }

  /** The largest power of two below `n`. */
  function Split(n: nat): (k: nat)
    requires n >= 2
    ensures 1 <= k < n <= 2 * k
  {
    DoubleBelow(1, n)
  }

  lemma {:induction false} DoubleBelowIsPower(power: nat, n: nat)
    requires 1 <= power < n && IsPowerOfTwo(power)
    ensures IsPowerOfTwo(DoubleBelow(power, n))
    decreases n - power
  {
    if power * 2 < n {
      DoubleBelowIsPower(power * 2, n);
    }
  }

  lemma {:induction false} SplitIsPower(n: nat)
    requires n >= 2
    ensures IsPowerOfTwo(Split(n))
  {
    DoubleBelowIsPower(1, n);
  }

  lemma {:induction false} PowersOfTwoNest(a: nat, b: nat)
    requires IsPowerOfTwo(a) && IsPowerOfTwo(b) && a < b
    ensures 2 * a <= b
  {
    if a > 1 {
      PowersOfTwoNest(a / 2, b / 2);
    }
  }

  /** Only one power of two lies in [n / 2, n). */
  lemma {:induction false} SplitUnique(n: nat, k: nat)
    requires n >= 2 && IsPowerOfTwo(k) && k < n <= 2 * k
    ensures k == Split(n)
  {
    SplitIsPower(n);
    if k < Split(n) {
      PowersOfTwoNest(k, Split(n));
    } else if Split(n) < k {
      PowersOfTwoNest(Split(n), k);
    }
  }

  /** Halving the size, rounding up, halves its split. */
  lemma {:induction false} SplitHalves(n: nat)
    requires n > 2
    ensures Split(n) == 2 * Split((n + 1) / 2)
  {
    SplitIsPower((n + 1) / 2);
    SplitUnique(n, 2 * Split((n + 1) / 2));
  }

  /** The split of a prefix that reaches past the split is the same split. */
  lemma {:induction false} SplitOfPrefix(n: nat, m: nat)
    requires 2 <= n && Split(n) < m <= n
    ensures Split(m) == Split(n)
  {
    SplitIsPower(n);
    SplitUnique(m, Split(n));
  }

  /** The doubling loop finds the largest power of two below any value above 1, and 1 otherwise. */
  method LargestPowerOfTwoLessThan(value: int) returns (power: nat)
    ensures IsPowerOfTwo(power)
    ensures value >= 2 ==> power == Split(value)
    ensures value >= 2 ==> forall p: nat :: IsPowerOfTwo(p) && p < value ==> p <= power
    ensures value < 2 ==> power == 1
  {
    power := 1;
    while power * 2 < value
      invariant IsPowerOfTwo(power)
      invariant power == 1 || power < value
      decreases value - power
    {
      power := power * 2;
    }
    if value >= 2 {
      SplitUnique(value, power);
      forall p: nat | IsPowerOfTwo(p) && p < value
        ensures p <= power
      {
        if power < p {
          PowersOfTwoNest(power, p);
        }
      }
    }
  }

  // ---- Roots and proofs --------------------------------------------------------------

  function Left(leaves: seq<Digest>): (half: seq<Digest>)
    requires |leaves| >= 2
    ensures |half| == Split(|leaves|)
  {
    leaves[..Split(|leaves|)]
  }

  function Right(leaves: seq<Digest>): (half: seq<Digest>)
    requires |leaves| >= 2
    ensures |half| == |leaves| - Split(|leaves|)
    ensures leaves == Left(leaves) + half
  {
    leaves[Split(|leaves|)..]
  }

  function Root(sha: Hasher, leaves: seq<Digest>): Digest
    decreases |leaves|
  {
    if |leaves| == 0 then sha([])
    else if |leaves| == 1 then LeafHash(sha, leaves[0])
    else NodeHash(sha, Root(sha, Left(leaves)), Root(sha, Right(leaves)))
  }

  /** Every byte string `Root` hashes. */
  function RootInputs(sha: Hasher, leaves: seq<Digest>): set<Bytes>
    decreases |leaves|
  {
    if |leaves| == 0 then {[]}
    else if |leaves| == 1 then {LeafInput(leaves[0])}
    else
      {NodeInput(Root(sha, Left(leaves)), Root(sha, Right(leaves)))}
      + RootInputs(sha, Left(leaves)) + RootInputs(sha, Right(leaves))
  }

  function BuildInclusionProof(sha: Hasher, leaves: seq<Digest>, leafIndex: nat): seq<Digest>
    requires leafIndex < |leaves|
    decreases |leaves|
  {
    if |leaves| == 1 then []
    else if leafIndex < Split(|leaves|) then
      BuildInclusionProof(sha, Left(leaves), leafIndex) + [Root(sha, Right(leaves))]
    else
      BuildInclusionProof(sha, Right(leaves), leafIndex - Split(|leaves|)) + [Root(sha, Left(leaves))]
  }

  function BuildConsistencyProof(sha: Hasher, oldSize: nat, leaves: seq<Digest>, completeSubtree: bool): seq<Digest>
    requires 1 <= oldSize <= |leaves|
    decreases |leaves|
  {
    if oldSize == |leaves| then
      if completeSubtree then [] else [Root(sha, leaves)]
    else if oldSize <= Split(|leaves|) then
      BuildConsistencyProof(sha, oldSize, Left(leaves), completeSubtree) + [Root(sha, Right(leaves))]
    else
      BuildConsistencyProof(sha, oldSize - Split(|leaves|), Right(leaves), false) + [Root(sha, Left(leaves))]
  }

  predicate ValidSize(size: int) {
    0 <= size <= MAX_SAFE_INTEGER
  }

  function InclusionProof(sha: Hasher, leaves: seq<Digest>, leafIndex: int): Outcome<seq<Digest>> {
    if !ValidSize(leafIndex) then RangeError
    else if |leaves| == 0 || leafIndex >= |leaves| then RangeError
    else Value(BuildInclusionProof(sha, leaves, leafIndex))
  }

  function ConsistencyProof(sha: Hasher, leaves: seq<Digest>, oldSize: int): Outcome<seq<Digest>> {
    if !ValidSize(oldSize) then RangeError
    else if oldSize == 0 || oldSize > |leaves| then RangeError
    else if oldSize == |leaves| then Value([])
    else Value(BuildConsistencyProof(sha, oldSize, leaves, true))
  }

  // ---- What a root hashes ------------------------------------------------------------

  /** The bytes of RFC 9162 section 2.1.1: nothing, or a leaf behind 0x00. */
  lemma {:induction false} SmallRootBytes(sha: Hasher, leaf: Digest)
    ensures Root(sha, []) == sha([])
    ensures Root(sha, [leaf]) == sha([0x00] + leaf)
  {
  }

  /** And the roots of a full left tree and of the rest behind 0x01, in this order. */
  lemma {:induction false} RootBytes(sha: Hasher, a: seq<Digest>, b: seq<Digest>)
    requires IsPowerOfTwo(|a|) && 1 <= |b| <= |a|
    ensures Root(sha, a + b) == sha([0x01] + Root(sha, a) + Root(sha, b))
  {
    SplitUnique(|a + b|, |a|);
    assert (a + b)[..|a|] == a && (a + b)[|a|..] == b;
  }

  /** Proofs list the roots of the other halves from the leaf up. */
  lemma {:induction false} InclusionProofDigests(sha: Hasher, a: seq<Digest>, b: seq<Digest>, i: nat)
    requires IsPowerOfTwo(|a|) && 1 <= |b| <= |a| && i < |a| + |b|
    ensures BuildInclusionProof(sha, a + b, i)
         == if i < |a| then BuildInclusionProof(sha, a, i) + [Root(sha, b)]
            else BuildInclusionProof(sha, b, i - |a|) + [Root(sha, a)]
  {
    SplitUnique(|a + b|, |a|);
    assert (a + b)[..|a|] == a && (a + b)[|a|..] == b;
  }

  lemma {:induction false} ConsistencyProofDigests(sha: Hasher, a: seq<Digest>, b: seq<Digest>, m: nat, complete: bool)
    requires IsPowerOfTwo(|a|) && 1 <= |b| <= |a| && 1 <= m <= |a| + |b|
    ensures BuildConsistencyProof(sha, m, a + b, complete)
         == if m == |a| + |b| then (if complete then [] else [Root(sha, a + b)])
            else if m <= |a| then BuildConsistencyProof(sha, m, a, complete) + [Root(sha, b)]
            else BuildConsistencyProof(sha, m - |a|, b, false) + [Root(sha, a)]
  {
    SplitUnique(|a + b|, |a|);
    assert (a + b)[..|a|] == a && (a + b)[|a|..] == b;
  }

  /** There is an inclusion proof for every leaf and a consistency proof for every nonempty prefix,
      and a RangeError for everything else. */
  lemma {:induction false} ProofsExistExactly(sha: Hasher, leaves: seq<Digest>, n: int)
    requires |leaves| <= 9007199254740991
    ensures InclusionProof(sha, leaves, n).Value? <==> 0 <= n < |leaves|
    ensures ConsistencyProof(sha, leaves, n).Value? <==> 1 <= n <= |leaves|
    ensures 0 <= n < |leaves| ==> InclusionProof(sha, leaves, n).value == BuildInclusionProof(sha, leaves, n)
    ensures 1 <= n <= |leaves| ==> ConsistencyProof(sha, leaves, n).value == BuildConsistencyProof(sha, n, leaves, true)
  {
  }

  // ---- Roots determine leaf lists ----------------------------------------------------

  /** The last input `Root` hashes: empty, 33 or 65 bytes for none, one or more leaves. */
  function RootInput(sha: Hasher, leaves: seq<Digest>): (input: Bytes)
    ensures |input| == if |leaves| == 0 then 0 else if |leaves| == 1 then 33 else 65
  {
    if |leaves| == 0 then []
    else if |leaves| == 1 then LeafInput(leaves[0])
    else NodeInput(Root(sha, Left(leaves)), Root(sha, Right(leaves)))
  }

  lemma {:induction false} RootIsHash(sha: Hasher, leaves: seq<Digest>)
    ensures Root(sha, leaves) == sha(RootInput(sha, leaves))
    ensures RootInput(sha, leaves) in RootInputs(sha, leaves)
  {
  }

  /** Different leaf lists, of whatever lengths, have different roots. */
  lemma {:induction false} RootInjective(sha: Hasher, inputs: set<Bytes>, a: seq<Digest>, b: seq<Digest>)
    requires CollisionFree(sha, inputs)
    requires RootInputs(sha, a) <= inputs && RootInputs(sha, b) <= inputs
    requires Root(sha, a) == Root(sha, b)
    ensures a == b
    decreases |a|
  {
    if |a| >= 2 && |b| >= 2 {
      NodeHashInjective(sha, inputs, Root(sha, Left(a)), Root(sha, Right(a)), Root(sha, Left(b)), Root(sha, Right(b)));
      RootInjective(sha, inputs, Left(a), Left(b));
      RootInjective(sha, inputs, Right(a), Right(b));
    } else {
      RootIsHash(sha, a);
      RootIsHash(sha, b);
      if |a| == 1 {
        LeafInputInjective(a[0], b[0]);
      }
    }
  }

  /** A prefix that reaches into the right half shares the whole left half. */
  lemma {:induction false} RootOfPrefix(sha: Hasher, leaves: seq<Digest>, m: nat)
    requires |leaves| >= 2 && Split(|leaves|) < m <= |leaves|
    ensures Root(sha, leaves[..m])
         == NodeHash(sha, Root(sha, Left(leaves)), Root(sha, Right(leaves)[..m - Split(|leaves|)]))
  {
    var k := Split(|leaves|);
    SplitOfPrefix(|leaves|, m);
    assert Left(leaves[..m]) == Left(leaves);
    assert Right(leaves[..m]) == Right(leaves)[..m - k];
  }

  // ---- Proof length ------------------------------------------------------------------

  function Pow2(e: nat): (p: nat)
    ensures IsPowerOfTwo(p)
  {
    if e == 0 then 1 else 2 * Pow2(e - 1)
  }

  /** One more level over a half of the tree keeps the bound of `InclusionProofLength`. */
  lemma {:induction false} LevelBound(n: nat, half: nat, length: nat)
    requires n >= 2 && (half == Split(n) || half == n - Split(n))
    requires Pow2(length) < 2 * half
    requires IsPowerOfTwo(half) ==> Pow2(length) == half
    ensures Pow2(length + 1) < 2 * n
    ensures IsPowerOfTwo(n) ==> Pow2(length + 1) == n
  {
    var k := Split(n);
    SplitIsPower(n);
    if IsPowerOfTwo(n) {
      PowersOfTwoNest(k, n);
    }
    if k < Pow2(length) {
      PowersOfTwoNest(k, Pow2(length));
    }
  }

  /** The half of the tree that holds leaf `i`, and the leaf's index there. */
  function HalfWith(leaves: seq<Digest>, i: nat): (half: (seq<Digest>, nat))
    requires i < |leaves| && |leaves| >= 2
    ensures half.1 < |half.0| < |leaves|
    ensures half.0[half.1] == leaves[i]
    ensures |half.0| == Split(|leaves|) || |half.0| == |leaves| - Split(|leaves|)
  {
    if i < Split(|leaves|) then (Left(leaves), i) else (Right(leaves), i - Split(|leaves|))
  }

  function OtherHalf(leaves: seq<Digest>, i: nat): seq<Digest>
    requires i < |leaves| && |leaves| >= 2
  {
    if i < Split(|leaves|) then Right(leaves) else Left(leaves)
  }

  lemma {:induction false} InclusionProofStep(sha: Hasher, leaves: seq<Digest>, i: nat)
    requires i < |leaves| && |leaves| >= 2
    ensures var (half, j) := HalfWith(leaves, i);
      BuildInclusionProof(sha, leaves, i)
      == BuildInclusionProof(sha, half, j) + [Root(sha, OtherHalf(leaves, i))]
  {
  }

  /** An audit path has at most ceil(log2 n) digests, and exactly log2 n in a full tree. */
  lemma {:induction false} InclusionProofLength(sha: Hasher, leaves: seq<Digest>, i: nat)
    requires i < |leaves|
    ensures Pow2(|BuildInclusionProof(sha, leaves, i)|) < 2 * |leaves|
    ensures IsPowerOfTwo(|leaves|) ==> Pow2(|BuildInclusionProof(sha, leaves, i)|) == |leaves|
    decreases |leaves|
  {
    if |leaves| > 1 {
      var (half, j) := HalfWith(leaves, i);
      InclusionProofLength(sha, half, j);
      InclusionProofStep(sha, leaves, i);
      LevelBound(|leaves|, |half|, |BuildInclusionProof(sha, half, j)|);
    }
  }
}
