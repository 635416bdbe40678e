/** Byte strings, SHA-256 digests as an uninterpreted function, and the two
    domain-separated inputs of the RFC 9162 tree. */
module Hashing {

  type Bytes = seq<bv8>

  type Digest = d: Bytes | |d| == 32 witness seq(32, _ => 0)

  /** SHA-256 is a parameter of every statement. */
  type Hasher = Bytes -> Digest

  /** A digest as it arrives in JSON: `sha256:` and 64 lower-case hex digits, or some other text. */
  datatype DigestText = Sha256(digest: Digest) | Malformed(text: string)

  function LeafInput(entryDigest: Digest): Bytes {
    [0x00] + entryDigest
  }

  function NodeInput(left: Digest, right: Digest): Bytes {
    [0x01] + left + right
  }

  function LeafHash(sha: Hasher, entryDigest: Digest): Digest {
    sha(LeafInput(entryDigest))
  }

  function NodeHash(sha: Hasher, left: Digest, right: Digest): Digest {
    sha(NodeInput(left, right))
  }

  function Texts(digests: seq<Digest>): (texts: seq<DigestText>)
    ensures |texts| == |digests|
  {
    seq(|digests|, i requires 0 <= i < |digests| => Sha256(digests[i]))
  }

  /** No two different byte strings among `inputs` share a digest. Assumed only of
      the finitely many inputs that the computations at hand really hash. */
  ghost predicate CollisionFree(sha: Hasher, inputs: set<Bytes>) {
    forall x, y :: x in inputs && y in inputs && sha(x) == sha(y) ==> x == y
  }

  lemma {:induction false} NodeInputInjective(l: Digest, r: Digest, l': Digest, r': Digest)
    requires NodeInput(l, r) == NodeInput(l', r')
    ensures l == l' && r == r'
  {
    var x, y := NodeInput(l, r), NodeInput(l', r');
    assert l == x[1..33] == y[1..33] == l';
    assert r == x[33..] == y[33..] == r';
  }

  lemma {:induction false} LeafInputInjective(d: Digest, d': Digest)
    requires LeafInput(d) == LeafInput(d')
    ensures d == d'
  {
    assert d == LeafInput(d)[1..] == LeafInput(d')[1..] == d';
  }

  /** A collision-free hash takes node inputs apart. */
  lemma {:induction false} NodeHashInjective(
    sha: Hasher, inputs: set<Bytes>, l: Digest, r: Digest, l': Digest, r': Digest)
    requires CollisionFree(sha, inputs)
    requires NodeInput(l, r) in inputs && NodeInput(l', r') in inputs
    requires NodeHash(sha, l, r) == NodeHash(sha, l', r')
    ensures l == l' && r == r'
  {
    NodeInputInjective(l, r, l', r');
  }

  lemma {:induction false} LeafHashInjective(sha: Hasher, inputs: set<Bytes>, d: Digest, d': Digest)
    requires CollisionFree(sha, inputs)
    requires LeafInput(d) in inputs && LeafInput(d') in inputs
    requires LeafHash(sha, d) == LeafHash(sha, d')
    ensures d == d'
  {
    LeafInputInjective(d, d');
  }

  lemma {:induction false} TextsSnoc(digests: seq<Digest>, last: Digest)
    ensures Texts(digests + [last]) == Texts(digests) + [Sha256(last)]
  {
  }
}
