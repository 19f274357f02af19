/** The tree hasher: the plain digest, the domain-separated leaf and node
    digests, and the all-zero digest that stands for an empty subtree.

    The cryptographic hash (SHA-256 in the source) is not modelled: every
    operation takes it as a parameter `h`, an arbitrary function from byte
    strings to 32-byte digests. The properties a real hash is trusted to have
    are stated as explicit hypotheses over FINITE sets of preimages, and every
    lemma that needs one names it in its `requires`:
      - CollisionFreeOn(h, S): `h` does not collide on the preimages in S;
      - NonZeroOn(h, S): `h` never yields the all-zero digest on S.
    (A 32-byte-output function cannot be injective on all inputs, so the
    hypotheses are deliberately local to the preimages a computation uses.) */
module TreeHasher {
  import opened Bytes

  /** A hash function with a 32-byte output. */
  type HashFn = Bytes -> Digest

  /** Domain-separation prefix of leaf preimages. */
  const LeafPrefix: byte := 0x00

  /** Domain-separation prefix of internal-node preimages. */
  const NodePrefix: byte := 0x01

  /** The empty-subtree digest, the same constant at every depth: as many
      zero bytes as the hash outputs. */
  const ZeroValue: Digest := Zeros(DigestLength)

  /** The bytes hashed for a leaf: `0x00 ‖ path ‖ value`. */
  function LeafPreimage(path: Bytes, value: Bytes): (pre: Bytes)
    ensures |pre| == 1 + |path| + |value|
    ensures pre[0] == LeafPrefix
    ensures pre[1..1 + |path|] == path && pre[1 + |path|..] == value
  {
    [LeafPrefix] + path + value
  }

  /** The bytes hashed for an internal node: `0x01 ‖ left ‖ right`. */
  function NodePreimage(left: Bytes, right: Bytes): (pre: Bytes)
    ensures |pre| == 1 + |left| + |right|
    ensures pre[0] == NodePrefix
    ensures pre[1..1 + |left|] == left && pre[1 + |left|..] == right
  {
    [NodePrefix] + left + right
  }

  /** `TreeHasher::digest`: the plain hash of its input. */
  function DigestOf(h: HashFn, data: Bytes): Digest
  {
    h(data)
  }

  /** `digest_leaf`. */
  function DigestLeaf(h: HashFn, path: Bytes, value: Bytes): Digest
  {
    h(LeafPreimage(path, value))
  }

  /** `digest_node`. */
  function DigestNode(h: HashFn, left: Bytes, right: Bytes): Digest
  {
    h(NodePreimage(left, right))
  }

  /** Hypothesis: `h` maps distinct members of `pre` to distinct digests. */
  ghost predicate CollisionFreeOn(h: HashFn, pre: set<Bytes>)
  {
    forall a, b | a in pre && b in pre && h(a) == h(b) :: a == b
  }

  /** Hypothesis: `h` yields no all-zero digest on `pre`. */
  ghost predicate NonZeroOn(h: HashFn, pre: set<Bytes>)
  {
    forall a | a in pre :: h(a) != ZeroValue
  }

  /** A hash collision-free on a set is collision-free on its subsets. */
  lemma CollisionFreeOnSubset(h: HashFn, small: set<Bytes>, big: set<Bytes>)
    requires small <= big && CollisionFreeOn(h, big)
    ensures CollisionFreeOn(h, small)
  {
  }

  /** A leaf preimage is never a node preimage: they differ in their first
      byte. */
  lemma DomainSeparation(path: Bytes, value: Bytes, left: Bytes, right: Bytes)
    ensures LeafPreimage(path, value) != NodePreimage(left, right)
  {
    assert LeafPreimage(path, value)[0] != NodePreimage(left, right)[0];
  }

  /** Leaf preimages over paths of one length determine path and value. */
  lemma LeafPreimageInjective(p1: Bytes, v1: Bytes, p2: Bytes, v2: Bytes)
    requires |p1| == |p2|
    requires LeafPreimage(p1, v1) == LeafPreimage(p2, v2)
    ensures p1 == p2 && v1 == v2
  {
  }

  /** Node preimages with left children of one length determine both
      children. */
  lemma NodePreimageInjective(l1: Bytes, r1: Bytes, l2: Bytes, r2: Bytes)
    requires |l1| == |l2|
    requires NodePreimage(l1, r1) == NodePreimage(l2, r2)
    ensures l1 == l2 && r1 == r2
  {
  }

  /** Without a collision between the two preimages, a leaf digest never
      equals a node digest. */
  lemma LeafDigestIsNotNodeDigest(h: HashFn, path: Bytes, value: Bytes, left: Bytes, right: Bytes)
    requires CollisionFreeOn(h, {LeafPreimage(path, value), NodePreimage(left, right)})
    ensures DigestLeaf(h, path, value) != DigestNode(h, left, right)
  {
    DomainSeparation(path, value, left, right);
  }

  /** Without a collision between the preimages, equal leaf digests for one
      path mean equal values. */
  lemma LeafDigestDeterminesValue(h: HashFn, path: Bytes, v1: Bytes, v2: Bytes)
    requires CollisionFreeOn(h, {LeafPreimage(path, v1), LeafPreimage(path, v2)})
    requires DigestLeaf(h, path, v1) == DigestLeaf(h, path, v2)
    ensures v1 == v2
  {
    LeafPreimageInjective(path, v1, path, v2);
  }

  /** Hypothesis used: CollisionFreeOn over the two leaf preimages.
      Different values under one path have different leaf digests. */
  lemma DistinctValuesDistinctLeaves(h: HashFn, path: Bytes, v1: Bytes, v2: Bytes)
    requires CollisionFreeOn(h, {LeafPreimage(path, v1), LeafPreimage(path, v2)})
    requires v1 != v2
    ensures DigestLeaf(h, path, v1) != DigestLeaf(h, path, v2)
  {
    assert LeafPreimage(path, v1)[1 + |path|..] != LeafPreimage(path, v2)[1 + |path|..];
  }
}
