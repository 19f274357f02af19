/** Verification of a proof for the tree over hashed paths: the key is
    hashed into a path, and the side nodes, which may be of any length, are
    replayed from the leaf digest up to a candidate root. */
module MerkleProof {
  import opened Wrappers
  import opened Bytes
  import opened TreeHasher
  import opened MerklePath

  /** Replays `proof` above the leaf digest of `value` at the path of `key`,
      last side node first, and compares the result with `root`. More than
      256 side nodes index past the path's last byte and panic. The result
      depends only on the arguments. */
  function Verify(proof: seq<Bytes>, root: Bytes, key: Bytes, value: Bytes, h: HashFn): (r: Result<bool, Panic>)
    ensures r.Failure? <==> |proof| > Depth
    ensures r.Success? ==>
      (r.value <==> Fold(h, DigestOf(h, key), DigestLeaf(h, DigestOf(h, key), value), proof, 0) == root)
  {
    var path := DigestOf(h, key);
    var leaf := DigestLeaf(h, path, value);
    if |proof| > Depth then Failure(Panic("index out of bounds"))
    else Success(Replay(h, path, leaf, proof) == root)
  }

  /** With no side nodes the leaf digest itself must be the root. */
  lemma EmptyProofComparesLeaf(root: Bytes, key: Bytes, value: Bytes, h: HashFn)
    ensures Verify([], root, key, value, h) == Success(DigestLeaf(h, DigestOf(h, key), value) == root)
  {
  }

  /** Hypotheses used: CollisionFreeOn over the node preimages of both
      replays, and over the two leaf preimages. A proof that verifies one
      value for a key rejects every other value. */
  lemma RejectsOtherValues(proof: seq<Bytes>, root: Bytes, key: Bytes, v1: Bytes, v2: Bytes, h: HashFn)
    requires Verify(proof, root, key, v1, h) == Success(true)
    requires v1 != v2
    requires CollisionFreeOn(h, FoldPreimages(h, DigestOf(h, key), DigestLeaf(h, DigestOf(h, key), v1), proof)
                              + FoldPreimages(h, DigestOf(h, key), DigestLeaf(h, DigestOf(h, key), v2), proof))
    requires CollisionFreeOn(h, {LeafPreimage(DigestOf(h, key), v1), LeafPreimage(DigestOf(h, key), v2)})
    ensures Verify(proof, root, key, v2, h) == Success(false)
  {
    var path := DigestOf(h, key);
    DistinctValuesDistinctLeaves(h, path, v1, v2);
    DistinctLeavesDistinctFolds(h, path, DigestLeaf(h, path, v1), DigestLeaf(h, path, v2), proof, 0);
  }
}
