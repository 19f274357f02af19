/** The sparse Merkle tree over hashed paths: a key of any length is hashed
    into a 32-byte path, values are byte strings of any length, and the
    store holds the path entry, the leaf record and the node records. */
module LibraryTree {
  import opened Wrappers
  import opened Bytes
  import opened PathBits
  import opened TreeHasher
  import KVStore
  import opened MerklePath
  import MerkleProof

  /** The root digest and the store holding path entries and records. */
  datatype Tree = Tree(root: Bytes, store: KVStore.Store)

  /** A fresh tree over `store`: the root is the empty digest. */
  function New(store: KVStore.Store): (t: Tree)
    ensures t.root == ZeroValue
    ensures t.store == store
  {
    Tree(ZeroValue, store)
  }

  /** The record stored under a leaf digest: two empty digests. */
  const LeafRecord: Bytes := ZeroValue + ZeroValue

  /** The path of `key`: its digest. */
  function PathOf(h: HashFn, key: Bytes): Digest
  {
    DigestOf(h, key)
  }

  /** The leaf digest of `value` at the path of `key`. */
  function LeafOf(h: HashFn, key: Bytes, value: Bytes): Digest
  {
    DigestLeaf(h, PathOf(h, key), value)
  }

  /** The root the update loop computes for `key` and `value`: the leaf
      digest folded through all 256 levels of the path with the empty
      digest as every sibling. */
  function RootAfter(h: HashFn, key: Bytes, value: Bytes): Digest
  {
    Fold(h, PathOf(h, key), LeafOf(h, key, value), ZeroSiblings(Depth), 0)
  }

  /** The node digests an update of `key` to `value` writes records under. */
  ghost function UpdateChain(h: HashFn, key: Bytes, value: Bytes): set<Bytes>
  {
    ChainDigests(h, PathOf(h, key), LeafOf(h, key, value), Depth)
  }

  /** Every preimage an update of `key` to `value` hashes after the path,
      the leaf preimage included. */
  ghost function UpdatePreimages(h: HashFn, key: Bytes, value: Bytes): set<Bytes>
  {
    ChainPreimages(h, PathOf(h, key), LeafPreimage(PathOf(h, key), value), Depth)
  }

  /** Writes `path -> value` and `leaf -> LeafRecord`, then climbs from the
      leaf digest to the root writing each parent's record. The root is
      replaced only when every write succeeded; a refused write ends the
      update early, keeping the writes already made and the old root. */
  function Update(h: HashFn, t: Tree, key: Bytes, value: Bytes): (r: (Tree, Result<(), KVStore.StoreError>))
    ensures r.1.Success? <==>
      && PathOf(h, key) !in t.store.refused
      && LeafOf(h, key, value) !in t.store.refused
      && UpdateChain(h, key, value) !! t.store.refused
    ensures r.1.Success? ==> r.0.root == RootAfter(h, key, value)
    ensures r.1.Failure? ==> r.0.root == t.root
    ensures r.0.store.refused == t.store.refused
    ensures forall k | k != PathOf(h, key) && k != LeafOf(h, key, value) && k !in UpdateChain(h, key, value) ::
      KVStore.Get(r.0.store, k) == KVStore.Get(t.store, k)
    ensures r.1.Success? && PathOf(h, key) != LeafOf(h, key, value) && PathOf(h, key) !in UpdateChain(h, key, value) ==>
      KVStore.Get(r.0.store, PathOf(h, key)) == Some(value)
    ensures r.1.Success? && LeafOf(h, key, value) !in UpdateChain(h, key, value) ==>
      KVStore.Get(r.0.store, LeafOf(h, key, value)) == Some(LeafRecord)
  {
    var path := PathOf(h, key);
    var leaf := DigestLeaf(h, path, value);
    match KVStore.Set(t.store, path, value)
    case Failure(e) => (t, Failure(e))
    case Success(withPath) =>
      match KVStore.Set(withPath, leaf, LeafRecord)
      case Failure(e) => (Tree(t.root, withPath), Failure(e))
      case Success(withLeaf) =>
        var (store, climbed) := Climb(h, path, withLeaf, leaf, Depth);
        match climbed
        case Failure(e) => (Tree(t.root, store), Failure(e))
        case Success(root) => (Tree(root, store), Success(()))
  }

  /** The entry at the path of `key`, read only while the root is not the
      empty digest. */
  function Get(h: HashFn, t: Tree, key: Bytes): (r: Option<Bytes>)
    ensures t.root == ZeroValue ==> r == None
    ensures t.root != ZeroValue ==> r == KVStore.Get(t.store, PathOf(h, key))
  {
    if t.root == ZeroValue then None else KVStore.Get(t.store, PathOf(h, key))
  }

  /** Deletes the entry at the path of `key` and resets the root to the
      empty digest, whatever else the tree held. Node records are left in
      the store. */
  function Remove(h: HashFn, t: Tree, key: Bytes): (r: (Tree, Result<(), KVStore.StoreError>))
    ensures r.1.Success? <==> PathOf(h, key) !in t.store.refused
    ensures r.1.Success? ==> r.0.root == ZeroValue && KVStore.Get(r.0.store, PathOf(h, key)) == None
    ensures r.1.Failure? ==> r.0 == t
    ensures r.0.store.refused == t.store.refused
    ensures forall k | k != PathOf(h, key) :: KVStore.Get(r.0.store, k) == KVStore.Get(t.store, k)
  {
    match KVStore.Remove(t.store, PathOf(h, key))
    case Failure(e) => (t, Failure(e))
    case Success(store) => (Tree(ZeroValue, store), Success(()))
  }

  /** The proof walk from level `i` down: stop at the bottom or on the empty
      digest; otherwise split the current record at half its length, keep
      the half on the path and emit the other as the sibling. */
  function Walk(store: KVStore.Store, path: Digest, current: Bytes, i: nat): (r: seq<Bytes>)
    requires i <= Depth
    ensures |r| <= Depth - i
    ensures current == ZeroValue || i == Depth ==> r == []
    decreases Depth - i
  {
    if i == Depth || current == ZeroValue then []
    else
      var rec := RecordOf(store, current);
      var left, right := rec[..|rec| / 2], rec[|rec| / 2..];
      if Bit(path, i) == 0 then [right] + Walk(store, path, left, i + 1)
      else [left] + Walk(store, path, right, i + 1)
  }

  /** The side nodes for `key`, from the root's level downwards. */
  function GenerateProof(h: HashFn, t: Tree, key: Bytes): (r: seq<Bytes>)
    ensures |r| <= Depth
    ensures t.root == ZeroValue ==> r == []
  {
    Walk(t.store, PathOf(h, key), t.root, 0)
  }

  /** A fresh tree holds nothing and proves nothing. */
  lemma NewTreeIsEmpty(h: HashFn, store: KVStore.Store, key: Bytes)
    ensures Get(h, New(store), key) == None
    ensures GenerateProof(h, New(store), key) == []
  {
  }

  /** The root after a successful update is the same whatever tree it was
      applied to. */
  lemma RootIndependentOfHistory(h: HashFn, t1: Tree, t2: Tree, key: Bytes, value: Bytes)
    requires Update(h, t1, key, value).1.Success?
    requires Update(h, t2, key, value).1.Success?
    ensures Update(h, t1, key, value).0.root == Update(h, t2, key, value).0.root
  {
  }

  /** Hypothesis used: NonZeroOn(h, UpdatePreimages(h, key, value)). The
      root after a successful update is not the empty digest. */
  lemma RootNonZeroAfterUpdate(h: HashFn, t: Tree, key: Bytes, value: Bytes)
    requires Update(h, t, key, value).1.Success?
    requires NonZeroOn(h, UpdatePreimages(h, key, value))
    ensures Update(h, t, key, value).0.root != ZeroValue
  {
    ChainLevelsNonZero(h, PathOf(h, key), LeafPreimage(PathOf(h, key), value), Depth, 0);
  }

  /** Hypotheses used: NonZeroOn(h, UpdatePreimages(h, key, value)), and
      the path of `key` is neither the leaf digest nor a node digest the
      update writes. After a successful update, reading `key` yields
      `value`, whatever it held before. */
  lemma UpdateThenGet(h: HashFn, t: Tree, key: Bytes, value: Bytes)
    requires Update(h, t, key, value).1.Success?
    requires NonZeroOn(h, UpdatePreimages(h, key, value))
    requires PathOf(h, key) != LeafOf(h, key, value) && PathOf(h, key) !in UpdateChain(h, key, value)
    ensures Get(h, Update(h, t, key, value).0, key) == Some(value)
  {
    RootNonZeroAfterUpdate(h, t, key, value);
  }

  /** After a successful removal every key reads as absent, not only the
      removed one, because the root is reset. */
  lemma RemoveEmptiesTree(h: HashFn, t: Tree, key: Bytes, other: Bytes)
    requires Remove(h, t, key).1.Success?
    ensures Get(h, Remove(h, t, key).0, other) == None
    ensures GenerateProof(h, Remove(h, t, key).0, other) == []
  {
  }

  /** A root with no record reads as two empty children: the walk emits one
      empty sibling and stops. */
  lemma MissingRecordGivesOneZeroSibling(h: HashFn, t: Tree, key: Bytes)
    requires t.root != ZeroValue
    requires KVStore.Get(t.store, t.root) == None
    ensures GenerateProof(h, t, key) == [ZeroValue]
  {
    var rec := RecordOf(t.store, t.root);
    assert rec[..DigestLength] == ZeroValue;
    assert rec[DigestLength..] == ZeroValue;
    assert Walk(t.store, PathOf(h, key), ZeroValue, 1) == [];
    assert [ZeroValue] + [] == [ZeroValue];
  }

  /** One step of the proof walk at a node whose record is `below` and the
      empty digest, on the sides `bitBelow` selects: following `below`
      emits the empty digest and continues below it. */
  lemma WalkStep(store: KVStore.Store, path: Digest, current: Bytes, below: Digest, i: nat)
    requires i < Depth && current != ZeroValue
    requires KVStore.Get(store, current) == Some(NodeRecord(Bit(path, i), below, ZeroValue))
    ensures Walk(store, path, current, i) == [ZeroValue] + Walk(store, path, below, i + 1)
  {
    SplitConcat(below, ZeroValue);
    SplitConcat(ZeroValue, below);
  }

  /** The proof walk along the chain an update wrote: each record's
      off-path half is the empty digest and its on-path half the next
      level. */
  lemma {:induction false} WalkAlongChain(h: HashFn, store: KVStore.Store, path: Digest, leaf: Digest, i: nat)
    requires i <= Depth
    requires ChainStored(h, store, path, leaf, i, Depth)
    ensures Walk(store, path, Fold(h, path, leaf, ZeroSiblings(Depth), i), i) == ZeroSiblings(Depth - i)
    decreases Depth - i
  {
    if i < Depth {
      var zs := ZeroSiblings(Depth);
      ChainLevel(h, store, path, leaf, i);
      WalkAlongChain(h, store, path, leaf, i + 1);
      WalkStep(store, path, Fold(h, path, leaf, zs, i), Fold(h, path, leaf, zs, i + 1), i);
      ZeroSiblingsCons(Depth - (i + 1));
    }
  }

  /** Hypotheses used: CollisionFreeOn and NonZeroOn over
      UpdatePreimages(h, key, value). Right after a successful update, the
      proof for `key` is 256 empty digests and it verifies `value` against
      the new root. */
  lemma ProofAfterUpdate(h: HashFn, t: Tree, key: Bytes, value: Bytes)
    requires Update(h, t, key, value).1.Success?
    requires CollisionFreeOn(h, UpdatePreimages(h, key, value))
    requires NonZeroOn(h, UpdatePreimages(h, key, value))
    ensures GenerateProof(h, Update(h, t, key, value).0, key) == ZeroSiblings(Depth)
    ensures MerkleProof.Verify(ZeroSiblings(Depth), Update(h, t, key, value).0.root, key, value, h) == Success(true)
  {
    var path, leaf := PathOf(h, key), LeafOf(h, key, value);
    var after := Update(h, t, key, value).0;
    var withPath := KVStore.Set(t.store, path, value).value;
    var withLeaf := KVStore.Set(withPath, leaf, LeafRecord).value;
    assert after.store == Climb(h, path, withLeaf, leaf, Depth).0;
    ClimbStoresChain(h, path, withLeaf, LeafPreimage(path, value));
    WalkAlongChain(h, after.store, path, leaf, 0);
  }

  /** Hypotheses used: those of `ProofAfterUpdate`, and CollisionFreeOn over
      the node preimages of the replays of `value` and `other` and over
      their leaf preimages. The proof generated right after an update
      rejects every value but the one written. */
  lemma ProofAfterUpdateRejectsOtherValues(h: HashFn, t: Tree, key: Bytes, value: Bytes, other: Bytes)
    requires Update(h, t, key, value).1.Success?
    requires CollisionFreeOn(h, UpdatePreimages(h, key, value))
    requires NonZeroOn(h, UpdatePreimages(h, key, value))
    requires value != other
    requires CollisionFreeOn(h, FoldPreimages(h, PathOf(h, key), LeafOf(h, key, value), ZeroSiblings(Depth))
                              + FoldPreimages(h, PathOf(h, key), LeafOf(h, key, other), ZeroSiblings(Depth)))
    requires CollisionFreeOn(h, {LeafPreimage(PathOf(h, key), value), LeafPreimage(PathOf(h, key), other)})
    ensures MerkleProof.Verify(GenerateProof(h, Update(h, t, key, value).0, key), Update(h, t, key, value).0.root, key, other, h)
         == Success(false)
  {
    var root := Update(h, t, key, value).0.root;
    ProofAfterUpdate(h, t, key, value);
    MerkleProof.RejectsOtherValues(ZeroSiblings(Depth), root, key, value, other, h);
  }
}
