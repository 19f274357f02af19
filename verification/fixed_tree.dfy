/** The sparse Merkle tree over 32-byte keys and 32-byte values: the root
    digest plus a store shared by key entries (key -> value) and node records
    (node digest -> left ‖ right). */
module FixedTree {
  import opened Wrappers
  import opened Bytes
  import opened PathBits
  import opened TreeHasher
  import KVStore
  import opened MerklePath

  /** The root digest and the store holding key entries and node records. */
  datatype Tree = Tree(root: Digest, store: KVStore.Store)

  /** A fresh tree over `store`: the root is the empty digest. */
  function New(store: KVStore.Store): (t: Tree)
    ensures t.root == ZeroValue
    ensures t.store == store
  {
    Tree(ZeroValue, store)
  }

  /** The root the update loop computes for `key` and `value`: the leaf
      digest folded through all 256 levels with the empty digest as every
      sibling. Nothing about the tree's previous state enters it. */
  function RootAfter(h: HashFn, key: Digest, value: Digest): Digest
  {
    Fold(h, key, DigestLeaf(h, key, value), ZeroSiblings(Depth), 0)
  }

  /** The node digests an update of `key` to `value` writes records under. */
  ghost function UpdateChain(h: HashFn, key: Digest, value: Digest): set<Bytes>
  {
    ChainDigests(h, key, DigestLeaf(h, key, value), Depth)
  }

  /** Every preimage an update of `key` to `value` hashes, the leaf
      preimage included. */
  ghost function UpdatePreimages(h: HashFn, key: Digest, value: Digest): set<Bytes>
  {
    ChainPreimages(h, key, LeafPreimage(key, value), Depth)
  }

  /** Writes `key -> value`, then climbs from the leaf digest to the root,
      writing each parent's record. The root is replaced only when every
      write succeeded; a refused write ends the update early, keeping the
      writes already made and the old root. */
  function Update(h: HashFn, t: Tree, key: Digest, value: Digest): (r: (Tree, Result<(), KVStore.StoreError>))
    ensures r.1.Success? <==> key !in t.store.refused && UpdateChain(h, key, value) !! t.store.refused
    ensures r.1.Success? ==> r.0.root == RootAfter(h, key, value)
    ensures r.1.Failure? ==> r.0.root == t.root
    ensures r.0.store.refused == t.store.refused
    ensures forall k | k != key && k !in UpdateChain(h, key, value) :: KVStore.Get(r.0.store, k) == KVStore.Get(t.store, k)
    ensures key !in t.store.refused && key !in UpdateChain(h, key, value) ==> KVStore.Get(r.0.store, key) == Some(value)
  {
    var leaf := DigestLeaf(h, key, value);
    match KVStore.Set(t.store, key, value)
    case Failure(e) => (t, Failure(e))
    case Success(written) =>
      var (store, climbed) := Climb(h, key, written, leaf, Depth);
      match climbed
      case Failure(e) => (Tree(t.root, store), Failure(e))
      case Success(root) => (Tree(root, store), Success(()))
  }

  /** The value stored under `key`, read only while the root is not the
      empty digest, and only when the entry is exactly 32 bytes long. */
  function Get(t: Tree, key: Digest): (r: Option<Digest>)
    ensures t.root == ZeroValue ==> r == None
    ensures r.Some? ==> KVStore.Get(t.store, key) == Some(r.value)
    ensures t.root != ZeroValue && KVStore.Get(t.store, key).Some? && |KVStore.Get(t.store, key).value| == DigestLength ==> r.Some?
  {
    if t.root == ZeroValue then None
    else
      match KVStore.Get(t.store, key)
      case None => None
      case Some(v) => if |v| == DigestLength then Some(v) else None
  }

  /** Whether every record the proof walk reads, from `current` at level
      `i` down along `key`, is 64 bytes long: the walk reads the record of
      each non-empty digest above the bottom and goes on with the half on
      the path. */
  ghost predicate WalkReadsRecords(store: KVStore.Store, key: Digest, current: Digest, i: nat)
    requires i <= Depth
    decreases Depth - i
  {
    i == Depth || current == ZeroValue ||
    var rec := RecordOf(store, current);
    |rec| == 2 * DigestLength &&
    WalkReadsRecords(store, key, if Bit(key, i) == 0 then rec[..DigestLength] else rec[DigestLength..], i + 1)
  }

  /** The proof walk from level `i` down: stop at the bottom or on the empty
      digest; otherwise split the current record into halves, keep the half
      on the path and emit the other as the sibling. A record that is not 64
      bytes long makes the split or the conversion to a digest panic. */
  function Walk(store: KVStore.Store, key: Digest, current: Digest, i: nat): (r: Result<seq<Digest>, Panic>)
    requires i <= Depth
    ensures r.Success? ==> |r.value| <= Depth - i
    ensures current == ZeroValue || i == Depth ==> r == Success([])
    ensures i < Depth && current != ZeroValue && |RecordOf(store, current)| != 2 * DigestLength ==> r.Failure?
    ensures r.Failure? <==> !WalkReadsRecords(store, key, current, i)
    decreases Depth - i
  {
    if i == Depth || current == ZeroValue then Success([])
    else
      var rec := RecordOf(store, current);
      if |rec| < DigestLength then Failure(Panic("split index out of range"))
      else if |rec| != 2 * DigestLength then Failure(Panic("slice is not 32 bytes"))
      else
        var left, right := rec[..DigestLength], rec[DigestLength..];
        var (sibling, next) := if Bit(key, i) == 0 then (right, left) else (left, right);
        match Walk(store, key, next, i + 1)
        case Failure(p) => Failure(p)
        case Success(rest) => Success([sibling] + rest)
  }

  /** The side nodes for `key`, from the root's level downwards. */
  function GetProof(t: Tree, key: Digest): (r: Result<seq<Digest>, Panic>)
    ensures r.Success? ==> |r.value| <= Depth
    ensures t.root == ZeroValue ==> r == Success([])
    ensures r.Failure? <==> !WalkReadsRecords(t.store, key, t.root, 0)
  {
    Walk(t.store, key, t.root, 0)
  }

  /** Replays `proof` from the leaf digest of `key` and `value`, last side
      node first, and compares the result with the root. More than 256 side
      nodes index past the key's last byte and panic. */
  function VerifyProof(h: HashFn, t: Tree, key: Digest, value: Digest, proof: seq<Digest>): (r: Result<bool, Panic>)
    ensures r.Failure? <==> |proof| > Depth
    ensures r.Success? ==> (r.value <==> Fold(h, key, DigestLeaf(h, key, value), proof, 0) == t.root)
  {
    if |proof| > Depth then Failure(Panic("index out of bounds"))
    else Success(Replay(h, key, DigestLeaf(h, key, value), proof) == t.root)
  }

  /** A fresh tree holds nothing and proves nothing. */
  lemma NewTreeIsEmpty(store: KVStore.Store, key: Digest)
    ensures Get(New(store), key) == None
    ensures GetProof(New(store), key) == Success([])
  {
  }

  /** The root after a successful update is the same whatever tree it was
      applied to: earlier updates leave no trace in it, and repeating an
      update reproduces the root. */
  lemma RootIndependentOfHistory(h: HashFn, t1: Tree, t2: Tree, key: Digest, value: Digest)
    requires Update(h, t1, key, value).1.Success?
    requires Update(h, t2, key, value).1.Success?
    ensures Update(h, t1, key, value).0.root == Update(h, t2, key, value).0.root
  {
  }

  /** Applying the same update twice leaves the root the first one set. */
  lemma UpdateIdempotentRoot(h: HashFn, t: Tree, key: Digest, value: Digest)
    requires t.store.refused == {}
    ensures var once := Update(h, t, key, value).0;
      && Update(h, t, key, value).1.Success?
      && Update(h, once, key, value).1.Success?
      && Update(h, once, key, value).0.root == once.root
  {
  }

  /** Hypothesis used: NonZeroOn(h, UpdatePreimages(h, key, value)). The
      root after a successful update is not the empty digest. */
  lemma RootNonZeroAfterUpdate(h: HashFn, t: Tree, key: Digest, value: Digest)
    requires Update(h, t, key, value).1.Success?
    requires NonZeroOn(h, UpdatePreimages(h, key, value))
    ensures Update(h, t, key, value).0.root != ZeroValue
  {
    ChainLevelsNonZero(h, key, LeafPreimage(key, value), Depth, 0);
  }

  /** Hypotheses used: NonZeroOn(h, UpdatePreimages(h, key, value)), and
      `key` is none of the node digests the update writes. After a
      successful update, reading `key` yields `value`. */
  lemma UpdateThenGet(h: HashFn, t: Tree, key: Digest, value: Digest)
    requires Update(h, t, key, value).1.Success?
    requires NonZeroOn(h, UpdatePreimages(h, key, value))
    requires key !in UpdateChain(h, key, value)
    ensures Get(Update(h, t, key, value).0, key) == Some(value)
  {
    RootNonZeroAfterUpdate(h, t, key, value);
  }

  /** Hypotheses used: NonZeroOn(h, UpdatePreimages(h, key, value)), and
      `other` is none of the node digests the update writes. A key that read
      as `v` before an update of a different key still reads as `v`. */
  lemma UpdateKeepsOtherKeys(h: HashFn, t: Tree, key: Digest, value: Digest, other: Digest, v: Digest)
    requires Update(h, t, key, value).1.Success?
    requires NonZeroOn(h, UpdatePreimages(h, key, value))
    requires other != key && other !in UpdateChain(h, key, value)
    requires Get(t, other) == Some(v)
    ensures Get(Update(h, t, key, value).0, other) == Some(v)
  {
    RootNonZeroAfterUpdate(h, t, key, value);
  }

  /** One step of the proof walk at a node whose record is `below` and the
      empty digest, on the sides `bitBelow` selects: following `below`
      emits the empty digest and continues below it; turning the other way
      emits `below` and stops in the empty subtree. */
  lemma WalkStep(store: KVStore.Store, key: Digest, current: Digest, below: Digest, bitBelow: byte, i: nat)
    requires i < Depth && current != ZeroValue
    requires KVStore.Get(store, current) == Some(NodeRecord(bitBelow, below, ZeroValue))
    ensures (Bit(key, i) == 0) == (bitBelow == 0) && Walk(store, key, below, i + 1).Success? ==>
      Walk(store, key, current, i) == Success([ZeroValue] + Walk(store, key, below, i + 1).value)
    ensures (Bit(key, i) == 0) != (bitBelow == 0) ==> Walk(store, key, current, i) == Success([below])
  {
    SplitConcat(below, ZeroValue);
    SplitConcat(ZeroValue, below);
    assert Walk(store, key, ZeroValue, i + 1) == Success([]);
    assert [below] + [] == [below];
  }

  /** The proof walk along the chain an update wrote: when every level from
      `i` down holds its record and none is the empty digest, each record's
      off-path half is the empty digest and its on-path half the next
      level. */
  lemma {:induction false} WalkAlongChain(h: HashFn, store: KVStore.Store, key: Digest, leaf: Digest, i: nat)
    requires i <= Depth
    requires ChainStored(h, store, key, leaf, i, Depth)
    ensures Walk(store, key, Fold(h, key, leaf, ZeroSiblings(Depth), i), i) == Success(ZeroSiblings(Depth - i))
    decreases Depth - i
  {
    if i < Depth {
      ChainLevel(h, store, key, leaf, i);
      WalkAlongChain(h, store, key, leaf, i + 1);
      WalkChainLevel(store, key, Fold(h, key, leaf, ZeroSiblings(Depth), i), Fold(h, key, leaf, ZeroSiblings(Depth), i + 1), i);
    }
  }

  /** One level of `WalkAlongChain`: a stored chain record whose off-path
      half is the empty digest adds one zero sibling to the walk below it. */
  lemma WalkChainLevel(store: KVStore.Store, key: Digest, current: Digest, below: Digest, i: nat)
    requires i < Depth && current != ZeroValue
    requires KVStore.Get(store, current) == Some(NodeRecord(Bit(key, i), below, ZeroValue))
    requires Walk(store, key, below, i + 1) == Success(ZeroSiblings(Depth - (i + 1)))
    ensures Walk(store, key, current, i) == Success(ZeroSiblings(Depth - i))
  {
    WalkOnPath(store, key, current, below, Bit(key, i), i, ZeroSiblings(Depth - (i + 1)));
    ZeroSiblingsCons(Depth - (i + 1));
    assert ZeroSiblings(Depth - i) == [ZeroValue] + ZeroSiblings(Depth - (i + 1));
  }

  /** A walk that turns the same way as a stored record's child pushes the
      record's empty half and continues from the child. */
  lemma WalkOnPath(store: KVStore.Store, key: Digest, current: Digest, below: Digest, bitBelow: byte, i: nat, rest: seq<Digest>)
    requires i < Depth && current != ZeroValue
    requires KVStore.Get(store, current) == Some(NodeRecord(bitBelow, below, ZeroValue))
    requires (Bit(key, i) == 0) == (bitBelow == 0)
    requires Walk(store, key, below, i + 1) == Success(rest)
    ensures Walk(store, key, current, i) == Success([ZeroValue] + rest)
  {
    WalkStep(store, key, current, below, bitBelow, i);
  }

  /** Hypotheses used: CollisionFreeOn and NonZeroOn over
      UpdatePreimages(h, key, value). After a successful update every level
      of the chain it wrote holds its record, none of them overwritten by a
      later write of the same update, and none is the empty digest. */
  lemma UpdateStoresChain(h: HashFn, t: Tree, key: Digest, value: Digest)
    requires Update(h, t, key, value).1.Success?
    requires CollisionFreeOn(h, UpdatePreimages(h, key, value))
    requires NonZeroOn(h, UpdatePreimages(h, key, value))
    ensures ChainStored(h, Update(h, t, key, value).0.store, key, DigestLeaf(h, key, value), 0, Depth)
  {
    var written := KVStore.Set(t.store, key, value).value;
    assert Update(h, t, key, value).0.store == Climb(h, key, written, DigestLeaf(h, key, value), Depth).0;
    ClimbStoresChain(h, key, written, LeafPreimage(key, value));
  }

  /** Hypotheses used: CollisionFreeOn and NonZeroOn over
      UpdatePreimages(h, key, value). Right after a successful update, the
      proof for `key` is 256 empty digests and it verifies `value`. */
  lemma ProofAfterUpdate(h: HashFn, t: Tree, key: Digest, value: Digest)
    requires Update(h, t, key, value).1.Success?
    requires CollisionFreeOn(h, UpdatePreimages(h, key, value))
    requires NonZeroOn(h, UpdatePreimages(h, key, value))
    ensures GetProof(Update(h, t, key, value).0, key) == Success(ZeroSiblings(Depth))
    ensures VerifyProof(h, Update(h, t, key, value).0, key, value, ZeroSiblings(Depth)) == Success(true)
  {
    UpdateStoresChain(h, t, key, value);
    WalkAlongChain(h, Update(h, t, key, value).0.store, key, DigestLeaf(h, key, value), 0);
  }

  /** Hypotheses used: CollisionFreeOn over the node preimages of both
      replays, and over the two leaf preimages. A proof that verifies one
      value for a key rejects every other value: one proof, key and root
      accept at most one value. */
  lemma VerifyRejectsOtherValues(h: HashFn, t: Tree, key: Digest, v1: Digest, v2: Digest, proof: seq<Digest>)
    requires VerifyProof(h, t, key, v1, proof) == Success(true)
    requires v1 != v2
    requires CollisionFreeOn(h, FoldPreimages(h, key, DigestLeaf(h, key, v1), proof)
                              + FoldPreimages(h, key, DigestLeaf(h, key, v2), proof))
    requires CollisionFreeOn(h, {LeafPreimage(key, v1), LeafPreimage(key, v2)})
    ensures VerifyProof(h, t, key, v2, proof) == Success(false)
  {
    DistinctValuesDistinctLeaves(h, key, v1, v2);
    DistinctLeavesDistinctFolds(h, key, DigestLeaf(h, key, v1), DigestLeaf(h, key, v2), proof, 0);
  }

  /** A root with no record reads as two empty children: the walk emits one
      empty sibling and stops. */
  lemma MissingRecordGivesOneZeroSibling(t: Tree, key: Digest)
    requires t.root != ZeroValue
    requires KVStore.Get(t.store, t.root) == None
    ensures GetProof(t, key) == Success([ZeroValue])
  {
    var rec := RecordOf(t.store, t.root);
    assert rec[..DigestLength] == ZeroValue;
    assert rec[DigestLength..] == ZeroValue;
    assert Walk(t.store, key, ZeroValue, 1) == Success([]);
    assert |rec| == 2 * DigestLength;
    assert Walk(t.store, key, t.root, 0) == Success([ZeroValue] + []);
    assert [ZeroValue] + [] == [ZeroValue];
  }

  /** The side nodes the walk yields for a key `other` in a tree whose last
      update wrote the chain of `key` above `leaf`: empty digests down to
      level `d`, the first bit where the keys part, then the chain's digest
      one level below the fork. */
  function StrayProof(h: HashFn, key: Digest, leaf: Digest, d: nat): (proof: seq<Digest>)
    requires d < Depth
    ensures |proof| == d + 1
    ensures forall j | 0 <= j < d :: proof[j] == ZeroValue
    ensures proof[d] == Fold(h, key, leaf, ZeroSiblings(Depth), d + 1)
  {
    ZeroSiblings(d) + [Fold(h, key, leaf, ZeroSiblings(Depth), d + 1)]
  }

  /** The proof walk for a key `other` that follows `key`'s chain down to
      level `d` and turns off it there, into the empty subtree. */
  lemma {:induction false} WalkToFork(h: HashFn, store: KVStore.Store, key: Digest, leaf: Digest, other: Digest, d: nat, i: nat)
    requires i <= d < Depth
    requires forall j | i <= j < d :: Bit(other, j) == Bit(key, j)
    requires Bit(other, d) != Bit(key, d)
    requires ChainStored(h, store, key, leaf, i, Depth)
    ensures Walk(store, other, Fold(h, key, leaf, ZeroSiblings(Depth), i), i)
         == Success(ZeroSiblings(d - i) + [Fold(h, key, leaf, ZeroSiblings(Depth), d + 1)])
    decreases d - i
  {
    var zs := ZeroSiblings(Depth);
    var current, below := Fold(h, key, leaf, zs, i), Fold(h, key, leaf, zs, i + 1);
    var last := [Fold(h, key, leaf, zs, d + 1)];
    ChainLevel(h, store, key, leaf, i);
    if i == d {
      WalkOffPath(store, other, current, below, Bit(key, i), i);
    } else {
      WalkToFork(h, store, key, leaf, other, d, i + 1);
      WalkZerosThenLast(store, other, current, below, Bit(key, i), i, d - i, last);
    }
  }

  /** At the fork the walk turns into the record's empty half: the proof
      ends with the on-path child as the only remaining side node. */
  lemma WalkOffPath(store: KVStore.Store, key: Digest, current: Digest, below: Digest, bitBelow: byte, i: nat)
    requires i < Depth && current != ZeroValue
    requires KVStore.Get(store, current) == Some(NodeRecord(bitBelow, below, ZeroValue))
    requires Bit(key, i) != bitBelow && (bitBelow == 0 || bitBelow == 1)
    ensures Walk(store, key, current, i) == Success(ZeroSiblings(0) + [below])
  {
    WalkStep(store, key, current, below, bitBelow, i);
    assert ZeroSiblings(0) + [below] == [below];
  }

  /** Above the fork each level adds one empty digest in front of the
      side nodes below it. */
  lemma WalkZerosThenLast(store: KVStore.Store, key: Digest, current: Digest, below: Digest, bitBelow: byte, i: nat, n: nat, last: seq<Digest>)
    requires i < Depth && current != ZeroValue && n > 0
    requires KVStore.Get(store, current) == Some(NodeRecord(bitBelow, below, ZeroValue))
    requires Bit(key, i) == bitBelow
    requires Walk(store, key, below, i + 1) == Success(ZeroSiblings(n - 1) + last)
    ensures Walk(store, key, current, i) == Success(ZeroSiblings(n) + last)
  {
    WalkOnPath(store, key, current, below, bitBelow, i, ZeroSiblings(n - 1) + last);
    ZeroSiblingsThenLast(n, last);
  }

  /** Peeling the first empty digest off `n` empty digests followed by
      `last`. */
  lemma ZeroSiblingsThenLast(n: nat, last: seq<Digest>)
    requires n > 0
    ensures ZeroSiblings(n) + last == [ZeroValue] + (ZeroSiblings(n - 1) + last)
  {
    assert ZeroSiblings(n) == [ZeroValue] + ZeroSiblings(n - 1);
  }

  /** The replay of a stray proof above a non-empty leaf of `other` never
      meets `key`'s chain: at the fork its preimage holds the leaf where the
      chain's holds the empty digest, and above the fork distinct children
      give distinct preimages. The last requirement is what collision
      freedom provides. */
  lemma {:induction false} StrayReplayMissesChain(h: HashFn, key: Digest, leaf: Digest, other: Digest, leaf1: Digest, d: nat, j: nat)
    requires j <= d < Depth
    requires forall x | j <= x < d :: Bit(other, x) == Bit(key, x)
    requires Bit(other, d) != Bit(key, d)
    requires leaf1 != ZeroValue
    requires forall x {:trigger NodeInputAt(h, other, leaf1, StrayProof(h, key, leaf, d), x)}
      | j <= x <= d && NodeInputAt(h, other, leaf1, StrayProof(h, key, leaf, d), x) != NodeInputAt(h, key, leaf, ZeroSiblings(Depth), x) ::
      Fold(h, other, leaf1, StrayProof(h, key, leaf, d), x) != Fold(h, key, leaf, ZeroSiblings(Depth), x)
    ensures Fold(h, other, leaf1, StrayProof(h, key, leaf, d), j) != Fold(h, key, leaf, ZeroSiblings(Depth), j)
    decreases d - j
  {
    var stray, zs := StrayProof(h, key, leaf, d), ZeroSiblings(Depth);
    if j == d {
      ForkInputsDiffer(Bit(other, d), leaf1, Fold(h, key, leaf, zs, d + 1), Bit(key, d));
      assert NodeInputAt(h, other, leaf1, stray, j) != NodeInputAt(h, key, leaf, zs, j);
    } else {
      StrayReplayMissesChain(h, key, leaf, other, leaf1, d, j + 1);
      DifferentChildDifferentInput(Bit(key, j), Fold(h, other, leaf1, stray, j + 1), Fold(h, key, leaf, zs, j + 1), ZeroValue);
      assert NodeInputAt(h, other, leaf1, stray, j) != NodeInputAt(h, key, leaf, zs, j);
    }
  }

  /** Hypotheses used: CollisionFreeOn and NonZeroOn over the update's
      preimages, NonZeroOn over the leaf preimage of `other` and `v`, and
      CollisionFreeOn over the node preimages of both replays. After an
      update of `key`, the proof the tree yields for any other key is the
      stray proof, and it verifies no value: only the last key written can
      be proved. */
  lemma OnlyLastKeyVerifies(h: HashFn, t: Tree, key: Digest, value: Digest, other: Digest, v: Digest)
    requires Update(h, t, key, value).1.Success?
    requires other != key
    requires NonZeroOn(h, UpdatePreimages(h, key, value))
    requires NonZeroOn(h, {LeafPreimage(other, v)})
    requires CollisionFreeOn(h, UpdatePreimages(h, key, value)
      + FoldPreimages(h, other, DigestLeaf(h, other, v), StrayProof(h, key, DigestLeaf(h, key, value), FirstDifferingBit(other, key))))
    ensures var after := Update(h, t, key, value).0;
      var proof := StrayProof(h, key, DigestLeaf(h, key, value), FirstDifferingBit(other, key));
      && GetProof(after, other) == Success(proof)
      && VerifyProof(h, after, other, v, proof) == Success(false)
  {
    var leaf := DigestLeaf(h, key, value);
    var d := FirstDifferingBit(other, key);
    var pre := UpdatePreimages(h, key, value) + FoldPreimages(h, other, DigestLeaf(h, other, v), StrayProof(h, key, leaf, d));
    CollisionFreeOnSubset(h, UpdatePreimages(h, key, value), pre);
    ProofForOtherKey(h, t, key, value, other);
    StrayProofRejected(h, key, leaf, other, v, d, pre);
  }

  /** Hypotheses used: CollisionFreeOn and NonZeroOn over
      UpdatePreimages(h, key, value). After an update of `key`, the proof the
      tree yields for any other key is the stray proof. */
  lemma ProofForOtherKey(h: HashFn, t: Tree, key: Digest, value: Digest, other: Digest)
    requires Update(h, t, key, value).1.Success?
    requires other != key
    requires CollisionFreeOn(h, UpdatePreimages(h, key, value))
    requires NonZeroOn(h, UpdatePreimages(h, key, value))
    ensures GetProof(Update(h, t, key, value).0, other)
         == Success(StrayProof(h, key, DigestLeaf(h, key, value), FirstDifferingBit(other, key)))
  {
    var after := Update(h, t, key, value).0;
    UpdateStoresChain(h, t, key, value);
    WalkFromChainRoot(h, after.store, key, DigestLeaf(h, key, value), other);
  }

  /** The whole walk for `other` from the root of a stored chain of `key`. */
  lemma WalkFromChainRoot(h: HashFn, store: KVStore.Store, key: Digest, leaf: Digest, other: Digest)
    requires other != key
    requires ChainStored(h, store, key, leaf, 0, Depth)
    ensures Walk(store, other, Fold(h, key, leaf, ZeroSiblings(Depth), 0), 0)
         == Success(StrayProof(h, key, leaf, FirstDifferingBit(other, key)))
  {
    WalkToFork(h, store, key, leaf, other, FirstDifferingBit(other, key), 0);
  }

  /** Hypotheses used: NonZeroOn over the leaf preimage of `other` and `v`,
      and CollisionFreeOn over the node preimages of both replays. The stray
      proof replayed above the leaf of `other` and `v` does not reach the
      root of `key`'s chain. */
  lemma StrayProofRejected(h: HashFn, key: Digest, leaf: Digest, other: Digest, v: Digest, d: nat, pre: set<Bytes>)
    requires d < Depth
    requires forall x | 0 <= x < d :: Bit(other, x) == Bit(key, x)
    requires Bit(other, d) != Bit(key, d)
    requires NonZeroOn(h, {LeafPreimage(other, v)})
    requires FoldPreimages(h, key, leaf, ZeroSiblings(Depth)) <= pre
    requires FoldPreimages(h, other, DigestLeaf(h, other, v), StrayProof(h, key, leaf, d)) <= pre
    requires CollisionFreeOn(h, pre)
    ensures Fold(h, other, DigestLeaf(h, other, v), StrayProof(h, key, leaf, d), 0) != Fold(h, key, leaf, ZeroSiblings(Depth), 0)
  {
    var leaf1 := DigestLeaf(h, other, v);
    var stray, zs := StrayProof(h, key, leaf, d), ZeroSiblings(Depth);
    forall x | 0 <= x <= d && NodeInputAt(h, other, leaf1, stray, x) != NodeInputAt(h, key, leaf, zs, x)
      ensures Fold(h, other, leaf1, stray, x) != Fold(h, key, leaf, zs, x)
    {
      LevelIsHashOfInput(h, other, leaf1, stray, x);
      LevelIsHashOfInput(h, key, leaf, zs, x);
      CollisionFreeContrapositive(h, pre, NodeInputAt(h, other, leaf1, stray, x), NodeInputAt(h, key, leaf, zs, x));
    }
    assert LeafPreimage(other, v) in {LeafPreimage(other, v)};
    StrayReplayMissesChain(h, key, leaf, other, leaf1, d, 0);
  }
}
