/** The leaf-to-root computation shared by every tree variant: combining a
    digest with a sibling at one level, folding a list of siblings into a
    root, and the update loop that climbs 256 levels with the empty digest as
    every sibling, writing each parent's record into the store. */
module MerklePath {
  import opened Wrappers
  import opened Bytes
  import opened PathBits
  import opened TreeHasher
  import opened KVStore

  /** The number of levels between the root and a leaf: one per bit of a
      32-byte path. */
  const Depth: nat := 256

  /** The parent of `current` and `sibling` at a level whose path bit is
      `bit`: the current digest is the left child on 0 and the right child
      on 1. */
  function Parent(h: HashFn, bit: byte, current: Bytes, sibling: Bytes): Digest
  {
    if bit == 0 then DigestNode(h, current, sibling) else DigestNode(h, sibling, current)
  }

  /** The preimage `Parent` hashes. */
  function NodeInput(bit: byte, current: Bytes, sibling: Bytes): Bytes
  {
    if bit == 0 then NodePreimage(current, sibling) else NodePreimage(sibling, current)
  }

  /** The record `left ‖ right` stored under a parent's digest. */
  function NodeRecord(bit: byte, current: Bytes, sibling: Bytes): (rec: Bytes)
    ensures NodeInput(bit, current, sibling) == [NodePrefix] + rec
  {
    if bit == 0 then current + sibling else sibling + current
  }

  /** The digest at level `j` (0 is the root) above `leaf`, which sits at
      level `|sides|`; `sides[j]` is the sibling combined at level `j`. This
      is the top-down reference for both the update loop and verification. */
  function Fold(h: HashFn, path: Bytes, leaf: Digest, sides: seq<Bytes>, j: nat): Digest
    requires j <= |sides| <= 8 * |path|
    decreases |sides| - j
  {
    if j == |sides| then leaf
    else Parent(h, Bit(path, j), Fold(h, path, leaf, sides, j + 1), sides[j])
  }

  /** The preimage hashed at level `j` of a fold. */
  function NodeInputAt(h: HashFn, path: Bytes, leaf: Digest, sides: seq<Bytes>, j: nat): Bytes
    requires j < |sides| <= 8 * |path|
  {
    NodeInput(Bit(path, j), Fold(h, path, leaf, sides, j + 1), sides[j])
  }

  /** The record `left ‖ right` the update loop stores under the digest of
      level `j`. */
  function RecordAt(h: HashFn, path: Bytes, leaf: Digest, sides: seq<Bytes>, j: nat): Bytes
    requires j < |sides| <= 8 * |path|
  {
    NodeRecord(Bit(path, j), Fold(h, path, leaf, sides, j + 1), sides[j])
  }

  /** Every node preimage a fold hashes. */
  ghost function FoldPreimages(h: HashFn, path: Bytes, leaf: Digest, sides: seq<Bytes>): set<Bytes>
    requires |sides| <= 8 * |path|
  {
    set j | 0 <= j < |sides| :: NodeInputAt(h, path, leaf, sides, j)
  }

  /** The verification loop: siblings are consumed from the LAST index to the
      first, index `i` combined according to bit `i` of the path. */
  function Replay(h: HashFn, path: Bytes, current: Digest, sides: seq<Bytes>): (r: Digest)
    requires |sides| <= 8 * |path|
    ensures r == Fold(h, path, current, sides, 0)
    decreases |sides|
  {
    if |sides| == 0 then current
    else
      var i := |sides| - 1;
      var r := Replay(h, path, Parent(h, Bit(path, i), current, sides[i]), sides[..i]);
      FoldPeel(h, path, current, sides, 0);
      r
  }

  /** Peeling the deepest sibling off a fold: folding `sides` above `leaf` is
      folding all but the last sibling above the parent of `leaf`. */
  lemma FoldPeel(h: HashFn, path: Bytes, leaf: Digest, sides: seq<Bytes>, j: nat)
    requires 0 < |sides| <= 8 * |path| && j < |sides|
    ensures Fold(h, path, leaf, sides, j)
         == Fold(h, path, Parent(h, Bit(path, |sides| - 1), leaf, sides[|sides| - 1]), sides[..|sides| - 1], j)
  {
    var n := |sides|;
    assert sides == sides[..n - 1] + [sides[n - 1]];
    FoldAppend(h, path, leaf, sides[..n - 1], sides[n - 1], j);
  }

  /** `FoldPeel` with the siblings given as a prefix and a last one. */
  lemma {:induction false} FoldAppend(h: HashFn, path: Bytes, leaf: Digest, short: seq<Bytes>, last: Bytes, j: nat)
    requires |short| < 8 * |path| && j <= |short|
    ensures Fold(h, path, leaf, short + [last], j)
         == Fold(h, path, Parent(h, Bit(path, |short|), leaf, last), short, j)
    decreases |short| - j
  {
    var sides := short + [last];
    var parent := Parent(h, Bit(path, |short|), leaf, last);
    FoldLevel(h, path, leaf, sides, j);
    if j < |short| {
      FoldAppend(h, path, leaf, short, last, j + 1);
      FoldLevel(h, path, parent, short, j);
      assert sides[j] == short[j];
    }
  }

  /** Level `j` of a fold is the parent of level `j + 1` and sibling `j`. */
  lemma FoldLevel(h: HashFn, path: Bytes, leaf: Digest, sides: seq<Bytes>, j: nat)
    requires j < |sides| <= 8 * |path|
    ensures Fold(h, path, leaf, sides, j) == Parent(h, Bit(path, j), Fold(h, path, leaf, sides, j + 1), sides[j])
  {
  }

  /** `n` empty-subtree digests: the siblings the update loop uses. */
  function ZeroSiblings(n: nat): (s: seq<Digest>)
    ensures |s| == n
    ensures forall i | 0 <= i < n :: s[i] == ZeroValue
  {
    seq(n, _ => ZeroValue)
  }

  /** The node digests an update writes when it climbs `n` levels above
      `leaf` (levels 0 to n - 1; the leaf itself is not included). */
  ghost function ChainDigests(h: HashFn, path: Bytes, leaf: Digest, n: nat): set<Bytes>
    requires n <= 8 * |path|
  {
    set j | 0 <= j < n :: Fold(h, path, leaf, ZeroSiblings(n), j)
  }

  /** One step of the climb: the parent of `leaf` at level `n - 1` starts a
      chain one level shorter with the same digests above it. */
  lemma ChainStep(h: HashFn, path: Bytes, leaf: Digest, n: nat)
    requires 0 < n <= 8 * |path|
    ensures var parent := Parent(h, Bit(path, n - 1), leaf, ZeroValue);
      && Fold(h, path, leaf, ZeroSiblings(n), n - 1) == parent
      && (forall j | 0 <= j < n :: Fold(h, path, parent, ZeroSiblings(n - 1), j) == Fold(h, path, leaf, ZeroSiblings(n), j))
      && ChainDigests(h, path, leaf, n) == {parent} + ChainDigests(h, path, parent, n - 1)
  {
    ChainFoldsShift(h, path, leaf, n);
    ChainDigestsShift(h, path, leaf, n);
  }

  /** The levels of the chain above the parent are the levels of the chain
      above `leaf`, the parent itself being the deepest of them. */
  lemma ChainFoldsShift(h: HashFn, path: Bytes, leaf: Digest, n: nat)
    requires 0 < n <= 8 * |path|
    ensures var parent := Parent(h, Bit(path, n - 1), leaf, ZeroValue);
      && Fold(h, path, leaf, ZeroSiblings(n), n - 1) == parent
      && (forall j | 0 <= j < n :: Fold(h, path, parent, ZeroSiblings(n - 1), j) == Fold(h, path, leaf, ZeroSiblings(n), j))
  {
    var parent := Parent(h, Bit(path, n - 1), leaf, ZeroValue);
    assert ZeroSiblings(n)[..n - 1] == ZeroSiblings(n - 1);
    forall j | 0 <= j < n
      ensures Fold(h, path, parent, ZeroSiblings(n - 1), j) == Fold(h, path, leaf, ZeroSiblings(n), j)
    {
      FoldPeel(h, path, leaf, ZeroSiblings(n), j);
    }
  }

  /** The digests a climb of `n` levels writes are the parent and the
      digests of the climb of `n - 1` levels above it. */
  lemma ChainDigestsShift(h: HashFn, path: Bytes, leaf: Digest, n: nat)
    requires 0 < n <= 8 * |path|
    ensures ChainDigests(h, path, leaf, n)
         == {Parent(h, Bit(path, n - 1), leaf, ZeroValue)} + ChainDigests(h, path, Parent(h, Bit(path, n - 1), leaf, ZeroValue), n - 1)
  {
    var parent := Parent(h, Bit(path, n - 1), leaf, ZeroValue);
    ChainFoldsShift(h, path, leaf, n);
    var above := ChainDigests(h, path, parent, n - 1);
    forall d | d in ChainDigests(h, path, leaf, n)
      ensures d in {parent} + above
    {
      var j :| 0 <= j < n && d == Fold(h, path, leaf, ZeroSiblings(n), j);
      if j < n - 1 {
        assert d == Fold(h, path, parent, ZeroSiblings(n - 1), j);
      }
    }
    forall d | d in {parent} + above
      ensures d in ChainDigests(h, path, leaf, n)
    {
      if d != parent {
        var j :| 0 <= j < n - 1 && d == Fold(h, path, parent, ZeroSiblings(n - 1), j);
        assert d == Fold(h, path, leaf, ZeroSiblings(n), j);
      }
    }
  }

  /** The digests of levels 0 to m - 1 of the zero-sibling chain of `n`
      levels above `leaf` are pairwise distinct. */
  ghost predicate DistinctLevels(h: HashFn, path: Bytes, leaf: Digest, n: nat, m: nat)
    requires m <= n <= 8 * |path|
  {
    forall a, b | 0 <= a < b < m :: Fold(h, path, leaf, ZeroSiblings(n), a) != Fold(h, path, leaf, ZeroSiblings(n), b)
  }

  /** The update loop: climb `i` levels (i - 1 down to 0) from `current`,
      using the empty digest as every sibling and storing each parent's
      `left ‖ right` record. It stops at the first write the store refuses,
      keeping the writes already made. */
  function Climb(h: HashFn, path: Bytes, store: Store, current: Digest, i: nat): (r: (Store, Result<Digest, StoreError>))
    requires i <= 8 * |path|
    ensures r.1.Success? ==> r.1.value == Fold(h, path, current, ZeroSiblings(i), 0)
    ensures r.1.Success? <==> ChainDigests(h, path, current, i) !! store.refused
    ensures r.0.refused == store.refused
    ensures forall k | k !in ChainDigests(h, path, current, i) :: Get(r.0, k) == Get(store, k)
    decreases i
  {
    if i == 0 then (store, Success(current))
    else
      var parent := Parent(h, Bit(path, i - 1), current, ZeroValue);
      ChainStep(h, path, current, i);
      match Set(store, parent, NodeRecord(Bit(path, i - 1), current, ZeroValue))
      case Failure(e) => (store, Failure(e))
      case Success(next) => Climb(h, path, next, parent, i - 1)
  }

  /** After a successful climb whose level digests are pairwise distinct,
      the record of every level's digest is that level's `left ‖ right`. */
  lemma {:induction false} ClimbRecords(h: HashFn, path: Bytes, store: Store, current: Digest, i: nat)
    requires i <= 8 * |path|
    requires Climb(h, path, store, current, i).1.Success?
    requires DistinctLevels(h, path, current, i, i)
    ensures forall j {:trigger RecordAt(h, path, current, ZeroSiblings(i), j)} | 0 <= j < i ::
      Get(Climb(h, path, store, current, i).0, Fold(h, path, current, ZeroSiblings(i), j))
      == Some(RecordAt(h, path, current, ZeroSiblings(i), j))
    decreases i
  {
    if i > 0 {
      var parent := Parent(h, Bit(path, i - 1), current, ZeroValue);
      var record := NodeRecord(Bit(path, i - 1), current, ZeroValue);
      var chain := ZeroSiblings(i);
      ChainStep(h, path, current, i);
      ClimbRecordsStep(h, path, current, i);
      var next := Set(store, parent, record).value;
      var final := Climb(h, path, next, parent, i - 1).0;
      var upper := ZeroSiblings(i - 1);
      assert Climb(h, path, store, current, i) == Climb(h, path, next, parent, i - 1);
      assert Climb(h, path, next, parent, i - 1).1.Success?;
      assert DistinctLevels(h, path, parent, i - 1, i - 1) by {
        forall a, b | 0 <= a < b < i - 1
          ensures Fold(h, path, parent, upper, a) != Fold(h, path, parent, upper, b)
        {
          assert Fold(h, path, current, chain, a) != Fold(h, path, current, chain, b);
        }
      }
      ClimbRecords(h, path, next, parent, i - 1);
      forall a | 0 <= a < i - 1
        ensures Fold(h, path, parent, upper, a) != parent
      {
        assert Fold(h, path, current, chain, a) != Fold(h, path, current, chain, i - 1);
      }
      assert parent !in ChainDigests(h, path, parent, i - 1);
      forall j | 0 <= j < i
        ensures Get(final, Fold(h, path, current, chain, j)) == Some(RecordAt(h, path, current, chain, j))
      {
        if j == i - 1 {
          assert Fold(h, path, current, chain, j) == parent;
          assert Get(final, parent) == Get(next, parent);
          assert RecordAt(h, path, current, chain, j) == record;
        } else {
          assert Get(final, Fold(h, path, parent, ZeroSiblings(i - 1), j)) == Some(RecordAt(h, path, parent, ZeroSiblings(i - 1), j));
        }
      }
    }
  }

  /** The facts `ClimbRecords` carries from a climb of `n - 1` levels above
      the parent to a climb of `n` levels above `leaf`: the same digests,
      records and distinctness at the levels they share. */
  lemma ClimbRecordsStep(h: HashFn, path: Bytes, leaf: Digest, n: nat)
    requires 0 < n <= 8 * |path|
    ensures var parent := Parent(h, Bit(path, n - 1), leaf, ZeroValue);
      forall j {:trigger RecordAt(h, path, leaf, ZeroSiblings(n), j)} | 0 <= j < n - 1 ::
        && Fold(h, path, parent, ZeroSiblings(n - 1), j) == Fold(h, path, leaf, ZeroSiblings(n), j)
        && RecordAt(h, path, parent, ZeroSiblings(n - 1), j) == RecordAt(h, path, leaf, ZeroSiblings(n), j)
  {
    var parent := Parent(h, Bit(path, n - 1), leaf, ZeroValue);
    ChainStep(h, path, leaf, n);
    forall j | 0 <= j < n - 1
      ensures RecordAt(h, path, parent, ZeroSiblings(n - 1), j) == RecordAt(h, path, leaf, ZeroSiblings(n), j)
    {
      assert Fold(h, path, parent, ZeroSiblings(n - 1), j + 1) == Fold(h, path, leaf, ZeroSiblings(n), j + 1);
    }
  }

  /** Every preimage the zero-sibling chain of `n` levels hashes above the
      leaf whose preimage is `leafPre`, the leaf preimage included. */
  ghost function ChainPreimages(h: HashFn, path: Bytes, leafPre: Bytes, n: nat): set<Bytes>
    requires n <= 8 * |path|
  {
    FoldPreimages(h, path, h(leafPre), ZeroSiblings(n)) + {leafPre}
  }

  /** Each level of a fold is the hash of its node preimage. */
  lemma LevelIsHashOfInput(h: HashFn, path: Bytes, leaf: Digest, sides: seq<Bytes>, j: nat)
    requires j < |sides| <= 8 * |path|
    ensures NodeInputAt(h, path, leaf, sides, j) in FoldPreimages(h, path, leaf, sides)
    ensures Fold(h, path, leaf, sides, j) == h(NodeInputAt(h, path, leaf, sides, j))
  {
    ParentHashesInput(h, Bit(path, j), Fold(h, path, leaf, sides, j + 1), sides[j]);
  }

  /** The digest a record is stored under is the hash of the node prefix
      followed by that record, so a stored record can be checked against
      its key. */
  lemma ParentHashesStoredRecord(h: HashFn, bit: byte, current: Bytes, sibling: Bytes)
    ensures Parent(h, bit, current, sibling) == h([NodePrefix] + NodeRecord(bit, current, sibling))
  {
    ParentHashesInput(h, bit, current, sibling);
  }

  /** A parent is the hash of the preimage `0x01 ‖ left ‖ right` its bit
      selects. */
  lemma ParentHashesInput(h: HashFn, bit: byte, current: Bytes, sibling: Bytes)
    ensures Parent(h, bit, current, sibling) == h(NodeInput(bit, current, sibling))
  {
    assert NodeInput(bit, current, sibling) == [NodePrefix] + NodeRecord(bit, current, sibling);
  }

  /** Hypothesis used: NonZeroOn(h, ChainPreimages(...)). No level of the
      chain, leaf included, is the empty digest. */
  lemma ChainLevelsNonZero(h: HashFn, path: Bytes, leafPre: Bytes, n: nat, j: nat)
    requires j <= n <= 8 * |path|
    requires NonZeroOn(h, ChainPreimages(h, path, leafPre, n))
    ensures Fold(h, path, h(leafPre), ZeroSiblings(n), j) != ZeroValue
  {
    if j < n {
      LevelIsHashOfInput(h, path, h(leafPre), ZeroSiblings(n), j);
    }
  }

  /** Hypotheses used: CollisionFreeOn and NonZeroOn over ChainPreimages(...).
      The digests of the chain's levels, leaf included, are pairwise
      distinct, so no record the update writes is overwritten by a later write
      of the same update. */
  lemma ChainDistinct(h: HashFn, path: Bytes, leafPre: Bytes, n: nat)
    requires n <= 8 * |path|
    requires |leafPre| > 0 && leafPre[0] == LeafPrefix
    requires CollisionFreeOn(h, ChainPreimages(h, path, leafPre, n))
    requires NonZeroOn(h, ChainPreimages(h, path, leafPre, n))
    ensures forall a, b | 0 <= a < b <= n ::
      Fold(h, path, h(leafPre), ZeroSiblings(n), a) != Fold(h, path, h(leafPre), ZeroSiblings(n), b)
    ensures DistinctLevels(h, path, h(leafPre), n, n)
  {
    forall a, b | 0 <= a < b <= n
      ensures Fold(h, path, h(leafPre), ZeroSiblings(n), a) != Fold(h, path, h(leafPre), ZeroSiblings(n), b)
    {
      NoRepeat(h, path, leafPre, n, a, b);
    }
  }

  /** The chain argument behind `ChainDistinct`: two levels `a < b` of the
      chain differ because at level `b = n` the digest is the leaf, which no
      node digest equals, and above that distinct children give distinct
      node preimages, hence distinct digests. */
  lemma {:induction false} NoRepeat(h: HashFn, path: Bytes, leafPre: Bytes, n: nat, a: nat, b: nat)
    requires a < b <= n <= 8 * |path|
    requires |leafPre| > 0 && leafPre[0] == LeafPrefix
    requires CollisionFreeOn(h, ChainPreimages(h, path, leafPre, n))
    requires NonZeroOn(h, ChainPreimages(h, path, leafPre, n))
    ensures Fold(h, path, h(leafPre), ZeroSiblings(n), a) != Fold(h, path, h(leafPre), ZeroSiblings(n), b)
    decreases n - b
  {
    if b == n {
      LevelIsNotLeaf(h, path, leafPre, n, a);
    } else {
      NoRepeat(h, path, leafPre, n, a + 1, b + 1);
      NoRepeatStep(h, path, leafPre, n, a, b);
    }
  }

  /** The inductive step of `NoRepeat`: distinct levels `a + 1` and `b + 1`
      make levels `a` and `b` distinct. */
  lemma NoRepeatStep(h: HashFn, path: Bytes, leafPre: Bytes, n: nat, a: nat, b: nat)
    requires a < b < n <= 8 * |path|
    requires CollisionFreeOn(h, ChainPreimages(h, path, leafPre, n))
    requires NonZeroOn(h, ChainPreimages(h, path, leafPre, n))
    requires Fold(h, path, h(leafPre), ZeroSiblings(n), a + 1) != Fold(h, path, h(leafPre), ZeroSiblings(n), b + 1)
    ensures Fold(h, path, h(leafPre), ZeroSiblings(n), a) != Fold(h, path, h(leafPre), ZeroSiblings(n), b)
  {
    ChainLevelsNonZero(h, path, leafPre, n, a + 1);
    ChainLevelsNonZero(h, path, leafPre, n, b + 1);
    NoRepeatLevel(h, path, h(leafPre), n, a, b);
    DistinctInputsDistinctLevels(h, path, leafPre, n, a, b);
  }

  /** Hypothesis used: CollisionFreeOn(h, ChainPreimages(...)). No node
      digest of the chain is the leaf digest below it: a node preimage and
      the leaf preimage start with different prefixes. */
  lemma LevelIsNotLeaf(h: HashFn, path: Bytes, leafPre: Bytes, n: nat, a: nat)
    requires a < n <= 8 * |path|
    requires |leafPre| > 0 && leafPre[0] == LeafPrefix
    requires CollisionFreeOn(h, ChainPreimages(h, path, leafPre, n))
    ensures Fold(h, path, h(leafPre), ZeroSiblings(n), a) != Fold(h, path, h(leafPre), ZeroSiblings(n), n)
  {
    var leaf, zs := h(leafPre), ZeroSiblings(n);
    LevelIsHashOfInput(h, path, leaf, zs, a);
    assert NodeInputAt(h, path, leaf, zs, a)[0] != leafPre[0];
    CollisionFreeContrapositive(h, ChainPreimages(h, path, leafPre, n), NodeInputAt(h, path, leaf, zs, a), leafPre);
  }

  /** Hypothesis used: CollisionFreeOn(h, ChainPreimages(...)). Levels with
      distinct node preimages have distinct digests. */
  lemma DistinctInputsDistinctLevels(h: HashFn, path: Bytes, leafPre: Bytes, n: nat, a: nat, b: nat)
    requires a < b < n <= 8 * |path|
    requires CollisionFreeOn(h, ChainPreimages(h, path, leafPre, n))
    requires NodeInputAt(h, path, h(leafPre), ZeroSiblings(n), a) != NodeInputAt(h, path, h(leafPre), ZeroSiblings(n), b)
    ensures Fold(h, path, h(leafPre), ZeroSiblings(n), a) != Fold(h, path, h(leafPre), ZeroSiblings(n), b)
  {
    var leaf, zs := h(leafPre), ZeroSiblings(n);
    LevelIsHashOfInput(h, path, leaf, zs, a);
    LevelIsHashOfInput(h, path, leaf, zs, b);
    CollisionFreeContrapositive(h, ChainPreimages(h, path, leafPre, n), NodeInputAt(h, path, leaf, zs, a), NodeInputAt(h, path, leaf, zs, b));
  }

  /** One level of `NoRepeat`: the node preimages at levels `a` and `b`
      differ when the levels below them are distinct and non-empty. */
  lemma NoRepeatLevel(h: HashFn, path: Bytes, leaf: Digest, n: nat, a: nat, b: nat)
    requires a < b < n <= 8 * |path|
    requires Fold(h, path, leaf, ZeroSiblings(n), a + 1) != ZeroValue
    requires Fold(h, path, leaf, ZeroSiblings(n), b + 1) != ZeroValue
    requires Fold(h, path, leaf, ZeroSiblings(n), a + 1) != Fold(h, path, leaf, ZeroSiblings(n), b + 1)
    ensures NodeInputAt(h, path, leaf, ZeroSiblings(n), a) != NodeInputAt(h, path, leaf, ZeroSiblings(n), b)
  {
    var zs := ZeroSiblings(n);
    ZeroSiblingInputsDiffer(Bit(path, a), Fold(h, path, leaf, zs, a + 1), Bit(path, b), Fold(h, path, leaf, zs, b + 1));
    assert zs[a] == ZeroValue && zs[b] == ZeroValue;
  }

  /** Distinct preimages from a collision-free set hash to distinct digests. */
  lemma CollisionFreeContrapositive(h: HashFn, pre: set<Bytes>, x: Bytes, y: Bytes)
    requires CollisionFreeOn(h, pre)
    requires x in pre && y in pre && x != y
    ensures h(x) != h(y)
  {
  }

  /** Two node preimages whose sibling is the empty digest differ when their
      non-empty children differ or sit on different sides. */
  lemma ZeroSiblingInputsDiffer(bitA: byte, fa: Digest, bitB: byte, fb: Digest)
    requires fa != ZeroValue && fb != ZeroValue
    requires (bitA == 0) == (bitB == 0) ==> fa != fb
    ensures NodeInput(bitA, fa, ZeroValue) != NodeInput(bitB, fb, ZeroValue)
  {
    var pa, pb := NodeInput(bitA, fa, ZeroValue), NodeInput(bitB, fb, ZeroValue);
    if bitA == 0 {
      assert pa[1..33] == fa;
    } else {
      assert pa[1..33] == ZeroValue && pa[33..] == fa;
    }
    if bitB == 0 {
      assert pb[1..33] == fb;
    } else {
      assert pb[1..33] == ZeroValue && pb[33..] == fb;
    }
  }

  /** Equal node preimages with the same sibling on the same side have the
      same other child. */
  lemma SameInputSameChild(bit: byte, f1: Digest, f2: Digest, sibling: Bytes)
    requires NodeInput(bit, f1, sibling) == NodeInput(bit, f2, sibling)
    ensures f1 == f2
  {
    if bit == 0 {
      NodePreimageInjective(f1, sibling, f2, sibling);
    } else {
      NodePreimageInjective(sibling, f1, sibling, f2);
    }
  }

  /** Hypothesis used: CollisionFreeOn over both folds' node preimages. Two
      leaves folded with the same siblings along the same path that reach
      the same digest at level `j` are the same leaf. */
  lemma FoldDeterminesLeaf(h: HashFn, path: Bytes, leaf1: Digest, leaf2: Digest, sides: seq<Bytes>, j: nat)
    requires j <= |sides| <= 8 * |path|
    requires CollisionFreeOn(h, FoldPreimages(h, path, leaf1, sides) + FoldPreimages(h, path, leaf2, sides))
    requires Fold(h, path, leaf1, sides, j) == Fold(h, path, leaf2, sides, j)
    ensures leaf1 == leaf2
  {
    forall k | j <= k < |sides| && Fold(h, path, leaf1, sides, k) == Fold(h, path, leaf2, sides, k)
      ensures NodeInputAt(h, path, leaf1, sides, k) == NodeInputAt(h, path, leaf2, sides, k)
    {
      LevelIsHashOfInput(h, path, leaf1, sides, k);
      LevelIsHashOfInput(h, path, leaf2, sides, k);
    }
    SameLevelsDownToLeaf(h, path, leaf1, leaf2, sides, j);
  }

  /** The descent behind `FoldDeterminesLeaf`: equal digests at a level have
      equal preimages, hence equal children on the path. */
  lemma {:induction false} SameLevelsDownToLeaf(h: HashFn, path: Bytes, leaf1: Digest, leaf2: Digest, sides: seq<Bytes>, j: nat)
    requires j <= |sides| <= 8 * |path|
    requires forall k {:trigger NodeInputAt(h, path, leaf1, sides, k)} | j <= k < |sides| && Fold(h, path, leaf1, sides, k) == Fold(h, path, leaf2, sides, k) ::
      NodeInputAt(h, path, leaf1, sides, k) == NodeInputAt(h, path, leaf2, sides, k)
    requires Fold(h, path, leaf1, sides, j) == Fold(h, path, leaf2, sides, j)
    ensures leaf1 == leaf2
    decreases |sides| - j
  {
    if j < |sides| {
      assert NodeInputAt(h, path, leaf1, sides, j) == NodeInputAt(h, path, leaf2, sides, j);
      SameInputSameChild(Bit(path, j), Fold(h, path, leaf1, sides, j + 1), Fold(h, path, leaf2, sides, j + 1), sides[j]);
      SameLevelsDownToLeaf(h, path, leaf1, leaf2, sides, j + 1);
    }
  }

  /** Node preimages with the same sibling on the same side differ when the
      other children differ. */
  lemma DifferentChildDifferentInput(bit: byte, f1: Digest, f2: Digest, sibling: Bytes)
    requires f1 != f2
    ensures NodeInput(bit, f1, sibling) != NodeInput(bit, f2, sibling)
  {
    var p1, p2 := NodeInput(bit, f1, sibling), NodeInput(bit, f2, sibling);
    if bit == 0 {
      assert p1[1..33] == f1 && p2[1..33] == f2;
    } else {
      assert p1[1 + |sibling|..] == f1 && p2[1 + |sibling|..] == f2;
    }
  }

  /** Where two paths part, the preimage hashed above a non-empty `leaf`
      whose sibling is `below` differs from the preimage hashed above `below`
      with the empty sibling: the two place `below` on the same side, and
      the other halves are `leaf` and the empty digest. */
  lemma ForkInputsDiffer(bitLeaf: byte, leaf: Digest, below: Digest, bitBelow: byte)
    requires (bitLeaf == 0) != (bitBelow == 0)
    requires leaf != ZeroValue
    ensures NodeInput(bitLeaf, leaf, below) != NodeInput(bitBelow, below, ZeroValue)
  {
    var p1, p2 := NodeInput(bitLeaf, leaf, below), NodeInput(bitBelow, below, ZeroValue);
    if bitBelow == 0 {
      assert p1[33..] == leaf && p2[33..] == ZeroValue;
    } else {
      assert p1[1..33] == leaf && p2[1..33] == ZeroValue;
    }
  }

  /** The record read for `digest`: a missing record reads as 64 zero
      bytes, which is the record of a node whose children are both the
      empty digest. */
  function RecordOf(store: Store, digest: Bytes): (rec: Bytes)
    ensures Get(store, digest).None? ==> rec == NodeRecord(0, ZeroValue, ZeroValue)
    ensures Get(store, digest).Some? ==> rec == Get(store, digest).value
  {
    match Get(store, digest)
    case Some(v) => v
    case None =>
      assert Zeros(2 * DigestLength) == ZeroValue + ZeroValue;
      Zeros(2 * DigestLength)
  }

  /** Levels `lo` to `hi - 1` of the chain above `leaf` are not the empty
      digest and hold their records in `store`. */
  ghost predicate ChainStored(h: HashFn, store: Store, path: Digest, leaf: Digest, lo: nat, hi: nat)
    requires hi <= Depth
  {
    forall j {:trigger RecordAt(h, path, leaf, ZeroSiblings(Depth), j)} | lo <= j < hi ::
      && Fold(h, path, leaf, ZeroSiblings(Depth), j) != ZeroValue
      && Get(store, Fold(h, path, leaf, ZeroSiblings(Depth), j)) == Some(RecordAt(h, path, leaf, ZeroSiblings(Depth), j))
  }

  /** Level `i` of a stored chain: a non-empty digest whose record holds
      the next level down on the side bit `i` selects and the empty digest
      on the other; the levels below it are stored too. */
  lemma ChainLevel(h: HashFn, store: Store, path: Digest, leaf: Digest, i: nat)
    requires i < Depth
    requires ChainStored(h, store, path, leaf, i, Depth)
    ensures Fold(h, path, leaf, ZeroSiblings(Depth), i) != ZeroValue
    ensures Get(store, Fold(h, path, leaf, ZeroSiblings(Depth), i))
         == Some(NodeRecord(Bit(path, i), Fold(h, path, leaf, ZeroSiblings(Depth), i + 1), ZeroValue))
    ensures ChainStored(h, store, path, leaf, i + 1, Depth)
  {
    assert ZeroSiblings(Depth)[i] == ZeroValue;
    assert Get(store, Fold(h, path, leaf, ZeroSiblings(Depth), i)) == Some(RecordAt(h, path, leaf, ZeroSiblings(Depth), i));
  }

  /** `n + 1` empty digests are one empty digest followed by `n`. */
  lemma ZeroSiblingsCons(n: nat)
    ensures ZeroSiblings(n + 1) == [ZeroValue] + ZeroSiblings(n)
  {
    assert ZeroSiblings(n + 1)[1..] == ZeroSiblings(n);
  }

  /** Hypotheses used: CollisionFreeOn and NonZeroOn over the chain's
      preimages. After a successful climb of all 256 levels every level
      holds its record, none overwritten by a later write of the same climb,
      and none is the empty digest. */
  lemma ClimbStoresChain(h: HashFn, path: Digest, store: Store, leafPre: Bytes)
    requires |leafPre| > 0 && leafPre[0] == LeafPrefix
    requires Climb(h, path, store, h(leafPre), Depth).1.Success?
    requires CollisionFreeOn(h, ChainPreimages(h, path, leafPre, Depth))
    requires NonZeroOn(h, ChainPreimages(h, path, leafPre, Depth))
    ensures ChainStored(h, Climb(h, path, store, h(leafPre), Depth).0, path, h(leafPre), 0, Depth)
  {
    ChainDistinct(h, path, leafPre, Depth);
    ClimbRecords(h, path, store, h(leafPre), Depth);
    forall j | 0 <= j < Depth
      ensures Fold(h, path, h(leafPre), ZeroSiblings(Depth), j) != ZeroValue
    {
      ChainLevelsNonZero(h, path, leafPre, Depth, j);
    }
  }

  /** Hypothesis used: CollisionFreeOn over both folds' node preimages. Two
      different leaves folded with the same siblings along the same path
      stay different at every level, the root included. */
  lemma DistinctLeavesDistinctFolds(h: HashFn, path: Bytes, leaf1: Digest, leaf2: Digest, sides: seq<Bytes>, j: nat)
    requires j <= |sides| <= 8 * |path|
    requires CollisionFreeOn(h, FoldPreimages(h, path, leaf1, sides) + FoldPreimages(h, path, leaf2, sides))
    requires leaf1 != leaf2
    ensures Fold(h, path, leaf1, sides, j) != Fold(h, path, leaf2, sides, j)
  {
    var pre := FoldPreimages(h, path, leaf1, sides) + FoldPreimages(h, path, leaf2, sides);
    forall k | j <= k < |sides| && NodeInputAt(h, path, leaf1, sides, k) != NodeInputAt(h, path, leaf2, sides, k)
      ensures Fold(h, path, leaf1, sides, k) != Fold(h, path, leaf2, sides, k)
    {
      LevelIsHashOfInput(h, path, leaf1, sides, k);
      LevelIsHashOfInput(h, path, leaf2, sides, k);
      CollisionFreeContrapositive(h, pre, NodeInputAt(h, path, leaf1, sides, k), NodeInputAt(h, path, leaf2, sides, k));
    }
    LevelsStayApart(h, path, leaf1, leaf2, sides, j);
  }

  /** The climb behind `DistinctLeavesDistinctFolds`: different children
      give different preimages, and different preimages (by the last
      requirement, which collision freedom provides) different digests. */
  lemma {:induction false} LevelsStayApart(h: HashFn, path: Bytes, leaf1: Digest, leaf2: Digest, sides: seq<Bytes>, j: nat)
    requires j <= |sides| <= 8 * |path|
    requires leaf1 != leaf2
    requires forall k {:trigger NodeInputAt(h, path, leaf1, sides, k)} | j <= k < |sides| && NodeInputAt(h, path, leaf1, sides, k) != NodeInputAt(h, path, leaf2, sides, k) ::
      Fold(h, path, leaf1, sides, k) != Fold(h, path, leaf2, sides, k)
    ensures Fold(h, path, leaf1, sides, j) != Fold(h, path, leaf2, sides, j)
    decreases |sides| - j
  {
    if j < |sides| {
      LevelsStayApart(h, path, leaf1, leaf2, sides, j + 1);
      DifferentChildDifferentInput(Bit(path, j), Fold(h, path, leaf1, sides, j + 1), Fold(h, path, leaf2, sides, j + 1), sides[j]);
      assert NodeInputAt(h, path, leaf1, sides, j) != NodeInputAt(h, path, leaf2, sides, j);
    }
  }
}
