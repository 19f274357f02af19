# Sparse Merkle tree over 256-bit paths — a Dafny model

This project models SimpleSparseMerkle, a sparse Merkle tree over 256-bit
paths. The tree is a content-addressed node store, a flat map from digests
to records, together with a root digest. The source keeps three variants of
the same engine:

- **Fixed 32-byte tree** (`src/tree_sparse_merkle.rs`, `src/combined.rs`).
  Keys are paths and values are 32-byte digests. Operations are `update`,
  `get`, `get_proof` and `verify_proof`. The model is `FixedTree`, and one
  model is cited against both files.
- **Library tree** (`src/sparse_merkle_tree.rs`, `src/tree_hasher.rs`,
  `src/proof.rs`, `src/kv_store.rs`). The path is the hash of the key and
  values are byte strings of any length. It adds `remove`, and proofs are
  checked by `MerkleProof::verify`. The models are `LibraryTree`,
  `MerkleProof`, `TreeHasher` and `KVStore`.
- **The shared engine** (`MerklePath`):
  - MSB-first bit selection (`PathBits.Bit`);
  - the 256-level leaf-to-root fold with zero siblings, which writes one
    record per level (`Climb`);
  - the top-down reference fold (`Fold`) and the bottom-up replay that
    verification performs (`Replay`).

Two small cores sit alongside the tree:

- **The account ledger** (`Account`, from `src/account.rs`): checked
  transfers and saturating credits on `u64` balances.
- **Transaction handling** (`Transaction`, from `src/transaction.rs`):
  - the builder and its ordered missing-field errors;
  - the field-by-field validation of a decoded map (unknown, duplicate,
    missing and wrong-length fields);
  - the all-zero default;
  - the byte layout that `compute_hash` hashes.

## The hash and the hypotheses

The hash is a parameter `h: Bytes -> Digest` with 32-byte outputs. Nothing
is assumed about it globally. Every lemma that needs a cryptographic
property names it in its `requires`, restricted to the finite set of
preimages that lemma actually uses:

- `CollisionFreeOn(h, S)`: `h` does not collide on `S`.
- `NonZeroOn(h, S)`: `h` never yields the all-zero digest on `S`.
- "This key is not a node digest": an explicit requires such as
  `key !in UpdateChain(h, key, value)`, needed because keys and node
  records share one map.

## What the proofs show about the code as written

`update` always uses the zero digest as the sibling. So:

- The root after `update(k, v)` depends only on `(k, v)`
  (`FixedTree.RootIndependentOfHistory`, `LibraryTree.RootIndependentOfHistory`).
- Only the last key written has a proof that verifies:
  `FixedTree.OnlyLastKeyVerifies` proves that the proof `get_proof` returns
  for any other key is rejected for every value.

The source's tests that expect several keys to verify at once therefore
cannot pass. The model follows the code.

`remove` in the library tree resets the root to zero, and after that `get`
returns `None` for every key (`LibraryTree.RemoveEmptiesTree`).

## Model

| member | source | states |
|---|---|---|
| Bytes.LittleEndian64RoundTrip | src/transaction.rs:177-178 | reading back the eight little-endian bytes of a 64-bit word gives the word |
| PathBits.Bit | src/tree_sparse_merkle.rs:84 | the selected bit of a path is always 0 or 1 |
| PathBits.BitIsShiftAndMask | src/proof.rs:22 | bit `i` is `(path[i/8] >> (7 - i%8)) & 1`: byte 0 first, most significant bit first |
| PathBits.BitReadsItsByte | src/combined.rs:130 | bit `i` is entry `i % 8` of the MSB-first bit list of byte `i / 8` |
| PathBits.DifferentPathsDifferInABit | src/combined.rs:130 | two different paths of equal length differ at some bit position the walk reads |
| PathBits.FirstDifferingBit | src/tree_sparse_merkle.rs:133 | the first bit at which two different paths part: below it all bits agree, at it they differ |
| TreeHasher.LeafPreimage | src/tree_hasher.rs:23-29 | a leaf preimage is `0x00`, then the path, then the value, with those exact lengths |
| TreeHasher.NodePreimage | src/tree_hasher.rs:31-37 | a node preimage is `0x01`, then left, then right, with those exact lengths |
| TreeHasher.DomainSeparation | src/tree_hasher.rs:25-33 | no leaf preimage equals any node preimage, because their first bytes differ |
| TreeHasher.LeafPreimageInjective | src/tree_sparse_merkle.rs:210-216 | equal leaf preimages over equal-length paths have the same path and the same value |
| TreeHasher.NodePreimageInjective | src/tree_sparse_merkle.rs:218-224 | equal node preimages over equal-length left parts have the same children |
| TreeHasher.LeafDigestIsNotNodeDigest | src/combined.rs:359-373 | with no collision on the two preimages, a leaf digest never equals a node digest |
| TreeHasher.LeafDigestDeterminesValue | src/combined.rs:359-365 | with no collision on the two leaf preimages, equal leaf digests at one path mean equal values |
| TreeHasher.DistinctValuesDistinctLeaves | src/tree_hasher.rs:23-29 | different values at one path give different leaf digests when the two preimages do not collide |
| KVStore.Empty | src/kv_store.rs:26-31 | a new store holds no key and refuses no write |
| KVStore.Set | src/kv_store.rs:45-48 | set succeeds unless the key is refused; afterwards the key reads the value and every other key reads as before |
| KVStore.Remove | src/kv_store.rs:51-54 | remove succeeds unless the key is refused; afterwards the key reads None and every other key reads as before |
| KVStore.InMemoryNeverFails | src/kv_store.rs:40-54 | on an in-memory store, set and remove always return Ok and the store stays in-memory |
| KVStore.LastWriteWins | src/combined.rs:40-43 | a second set on a key gives the same store as setting only the second value |
| KVStore.RemoveAbsentIsNoOp | src/kv_store.rs:51-53 | removing an absent key returns Ok and leaves the store unchanged |
| KVStore.RemoveUndoesSet | src/kv_store.rs:45-54 | setting a fresh key and then removing it gives back the original store |
| MerklePath.ParentHashesStoredRecord | src/tree_sparse_merkle.rs:86-95 | the digest a record is stored under is the hash of `0x01` followed by that record, with the current digest on the left for bit 0 and on the right for bit 1 |
| MerklePath.NodeRecord | src/combined.rs:97-98 | the stored record is the node preimage without its prefix: `left ‖ right` |
| MerklePath.Replay | src/proof.rs:21-28 | the bottom-up replay, last side node first, equals the top-down reference fold from the leaf |
| MerklePath.FoldPeel | src/tree_sparse_merkle.rs:160-167 | folding consumes the last side node first, using the last bit index, and continues with the shorter proof |
| MerklePath.ZeroSiblings | src/tree_sparse_merkle.rs:85 | the sibling sequence of an update: `n` entries, every one the zero digest |
| MerklePath.Climb | src/tree_sparse_merkle.rs:82-97 | the loop from level 255 to 0: it succeeds iff no level digest is refused, then returns the fold with zero siblings; it never touches keys off the chain |
| MerklePath.ChainStep | src/tree_sparse_merkle.rs:83-91 | one step of the loop: the first parent is the leaf's node, and the rest of the chain is the chain above that parent |
| MerklePath.ClimbRecords | src/combined.rs:89-99 | when the level digests are distinct, every level's digest maps to its `left ‖ right` record after the loop |
| MerklePath.ChainLevelsNonZero | src/tree_sparse_merkle.rs:91 | when no chain preimage hashes to zero, no level digest is the zero digest |
| MerklePath.ChainDistinct | src/tree_sparse_merkle.rs:83-95 | with collision-free, non-zero hashing on the chain, the 257 level digests are pairwise distinct |
| MerklePath.FoldDeterminesLeaf | src/proof.rs:18-30 | with collision-free hashing on both folds, equal folds over the same side nodes come from the same leaf |
| MerklePath.DistinctLeavesDistinctFolds | src/proof.rs:21-30 | with collision-free hashing on both folds, different leaves fold to different digests at every level |
| MerklePath.RecordOf | src/tree_sparse_merkle.rs:127-130 | a stored record is read as it is; a missing one reads as 64 zero bytes, which is the record of a node whose two children are the empty digest |
| MerklePath.ClimbStoresChain | src/combined.rs:89-98 | after a successful climb, every level digest is non-zero and maps to its own record |
| FixedTree.New | src/tree_sparse_merkle.rs:65-74 | a new tree has the all-zero root over the given store |
| FixedTree.Update | src/combined.rs:84-104 | succeeds iff the key and every level digest are writable; the root changes only on success, to the zero-sibling fold; keys off the chain keep their entries; the key maps to the value whenever its own write was accepted, even if a later node write was refused |
| FixedTree.Get | src/combined.rs:106-113 | None while the root is zero; otherwise the stored entry exactly when it is 32 bytes |
| FixedTree.Walk | src/tree_sparse_merkle.rs:120-147 | the proof walk returns at most `256 - i` side nodes and stops at once on the zero digest or at depth 256; it panics exactly when a record it reads on the path is not 64 bytes long, in particular at once when the current record is not |
| FixedTree.GetProof | src/combined.rs:115-148 | a proof has at most 256 side nodes, and the empty tree's proof is empty; `get_proof` panics exactly when a record read on the key's path from the root is not 64 bytes long |
| FixedTree.VerifyProof | src/combined.rs:150-180 | panics iff the proof has more than 256 side nodes; otherwise true iff folding the proof from the leaf digest gives the root |
| FixedTree.NewTreeIsEmpty | src/tree_sparse_merkle.rs:104-124 | in a new tree `get` is None for every key and every proof is empty |
| FixedTree.RootIndependentOfHistory | src/combined.rs:88-101 | two successful updates with the same key and value give the same root, whatever the trees held before |
| FixedTree.UpdateIdempotentRoot | src/tree_sparse_merkle.rs:78-99 | on an in-memory store, repeating an update succeeds and keeps the root |
| FixedTree.RootNonZeroAfterUpdate | src/tree_sparse_merkle.rs:91-99 | when no update preimage hashes to zero, the root after an update is not the zero digest |
| FixedTree.UpdateThenGet | src/tree_sparse_merkle.rs:79-110 | after an update, `get` of the key returns the value, provided the key is not a level digest |
| FixedTree.UpdateKeepsOtherKeys | src/tree_sparse_merkle.rs:95-110 | after an update, a different key off the chain still returns its earlier value |
| FixedTree.WalkStep | src/tree_sparse_merkle.rs:140-146 | one walk step: following the stored child pushes the zero sibling; turning away pushes the child and then stops at zero |
| FixedTree.WalkAlongChain | src/tree_sparse_merkle.rs:120-147 | walking a stored chain along its own path from level `i` yields `256 - i` zero siblings |
| FixedTree.UpdateStoresChain | src/tree_sparse_merkle.rs:83-95 | after an update, with collision-free non-zero hashing, every level of the chain is stored and non-zero |
| FixedTree.ProofAfterUpdate | src/tree_sparse_merkle.rs:113-183 | right after `update(k, v)`, `get_proof(k)` is 256 zero siblings and `verify_proof(k, v, proof)` is true |
| FixedTree.VerifyRejectsOtherValues | src/tree_sparse_merkle.rs:153-182 | a proof that verifies a value for a key rejects every other value, under collision-free hashing |
| FixedTree.MissingRecordGivesOneZeroSibling | src/tree_sparse_merkle.rs:127-130 | a non-zero root with no record reads as 64 zero bytes, so the proof is one zero sibling |
| FixedTree.ProofForOtherKey | src/tree_sparse_merkle.rs:113-151 | after `update(k, v)`, the proof of another key is zero siblings down to the first differing bit, then the chain digest just below it |
| FixedTree.StrayProofRejected | src/tree_sparse_merkle.rs:153-182 | that other-key proof never replays to the chain root, whatever the value |
| FixedTree.OnlyLastKeyVerifies | src/combined.rs:115-180 | after `update(k, v)`, the proof `get_proof` gives for any other key fails `verify_proof` for every value |
| MerkleProof.Verify | src/proof.rs:10-31 | panics iff there are more than 256 side nodes; otherwise true iff the fold from `digest_leaf(digest(key), value)` equals the root; it uses only its arguments |
| MerkleProof.EmptyProofComparesLeaf | src/proof.rs:30 | with no side nodes the leaf digest itself is compared with the root |
| MerkleProof.RejectsOtherValues | src/proof.rs:18-30 | a (root, key, proof) that verifies one value rejects every other value, under collision-free hashing |
| LibraryTree.New | src/sparse_merkle_tree.rs:14-22 | a new tree has the zero root over the given store |
| LibraryTree.Update | src/sparse_merkle_tree.rs:32-58 | succeeds iff the path, the leaf digest and every level digest are writable; root changes only on success, to the zero-sibling fold; the path maps to the value and the leaf to `zero ‖ zero` |
| LibraryTree.Get | src/sparse_merkle_tree.rs:24-30 | None while the root is zero; otherwise the entry stored under `digest(key)` |
| LibraryTree.Remove | src/sparse_merkle_tree.rs:60-65 | succeeds iff the path is writable; then the path's entry is gone and the root is zero; failure changes nothing |
| LibraryTree.Walk | src/sparse_merkle_tree.rs:72-93 | the proof walk returns at most `256 - i` side nodes and stops at once on the zero digest |
| LibraryTree.GenerateProof | src/sparse_merkle_tree.rs:67-96 | a proof has at most 256 side nodes, and the empty tree's proof is empty |
| LibraryTree.NewTreeIsEmpty | src/sparse_merkle_tree.rs:24-27 | in a new tree `get` is None for every key and every proof is empty |
| LibraryTree.RootIndependentOfHistory | src/sparse_merkle_tree.rs:43-56 | two successful updates with the same key and value give the same root, whatever the trees held before |
| LibraryTree.RootNonZeroAfterUpdate | src/sparse_merkle_tree.rs:51-56 | when no update preimage hashes to zero, the root after an update is not zero |
| LibraryTree.UpdateThenGet | src/sparse_merkle_tree.rs:28-37 | after an update, `get` of the key returns the value, provided its path is neither the leaf digest nor a level digest |
| LibraryTree.RemoveEmptiesTree | src/sparse_merkle_tree.rs:60-65 | after a remove, `get` is None and the proof is empty for every key, not only the removed one |
| LibraryTree.MissingRecordGivesOneZeroSibling | src/sparse_merkle_tree.rs:79-83 | a missing record reads as `zero ‖ zero`, split at half, so the proof is one zero sibling |
| LibraryTree.WalkStep | src/sparse_merkle_tree.rs:83-92 | following a stored child along the path pushes the zero sibling and continues from the child |
| LibraryTree.WalkAlongChain | src/sparse_merkle_tree.rs:72-93 | walking a stored chain along its own path from level `i` yields `256 - i` zero siblings |
| LibraryTree.ProofAfterUpdate | src/sparse_merkle_tree.rs:155-170 | right after `update(key, value)`, the generated proof is 256 zero siblings and `verify` accepts it against the root |
| LibraryTree.ProofAfterUpdateRejectsOtherValues | src/sparse_merkle_tree.rs:172-174 | that proof rejects every other value for the key |
| Account.New | src/account.rs:12-18 | a new account keeps the address and initial balance with nonce 0 |
| Account.Transfer | src/account.rs:22-30 | succeeds iff balance ≥ amount; then the balance drops by the amount and the nonce rises by one; otherwise "Insufficient balance"; the nonce increment panics at the `u64` limit |
| Account.Credit | src/account.rs:33-35 | the balance becomes `min(balance + amount, 2^64 - 1)`; address and nonce are unchanged |
| Account.TransferThenCreditRestoresBalance | src/account.rs:22-35 | crediting what a transfer debited restores the balance; the nonce keeps the count |
| Account.TransferWithinBalanceSucceeds | src/account.rs:23-26 | a transfer the balance covers succeeds below the nonce limit and debits exactly the amount |
| Account.TransferConservesTotal | src/account.rs:22-35 | a transfer from one account credited to another without saturation keeps the sum of balances |
| Account.CreditMonotone | src/account.rs:33-35 | a credit never lowers the balance, and changes nothing on a saturated balance |
| Transaction.Default | src/transaction.rs:159-168 | the default transaction has zero addresses, amount, nonce and signature |
| Transaction.NewBuilder | src/transaction.rs:193-201 | a new builder has no field set |
| Transaction.WithFrom | src/transaction.rs:203-206 | sets the sender and leaves every other field unchanged |
| Transaction.WithTo | src/transaction.rs:208-211 | sets the recipient and leaves every other field unchanged |
| Transaction.WithAmount | src/transaction.rs:213-216 | sets the amount and leaves every other field unchanged |
| Transaction.WithNonce | src/transaction.rs:218-221 | sets the nonce and leaves every other field unchanged |
| Transaction.WithSignature | src/transaction.rs:223-226 | sets the signature and leaves every other field unchanged |
| Transaction.Build | src/transaction.rs:228-236 | Ok iff all five fields are set, copying them; otherwise the message of the first missing field in the order from, to, amount, nonce, signature |
| Transaction.BuildRoundTrip | src/transaction.rs:228-236 | setting every field of a transaction builds it back, and a builder that builds is the full setter chain of its result |
| Transaction.EmptyBuilderMissesSender | src/transaction.rs:267-272 | building from a new builder reports "Sender address is missing" |
| Transaction.SettersCommute | src/transaction.rs:203-226 | setters on different fields commute, and a repeated setter keeps only the last value |
| Transaction.Name | src/transaction.rs:154 | every field's name is one of `from`, `to`, `amount`, `nonce`, `signature` |
| Transaction.VisitStr | src/transaction.rs:60-72 | a key decodes iff it is one of the five field names, to the field of that name; any other key is an unknown-field error |
| Transaction.VisitStrReadsName | src/transaction.rs:64-69 | every field's name decodes to that field |
| Transaction.Read | src/transaction.rs:100-129 | reading a value succeeds iff it has the field's shape, sets only that field, and keeps the value read |
| Transaction.VisitEntries | src/transaction.rs:98-131 | after the loop succeeds, every key was a field name, no key repeated or named a field already read, exactly the named fields are set, each holds the value of the entry that named it, and unnamed fields keep what they held |
| Transaction.VisitEntriesAccepts | src/transaction.rs:98-131 | the loop succeeds exactly when every key names a field, no key repeats or names a field already read, and every value has the shape of its field, whatever the key order |
| Transaction.Finish | src/transaction.rs:133-150 | Ok iff all five fields are present and the signature is 64 bytes; otherwise the first missing field in order, or an invalid length carrying the signature's length |
| Transaction.VisitMap | src/transaction.rs:88-151 | a decoded transaction used every field name exactly once and no other key, and each of its fields holds the value of the entry that named it |
| Transaction.VisitMapDecodesEntriesFor | src/transaction.rs:88-151 | a map decodes to `tx` exactly when no key repeats, every field is named, and every entry carries `tx`'s value for the field it names, in any key order |
| Transaction.EntriesForIsPermutation | src/transaction.rs:92-150 | the maps described that way are exactly the reorderings of `tx`'s five entries |
| Transaction.VisitMapExactlyPermutations | src/transaction.rs:88-151 | a map decodes to `tx` exactly when its entries are `tx`'s five entries in some order |
| Transaction.VisitMapRoundTrip | src/transaction.rs:92-150 | the five entries of a transaction, in declaration order, decode back to that transaction |
| Transaction.EmptyMapMissesFrom | src/transaction.rs:133 | an empty map reports the missing field `from` |
| Transaction.VisitEntriesAppend | src/transaction.rs:98-131 | reading two runs of entries is reading the first run, then the second from where the first stopped |
| Transaction.DuplicateReported | src/transaction.rs:98-131 | when the entries before a repeated key decode cleanly, decoding fails with a duplicate-field error naming that key |
| Transaction.HashPreimage | src/transaction.rs:173-181 | the hashed bytes of a transaction are 144 long: 32 + 32 + 8 + 8 + 64 |
| Transaction.HashPreimageDecodes | src/transaction.rs:175-179 | every field can be read back from its place in the preimage, with amount and nonce little-endian |
| Transaction.HashPreimageInjective | src/transaction.rs:173-181 | different transactions have different hash preimages |
| Transaction.DistinctTransactionsDistinctHashes | src/transaction.rs:173-181 | with no collision on the two preimages, different transactions get different digests |

## Left out

- SHA-256 and the `digest` crate are not modelled. The hash is a parameter, and every property of it a proof uses is stated as a hypothesis.
- Logging (`tracing`), timing and memory tests, and the allocator and `rand` imports are left out. They have no effect on results.
- The serde `Serialize` implementation is left out, and so is the machinery serde uses to pass keys and values to `visit_map`. The map arrives as a sequence of (key, value) pairs. A value the format cannot turn into the field's type is reported as one `InvalidValue` error, not as the format's own message.
- `Bytes` reference counting and the `PhantomData` generics are left out. Byte strings are plain sequences.
- `TreeHasher::new` and the `root()` accessors are left out. The zero digest is the constant `ZeroValue`, and the root is a field of the tree value.
- Only 32-byte hash outputs are modelled, the output size of the only hash the source uses.
- Store reads never fail, because every store in the source returns `Ok` from `get`. Store writes may fail, modelled as a set of refused keys. An in-memory store refuses none (`KVStore.InMemoryNeverFails`).
- A correct multi-key sparse Merkle tree, insertion-order independence and a path-recomputing `remove` are not modelled. The source implements none of them. The model proves instead that only the last key written verifies.
- `src/error.rs` (an enum with no behaviour), `src/lib.rs` (module declarations) and the test files are not part of this model. The tests serve only as evidence for the properties above.
- `LibraryTree`: proofs for keys other than the last one written are characterised only for the fixed tree (`FixedTree.OnlyLastKeyVerifies`). The library tree's engine is the same.
- `Account.Transfer` models the nonce increment's overflow as a panic, as a debug build does. A release build would wrap the nonce to 0 instead.
- The transaction's amount and nonce are held as 64-bit words (`bv64`), so a number outside the `u64` range cannot be represented. The format's own range check before `visit_map` is not modelled.
- `Transaction.ComputeHash` stops at the preimage. The SHA-256 call itself is the hash parameter.
