# Merkle tree builder and prover, modelled in Dafny

This project models the Merkle tree of `merkletree/merkletree.py`. The tree
commits to a set of addresses. Each address becomes a leaf digest
(Keccak-256 applied twice to its ABI encoding). The leaves are sorted by
digest and laid out in a flat breadth-first array of `2L - 1` slots with the
root at 0. Each internal slot holds the canonical pair hash of its two
children: Keccak-256 of the two children concatenated smaller first. A map
records each value's slot. An inclusion proof is the list of sibling digests
from that slot up to the root.

Modules, one per part of the source file:

- `Bytes` (`bytes.dfy`): `compare_bytes` as a method with a loop, proved equal
  to the function `Compare`, with lemmas that make `Compare` a total order;
  `_to_hex`.
- `Hashing` (`hashing.dfy`): `leafHash` and `hashPair`. Keccak-256 and the ABI
  encoder are parameters (the `Primitives` datatype).
- `Indices` (`indices.dfy`): the four index formulas and their identities.
- `Leaves` (`leaves.dfy`): `Leaf`, `Leaf.__lt__` and the stable sort of the leaves.
- `Layout` (`layout.dfy`): the array a build produces (`BuildTree`), the Merkle
  property, proof paths, folding a proof, proof lengths.
- `Merkle` (`merkletree.dfy`): the `MerkleTree` class. Its fields
  `hashedValues`, `tree` (an array) and `values` (a map) are updated in place
  by `ResetTree` and `MakeFromValues`. They are read by `GetProof` and `GetRoot`.

Behaviour of the code that the model keeps as written:

- The sibling of an odd index is `i + 1` and of an even index `i - 1`
  (`siblingIndex`, line 30). Odd indices are left children here, so this is
  the other child of the same parent (`SiblingsAreChildren`).
- The smallest digest sits in the LAST slot. The leaf row is the sorted
  digests reversed (lines 69-71), so the leaf slots are in non-increasing
  order (`LeafRow`). Two leaves `lo < hi` give `[root, hi, lo]` (`TwoLeafTree`).
- The proof of slot `idx` has `floor(log2(idx + 1))` elements (`ProofPath`).
  All leaf proofs of a non-empty tree have the same length exactly when `L`
  is a power of two (`LeafProofLengthsEqualIff`). In general the lengths lie
  between `floor(log2 L)` and `ceil(log2 L)` (`LeafProofLengthBounds`).
- An empty input is not rejected: `make_from_values([])` leaves an empty tree
  (`TreeSize(0) == 0`) and an empty map. Afterwards `getRoot` raises
  IndexError, and `getProof` raises KeyError for every value.
- Duplicate values are kept. Each occurrence has its own leaf slot, and the
  map keeps the last write in sorted order (`IsLastSlotOf`).

## Model

| member | source | states |
|---|---|---|
| `Bytes.Compare` | merkletree/merkletree.py:8-16 | when one string is a prefix of the other, the result is the difference of the lengths; otherwise it lies in `-255 .. 255` |
| `Bytes.CompareBytes` | merkletree/merkletree.py:8-16 | the loop returns `Compare(a, b)` for all inputs |
| `Bytes.CompareAtFirstDifference` | merkletree/merkletree.py:8-16 | at the end of the common prefix, the result is the difference of the first differing bytes, or the difference of the lengths when one string is a prefix of the other |
| `Bytes.CompareAntisymmetric` | merkletree/merkletree.py:8-16 | `compare_bytes(b, a) == -compare_bytes(a, b)` |
| `Bytes.CompareZeroIff` | merkletree/merkletree.py:8-16 | the result is 0 exactly when `a == b` |
| `Bytes.CompareTransitive` | merkletree/merkletree.py:8-16 | `<= 0` is transitive |
| `Bytes.CompareTotalOrder` | merkletree/merkletree.py:8-16 | `<= 0` is reflexive, total, antisymmetric and transitive |
| `Bytes.HexDigit` | merkletree/merkletree.py:35-36 | each nibble becomes one of `0-9a-f` |
| `Bytes.HexByte` | merkletree/merkletree.py:35-36 | each byte becomes two characters |
| `Bytes.HexByteInjective` | merkletree/merkletree.py:35-36 | different bytes give different digit pairs |
| `Bytes.Hex` | merkletree/merkletree.py:35-36 | two characters per byte |
| `Bytes.HexAt` | merkletree/merkletree.py:35-36 | byte `k` is rendered at positions `2k`, `2k + 1` |
| `Bytes.ToHex` | merkletree/merkletree.py:35-36 | `"0x"` followed by `2 * |x|` digits |
| `Bytes.ToHexInjective` | merkletree/merkletree.py:35-36 | different digests give different hex strings |
| `Hashing.LeafHash` | merkletree/merkletree.py:91-98 | a leaf digest is Keccak-256 of a 32-byte digest (the second hash of the double hash) |
| `Hashing.OrderPair` | merkletree/merkletree.py:20 | the two-element sort returns the inputs in non-decreasing order, unswapped on a tie |
| `Hashing.OrderPairSymmetric` | merkletree/merkletree.py:20 | the sorted pair does not depend on argument order |
| `Hashing.HashPair` | merkletree/merkletree.py:18-21 | the message hashed is `a + b` when `a` compares not above `b`, else `b + a` |
| `Hashing.HashPairSymmetric` | merkletree/merkletree.py:18-21 | `hashPair(a, b) == hashPair(b, a)` for all byte strings |
| `Indices.Parent` | merkletree/merkletree.py:32-33 | `i` is a child (`2r + 1` or `2r + 2`) of the result; for `i > 0`, `0 <= parent < i`; `parentIndex(0) == -1` |
| `Indices.LeftChild` | merkletree/merkletree.py:23-24 | an odd index whose parent is `i` |
| `Indices.RightChild` | merkletree/merkletree.py:26-27 | the even index just after the left child, with parent `i` |
| `Indices.Sibling` | merkletree/merkletree.py:29-30 | differs from `i`, has the same parent, and stays positive for `i > 0` |
| `Indices.ParentOfChildren` | merkletree/merkletree.py:23-33 | `parentIndex(leftChildIndex(i)) == parentIndex(rightChildIndex(i)) == i` |
| `Indices.SiblingInvolutive` | merkletree/merkletree.py:29-30 | `siblingIndex(siblingIndex(i)) == i` |
| `Indices.SiblingsAreChildren` | merkletree/merkletree.py:23-33 | a positive index and its sibling are the two children of their parent |
| `Leaves.LeafLess` | merkletree/merkletree.py:43-50 | `Leaf.__lt__` holds exactly when the first digest compares strictly below the second, and never for equal digests |
| `Leaves.LeafLessStrictOrder` | merkletree/merkletree.py:43-50 | `Leaf.__lt__` is irreflexive, asymmetric and transitive; two leaves are incomparable exactly when their digests are equal |
| `Leaves.Insert` | merkletree/merkletree.py:65 | an insertion step adds exactly one element |
| `Leaves.SortLeaves` | merkletree/merkletree.py:65 | the sort is a permutation of its input |
| `Leaves.InsertSorted` | merkletree/merkletree.py:65 | inserting into a sorted sequence keeps it sorted |
| `Leaves.SortLeavesSorted` | merkletree/merkletree.py:65 | the sorted leaves are in non-decreasing digest order |
| `Leaves.SortedUnique` | merkletree/merkletree.py:65 | two sorted digest sequences with the same multiset are equal |
| `Leaves.SortedHashesCanonical` | merkletree/merkletree.py:65 | the sorted digests depend only on the multiset of leaf digests |
| `Leaves.SortedLeavesAreInputLeaves` | merkletree/merkletree.py:62-65 | each sorted leaf is an input value together with its leaf digest |
| `Leaves.InputValuesAreSorted` | merkletree/merkletree.py:62-65 | every input value has a leaf among the sorted leaves |
| `Layout.LeafRow` | merkletree/merkletree.py:69-71 | leaf slot `k` holds sorted digest `L - 1 - k`; for sorted digests the leaf slots are in non-increasing order, so the smallest digest is in the last slot |
| `Layout.BuildTree` | merkletree/merkletree.py:66-67 | the array has `2L - 1` slots, and none when `L == 0` |
| `Layout.LeafSlotsAreNodes` | merkletree/merkletree.py:66-72 | before the fill loop, every slot after `L - 2` is final |
| `Layout.FillStep` | merkletree/merkletree.py:73-75 | one step of the fill loop makes slot `i` final, given that every later slot is |
| `Layout.FilledIsBuilt` | merkletree/merkletree.py:72-75 | once every slot is final, the array is `BuildTree` |
| `Layout.BuildTreeIsMerkle` | merkletree/merkletree.py:72-75 | after the fill, every internal slot `0 .. L - 2` is the pair hash of slots `2i + 1`, `2i + 2`; slot `L - 1 + k` holds leaf row entry `k` |
| `Layout.MerkleDeterminedByLeaves` | merkletree/merkletree.py:66-75 | any array with the Merkle property and this leaf row is the built tree |
| `Layout.BuiltTreeCanonical` | merkletree/merkletree.py:62-75 | two inputs with the same multiset of leaf digests build the same array |
| `Layout.BuiltTreeOrderIndependent` | merkletree/merkletree.py:62-75 | permuting the input values does not change the array or its root |
| `Layout.ProofFoldsToRoot` | merkletree/merkletree.py:82-89 | in a Merkle tree, folding `hashPair` over the proof of any slot, starting from that slot, gives `tree[0]` |
| `Layout.ProofPath` | merkletree/merkletree.py:84-87 | the proof of slot `idx` has `floor(log2(idx + 1))` elements |
| `Layout.LeafProofLengthBounds` | merkletree/merkletree.py:85-87 | leaf proofs have between `floor(log2 L)` and `floor(log2(2L - 1))` (that is `ceil(log2 L)`) elements |
| `Layout.FloorLog2Step` | merkletree/merkletree.py:85-87 | going from `n - 1` to `n` adds one level exactly when `n` is a power of two |
| `Layout.LeafLevelsEqualIff` | merkletree/merkletree.py:85-87 | the first and the last leaf slot are on the same level exactly when `L` is a power of two |
| `Layout.LeafProofsSameLength` | merkletree/merkletree.py:85-87 | when both ends of the leaf row are on one level, all leaf proofs have the same length |
| `Layout.FirstAndLastLeafProofsDiffer` | merkletree/merkletree.py:85-87 | when `L` is not a power of two, the proofs of the first and the last leaf slot differ in length |
| `Layout.LeafProofLengthsEqualIff` | merkletree/merkletree.py:85-87 | all leaf proofs of a non-empty tree have the same length if and only if `L` is a power of two |
| `Layout.ThreeLeafProofLengths` | merkletree/merkletree.py:85-87 | with three leaves, proofs have lengths 1, 2 and 2 |
| `Layout.SingleLeafTree` | merkletree/merkletree.py:66-75 | one leaf: the array is that digest alone, and its proof is empty |
| `Layout.TwoLeafTree` | merkletree/merkletree.py:66-89 | two sorted leaves `lo`, `hi` give `[hashPair(hi, lo), hi, lo]`, and each leaf's proof is the other leaf |
| `Layout.SecondBuildOverruns` | merkletree/merkletree.py:66-74 | on a non-empty tree, the first fill step reads a right child past the end of the list |
| `Merkle.HexListInjective` | merkletree/merkletree.py:88 | the hex list `getProof` returns determines the digests it was rendered from |
| `Merkle.IndexStep` | merkletree/merkletree.py:77-80 | one write of the map loop keeps "a value seen so far maps to its last slot so far" |
| `Merkle.IndexComplete` | merkletree/merkletree.py:76-80 | after all writes, every key maps to the slot of its last leaf in sorted order |
| `Merkle.BuildIsValid` | merkletree/merkletree.py:61-80 | the state a build produces satisfies the object invariant |
| `Merkle.SortedValuesAreInputs` | merkletree/merkletree.py:62-65 | the sorted leaves are as many as the inputs, each carries an input value, and every input value has a leaf |
| `Merkle.BuiltLeavesCarryDigests` | merkletree/merkletree.py:62-65 | each sorted leaf carries its value's leaf digest |
| `Merkle.BuiltSlotsReversed` | merkletree/merkletree.py:69-71 | slot `len - 1 - k` of the built tree holds the digest of sorted leaf `k` |
| `Merkle.ReversedSlotsAreLeafRow` | merkletree/merkletree.py:68-71 | slots written from the end backwards with the sorted digests hold the leaf row |
| `Merkle.LastSlotsAreLeafSlots` | merkletree/merkletree.py:79 | every map entry written is a leaf slot `L - 1 .. 2L - 2` holding a leaf of that value |
| `Merkle.ValidProofFolds` | merkletree/merkletree.py:82-89 | in a valid state, the proof of every key folds from that key's leaf digest to `tree[0]` |
| `Merkle.MerkleTree.constructor` | merkletree/merkletree.py:53-54 | a new tree is reset and satisfies the invariant |
| `Merkle.MerkleTree.ResetTree` | merkletree/merkletree.py:56-59 | all three fields are emptied, and the invariant holds |
| `Merkle.MerkleTree.MakeFromValues` | merkletree/merkletree.py:61-80 | on a reset tree: the leaves are the sorted input leaves; the array is `BuildTree` of their reversed digests, with `2L - 1` slots; the map's keys are exactly the input values, each mapped to its last leaf slot in sorted order; the invariant holds |
| `Merkle.MerkleTree.AppendLeaves` | merkletree/merkletree.py:62-64 | one `Leaf(v, leafHash(v))` is appended per input value, in input order |
| `Merkle.MerkleTree.PlaceLeaves` | merkletree/merkletree.py:68-71 | the `i`-th sorted digest is written to slot `len - 1 - i`; the internal slots in front keep their placeholders |
| `Merkle.MerkleTree.FillInternalNodes` | merkletree/merkletree.py:72-75 | the downward loop leaves exactly `BuildTree`, reading children that are already final |
| `Merkle.MerkleTree.IndexValues` | merkletree/merkletree.py:76-80 | the map's keys are the input values, each mapped to the slot of its last leaf in sorted order |
| `Merkle.MerkleTree.GetProof` | merkletree/merkletree.py:82-89 | KeyError exactly for a value that is not in the map; otherwise the hex of the sibling path from the value's slot, and the fold of that path from the value's leaf digest is `tree[0]` |
| `Merkle.MerkleTree.SiblingPath` | merkletree/merkletree.py:83-87 | the loop collects exactly `ProofPath` of the start slot |
| `Merkle.MerkleTree.GetRoot` | merkletree/merkletree.py:100-101 | IndexError exactly when the tree is empty; otherwise the root, and every value's proof folds to it |
| `Merkle.MerkleTree.RootOfValid` | merkletree/merkletree.py:82-101 | under the invariant, the proof of every key of the map folds to `tree[0]` |

## Left out

- Keccak-256 and `eth_abi.encode` (lines 19-21, 91-98) are foreign
  cryptographic and encoding code. They are the two arrow-typed parameters of
  `Primitives`: any function from bytes to 32 bytes, and any encoding of a
  value. Nothing is assumed about collisions.
- Values are modelled as byte strings (the bytes of an address).
  `eth_abi.encode(['address'], ...)` raising on a value that is not an
  address is not modelled: the encoder is total here.
- `dumpToFile` (lines 103-116) is JSON serialisation and file writing, which is I/O.
- `verifier/test/VerifierTest.js` and `verifier/scripts/build.js` are not part
  of this model. They drive a Solidity contract that is not shown, through
  chain tooling. `Layout.FoldProof` states what such a verifier must compute.
- Merkle.MerkleTree.MakeFromValues: requires a reset tree. A second build
  without `reset_tree` raises IndexError in the fill loop after changing
  `hashed_values` and `tree` (`Layout.SecondBuildOverruns`). That partial
  state is not modelled.
- Leaves.SortLeaves: Python's `sorted` (Timsort) is replaced by a stable
  insertion sort. Every stable sort by `Leaf.__lt__` gives the same sequence,
  but that uniqueness is proved only for the digests (`SortedUnique`). For
  leaves of distinct values with equal digests, it is not stated as a lemma.
- Indices.Parent: `parentIndex` divides by 2 as a float and floors the
  result, and so loses precision for indices above 2^53. The model uses exact integer
  floor division.
- The placeholder `bytes` objects appended to `tree` (line 67) are modelled as
  a zero digest. Every slot is overwritten before the build ends.
