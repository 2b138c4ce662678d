/**
  The flat tree array `make_from_values` produces and the proofs `getProof`
  reads off it, as functions of the sorted leaves; and what they guarantee:
  every internal node is the pair hash of its children, and folding a proof
  from a leaf gives back the root.
 */
module Layout {
  import opened Bytes
  import opened Hashing
  import opened Indices
  import opened Leaves

  /** `2 * L - 1` slots for `L` leaves, and no slot at all when there is no leaf. */
  function TreeSize(L: nat): nat
  {
    if L == 0 then 0 else 2 * L - 1
  }

  /**
    The leaf slots `L - 1 .. 2L - 2` in slot order: `tree[len - 1 - i]` holds
    the `i`-th sorted digest, so the row is the sorted digests reversed:
    the leaf slots are in non-increasing order and the smallest digest sits
    in the last slot.
   */
  function LeafRow(sortedHashes: seq<Digest>): (row: seq<Digest>)
    ensures |row| == |sortedHashes|
    ensures forall k :: 0 <= k < |row| ==> row[k] == sortedHashes[|row| - 1 - k]
    ensures DigestsSorted(sortedHashes) ==>
      forall i, j :: 0 <= i < j < |row| ==> Compare(row[j], row[i]) <= 0
  {
    seq(|sortedHashes|, k requires 0 <= k < |sortedHashes| => sortedHashes[|sortedHashes| - 1 - k])
  }

  /**
    The digest at slot `i` of the tree over the leaf row `row`: the leaf
    itself in the last `|row|` slots, otherwise the pair hash of the two
    children.
   */
  ghost function Node(p: Primitives, row: seq<Digest>, i: nat): Digest
    requires i < 2 * |row| - 1
    decreases 2 * |row| - 1 - i
  {
    if i >= |row| - 1 then row[i - (|row| - 1)]
    else HashPair(p, Node(p, row, LeftChild(i)), Node(p, row, RightChild(i)))
  }

  /** The whole array, root first. */
  ghost function BuildTree(p: Primitives, row: seq<Digest>): (t: seq<Digest>)
    ensures |t| == TreeSize(|row|)
  {
    seq(TreeSize(|row|), i requires 0 <= i < TreeSize(|row|) => Node(p, row, i))
  }

  /** The tree `make_from_values` builds from the values `vs` on a reset tree. */
  ghost function BuiltTree(p: Primitives, vs: seq<Value>): seq<Digest>
  {
    BuildTree(p, LeafRow(Hashes(SortLeaves(MakeLeaves(p, vs)))))
  }

  /** The Merkle property: every internal slot `0 .. L - 2` is the pair hash of its children. */
  ghost predicate IsMerkle(p: Primitives, t: seq<Digest>, L: nat)
  {
    && |t| == TreeSize(L)
    && forall i :: 0 <= i < L - 1 ==> t[i] == HashPair(p, t[LeftChild(i)], t[RightChild(i)])
  }

  /** The leaf slots of `t` hold `row`. */
  ghost predicate HasLeafRow(t: seq<Digest>, row: seq<Digest>)
  {
    && |t| == TreeSize(|row|)
    && forall k :: 0 <= k < |row| ==> t[|row| - 1 + k] == row[k]
  }

  /** The built tree has the Merkle property and holds its leaf row in the last slots. */
  lemma BuildTreeIsMerkle(p: Primitives, row: seq<Digest>)
    ensures IsMerkle(p, BuildTree(p, row), |row|)
    ensures HasLeafRow(BuildTree(p, row), row)
  {
  }

  /**
    The state of the fill loop: every slot after `i` already holds the node
    BuildTree puts there.
   */
  ghost predicate FilledAfter(p: Primitives, t: seq<Digest>, row: seq<Digest>, i: int)
  {
    && |t| == TreeSize(|row|)
    && forall j :: 0 <= j < |t| && i < j ==> t[j] == Node(p, row, j)
  }

  /** Before the fill loop, the leaf slots are the only final slots, and they are. */
  lemma LeafSlotsAreNodes(p: Primitives, t: seq<Digest>, row: seq<Digest>)
    requires HasLeafRow(t, row)
    ensures FilledAfter(p, t, row, |t| - 1 - |row|)
  {
    var L := |row|;
    forall j | 0 <= j < |t| && |t| - 1 - L < j
      ensures t[j] == Node(p, row, j)
    {
      assert t[L - 1 + (j - (L - 1))] == row[j - (L - 1)];
    }
  }

  /** One step of the fill loop: slot `i` gets the pair hash of its two final children. */
  lemma FillStep(p: Primitives, t: seq<Digest>, row: seq<Digest>, i: nat)
    requires FilledAfter(p, t, row, i) && i < |row| - 1
    ensures FilledAfter(p, t[i := HashPair(p, t[LeftChild(i)], t[RightChild(i)])], row, i - 1)
  {
    var h := HashPair(p, t[LeftChild(i)], t[RightChild(i)]);
    assert h == Node(p, row, i);
  }

  /** After the fill loop every slot is final: the array is BuildTree. */
  lemma FilledIsBuilt(p: Primitives, t: seq<Digest>, row: seq<Digest>)
    requires FilledAfter(p, t, row, -1)
    ensures t == BuildTree(p, row)
  {
  }

  /**
    The leaf row and the Merkle property determine the array completely, so
    BuildTree is the only array the fill loop can leave behind.
   */
  lemma MerkleDeterminedByLeaves(p: Primitives, t: seq<Digest>, row: seq<Digest>)
    requires IsMerkle(p, t, |row|) && HasLeafRow(t, row)
    ensures t == BuildTree(p, row)
  {
    forall i | 0 <= i < |t|
      ensures t[i] == Node(p, row, i)
    {
      MerkleNodeAt(p, t, row, i);
    }
  }

  lemma {:induction false} MerkleNodeAt(p: Primitives, t: seq<Digest>, row: seq<Digest>, i: nat)
    requires IsMerkle(p, t, |row|) && HasLeafRow(t, row)
    requires i < |t|
    ensures t[i] == Node(p, row, i)
    decreases |t| - i
  {
    if i < |row| - 1 {
      MerkleNodeAt(p, t, row, LeftChild(i));
      MerkleNodeAt(p, t, row, RightChild(i));
    } else {
      assert t[|row| - 1 + (i - (|row| - 1))] == row[i - (|row| - 1)];
    }
  }

  /**
    The tree depends only on the multiset of leaf digests: inputs in another
    order, or other values with the same digests, build the same array.
   */
  lemma BuiltTreeCanonical(p: Primitives, vs1: seq<Value>, vs2: seq<Value>)
    requires multiset(Hashes(MakeLeaves(p, vs1))) == multiset(Hashes(MakeLeaves(p, vs2)))
    ensures BuiltTree(p, vs1) == BuiltTree(p, vs2)
  {
    SortedHashesCanonical(MakeLeaves(p, vs1), MakeLeaves(p, vs2));
  }

  /** In particular, permuting the input values does not change the tree or its root. */
  lemma BuiltTreeOrderIndependent(p: Primitives, vs1: seq<Value>, vs2: seq<Value>)
    requires multiset(vs1) == multiset(vs2)
    ensures BuiltTree(p, vs1) == BuiltTree(p, vs2)
  {
    var f := v => Leaf(v, LeafHash(p, v));
    MapPermutation(f, vs1, vs2);
    assert MapSeq(f, vs1) == MakeLeaves(p, vs1);
    assert MapSeq(f, vs2) == MakeLeaves(p, vs2);
    MapPermutation(HashOf, MakeLeaves(p, vs1), MakeLeaves(p, vs2));
    BuiltTreeCanonical(p, vs1, vs2);
  }

  /**
    The list `getProof` collects before hex encoding: starting at `idx`,
    while the index is positive, the digest at its sibling, then continue at
    its parent.
   */
  function ProofPath(t: seq<Digest>, idx: int): (r: seq<Digest>)
    requires |t| % 2 == 1 && 0 <= idx < |t|
    ensures |r| == FloorLog2(idx + 1)
    decreases idx
  {
    if idx > 0 then
      assert Parent(idx) + 1 == (idx + 1) / 2;
      [t[Sibling(idx)]] + ProofPath(t, Parent(idx))
    else []
  }

  /**
    How a verifier replays a proof: pair-hash the running digest with each
    proof element in turn. The order inside each pair does not matter
    (HashPairSymmetric).
   */
  function FoldProof(p: Primitives, leaf: seq<byte>, proof: seq<Digest>): seq<byte>
    decreases |proof|
  {
    if proof == [] then leaf else FoldProof(p, HashPair(p, leaf, proof[0]), proof[1..])
  }

  /** Proof validity: in a Merkle tree, the proof of any slot folds to the root `tree[0]`. */
  lemma {:induction false} ProofFoldsToRoot(p: Primitives, t: seq<Digest>, L: nat, idx: nat)
    requires IsMerkle(p, t, L) && idx < |t|
    ensures |t| % 2 == 1
    ensures FoldProof(p, t[idx], ProofPath(t, idx)) == t[0]
    decreases idx
  {
    if idx > 0 {
      var parent, sibling := Parent(idx), Sibling(idx);
      SiblingsAreChildren(idx);
      HashPairSymmetric(p, t[idx], t[sibling]);
      assert HashPair(p, t[idx], t[sibling]) == t[parent];
      ProofFoldsToRoot(p, t, L, parent);
    }
  }

  /** `floor(log2(n))` for a positive `n`. */
  function FloorLog2(n: nat): nat
    requires n >= 1
  {
    if n == 1 then 0 else 1 + FloorLog2(n / 2)
  }

  lemma {:induction false} FloorLog2Monotonic(m: nat, n: nat)
    requires 1 <= m <= n
    ensures FloorLog2(m) <= FloorLog2(n)
    decreases n
  {
    if m > 1 {
      FloorLog2Monotonic(m / 2, n / 2);
    }
  }

  /**
    Proof lengths of the leaf slots lie between `floor(log2(L))` and
    `floor(log2(2L - 1))`, the latter being `ceil(log2(L))`; they are not all
    equal unless `L` is a power of two.
   */
  lemma LeafProofLengthBounds(t: seq<Digest>, L: nat, idx: nat)
    requires |t| == TreeSize(L) && L - 1 <= idx < |t|
    ensures FloorLog2(L) <= |ProofPath(t, idx)| <= FloorLog2(2 * L - 1)
  {
    assert L >= 1 && |t| == 2 * L - 1;
    assert |ProofPath(t, idx)| == FloorLog2(idx + 1);
    FloorLog2Monotonic(L, idx + 1);
    FloorLog2Monotonic(idx + 1, 2 * L - 1);
  }

  /** With three leaves the first leaf slot is one level up and the other two are two levels up. */
  lemma ThreeLeafProofLengths(t: seq<Digest>)
    requires |t| == TreeSize(3)
    ensures |ProofPath(t, 2)| == 1 && |ProofPath(t, 3)| == 2 && |ProofPath(t, 4)| == 2
  {
  }

  /** `n` is 1, 2, 4, 8, ... */
  predicate IsPowerOfTwo(n: nat)
    decreases n
  {
    n == 1 || (n >= 2 && n % 2 == 0 && IsPowerOfTwo(n / 2))
  }

  /** Going from `n - 1` up to `n` adds a level exactly when `n` is a power of two. */
  lemma {:induction false} FloorLog2Step(n: nat)
    requires n >= 2
    ensures FloorLog2(n) == FloorLog2(n - 1) + (if IsPowerOfTwo(n) then 1 else 0)
    decreases n
  {
    if n % 2 == 0 && n / 2 >= 2 {
      FloorLog2Step(n / 2);
      assert (n - 1) / 2 == n / 2 - 1;
    } else if n % 2 == 1 {
      assert (n - 1) / 2 == n / 2;
    }
  }

  /** The first and the last leaf slot are on the same level exactly for a power of two. */
  lemma LeafLevelsEqualIff(L: nat)
    requires L >= 1
    ensures FloorLog2(L) == FloorLog2(2 * L - 1) <==> IsPowerOfTwo(L)
  {
    if L >= 2 {
      FloorLog2Step(L);
      assert FloorLog2(2 * L - 1) == 1 + FloorLog2((2 * L - 1) / 2);
      assert (2 * L - 1) / 2 == L - 1;
    }
  }

  /** When both ends of the leaf row are on one level, every leaf proof has that length. */
  lemma LeafProofsSameLength(t: seq<Digest>, L: nat)
    requires L >= 1 && |t| == TreeSize(L) && FloorLog2(L) == FloorLog2(2 * L - 1)
    ensures forall i, j :: L - 1 <= i < |t| && L - 1 <= j < |t| ==> |ProofPath(t, i)| == |ProofPath(t, j)|
  {
    forall i | L - 1 <= i < |t|
      ensures |ProofPath(t, i)| == FloorLog2(L)
    {
      LeafProofLengthBounds(t, L, i);
    }
  }

  /**
    All leaves of a non-empty tree have proofs of the same length exactly
    when the number of leaves is a power of two.
   */
  lemma LeafProofLengthsEqualIff(t: seq<Digest>, L: nat)
    requires L >= 1 && |t| == TreeSize(L)
    ensures (forall i, j :: L - 1 <= i < |t| && L - 1 <= j < |t| ==> |ProofPath(t, i)| == |ProofPath(t, j)|)
      <==> IsPowerOfTwo(L)
  {
    if IsPowerOfTwo(L) {
      LeafLevelsEqualIff(L);
      LeafProofsSameLength(t, L);
    } else {
      assert |t| == 2 * L - 1;
      FirstAndLastLeafProofsDiffer(t, L);
    }
  }

  /** Otherwise the first and the last leaf slot have proofs of different lengths. */
  lemma FirstAndLastLeafProofsDiffer(t: seq<Digest>, L: nat)
    requires L >= 1 && |t| == 2 * L - 1 && !IsPowerOfTwo(L)
    ensures |ProofPath(t, L - 1)| != |ProofPath(t, 2 * L - 2)|
  {
    LeafLevelsEqualIff(L);
    var first, last := ProofPath(t, L - 1), ProofPath(t, 2 * L - 2);
    assert |first| == FloorLog2(L) && |last| == FloorLog2(2 * L - 1);
  }

  /** One leaf: the tree is that digest alone, the root, and its proof is empty. */
  lemma SingleLeafTree(p: Primitives, h: Digest)
    ensures BuildTree(p, LeafRow([h])) == [h]
    ensures ProofPath([h], 0) == []
  {
    assert LeafRow([h]) == [h];
  }

  /**
    Two leaves sorted as `lo`, `hi`: the array is `[root, hi, lo]` with the
    root `hashPair(hi, lo)`; each leaf's proof is the other leaf.
   */
  lemma TwoLeafTree(p: Primitives, lo: Digest, hi: Digest)
    ensures BuildTree(p, LeafRow([lo, hi])) == [HashPair(p, hi, lo), hi, lo]
    ensures ProofPath([HashPair(p, hi, lo), hi, lo], 2) == [hi]
    ensures ProofPath([HashPair(p, hi, lo), hi, lo], 1) == [lo]
  {
    var row := LeafRow([lo, hi]);
    assert row == [hi, lo];
    assert Node(p, row, 1) == hi && Node(p, row, 2) == lo;
  }

  /**
    Why a build must start from a reset tree: with `m >= 1` placeholder slots
    already present, the fill loop starts at `len - 1 - L` for the enlarged
    list and its right child is already past the end, so reading that child
    raises IndexError on the first step.
   */
  lemma SecondBuildOverruns(m: nat, L: nat)
    requires m >= 1 && L >= 1
    ensures var len := m + TreeSize(L); var i := len - 1 - L;
      i >= 0 && RightChild(i) >= len
  {
  }
}
