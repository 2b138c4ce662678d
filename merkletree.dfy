/**
  The `MerkleTree` object: its three fields, updated in place by
  `reset_tree` and `make_from_values`, and read by `getProof` and `getRoot`.
 */
module Merkle {
  import opened Bytes
  import opened Hashing
  import opened Indices
  import opened Leaves
  import opened Layout

  /** The Python exceptions the queries can raise. */
  datatype Error = KeyError | IndexError

  datatype Result<T> = Ok(value: T) | Err(error: Error)

  /** The proof as `getProof` returns it: each digest rendered in hex, in order. */
  function HexList(ds: seq<Digest>): (r: seq<string>)
    ensures |r| == |ds| && forall k :: 0 <= k < |ds| ==> r[k] == ToHex(ds[k])
  {
    seq(|ds|, k requires 0 <= k < |ds| => ToHex(ds[k]))
  }

  /** The hex proof determines the digests it was rendered from. */
  lemma HexListInjective(a: seq<Digest>, b: seq<Digest>)
    requires HexList(a) == HexList(b)
    ensures a == b
  {
    forall k | 0 <= k < |a|
      ensures a[k] == b[k]
    {
      ToHexInjective(a[k], b[k]);
    }
  }

  /**
    Slot `s` of `sorted` (laid out from the last slot backwards) is the last
    leaf of `v` in sorted order: the entry the last write of the map loop
    leaves for `v`.
   */
  ghost predicate IsLastSlotOf(sorted: seq<Leaf>, n: int, v: Value, s: int)
  {
    var j := n - 1 - s;
    && 0 <= j < |sorted|
    && sorted[j].value == v
    && forall j' :: j < j' < |sorted| ==> sorted[j'].value != v
  }

  /**
    The value map after the writes for the first `k` sorted leaves: a value
    seen so far maps to the slot of its last leaf among them; any other key
    still maps to the 0 of the initial comprehension.
   */
  ghost predicate IndexedUpTo(hv: seq<Leaf>, n: int, k: nat, vals: map<Value, int>)
    requires k <= |hv|
  {
    forall v :: v in vals ==>
      || IsLastSlotOf(hv[..k], n, v, vals[v])
      || (vals[v] == 0 && forall j :: 0 <= j < k ==> hv[j].value != v)
  }

  /** One write of the map loop keeps IndexedUpTo. */
  lemma IndexStep(hv: seq<Leaf>, n: int, k: nat, vals: map<Value, int>)
    requires k < |hv| && IndexedUpTo(hv, n, k, vals)
    ensures IndexedUpTo(hv, n, k + 1, vals[hv[k].value := n - k - 1])
  {
    var vals' := vals[hv[k].value := n - k - 1];
    forall v | v in vals'
      ensures || IsLastSlotOf(hv[..k + 1], n, v, vals'[v])
              || (vals'[v] == 0 && forall j :: 0 <= j < k + 1 ==> hv[j].value != v)
    {
      if v == hv[k].value {
        assert IsLastSlotOf(hv[..k + 1], n, v, vals'[v]);
      } else if IsLastSlotOf(hv[..k], n, v, vals[v]) {
        assert IsLastSlotOf(hv[..k + 1], n, v, vals'[v]);
      }
    }
  }

  /** After all writes, every key that occurs among the leaves maps to its last slot. */
  lemma IndexComplete(hv: seq<Leaf>, n: int, vs: seq<Value>, vals: map<Value, int>)
    requires IndexedUpTo(hv, n, |hv|, vals)
    requires forall v :: v in vals <==> v in vs
    requires |hv| == |vs|
    requires forall v :: v in vs ==> exists k :: 0 <= k < |vs| && hv[k].value == v
    ensures forall v :: v in vals ==> IsLastSlotOf(hv, n, v, vals[v])
  {
    assert hv[..|hv|] == hv;
    forall v | v in vals
      ensures IsLastSlotOf(hv, n, v, vals[v])
    {
      assert v in vs;
      var k :| 0 <= k < |vs| && hv[k].value == v;
    }
  }

  /**
    The state after `reset_tree` or a completed build: the leaves are sorted
    and carry their values' digests, the leaf slots hold the sorted digests
    from the last slot backwards, every internal slot is the pair hash of its
    children, and every key of the value map points at a leaf slot holding a
    leaf of that value.
   */
  ghost predicate ValidState(p: Primitives, hv: seq<Leaf>, t: seq<Digest>, vals: map<Value, int>)
  {
    var L, n := |hv|, |t|;
    && IsMerkle(p, t, L)
    && LeavesSorted(hv)
    && (forall k :: 0 <= k < L ==> hv[k].hash == LeafHash(p, hv[k].value))
    && (forall k :: 0 <= k < L ==> t[n - 1 - k] == hv[k].hash)
    && (forall v :: v in vals ==> L - 1 <= vals[v] && 0 <= vals[v] < n && hv[n - 1 - vals[v]].value == v)
  }

  /** A build from a reset tree leaves a valid state. */
  lemma BuildIsValid(p: Primitives, vs: seq<Value>, hv: seq<Leaf>, t: seq<Digest>, vals: map<Value, int>)
    requires hv == SortLeaves(MakeLeaves(p, vs))
    requires t == BuildTree(p, LeafRow(Hashes(hv)))
    requires forall v :: v in vals ==> IsLastSlotOf(hv, |t|, v, vals[v])
    ensures ValidState(p, hv, t, vals)
  {
    BuildTreeIsMerkle(p, LeafRow(Hashes(hv)));
    SortLeavesSorted(MakeLeaves(p, vs));
    BuiltLeavesCarryDigests(p, vs);
    BuiltSlotsReversed(p, hv);
    LastSlotsAreLeafSlots(hv, |t|, vals);
    ValidStateIntro(p, hv, t, vals);
  }

  /** ValidState from its five parts. */
  lemma ValidStateIntro(p: Primitives, hv: seq<Leaf>, t: seq<Digest>, vals: map<Value, int>)
    requires IsMerkle(p, t, |hv|)
    requires LeavesSorted(hv)
    requires forall k :: 0 <= k < |hv| ==> hv[k].hash == LeafHash(p, hv[k].value)
    requires forall k :: 0 <= k < |hv| ==> t[|t| - 1 - k] == hv[k].hash
    requires forall v :: v in vals ==> |hv| - 1 <= vals[v] && 0 <= vals[v] < |t| && hv[|t| - 1 - vals[v]].value == v
    ensures ValidState(p, hv, t, vals)
  {
  }

  /** The values of the sorted leaves are exactly the input values. */
  lemma SortedValuesAreInputs(p: Primitives, vs: seq<Value>, hv: seq<Leaf>)
    requires hv == SortLeaves(MakeLeaves(p, vs))
    ensures |hv| == |vs|
    ensures forall k :: 0 <= k < |hv| ==> hv[k].value in vs
    ensures forall v :: v in vs ==> exists k :: 0 <= k < |vs| && hv[k].value == v
  {
    forall k | 0 <= k < |hv|
      ensures hv[k].value in vs
    {
      SortedLeavesAreInputLeaves(p, vs, k);
    }
    forall v | v in vs
      ensures exists k :: 0 <= k < |vs| && hv[k].value == v
    {
      InputValuesAreSorted(p, vs, v);
    }
  }

  lemma BuiltLeavesCarryDigests(p: Primitives, vs: seq<Value>)
    ensures var hv := SortLeaves(MakeLeaves(p, vs));
      forall k :: 0 <= k < |hv| ==> hv[k].hash == LeafHash(p, hv[k].value)
  {
    var hv := SortLeaves(MakeLeaves(p, vs));
    forall k | 0 <= k < |hv|
      ensures hv[k].hash == LeafHash(p, hv[k].value)
    {
      SortedLeavesAreInputLeaves(p, vs, k);
    }
  }

  lemma BuiltSlotsReversed(p: Primitives, hv: seq<Leaf>)
    ensures var t := BuildTree(p, LeafRow(Hashes(hv)));
      forall k :: 0 <= k < |hv| ==> t[|t| - 1 - k] == hv[k].hash
  {
    var row := LeafRow(Hashes(hv));
    var t := BuildTree(p, row);
    var L, n := |hv|, |t|;
    BuildTreeIsMerkle(p, row);
    forall k | 0 <= k < L
      ensures t[n - 1 - k] == hv[k].hash
    {
      assert n - 1 - k == L - 1 + (L - 1 - k);
      assert t[L - 1 + (L - 1 - k)] == row[L - 1 - k];
    }
  }

  lemma LastSlotsAreLeafSlots(hv: seq<Leaf>, n: int, vals: map<Value, int>)
    requires n == TreeSize(|hv|)
    requires forall v :: v in vals ==> IsLastSlotOf(hv, n, v, vals[v])
    ensures forall v :: v in vals ==> |hv| - 1 <= vals[v] && 0 <= vals[v] < n && hv[n - 1 - vals[v]].value == v
  {
  }

  /** The converse of BuiltSlotsReversed: slots written from the end backwards form the leaf row. */
  lemma ReversedSlotsAreLeafRow(t: seq<Digest>, hv: seq<Leaf>)
    requires |t| == TreeSize(|hv|)
    requires forall j :: 0 <= j < |hv| ==> t[|t| - 1 - j] == hv[j].hash
    ensures HasLeafRow(t, LeafRow(Hashes(hv)))
  {
    var row, L, n := LeafRow(Hashes(hv)), |hv|, |t|;
    forall k | 0 <= k < L
      ensures t[L - 1 + k] == row[k]
    {
      assert L - 1 + k == n - 1 - (L - 1 - k);
    }
  }

  /** In a valid state, the proof of every key folds from that key's leaf digest to the root. */
  lemma ValidProofFolds(p: Primitives, hv: seq<Leaf>, t: seq<Digest>, vals: map<Value, int>, v: Value)
    requires ValidState(p, hv, t, vals) && v in vals
    ensures |t| % 2 == 1 && 0 <= vals[v] < |t|
    ensures FoldProof(p, LeafHash(p, v), ProofPath(t, vals[v])) == t[0]
  {
    var n, idx := |t|, vals[v];
    assert t[idx] == hv[n - 1 - idx].hash == LeafHash(p, v) by {
      assert t[n - 1 - (n - 1 - idx)] == hv[n - 1 - idx].hash;
    }
    ProofFoldsToRoot(p, t, |hv|, idx);
  }

  class MerkleTree {
    /** Keccak-256 and the ABI encoder `leafHash` and `hashPair` use. */
    const prims: Primitives
    /** `hashed_values`: the leaves, sorted after a build. */
    var hashedValues: seq<Leaf>
    /** `tree`: the flat breadth-first array, root at 0. */
    var tree: array<Digest>
    /** `values`: the slot of each value's leaf. */
    var values: map<Value, int>

    /** The object invariant: ValidState of the three fields. */
    ghost predicate Valid()
      reads this, tree
    {
      ValidState(prims, hashedValues, tree[..], values)
    }

    /** `__init__`: a reset tree over the given primitives. */
    constructor (p: Primitives)
      ensures prims == p
      ensures hashedValues == [] && tree.Length == 0 && values == map[]
      ensures Valid()
    {
      prims := p;
      hashedValues := [];
      tree := new Digest[0];
      values := map[];
    }

    /** `reset_tree`: empties all three fields. */
    method ResetTree()
      modifies this
      ensures fresh(tree)
      ensures hashedValues == [] && tree.Length == 0 && values == map[]
      ensures Valid()
    {
      hashedValues := [];
      tree := new Digest[0];
      values := map[];
    }

    /**
      `make_from_values` on a reset tree. The leaves are sorted, the array
      is the unique Merkle tree over them with the smallest digest in the
      last slot, and each input value maps to the slot of its last leaf in
      sorted order.
     */
    method MakeFromValues(vs: seq<Value>)
      requires hashedValues == [] && tree.Length == 0
      modifies this
      ensures fresh(tree)
      ensures hashedValues == SortLeaves(MakeLeaves(prims, vs))
      ensures tree.Length == TreeSize(|vs|)
      ensures tree[..] == BuiltTree(prims, vs)
      ensures forall v :: v in values <==> v in vs
      ensures forall v :: v in values ==> IsLastSlotOf(hashedValues, tree.Length, v, values[v])
      ensures Valid()
    {
      ghost var leaves := MakeLeaves(prims, vs);
      ghost var sorted := SortLeaves(leaves);
      AppendLeaves(vs);
      assert hashedValues == leaves;
      hashedValues := SortLeaves(hashedValues);
      assert hashedValues == sorted;
      // the 2L - 1 placeholder slots
      var placeholder: Digest := seq(32, _ => 0);
      tree := new Digest[TreeSize(|hashedValues|)](_ => placeholder);
      PlaceLeaves();
      FillInternalNodes();
      assert hashedValues == sorted;
      SortedValuesAreInputs(prims, vs, hashedValues);
      IndexValues(vs);
      BuildIsValid(prims, vs, hashedValues, tree[..], values);
    }

    /** The first step of a build: one leaf per input value, in input order, appended to the leaves. */
    method AppendLeaves(vs: seq<Value>)
      modifies this`hashedValues
      ensures hashedValues == old(hashedValues) + MakeLeaves(prims, vs)
    {
      for k := 0 to |vs|
        invariant hashedValues == old(hashedValues) + MakeLeaves(prims, vs[..k])
      {
        assert MakeLeaves(prims, vs[..k + 1]) == MakeLeaves(prims, vs[..k]) + [Leaf(vs[k], LeafHash(prims, vs[k]))];
        hashedValues := hashedValues + [Leaf(vs[k], LeafHash(prims, vs[k]))];
      }
      assert vs[..|vs|] == vs;
    }

    /**
      Writes the digest of the `i`-th sorted leaf to the `i`-th slot counted
      from the end; the internal slots in front keep their placeholders.
     */
    method PlaceLeaves()
      requires tree.Length == TreeSize(|hashedValues|)
      modifies tree
      ensures HasLeafRow(tree[..], LeafRow(Hashes(hashedValues)))
      ensures forall j :: 0 <= j < tree.Length - |hashedValues| ==> tree[j] == old(tree[j])
    {
      var n, L := tree.Length, |hashedValues|;
      for k := 0 to L
        invariant forall j :: 0 <= j < k ==> tree[n - 1 - j] == hashedValues[j].hash
        invariant forall j :: 0 <= j < n - L ==> tree[j] == old(tree[j])
      {
        tree[n - 1 - k] := hashedValues[k].hash;
      }
      ReversedSlotsAreLeafRow(tree[..], hashedValues);
    }

    /**
      The downward fill: from the last internal slot down to the root, each
      slot gets the pair hash of its two children, which are already final
      when it is written.
     */
    method FillInternalNodes()
      requires HasLeafRow(tree[..], LeafRow(Hashes(hashedValues)))
      modifies tree
      ensures tree[..] == BuildTree(prims, LeafRow(Hashes(hashedValues)))
    {
      ghost var row := LeafRow(Hashes(hashedValues));
      var n, L := tree.Length, |hashedValues|;
      var i := n - 1 - L;
      LeafSlotsAreNodes(prims, tree[..], row);
      while i >= 0
        invariant -1 <= i <= n - 1 - L
        invariant FilledAfter(prims, tree[..], row, i)
      {
        FillStep(prims, tree[..], row, i);
        tree[i] := HashPair(prims, tree[LeftChild(i)], tree[RightChild(i)]);
        i := i - 1;
      }
      FilledIsBuilt(prims, tree[..], row);
    }

    /**
      The value map: every input value starts at slot 0, then each sorted
      leaf in turn writes its slot (the `i`-th counted from the end) under
      its value, so for a repeated value the last write wins.
     */
    method IndexValues(vs: seq<Value>)
      requires |hashedValues| == |vs|
      requires forall k :: 0 <= k < |vs| ==> hashedValues[k].value in vs
      requires forall v :: v in vs ==> exists k :: 0 <= k < |vs| && hashedValues[k].value == v
      modifies this`values
      ensures forall v :: v in values <==> v in vs
      ensures forall v :: v in values ==> IsLastSlotOf(hashedValues, tree.Length, v, values[v])
    {
      var n, hv := tree.Length, hashedValues;
      var m := map v | v in vs :: 0;
      for k := 0 to |hv|
        invariant forall v :: v in m <==> v in vs
        invariant IndexedUpTo(hv, n, k, m)
      {
        IndexStep(hv, n, k, m);
        m := m[hv[k].value := n - k - 1];
      }
      IndexComplete(hv, n, vs, m);
      values := m;
    }

    /**
      `getProof`: KeyError for a value never inserted; otherwise the hex
      digests of the proof path from the value's slot, whose fold is the
      root.
     */
    method GetProof(value: Value) returns (r: Result<seq<string>>)
      requires Valid()
      ensures value !in values <==> r == Err(KeyError)
      ensures value in values ==> tree.Length % 2 == 1 && 0 <= values[value] < tree.Length
      ensures value in values ==> r == Ok(HexList(ProofPath(tree[..], values[value])))
      ensures value in values ==>
        FoldProof(prims, LeafHash(prims, value), ProofPath(tree[..], values[value])) == tree[0]
    {
      if value !in values {
        return Err(KeyError);
      }
      ValidProofFolds(prims, hashedValues, tree[..], values, value);
      var proof := SiblingPath(values[value]);
      r := Ok(HexList(proof));
    }

    /**
      The loop of `getProof`: while the index is positive, collect the digest
      at its sibling and move to its parent.
     */
    method SiblingPath(start: int) returns (proof: seq<Digest>)
      requires tree.Length % 2 == 1 && 0 <= start < tree.Length
      ensures proof == ProofPath(tree[..], start)
    {
      ghost var t := tree[..];
      var index := start;
      proof := [];
      while index > 0
        invariant 0 <= index < |t|
        invariant proof + ProofPath(t, index) == ProofPath(t, start)
        decreases index
      {
        var sibling := tree[Sibling(index)];
        assert sibling == t[Sibling(index)];
        assert proof + ProofPath(t, index) == (proof + [sibling]) + ProofPath(t, Parent(index));
        proof := proof + [sibling];
        index := Parent(index);
      }
    }

    /**
      `getRoot`: IndexError on an empty tree; otherwise the hex of `tree[0]`,
      which every value's proof folds to.
     */
    function GetRoot(): (r: Result<string>)
      reads this, tree
      ensures r.Err? <==> tree.Length == 0
      ensures r.Err? ==> r.error == IndexError
      ensures Valid() && r.Ok? ==> forall v :: v in values ==>
        r.value == ToHex(FoldProof(prims, LeafHash(prims, v), ProofPath(tree[..], values[v])))
    {
      if tree.Length == 0 then Err(IndexError)
      else
        RootOfValid();
        Ok(ToHex(tree[0]))
    }

    /** Under Valid, every key's proof folds to `tree[0]`. */
    lemma RootOfValid()
      ensures Valid() ==> forall v :: v in values ==>
        && tree.Length % 2 == 1 && 0 <= values[v] < tree.Length
        && FoldProof(prims, LeafHash(prims, v), ProofPath(tree[..], values[v])) == tree[0]
    {
      if Valid() {
        forall v | v in values
          ensures && tree.Length % 2 == 1 && 0 <= values[v] < tree.Length
                  && FoldProof(prims, LeafHash(prims, v), ProofPath(tree[..], values[v])) == tree[0]
        {
          ValidProofFolds(prims, hashedValues, tree[..], values, v);
        }
      }
    }
  }
}
