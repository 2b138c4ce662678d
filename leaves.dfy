/**
  Leaves (`Leaf`, a value with its digest), their order (`Leaf.__lt__`) and
  the stable sort of the leaves that makes the layout canonical.
 */
module Leaves {
  import opened Bytes
  import opened Hashing

  /** `Leaf(value, hash)`. */
  datatype Leaf = Leaf(value: Value, hash: Digest)

  /**
    `Leaf.__lt__`: the three-way answer of `compare_bytes` on the digests
    read as "less"; it holds exactly when `x`'s digest compares strictly
    below `y`'s, so never between leaves with equal digests.
   */
  function LeafLess(x: Leaf, y: Leaf): (r: bool)
    ensures r <==> Compare(x.hash, y.hash) < 0
    ensures r ==> x.hash != y.hash
  {
    CompareZeroIff(x.hash, y.hash);
    var diff := Compare(x.hash, y.hash);
    if diff > 0 then false
    else if diff < 0 then true
    else false
  }

  /**
    `Leaf.__lt__` is a strict weak order: irreflexive, transitive, and two
    leaves are incomparable exactly when their digests are equal.
   */
  lemma LeafLessStrictOrder(x: Leaf, y: Leaf, z: Leaf)
    ensures !LeafLess(x, x)
    ensures LeafLess(x, y) ==> !LeafLess(y, x)
    ensures LeafLess(x, y) && LeafLess(y, z) ==> LeafLess(x, z)
    ensures !LeafLess(x, y) && !LeafLess(y, x) <==> x.hash == y.hash
  {
    CompareZeroIff(x.hash, x.hash);
    CompareZeroIff(x.hash, y.hash);
    CompareZeroIff(x.hash, z.hash);
    CompareAntisymmetric(x.hash, y.hash);
    CompareAntisymmetric(x.hash, z.hash);
    CompareAntisymmetric(y.hash, z.hash);
    if LeafLess(x, y) && LeafLess(y, z) {
      CompareTransitive(x.hash, y.hash, z.hash);
    }
  }

  /** The elementwise image of a sequence, as a list comprehension builds it. */
  function MapSeq<X, Y>(f: X -> Y, s: seq<X>): (r: seq<Y>)
    ensures |r| == |s| && forall k :: 0 <= k < |s| ==> r[k] == f(s[k])
  {
    seq(|s|, k requires 0 <= k < |s| => f(s[k]))
  }

  /** Removing the element at `j` removes one occurrence of it from the multiset. */
  lemma RemoveAt<X>(b: seq<X>, j: nat)
    requires j < |b|
    ensures multiset(b[..j] + b[j + 1..]) == multiset(b) - multiset{b[j]}
  {
    assert b == b[..j] + [b[j]] + b[j + 1..];
    assert multiset(b) == multiset(b[..j]) + multiset{b[j]} + multiset(b[j + 1..]);
  }

  /** Mapping commutes with removing the element at `j`. */
  lemma MapRemoveAt<X, Y>(f: X -> Y, b: seq<X>, j: nat)
    requires j < |b|
    ensures multiset(MapSeq(f, b[..j] + b[j + 1..])) == multiset(MapSeq(f, b)) - multiset{f(b[j])}
  {
    var fb := MapSeq(f, b);
    assert MapSeq(f, b[..j] + b[j + 1..]) == fb[..j] + fb[j + 1..];
    RemoveAt(fb, j);
  }

  /** Mapping preserves "is a permutation of". */
  lemma {:induction false} MapPermutation<X, Y>(f: X -> Y, a: seq<X>, b: seq<X>)
    requires multiset(a) == multiset(b)
    ensures multiset(MapSeq(f, a)) == multiset(MapSeq(f, b))
    decreases |a|
  {
    if a == [] {
      assert |b| == |multiset(b)| == 0;
    } else {
      var x := a[0];
      assert x in multiset(b);
      var j :| 0 <= j < |b| && b[j] == x;
      var ra, rb := a[..0] + a[1..], b[..j] + b[j + 1..];
      assert multiset(ra) == multiset(rb) by {
        RemoveAt(a, 0);
        RemoveAt(b, j);
      }
      MapPermutation(f, ra, rb);
      var fa, fb := MapSeq(f, a), MapSeq(f, b);
      assert fa[0] == f(x) && fb[j] == f(x);
      assert multiset(fa) - multiset{f(x)} == multiset(fb) - multiset{f(x)} by {
        MapRemoveAt(f, a, 0);
        MapRemoveAt(f, b, j);
      }
      MultisetCancel(multiset(fa), multiset(fb), f(x));
    }
  }

  lemma MultisetCancel<X>(ma: multiset<X>, mb: multiset<X>, y: X)
    requires y in ma && y in mb && ma - multiset{y} == mb - multiset{y}
    ensures ma == mb
  {
    forall z
      ensures ma[z] == mb[z]
    {
      assert (ma - multiset{y})[z] == (mb - multiset{y})[z];
    }
  }

  function HashOf(l: Leaf): Digest { l.hash }

  /** The digests of a sequence of leaves, in order. */
  function Hashes(s: seq<Leaf>): seq<Digest>
  {
    MapSeq(HashOf, s)
  }

  /** A leaf for each input value, paired with its leaf digest, in input order. */
  function MakeLeaves(p: Primitives, vs: seq<Value>): seq<Leaf>
  {
    seq(|vs|, k requires 0 <= k < |vs| => Leaf(vs[k], LeafHash(p, vs[k])))
  }

  /** Digests in non-decreasing `compare_bytes` order. */
  ghost predicate DigestsSorted(s: seq<Digest>)
  {
    forall i, j :: 0 <= i < j < |s| ==> Compare(s[i], s[j]) <= 0
  }

  /** Leaves in non-decreasing order of their digests. */
  ghost predicate LeavesSorted(s: seq<Leaf>)
  {
    forall i, j :: 0 <= i < j < |s| ==> Compare(s[i].hash, s[j].hash) <= 0
  }

  /**
    Inserts `x` after every leaf that is not greater than it: the step of a
    stable insertion sort.
   */
  function Insert(x: Leaf, s: seq<Leaf>): (r: seq<Leaf>)
    ensures |r| == |s| + 1
    ensures multiset(r) == multiset(s) + multiset{x}
  {
    if s == [] then [x]
    else if LeafLess(x, s[0]) then [x] + s
    else
      assert s == [s[0]] + s[1..];
      [s[0]] + Insert(x, s[1..])
  }

  /**
    The sort of the leaves in a build: Python's sort is stable and orders by
    `Leaf.__lt__`; every stable sort by that order gives this result, so it
    is written here as insertion of the elements one by one, first to last.
   */
  function SortLeaves(s: seq<Leaf>): (r: seq<Leaf>)
    ensures |r| == |s|
    ensures multiset(r) == multiset(s)
  {
    if s == [] then []
    else
      assert s == s[..|s| - 1] + [s[|s| - 1]];
      Insert(s[|s| - 1], SortLeaves(s[..|s| - 1]))
  }

  /** No leaf of `s` has a digest below `h`. */
  ghost predicate AllAtLeast(h: Digest, s: seq<Leaf>)
  {
    forall j :: 0 <= j < |s| ==> Compare(h, s[j].hash) <= 0
  }

  /** A leaf no greater than every leaf of a sorted sequence can go in front of it. */
  lemma PrependSorted(y: Leaf, s: seq<Leaf>)
    requires LeavesSorted(s) && AllAtLeast(y.hash, s)
    ensures LeavesSorted([y] + s)
  {
    var r := [y] + s;
    forall i, j | 0 <= i < j < |r|
      ensures Compare(r[i].hash, r[j].hash) <= 0
    {
      if i == 0 {
        assert r[j] == s[j - 1];
      } else {
        assert r[i] == s[i - 1] && r[j] == s[j - 1];
      }
    }
  }

  /** A lower bound of `s` and `x` is a lower bound of `Insert(x, s)`. */
  lemma InsertAtLeast(h: Digest, x: Leaf, s: seq<Leaf>)
    requires AllAtLeast(h, s) && Compare(h, x.hash) <= 0
    ensures AllAtLeast(h, Insert(x, s))
  {
    var t := Insert(x, s);
    forall j | 0 <= j < |t|
      ensures Compare(h, t[j].hash) <= 0
    {
      assert t[j] in multiset(t);
      if t[j] != x {
        assert t[j] in multiset(s);
        var k :| 0 <= k < |s| && s[k] == t[j];
      }
    }
  }

  lemma {:induction false} InsertSorted(x: Leaf, s: seq<Leaf>)
    requires LeavesSorted(s)
    ensures LeavesSorted(Insert(x, s))
    decreases |s|
  {
    if s == [] {
    } else if LeafLess(x, s[0]) {
      forall j | 0 <= j < |s|
        ensures Compare(x.hash, s[j].hash) <= 0
      {
        if j > 0 {
          CompareTransitive(x.hash, s[0].hash, s[j].hash);
        }
      }
      PrependSorted(x, s);
    } else {
      var rest := s[1..];
      InsertSorted(x, rest);
      CompareAntisymmetric(x.hash, s[0].hash);
      assert AllAtLeast(s[0].hash, rest) by {
        forall j | 0 <= j < |rest|
          ensures Compare(s[0].hash, rest[j].hash) <= 0
        {
          assert rest[j] == s[j + 1];
        }
      }
      InsertAtLeast(s[0].hash, x, rest);
      PrependSorted(s[0], Insert(x, rest));
    }
  }

  /** The sort yields leaves in non-decreasing digest order. */
  lemma {:induction false} SortLeavesSorted(s: seq<Leaf>)
    ensures LeavesSorted(SortLeaves(s))
    decreases |s|
  {
    if s != [] {
      SortLeavesSorted(s[..|s| - 1]);
      InsertSorted(s[|s| - 1], SortLeaves(s[..|s| - 1]));
    }
  }

  lemma SortedHeadIsLeast(a: seq<Digest>, x: Digest)
    requires DigestsSorted(a) && x in multiset(a)
    ensures Compare(a[0], x) <= 0
  {
    var i :| 0 <= i < |a| && a[i] == x;
    CompareZeroIff(x, x);
  }

  /**
    A sorted sequence of digests is determined by its multiset: two sorted
    arrangements of the same digests are equal.
   */
  lemma {:induction false} SortedUnique(a: seq<Digest>, b: seq<Digest>)
    requires DigestsSorted(a) && DigestsSorted(b)
    requires multiset(a) == multiset(b)
    ensures a == b
    decreases |a|
  {
    if a == [] {
      assert |b| == |multiset(b)| == 0;
    } else {
      SortedUniqueStep(a, b);
      SortedUnique(a[1..], b[1..]);
      assert a == [a[0]] + a[1..] && b == [b[0]] + b[1..];
      assert a == [a[0]] + a[1..] && b == [b[0]] + b[1..];
    }
  }

  /** Peeling the first digest off two sorted arrangements of the same digests. */
  lemma SortedUniqueStep(a: seq<Digest>, b: seq<Digest>)
    requires DigestsSorted(a) && DigestsSorted(b) && a != []
    requires multiset(a) == multiset(b)
    ensures b != [] && a[0] == b[0]
    ensures DigestsSorted(a[1..]) && DigestsSorted(b[1..])
    ensures multiset(a[1..]) == multiset(b[1..])
  {
    assert |b| == |multiset(b)| == |multiset(a)| == |a|;
    SortedHeadsEqual(a, b);
    SortedTail(a);
    SortedTail(b);
    TailMultiset(a);
    TailMultiset(b);
  }

  /** Two sorted arrangements of the same digests start with the same digest. */
  lemma SortedHeadsEqual(a: seq<Digest>, b: seq<Digest>)
    requires DigestsSorted(a) && DigestsSorted(b) && a != [] && b != []
    requires multiset(a) == multiset(b)
    ensures a[0] == b[0]
  {
    assert b[0] in multiset(b) && a[0] in multiset(a);
    SortedHeadIsLeast(a, b[0]);
    SortedHeadIsLeast(b, a[0]);
    CompareZeroIff(a[0], b[0]);
    CompareAntisymmetric(a[0], b[0]);
  }

  lemma SortedTail(a: seq<Digest>)
    requires DigestsSorted(a) && a != []
    ensures DigestsSorted(a[1..])
  {
    forall i, j | 0 <= i < j < |a| - 1
      ensures Compare(a[1..][i], a[1..][j]) <= 0
    {
      assert a[1..][i] == a[i + 1] && a[1..][j] == a[j + 1];
    }
  }

  lemma TailMultiset<X>(a: seq<X>)
    requires a != []
    ensures multiset(a[1..]) == multiset(a) - multiset{a[0]}
  {
    assert a == [a[0]] + a[1..];
  }

  /**
    The sorted digests depend only on the multiset of digests, not on the
    order of the input leaves nor on their values.
   */
  lemma SortedHashesCanonical(s1: seq<Leaf>, s2: seq<Leaf>)
    requires multiset(Hashes(s1)) == multiset(Hashes(s2))
    ensures Hashes(SortLeaves(s1)) == Hashes(SortLeaves(s2))
  {
    SortLeavesSorted(s1);
    SortLeavesSorted(s2);
    MapPermutation(HashOf, SortLeaves(s1), s1);
    MapPermutation(HashOf, SortLeaves(s2), s2);
    SortedUnique(Hashes(SortLeaves(s1)), Hashes(SortLeaves(s2)));
  }

  /** Every leaf of the sorted sequence was built from an input value and carries its digest. */
  lemma SortedLeavesAreInputLeaves(p: Primitives, vs: seq<Value>, k: nat)
    requires k < |vs|
    ensures var l := SortLeaves(MakeLeaves(p, vs))[k]; l.value in vs && l.hash == LeafHash(p, l.value)
  {
    var sorted := SortLeaves(MakeLeaves(p, vs));
    assert sorted[k] in multiset(MakeLeaves(p, vs));
  }

  /** Every input value has a leaf in the sorted sequence. */
  lemma InputValuesAreSorted(p: Primitives, vs: seq<Value>, v: Value)
    requires v in vs
    ensures exists k :: 0 <= k < |vs| && SortLeaves(MakeLeaves(p, vs))[k].value == v
  {
    var i :| 0 <= i < |vs| && vs[i] == v;
    var leaves := MakeLeaves(p, vs);
    assert leaves[i] in multiset(SortLeaves(leaves));
  }
}
