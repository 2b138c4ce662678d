/**
  Index arithmetic of the flat, breadth-first tree array: the root is at 0 and
  the children of `i` are at `2i + 1` and `2i + 2`. Indices are Python
  integers, so these functions are total on `int`.
 */
module Indices {

  /**
    `parentIndex`: half of `i - 1`, rounded down. Dafny's `/` rounds toward negative
    infinity for a positive divisor, which is the floor the source takes.
    The result is the index whose two children include `i`.
   */
  function Parent(i: int): (r: int)
    ensures i == 2 * r + 1 || i == 2 * r + 2
    ensures i > 0 ==> 0 <= r < i
    ensures i == 0 ==> r == -1
  {
    (i - 1) / 2
  }

  /** `leftChildIndex`: an odd index whose parent is `i`. */
  function LeftChild(i: int): (r: int)
    ensures r % 2 == 1 && Parent(r) == i
    ensures i >= 0 ==> r > i
  {
    2 * i + 1
  }

  /** `rightChildIndex`: the even index just after the left child, with the same parent. */
  function RightChild(i: int): (r: int)
    ensures r % 2 == 0 && Parent(r) == i && r == LeftChild(i) + 1
  {
    2 * i + 2
  }

  /**
    `siblingIndex`: subtracts minus one raised to the parity of `i`, that is
    it gives `i + 1` for an odd `i` and `i - 1` for an even one. Python's `%` with a positive divisor is never
    negative, as Dafny's is not. The result is the other child of the same
    parent.
   */
  function Sibling(i: int): (r: int)
    ensures r != i && Parent(r) == Parent(i)
    ensures i > 0 ==> r > 0
  {
    var sign := if i % 2 == 0 then 1 else -1;
    i - sign
  }

  /** Both children of `i` have `i` as their parent. */
  lemma ParentOfChildren(i: int)
    ensures Parent(LeftChild(i)) == i && Parent(RightChild(i)) == i
  {
  }

  /** The sibling of the sibling is the index itself. */
  lemma SiblingInvolutive(i: int)
    ensures Sibling(Sibling(i)) == i
  {
  }

  /** A positive index and its sibling are exactly the two children of their parent. */
  lemma SiblingsAreChildren(i: int)
    requires i > 0
    ensures (i == LeftChild(Parent(i)) && Sibling(i) == RightChild(Parent(i)))
         || (i == RightChild(Parent(i)) && Sibling(i) == LeftChild(Parent(i)))
  {
  }
}
