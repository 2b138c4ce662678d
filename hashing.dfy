/**
  The two hashes of the tree: the leaf digest of a value (`leafHash`) and the
  canonical, order-independent hash of two node digests (`hashPair`).
  Keccak-256 and the ABI encoder are not modelled; they come in as parameters.
 */
module Hashing {
  import opened Bytes

  /** A committed value: the bytes of an address. */
  type Value = seq<byte>

  /**
    The foreign primitives the hashes are built from: Keccak-256 (any byte
    string to 32 bytes) and the ABI encoding of a value as a single `address`.
   */
  datatype Primitives = Primitives(keccak256: seq<byte> -> Digest, abiEncodeAddress: Value -> seq<byte>)

  /**
    `leafHash`: Keccak-256 applied twice to the ABI encoding. The outer hash
    always takes a 32-byte message, unlike the 64-byte messages of HashPair.
   */
  function LeafHash(p: Primitives, v: Value): (r: Digest)
    ensures exists inner: Digest :: r == p.keccak256(inner)
  {
    var inner := p.keccak256(p.abiEncodeAddress(v));
    assert p.keccak256(p.keccak256(p.abiEncodeAddress(v))) == p.keccak256(inner);
    p.keccak256(inner)
  }

  /**
    The two-element stable sort by `compare_bytes` inside `hashPair`, which
    swaps only when `b` compares strictly below `a`.
   */
  function OrderPair(a: seq<byte>, b: seq<byte>): (r: (seq<byte>, seq<byte>))
    ensures r == (a, b) || r == (b, a)
    ensures Compare(r.0, r.1) <= 0
    ensures Compare(a, b) == 0 ==> r == (a, b)
  {
    CompareAntisymmetric(a, b);
    if Compare(b, a) < 0 then (b, a) else (a, b)
  }

  /** The ordered pair does not depend on the order of the arguments. */
  lemma OrderPairSymmetric(a: seq<byte>, b: seq<byte>)
    ensures OrderPair(a, b) == OrderPair(b, a)
  {
    CompareAntisymmetric(a, b);
    CompareZeroIff(a, b);
  }

  /** `hashPair`: Keccak-256 of the two inputs concatenated in sorted order. */
  function HashPair(p: Primitives, a: seq<byte>, b: seq<byte>): (r: Digest)
    ensures Compare(a, b) <= 0 ==> r == p.keccak256(a + b)
    ensures Compare(a, b) > 0 ==> r == p.keccak256(b + a)
  {
    var ab := OrderPair(a, b);
    CompareAntisymmetric(a, b);
    p.keccak256(ab.0 + ab.1)
  }

  /** Pair hashing is symmetric, so a proof need not say which side a sibling is on. */
  lemma HashPairSymmetric(p: Primitives, a: seq<byte>, b: seq<byte>)
    ensures HashPair(p, a, b) == HashPair(p, b, a)
  {
    OrderPairSymmetric(a, b);
  }
}
