/**
  Byte strings, their unsigned lexicographic comparison (`compare_bytes`) and
  the `0x`-prefixed lower-case hex rendering (`_to_hex`).
 */
module Bytes {

  /** An element of a Python `bytes` object. */
  type byte = x: int | 0 <= x < 256

  /** A Keccak-256 output: exactly 32 bytes. */
  type Digest = s: seq<byte> | |s| == 32 witness seq(32, _ => 0)

  /**
    The value `compare_bytes(a, b)` returns: the difference of the first pair of
    bytes that differ, or, when one string is a prefix of the other (`<=` on
    sequences), the difference of the lengths; so apart from that case the
    result lies in `-255 .. 255`.
   */
  function Compare(a: seq<byte>, b: seq<byte>): (r: int)
    ensures a <= b || b <= a ==> r == |a| - |b|
    ensures -255 <= r <= 255 || r == |a| - |b|
    decreases |a|
  {
    if |a| == 0 || |b| == 0 then |a| - |b|
    else if a[0] != b[0] then a[0] as int - b[0] as int
    else Compare(a[1..], b[1..])
  }

  /** `compare_bytes`: a counted loop over the common prefix. */
  method CompareBytes(a: seq<byte>, b: seq<byte>) returns (d: int)
    ensures d == Compare(a, b)
  {
    var n := if |a| < |b| then |a| else |b|;
    var i := 0;
    while i < n
      invariant 0 <= i <= n
      invariant Compare(a[i..], b[i..]) == Compare(a, b)
    {
      if a[i] != b[i] {
        return a[i] as int - b[i] as int;
      }
      assert a[i..][1..] == a[i + 1..] && b[i..][1..] == b[i + 1..];
      i := i + 1;
    }
    return |a| - |b|;
  }

  /**
    Compare read without recursion: if `k` is the length of the common prefix
    of `a` and `b`, the result is the difference of the bytes at `k`, or the
    difference of the lengths when one string ends at `k`.
   */
  lemma {:induction false} CompareAtFirstDifference(a: seq<byte>, b: seq<byte>, k: nat)
    requires k <= |a| && k <= |b| && a[..k] == b[..k]
    requires k == |a| || k == |b| || a[k] != b[k]
    ensures Compare(a, b) == if k < |a| && k < |b| then a[k] - b[k] else |a| - |b|
  {
    if k > 0 {
      assert a[0] == a[..k][0] == b[..k][0] == b[0];
      assert a[1..][..k - 1] == a[..k][1..] == b[..k][1..] == b[1..][..k - 1];
      CompareAtFirstDifference(a[1..], b[1..], k - 1);
    }
  }

  /** Swapping the arguments negates the result exactly. */
  lemma {:induction false} CompareAntisymmetric(a: seq<byte>, b: seq<byte>)
    ensures Compare(b, a) == -Compare(a, b)
    decreases |a|
  {
    if |a| > 0 && |b| > 0 && a[0] == b[0] {
      CompareAntisymmetric(a[1..], b[1..]);
    }
  }

  /** The result is zero exactly when the two strings are equal. */
  lemma {:induction false} CompareZeroIff(a: seq<byte>, b: seq<byte>)
    ensures Compare(a, b) == 0 <==> a == b
    decreases |a|
  {
    if |a| > 0 && |b| > 0 && a[0] == b[0] {
      CompareZeroIff(a[1..], b[1..]);
      assert a == [a[0]] + a[1..] && b == [b[0]] + b[1..];
    }
  }

  /** "Compares at most" is transitive. */
  lemma {:induction false} CompareTransitive(a: seq<byte>, b: seq<byte>, c: seq<byte>)
    requires Compare(a, b) <= 0 && Compare(b, c) <= 0
    ensures Compare(a, c) <= 0
    decreases |a|
  {
    if |a| > 0 && |b| > 0 && |c| > 0 && a[0] == b[0] == c[0] {
      CompareTransitive(a[1..], b[1..], c[1..]);
    }
  }

  /** `Compare(_, _) <= 0` is a total order on byte strings. */
  lemma CompareTotalOrder(a: seq<byte>, b: seq<byte>, c: seq<byte>)
    ensures Compare(a, a) == 0
    ensures Compare(a, b) <= 0 || Compare(b, a) <= 0
    ensures Compare(a, b) <= 0 && Compare(b, a) <= 0 ==> a == b
    ensures Compare(a, b) <= 0 && Compare(b, c) <= 0 ==> Compare(a, c) <= 0
  {
    CompareZeroIff(a, a);
    CompareZeroIff(a, b);
    CompareAntisymmetric(a, b);
    if Compare(a, b) <= 0 && Compare(b, c) <= 0 {
      CompareTransitive(a, b, c);
    }
  }

  /** The lower-case hex digit of a nibble. */
  function HexDigit(n: int): (c: char)
    requires 0 <= n < 16
    ensures c in "0123456789abcdef"
  {
    if n < 10 then (48 + n) as char else (87 + n) as char
  }

  /** The two lower-case hex digits of a byte, high nibble first. */
  function HexByte(b: byte): (r: string)
    ensures |r| == 2
  {
    [HexDigit(b / 16), HexDigit(b % 16)]
  }

  /** Different bytes have different digit pairs. */
  lemma HexByteInjective(a: byte, b: byte)
    requires HexByte(a) == HexByte(b)
    ensures a == b
  {
    assert HexDigit(a / 16) == HexDigit(b / 16) && HexDigit(a % 16) == HexDigit(b % 16);
  }

  /** The hex rendering of a byte string: the digit pairs of the bytes, in order. */
  function Hex(x: seq<byte>): (r: string)
    ensures |r| == 2 * |x|
  {
    if x == [] then "" else HexByte(x[0]) + Hex(x[1..])
  }

  /** Byte `k` of `x` is rendered at positions `2k` and `2k + 1` of `Hex(x)`. */
  lemma {:induction false} HexAt(x: seq<byte>, k: nat)
    requires k < |x|
    ensures Hex(x)[2 * k..2 * k + 2] == HexByte(x[k])
  {
    var head, rest := HexByte(x[0]), Hex(x[1..]);
    assert Hex(x) == head + rest;
    if k == 0 {
      assert (head + rest)[0..2] == head;
    } else {
      HexAt(x[1..], k - 1);
      SliceAfterPrefix(head, rest, 2 * k, 2 * k + 2);
      assert x[1..][k - 1] == x[k];
    }
  }

  /** A slice that lies past the prefix `u` of `u + v` is a slice of `v`. */
  lemma SliceAfterPrefix<T>(u: seq<T>, v: seq<T>, i: nat, j: nat)
    requires |u| <= i <= j <= |u| + |v|
    ensures (u + v)[i..j] == v[i - |u|..j - |u|]
  {
  }

  /** `_to_hex`: `"0x"` followed by the hex digits. */
  function ToHex(x: seq<byte>): (r: string)
    ensures |r| == 2 + 2 * |x| && r[..2] == "0x"
  {
    "0x" + Hex(x)
  }

  /** Distinct byte strings render as distinct hex strings. */
  lemma ToHexInjective(x: seq<byte>, y: seq<byte>)
    requires ToHex(x) == ToHex(y)
    ensures x == y
  {
    var r := ToHex(x);
    assert |x| == |y|;
    forall k | 0 <= k < |x|
      ensures x[k] == y[k]
    {
      HexAt(x, k);
      HexAt(y, k);
      assert Hex(x) == r[2..] == Hex(y);
      HexByteInjective(x[k], y[k]);
    }
  }
}
