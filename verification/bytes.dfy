/** Byte-level vocabulary of the LZ4P container: bytes, little-endian 32-bit
    words, the C conversions of a 32-bit value to `int`, and sums. */
module Bytes {

  newtype byte = x: int | 0 <= x < 256

  const TWO_31: int := 0x8000_0000
  const TWO_32: int := 0x1_0000_0000

  /** The unsigned 32-bit word stored little-endian at `s[off..off + 4]`. */
  function U32At(s: seq<byte>, off: nat): (r: nat)
    requires off + 4 <= |s|
    ensures r < TWO_32
  {
    s[off] as nat + 0x100 * s[off + 1] as nat
      + 0x1_0000 * s[off + 2] as nat + 0x100_0000 * s[off + 3] as nat
  }

  /** The four bytes that store `x` little-endian; `U32At` reads it back. */
  function LE32(x: nat): (r: seq<byte>)
    requires x < TWO_32
    ensures |r| == 4 && U32At(r, 0) == x
  {
    var q1 := x / 0x100;
    var q2 := q1 / 0x100;
    var b0, b1, b2, b3 := x % 0x100, q1 % 0x100, q2 % 0x100, q2 / 0x100;
    assert x == b0 + 0x100 * q1 && q1 == b1 + 0x100 * q2 && q2 == b2 + 0x100 * b3;
    assert b3 < 0x100 by {
      assert q1 < 0x100_0000;
      assert q2 < 0x1_0000;
    }
    [b0 as byte, b1 as byte, b2 as byte, b3 as byte]
  }

  /** A word read from a slice is the word read at the same place in the whole. */
  lemma U32AtSlice(s: seq<byte>, off: nat)
    requires off + 4 <= |s|
    ensures U32At(s[off..off + 4], 0) == U32At(s, off)
  {
  }

  predicate IsInt32(x: int) {
    -TWO_31 <= x < TWO_31
  }

  /** The two's-complement reading of `x` modulo 2^32: what C yields when a
      32-bit unsigned value, or an int sum that left the range, lands in an
      `int`. Written as repeated wrapping, so that the common cases stay
      linear; `Int32Mod` gives the closed form. */
  function Int32(x: int): (r: int)
    ensures IsInt32(r)
    ensures IsInt32(x) ==> r == x
    ensures 0 <= x ==> r <= x
    decreases if x < -TWO_31 then -x else if x >= TWO_31 then x else 0
  {
    if x < -TWO_31 then Int32(x + TWO_32)
    else if x >= TWO_31 then Int32(x - TWO_32)
    else x
  }

  /** The remainder modulo 2^32 is fixed by any decomposition. */
  lemma ModOf(y: int, q: int, r: int)
    requires y == q * TWO_32 + r && 0 <= r < TWO_32
    ensures y % TWO_32 == r
  {
  }

  /** `Int32` is reduction modulo 2^32 into [-2^31, 2^31). */
  lemma {:induction false} Int32Mod(x: int)
    ensures Int32(x) == (x + TWO_31) % TWO_32 - TWO_31
    decreases if x < -TWO_31 then -x else if x >= TWO_31 then x else 0
  {
    var y := x + TWO_31;
    if x < -TWO_31 {
      Int32Mod(x + TWO_32);
      ModOf(y, (y + TWO_32) / TWO_32 - 1, (y + TWO_32) % TWO_32);
    } else if x >= TWO_31 {
      Int32Mod(x - TWO_32);
      ModOf(y, (y - TWO_32) / TWO_32 + 1, (y - TWO_32) % TWO_32);
    } else {
      ModOf(y, 0, y);
    }
  }

  /** Wrapping once per addition is the same as wrapping the exact sum. */
  lemma Int32Add(a: int, b: int)
    ensures Int32(Int32(a) + b) == Int32(a + b)
  {
    Int32Mod(a);
    Int32Mod(Int32(a) + b);
    Int32Mod(a + b);
    var y := a + b + TWO_31;
    var q := (a + TWO_31) / TWO_32;
    ModOf(y - q * TWO_32, y / TWO_32 - q, y % TWO_32);
  }

  /** A 32-bit count read into an `int` is non-negative exactly when it is
      below 2^31, and then it is unchanged; so an `int` `x` differs from the
      converted count (or is negative) exactly when it differs from the count. */
  lemma Int32OfWord(t: nat, x: int)
    requires t < TWO_32 && IsInt32(x)
    ensures (x < 0 || x != Int32(t)) <==> x != t
    ensures Int32(t) >= 0 <==> t < TWO_31
  {
    if t >= TWO_31 {
      assert Int32(t) == t - TWO_32;
    }
  }

  function Sum(s: seq<int>): (r: int)
    ensures (forall i :: 0 <= i < |s| ==> s[i] >= 0) ==> r >= 0
  {
    if s == [] then 0 else Sum(s[..|s| - 1]) + s[|s| - 1]
  }

  /** `Sum` peels the last element; this is the view from the front. */
  lemma {:induction false} SumFront(s: seq<int>)
    requires s != []
    ensures Sum(s) == s[0] + Sum(s[1..])
  {
    if |s| > 1 {
      assert s[1..][..|s[1..]| - 1] == s[..|s| - 1][1..];
      SumFront(s[..|s| - 1]);
    }
  }

  lemma SumSnoc(s: seq<int>, n: nat)
    requires n < |s|
    ensures Sum(s[..n + 1]) == Sum(s[..n]) + s[n]
  {
    assert s[..n + 1][..n] == s[..n];
  }

  lemma MulSucc(n: nat, k: nat)
    ensures (n + 1) * k == n * k + k
  {
  }

  lemma MulNonNeg(a: nat, b: nat)
    ensures 0 <= a * b
  {
  }

  lemma MulLe(a: nat, b: nat, k: nat)
    requires a <= b
    ensures a * k <= b * k
  {
    assert b * k == a * k + (b - a) * k;
  }
}
