/**
 * The 32-bit signed integers of C# (`int`) and the unchecked `++` the
 * handler applies to its identifier counter.
 */
module Int32Arith {

  const MinInt32: int := -0x8000_0000
  const MaxInt32: int := 0x7fff_ffff

  /** The number of distinct 32-bit values. */
  const Modulus: int := 0x1_0000_0000

  type Int32 = x: int | MinInt32 <= x <= MaxInt32

  /**
   * Two's-complement truncation: the 32-bit value that is congruent to
   * `n` modulo 2^32. This is the reference for every wrapping operation.
   */
  function Wrap(n: int): Int32 {
    (n - MinInt32) % Modulus + MinInt32
  }

  /**
   * `x++` on a C# `int` in an unchecked context (the compiler default):
   * it is `x + 1` truncated to 32 bits, so int.MaxValue steps to int.MinValue.
   */
  function Inc(x: Int32): (r: Int32)
    ensures r == Wrap(x + 1)
    ensures x < MaxInt32 ==> r == x + 1
  {
    if x == MaxInt32 then MinInt32 else x + 1
  }

  /** Truncation leaves in-range values alone. */
  lemma WrapInRange(n: int)
    requires MinInt32 <= n <= MaxInt32
    ensures Wrap(n) == n
  {
  }

  /** Truncating first and then adding one is the same as adding one and then truncating. */
  lemma WrapSucc(n: int)
    ensures Wrap(Wrap(n) + 1) == Wrap(n + 1)
  {
    var q := (n - MinInt32) / Modulus;
    var w := (n - MinInt32) % Modulus;
    assert n - MinInt32 == q * Modulus + w;
    assert Wrap(n) + 1 - MinInt32 == w + 1;
    if w + 1 < Modulus {
      assert (n + 1 - MinInt32) == q * Modulus + (w + 1);
      assert (n + 1 - MinInt32) % Modulus == w + 1;
    } else {
      assert (n + 1 - MinInt32) == (q + 1) * Modulus;
      assert (n + 1 - MinInt32) % Modulus == 0;
    }
  }

  /** Incrementing a truncated value is truncating the successor. */
  lemma IncOfWrap(n: int)
    ensures Inc(Wrap(n)) == Wrap(n + 1)
  {
    WrapSucc(n);
  }
}
