/**
 * `usize::is_power_of_two`, the precondition check of the public entry
 * points. Rust defines it as "exactly one bit set", so 0 is not a power of
 * two. The width of `usize` plays no role here: every length the
 * model meets is a natural number.
 */
module PowerOfTwo {

  /** The number of one bits in the binary representation of n. */
  function CountOnes(n: nat): nat {
    if n == 0 then 0 else n % 2 + CountOnes(n / 2)
  }

  /** `n.is_power_of_two()`, as Rust defines it: `n.count_ones() == 1`. */
  predicate IsPowerOfTwo(n: nat) {
    CountOnes(n) == 1
  }

  /** 2 raised to the k. */
  function Pow2(k: nat): (r: nat)
    ensures r >= 1
  {
    if k == 0 then 1 else 2 * Pow2(k - 1)
  }

  /** Only 0 has no one bit. */
  lemma CountOnesZero(n: nat)
    ensures CountOnes(n) == 0 <==> n == 0
  {
    if n > 0 && n % 2 == 0 {
      CountOnesZero(n / 2);
    }
  }

  /**
   * A power of two above 1 is even and its half is again a power of two:
   * this is what lets the recursion split every region into two exact
   * halves of power-of-two length.
   */
  lemma {:induction false} HalfOfPowerOfTwo(n: nat)
    requires IsPowerOfTwo(n) && n > 1
    ensures n % 2 == 0 && IsPowerOfTwo(n / 2)
  {
    if n % 2 == 1 {
      CountOnesZero(n / 2);
    }
  }

  /** A power of two is at least 1; in particular 0 is rejected. */
  lemma PowerOfTwoPositive(n: nat)
    requires IsPowerOfTwo(n)
    ensures n >= 1
  {
  }

  /** The bit-count definition agrees with "n is 2 raised to some k". */
  lemma {:induction false} IsPowerOfTwoIffPow2(n: nat)
    ensures IsPowerOfTwo(n) <==> exists k: nat :: n == Pow2(k)
  {
    if IsPowerOfTwo(n) {
      var k := Log2(n);
      assert n == Pow2(k);
    }
    if exists k: nat :: n == Pow2(k) {
      var k: nat :| n == Pow2(k);
      Pow2IsPowerOfTwo(k);
    }
  }

  /** The exponent of a power of two. */
  lemma {:induction false} Log2(n: nat) returns (k: nat)
    requires IsPowerOfTwo(n)
    ensures n == Pow2(k)
  {
    if n == 1 {
      k := 0;
    } else {
      HalfOfPowerOfTwo(n);
      var j := Log2(n / 2);
      k := j + 1;
    }
  }

  /** Every 2 raised to some k has exactly one bit set. */
  lemma {:induction false} Pow2IsPowerOfTwo(k: nat)
    ensures IsPowerOfTwo(Pow2(k))
  {
    if k > 0 {
      Pow2IsPowerOfTwo(k - 1);
      assert Pow2(k) / 2 == Pow2(k - 1);
    }
  }
}
