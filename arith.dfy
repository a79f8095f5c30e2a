/** Facts about Euclidean remainder that the ring's alignment arguments use. */
module Arith {

  /** Remainders of numbers within one turn of [0, n). */
  lemma ModInRange(x: int, n: int)
    requires n > 0 && -n <= x < 2 * n
    ensures 0 <= x < n ==> x % n == x
    ensures n <= x ==> x % n == x - n
    ensures x < 0 ==> x % n == x + n
  {
  }

  /** A multiple of n strictly between -n and n is zero. */
  lemma MulZero(d: int, n: int)
    requires n > 0 && -n < d * n < n
    ensures d == 0
  {
  }

  /** The remainder is determined by any quotient/remainder decomposition. */
  lemma ModUnique(x: int, n: int, q: int, r: int)
    requires n > 0 && x == q * n + r && 0 <= r < n
    ensures x % n == r
  {
    var q0, r0 := x / n, x % n;
    assert x == q0 * n + r0;
    assert q * n - q0 * n == (q - q0) * n;
    MulZero(q - q0, n);
  }

  /** Adding or removing one whole turn keeps a multiple of n a multiple of n. */
  lemma MultipleShift(x: int, e: int, n: int)
    requires n > 0 && x % n == 0 && -1 <= e <= 1
    ensures (x + e * n) % n == 0
  {
    var q := x / n;
    assert x == q * n;
    assert x + e * n == (q + e) * n;
    ModUnique(x + e * n, n, q + e, 0);
  }
}
