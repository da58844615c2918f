/** Facts about Dafny's Euclidean `/` and `%` that the other modules share. */
module Arithmetic {

  /** A positive multiple of `k` is at least `k`. */
  lemma {:induction false} MulAtLeast(a: int, k: int)
    requires a >= 1 && k > 0
    ensures a * k >= k
    decreases a
  {
    if a > 1 {
      MulAtLeast(a - 1, k);
      assert a * k == (a - 1) * k + k;
    }
  }

  /** A quotient and remainder in range determine `n % k`. */
  lemma ModUnique(n: int, k: int, q: int, r: int)
    requires k > 0 && 0 <= r < k && n == q * k + r
    ensures n % k == r
  {
    var q', r' := n / k, n % k;
    assert n == q' * k + r';
    if q' > q {
      assert (q' - q) * k == q' * k - q * k;
      MulAtLeast(q' - q, k);
      assert false;
    } else if q' < q {
      assert (q - q') * k == q * k - q' * k;
      MulAtLeast(q - q', k);
      assert false;
    }
  }

  /** Subtracting the modulus does not change the remainder. */
  lemma ModShift(i: int, k: int)
    requires k > 0
    ensures (i - k) % k == i % k
  {
    var j := i - k;
    assert j == (j / k) * k + j % k;
    assert i == (j / k + 1) * k + j % k;
    ModUnique(i, k, j / k + 1, j % k);
  }

  /** Multiples of `k` leave no remainder. */
  lemma ModMultiple(q: int, k: int)
    requires k > 0
    ensures (q * k) % k == 0
  {
    ModUnique(q * k, k, q, 0);
  }
}
