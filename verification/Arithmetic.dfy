/** Quotients and remainders. */
module Arithmetic {
  lemma NoSmallMultiple(k: int, x: int)
    requires 0 < k && 0 - k < k * x < k
    ensures x == 0
  {
  }

  /** A quotient and a remainder that fit are the ones that division gives. */
  lemma Quotient(n: int, k: int, q: int, r: int)
    requires 0 < k && n == k * q + r && 0 <= r < k
    ensures n / k == q && n % k == r
  {
    assert k * (n / k - q) == r - n % k;
    NoSmallMultiple(k, n / k - q);
  }
}
