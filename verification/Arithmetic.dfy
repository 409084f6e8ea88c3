/** The one fact about remainders that both the step ranges and the ring buffer rest on. */
module Arithmetic {
  lemma MulBounds(k: int, n: nat)
    ensures k >= 1 ==> k * n >= n
    ensures k <= -1 ==> k * n <= 0 - n
    ensures k == 0 ==> k * n == 0
  {
    if k >= 1 {
      assert k * n == (k - 1) * n + n;
    } else if k <= -1 {
      assert k * n == (k + 1) * n - n;
    }
  }

  /** Quotient and remainder are unique. */
  lemma ModUnique(x: nat, n: nat, q: nat, r: nat)
    requires r < n && x == q * n + r
    ensures x % n == r
  {
    var k := q - x / n;
    MulBounds(k, n);
    assert x == x / n * n + x % n;
    assert k * n == q * n - x / n * n;
  }
}
