/** Machine sizes, powers of two, quotients and remainders. */
module Arithmetic {

  const U64: nat := 0x1_0000_0000_0000_0000

  /** What `n != 0 && (n & (n - 1)) == 0` tests. */
  predicate PowerOfTwo(n: nat) {
    n == 1 || (n > 0 && n % 2 == 0 && PowerOfTwo(n / 2))
  }

  lemma {:induction false} PowerOfTwoPositive(n: nat)
    ensures PowerOfTwo(n) ==> n > 0
  {
  }

  lemma MultipleBounds(k: int, d: nat)
    ensures k >= 1 ==> k * d >= d
    ensures k <= -1 ==> k * d <= 0 - d
  {
    if k >= 1 {
      assert (k - 1) * d >= 0;
    } else if k <= -1 {
      assert (-1 - k) * d >= 0;
    }
  }

  lemma DivModUnique(x: int, d: int, q: int, r: int)
    requires d > 0 && x == q * d + r && 0 <= r < d
    ensures x / d == q && x % d == r
  {
    var k := x / d - q;
    MultipleBounds(k, d);
    assert x == x / d * d + x % d;
    assert k * d == r - x % d;
  }
}
