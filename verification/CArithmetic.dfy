/** C integers: division, and storing in narrow types. */
module CArithmetic {

  /** The quotient truncates towards zero. */
  function CDiv(a: int, b: int): (q: int)
    requires b > 0
    ensures a >= 0 ==> q == a / b
  {
    if a >= 0 then a / b else -((-a) / b)
  }

  type byte = x: int | 0 <= x < 0x100

  /** Storing an int in a short. */
  function Short(x: int): (s: int)
    ensures -0x8000 <= s < 0x8000
    ensures -0x8000 <= x < 0x8000 ==> s == x
  {
    (x + 0x8000) % 0x1_0000 - 0x8000
  }

  /** r is the remainder of x by n when x == q*n + r. */
  lemma Remainder(x: int, q: int, n: nat, r: nat)
    requires r < n && x == q * n + r
    ensures x % n == r
  {
    AtLeast(n, x / n - q);
    assert n * (x / n - q) == r - x % n;
  }

  lemma AtLeast(m: nat, e: int)
    ensures e > 0 ==> m * e >= m
    ensures e < 0 ==> m * e <= 0 - m
  {
  }
}
