/** Integer helpers: powers of two and 256, big.Int.BitLen, and Go's
    truncating integer division. */
module Numeric {

  function Pow2(n: nat): (r: nat)
    ensures r >= 1
  {
    if n == 0 then 1 else 2 * Pow2(n - 1)
  }

  function Pow256(n: nat): (r: nat)
    ensures r >= 1
  {
    if n == 0 then 1 else 256 * Pow256(n - 1)
  }

  lemma {:induction false} Pow2Add(a: nat, b: nat)
    ensures Pow2(a + b) == Pow2(a) * Pow2(b)
  {
    if a > 0 {
      Pow2Add(a - 1, b);
      assert Pow2(a + b) == 2 * Pow2(a - 1 + b);
    }
  }

  lemma {:induction false} Pow2Monotone(a: nat, b: nat)
    requires a <= b
    ensures Pow2(a) <= Pow2(b)
  {
    if a < b {
      Pow2Monotone(a, b - 1);
    }
  }

  lemma {:induction false} Pow256IsPow2(n: nat)
    ensures Pow256(n) == Pow2(8 * n)
  {
    if n > 0 {
      Pow256IsPow2(n - 1);
      Pow2Add(8, 8 * (n - 1));
      assert 8 * n == 8 + 8 * (n - 1);
    }
  }

  lemma Pow256Monotone(a: nat, b: nat)
    requires a <= b
    ensures Pow256(a) <= Pow256(b)
  {
    Pow256IsPow2(a);
    Pow256IsPow2(b);
    Pow2Monotone(8 * a, 8 * b);
  }

  /** Number of significant bits of n, as big.Int.BitLen: 0 for 0. */
  function BitLen(n: nat): nat
  {
    if n == 0 then 0 else 1 + BitLen(n / 2)
  }

  /** BitLen(n) is the unique k with 2^(k-1) <= n < 2^k (k = 0 for n = 0). */
  lemma {:induction false} BitLenBounds(n: nat)
    ensures n < Pow2(BitLen(n))
    ensures n > 0 ==> Pow2(BitLen(n) - 1) <= n
  {
    if n > 0 {
      BitLenBounds(n / 2);
    }
  }

  lemma {:induction false} BitLenOfBounds(n: nat, k: nat)
    requires n < Pow2(k)
    requires k > 0 ==> Pow2(k - 1) <= n
    ensures BitLen(n) == k
  {
    if k == 0 {
    } else if n == 0 {
    } else {
      BitLenOfBounds(n / 2, k - 1);
    }
  }

  /** Go's `/` on int: the quotient truncated toward zero. */
  function GoQuo(a: int, b: int): (q: int)
    requires b > 0
    ensures a >= 0 ==> b * q <= a < b * q + b
    ensures a < 0 ==> b * q - b < a <= b * q
  {
    if a >= 0 then a / b else -((-a) / b)
  }

  /** The remainder modulo p is determined by any decomposition u == p*q + r
      with 0 <= r < p. */
  lemma ModUnique(u: int, p: int, q: int, r: int)
    requires p > 0
    requires u == p * q + r
    requires 0 <= r < p
    ensures u % p == r
  {
    var q', r' := u / p, u % p;
    assert p * (q - q') == r' - r;
    if q - q' >= 1 {
      MulGrows(p, q - q');
    } else if q - q' <= -1 {
      MulGrows(p, q' - q);
    }
  }

  lemma MulGrows(p: int, k: int)
    requires p > 0 && k >= 1
    ensures p * k >= p
  {
  }
}
