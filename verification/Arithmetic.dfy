/** Bytes, the smaller of two numbers, and division where the solver needs a hand. */
module Arithmetic {

  type Byte = b: int | 0 <= b < 256

  function Min(a: int, b: int): int {
    if a < b then a else b
  }

  lemma MulMonotone(p: nat, a: int, b: int)
    requires a <= b
    ensures p * a <= p * b
  {
    assert p * (b - a) >= 0;
    assert p * (b - a) == p * b - p * a;
  }

  lemma MulNext(p: int, a: int)
    ensures p * (a + 1) == p * a + p
  {
  }

  /** A multiple of the product, and a remainder. */
  lemma MulSplit(p: int, n: int, q: int, k: int)
    ensures p * (n * q + k) == n * p * q + p * k && n * p == p * n
  {
    assert p * (n * q) == n * p * q;
  }

  lemma DivMod(x: int, p: nat)
    requires p > 0
    ensures x == p * (x / p) + x % p && 0 <= x % p < p
  {
  }

  /** Quotient and remainder are unique. */
  lemma DivUnique(x: int, p: nat, q: int, r: int)
    requires p > 0 && 0 <= r < p && x == p * q + r
    ensures x / p == q && x % p == r
  {
    var q', r' := x / p, x % p;
    assert x == p * q' + r' && 0 <= r' < p;
    assert p * (q + 1) == p * q + p && p * (q' + 1) == p * q' + p;
    if q < q' {
      MulMonotone(p, q + 1, q');
    } else if q' < q {
      MulMonotone(p, q' + 1, q);
    }
  }

  lemma ModNext(a: nat, p: nat)
    requires p > 0
    ensures (a + 1) % p == if a % p == p - 1 then 0 else a % p + 1
  {
    var q, r := a / p, a % p;
    assert a == p * q + r;
    if r == p - 1 {
      assert p * (q + 1) == p * q + p;
      DivUnique(a + 1, p, q + 1, 0);
    } else {
      DivUnique(a + 1, p, q, r + 1);
    }
  }
}
