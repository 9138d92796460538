// Facts about integer division with a variable divisor, which the solver does
// not find by itself.
module Arithmetic {

  lemma FoldModulus(x: nat, q: nat, n: nat)
    requires n > 0 && x >= q * n
    ensures (x - q * n) % n == x % n
    decreases q
  {
    if q > 0 {
      assert (q - 1) * n == q * n - n;
      FoldModulus(x, q - 1, n);
      SubtractOnce(x - (q - 1) * n, n);
    }
  }

  lemma SubtractOnce(x: nat, n: nat)
    requires n > 0 && x >= n
    ensures (x - n) % n == x % n
  {
    var q, r := x / n, x % n;
    assert x - n == n * (q - 1) + r;
    RemainderUnique(x - n, n, q - 1, r);
  }

  // Quotient and remainder are determined by the division identity.
  lemma RemainderUnique(a: int, m: int, q: int, r: int)
    requires m > 0 && 0 <= r < m && a == m * q + r
    ensures a / m == q && a % m == r
  {
    var q', r' := a / m, a % m;
    assert m * (q - q') == r' - r;
    if q - q' >= 1 {
      MulAtLeast(m, q - q');
      assert false;
    } else if q - q' <= -1 {
      MulAtLeast(m, q' - q);
      assert false;
    }
  }

  lemma MulAtLeast(m: int, k: int)
    requires m > 0 && k >= 1
    ensures m * k >= m
  {
  }

  // Congruent numbers stay congruent when multiplied.
  lemma ScaleMod(a: nat, b: nat, k: nat, n: nat)
    requires n > 0 && a % n == b % n
    ensures (k * a) % n == (k * b) % n
  {
    ScaleOne(a, k, n);
    ScaleOne(b, k, n);
  }

  lemma ScaleOne(a: nat, k: nat, n: nat)
    requires n > 0
    ensures (k * a) % n == (k * (a % n)) % n
  {
    var q, r := a / n, a % n;
    assert k * a == k * r + (k * q) * n by {
      assert a == q * n + r;
      assert k * (q * n) == (k * q) * n;
    }
    FoldModulus(k * a, k * q, n);
  }

  lemma AddMod(a: nat, b: nat, d: nat, n: nat)
    requires n > 0 && a % n == b % n
    ensures (a + d) % n == (b + d) % n
  {
    AddOne(a, d, n);
    AddOne(b, d, n);
  }

  lemma AddOne(a: nat, d: nat, n: nat)
    requires n > 0
    ensures (a + d) % n == (a % n + d) % n
  {
    assert a == (a / n) * n + a % n;
    FoldModulus(a + d, a / n, n);
  }
}
