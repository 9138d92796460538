// Sets of numbers closed under difference, such as the periods of a register
// or the combinations of two numbers: Euclid's algorithm stays inside them.
module Periods {
  import opened Arithmetic

  predicate Divisor(d: nat, n: nat) { d > 0 && n % d == 0 }

  // No common divisor above 1.
  ghost predicate Coprime(a: nat, b: nat) {
    forall d: nat :: Divisor(d, a) && Divisor(d, b) ==> d == 1
  }

  function Sum(a: nat, b: nat): nat { a + b }

  ghost predicate Closed(p: nat -> bool) {
    && p(0)
    && forall a: nat, b: nat :: p(a) ==> (p(Sum(a, b)) <==> p(b))
  }

  lemma {:induction false} Multiples(p: nat -> bool, a: nat, q: nat, b: nat)
    requires Closed(p) && p(a)
    ensures p(q * a + b) <==> p(b)
    decreases q
  {
    if q > 0 {
      Multiples(p, a, q - 1, b);
      assert q * a + b == Sum(a, (q - 1) * a + b);
    }
  }

  lemma MultipleIn(p: nat -> bool, g: nat, n: nat)
    requires Closed(p) && p(g) && Divisor(g, n)
    ensures p(n)
  {
    assert n == (n / g) * g + 0;
    Multiples(p, g, n / g, 0);
  }

  lemma DivisorOfSum(g: nat, a: nat, q: nat, b: nat)
    requires Divisor(g, a) && Divisor(g, b)
    ensures Divisor(g, q * a + b)
  {
    var x, y := a / g, b / g;
    assert a == g * x && b == g * y;
    assert q * (g * x) + g * y == g * (q * x + y) by {
      assert q * (g * x) == g * (q * x);
    }
    RemainderUnique(q * a + b, g, q * x + y, 0);
  }

  // The greatest common divisor of two members is a member.
  lemma {:induction false} CommonDivisor(p: nat -> bool, i: nat, n: nat) returns (g: nat)
    requires Closed(p) && 0 < i && p(i) && p(n)
    ensures 0 < g <= i && Divisor(g, i) && Divisor(g, n) && p(g)
    decreases i
  {
    var r := n % i;
    assert n == (n / i) * i + r;
    Multiples(p, i, n / i, r);
    if r == 0 {
      g := i;
      RemainderUnique(i, i, 1, 0);
    } else {
      g := CommonDivisor(p, r, i);
      DivisorOfSum(g, i, n / i, r);
    }
  }

  // If n is a period, a shorter one exists exactly when a proper divisor of n
  // is one.
  lemma ShortestPeriod(p: nat -> bool, n: nat)
    requires Closed(p) && p(n)
    ensures (exists i: nat :: 0 < i < n && p(i)) <==> (exists d: nat :: 0 < d < n && Divisor(d, n) && p(d))
  {
    if i: nat :| 0 < i < n && p(i) {
      var g := CommonDivisor(p, i, n);
      assert 0 < g < n && Divisor(g, n) && p(g);
    }
  }

  // ---------- Inverses ----------

  // k plus some multiple of nn is a multiple of prim.
  ghost predicate Combines(prim: nat, nn: nat, k: nat)
    requires prim > 0
  {
    exists u: nat :: Divisor(prim, k + u * nn)
  }

  lemma Combine(prim: nat, nn: nat, k: nat, u: nat)
    requires prim > 0 && Divisor(prim, k + u * nn)
    ensures Combines(prim, nn, k)
  {
  }

  lemma DropMultiple(prim: nat, x: nat, a: nat)
    requires Divisor(prim, x + a * prim)
    ensures Divisor(prim, x)
  {
    FoldModulus(x + a * prim, a, prim);
  }

  lemma AddCombined(prim: nat, nn: nat, a: nat, b: nat, u: nat, v: nat)
    requires prim > 0 && Divisor(prim, a + u * nn) && Divisor(prim, b + v * nn)
    ensures Combines(prim, nn, a + b)
  {
    hide Divisor;
    DivisorOfSum(prim, a + u * nn, 1, b + v * nn);
    assert 1 * (a + u * nn) + (b + v * nn) == (a + b) + (u + v) * nn;
    Combine(prim, nn, a + b, u + v);
  }

  lemma TakeCombined(prim: nat, nn: nat, a: nat, b: nat, u: nat, v: nat)
    requires prim > 0 && Divisor(prim, a + u * nn) && Divisor(prim, (a + b) + v * nn)
    ensures Combines(prim, nn, b)
  {
    hide Divisor;
    var w: nat := v + (prim - 1) * u;
    var x, y, z := a + u * nn, (a + b) + v * nn, b + w * nn;
    DivisorOfSum(prim, x, prim - 1, y);
    assert (prim - 1) * x + y == z + a * prim by { CancelTerm(prim, nn, a, b, u, v); }
    TakeMultiple(prim, x, y, z, a);
    Combine(prim, nn, b, w);
  }

  lemma TakeMultiple(prim: nat, x: nat, y: nat, z: nat, a: nat)
    requires prim > 0 && Divisor(prim, (prim - 1) * x + y) && (prim - 1) * x + y == z + a * prim
    ensures Divisor(prim, z)
  {
    hide Divisor;
    DropMultiple(prim, z, a);
  }

  lemma CombineSum(prim: nat, nn: nat, a: nat, b: nat)
    requires prim > 0 && Combines(prim, nn, a)
    ensures Combines(prim, nn, a + b) <==> Combines(prim, nn, b)
  {
    hide Divisor;
    var u: nat :| Divisor(prim, a + u * nn);
    if Combines(prim, nn, b) {
      var v: nat :| Divisor(prim, b + v * nn);
      AddCombined(prim, nn, a, b, u, v);
    }
    if Combines(prim, nn, a + b) {
      var v: nat :| Divisor(prim, (a + b) + v * nn);
      TakeCombined(prim, nn, a, b, u, v);
    }
  }

  lemma CancelTerm(prim: nat, nn: nat, a: nat, b: nat, u: nat, v: nat)
    requires prim > 0
    ensures (prim - 1) * (a + u * nn) + ((a + b) + v * nn) == b + (v + (prim - 1) * u) * nn + a * prim
  {
    var m: nat := prim - 1;
    assert m * (a + u * nn) == m * a + m * (u * nn);
    assert m * (u * nn) == (m * u) * nn;
    assert (v + m * u) * nn == v * nn + (m * u) * nn;
    assert a * prim == m * a + a;
  }

  ghost function Combining(prim: nat, nn: nat): nat -> bool
    requires prim > 0
  {
    (k: nat) => Combines(prim, nn, k)
  }

  lemma CombiningClosed(prim: nat, nn: nat)
    requires prim > 0
    ensures Closed(Combining(prim, nn)) && Combines(prim, nn, prim) && Combines(prim, nn, nn)
  {
    hide Combines, Divisor;
    var p := Combining(prim, nn);
    RemainderUnique(0, prim, 0, 0);
    Combine(prim, nn, 0, 0);
    RemainderUnique(prim, prim, 1, 0);
    Combine(prim, nn, prim, 0);
    assert nn + (prim - 1) * nn == prim * nn;
    RemainderUnique(prim * nn, prim, nn, 0);
    Combine(prim, nn, nn, prim - 1);
    forall a: nat, b: nat | p(a) ensures p(Sum(a, b)) <==> p(b) { CombineSum(prim, nn, a, b); }
  }

  // prim has an inverse modulo nn exactly when the two have no common divisor.
  lemma InverseExists(prim: nat, nn: nat)
    requires prim > 0
    ensures Combines(prim, nn, 1) <==> Coprime(prim, nn)
  {
    if Combines(prim, nn, 1) {
      var u: nat :| Divisor(prim, 1 + u * nn);
      forall d: nat | Divisor(d, prim) && Divisor(d, nn) ensures d == 1 { OnlyOne(prim, nn, u, d); }
    }
    if Coprime(prim, nn) {
      CombiningClosed(prim, nn);
      var g := CommonDivisor(Combining(prim, nn), prim, nn);
    }
  }

  lemma OnlyOne(prim: nat, nn: nat, u: nat, d: nat)
    requires Divisor(prim, 1 + u * nn) && Divisor(d, prim) && Divisor(d, nn)
    ensures d == 1
  {
    var q := (1 + u * nn) / prim;
    assert 1 + u * nn == q * prim + 0;
    RemainderUnique(0, d, 0, 0);
    DivisorOfSum(d, prim, q, 0);
    var x, y := (1 + u * nn) / d, nn / d;
    assert 1 + u * nn == d * x && nn == d * y;
    assert u * (d * y) == d * (u * y);
    assert 1 == d * (x - u * y) by { assert d * (x - u * y) == d * x - d * (u * y); }
    DividesOne(d, x - u * y);
  }

  lemma DividesOne(d: nat, k: int)
    requires d > 0 && d * k == 1
    ensures d == 1
  {
  }
}
