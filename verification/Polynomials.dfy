// Polynomials over the codec's field. A sequence is a polynomial whose first
// element is the leading coefficient, as in the syndrome loop of
// lib/libfec/decode_rs.h; a length argument n means its first n coefficients.
module Polynomials {
  import opened Bits
  import opened GaloisField

  ghost predicate Symbols(f: Field, p: seq<nat>) {
    forall i :: 0 <= i < |p| ==> p[i] < f.Size()
  }

  ghost function Pow(f: Field, x: nat, k: nat): nat {
    if k == 0 then 1 else Mul(f, x, Pow(f, x, k - 1))
  }

  // Horner's rule: the value at x of the polynomial with coefficients p[..n].
  ghost function Eval(f: Field, p: seq<nat>, x: nat, n: nat): nat
    requires n <= |p|
  {
    if n == 0 then 0 else Xor(p[n - 1], Mul(f, x, Eval(f, p, x, n - 1)))
  }

  // The power sum c[0]*xs[0]^k + ... + c[n-1]*xs[n-1]^k.
  ghost function PowerSum(f: Field, c: seq<nat>, xs: seq<nat>, k: nat, n: nat): nat
    requires n <= |c| && n <= |xs|
  {
    if n == 0 then 0
    else Xor(PowerSum(f, c, xs, k, n - 1), Mul(f, c[n - 1], Pow(f, xs[n - 1], k)))
  }

  // Number of nonzero entries among the first n.
  ghost function Weight(c: seq<nat>, n: nat): (w: nat)
    requires n <= |c|
    ensures w <= n
  {
    if n == 0 then 0 else Weight(c, n - 1) + if c[n - 1] == 0 then 0 else 1
  }

  // Pairwise different nonzero symbols.
  ghost predicate Locators(f: Field, xs: seq<nat>) {
    && (forall i :: 0 <= i < |xs| ==> 0 < xs[i] < f.Size())
    && (forall i, j :: 0 <= i < j < |xs| ==> xs[i] != xs[j])
  }

  // ---------- Bounds and elementary identities ----------

  lemma {:induction false} PowBound(f: Field, x: nat, k: nat)
    requires 0 < x < f.Size()
    ensures 0 < Pow(f, x, k) < f.Size()
  {
    hide Mul, f.Size;
    if k == 0 {
      AlphaBound(f, 0);
    } else {
      PowBound(f, x, k - 1);
      MulNonzero(f, x, Pow(f, x, k - 1));
    }
  }

  lemma EvalBound(f: Field, p: seq<nat>, x: nat, n: nat)
    requires n <= |p| && Symbols(f, p)
    ensures Eval(f, p, x, n) < f.Size()
  {
    hide Mul, Xor;
    if n > 0 {
      XorBound(p[n - 1], Mul(f, x, Eval(f, p, x, n - 1)), f.m);
    }
  }

  lemma MulCancel(f: Field, a: nat, b: nat, c: nat)
    requires 0 < a < f.Size() && b < f.Size() && c < f.Size()
    requires Mul(f, a, b) == Mul(f, a, c)
    ensures b == c
  {
    hide Mul, Xor;
    MulDistrib(f, a, b, c);
    XorSelf(Mul(f, a, b));
    XorBound(b, c, f.m);
    if Xor(b, c) != 0 {
      MulNonzero(f, a, Xor(b, c));
    }
    XorEqZero(b, c);
  }

  // a*(b*c) == b*(a*c)
  lemma MulSwap(f: Field, a: nat, b: nat, c: nat)
    ensures Mul(f, a, Mul(f, b, c)) == Mul(f, b, Mul(f, a, c))
  {
    hide Mul;
    MulAssoc(f, a, b, c);
    MulAssoc(f, b, a, c);
    MulComm(f, a, b);
  }

  lemma MulDistribRight(f: Field, a: nat, b: nat, c: nat)
    ensures Mul(f, Xor(a, b), c) == Xor(Mul(f, a, c), Mul(f, b, c))
  {
    hide Mul, Xor;
    MulDistrib(f, c, a, b);
    MulComm(f, c, a);
    MulComm(f, c, b);
    MulComm(f, c, Xor(a, b));
  }

  lemma {:induction false} PowAdd(f: Field, x: nat, j: nat, k: nat)
    requires 0 < x < f.Size()
    ensures Pow(f, x, j + k) == Mul(f, Pow(f, x, j), Pow(f, x, k))
  {
    hide Mul, f.Size;
    if j == 0 {
      PowBound(f, x, k);
      MulOne(f, Pow(f, x, k));
    } else {
      PowAdd(f, x, j - 1, k);
      MulAssoc(f, x, Pow(f, x, j - 1), Pow(f, x, k));
    }
  }

  lemma {:induction false} PowOfAlpha(f: Field, i: nat, k: nat)
    ensures Pow(f, f.Alpha(i), k) == f.Alpha(i * k)
  {
    hide Mul, f.StepN;
    if k == 0 {
      AlphaZero(f);
      assert i * k == 0;
    } else {
      PowOfAlpha(f, i, k - 1);
      MulAlphas(f, i, i * (k - 1));
      assert i + i * (k - 1) == i * k;
    }
  }

  // x^k * z^k == 1 when x*z == 1.
  lemma {:induction false} PowInverse(f: Field, x: nat, z: nat, k: nat)
    requires 0 < x < f.Size() && 0 < z < f.Size() && Mul(f, x, z) == 1
    ensures Mul(f, Pow(f, x, k), Pow(f, z, k)) == 1
  {
    hide Mul, f.Size;
    AlphaBound(f, 0);
    if k == 0 {
      MulOne(f, 1);
    } else {
      PowInverse(f, x, z, k - 1);
      var a, b := Pow(f, x, k - 1), Pow(f, z, k - 1);
      calc {
        Mul(f, Mul(f, x, a), Mul(f, z, b));
        { MulSwap(f, Mul(f, x, a), z, b); }
        Mul(f, z, Mul(f, Mul(f, x, a), b));
        { MulAssoc(f, x, a, b); }
        Mul(f, z, Mul(f, x, Mul(f, a, b)));
        Mul(f, z, Mul(f, x, 1));
        { MulOne(f, x); MulComm(f, x, z); }
        1;
      }
    }
  }

  // ---------- Linearity ----------

  // If c[p] == a*y[p] + xs[p]*w[p] then the power sums obey
  // PS(c, k) == a*PS(y, k) + PS(w, k+1).
  lemma {:induction false} PowerSumCombine(f: Field, c: seq<nat>, a: nat, y: seq<nat>, w: seq<nat>, xs: seq<nat>,
                                           k: nat, n: nat)
    requires n <= |c| && n <= |y| && n <= |w| && n <= |xs|
    requires forall p :: 0 <= p < n ==> c[p] == Xor(Mul(f, a, y[p]), Mul(f, xs[p], w[p]))
    ensures PowerSum(f, c, xs, k, n) == Xor(Mul(f, a, PowerSum(f, y, xs, k, n)), PowerSum(f, w, xs, k + 1, n))
  {
    hide Mul, Xor;
    if n == 0 {
      MulZero(f, a);
      XorZero(0);
    } else {
      PowerSumCombine(f, c, a, y, w, xs, k, n - 1);
      var q := n - 1;
      var h := Pow(f, xs[q], k);
      var ty, tw := Mul(f, y[q], h), Mul(f, w[q], Mul(f, xs[q], h));
      assert Mul(f, c[q], h) == Xor(Mul(f, a, ty), tw) by {
        MulDistribRight(f, Mul(f, a, y[q]), Mul(f, xs[q], w[q]), h);
        MulAssoc(f, a, y[q], h);
        MulAssoc(f, xs[q], w[q], h);
        MulSwap(f, xs[q], w[q], h);
      }
      MulDistrib(f, a, PowerSum(f, y, xs, k, q), ty);
      XorSwap(Mul(f, a, PowerSum(f, y, xs, k, q)), PowerSum(f, w, xs, k + 1, q), Mul(f, a, ty), tw);
    }
  }

  // If c[p] == u[p] + a*y[p] then PS(c, k) == PS(u, k) + a*PS(y, k).
  lemma {:induction false} PowerSumLinear(f: Field, c: seq<nat>, u: seq<nat>, a: nat, y: seq<nat>, xs: seq<nat>,
                                          k: nat, n: nat)
    requires n <= |c| && n <= |y| && n <= |u| && n <= |xs|
    requires forall p :: 0 <= p < n ==> c[p] == Xor(u[p], Mul(f, a, y[p]))
    ensures PowerSum(f, c, xs, k, n) == Xor(PowerSum(f, u, xs, k, n), Mul(f, a, PowerSum(f, y, xs, k, n)))
  {
    hide Mul, Xor;
    if n == 0 {
      MulZero(f, a);
      XorZero(0);
    } else {
      PowerSumLinear(f, c, u, a, y, xs, k, n - 1);
      var q := n - 1;
      var h := Pow(f, xs[q], k);
      MulDistribRight(f, u[q], Mul(f, a, y[q]), h);
      MulAssoc(f, a, y[q], h);
      MulDistrib(f, a, PowerSum(f, y, xs, k, q), Mul(f, y[q], h));
      XorSwap(PowerSum(f, u, xs, k, q), Mul(f, a, PowerSum(f, y, xs, k, q)), Mul(f, u[q], h), Mul(f, a, Mul(f, y[q],
        h)));
    }
  }

  lemma {:induction false} PowerSumOfZeros(f: Field, c: seq<nat>, xs: seq<nat>, k: nat, n: nat)
    requires n <= |c| && n <= |xs|
    requires forall p :: 0 <= p < n ==> c[p] == 0
    ensures PowerSum(f, c, xs, k, n) == 0
  {
    hide Mul;
    if n > 0 {
      PowerSumOfZeros(f, c, xs, k, n - 1);
      MulZero(f, Pow(f, xs[n - 1], k));
      XorZero(0);
    }
  }

  lemma {:induction false} PowerSumSingle(f: Field, c: seq<nat>, xs: seq<nat>, k: nat, n: nat, q: nat)
    requires q < n <= |c| && n <= |xs|
    requires forall p :: 0 <= p < n && p != q ==> c[p] == 0
    ensures PowerSum(f, c, xs, k, n) == Mul(f, c[q], Pow(f, xs[q], k))
  {
    hide Mul, Xor;
    if q == n - 1 {
      PowerSumOfZeros(f, c, xs, k, n - 1);
      XorZero(Mul(f, c[q], Pow(f, xs[q], k)));
    } else {
      PowerSumSingle(f, c, xs, k, n - 1, q);
      MulZero(f, Pow(f, xs[n - 1], k));
      XorZero(Mul(f, c[q], Pow(f, xs[q], k)));
    }
  }

  // Evaluation is linear in the coefficients.
  lemma {:induction false} EvalLinear(f: Field, c: seq<nat>, u: seq<nat>, a: nat, y: seq<nat>, x: nat, n: nat)
    requires n <= |c| && n <= |y| && n <= |u|
    requires forall p :: 0 <= p < n ==> c[p] == Xor(u[p], Mul(f, a, y[p]))
    ensures Eval(f, c, x, n) == Xor(Eval(f, u, x, n), Mul(f, a, Eval(f, y, x, n)))
  {
    hide Mul, Xor;
    if n == 0 {
      MulZero(f, a);
      XorZero(0);
    } else {
      EvalLinear(f, c, u, a, y, x, n - 1);
      var q := n - 1;
      var eu, ey := Eval(f, u, x, q), Eval(f, y, x, q);
      MulDistrib(f, x, eu, Mul(f, a, ey));
      MulSwap(f, x, a, ey);
      MulDistrib(f, a, y[q], Mul(f, x, ey));
      XorSwap(u[q], Mul(f, a, y[q]), Mul(f, x, eu), Mul(f, a, Mul(f, x, ey)));
    }
  }

  // Trailing zero coefficients multiply the value by a power of x.
  lemma {:induction false} EvalPadded(f: Field, p: seq<nat>, x: nat, d: nat, n: nat)
    requires d <= n <= |p|
    requires 0 < x < f.Size() && Symbols(f, p)
    requires forall i :: d <= i < n ==> p[i] == 0
    ensures Eval(f, p, x, n) == Mul(f, Pow(f, x, n - d), Eval(f, p, x, d))
  {
    hide Mul, Xor, f.Size;
    if n == d {
      EvalBound(f, p, x, d);
      MulOne(f, Eval(f, p, x, d));
    } else {
      EvalPadded(f, p, x, d, n - 1);
      MulAssoc(f, x, Pow(f, x, n - 1 - d), Eval(f, p, x, d));
      XorZero(Mul(f, x, Eval(f, p, x, n - 1)));
    }
  }

  lemma EvalPaddedRoot(f: Field, p: seq<nat>, x: nat, d: nat, n: nat)
    requires d <= n <= |p|
    requires 0 < x < f.Size() && Symbols(f, p)
    requires forall i :: d <= i < n ==> p[i] == 0
    ensures Eval(f, p, x, n) == 0 <==> Eval(f, p, x, d) == 0
  {
    hide Mul, f.Size;
    EvalPadded(f, p, x, d, n);
    EvalBound(f, p, x, d);
    PowBound(f, x, n - d);
    MulZero(f, Pow(f, x, n - d));
    if Eval(f, p, x, d) != 0 {
      MulNonzero(f, Pow(f, x, n - d), Eval(f, p, x, d));
    }
  }

  // ---------- The elimination argument ----------

  // A vector with at most kk nonzero entries whose power sums vanish at kk
  // consecutive exponents is zero (the BCH bound).
  lemma {:induction false} Vandermonde(f: Field, c: seq<nat>, xs: seq<nat>, k0: nat, kk: nat, n: nat)
    requires n <= |c| && n <= |xs|
    requires Symbols(f, c) && Locators(f, xs)
    requires Weight(c, n) <= kk
    requires forall k :: k0 <= k < k0 + kk ==> PowerSum(f, c, xs, k, n) == 0
    ensures forall p :: 0 <= p < n ==> c[p] == 0
    decreases n
  {
    hide Mul, Xor, f.Size;
    if n > 0 {
      var q := n - 1;
      if c[q] == 0 {
        forall k | k0 <= k < k0 + kk ensures PowerSum(f, c, xs, k, q) == 0 {
          assert PowerSum(f, c, xs, k, n) == 0;
          MulZero(f, Pow(f, xs[q], k));
          XorZero(PowerSum(f, c, xs, k, q));
        }
        Vandermonde(f, c, xs, k0, kk, q);
      } else {
        var c' := Eliminated(f, c, xs, xs[q], q);
        EliminatedWeight(f, c, xs, q, q);
        forall k | k0 <= k < k0 + (kk - 1) ensures PowerSum(f, c', xs, k, q) == 0 {
          EliminatedPowerSum(f, c, xs, k, n);
        }
        Vandermonde(f, c', xs, k0, kk - 1, q);
        forall p | 0 <= p < q ensures c[p] == 0 {
          EliminatedNonzero(f, c, xs, q, p);
        }
        PowerSumOfZeros(f, c, xs, k0, q);
        assert PowerSum(f, c, xs, k0, n) == 0;
        XorZero(Mul(f, c[q], Pow(f, xs[q], k0)));
        PowBound(f, xs[q], k0);
        MulNonzero(f, c[q], Pow(f, xs[q], k0));
        assert false;
      }
    }
  }

  ghost function Eliminated(f: Field, c: seq<nat>, xs: seq<nat>, a: nat, n: nat): (r: seq<nat>)
    requires n <= |c| && n <= |xs|
    ensures Symbols(f, r)
  {
    seq(n, p requires 0 <= p < n => Mul(f, c[p], Xor(a, xs[p])))
  }

  lemma EliminatedNonzero(f: Field, c: seq<nat>, xs: seq<nat>, q: nat, p: nat)
    requires p < q < |c| && q < |xs|
    requires Symbols(f, c) && Locators(f, xs)
    ensures c[p] == 0 <==> Eliminated(f, c, xs, xs[q], q)[p] == 0
  {
    hide Mul, Xor;
    XorBound(xs[q], xs[p], f.m);
    MulZero(f, Xor(xs[q], xs[p]));
    if Xor(xs[q], xs[p]) == 0 {
      XorEqZero(xs[q], xs[p]);
    } else if c[p] != 0 {
      MulNonzero(f, c[p], Xor(xs[q], xs[p]));
    }
  }

  lemma {:induction false} EliminatedWeight(f: Field, c: seq<nat>, xs: seq<nat>, q: nat, n: nat)
    requires n <= q < |c| && q < |xs|
    requires Symbols(f, c) && Locators(f, xs)
    ensures Weight(Eliminated(f, c, xs, xs[q], q), n) == Weight(c, n)
  {
    hide Mul, Xor, f.Size;
    if n > 0 {
      EliminatedWeight(f, c, xs, q, n - 1);
      EliminatedNonzero(f, c, xs, q, n - 1);
    }
  }

  lemma EliminatedPowerSum(f: Field, c: seq<nat>, xs: seq<nat>, k: nat, n: nat)
    requires 0 < n <= |c| && n <= |xs|
    requires PowerSum(f, c, xs, k, n) == 0 && PowerSum(f, c, xs, k + 1, n) == 0
    ensures PowerSum(f, Eliminated(f, c, xs, xs[n - 1], n - 1), xs, k, n - 1) == 0
  {
    hide Mul, Xor, f.Size;
    var a, q := xs[n - 1], n - 1;
    var c' := Eliminated(f, c, xs, a, q);
    forall p | 0 <= p < q ensures c'[p] == Xor(Mul(f, a, c[p]), Mul(f, xs[p], c[p])) {
      MulDistrib(f, c[p], a, xs[p]);
      MulComm(f, c[p], a);
      MulComm(f, c[p], xs[p]);
    }
    PowerSumCombine(f, c', a, c, c, xs, k, q);
    var h := Pow(f, a, k);
    var t := Mul(f, c[q], h);
    // PS(c,k,n) == 0 makes the shorter sums equal to their last terms.
    XorEqZero(PowerSum(f, c, xs, k, q), t);
    XorEqZero(PowerSum(f, c, xs, k + 1, q), Mul(f, c[q], Mul(f, a, h)));
    MulSwap(f, c[q], a, h);
    XorSelf(Mul(f, a, t));
  }

  // ---------- Roots ----------

  // The quotient of p by (x + a), by synthetic division.
  ghost function Quotient(f: Field, p: seq<nat>, a: nat): (r: seq<nat>)
    ensures |r| == |p|
  {
    seq(|p|, i requires 0 <= i < |p| => Eval(f, p, a, i + 1))
  }

  lemma QuotientSymbols(f: Field, p: seq<nat>, a: nat)
    requires Symbols(f, p)
    ensures Symbols(f, Quotient(f, p, a))
  {
    hide Mul, Xor, f.Size;
    forall i | 0 <= i < |p| ensures Quotient(f, p, a)[i] < f.Size() {
      EvalBound(f, p, a, i + 1);
    }
  }

  // p(x) + p(a) == (x + a) * q(x)
  lemma {:induction false} Factor(f: Field, p: seq<nat>, a: nat, x: nat, n: nat)
    requires 0 < n <= |p|
    ensures Xor(Eval(f, p, x, n), Eval(f, p, a, n)) == Mul(f, Xor(x, a), Eval(f, Quotient(f, p, a), x, n - 1))
  {
    hide Mul, Xor;
    var q := Quotient(f, p, a);
    if n == 1 {
      assert Eval(f, q, x, 0) == 0;
      MulZero(f, Xor(x, a));
      assert Eval(f, p, x, 0) == 0 && Eval(f, p, a, 0) == 0;
      MulZero(f, x);
      MulZero(f, a);
      XorSelf(Xor(p[0], 0));
    } else {
      Factor(f, p, a, x, n - 1);
      var px, pa, qx := Eval(f, p, x, n - 1), Eval(f, p, a, n - 1), Eval(f, q, x, n - 2);
      var s := Xor(x, a);
      assert q[n - 2] == pa;
      calc {
        Mul(f, s, Eval(f, q, x, n - 1));
        Mul(f, s, Xor(pa, Mul(f, x, qx)));
        { MulDistrib(f, s, pa, Mul(f, x, qx)); }
        Xor(Mul(f, s, pa), Mul(f, s, Mul(f, x, qx)));
        { MulSwap(f, s, x, qx); }
        Xor(Mul(f, s, pa), Mul(f, x, Xor(px, pa)));
        { MulDistribRight(f, x, a, pa); MulDistrib(f, x, px, pa); }
        Xor(Xor(Mul(f, x, pa), Mul(f, a, pa)), Xor(Mul(f, x, px), Mul(f, x, pa)));
        { FactorXor(Mul(f, x, pa), Mul(f, a, pa), Mul(f, x, px)); }
        Xor(Mul(f, x, px), Mul(f, a, pa));
        { FactorXor2(p[n - 1], Mul(f, x, px), Mul(f, a, pa)); }
        Xor(Xor(p[n - 1], Mul(f, x, px)), Xor(p[n - 1], Mul(f, a, pa)));
      }
    }
  }

  lemma FactorXor(u: nat, v: nat, w: nat)
    ensures Xor(Xor(u, v), Xor(w, u)) == Xor(w, v)
  {
    hide Xor;
    XorComm(w, u);
    XorSwap(u, v, u, w);
    XorSelf(u);
    XorZero(Xor(v, w));
    XorComm(v, w);
  }

  lemma FactorXor2(c: nat, v: nat, w: nat)
    ensures Xor(v, w) == Xor(Xor(c, v), Xor(c, w))
  {
    hide Xor;
    XorSwap(c, v, c, w);
    XorSelf(c);
    XorZero(Xor(v, w));
  }

  // A polynomial of degree n - 1 has at most n - 1 roots.
  lemma {:induction false} RootBound(f: Field, p: seq<nat>, n: nat, roots: set<nat>)
    requires 0 < n <= |p| && Symbols(f, p) && p[0] != 0
    requires forall x :: x in roots ==> x < f.Size() && Eval(f, p, x, n) == 0
    ensures |roots| <= n - 1
    decreases n
  {
    hide Mul, Xor, f.Size;
    if roots != {} {
      var a :| a in roots;
      var q := Quotient(f, p, a);
      EvalOne(f, p, a);
      if n == 1 {
        assert false;
      } else {
        QuotientSymbols(f, p, a);
        forall x | x in roots - {a} ensures Eval(f, q, x, n - 1) == 0 {
          QuotientRoot(f, p, a, x, n);
        }
        RootBound(f, q, n - 1, roots - {a});
      }
    }
  }

  lemma EvalOne(f: Field, p: seq<nat>, a: nat)
    requires |p| > 0
    ensures Eval(f, p, a, 1) == p[0]
  {
    hide Mul, Xor;
    assert Eval(f, p, a, 0) == 0;
    MulZero(f, a);
    XorZero(p[0]);
  }

  // Two different roots: the second is a root of the quotient by the first.
  lemma QuotientRoot(f: Field, p: seq<nat>, a: nat, x: nat, n: nat)
    requires 0 < n <= |p| && Symbols(f, p)
    requires x < f.Size() && a < f.Size() && x != a
    requires Eval(f, p, x, n) == 0 && Eval(f, p, a, n) == 0
    ensures Eval(f, Quotient(f, p, a), x, n - 1) == 0
  {
    hide Mul, Xor;
    var q := Quotient(f, p, a);
    Factor(f, p, a, x, n);
    XorZero(0);
    QuotientSymbols(f, p, a);
    EvalBound(f, q, x, n - 1);
    XorBound(x, a, f.m);
    if Xor(x, a) == 0 {
      XorEqZero(x, a);
    } else if Eval(f, q, x, n - 1) != 0 {
      MulNonzero(f, Xor(x, a), Eval(f, q, x, n - 1));
    }
  }

  // ---------- Products of linear factors ----------

  // p(x) * (x + a)
  ghost function TimesRoot(f: Field, p: seq<nat>, a: nat): (g: seq<nat>)
    ensures |g| == |p| + 1
  {
    seq(|p| + 1, j requires 0 <= j <= |p| => TimesRootAt(f, p, a, j))
  }

  ghost function TimesRootAt(f: Field, p: seq<nat>, a: nat, j: nat): nat
    requires j <= |p|
  {
    Xor(if j < |p| then p[j] else 0, if j > 0 then Mul(f, a, p[j - 1]) else 0)
  }

  // (x + rs[0]) * ... * (x + rs[n-1])
  ghost function RootProduct(f: Field, rs: seq<nat>, n: nat): (g: seq<nat>)
    requires n <= |rs|
    ensures |g| == n + 1
  {
    if n == 0 then [1] else TimesRoot(f, RootProduct(f, rs, n - 1), rs[n - 1])
  }

  lemma TimesRootShape(f: Field, p: seq<nat>, a: nat)
    requires |p| > 0 && Symbols(f, p) && 0 < a < f.Size()
    ensures var g := TimesRoot(f, p, a); Symbols(f, g) && g[0] == p[0]
    ensures p[|p| - 1] != 0 ==> TimesRoot(f, p, a)[|p|] != 0
  {
    hide Mul, Xor;
    var g := TimesRoot(f, p, a);
    forall j | 0 <= j < |g| ensures g[j] < f.Size() {
      XorBound(if j < |p| then p[j] else 0, if j > 0 then Mul(f, a, p[j - 1]) else 0, f.m);
    }
    XorZero(p[0]);
    XorZero(Mul(f, a, p[|p| - 1]));
    if p[|p| - 1] != 0 { MulNonzero(f, a, p[|p| - 1]); }
  }

  lemma EvalTimesRoot(f: Field, p: seq<nat>, a: nat, x: nat)
    ensures Eval(f, TimesRoot(f, p, a), x, |p| + 1) == Mul(f, Xor(x, a), Eval(f, p, x, |p|))
  {
    hide Mul, Xor;
    var g, up, down := TimesRoot(f, p, a), p + [0], [0] + p;
    forall j | 0 <= j < |p| + 1 ensures g[j] == Xor(up[j], Mul(f, a, down[j])) {
      MulZero(f, a);
    }
    EvalLinear(f, g, up, a, down, x, |p| + 1);
    EvalPrepended(f, p, x, |p|);
    EvalSame(f, up, p, x, |p|);
    XorZero(Mul(f, x, Eval(f, p, x, |p|)));
    MulDistribRight(f, x, a, Eval(f, p, x, |p|));
  }

  lemma {:induction false} EvalSame(f: Field, p: seq<nat>, q: seq<nat>, x: nat, n: nat)
    requires n <= |p| && n <= |q| && forall j :: 0 <= j < n ==> p[j] == q[j]
    ensures Eval(f, p, x, n) == Eval(f, q, x, n)
  {
    hide Mul, Xor;
    if n > 0 { EvalSame(f, p, q, x, n - 1); }
  }

  lemma {:induction false} EvalPrepended(f: Field, p: seq<nat>, x: nat, n: nat)
    requires n <= |p|
    ensures Eval(f, [0] + p, x, n + 1) == Eval(f, p, x, n)
  {
    hide Mul, Xor;
    if n == 0 {
      EvalOne(f, [0] + p, x);
    } else {
      EvalPrepended(f, p, x, n - 1);
    }
  }

  lemma {:induction false} RootProductShape(f: Field, rs: seq<nat>, n: nat)
    requires n <= |rs|
    requires forall i :: 0 <= i < n ==> 0 < rs[i] < f.Size()
    ensures var g := RootProduct(f, rs, n); Symbols(f, g) && g[0] == 1 && g[n] != 0
  {
    hide TimesRoot, f.Size;
    if n == 0 {
      AlphaBound(f, 0);
    } else {
      RootProductShape(f, rs, n - 1);
      TimesRootShape(f, RootProduct(f, rs, n - 1), rs[n - 1]);
    }
  }

  lemma {:induction false} RootProductRoots(f: Field, rs: seq<nat>, n: nat, i: nat)
    requires i < n <= |rs|
    ensures Eval(f, RootProduct(f, rs, n), rs[i], n + 1) == 0
  {
    hide TimesRoot, Mul, Xor, Eval;
    var p := RootProduct(f, rs, n - 1);
    EvalTimesRoot(f, p, rs[n - 1], rs[i]);
    if i == n - 1 {
      XorSelf(rs[i]);
      MulZero(f, Eval(f, p, rs[i], n));
    } else {
      RootProductRoots(f, rs, n - 1, i);
      MulZero(f, Xor(rs[i], rs[n - 1]));
    }
  }

  // The product depends only on the factors used.
  lemma {:induction false} RootProductPrefix(f: Field, rs: seq<nat>, qs: seq<nat>, n: nat)
    requires n <= |rs| && n <= |qs| && forall i :: 0 <= i < n ==> rs[i] == qs[i]
    ensures RootProduct(f, rs, n) == RootProduct(f, qs, n)
  {
    hide TimesRoot;
    if n > 0 { RootProductPrefix(f, rs, qs, n - 1); }
  }
}
