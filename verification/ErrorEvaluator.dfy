// Forney's formula as lib/libfec/decode_rs.h evaluates it: the weight at a
// root of the locator is the ratio of the evaluator polynomial to the
// derivative of the locator.
module ErrorEvaluator {
  import opened Bits
  import opened GaloisField
  import opened Polynomials
  import opened KeyEquation

  // p[0] + p[1]*z + ... + p[n-1]*z^(n-1)
  ghost function Ascending(f: Field, p: seq<nat>, z: nat, n: nat): nat
    requires n <= |p|
  {
    if n == 0 then 0 else Xor(Ascending(f, p, z, n - 1), Mul(f, p[n - 1], Pow(f, z, n - 1)))
  }

  // The formal derivative of p at z: the odd coefficients, one power lower.
  ghost function Derivative(f: Field, p: seq<nat>, z: nat, n: nat): nat
    requires n <= |p|
  {
    if n == 0 then 0
    else if n % 2 == 0 then Xor(Derivative(f, p, z, n - 1), Mul(f, p[n - 1], Pow(f, z, n - 2)))
    else Derivative(f, p, z, n - 1)
  }

  // The part of Eval that comes from coefficients of the given parity.
  ghost function Part(f: Field, p: seq<nat>, x: nat, parity: nat, n: nat): nat
    requires n <= |p|
  {
    if n == 0 then 0
    else Xor(if (n - 1) % 2 == parity then p[n - 1] else 0, Mul(f, x, Part(f, p, x, parity, n - 1)))
  }

  // The product of a locator and the syndromes, low coefficients only.
  ghost predicate EvaluatorOf(f: Field, om: seq<nat>, lam: seq<nat>, s: seq<nat>) {
    && |om| <= |s| < |lam|
    && forall i :: 0 <= i < |om| ==> om[i] == Convolution(f, lam, s, i, i + 1)
  }

  // ---------- Ascending and descending evaluation ----------

  lemma ShiftPower(f: Field, x: nat, z: nat, c: nat, k: nat)
    requires 0 < x < f.Size() && 0 < z < f.Size() && Mul(f, x, z) == 1 && c < f.Size()
    ensures Mul(f, Pow(f, x, k), Mul(f, c, Pow(f, z, k))) == c
  {
    hide Mul, Pow, f.Size;
    PowInverse(f, x, z, k);
    MulSwap(f, Pow(f, x, k), c, Pow(f, z, k));
    MulOne(f, c);
  }

  // x^(n-1) * p(z), read upwards, is p(x), read downwards, when x*z == 1.
  lemma {:induction false} AscendingIsEval(f: Field, p: seq<nat>, x: nat, z: nat, n: nat)
    requires 0 < n <= |p| && Symbols(f, p)
    requires 0 < x < f.Size() && 0 < z < f.Size() && Mul(f, x, z) == 1
    ensures Mul(f, Pow(f, x, n - 1), Ascending(f, p, z, n)) == Eval(f, p, x, n)
  {
    hide Mul, Xor, f.Size;
    var c, h := p[n - 1], Pow(f, x, n - 1);
    var t := Mul(f, c, Pow(f, z, n - 1));
    ShiftPower(f, x, z, c, n - 1);
    MulDistrib(f, h, Ascending(f, p, z, n - 1), t);
    XorComm(Mul(f, h, Ascending(f, p, z, n - 1)), c);
    if n == 1 {
      assert Ascending(f, p, z, 0) == 0 && Eval(f, p, x, 0) == 0;
      MulZero(f, h);
      MulZero(f, x);
    } else {
      AscendingIsEval(f, p, x, z, n - 1);
      MulAssoc(f, x, Pow(f, x, n - 2), Ascending(f, p, z, n - 1));
    }
  }

  // x^(n-1) * p'(z) == x * (odd part of p at x)
  lemma {:induction false} DerivativeIsOddPart(f: Field, p: seq<nat>, x: nat, z: nat, n: nat)
    requires 0 < n <= |p| && Symbols(f, p)
    requires 0 < x < f.Size() && 0 < z < f.Size() && Mul(f, x, z) == 1
    ensures Mul(f, Pow(f, x, n - 1), Derivative(f, p, z, n)) == Mul(f, x, Part(f, p, x, 1, n))
  {
    hide Mul, Xor, f.Size;
    if n == 1 {
      assert Derivative(f, p, z, 0) == 0 && Part(f, p, x, 1, 0) == 0;
      MulZero(f, Pow(f, x, 0));
      MulZero(f, x);
      XorZero(0);
    } else {
      DerivativeIsOddPart(f, p, x, z, n - 1);
      var h, d := Pow(f, x, n - 2), Derivative(f, p, z, n - 1);
      var o := Part(f, p, x, 1, n - 1);
      MulAssoc(f, x, h, d);
      assert Mul(f, Pow(f, x, n - 1), d) == Mul(f, x, Mul(f, x, o));
      if n % 2 == 0 {
        var c := p[n - 1];
        var t := Mul(f, c, Pow(f, z, n - 2));
        MulDistrib(f, Pow(f, x, n - 1), d, t);
        MulAssoc(f, x, h, t);
        ShiftPower(f, x, z, c, n - 2);
        MulDistrib(f, x, c, Mul(f, x, o));
        XorComm(Mul(f, x, c), Mul(f, x, Mul(f, x, o)));
      } else {
        XorZero(Mul(f, x, o));
      }
    }
  }

  lemma {:induction false} PartsSum(f: Field, p: seq<nat>, x: nat, n: nat)
    requires n <= |p|
    ensures Eval(f, p, x, n) == Xor(Part(f, p, x, 0, n), Part(f, p, x, 1, n))
  {
    hide Mul, Xor;
    if n == 0 {
      XorZero(0);
    } else {
      PartsSum(f, p, x, n - 1);
      var c := p[n - 1];
      var a, b := Part(f, p, x, 0, n - 1), Part(f, p, x, 1, n - 1);
      MulDistrib(f, x, a, b);
      XorZero(c);
      if (n - 1) % 2 == 0 {
        XorSwap(c, Mul(f, x, a), 0, Mul(f, x, b));
      } else {
        XorSwap(0, Mul(f, x, a), c, Mul(f, x, b));
      }
    }
  }

  // x times the quotient of p by (x + a), evaluated at a itself.
  lemma {:induction false} QuotientAtItself(f: Field, p: seq<nat>, x: nat, n: nat)
    requires 0 < n <= |p|
    ensures Mul(f, x, Eval(f, Quotient(f, p, x), x, n - 1)) == Part(f, p, x, n % 2, n)
  {
    hide Mul, Xor;
    var q := Quotient(f, p, x);
    if n == 1 {
      assert Eval(f, q, x, 0) == 0 && Part(f, p, x, 1, 0) == 0;
      MulZero(f, x);
      XorZero(0);
    } else {
      QuotientAtItself(f, p, x, n - 1);
      PartsSum(f, p, x, n - 1);
      var e, g := Eval(f, p, x, n - 1), Part(f, p, x, (n - 1) % 2, n - 1);
      var h := Part(f, p, x, n % 2, n - 1);
      assert q[n - 2] == e;
      assert Eval(f, q, x, n - 1) == Xor(e, g);
      XorCancel(g, h);
      XorComm(g, h);
      assert Xor(e, g) == h;
      XorZero(Mul(f, x, h));
    }
  }

  // At a root, x*q(x) is the odd part whatever the degree.
  lemma QuotientAtRoot(f: Field, p: seq<nat>, x: nat, n: nat)
    requires 0 < n <= |p|
    requires Eval(f, p, x, n) == 0
    ensures Mul(f, x, Eval(f, Quotient(f, p, x), x, n - 1)) == Part(f, p, x, 1, n)
  {
    hide Mul, Xor, Part, Eval;
    QuotientAtItself(f, p, x, n);
    PartsSum(f, p, x, n);
    XorEqZero(Part(f, p, x, 0, n), Part(f, p, x, 1, n));
  }

  // ---------- The evaluator at a root ----------

  // y[p] times the quotient of lam by (x + xs[p]), evaluated at x.
  ghost function QuotientWeights(f: Field, y: seq<nat>, xs: seq<nat>, lam: seq<nat>, x: nat, n: nat): (w: seq<nat>)
    requires |y| == |xs| && n <= |lam|
    ensures |w| == |xs|
  {
    seq(|xs|, p requires 0 <= p < |xs| => Mul(f, y[p], Eval(f, Quotient(f, lam, xs[p]), x, n)))
  }

  lemma {:induction false} EvaluatorAsPowerSum(f: Field, s: seq<nat>, y: seq<nat>, xs: seq<nat>, lam: seq<nat>,
                                               om: seq<nat>, x: nat, n: nat)
    requires SyndromesOf(f, s, y, xs) && EvaluatorOf(f, om, lam, s) && n <= |om|
    ensures Eval(f, om, x, n) == PowerSum(f, QuotientWeights(f, y, xs, lam, x, n), xs, 0, |xs|)
  {
    hide Mul, Xor, PowerSum, Convolution;
    var w := QuotientWeights(f, y, xs, lam, x, n);
    if n == 0 {
      forall p | 0 <= p < |xs| ensures w[p] == 0 {
        assert Eval(f, Quotient(f, lam, xs[p]), x, 0) == 0;
        MulZero(f, y[p]);
      }
      PowerSumOfZeros(f, w, xs, 0, |xs|);
    } else {
      EvaluatorAsPowerSum(f, s, y, xs, lam, om, x, n - 1);
      ConvolutionAsPowerSum(f, s, y, xs, lam, n - 1, n);
      var u, v := Weights(f, y, xs, lam, n), QuotientWeights(f, y, xs, lam, x, n - 1);
      forall p | 0 <= p < |xs| ensures w[p] == Xor(u[p], Mul(f, x, v[p])) {
        var q := Quotient(f, lam, xs[p]);
        assert Eval(f, q, x, n) == Xor(q[n - 1], Mul(f, x, Eval(f, q, x, n - 1)));
        MulDistrib(f, y[p], q[n - 1], Mul(f, x, Eval(f, q, x, n - 1)));
        MulSwap(f, y[p], x, Eval(f, q, x, n - 1));
      }
      PowerSumLinear(f, w, u, x, v, xs, 0, |xs|);
    }
  }

  // At the root xs[q] only the weight at q survives.
  lemma EvaluatorAtRoot(f: Field, s: seq<nat>, y: seq<nat>, xs: seq<nat>, lam: seq<nat>, om: seq<nat>, nu: nat, q: nat)
    requires SyndromesOf(f, s, y, xs) && EvaluatorOf(f, om, lam, s) && |om| == nu
    requires Symbols(f, lam) && q < |xs|
    requires forall p :: 0 <= p < |xs| && (p == q || y[p] != 0) ==> Eval(f, lam, xs[p], nu + 1) == 0
    ensures Eval(f, om, xs[q], nu) == Mul(f, y[q], Eval(f, Quotient(f, lam, xs[q]), xs[q], nu))
  {
    hide Mul, Xor, PowerSum, Convolution, Eval;
    var x := xs[q];
    var w := QuotientWeights(f, y, xs, lam, x, nu);
    EvaluatorAsPowerSum(f, s, y, xs, lam, om, x, nu);
    forall p | 0 <= p < |xs| && p != q ensures w[p] == 0 {
      MulZero(f, y[p]);
      MulZero(f, Eval(f, Quotient(f, lam, xs[p]), x, nu));
      if y[p] != 0 {
        assert xs[p] != xs[q] by {
          if p < q { assert xs[p] != xs[q]; } else { assert xs[q] != xs[p]; }
        }
        QuotientRoot(f, lam, xs[p], x, nu + 1);
      }
    }
    PowerSumSingle(f, w, xs, 0, |xs|, q);
    assert Pow(f, x, 0) == 1;
    MulOne(f, w[q]);
  }

  // The locator has no double root.
  lemma QuotientNonzero(f: Field, lam: seq<nat>, xs: seq<nat>, nu: nat, errata: set<nat>, q: nat)
    requires Locators(f, xs) && 0 < nu < |lam| && Symbols(f, lam) && lam[0] == 1
    requires |errata| == nu && q in errata
    requires forall p :: p in errata ==> p < |xs| && Eval(f, lam, xs[p], nu + 1) == 0
    ensures 0 < Eval(f, Quotient(f, lam, xs[q]), xs[q], nu) < f.Size()
  {
    hide Mul, Xor, Eval, f.Size;
    var x := xs[q];
    var g := Quotient(f, lam, x);
    QuotientSymbols(f, lam, x);
    EvalBound(f, g, x, nu);
    EvalOne(f, lam, x);
    if Eval(f, g, x, nu) == 0 {
      forall p | p in errata ensures Eval(f, g, xs[p], nu) == 0 {
        if p != q {
          assert xs[p] != xs[q] by {
            if p < q { assert xs[p] != xs[q]; } else { assert xs[q] != xs[p]; }
          }
          QuotientRoot(f, lam, x, xs[p], nu + 1);
        }
      }
      RootCount(f, g, xs, nu, errata);
      assert false;
    }
  }

  // A locator with as many roots as its degree has a nonzero derivative there.
  lemma DerivativeAtRoot(f: Field, lam: seq<nat>, xs: seq<nat>, nu: nat, errata: set<nat>, q: nat, z: nat)
    requires Locators(f, xs) && 0 < nu < |lam| && Symbols(f, lam) && lam[0] == 1
    requires |errata| == nu && q in errata
    requires forall p :: p in errata ==> p < |xs| && Eval(f, lam, xs[p], nu + 1) == 0
    requires 0 < z < f.Size() && Mul(f, xs[q], z) == 1
    ensures Derivative(f, lam, z, nu + 1) != 0
    ensures var x := xs[q];
      Mul(f, Pow(f, x, nu - 1), Derivative(f, lam, z, nu + 1)) == Mul(f, x, Eval(f, Quotient(f, lam, x), x, nu))
  {
    hide Mul, Xor, Eval, Derivative, Part, f.Size;
    var x := xs[q];
    var den := Derivative(f, lam, z, nu + 1);
    var g := Eval(f, Quotient(f, lam, x), x, nu);
    var h := Pow(f, x, nu - 1);
    DerivativeIsOddPart(f, lam, x, z, nu + 1);
    QuotientAtRoot(f, lam, x, nu + 1);
    QuotientNonzero(f, lam, xs, nu, errata, q);
    MulAssoc(f, x, h, den);
    assert Pow(f, x, nu) == Mul(f, x, h);
    MulCancel(f, x, Mul(f, h, den), Mul(f, x, g));
    MulNonzero(f, x, g);
    MulZero(f, h);
  }

  // numerator * x == weight * denominator
  lemma Forney(f: Field, s: seq<nat>, y: seq<nat>, xs: seq<nat>, lam: seq<nat>, om: seq<nat>, nu: nat, errata: set<nat>,
               q: nat, z: nat)
    requires SyndromesOf(f, s, y, xs) && EvaluatorOf(f, om, lam, s) && |om| == nu > 0
    requires Symbols(f, lam) && Symbols(f, om) && lam[0] == 1
    requires |errata| == nu && q in errata
    requires forall p :: p in errata ==> p < |xs| && Eval(f, lam, xs[p], nu + 1) == 0
    requires forall p :: 0 <= p < |xs| && y[p] != 0 ==> p in errata
    requires 0 < z < f.Size() && Mul(f, xs[q], z) == 1
    ensures Derivative(f, lam, z, nu + 1) != 0
    ensures Mul(f, Ascending(f, om, z, nu), xs[q]) == Mul(f, y[q], Derivative(f, lam, z, nu + 1))
  {
    hide Mul, Xor, Eval, Convolution, Ascending, Derivative, Part, PowerSum, Quotient, f.Size;
    var x := xs[q];
    var num, den := Ascending(f, om, z, nu), Derivative(f, lam, z, nu + 1);
    var h := Pow(f, x, nu - 1);
    PowBound(f, x, nu - 1);
    EvaluatorAtRoot(f, s, y, xs, lam, om, nu, q);
    AscendingIsEval(f, om, x, z, nu);
    DerivativeAtRoot(f, lam, xs, nu, errata, q, z);
    var g := Eval(f, Quotient(f, lam, x), x, nu);
    assert Mul(f, h, num) == Mul(f, y[q], g);
    assert Mul(f, h, den) == Mul(f, x, g);
    assert Mul(f, h, Mul(f, num, x)) == Mul(f, h, Mul(f, y[q], den)) by {
      MulAssoc(f, h, num, x);
      MulAssoc(f, y[q], g, x);
      MulSwap(f, h, y[q], den);
      MulComm(f, g, x);
    }
    MulCancel(f, h, Mul(f, num, x), Mul(f, y[q], den));
  }

  lemma {:induction false} DerivativeBound(f: Field, p: seq<nat>, z: nat, n: nat)
    requires n <= |p|
    ensures Derivative(f, p, z, n) < f.Size()
  {
    hide Mul, Xor;
    if n > 0 {
      DerivativeBound(f, p, z, n - 1);
      if n % 2 == 0 {
        XorBound(Derivative(f, p, z, n - 1), Mul(f, p[n - 1], Pow(f, z, n - 2)), f.m);
      }
    }
  }
}
