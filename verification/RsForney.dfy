// The second half of lib/libfec/decode_rs.h: the evaluator polynomial and the
// error values, computed from index-form arrays.
module RsForney {
  import opened Bits
  import opened GaloisField
  import opened Polynomials
  import opened KeyEquation
  import opened ErrorEvaluator
  import opened RsCodec
  import opened RsLocator
  import opened RsSearch

  // Converts the locator to index form and finds its degree.
  method IndexAndDegree(c: Codec, ghost f: Field, lambda: array<nat>) returns (deg: nat)
    requires Tables(c, f) && Symbols(f, lambda[..]) && lambda.Length > 0 && lambda[0] == 1
    modifies lambda
    ensures IndexForm(c, lambda[..], old(lambda[..]))
    ensures deg < lambda.Length && old(lambda[deg]) != 0
    ensures forall j :: deg < j < lambda.Length ==> old(lambda[j]) == 0
  {
    hide f.Alpha, f.Size;
    ghost var lam := lambda[..];
    NnIsSizeLessOne(c, f);
    deg := 0;
    for i := 0 to lambda.Length
      invariant deg < lambda.Length && lam[deg] != 0
      invariant forall j :: deg < j < i ==> lam[j] == 0
      invariant forall j :: 0 <= j < i ==> lambda[j] == c.indexOf[lam[j]]
      invariant forall j :: i <= j < lambda.Length ==> lambda[j] == lam[j]
    {
      lambda[i] := c.indexOf[lambda[i]];
      if lambda[i] != c.nn {
        deg := i;
      }
    }
  }

  // ---------- The evaluator polynomial ----------

  // One coefficient of s(x)*lambda(x), summed from the top.
  method EvaluatorCoefficient(c: Codec, ghost f: Field, lambda: seq<nat>, ghost lam: seq<nat>, s: seq<nat>,
                              ghost sp: seq<nat>, i: nat)
    returns (tmp: nat)
    requires Tables(c, f) && IndexForm(c, lambda, lam) && IndexForm(c, s, sp)
    requires i < |s| < |lambda|
    ensures tmp == Convolution(f, lam, sp, i, i + 1)
  {
    hide f.Alpha, f.Size, Mul, Xor;
    ghost var total := Convolution(f, lam, sp, i, i + 1);
    tmp := 0;
    XorZero(total);
    var n: nat := i + 1;
    while n > 0
      invariant n <= i + 1
      invariant Xor(tmp, Convolution(f, lam, sp, i, n)) == total
    {
      var j := n - 1;
      ghost var rest, term := Convolution(f, lam, sp, i, j), Mul(f, lam[j], sp[i - j]);
      IndexFormZero(c, f, lambda, lam, j);
      IndexFormZero(c, f, s, sp, i - j);
      MulZero(f, lam[j]);
      MulZero(f, sp[i - j]);
      XorMove(tmp, rest, term);
      if s[i - j] != c.nn && lambda[j] != c.nn {
        ProductOfIndices(c, f, sp[i - j], lam[j]);
        MulComm(f, sp[i - j], lam[j]);
        var v := Antilog(c, f, s[i - j] + lambda[j]);
        tmp := Xor(tmp, v);
      }
      n := n - 1;
    }
    XorZero(tmp);
  }

  predicate IsIndexOf(c: Codec, idx: nat, v: nat) { v < |c.indexOf| && idx == c.indexOf[v] }

  method ComputeEvaluator(c: Codec, ghost f: Field, lambda: seq<nat>, ghost lam: seq<nat>, s: seq<nat>,
                          ghost sp: seq<nat>, deg: nat)
    returns (omega: seq<nat>, ghost om: seq<nat>)
    requires Tables(c, f) && IndexForm(c, lambda, lam) && IndexForm(c, s, sp)
    requires deg <= |s| < |lambda|
    ensures |om| == deg && EvaluatorOf(f, om, lam, sp) && Symbols(f, om)
    ensures IndexForm(c, omega, om)
    ensures |omega| == deg && forall i :: 0 <= i < deg ==> IsIndexOf(c, omega[i], Convolution(f, lam, sp, i, i + 1))
  {
    hide f.Alpha, f.Size, Mul, Xor, Convolution;
    NnIsSizeLessOne(c, f);
    var out := new nat[deg];
    om := [];
    for i := 0 to deg
      invariant |om| == i && Symbols(f, om)
      invariant forall k :: 0 <= k < i ==> om[k] == Convolution(f, lam, sp, k, k + 1)
      invariant forall k :: 0 <= k < i ==> om[k] < |c.indexOf| && out[k] == c.indexOf[om[k]]
    {
      var tmp := EvaluatorCoefficient(c, f, lambda, lam, s, sp, i);
      ConvolutionBound(f, lam, sp, i, i + 1);
      out[i] := c.indexOf[tmp];
      om := om + [tmp];
    }
    omega := out[..];
    forall i | 0 <= i < deg ensures IsIndexOf(c, omega[i], Convolution(f, lam, sp, i, i + 1)) {
      assert om[i] == Convolution(f, lam, sp, i, i + 1);
    }
  }

  // ---------- Numerator and denominator ----------

  lemma TermAtRoot(c: Codec, f: Field, x: nat, i: nat, rt: nat)
    requires Tables(c, f) && 0 < x <= c.nn
    ensures f.Alpha(c.indexOf[x] + i * rt) == Mul(f, x, Pow(f, f.Alpha(rt), i))
  {
    hide f.Alpha, Mul, Pow;
    PowOfAlpha(f, rt, i);
    MulAlphas(f, c.indexOf[x], rt * i);
    assert rt * i == i * rt;
  }

  method Numerator(c: Codec, ghost f: Field, omega: seq<nat>, ghost om: seq<nat>, rt: nat) returns (num: nat)
    requires Tables(c, f) && IndexForm(c, omega, om)
    ensures num == Ascending(f, om, f.Alpha(rt), |om|)
  {
    hide f.Alpha, f.Size, Mul, Xor;
    ghost var z := f.Alpha(rt);
    ghost var total := Ascending(f, om, z, |om|);
    num := 0;
    XorZero(total);
    var n: nat := |omega|;
    while n > 0
      invariant n <= |omega|
      invariant Xor(num, Ascending(f, om, z, n)) == total
    {
      var i := n - 1;
      ghost var rest, term := Ascending(f, om, z, i), Mul(f, om[i], Pow(f, z, i));
      IndexFormZero(c, f, omega, om, i);
      MulZero(f, Pow(f, z, i));
      XorMove(num, rest, term);
      if omega[i] != c.nn {
        TermAtRoot(c, f, om[i], i, rt);
        var v := Antilog(c, f, omega[i] + i * rt);
        num := Xor(num, v);
      }
      n := n - 1;
    }
    XorZero(num);
  }

  function Min(a: nat, b: nat): nat { if a < b then a else b }

  // The largest even index the derivative loop starts at covers every odd
  // coefficient of the locator.
  lemma DerivativeStart(f: Field, lam: seq<nat>, z: nat, deg: nat, nroots: nat)
    requires 0 < nroots && |lam| == nroots + 1 && deg <= nroots
    requires forall j :: deg < j < |lam| ==> lam[j] == 0
    ensures var d := Min(deg, nroots - 1) / 2 * 2;
      d + 2 <= |lam| && Derivative(f, lam, z, d + 2) == Derivative(f, lam, z, deg + 1)
  {
    hide Mul, Xor, f.Size;
    var d := Min(deg, nroots - 1) / 2 * 2;
    if d == deg {
      MulZero(f, Pow(f, z, deg));
      XorZero(Derivative(f, lam, z, deg + 1));
    } else {
      assert d + 1 == deg || d + 2 == deg;
    }
  }

  method Denominator(c: Codec, ghost f: Field, lambda: seq<nat>, ghost lam: seq<nat>, deg: nat, rt: nat)
    returns (den: nat)
    requires Tables(c, f) && IndexForm(c, lambda, lam) && |lam| == c.nroots + 1 && 0 < c.nroots
    requires deg <= c.nroots && forall j :: deg < j < |lam| ==> lam[j] == 0
    ensures den == Derivative(f, lam, f.Alpha(rt), deg + 1)
  {
    hide f.Alpha, f.Size, Mul, Xor, Derivative, Pow, Tables;
    ghost var z := f.Alpha(rt);
    ghost var total := Derivative(f, lam, z, deg + 1);
    assert |lambda| == |lam|;
    hide IndexForm;
    DerivativeStart(f, lam, z, deg, c.nroots);
    XorZero(total);
    den := 0;
    // n is the loop index of the source plus two.
    var n: nat := Min(deg, c.nroots - 1) / 2 * 2 + 2;
    while n > 0
      invariant n % 2 == 0 && n <= |lam|
      invariant Xor(den, Derivative(f, lam, z, n)) == total
    {
      var i: nat := n - 2;
      DerivativeUnfold(f, lam, z, i);
      ghost var rest, term := Derivative(f, lam, z, i), Mul(f, lam[i + 1], Pow(f, z, i));
      IndexFormZero(c, f, lambda, lam, i + 1);
      MulZero(f, Pow(f, z, i));
      XorMove(den, rest, term);
      if lambda[i + 1] != c.nn {
        TermAtRoot(c, f, lam[i + 1], i, rt);
        var v := Antilog(c, f, lambda[i + 1] + i * rt);
        den := Xor(den, v);
      }
      n := n - 2;
    }
    assert Derivative(f, lam, z, 0) == 0 by { DerivativeEmpty(f, lam, z); }
    XorZero(den);
  }

  lemma DerivativeEmpty(f: Field, lam: seq<nat>, z: nat)
    ensures Derivative(f, lam, z, 0) == 0
  {
  }

  lemma DerivativeUnfold(f: Field, lam: seq<nat>, z: nat, i: nat)
    requires i % 2 == 0 && i + 2 <= |lam|
    ensures Derivative(f, lam, z, i + 2) == Xor(Derivative(f, lam, z, i), Mul(f, lam[i + 1], Pow(f, z, i)))
  {
    hide Mul, Xor, Pow;
    assert Derivative(f, lam, z, i + 1) == Derivative(f, lam, z, i) by {
      if i == 0 { assert Derivative(f, lam, z, 0) == 0; }
    }
  }

  // ---------- The error value ----------

  // root[j] * (FCR - 1) + NN
  function ScaleExponent(c: Codec, rt: nat): nat
    requires rt <= c.nn
  {
    if c.fcr == 0 then c.nn - rt else rt * (c.fcr - 1) + c.nn
  }

  // The value the source adds at a root, and whether it adds one.
  method ErrorValue(c: Codec, ghost f: Field, omega: seq<nat>, ghost om: seq<nat>, lambda: seq<nat>,
                    ghost lam: seq<nat>, deg: nat, rt: nat)
    returns (num: nat, v: nat)
    requires Tables(c, f) && IndexForm(c, lambda, lam) && IndexForm(c, omega, om) && |lam| == c.nroots + 1
    requires deg <= c.nroots && 0 < c.nroots && rt <= c.nn && forall j :: deg < j < |lam| ==> lam[j] == 0
    ensures num == Ascending(f, om, f.Alpha(rt), |om|)
    ensures v < f.Size() && (num == 0 ==> v == 0)
    ensures var den := Derivative(f, lam, f.Alpha(rt), deg + 1);
      num != 0 && den != 0 ==> Mul(f, v, den) == Mul(f, num, f.Alpha(ScaleExponent(c, rt)))
  {
    hide f.Alpha, Mul, Ascending, Derivative, IndexForm;
    num := Numerator(c, f, omega, om, rt);
    var num2 := Antilog(c, f, ScaleExponent(c, rt));
    var den := Denominator(c, f, lambda, lam, deg, rt);
    assert num <= c.nn && den <= c.nn by {
      AscendingBound(f, om, f.Alpha(rt), |om|);
      DerivativeBound(f, lam, f.Alpha(rt), deg + 1);
    }
    v := 0;
    if num != 0 {
      AlphaBound(f, ScaleExponent(c, rt));
      AlphaNonzero(f, ScaleExponent(c, rt));
      v := Antilog(c, f, c.indexOf[num] + c.indexOf[num2] + c.nn - c.indexOf[den]);
      AlphaBound(f, c.indexOf[num] + c.indexOf[num2] + c.nn - c.indexOf[den]);
      if den != 0 {
        QuotientOfIndices(c, f, num, num2, den);
      }
    }
  }

  lemma QuotientOfIndices(c: Codec, f: Field, a: nat, b: nat, d: nat)
    requires Tables(c, f) && 0 < a <= c.nn && 0 < b <= c.nn && 0 < d <= c.nn
    ensures c.indexOf[d] < c.nn
    ensures Mul(f, f.Alpha(c.indexOf[a] + c.indexOf[b] + c.nn - c.indexOf[d]), d) == Mul(f, a, b)
  {
    hide f.Alpha, Mul;
    var i, j, k := c.indexOf[a], c.indexOf[b], c.indexOf[d];
    MulAlphas(f, i + j + c.nn - k, k);
    AlphaPeriod(f, i + j, 1);
    MulAlphas(f, i, j);
  }

  // The scale factor undoes the weighting by the fcr-th power of the locator.
  lemma ScaleUndone(c: Codec, f: Field, rt: nat, x: nat)
    requires c.nn == f.Nn() && 1 <= rt <= c.nn && 0 < x < f.Size()
    requires Mul(f, x, f.Alpha(rt)) == 1
    ensures Mul(f, Pow(f, x, c.fcr), f.Alpha(ScaleExponent(c, rt))) == x
  {
    hide f.Alpha, f.Size, Mul;
    var z := f.Alpha(rt);
    AlphaBound(f, rt);
    AlphaNonzero(f, rt);
    if c.fcr == 0 {
      var w := f.Alpha(c.nn - rt);
      AlphaBound(f, c.nn - rt);
      MulAlphas(f, rt, c.nn - rt);
      AlphaPeriod(f, 0, 1);
      AlphaZero(f);
      MulComm(f, x, z);
      MulCancel(f, z, w, x);
      MulOne(f, w);
    } else {
      var n: nat := c.fcr - 1;
      PowOfAlpha(f, rt, n);
      AlphaPeriod(f, rt * n, 1);
      PowInverse(f, x, z, n);
      MulAssoc(f, x, Pow(f, x, n), Pow(f, z, n));
      MulOne(f, x);
    }
  }
}
