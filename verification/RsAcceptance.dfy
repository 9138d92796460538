// What lib/libfec/decode_rs.h does to a block it accepts, however many symbols
// are wrong: when the corrected block is a codeword, and which one.
module RsAcceptance {
  import opened Arithmetic
  import opened Bits
  import opened GaloisField
  import opened Polynomials
  import opened KeyEquation
  import opened ErrorEvaluator
  import opened RsCodec
  import opened RsCode
  import opened RsSearch
  import opened RsForney

  // The syndromes of a received block.
  ghost function Syndromes(c: Codec, f: Field, d: seq<nat>): (s: seq<nat>)
    ensures |s| == c.nroots && forall i :: 0 <= i < c.nroots ==> s[i] == Syndrome(c, f, d, i)
  {
    seq(c.nroots, i requires 0 <= i < c.nroots => Syndrome(c, f, d, i))
  }

  // The power sums of weights y: the syndromes they would give.
  ghost function PowerSums(f: Field, y: seq<nat>, xs: seq<nat>, n: nat): (s: seq<nat>)
    requires |y| == |xs|
    ensures |s| == n && forall i :: 0 <= i < n ==> s[i] == PowerSum(f, y, xs, i, |xs|)
  {
    seq(n, i requires 0 <= i < n => PowerSum(f, y, xs, i, |xs|))
  }

  // The first n coefficients of the product of a locator and syndromes.
  ghost function Product(f: Field, lam: seq<nat>, s: seq<nat>, n: nat): (om: seq<nat>)
    requires n <= |s| < |lam|
    ensures |om| == n && EvaluatorOf(f, om, lam, s) && Symbols(f, om)
  {
    DiscrepanciesBound(f, lam, s, n);
    seq(n, i requires 0 <= i < n => Discrepancy(f, lam, s, i))
  }

  lemma DiscrepanciesBound(f: Field, lam: seq<nat>, s: seq<nat>, n: nat)
    requires n <= |s| < |lam|
    ensures forall i :: 0 <= i < n ==> Discrepancy(f, lam, s, i) < f.Size()
  {
    hide Convolution, f.Size;
    forall i | 0 <= i < n ensures Discrepancy(f, lam, s, i) < f.Size() {
      ConvolutionBound(f, lam, s, i, i + 1);
    }
  }

  // ---------- What the correction loop computes ----------

  // numerator * x == weight * denominator, for a correction v at position p.
  ghost predicate Balanced(c: Codec, f: Field, lam: seq<nat>, om: seq<nat>, p: nat, v: nat)
    requires p < c.nn && |om| < |lam|
  {
    var x, z := Locator(c, f, p), f.Alpha(RootIndex(c, p));
    Mul(f, Ascending(f, om, z, |om|), x) == Mul(f, Mul(f, v, Pow(f, x, c.fcr)), Derivative(f, lam, z, |om| + 1))
  }

  // The positions the search can find: the roots of the locator.
  ghost function RootPositions(c: Codec, f: Field, lam: seq<nat>, deg: nat): set<nat>
    requires deg < |lam|
  {
    set p: nat | p < c.nn && Eval(f, lam, Locator(c, f, p), deg + 1) == 0
  }

  // The locator of degree deg has deg roots, and fix holds the corrections: at
  // every root the value the loop computes, nothing anywhere else.
  ghost predicate Corrects(c: Codec, f: Field, lam: seq<nat>, om: seq<nat>, fix: seq<nat>) {
    && |om| < |lam| == c.nroots + 1 && Symbols(f, lam) && Symbols(f, om) && lam[0] == 1
    && (forall j :: |om| < j < |lam| ==> lam[j] == 0)
    && |RootPositions(c, f, lam, |om|)| == |om|
    && |fix| == c.nn && Symbols(f, fix)
    && (forall p :: 0 <= p < c.nn && fix[p] != 0 ==> p in RootPositions(c, f, lam, |om|))
    && (forall p :: p in RootPositions(c, f, lam, |om|) ==> Balanced(c, f, lam, om, p, fix[p]))
  }

  // alpha^RootIndex(p) is the inverse of the locator of p.
  lemma InverseAt(c: Codec, f: Field, p: nat)
    requires Valid(c, f) && p < c.nn
    ensures 1 <= RootIndex(c, p) <= c.nn
    ensures var x, z := Locator(c, f, p), f.Alpha(RootIndex(c, p));
      0 < x < f.Size() && 0 < z < f.Size() && Mul(f, x, z) == 1
  {
    hide f.Alpha, f.Size, Mul, Locator, Tables;
    var i, r := RootIndex(c, p), (c.prim * (p + 1)) % c.nn;
    assert c.nn == f.Nn() by { TablesLength(c, f); }
    RemainderUnique(i, c.nn, if r == 0 then 1 else 0, r);
    InverseLocator(c, f, i, p);
    AlphaBound(f, i);
    AlphaNonzero(f, i);
    LocatorNonzero(c, f, p);
  }

  // ---------- The corrections have the evaluator of the block ----------

  // The weights of the corrections give the same evaluator value at each root.
  lemma SameValue(c: Codec, f: Field, lam: seq<nat>, om: seq<nat>, fix: seq<nat>, p: nat)
    requires Valid(c, f) && Corrects(c, f, lam, om, fix) && p in RootPositions(c, f, lam, |om|)
    ensures var xs := CodeLocators(c, f);
      var t := PowerSums(f, Scaled(c, f, fix), xs, c.nroots);
      Eval(f, om, xs[p], |om|) == Eval(f, Product(f, lam, t, |om|), xs[p], |om|)
  {
    hide f.Alpha, f.Size, Mul, Pow, Eval, Ascending, Derivative, Locator, RootIndex, Valid, PowerSum, Convolution,
      Product;
    var deg, xs, y := |om|, CodeLocators(c, f), Scaled(c, f, fix);
    var t := PowerSums(f, y, xs, c.nroots);
    var om' := Product(f, lam, t, deg);
    var x, z := Locator(c, f, p), f.Alpha(RootIndex(c, p));
    LocatorsDistinct(c, f);
    InverseAt(c, f, p);
    SubsetSize({p}, RootPositions(c, f, lam, deg));
    forall q | 0 <= q < |xs| && y[q] != 0 ensures q in RootPositions(c, f, lam, deg) {
      ScaledNonzero(c, f, fix, q);
    }
    Forney(f, t, y, xs, lam, om', deg, RootPositions(c, f, lam, deg), p, z);
    AscendingBound(f, om, z, deg);
    AscendingBound(f, om', z, deg);
    MulComm(f, Ascending(f, om, z, deg), x);
    MulComm(f, Ascending(f, om', z, deg), x);
    MulCancel(f, x, Ascending(f, om, z, deg), Ascending(f, om', z, deg));
    AscendingIsEval(f, om, x, z, deg);
    AscendingIsEval(f, om', x, z, deg);
  }

  lemma {:induction false} ConvolutionDifference(f: Field, lam: seq<nat>, s: seq<nat>, t: seq<nat>, k: nat, n: nat)
    requires n <= |lam| && n <= k + 1 && k < |s| == |t|
    ensures Convolution(f, lam, Difference(s, t), k, n)
         == Xor(Convolution(f, lam, s, k, n), Convolution(f, lam, t, k, n))
  {
    hide Mul, Xor;
    if n == 0 {
      XorZero(0);
    } else {
      ConvolutionDifference(f, lam, s, t, k, n - 1);
      var a, b := s[k + 1 - n], t[k + 1 - n];
      MulDistrib(f, lam[n - 1], a, b);
      XorSwap(Convolution(f, lam, s, k, n - 1), Convolution(f, lam, t, k, n - 1), Mul(f, lam[n - 1], a), Mul(f,
        lam[n - 1], b));
    }
  }

  // The low coefficients of the product with the locator agree.
  lemma SameEvaluator(c: Codec, f: Field, sp: seq<nat>, lam: seq<nat>, om: seq<nat>, fix: seq<nat>, k: nat)
    requires Valid(c, f) && Corrects(c, f, lam, om, fix) && k < |om|
    requires |sp| == c.nroots && EvaluatorOf(f, om, lam, sp)
    ensures var t := PowerSums(f, Scaled(c, f, fix), CodeLocators(c, f), c.nroots);
      Discrepancy(f, lam, sp, k) == Discrepancy(f, lam, t, k)
  {
    hide f.Size, Eval, Xor, Locator, Valid, PowerSum, Convolution, Balanced, Product;
    var xs := CodeLocators(c, f);
    var t := PowerSums(f, Scaled(c, f, fix), xs, c.nroots);
    var om' := Product(f, lam, t, |om|);
    var g := Difference(om, om');
    DifferenceSymbols(f, om, om');
    LocatorsDistinct(c, f);
    forall p | p in RootPositions(c, f, lam, |om|) ensures p < |xs| && Eval(f, g, xs[p], |g|) == 0 {
      SameValue(c, f, lam, om, fix, p);
      EvalDifference(f, om, om', xs[p], |om|);
      XorSelf(Eval(f, om, xs[p], |om|));
    }
    ManyRoots(f, g, xs, RootPositions(c, f, lam, |om|));
    assert g[k] == 0;
    XorEqZero(om[k], om'[k]);
  }

  // The corrections themselves satisfy the locator's recurrence throughout.
  lemma CorrectionsRecur(c: Codec, f: Field, lam: seq<nat>, om: seq<nat>, fix: seq<nat>, k: nat)
    requires Valid(c, f) && Corrects(c, f, lam, om, fix) && |om| <= k < c.nroots
    ensures Discrepancy(f, lam, PowerSums(f, Scaled(c, f, fix), CodeLocators(c, f), c.nroots), k) == 0
  {
    hide f.Size, Eval, Mul, Locator, Valid, PowerSum, Discrepancy, Balanced;
    var deg, xs, y := |om|, CodeLocators(c, f), Scaled(c, f, fix);
    var t := PowerSums(f, y, xs, c.nroots);
    LocatorsDistinct(c, f);
    DiscrepancyAsPowerSum(f, t, y, xs, lam, deg, k);
    var w := Weights(f, y, xs, lam, deg + 1);
    forall p | 0 <= p < |xs| ensures w[p] == 0 {
      MulZero(f, y[p]);
      MulZero(f, Eval(f, lam, xs[p], deg + 1));
      ScaledNonzero(c, f, fix, p);
    }
    PowerSumOfZeros(f, w, xs, k - deg, |xs|);
  }

  // ---------- Discrepancies determine syndromes ----------

  lemma {:induction false} FirstTermOnly(f: Field, lam: seq<nat>, s: seq<nat>, k: nat, n: nat)
    requires 0 < n <= |lam| && n <= k + 1 && k < |s| && lam[0] == 1 && s[k] < f.Size()
    requires forall i :: 0 <= i < k ==> s[i] == 0
    ensures Convolution(f, lam, s, k, n) == s[k]
  {
    hide Mul, Xor, f.Size;
    if n == 1 {
      assert Convolution(f, lam, s, k, 0) == 0;
      MulOne(f, s[k]);
      XorZero(s[k]);
    } else {
      FirstTermOnly(f, lam, s, k, n - 1);
      MulZero(f, lam[n - 1]);
      XorZero(s[k]);
    }
  }

  // Syndromes vanish below n exactly when their discrepancies do.
  lemma {:induction false} NoDiscrepancy(f: Field, lam: seq<nat>, s: seq<nat>, n: nat)
    requires n <= |s| < |lam| && lam[0] == 1 && Symbols(f, s)
    ensures (forall k :: 0 <= k < n ==> s[k] == 0) <==> (forall k :: 0 <= k < n ==> Discrepancy(f, lam, s, k) == 0)
  {
    hide Convolution, f.Size;
    if n > 0 {
      NoDiscrepancy(f, lam, s, n - 1);
      if forall k :: 0 <= k < n - 1 ==> s[k] == 0 {
        FirstTermOnly(f, lam, s, n - 1, n);
        assert Discrepancy(f, lam, s, n - 1) == s[n - 1];
      }
    }
  }

  // The corrections have the syndromes of the block below the degree, and all
  // of them exactly when the locator's discrepancies vanish from there on.
  lemma SyndromesMatch(c: Codec, f: Field, sp: seq<nat>, lam: seq<nat>, om: seq<nat>, fix: seq<nat>)
    requires Valid(c, f) && Corrects(c, f, lam, om, fix)
    requires |sp| == c.nroots && Symbols(f, sp) && EvaluatorOf(f, om, lam, sp)
    ensures var t := PowerSums(f, Scaled(c, f, fix), CodeLocators(c, f), c.nroots);
      && (forall k :: 0 <= k < |om| ==> sp[k] == t[k])
      && (sp == t <==> forall k :: |om| <= k < c.nroots ==> Discrepancy(f, lam, sp, k) == 0)
  {
    hide f.Size, Xor, Eval, Valid, PowerSum, Convolution, Balanced, RootPositions;
    var t := PowerSums(f, Scaled(c, f, fix), CodeLocators(c, f), c.nroots);
    var d := Difference(sp, t);
    PowerSumsBound(f, Scaled(c, f, fix), CodeLocators(c, f), c.nroots);
    DifferenceSymbols(f, sp, t);
    forall k | 0 <= k < c.nroots
      ensures d[k] == 0 <==> sp[k] == t[k]
      ensures Discrepancy(f, lam, d, k) == 0 <==> Discrepancy(f, lam, sp, k) == Discrepancy(f, lam, t, k)
    {
      ConvolutionDifference(f, lam, sp, t, k, k + 1);
      XorSelf(sp[k]);
      XorSelf(Discrepancy(f, lam, sp, k));
      if d[k] == 0 { XorEqZero(sp[k], t[k]); }
      if Discrepancy(f, lam, d, k) == 0 { XorEqZero(Discrepancy(f, lam, sp, k), Discrepancy(f, lam, t, k)); }
    }
    forall k | 0 <= k < c.nroots
      ensures Discrepancy(f, lam, d, k) == 0 <==> k < |om| || Discrepancy(f, lam, sp, k) == 0
    {
      if k < |om| {
        SameEvaluator(c, f, sp, lam, om, fix, k);
      } else {
        CorrectionsRecur(c, f, lam, om, fix, k);
      }
    }
    NoDiscrepancy(f, lam, d, |om|);
    NoDiscrepancy(f, lam, d, c.nroots);
  }

  lemma PowerSumsBound(f: Field, y: seq<nat>, xs: seq<nat>, n: nat)
    requires |y| == |xs|
    ensures Symbols(f, PowerSums(f, y, xs, n))
  {
    hide f.Size, PowerSum;
    forall i | 0 <= i < n ensures PowerSum(f, y, xs, i, |xs|) < f.Size() {
      PowerSumBound(f, y, xs, i, |xs|);
    }
  }

  lemma {:induction false} PowerSumBound(f: Field, y: seq<nat>, xs: seq<nat>, k: nat, n: nat)
    requires n <= |y| && n <= |xs|
    ensures PowerSum(f, y, xs, k, n) < f.Size()
  {
    hide Mul, Xor, f.Size;
    AlphaBound(f, 0);
    if n > 0 {
      PowerSumBound(f, y, xs, k, n - 1);
      AddBound(f, PowerSum(f, y, xs, k, n - 1), Mul(f, y[n - 1], Pow(f, xs[n - 1], k)));
    }
  }

  // ---------- The value the loop adds ----------

  lemma ScaledQuotient(f: Field, num: nat, v: nat, den: nat, h: nat, scale: nat)
    requires Mul(f, v, den) == Mul(f, num, scale)
    ensures Mul(f, num, Mul(f, h, scale)) == Mul(f, Mul(f, v, h), den)
  {
    hide Mul;
    MulSwap(f, num, h, scale);
    MulAssoc(f, h, v, den);
    MulComm(f, h, v);
  }

  // A value whose product with the derivative is numerator times scale, as
  // the source forms it, is the correction the evaluator asks for.
  lemma ValueBalances(c: Codec, f: Field, lam: seq<nat>, om: seq<nat>, p: nat, num: nat, v: nat)
    requires Valid(c, f) && |om| < |lam| && Symbols(f, lam) && lam[0] == 1
    requires |RootPositions(c, f, lam, |om|)| == |om| && p in RootPositions(c, f, lam, |om|)
    requires 1 <= RootIndex(c, p) <= c.nn && num == Ascending(f, om, f.Alpha(RootIndex(c, p)), |om|)
    requires num == 0 ==> v == 0
    requires var rt := RootIndex(c, p);
      var den := Derivative(f, lam, f.Alpha(rt), |om| + 1);
      num != 0 && den != 0 ==> Mul(f, v, den) == Mul(f, num, f.Alpha(ScaleExponent(c, rt)))
    ensures Balanced(c, f, lam, om, p, v)
  {
    hide f.Alpha, f.Size, Mul, Pow, Eval, Ascending, Derivative, Locator, RootIndex, Tables, ScaleExponent;
    var rt, ps := RootIndex(c, p), RootPositions(c, f, lam, |om|);
    var x, z := Locator(c, f, p), f.Alpha(rt);
    var h, den := Pow(f, x, c.fcr), Derivative(f, lam, z, |om| + 1);
    InverseAt(c, f, p);
    LocatorsDistinct(c, f);
    SubsetSize({p}, ps);
    DerivativeAtRoot(f, lam, CodeLocators(c, f), |om|, ps, p, z);
    if num == 0 {
      MulZero(f, x);
      MulZero(f, h);
      MulZero(f, den);
    } else {
      assert c.nn == f.Nn() by { TablesLength(c, f); }
      ScaleUndone(c, f, rt, x);
      ScaledQuotient(f, num, v, den, h, f.Alpha(ScaleExponent(c, rt)));
    }
  }

  // ---------- The corrected block ----------

  // Nothing differs outside the given positions.
  ghost predicate OnlyAt(c: Codec, data: seq<nat>, was: seq<nat>, found: set<nat>)
    requires |data| == |was|
  {
    forall d :: 0 <= d < |data| && data[d] != was[d] ==> d + c.pad in found
  }

  // Corrections that fall into the pad are skipped.
  ghost predicate Applied(c: Codec, data: seq<nat>, was: seq<nat>, fix: seq<nat>)
    requires |data| == |was| && |fix| == c.pad + |was|
  {
    forall d :: 0 <= d < |data| ==> data[d] == Xor(was[d], fix[d + c.pad])
  }

  ghost predicate PadUntouched(c: Codec, fix: seq<nat>)
    requires c.pad <= |fix|
  {
    forall p :: 0 <= p < c.pad ==> fix[p] == 0
  }

  // The accepted block and everything the decoder derived from it.
  ghost predicate Accepts(c: Codec, f: Field, received: seq<nat>, lam: seq<nat>, om: seq<nat>, fix: seq<nat>) {
    && Valid(c, f) && Block(c, f, received)
    && EvaluatorOf(f, om, lam, Syndromes(c, f, received)) && Corrects(c, f, lam, om, fix)
  }

  lemma SyndromesBound(c: Codec, f: Field, d: seq<nat>)
    requires Block(c, f, d)
    ensures Symbols(f, Syndromes(c, f, d))
  {
    hide Eval, Root, f.Size;
    forall i | 0 <= i < c.nroots ensures Syndrome(c, f, d, i) < f.Size() {
      EvalBound(f, d, Root(f, c.fcr, c.prim, i), |d|);
    }
  }

  lemma FewDifferences(u: seq<nat>, ps: set<nat>)
    requires forall p :: 0 <= p < |u| && u[p] != 0 ==> p in ps
    ensures Weight(u, |u|) <= |ps|
  {
    WeightIsCount(u, |u|);
    SubsetSize(Nonzeros(u, |u|), ps);
  }

  // A codeword that differs from the block only at the found positions is what
  // the corrections lead to, and none of them falls into the pad.
  lemma CorrectionsAreErrors(c: Codec, f: Field, received: seq<nat>, lam: seq<nat>, om: seq<nat>, fix: seq<nat>,
                             w: seq<nat>)
    requires Accepts(c, f, received, lam, om, fix)
    requires Codeword(c, f, w) && |w| == |received| && OnlyAt(c, w, received, RootPositions(c, f, lam, |om|))
    ensures fix == ErrorVector(c, w, received)
  {
    hide f.Size, Eval, Root, Xor, Valid, PowerSum, Discrepancy, Balanced, RootPositions, EvaluatorOf, Scaled,
      CodeLocators, Weight, Syndrome;
    var sp, e, ps := Syndromes(c, f, received), ErrorVector(c, w, received), RootPositions(c, f, lam, |om|);
    var u := Difference(e, fix);
    SyndromesBound(c, f, received);
    ErrorSymbols(c, f, w, received);
    DifferenceSymbols(f, e, fix);
    SyndromesMatch(c, f, sp, lam, om, fix);
    forall i | 0 <= i < |om| ensures Eval(f, u, Root(f, c.fcr, c.prim, i), c.nn) == 0 {
      var x := Root(f, c.fcr, c.prim, i);
      EvalDifference(f, e, fix, x, c.nn);
      SyndromeOfErrors(c, f, w, received, i);
      FullAsPowerSum(c, f, e, i);
      FullAsPowerSum(c, f, fix, i);
      XorSelf(sp[i]);
    }
    forall p | 0 <= p < c.nn && p !in ps ensures u[p] == 0 {
      ErrorsAt(c, w, received, ps, p);
      assert fix[p] == 0;
      XorZero(0);
    }
    FewDifferences(u, ps);
    MinimumDistance(c, f, u, |om|);
    forall p | 0 <= p < c.nn ensures fix[p] == e[p] {
      assert u[p] == 0;
      XorEqZero(e[p], fix[p]);
    }
  }

  lemma ErrorSymbols(c: Codec, f: Field, sent: seq<nat>, received: seq<nat>)
    requires |sent| == |received| && Symbols(f, sent) && Symbols(f, received)
    ensures Symbols(f, ErrorVector(c, sent, received))
  {
    hide f.Size, Xor;
    AlphaBound(f, 0);
    DifferenceSymbols(f, received, sent);
  }

  // The error vector is zero outside the positions where the blocks differ.
  lemma ErrorsAt(c: Codec, w: seq<nat>, received: seq<nat>, ps: set<nat>, p: nat)
    requires |w| == |received| && OnlyAt(c, w, received, ps) && p < c.pad + |w| && p !in ps
    ensures ErrorVector(c, w, received)[p] == 0
  {
    hide Xor;
    if p >= c.pad {
      assert w[p - c.pad] == received[p - c.pad];
      XorSelf(w[p - c.pad]);
    }
  }

  // So such a codeword is the corrected block.
  lemma OnlyCodeword(c: Codec, f: Field, received: seq<nat>, lam: seq<nat>, om: seq<nat>, fix: seq<nat>,
                     data: seq<nat>, w: seq<nat>)
    requires Accepts(c, f, received, lam, om, fix) && |data| == |received| && Applied(c, data, received, fix)
    requires Codeword(c, f, w) && |w| == |received| && OnlyAt(c, w, received, RootPositions(c, f, lam, |om|))
    ensures data == w && PadUntouched(c, fix)
  {
    hide Xor, Accepts, Codeword, RootPositions, OnlyAt;
    CorrectionsAreErrors(c, f, received, lam, om, fix, w);
    forall d | 0 <= d < |data| ensures data[d] == w[d] {
      XorCancel(received[d], w[d]);
    }
  }

  lemma AppliedOnlyAt(c: Codec, f: Field, received: seq<nat>, lam: seq<nat>, om: seq<nat>, fix: seq<nat>,
                      data: seq<nat>)
    requires Accepts(c, f, received, lam, om, fix) && |data| == |received| && Applied(c, data, received, fix)
    ensures OnlyAt(c, data, received, RootPositions(c, f, lam, |om|))
  {
    hide Xor, RootPositions, Balanced, f.Size, Valid, EvaluatorOf;
    forall d | 0 <= d < |data| && data[d] != received[d] ensures d + c.pad in RootPositions(c, f, lam, |om|) {
      XorZero(received[d]);
    }
  }

  // With the pad untouched the corrected block's syndromes are the difference
  // of the block's and the corrections'.
  lemma CorrectedSyndrome(c: Codec, f: Field, received: seq<nat>, fix: seq<nat>, data: seq<nat>, i: nat)
    requires Block(c, f, received) && Block(c, f, data) && |fix| == c.nn && Symbols(f, fix) && i < c.nroots
    requires Applied(c, data, received, fix) && PadUntouched(c, fix)
    ensures Syndrome(c, f, data, i)
         == Xor(Syndrome(c, f, received, i), PowerSum(f, Scaled(c, f, fix), CodeLocators(c, f), i, c.nn))
  {
    hide f.Size, Eval, Root, Xor, PowerSum, Scaled, CodeLocators, Syndrome;
    var x := Root(f, c.fcr, c.prim, i);
    var r, d := Full(c, received), Full(c, data);
    forall p | 0 <= p < c.nn ensures d[p] == Difference(r, fix)[p] {
      if p < c.pad {
        XorZero(0);
      } else {
        assert data[p - c.pad] == Xor(received[p - c.pad], fix[p - c.pad + c.pad]);
      }
    }
    assert d == Difference(r, fix);
    SyndromeOfFull(c, f, received, i);
    SyndromeOfFull(c, f, data, i);
    FullAsPowerSum(c, f, fix, i);
    EvalDifference(f, r, fix, x, c.nn);
  }

  // The corrected block is a codeword exactly when the locator's discrepancies
  // vanish from its degree on and no correction fell into the pad.
  lemma CodewordExactly(c: Codec, f: Field, received: seq<nat>, lam: seq<nat>, om: seq<nat>, fix: seq<nat>,
                        data: seq<nat>)
    requires Accepts(c, f, received, lam, om, fix)
    requires |data| == |received| && Symbols(f, data) && Applied(c, data, received, fix)
    ensures Codeword(c, f, data) <==>
      && (forall k :: |om| <= k < c.nroots ==> Discrepancy(f, lam, Syndromes(c, f, received), k) == 0)
      && PadUntouched(c, fix)
  {
    hide f.Size, Xor, Valid, PowerSum, Discrepancy, Balanced, RootPositions, EvaluatorOf, Scaled, CodeLocators,
      Syndrome, ErrorVector, Applied, PadUntouched, OnlyAt;
    var sp := Syndromes(c, f, received);
    var t := PowerSums(f, Scaled(c, f, fix), CodeLocators(c, f), c.nroots);
    SyndromesBound(c, f, received);
    SyndromesMatch(c, f, sp, lam, om, fix);
    if Codeword(c, f, data) {
      AppliedOnlyAt(c, f, received, lam, om, fix, data);
      OnlyCodeword(c, f, received, lam, om, fix, data, data);
      CorrectionsAreErrors(c, f, received, lam, om, fix, data);
      forall i | 0 <= i < c.nroots ensures sp[i] == t[i] {
        SyndromeOfErrors(c, f, data, received, i);
      }
    } else if sp == t && PadUntouched(c, fix) {
      forall i | 0 <= i < c.nroots ensures Syndrome(c, f, data, i) == 0 {
        CorrectedSyndrome(c, f, received, fix, data, i);
        XorSelf(sp[i]);
      }
      assert false;
    }
  }
}
