// Blocks that lib/libfec/decode_rs.h accepts although the result is not a
// codeword: what they have in common and one of them.
module RsMiscorrection {
  import opened Bits
  import opened GaloisField
  import opened Polynomials
  import opened KeyEquation
  import opened Periods
  import opened Primitivity
  import opened RsCodec
  import opened RsInit
  import opened RsCode
  import opened RsAcceptance
  import opened RsDecoder
  import opened Wrappers

  // ---------- The length of the locator decides ----------

  lemma {:induction false} ConvolutionOfZeros(f: Field, lam: seq<nat>, s: seq<nat>, k: nat, n: nat)
    requires n <= |lam| && n <= k + 1 && k < |s| && forall i :: 0 <= i <= k ==> s[i] == 0
    ensures Convolution(f, lam, s, k, n) == 0
  {
    hide Mul;
    if n > 0 {
      ConvolutionOfZeros(f, lam, s, k, n - 1);
      MulZero(f, lam[n - 1]);
      XorZero(0);
    }
  }

  // The power sums of the weights left by lam are its discrepancies.
  lemma ResidualPowerSums(f: Field, s: seq<nat>, y: seq<nat>, xs: seq<nat>, lam: seq<nat>, deg: nat, n: nat)
    returns (t: seq<nat>)
    requires SyndromesOf(f, s, y, xs) && |lam| == |s| + 1 && deg + n <= |s|
    requires forall j :: deg < j < |lam| ==> lam[j] == 0
    ensures |t| == n && SyndromesOf(f, t, Weights(f, y, xs, lam, deg + 1), xs)
    ensures forall i :: 0 <= i < n ==> t[i] == Discrepancy(f, lam, s, i + deg)
  {
    hide PowerSum, Discrepancy;
    t := PowerSums(f, Weights(f, y, xs, lam, deg + 1), xs, n);
    forall i | 0 <= i < n ensures t[i] == Discrepancy(f, lam, s, i + deg) {
      DiscrepancyAsPowerSum(f, s, y, xs, lam, deg, i + deg);
    }
  }

  // (x + xs[ps[0]]) * (x + xs[ps[1]]) * ...
  ghost function Factors(f: Field, xs: seq<nat>, ps: seq<nat>, x: nat): nat
    requires forall i :: 0 <= i < |ps| ==> ps[i] < |xs|
  {
    if ps == [] then 1 else Mul(f, Xor(x, xs[ps[0]]), Factors(f, xs, ps[1..], x))
  }

  // At every locator, g is q times the factors.
  ghost predicate MultipleOf(f: Field, g: seq<nat>, n: nat, xs: seq<nat>, ps: seq<nat>, q: seq<nat>)
    requires n <= |g| && forall i :: 0 <= i < |ps| ==> ps[i] < |xs|
  {
    forall p :: 0 <= p < |xs| ==> Eval(f, g, xs[p], n) == Mul(f, Factors(f, xs, ps, xs[p]), Eval(f, q, xs[p], |q|))
  }

  // A polynomial that vanishes at different positions is a multiple of their
  // factors.
  lemma {:induction false} DivideOut(f: Field, g: seq<nat>, n: nat, xs: seq<nat>, ps: seq<nat>) returns (q: seq<nat>)
    requires Locators(f, xs) && Symbols(f, g) && |ps| < n <= |g| && DistinctPositions(ps, |ps|)
    requires forall i :: 0 <= i < |ps| ==> ps[i] < |xs| && Eval(f, g, xs[ps[i]], n) == 0
    ensures |q| == n - |ps| && Symbols(f, q) && q[0] == g[0]
    ensures MultipleOf(f, g, n, xs, ps, q)
    decreases |ps|
  {
    hide Mul, Xor, Eval, f.Size;
    if ps == [] {
      q := g[..n];
      forall p | 0 <= p < |xs| ensures Eval(f, g, xs[p], n) == Mul(f, 1, Eval(f, q, xs[p], n)) {
        EvalSame(f, g, q, xs[p], n);
        EvalBound(f, g, xs[p], n);
        MulOne(f, Eval(f, g, xs[p], n));
      }
    } else {
      var a := xs[ps[0]];
      var h := Quotient(f, g, a);
      QuotientSymbols(f, g, a);
      EvalOne(f, g, a);
      forall i | 0 <= i < |ps[1..]| ensures ps[1..][i] < |xs| && Eval(f, h, xs[ps[1..][i]], n - 1) == 0 {
        assert ps[1..][i] == ps[i + 1] && ps[0] != ps[i + 1];
        DifferentLocators(f, xs, ps[0], ps[i + 1]);
        QuotientRoot(f, g, a, xs[ps[i + 1]], n);
      }
      q := DivideOut(f, h, n - 1, xs, ps[1..]);
      forall p | 0 <= p < |xs|
        ensures Eval(f, g, xs[p], n) == Mul(f, Factors(f, xs, ps, xs[p]), Eval(f, q, xs[p], |q|))
      {
        var x := xs[p];
        Factor(f, g, a, x, n);
        XorZero(Eval(f, g, x, n));
        MulAssoc(f, Xor(x, a), Factors(f, xs, ps[1..], x), Eval(f, q, x, |q|));
      }
    }
  }

  lemma DifferentLocators(f: Field, xs: seq<nat>, p: nat, q: nat)
    requires Locators(f, xs) && p < |xs| && q < |xs| && p != q
    ensures xs[p] != xs[q] && xs[p] < f.Size() && xs[q] < f.Size()
  {
    hide f.Size;
    if p < q { assert xs[p] != xs[q]; } else { assert xs[q] != xs[p]; }
  }

  lemma SwapProducts(f: Field, y: nat, h: nat, a: nat, b: nat)
    ensures Mul(f, Mul(f, y, Mul(f, h, a)), b) == Mul(f, Mul(f, y, Mul(f, h, b)), a)
  {
    hide Mul;
    MulAssoc(f, y, Mul(f, h, a), b);
    MulAssoc(f, y, Mul(f, h, b), a);
    MulAssoc(f, h, a, b);
    MulAssoc(f, h, b, a);
    MulComm(f, a, b);
  }

  // Two multiples of the same factors: one times the other's quotient.
  lemma WeightsSwap(f: Field, y: seq<nat>, xs: seq<nat>, ps: seq<nat>, a: seq<nat>, m: nat, b: seq<nat>, n: nat,
                    s: seq<nat>, t: seq<nat>)
    requires |y| == |xs| && m <= |a| && n <= |b| && forall i :: 0 <= i < |ps| ==> ps[i] < |xs|
    requires MultipleOf(f, a, m, xs, ps, s) && MultipleOf(f, b, n, xs, ps, t)
    ensures Weights(f, Weights(f, y, xs, a, m), xs, t, |t|) == Weights(f, Weights(f, y, xs, b, n), xs, s, |s|)
  {
    hide Mul, Eval, Factors, MultipleOf, Weights;
    var u, v := Weights(f, Weights(f, y, xs, a, m), xs, t, |t|), Weights(f, Weights(f, y, xs, b, n), xs, s, |s|);
    forall p | 0 <= p < |xs| ensures u[p] == v[p] {
      WeightsAt(f, y, xs, ps, a, m, s, t, p);
      WeightsAt(f, y, xs, ps, b, n, t, s, p);
      SwapProducts(f, y[p], Factors(f, xs, ps, xs[p]), Eval(f, s, xs[p], |s|), Eval(f, t, xs[p], |t|));
    }
    assert u == v;
  }

  lemma WeightsAt(f: Field, y: seq<nat>, xs: seq<nat>, ps: seq<nat>, a: seq<nat>, m: nat, s: seq<nat>, t: seq<nat>,
                  p: nat)
    requires |y| == |xs| && m <= |a| && p < |xs| && forall i :: 0 <= i < |ps| ==> ps[i] < |xs|
    requires MultipleOf(f, a, m, xs, ps, s)
    ensures var h := Factors(f, xs, ps, xs[p]);
      Weights(f, Weights(f, y, xs, a, m), xs, t, |t|)[p]
        == Mul(f, Mul(f, y[p], Mul(f, h, Eval(f, s, xs[p], |s|))), Eval(f, t, xs[p], |t|))
  {
    hide Mul, Eval, Factors;
  }

  lemma ErasureRoots(f: Field, lam: seq<nat>, xs: seq<nat>, eras: seq<nat>, deg: nat)
    requires Locators(f, xs) && Symbols(f, lam) && deg < |lam| && forall j :: deg < j < |lam| ==> lam[j] == 0
    requires forall i :: 0 <= i < |eras| ==> eras[i] < |xs|
    requires Vanishes(f, lam, xs, PositionSet(eras, |eras|))
    ensures forall i :: 0 <= i < |eras| ==> Eval(f, lam, xs[eras[i]], deg + 1) == 0
  {
    hide Eval, PositionSet, f.Size;
    forall i | 0 <= i < |eras| ensures Eval(f, lam, xs[eras[i]], deg + 1) == 0 {
      PositionIn(eras, |eras|, i);
      EvalPaddedRoot(f, lam, xs[eras[i]], deg + 1, |lam|);
    }
  }

  // No locator shorter than the length the loop has reached satisfies its
  // recurrence throughout: it would cancel the discrepancy the correction
  // polynomial records.
  lemma NoShorterLocator(c: Codec, f: Field, s: seq<nat>, y: seq<nat>, eras: seq<nat>, lam: seq<nat>, b: seq<nat>,
                         el: nat, deg: nat)
    requires SyndromesOf(f, s, y, CodeLocators(c, f)) && EndsWith(c, f, s, eras, lam, b, el)
    requires DistinctPositions(eras, |eras|) && forall i :: 0 <= i < |eras| ==> eras[i] < c.nn
    requires |eras| <= deg <= el && forall j :: deg < j < |lam| ==> lam[j] == 0
    requires forall k :: deg <= k < |s| ==> Discrepancy(f, lam, s, k) == 0
    ensures deg == el
  {
    hide PowerSum, Discrepancy, Convolution, Weights, f.Size, MultipleOf, Eval, CodeLocators, DistinctPositions,
      Vanishes, PositionSet;
    if deg < el {
      var n, e, xs := |s|, |eras|, CodeLocators(c, f);
      var db := n + e - el;
      ErasureRoots(f, lam, xs, eras, deg);
      ErasureRoots(f, b, xs, eras, db);
      var sigma := DivideOut(f, lam, deg + 1, xs, eras);
      var beta := DivideOut(f, b, db + 1, xs, eras);
      hide Locators;
      var t := ResidualPowerSums(f, s, y, xs, lam, deg, n - deg);
      ConvolutionAsPowerSum(f, t, Weights(f, y, xs, lam, deg + 1), xs, beta, n - 1 - deg, |beta|);
      ConvolutionOfZeros(f, beta, t, n - 1 - deg, |beta|);
      var u := ResidualPowerSums(f, s, y, xs, b, db, el - e);
      ConvolutionAsPowerSum(f, u, Weights(f, y, xs, b, db + 1), xs, sigma, el - e - 1, |sigma|);
      assert u[el - e - 1] == 1;
      AlphaBound(f, 0);
      FirstTermOnly(f, sigma, u, el - e - 1, |sigma|);
      WeightsSwap(f, y, xs, eras, lam, deg + 1, b, db + 1, sigma, beta);
      assert false;
    }
  }

  lemma SyndromesAsPowerSums(c: Codec, f: Field, received: seq<nat>)
    requires Valid(c, f) && Block(c, f, received)
    ensures SyndromesOf(f, Syndromes(c, f, received), Scaled(c, f, Full(c, received)), CodeLocators(c, f))
  {
    hide f.Size, PowerSum, Eval, Root, Syndrome, Valid;
    var r := Full(c, received);
    AlphaBound(f, 0);
    LocatorsDistinct(c, f);
    forall i | 0 <= i < c.nroots
      ensures Syndrome(c, f, received, i) == PowerSum(f, Scaled(c, f, r), CodeLocators(c, f), i, c.nn)
    {
      SyndromeOfFull(c, f, received, i);
      FullAsPowerSum(c, f, r, i);
    }
  }

  lemma {:induction false} AboveDegree(p: seq<nat>, n: nat)
    requires n <= |p|
    ensures forall j :: Degree(p, n) < j < n ==> p[j] == 0
  {
    if n > 1 && p[n - 1] == 0 { AboveDegree(p, n - 1); }
  }

  // An accepted block is a codeword exactly when the loop's final length is
  // the degree of the locator and no correction fell into the pad.
  lemma LengthDecides(c: Codec, f: Field, received: seq<nat>, eras: seq<nat>, data: seq<nat>, count: nat,
                      found: set<nat>, lam: seq<nat>, fix: seq<nat>, b: seq<nat>, el: nat)
    requires Valid(c, f) && Block(c, f, received) && |received| == |data|
    requires DistinctPositions(eras, |eras|) && forall i :: 0 <= i < |eras| ==> eras[i] < c.nn
    requires Verdict(c, f, received, eras, data, count, found, lam, fix)
    requires EndsWith(c, f, Syndromes(c, f, received), eras, lam, b, el)
    ensures Codeword(c, f, data) <==> el == count && PadUntouched(c, fix)
  {
    hide f.Size, Discrepancy, SyndromesOf, Codeword, PadUntouched, RootPositions, Applied, OnlyAt, Valid, Block,
      LocatorOf, Scaled, CodeLocators, Full, Degree, Vanishes, PositionSet, DistinctPositions;
    var s := Syndromes(c, f, received);
    SyndromesAsPowerSums(c, f, received);
    AboveDegree(lam, |lam|);
    DegreeAtMost(lam, el, |lam|);
    PositionSetSize(eras, |eras|);
    SubsetSize(PositionSet(eras, |eras|), RootPositions(c, f, lam, count));
    if forall k :: count <= k < c.nroots ==> Discrepancy(f, lam, s, k) == 0 {
      NoShorterLocator(c, f, s, Scaled(c, f, Full(c, received)), eras, lam, b, el, count);
    }
  }

  lemma {:induction false} DegreeAtMost(p: seq<nat>, el: nat, n: nat)
    requires n <= |p| && forall j :: el < j < n ==> p[j] == 0
    ensures Degree(p, n) <= el
  {
    if n > 1 { DegreeAtMost(p, el, n - 1); }
  }

  // ---------- Only the first syndrome is nonzero ----------

  lemma {:induction false} LastTermOnly(f: Field, lam: seq<nat>, s: seq<nat>, k: nat, n: nat)
    requires 0 < k < |s| && n <= k < |lam| && forall i :: 0 < i < |s| ==> s[i] == 0
    ensures Convolution(f, lam, s, k, n) == 0
    ensures Convolution(f, lam, s, k, k + 1) == Xor(Convolution(f, lam, s, k, k), Mul(f, lam[k], s[0]))
  {
    hide Mul;
    if n > 0 {
      LastTermOnly(f, lam, s, k, n - 1);
      MulZero(f, lam[n - 1]);
      XorZero(0);
    }
  }

  lemma DiscrepancyOfLast(f: Field, lam: seq<nat>, s: seq<nat>, k: nat)
    requires 0 < k < |s| && k < |lam| && forall i :: 0 < i < |s| ==> s[i] == 0
    ensures Discrepancy(f, lam, s, k) == Mul(f, lam[k], s[0])
  {
    hide Mul, Xor, Convolution;
    LastTermOnly(f, lam, s, k, k);
    XorZero(Mul(f, lam[k], s[0]));
  }

  // If every syndrome but the first vanishes, the loop ends with the locator 1
  // although an error is there.
  lemma ConstantLocator(f: Field, s: seq<nat>, lam: seq<nat>, b: seq<nat>, el: nat)
    requires |s| >= 2 && 0 < s[0] < f.Size() && forall i :: 0 < i < |s| ==> s[i] == 0
    requires Tracks(f, s, lam, b, |s|, el, 0)
    ensures el == 1 && forall j :: 0 < j < |lam| ==> lam[j] == 0
  {
    hide Mul, Convolution, f.Size;
    var r := |s|;
    FirstTermOnly(f, lam, s, 0, 1);
    assert Discrepancy(f, lam, s, 0) == s[0];
    assert el >= 1;
    DiscrepancyOfLast(f, b, s, r - 1);
    MulZero(f, s[0]);
    assert b[r - 1] != 0;
    DiscrepancyOfLast(f, lam, s, 1);
    assert Discrepancy(f, lam, s, 1) == 0;
    if lam[1] != 0 { MulNonzero(f, lam[1], s[0]); }
  }

  lemma {:induction false} ConstantDegree(p: seq<nat>, n: nat)
    requires n <= |p| && forall j :: 0 < j < n ==> p[j] == 0
    ensures Degree(p, n) == 0
  {
    if n > 1 { ConstantDegree(p, n - 1); }
  }

  // Every block with two or more roots whose syndromes are all zero but the
  // first is accepted as it is, with count 0, and it is not a codeword.
  lemma FirstSyndromeOnly(c: Codec, f: Field, received: seq<nat>, data: seq<nat>, count: int, found: set<nat>,
                          lam: seq<nat>, fix: seq<nat>)
    requires Valid(c, f) && Block(c, f, received) && |received| == |data| && c.nroots >= 2
    requires Syndrome(c, f, received, 0) != 0 && forall i :: 0 < i < c.nroots ==> Syndrome(c, f, received, i) == 0
    requires Verdict(c, f, received, [], data, count, found, lam, fix)
    ensures count == 0 && data == received && !Codeword(c, f, data)
  {
    hide f.Size, Syndrome, Discrepancy, Applied, OnlyAt, Valid, Locator, Eval;
    var s := Syndromes(c, f, received);
    SyndromesBound(c, f, received);
    assert 0 < s[0] < f.Size();
    var b, el :| EndsWith(c, f, s, [], lam, b, el);
    ConstantLocator(f, s, lam, b, el);
    ConstantDegree(lam, |lam|);
    RootsAtMostDegree(c, f, lam, 0);
    NothingCorrected(c, data, received, fix);
  }

  lemma NothingCorrected(c: Codec, data: seq<nat>, received: seq<nat>, fix: seq<nat>)
    requires |data| == |received| && |fix| == c.pad + |received| && Applied(c, data, received, fix)
    requires forall p :: 0 <= p < |fix| ==> fix[p] == 0
    ensures data == received
  {
    hide Xor;
    forall d | 0 <= d < |data| ensures data[d] == received[d] {
      XorZero(received[d]);
    }
  }

  // ---------- One such block ----------

  const GFPOLY := 0xB

  lemma Cycle()
    ensures var r := Register(3, GFPOLY);
      && r.Nn() == 7 && r.Alpha(0) == 1 && r.Alpha(1) == 2 && r.Alpha(2) == 4 && r.Alpha(3) == 3
      && r.Alpha(4) == 6 && r.Alpha(5) == 7 && r.Alpha(6) == 5 && r.Alpha(7) == 1
  {
    var r := Register(3, GFPOLY);
    assert Pow2(3) == 8;
    assert r.Step(1) == 2;
    assert r.Step(2) == 4;
    assert r.Step(4) == 3;
    assert r.Step(3) == 6;
    assert r.Step(6) == 7;
    assert r.Step(7) == 5;
    assert r.Step(5) == 1;
  }

  lemma SmallCode()
    ensures Register(3, GFPOLY).Primitive() && Constructible(8, 3, GFPOLY, 1, 1, 2, 0) && InRange(8, 3, 1, 1, 2, 0)
  {
    var r := Register(3, GFPOLY);
    hide r.Alpha, r.Step, Coprime;
    Cycle();
    PrimitiveTest(r);
    OneIsCoprime(r.Nn());
    assert Pow2(3) == 8;
  }

  lemma OneIsCoprime(n: nat)
    ensures Coprime(1, n)
  {
  }

  lemma LastTwo(f: Field, d: seq<nat>, x: nat)
    requires |d| == 7 && x < f.Size() && d[5] == 1 && forall i :: 0 <= i < 5 ==> d[i] == 0
    ensures Eval(f, d, x, 7) == Xor(d[6], x)
  {
    hide Mul, Xor, f.Size;
    EvalOfZeros(f, d, x, 5);
    MulZero(f, x);
    XorZero(1);
    assert Eval(f, d, x, 6) == 1;
    MulOne(f, x);
  }

  lemma ZeroCodeword(c: Codec, f: Field, d: seq<nat>)
    requires |d| + c.pad == c.nn && forall i :: 0 <= i < |d| ==> d[i] == 0
    ensures Codeword(c, f, d)
  {
    hide f.Alpha, f.Size;
    AlphaBound(f, 0);
    forall i | 0 <= i < c.nroots ensures Syndrome(c, f, d, i) == 0 {
      EvalOfZeros(f, d, Root(f, c.fcr, c.prim, i), |d|);
    }
  }

  lemma SyndromesHere(c: Codec, f: Field)
    requires f == Register(3, GFPOLY) && Valid(c, f) && c.nroots == 2 && c.fcr == 1 && c.prim == 1 && c.pad == 0
    ensures var d := [0, 0, 0, 0, 0, 1, 4];
      Block(c, f, d) && Syndrome(c, f, d, 0) == 6 && Syndrome(c, f, d, 1) == 0
  {
    hide f.Alpha, Eval;
    Cycle();
    assert c.nn == 7 by { TablesLength(c, f); }
    assert f.Size() == 8;
    LastTwo(f, [0, 0, 0, 0, 0, 1, 4], 2);
    LastTwo(f, [0, 0, 0, 0, 0, 1, 4], 4);
    assert Xor(4, 2) == 6;
    XorSelf(4);
  }

  // Three-bit symbols, two roots, nothing shortened: this block comes back
  // unchanged with count 0, and it is not a codeword.
  method AcceptedWithError() returns (rs: Option<Codec>, block: seq<nat>, count: int)
    ensures rs.Some? && block == [0, 0, 0, 0, 0, 1, 4] && count == 0
    ensures Register(3, GFPOLY).Primitive() && !Codeword(rs.value, Register(3, GFPOLY), block)
  {
    SmallCode();
    hide Register.Primitive, Register.Alpha, Valid, Codeword, Outcome, Verdict, Syndrome, Block, Constructible, InRange;
    ghost var f: Field := Register(3, GFPOLY);
    rs := InitRs(8, 3, GFPOLY, 1, 1, 2, 0);
    var c := rs.value;
    ghost var d := [0, 0, 0, 0, 0, 1, 4];
    SyndromesHere(c, f);
    var data := new nat[7][0, 0, 0, 0, 0, 1, 4];
    assert data[..] == d;
    ghost var sent := Zeros(7);
    assert Codeword(c, f, sent) by {
      assert |d| + c.pad == c.nn by { BlockLength(c, f, d); }
      ZeroCodeword(c, f, sent);
    }
    assert !Codeword(c, f, d) by { NotACodeword(c, f, d, 0); }
    ghost var found, lam, fix;
    count, found, lam, fix := DecodeRs(c, f, data, null, 0, sent);
    block := data[..];
    FirstSyndromeOnly(c, f, d, block, count, PositionSet(found, |found|), lam, fix);
  }

  lemma BlockLength(c: Codec, f: Field, d: seq<nat>)
    requires Block(c, f, d)
    ensures |d| + c.pad == c.nn
  {
  }

  lemma NotACodeword(c: Codec, f: Field, d: seq<nat>, i: nat)
    requires i < c.nroots && Syndrome(c, f, d, i) != 0
    ensures !Codeword(c, f, d)
  {
  }
}
