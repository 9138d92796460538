// The relation between syndromes and the error locator polynomial that the
// Berlekamp-Massey loop of lib/libfec/decode_rs.h maintains, and why its
// fixed point is the true locator when at most nroots/2 symbols are wrong.
module KeyEquation {
  import opened Bits
  import opened GaloisField
  import opened Polynomials

  // lam[0]*s[k] + lam[1]*s[k-1] + ... : the first n terms.
  ghost function Convolution(f: Field, lam: seq<nat>, s: seq<nat>, k: nat, n: nat): nat
    requires n <= |lam| && n <= k + 1 && k < |s|
  {
    if n == 0 then 0
    else Xor(Convolution(f, lam, s, k, n - 1), Mul(f, lam[n - 1], s[k + 1 - n]))
  }

  // The discrepancy of lam at syndrome k.
  ghost function Discrepancy(f: Field, lam: seq<nat>, s: seq<nat>, k: nat): nat
    requires k < |s| && k < |lam|
  {
    Convolution(f, lam, s, k, k + 1)
  }

  ghost function Shifted(b: seq<nat>): (r: seq<nat>)
    requires |b| > 0
    ensures |r| == |b|
  {
    [0] + b[..|b| - 1]
  }

  // ---------- Convolutions ----------

  lemma {:induction false} ConvolutionBound(f: Field, lam: seq<nat>, s: seq<nat>, k: nat, n: nat)
    requires n <= |lam| && n <= k + 1 && k < |s|
    ensures Convolution(f, lam, s, k, n) < f.Size()
  {
    hide Mul, Xor;
    if n > 0 {
      ConvolutionBound(f, lam, s, k, n - 1);
      XorBound(Convolution(f, lam, s, k, n - 1), Mul(f, lam[n - 1], s[k + 1 - n]), f.m);
    }
  }

  lemma {:induction false} ConvolutionTrim(f: Field, lam: seq<nat>, s: seq<nat>, k: nat, d: nat, n: nat)
    requires d <= n <= |lam| && n <= k + 1 && k < |s|
    requires forall j :: d <= j < n ==> lam[j] == 0
    ensures Convolution(f, lam, s, k, n) == Convolution(f, lam, s, k, d)
  {
    hide Mul, Xor;
    if n > d {
      ConvolutionTrim(f, lam, s, k, d, n - 1);
      MulZero(f, s[k + 1 - n]);
      XorZero(Convolution(f, lam, s, k, d));
    }
  }

  lemma {:induction false} ConvolutionLinear(f: Field, t: seq<nat>, lam: seq<nat>, d: nat, b: seq<nat>, s: seq<nat>,
                                             k: nat, n: nat)
    requires n <= |t| && n <= |lam| && n <= |b| && n <= k + 1 && k < |s|
    requires forall j :: 0 <= j < n ==> t[j] == Xor(lam[j], Mul(f, d, b[j]))
    ensures Convolution(f, t, s, k, n) == Xor(Convolution(f, lam, s, k, n), Mul(f, d, Convolution(f, b, s, k, n)))
  {
    hide Mul, Xor;
    if n == 0 {
      MulZero(f, d);
      XorZero(0);
    } else {
      ConvolutionLinear(f, t, lam, d, b, s, k, n - 1);
      var q, y := n - 1, s[k + 1 - n];
      MulDistribRight(f, lam[q], Mul(f, d, b[q]), y);
      MulAssoc(f, d, b[q], y);
      MulDistrib(f, d, Convolution(f, b, s, k, q), Mul(f, b[q], y));
      XorSwap(Convolution(f, lam, s, k, q), Mul(f, d, Convolution(f, b, s, k, q)), Mul(f, lam[q], y), Mul(f, d,
        Mul(f, b[q], y)));
    }
  }

  lemma {:induction false} ConvolutionScaled(f: Field, lam: seq<nat>, d: nat, b: seq<nat>, s: seq<nat>, k: nat, n: nat)
    requires n <= |lam| && n <= |b| && n <= k + 1 && k < |s|
    requires forall j :: 0 <= j < n ==> lam[j] == Mul(f, d, b[j])
    ensures Convolution(f, lam, s, k, n) == Mul(f, d, Convolution(f, b, s, k, n))
  {
    hide Mul, Xor;
    if n == 0 {
      MulZero(f, d);
    } else {
      ConvolutionScaled(f, lam, d, b, s, k, n - 1);
      var q, y := n - 1, s[k + 1 - n];
      MulAssoc(f, d, b[q], y);
      MulDistrib(f, d, Convolution(f, b, s, k, q), Mul(f, b[q], y));
    }
  }

  lemma {:induction false} ConvolutionShifted(f: Field, b: seq<nat>, s: seq<nat>, k: nat, n: nat)
    requires 0 < n <= |b| && n <= k + 1 && 0 < k < |s|
    ensures Convolution(f, Shifted(b), s, k, n) == Convolution(f, b, s, k - 1, n - 1)
  {
    hide Mul, Xor;
    if n == 1 {
      assert Convolution(f, Shifted(b), s, k, 0) == 0;
      MulZero(f, s[k]);
      XorZero(0);
    } else {
      ConvolutionShifted(f, b, s, k, n - 1);
    }
  }

  // ---------- The Berlekamp-Massey invariant ----------

  // After r syndromes: lam has constant term 1 and degree at most el, and its
  // discrepancy vanishes from el up to r; once the length has changed, b is a
  // correction polynomial whose discrepancy at r - 1 is 1. `e` is the number
  // of erasures the loop was started with.
  ghost predicate Tracks(f: Field, s: seq<nat>, lam: seq<nat>, b: seq<nat>, r: nat, el: nat, e: nat) {
    && |lam| == |b| == |s| + 1
    && Symbols(f, lam) && Symbols(f, b)
    && lam[0] == 1
    && e <= el <= r <= |s|
    && (forall j :: el < j < |lam| ==> lam[j] == 0)
    && (forall j :: r + e - el < j < |b| ==> b[j] == 0)
    && (forall k :: el <= k < r ==> Discrepancy(f, lam, s, k) == 0)
    && (el > e ==>
          && Discrepancy(f, b, s, r - 1) == 1
          && forall k :: r + e - el <= k < r - 1 ==> Discrepancy(f, b, s, k) == 0)
  }

  // T(x) = lambda(x) + d*x*b(x)
  ghost predicate Corrected(f: Field, t: seq<nat>, lam: seq<nat>, d: nat, b: seq<nat>)
    requires |lam| == |b| > 0
  {
    && |t| == |lam|
    && forall j :: 0 <= j < |t| ==> t[j] == Xor(lam[j], Mul(f, d, Shifted(b)[j]))
  }

  lemma CorrectedSymbols(f: Field, t: seq<nat>, lam: seq<nat>, d: nat, b: seq<nat>)
    requires |lam| == |b| > 0 && Symbols(f, lam) && Corrected(f, t, lam, d, b)
    ensures Symbols(f, t) && t[0] == lam[0]
  {
    hide Mul, Xor;
    forall j | 0 <= j < |t| ensures t[j] < f.Size() {
      XorBound(lam[j], Mul(f, d, Shifted(b)[j]), f.m);
    }
    MulZero(f, d);
    XorZero(lam[0]);
  }

  lemma CorrectedDegree(f: Field, t: seq<nat>, lam: seq<nat>, d: nat, b: seq<nat>, dl: nat, db: nat)
    requires |lam| == |b| > 0 && Corrected(f, t, lam, d, b)
    requires forall j :: dl < j < |lam| ==> lam[j] == 0
    requires forall j :: db < j < |b| ==> b[j] == 0
    ensures forall j :: dl < j < |t| && db + 1 < j ==> t[j] == 0
  {
    hide Mul, Xor;
    forall j | dl < j < |t| && db + 1 < j ensures t[j] == 0 {
      assert Shifted(b)[j] == b[j - 1];
      MulZero(f, d);
      XorZero(0);
    }
  }

  lemma CorrectedDiscrepancy(f: Field, s: seq<nat>, t: seq<nat>, lam: seq<nat>, d: nat, b: seq<nat>, k: nat)
    requires |lam| == |b| == |s| + 1 && Corrected(f, t, lam, d, b)
    requires 0 < k < |s|
    ensures Discrepancy(f, t, s, k) == Xor(Discrepancy(f, lam, s, k), Mul(f, d, Discrepancy(f, b, s, k - 1)))
  {
    hide Mul, Xor, Convolution;
    ConvolutionLinear(f, t, lam, d, Shifted(b), s, k, k + 1);
    ConvolutionShifted(f, b, s, k, k + 1);
  }

  // x*b(x) keeps the correction polynomial's discrepancies, one place later.
  lemma ShiftedTracks(f: Field, s: seq<nat>, lam: seq<nat>, b: seq<nat>, r: nat, el: nat, e: nat)
    requires Tracks(f, s, lam, b, r, el, e) && r < |s|
    ensures var b' := Shifted(b);
      && Symbols(f, b')
      && (forall j :: r + 1 + e - el < j < |b'| ==> b'[j] == 0)
      && (el > e ==>
            && Discrepancy(f, b', s, r) == 1
            && forall k :: r + 1 + e - el <= k < r ==> Discrepancy(f, b', s, k) == 0)
  {
    hide Mul, Xor, Convolution;
    var b' := Shifted(b);
    forall i | 0 <= i < |b'| ensures b'[i] < f.Size() {
    }
    forall j | r + 1 + e - el < j < |b'| ensures b'[j] == 0 {
      assert b'[j] == b[j - 1];
    }
    if el > e {
      ConvolutionShifted(f, b, s, r, r + 1);
      forall k | r + 1 + e - el <= k < r ensures Discrepancy(f, b', s, k) == 0 {
        ConvolutionShifted(f, b, s, k, k + 1);
        assert Discrepancy(f, b, s, k - 1) == 0;
      }
    }
  }

  // A zero discrepancy: only b moves.
  lemma TracksUnchanged(f: Field, s: seq<nat>, lam: seq<nat>, b: seq<nat>, r: nat, el: nat, e: nat)
    requires Tracks(f, s, lam, b, r, el, e) && r < |s|
    requires Discrepancy(f, lam, s, r) == 0
    ensures Tracks(f, s, lam, Shifted(b), r + 1, el, e)
  {
    hide Discrepancy;
    ShiftedTracks(f, s, lam, b, r, el, e);
  }

  // The correction cancels the discrepancy exactly and disturbs no earlier one.
  lemma CorrectedTracks(f: Field, s: seq<nat>, t: seq<nat>, lam: seq<nat>, d: nat, b: seq<nat>, r: nat, el: nat,
                        e: nat, k: nat)
    requires Tracks(f, s, lam, b, r, el, e) && r < |s|
    requires d == Discrepancy(f, lam, s, r) && d < f.Size()
    requires Corrected(f, t, lam, d, b)
    requires el > e && el <= k <= r && r + 1 + e - el <= k
    ensures Discrepancy(f, t, s, k) == 0
  {
    hide Mul, Xor, Discrepancy;
    CorrectedDiscrepancy(f, s, t, lam, d, b, k);
    if k == r {
      MulOne(f, d);
      XorSelf(d);
    } else {
      assert Discrepancy(f, lam, s, k) == 0;
      assert Discrepancy(f, b, s, k - 1) == 0;
      MulZero(f, d);
      XorZero(0);
    }
  }

  // A nonzero discrepancy the current length can absorb.
  lemma TracksSameLength(f: Field, s: seq<nat>, t: seq<nat>, lam: seq<nat>, d: nat, b: seq<nat>, r: nat, el: nat,
                         e: nat)
    requires Tracks(f, s, lam, b, r, el, e) && r < |s|
    requires d == Discrepancy(f, lam, s, r) && d < f.Size()
    requires Corrected(f, t, lam, d, b)
    requires 2 * el > r + e
    ensures Tracks(f, s, t, Shifted(b), r + 1, el, e)
  {
    hide Mul, Xor, Discrepancy;
    ShiftedTracks(f, s, lam, b, r, el, e);
    CorrectedSymbols(f, t, lam, d, b);
    CorrectedDegree(f, t, lam, d, b, el, r + e - el);
    forall k | el <= k < r + 1 ensures Discrepancy(f, t, s, k) == 0 {
      CorrectedTracks(f, s, t, lam, d, b, r, el, e, k);
    }
  }

  // A nonzero discrepancy that forces a longer locator.
  lemma TracksLonger(f: Field, s: seq<nat>, t: seq<nat>, b': seq<nat>, lam: seq<nat>, d: nat, b: seq<nat>, r: nat,
                     el: nat, e: nat)
    requires Tracks(f, s, lam, b, r, el, e) && r < |s|
    requires d == Discrepancy(f, lam, s, r) && 0 < d < f.Size()
    requires Corrected(f, t, lam, d, b)
    requires |b'| == |lam| && Symbols(f, b') && forall j :: 0 <= j < |lam| ==> lam[j] == Mul(f, d, b'[j])
    requires 2 * el <= r + e
    ensures Tracks(f, s, t, b', r + 1, r + 1 + e - el, e)
  {
    hide Mul, Xor, Convolution, f.Size;
    var el' := r + 1 + e - el;
    CorrectedSymbols(f, t, lam, d, b);
    CorrectedDegree(f, t, lam, d, b, el, r + e - el);
    forall k | el' <= k < r + 1 ensures Discrepancy(f, t, s, k) == 0 {
      CorrectedTracks(f, s, t, lam, d, b, r, el, e, k);
    }
    forall j | el < j < |b'| ensures b'[j] == 0 {
      if b'[j] != 0 { MulNonzero(f, d, b'[j]); }
    }
    forall k | el <= k < r ensures Discrepancy(f, b', s, k) == 0 {
      assert Discrepancy(f, lam, s, k) == 0;
      ConvolutionScaled(f, lam, d, b', s, k, k + 1);
      ConvolutionBound(f, b', s, k, k + 1);
      if Discrepancy(f, b', s, k) != 0 {
        MulNonzero(f, d, Discrepancy(f, b', s, k));
      }
    }
    ConvolutionScaled(f, lam, d, b', s, r, r + 1);
    ConvolutionBound(f, b', s, r, r + 1);
    MulOne(f, d);
    AlphaBound(f, 0);
    MulCancel(f, d, Discrepancy(f, b', s, r), 1);
  }

  // ---------- What the invariant says about the errors ----------

  // s is the syndrome sequence of weights y at locators xs.
  ghost predicate SyndromesOf(f: Field, s: seq<nat>, y: seq<nat>, xs: seq<nat>) {
    && |y| == |xs| && Symbols(f, y) && Locators(f, xs)
    && forall i :: 0 <= i < |s| ==> s[i] == PowerSum(f, y, xs, i, |xs|)
  }

  // lam(x)*x^(n-1) evaluated at each locator, times the weight there.
  ghost function Weights(f: Field, y: seq<nat>, xs: seq<nat>, lam: seq<nat>, n: nat): (w: seq<nat>)
    requires |y| == |xs| && n <= |lam|
    ensures |w| == |xs| && Symbols(f, w)
  {
    seq(|xs|, p requires 0 <= p < |xs| => Mul(f, y[p], Eval(f, lam, xs[p], n)))
  }

  ghost predicate AllZero(c: seq<nat>) {
    forall p :: 0 <= p < |c| ==> c[p] == 0
  }

  ghost predicate Vanishes(f: Field, lam: seq<nat>, xs: seq<nat>, er: set<nat>) {
    forall p :: p in er && p < |xs| ==> Eval(f, lam, xs[p], |lam|) == 0
  }

  // The weights at positions not declared as erasures.
  ghost function Unknown(y: seq<nat>, er: set<nat>): (u: seq<nat>)
    ensures |u| == |y|
  {
    seq(|y|, p requires 0 <= p < |y| => if p in er then 0 else y[p])
  }

  ghost function UnknownErrors(y: seq<nat>, er: set<nat>): nat {
    Weight(Unknown(y, er), |y|)
  }

  // Positions that are wrong or declared as erasures.
  ghost function Errata(y: seq<nat>, er: set<nat>): set<nat> {
    set p | 0 <= p < |y| && (p in er || y[p] != 0)
  }

  lemma {:induction false} ConvolutionAsPowerSum(f: Field, s: seq<nat>, y: seq<nat>, xs: seq<nat>, lam: seq<nat>,
                                                 k: nat, n: nat)
    requires SyndromesOf(f, s, y, xs)
    requires n <= |lam| && n <= k + 1 && k < |s|
    ensures Convolution(f, lam, s, k, n) == PowerSum(f, Weights(f, y, xs, lam, n), xs, k + 1 - n, |xs|)
  {
    hide Mul, Xor, PowerSum;
    var w := Weights(f, y, xs, lam, n);
    if n == 0 {
      forall p | 0 <= p < |xs| ensures w[p] == 0 {
        assert Eval(f, lam, xs[p], 0) == 0;
        MulZero(f, y[p]);
      }
      PowerSumOfZeros(f, w, xs, k + 1, |xs|);
    } else {
      ConvolutionAsPowerSum(f, s, y, xs, lam, k, n - 1);
      var v := Weights(f, y, xs, lam, n - 1);
      var c := lam[n - 1];
      forall p | 0 <= p < |xs| ensures w[p] == Xor(Mul(f, c, y[p]), Mul(f, xs[p], v[p])) {
        var g := Eval(f, lam, xs[p], n - 1);
        assert Eval(f, lam, xs[p], n) == Xor(c, Mul(f, xs[p], g));
        MulDistrib(f, y[p], c, Mul(f, xs[p], g));
        MulComm(f, y[p], c);
        MulSwap(f, y[p], xs[p], g);
      }
      PowerSumCombine(f, w, c, y, v, xs, k + 1 - n, |xs|);
      XorComm(Convolution(f, lam, s, k, n - 1), Mul(f, c, s[k + 1 - n]));
    }
  }

  lemma {:induction false} WeightMonotone(c: seq<nat>, u: seq<nat>, n: nat)
    requires n <= |c| && n <= |u|
    requires forall p :: 0 <= p < n && c[p] != 0 ==> u[p] != 0
    ensures Weight(c, n) <= Weight(u, n)
  {
    if n > 0 { WeightMonotone(c, u, n - 1); }
  }

  lemma WeightsVanish(f: Field, y: seq<nat>, xs: seq<nat>, er: set<nat>, lam: seq<nat>, el: nat)
    requires |y| == |xs| && Symbols(f, y) && Locators(f, xs)
    requires el < |lam| && Symbols(f, lam)
    requires forall j :: el < j < |lam| ==> lam[j] == 0
    requires Vanishes(f, lam, xs, er)
    ensures Weight(Weights(f, y, xs, lam, el + 1), |xs|) <= UnknownErrors(y, er)
  {
    hide Mul, Xor, Weight, Eval, f.Size;
    var w, u := Weights(f, y, xs, lam, el + 1), Unknown(y, er);
    forall p | 0 <= p < |xs| && w[p] != 0 ensures u[p] != 0 {
      MulZero(f, Eval(f, lam, xs[p], el + 1));
      MulZero(f, y[p]);
      if p in er {
        EvalPaddedRoot(f, lam, xs[p], el + 1, |lam|);
      }
    }
    WeightMonotone(w, u, |xs|);
  }

  // Discrepancies are power sums of the residual weights.
  lemma DiscrepancyAsPowerSum(f: Field, s: seq<nat>, y: seq<nat>, xs: seq<nat>, lam: seq<nat>, el: nat, k: nat)
    requires SyndromesOf(f, s, y, xs)
    requires |lam| == |s| + 1 && el <= k < |s|
    requires forall j :: el < j < |lam| ==> lam[j] == 0
    ensures Discrepancy(f, lam, s, k) == PowerSum(f, Weights(f, y, xs, lam, el + 1), xs, k - el, |xs|)
  {
    hide Convolution, PowerSum;
    ConvolutionTrim(f, lam, s, k, el + 1, k + 1);
    ConvolutionAsPowerSum(f, s, y, xs, lam, k, el + 1);
  }

  // If the discrepancies vanish from el for as many places as there are
  // unknown errors, every error is a root.
  lemma ResidualWeightsZero(f: Field, s: seq<nat>, y: seq<nat>, xs: seq<nat>, er: set<nat>, lam: seq<nat>,
                            b: seq<nat>, r: nat, el: nat, e: nat)
    requires SyndromesOf(f, s, y, xs)
    requires Tracks(f, s, lam, b, r, el, e)
    requires Vanishes(f, lam, xs, er)
    requires r >= el + UnknownErrors(y, er)
    ensures AllZero(Weights(f, y, xs, lam, el + 1))
  {
    hide PowerSum, Weight, Discrepancy, Mul;
    var w := Weights(f, y, xs, lam, el + 1);
    WeightsVanish(f, y, xs, er, lam, el);
    forall k | 0 <= k < 0 + (r - el) ensures PowerSum(f, w, xs, k, |xs|) == 0 {
      DiscrepancyAsPowerSum(f, s, y, xs, lam, el, k + el);
      assert Discrepancy(f, lam, s, k + el) == 0;
    }
    Vandermonde(f, w, xs, 0, r - el, |xs|);
  }

  // The length never outgrows the number of errata.
  lemma LengthBound(f: Field, s: seq<nat>, y: seq<nat>, xs: seq<nat>, er: set<nat>, lam: seq<nat>, b: seq<nat>,
                    r: nat, el: nat, e: nat)
    requires SyndromesOf(f, s, y, xs)
    requires Tracks(f, s, lam, b, r, el, e) && r < |s|
    requires Vanishes(f, lam, xs, er)
    requires Discrepancy(f, lam, s, r) != 0
    ensures r + 1 <= el + UnknownErrors(y, er)
  {
    hide PowerSum, Weight, Discrepancy, Mul, UnknownErrors;
    if r >= el + UnknownErrors(y, er) {
      ResidualWeightsZero(f, s, y, xs, er, lam, b, r, el, e);
      DiscrepancyAsPowerSum(f, s, y, xs, lam, el, r);
      PowerSumOfZeros(f, Weights(f, y, xs, lam, el + 1), xs, r - el, |xs|);
      assert false;
    }
  }

  // ---------- Erasure roots survive every update ----------

  lemma {:induction false} EvalShifted(f: Field, b: seq<nat>, x: nat, n: nat)
    requires n < |b|
    ensures Eval(f, Shifted(b), x, n + 1) == Eval(f, b, x, n)
  {
    hide Mul, Xor;
    if n == 0 {
      EvalOne(f, Shifted(b), x);
      assert Eval(f, b, x, 0) == 0;
    } else {
      EvalShifted(f, b, x, n - 1);
    }
  }

  lemma ShiftedVanishes(f: Field, b: seq<nat>, xs: seq<nat>, er: set<nat>)
    requires |b| > 0 && Symbols(f, b) && b[|b| - 1] == 0 && Locators(f, xs)
    requires Vanishes(f, b, xs, er)
    ensures Vanishes(f, Shifted(b), xs, er)
  {
    hide Eval;
    forall p | p in er && p < |xs| ensures Eval(f, Shifted(b), xs[p], |b|) == 0 {
      EvalShifted(f, b, xs[p], |b| - 1);
      EvalPaddedRoot(f, b, xs[p], |b| - 1, |b|);
    }
  }

  lemma CorrectedVanishes(f: Field, t: seq<nat>, lam: seq<nat>, d: nat, b: seq<nat>, xs: seq<nat>, er: set<nat>)
    requires |lam| == |b| > 0 && Corrected(f, t, lam, d, b)
    requires Symbols(f, b) && b[|b| - 1] == 0 && Locators(f, xs)
    requires Vanishes(f, lam, xs, er) && Vanishes(f, b, xs, er)
    ensures Vanishes(f, t, xs, er)
  {
    hide Eval, Mul, Xor;
    ShiftedVanishes(f, b, xs, er);
    forall p | p in er && p < |xs| ensures Eval(f, t, xs[p], |t|) == 0 {
      EvalLinear(f, t, lam, d, Shifted(b), xs[p], |t|);
      MulZero(f, d);
      XorZero(0);
    }
  }

  lemma ScaledVanishes(f: Field, lam: seq<nat>, d: nat, b: seq<nat>, xs: seq<nat>, er: set<nat>)
    requires |lam| == |b| && Symbols(f, b) && 0 < d < f.Size()
    requires forall j :: 0 <= j < |lam| ==> lam[j] == Mul(f, d, b[j])
    requires Vanishes(f, lam, xs, er)
    ensures Vanishes(f, b, xs, er)
  {
    hide Eval, Mul, Xor, f.Size;
    var z := seq(|b|, _ => 0);
    forall p | p in er && p < |xs| ensures Eval(f, b, xs[p], |b|) == 0 {
      var x := xs[p];
      forall j | 0 <= j < |lam| ensures lam[j] == Xor(z[j], Mul(f, d, b[j])) {
        XorZero(lam[j]);
      }
      EvalLinear(f, lam, z, d, b, x, |b|);
      EvalOfZeros(f, z, x, |b|);
      EvalBound(f, b, x, |b|);
      XorZero(Mul(f, d, Eval(f, b, x, |b|)));
      if Eval(f, b, x, |b|) != 0 {
        MulNonzero(f, d, Eval(f, b, x, |b|));
      }
    }
  }

  lemma {:induction false} EvalOfZeros(f: Field, z: seq<nat>, x: nat, n: nat)
    requires n <= |z| && forall j :: 0 <= j < n ==> z[j] == 0
    ensures Eval(f, z, x, n) == 0
  {
    hide Mul;
    if n > 0 {
      EvalOfZeros(f, z, x, n - 1);
      MulZero(f, x);
      XorZero(0);
    }
  }

  // ---------- The locator is exact ----------

  ghost function LocatorsAt(xs: seq<nat>, ps: set<nat>): set<nat>
    requires forall p :: p in ps ==> p < |xs|
  {
    set p | p in ps :: xs[p]
  }

  lemma {:induction false} LocatorsAtSize(f: Field, xs: seq<nat>, ps: set<nat>)
    requires Locators(f, xs)
    requires forall p :: p in ps ==> p < |xs|
    ensures |LocatorsAt(xs, ps)| == |ps|
  {
    if ps != {} {
      var q :| q in ps;
      LocatorsAtSize(f, xs, ps - {q});
      assert LocatorsAt(xs, ps) == LocatorsAt(xs, ps - {q}) + {xs[q]};
      forall p | p in ps - {q} ensures xs[p] != xs[q] {
        if p < q { assert xs[p] != xs[q]; } else { assert xs[q] != xs[p]; }
      }
    }
  }

  lemma RootCount(f: Field, lam: seq<nat>, xs: seq<nat>, n: nat, ps: set<nat>)
    requires Locators(f, xs) && 0 < n <= |lam| && Symbols(f, lam) && lam[0] != 0
    requires forall p :: p in ps ==> p < |xs| && Eval(f, lam, xs[p], n) == 0
    ensures |ps| <= n - 1
  {
    hide Eval;
    LocatorsAtSize(f, xs, ps);
    forall x | x in LocatorsAt(xs, ps) ensures x < f.Size() && Eval(f, lam, x, n) == 0 {
    }
    RootBound(f, lam, n, LocatorsAt(xs, ps));
  }

  // A polynomial with n coefficients and n roots is zero.
  lemma {:induction false} ManyRoots(f: Field, g: seq<nat>, xs: seq<nat>, ps: set<nat>)
    requires Locators(f, xs) && Symbols(f, g) && |ps| >= |g|
    requires forall p :: p in ps ==> p < |xs| && Eval(f, g, xs[p], |g|) == 0
    ensures AllZero(g)
    decreases |g|
  {
    hide Eval, f.Size;
    if |g| > 0 {
      if g[0] != 0 {
        RootCount(f, g, xs, |g|, ps);
        assert false;
      } else {
        assert g == [0] + g[1..];
        forall p | p in ps ensures Eval(f, g[1..], xs[p], |g| - 1) == 0 {
          EvalPrepended(f, g[1..], xs[p], |g| - 1);
        }
        ManyRoots(f, g[1..], xs, ps);
        forall i | 0 <= i < |g| ensures g[i] == 0 {
          if i > 0 { assert g[i] == g[1..][i - 1]; }
        }
      }
    }
  }

  // A locator whose length does not exceed the number of errata, all of which
  // are roots, has exactly those roots and full degree.
  lemma ExactLocator(f: Field, lam: seq<nat>, xs: seq<nat>, el: nat, errata: set<nat>)
    requires Locators(f, xs) && el < |lam| && Symbols(f, lam) && lam[0] == 1
    requires forall p :: p in errata ==> p < |xs| && Eval(f, lam, xs[p], el + 1) == 0
    requires el <= |errata|
    ensures el == |errata| && lam[el] != 0
    ensures forall p :: 0 <= p < |xs| ==> (Eval(f, lam, xs[p], el + 1) == 0 <==> p in errata)
  {
    hide Eval, f.Size;
    RootCount(f, lam, xs, el + 1, errata);
    if el > 0 && lam[el] == 0 {
      forall p | p in errata ensures Eval(f, lam, xs[p], el) == 0 {
        EvalPaddedRoot(f, lam, xs[p], el, el + 1);
      }
      RootCount(f, lam, xs, el, errata);
      assert false;
    }
    forall p | 0 <= p < |xs| && Eval(f, lam, xs[p], el + 1) == 0 ensures p in errata {
      if p !in errata {
        RootCount(f, lam, xs, el + 1, errata + {p});
        assert false;
      }
    }
  }

  ghost function Nonzeros(u: seq<nat>, n: nat): set<nat>
    requires n <= |u|
  {
    set p: nat | p < n && u[p] != 0
  }

  lemma {:induction false} WeightIsCount(u: seq<nat>, n: nat)
    requires n <= |u|
    ensures |Nonzeros(u, n)| == Weight(u, n)
  {
    if n > 0 {
      WeightIsCount(u, n - 1);
      if u[n - 1] == 0 {
        assert Nonzeros(u, n) == Nonzeros(u, n - 1);
      } else {
        assert Nonzeros(u, n) == Nonzeros(u, n - 1) + {n - 1};
      }
    }
  }

  lemma ErrataCount(y: seq<nat>, er: set<nat>)
    requires forall p :: p in er ==> p < |y|
    ensures |Errata(y, er)| == |er| + UnknownErrors(y, er)
  {
    hide Weight;
    var u := Unknown(y, er);
    var v := Nonzeros(u, |u|);
    WeightIsCount(u, |u|);
    assert Errata(y, er) == er + v;
  }
}
