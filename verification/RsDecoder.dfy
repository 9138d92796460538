// The decoder of lib/libfec/decode_rs.h as a whole: errors and erasures are
// corrected exactly whenever 2*errors + erasures does not exceed nroots.
module RsDecoder {
  import opened Bits
  import opened GaloisField
  import opened Polynomials
  import opened KeyEquation
  import opened ErrorEvaluator
  import opened RsCodec
  import opened RsCode
  import opened RsLocator
  import opened RsBerlekampMassey
  import opened RsSearch
  import opened RsForney
  import opened RsAcceptance

  // Wrong symbols outside the declared erasures.
  ghost function WrongSymbols(c: Codec, sent: seq<nat>, received: seq<nat>, er: set<nat>): nat
    requires |sent| == |received|
  {
    UnknownErrors(ErrorVector(c, sent, received), er)
  }

  ghost function PositionSet(eras: seq<nat>, n: nat): set<nat>
    requires n <= |eras|
  {
    if n == 0 then {} else PositionSet(eras, n - 1) + {eras[n - 1]}
  }

  lemma {:induction false} PositionIn(eras: seq<nat>, n: nat, i: nat)
    requires i < n <= |eras|
    ensures eras[i] in PositionSet(eras, n)
  {
    if i < n - 1 { PositionIn(eras, n - 1, i); }
  }

  lemma {:induction false} PositionIndex(eras: seq<nat>, n: nat, p: nat) returns (i: nat)
    requires n <= |eras| && p in PositionSet(eras, n)
    ensures i < n && eras[i] == p
  {
    if eras[n - 1] == p { i := n - 1; } else { i := PositionIndex(eras, n - 1, p); }
  }

  ghost predicate DistinctPositions(eras: seq<nat>, n: nat)
    requires n <= |eras|
  {
    forall i, j :: 0 <= i < j < n ==> eras[i] != eras[j]
  }

  lemma {:induction false} PositionSetSize(eras: seq<nat>, n: nat)
    requires n <= |eras| && DistinctPositions(eras, n)
    ensures |PositionSet(eras, n)| == n
  {
    if n > 0 {
      PositionSetSize(eras, n - 1);
      if eras[n - 1] in PositionSet(eras, n - 1) {
        var i := PositionIndex(eras, n - 1, eras[n - 1]);
        assert false;
      }
    }
  }

  // ---------- Erasures as starting point ----------

  lemma LocatorShape(f: Field, lam: seq<nat>, xs: seq<nat>)
    requires forall i :: 0 <= i < |xs| ==> 0 < xs[i] < f.Size()
    requires Locates(f, lam, xs, |xs|)
    ensures Symbols(f, lam) && lam[0] == 1
  {
    hide f.Size, RootProduct;
    AlphaBound(f, 0);
    RootProductShape(f, xs, |xs|);
  }

  lemma ErasureRoot(f: Field, lam: seq<nat>, xs: seq<nat>, i: nat)
    requires forall i :: 0 <= i < |xs| ==> 0 < xs[i] < f.Size()
    requires Locates(f, lam, xs, |xs|) && i < |xs|
    ensures Eval(f, lam, xs[i], |lam|) == 0
  {
    hide f.Size, RootProduct, Eval;
    LocatorShape(f, lam, xs);
    RootProductRoots(f, xs, |xs|, i);
    EvalSame(f, lam, RootProduct(f, xs, |xs|), xs[i], |xs| + 1);
    EvalPaddedRoot(f, lam, xs[i], |xs| + 1, |lam|);
  }

  lemma LocatesVanishes(c: Codec, f: Field, lam: seq<nat>, eras: seq<nat>)
    requires forall i :: 0 <= i < |eras| ==> eras[i] < c.nn
    requires Locates(f, lam, ErasureLocators(c, f, eras), |eras|)
    ensures Symbols(f, lam) && lam[0] == 1
    ensures Vanishes(f, lam, CodeLocators(c, f), PositionSet(eras, |eras|))
  {
    hide f.Size, Eval, Locator, PositionSet, Locates;
    var xs, all := ErasureLocators(c, f, eras), CodeLocators(c, f);
    forall i | 0 <= i < |xs| ensures 0 < xs[i] < f.Size() {
      LocatorNonzero(c, f, eras[i]);
    }
    LocatorShape(f, lam, xs);
    forall p | p in PositionSet(eras, |eras|) && p < |all| ensures Eval(f, lam, all[p], |lam|) == 0 {
      var i := PositionIndex(eras, |eras|, p);
      ErasureRoot(f, lam, xs, i);
    }
  }

  lemma StartTracks(f: Field, sp: seq<nat>, lam: seq<nat>, e: nat)
    requires |lam| == |sp| + 1 && e <= |sp| && Symbols(f, lam) && lam[0] == 1
    requires forall j :: e < j < |lam| ==> lam[j] == 0
    ensures Tracks(f, sp, lam, lam, e, e, e)
  {
  }

  // ---------- What a correctable block guarantees ----------

  // Scaling the error values by their locators keeps the number of errors.
  lemma ScaledErrors(c: Codec, f: Field, e: seq<nat>, er: set<nat>)
    requires |e| == c.nn && Symbols(f, e)
    ensures UnknownErrors(Scaled(c, f, e), er) == UnknownErrors(e, er)
    ensures Errata(Scaled(c, f, e), er) == Errata(e, er)
  {
    hide Weight, f.Size;
    var y := Scaled(c, f, e);
    forall p | 0 <= p < c.nn ensures y[p] == 0 <==> e[p] == 0 {
      ScaledNonzero(c, f, e, p);
    }
    WeightMonotone(Unknown(y, er), Unknown(e, er), c.nn);
    WeightMonotone(Unknown(e, er), Unknown(y, er), c.nn);
  }

  // The locator's degree is the number of errata and they are its roots.
  lemma LocatorFound(f: Field, sp: seq<nat>, lam: seq<nat>, bp: seq<nat>, el: nat, e: nat, y: seq<nat>, xs: seq<nat>,
                     er: set<nat>)
    requires SyndromesOf(f, sp, y, xs) && Progress(f, sp, lam, bp, |sp|, el, e, y, xs, er)
    requires forall p :: p in er ==> p < |xs|
    requires |er| == e && 2 * UnknownErrors(y, er) + e <= |sp|
    ensures el == |Errata(y, er)| && lam[el] != 0
    ensures forall p :: 0 <= p < |xs| ==> (Eval(f, lam, xs[p], el + 1) == 0 <==> p in Errata(y, er))
  {
    hide Eval, f.Size, UnknownErrors, Discrepancy, Mul;
    ErrataCount(y, er);
    ResidualWeightsZero(f, sp, y, xs, er, lam, bp, |sp|, el, e);
    var w := Weights(f, y, xs, lam, el + 1);
    forall p | p in Errata(y, er) ensures p < |xs| && Eval(f, lam, xs[p], el + 1) == 0 {
      EvalBound(f, lam, xs[p], el + 1);
      if p in er {
        EvalPaddedRoot(f, lam, xs[p], el + 1, |lam|);
      } else if Eval(f, lam, xs[p], el + 1) != 0 {
        assert w[p] == 0;
        MulNonzero(f, y[p], Eval(f, lam, xs[p], el + 1));
      }
    }
    ExactLocator(f, lam, xs, el, Errata(y, er));
  }

  // ---------- What the search has found ----------

  lemma RecordedAreRoots(c: Codec, f: Field, lam: seq<nat>, deg: nat, root: seq<nat>, loc: seq<nat>, count: nat)
    requires c.nn >= 1 && deg < |lam| && Recorded(c, f, lam, deg, root, loc, count, c.nn + 1)
    ensures PositionSet(loc, count) <= RootPositions(c, f, lam, deg) && |PositionSet(loc, count)| == count
    ensures DistinctPositions(loc, count)
  {
    hide Eval, Locator, PositionSet, RootIndex;
    PositionSetSize(loc, count);
    forall p | p in PositionSet(loc, count) ensures p in RootPositions(c, f, lam, deg) {
      var i := PositionIndex(loc, count, p);
    }
  }

  lemma CompleteHasRoots(c: Codec, f: Field, lam: seq<nat>, deg: nat, loc: seq<nat>, count: nat)
    requires c.nn >= 1 && deg < |lam| && count <= |loc| && Complete(c, f, lam, deg, loc, count, c.nn + 1)
    ensures RootPositions(c, f, lam, deg) <= PositionSet(loc, count)
  {
    hide Eval, Locator, PositionSet;
    forall p | p in RootPositions(c, f, lam, deg) ensures p in PositionSet(loc, count) {
      assert RootIndex(c, p) < c.nn + 1;
      assert p in loc[..count];
      var i :| 0 <= i < count && loc[i] == p;
      PositionIn(loc, count, i);
    }
  }

  // A locator has at most as many roots as its degree.
  lemma RootsAtMostDegree(c: Codec, f: Field, lam: seq<nat>, deg: nat)
    requires Valid(c, f) && deg < |lam| && Symbols(f, lam) && lam[0] == 1
    ensures |RootPositions(c, f, lam, deg)| <= deg
  {
    hide Eval, Locator, f.Size, Valid;
    LocatorsDistinct(c, f);
    RootCount(f, lam, CodeLocators(c, f), deg + 1, RootPositions(c, f, lam, deg));
  }

  // The recorded positions are the roots of the locator, all of them.
  lemma SearchFinds(c: Codec, f: Field, lam: seq<nat>, deg: nat, root: seq<nat>, loc: seq<nat>, count: nat)
    requires Valid(c, f) && deg < |lam| && count <= deg && Symbols(f, lam) && lam[0] == 1
    requires Recorded(c, f, lam, deg, root, loc, count, c.nn + 1)
    requires count < deg ==> Complete(c, f, lam, deg, loc, count, c.nn + 1)
    ensures |RootPositions(c, f, lam, deg)| == count && PositionSet(loc, count) == RootPositions(c, f, lam, deg)
    ensures DistinctPositions(loc, count)
  {
    hide PositionSet, RootPositions, Complete, Tables, Symbols, f.Size, f.Alpha, Eval, Locator, RootIndex;
    assert c.nn >= 1 && count <= |loc|;
    hide *;
    RecordedAreRoots(c, f, lam, deg, root, loc, count);
    RootsAtMostDegree(c, f, lam, deg);
    if count < deg {
      CompleteHasRoots(c, f, lam, deg, loc, count);
      assert PositionSet(loc, count) == RootPositions(c, f, lam, deg);
    } else {
      SameSize(PositionSet(loc, count), RootPositions(c, f, lam, deg));
    }
  }

  lemma SameSize<T>(a: set<T>, b: set<T>)
    requires a <= b && |b| <= |a|
    ensures a == b
  {
    if x :| x in b && x !in a {
      SubsetSize(a, b - {x});
      assert false;
    }
  }

  lemma ErasuresAreRoots(c: Codec, f: Field, lam: seq<nat>, deg: nat, er: set<nat>)
    requires deg < |lam| && Symbols(f, lam) && forall j :: deg < j < |lam| ==> lam[j] == 0
    requires Vanishes(f, lam, CodeLocators(c, f), er) && forall p :: p in er ==> p < c.nn
    ensures er <= RootPositions(c, f, lam, deg)
  {
    hide Eval, Locator, f.Size;
    forall p | p in er ensures p in RootPositions(c, f, lam, deg) {
      LocatorNonzero(c, f, p);
      assert CodeLocators(c, f)[p] == Locator(c, f, p);
      EvalPaddedRoot(f, lam, Locator(c, f, p), deg + 1, |lam|);
    }
  }

  // ---------- Applying the corrections ----------

  // fix holds the corrections at the recorded positions from index n on.
  ghost predicate PartlyCorrects(c: Codec, f: Field, lam: seq<nat>, om: seq<nat>, fix: seq<nat>, loc: seq<nat>,
                                 n: nat, count: nat)
    requires n <= count <= |loc| && |om| < |lam|
  {
    && |fix| == c.nn && Symbols(f, fix)
    && (forall k :: 0 <= k < count ==> loc[k] < c.nn)
    && (forall k :: 0 <= k < n ==> fix[loc[k]] == 0)
    && (forall p :: 0 <= p < c.nn && fix[p] != 0 ==> p in PositionSet(loc, count))
    && (forall k :: n <= k < count ==> Balanced(c, f, lam, om, loc[k], fix[loc[k]]))
  }

  lemma CorrectsOne(c: Codec, f: Field, lam: seq<nat>, om: seq<nat>, fix: seq<nat>, loc: seq<nat>, j: nat,
                    count: nat, v: nat)
    requires j < count <= |loc| && |om| < |lam| && DistinctPositions(loc, count)
    requires PartlyCorrects(c, f, lam, om, fix, loc, j + 1, count)
    requires v < f.Size() && Balanced(c, f, lam, om, loc[j], v)
    ensures PartlyCorrects(c, f, lam, om, fix[loc[j] := v], loc, j, count)
  {
    hide Balanced, PositionSet, f.Size;
    PositionIn(loc, count, j);
  }

  lemma AppliesOne(c: Codec, data: seq<nat>, data': seq<nat>, was: seq<nat>, fix: seq<nat>, q: nat, v: nat)
    requires |data| == |data'| == |was| && |fix| == c.pad + |was| && q < |fix| && fix[q] == 0
    requires Applied(c, data, was, fix)
    requires data' == if v != 0 && q >= c.pad then data[q - c.pad := Xor(data[q - c.pad], v)] else data
    ensures Applied(c, data', was, fix[q := v])
  {
    hide Xor;
    if q >= c.pad {
      assert data[q - c.pad] == Xor(was[q - c.pad], fix[q - c.pad + c.pad]);
      XorZero(was[q - c.pad]);
    }
  }

  lemma NothingApplied(c: Codec, was: seq<nat>, fix: seq<nat>)
    requires |fix| == c.pad + |was| && forall p :: 0 <= p < |fix| ==> fix[p] == 0
    ensures Applied(c, was, was, fix)
  {
    hide Xor;
    forall d | 0 <= d < |was| ensures was[d] == Xor(was[d], fix[d + c.pad]) {
      XorZero(was[d]);
    }
  }

  lemma AllCorrected(c: Codec, f: Field, lam: seq<nat>, om: seq<nat>, fix: seq<nat>, loc: seq<nat>, count: nat)
    requires |om| == count < |lam| == c.nroots + 1 && count <= |loc|
    requires Symbols(f, lam) && Symbols(f, om) && lam[0] == 1 && forall j :: |om| < j < |lam| ==> lam[j] == 0
    requires PositionSet(loc, count) == RootPositions(c, f, lam, count) && |PositionSet(loc, count)| == count
    requires PartlyCorrects(c, f, lam, om, fix, loc, 0, count)
    ensures Corrects(c, f, lam, om, fix)
  {
    hide Balanced, PositionSet, f.Size, RootPositions;
    forall p | p in RootPositions(c, f, lam, |om|) ensures p < c.nn && Balanced(c, f, lam, om, p, fix[p]) {
      var k := PositionIndex(loc, count, p);
    }
  }

  method CorrectErrors(c: Codec, ghost f: Field, data: array<nat>, root: seq<nat>, loc: seq<nat>, count: nat,
                       lambda: seq<nat>, ghost lam: seq<nat>, omega: seq<nat>, ghost om: seq<nat>)
    returns (ghost fix: seq<nat>)
    requires Valid(c, f) && data.Length + c.pad == c.nn && Symbols(f, data[..])
    requires IndexForm(c, lambda, lam) && IndexForm(c, omega, om) && |lam| == c.nroots + 1
    requires Symbols(f, lam) && Symbols(f, om) && lam[0] == 1
    requires |om| == count <= c.nroots && forall j :: count < j < |lam| ==> lam[j] == 0
    requires Recorded(c, f, lam, count, root, loc, count, c.nn + 1)
    modifies data
    ensures Symbols(f, data[..]) && Corrects(c, f, lam, om, fix)
    ensures Applied(c, data[..], old(data[..]), fix)
  {
    hide f.Alpha, f.Size, Mul, Xor, Eval, Ascending, Derivative, Locator, RootIndex, RootPositions, ScaleExponent,
      IndexForm, PositionSet, Tables, Balanced, PartlyCorrects, Applied;
    ghost var was := data[..];
    SearchFinds(c, f, lam, count, root, loc, count);
    fix := Zeros(c.nn);
    NothingApplied(c, was, fix);
    assert PartlyCorrects(c, f, lam, om, fix, loc, count, count) by {
      NothingCorrected(c, f, lam, om, fix, loc, count);
    }
    var n: nat := count;
    while n > 0
      invariant n <= count && Symbols(f, data[..]) && |fix| == c.nn
      invariant PartlyCorrects(c, f, lam, om, fix, loc, n, count)
      invariant Applied(c, data[..], was, fix)
    {
      var j: nat := n - 1;
      ghost var before := data[..];
      RootRecorded(c, f, lam, count, root, loc, count, j);
      var num, v := ErrorValue(c, f, omega, om, lambda, lam, count, root[j]);
      ValueBalances(c, f, lam, om, loc[j], num, v);
      if num != 0 && loc[j] >= c.pad {
        AddBound(f, data[loc[j] - c.pad], v);
        data[loc[j] - c.pad] := Xor(data[loc[j] - c.pad], v);
        XorZero(before[loc[j] - c.pad]);
      }
      assert fix[loc[j]] == 0 by { NotYetCorrected(c, f, lam, om, fix, loc, n, count, j); }
      AppliesOne(c, before, data[..], was, fix, loc[j], v);
      CorrectsOne(c, f, lam, om, fix, loc, j, count, v);
      fix := fix[loc[j] := v];
      n := j;
    }
    AllCorrected(c, f, lam, om, fix, loc, count);
  }

  lemma NothingCorrected(c: Codec, f: Field, lam: seq<nat>, om: seq<nat>, fix: seq<nat>, loc: seq<nat>, count: nat)
    requires count <= |loc| && |om| < |lam| && |fix| == c.nn && forall p :: 0 <= p < c.nn ==> fix[p] == 0
    requires forall k :: 0 <= k < count ==> loc[k] < c.nn
    ensures PartlyCorrects(c, f, lam, om, fix, loc, count, count)
  {
    AlphaBound(f, 0);
  }

  lemma NotYetCorrected(c: Codec, f: Field, lam: seq<nat>, om: seq<nat>, fix: seq<nat>, loc: seq<nat>, n: nat,
                        count: nat, j: nat)
    requires j < n <= count <= |loc| && |om| < |lam| && PartlyCorrects(c, f, lam, om, fix, loc, n, count)
    ensures loc[j] < |fix| && fix[loc[j]] == 0
  {
  }

  lemma RootRecorded(c: Codec, f: Field, lam: seq<nat>, deg: nat, root: seq<nat>, loc: seq<nat>, m: nat, j: nat)
    requires c.nn >= 1 && deg < |lam| && Recorded(c, f, lam, deg, root, loc, m, c.nn + 1) && j < m
    ensures 1 <= root[j] <= c.nn && loc[j] < c.nn && RootIndex(c, loc[j]) == root[j]
    ensures loc[j] in RootPositions(c, f, lam, deg)
  {
    hide Eval, Locator, RootIndex;
  }

  // Few enough errata are noticed by the syndromes.
  lemma DistanceBound(c: Codec, sent: seq<nat>, received: seq<nat>, er: set<nat>)
    requires |sent| == |received| && forall p :: p in er ==> p < c.pad + |sent|
    ensures Distance(received, sent) <= |er| + WrongSymbols(c, sent, received, er)
  {
    hide Xor, Weight, UnknownErrors;
    var d, e := Difference(received, sent), ErrorVector(c, sent, received);
    WeightOfFull(Zeros(c.pad), d, |d|);
    WeightIsCount(e, |e|);
    ErrataCount(e, er);
    SubsetSize(Nonzeros(e, |e|), Errata(e, er));
  }

  // ---------- The decoder ----------

  // The block can be restored: distinct erasures, and twice the number of
  // other wrong symbols plus the number of erasures is at most nroots.
  ghost predicate Correctable(c: Codec, sent: seq<nat>, received: seq<nat>, eras: seq<nat>)
    requires |sent| == |received|
  {
    && DistinctPositions(eras, |eras|)
    && 2 * WrongSymbols(c, sent, received, PositionSet(eras, |eras|)) + |eras| <= c.nroots
  }

  ghost function ErrataOf(c: Codec, sent: seq<nat>, received: seq<nat>, eras: seq<nat>): set<nat>
    requires |sent| == |received|
  {
    Errata(ErrorVector(c, sent, received), PositionSet(eras, |eras|))
  }

  // The locator's roots are the errata.
  ghost predicate LocatesErrata(c: Codec, f: Field, lam: seq<nat>, deg: nat, errata: set<nat>)
    requires deg < |lam|
  {
    deg == |errata| && RootPositions(c, f, lam, deg) == errata
  }

  lemma BoundedPositions(eras: seq<nat>, n: nat, bound: nat)
    requires n <= |eras| && forall i :: 0 <= i < n ==> eras[i] < bound
    ensures forall p :: p in PositionSet(eras, n) ==> p < bound
  {
    forall p | p in PositionSet(eras, n) ensures p < bound {
      var i := PositionIndex(eras, n, p);
    }
  }

  lemma StartProgress(c: Codec, f: Field, sp: seq<nat>, lam: seq<nat>, eras: seq<nat>, y: seq<nat>)
    requires |lam| == |sp| + 1 && |eras| <= |sp|
    requires forall i :: 0 <= i < |eras| ==> eras[i] < c.nn
    requires Locates(f, lam, ErasureLocators(c, f, eras), |eras|)
    ensures Progress(f, sp, lam, lam, |eras|, |eras|, |eras|, y, CodeLocators(c, f), PositionSet(eras, |eras|))
  {
    hide f.Size, RootProduct, Eval, UnknownErrors, Discrepancy;
    LocatesVanishes(c, f, lam, eras);
    StartTracks(f, sp, lam, |eras|);
  }

  lemma DegreeIsLength(c: Codec, f: Field, sp: seq<nat>, e: seq<nat>, lam: seq<nat>, bp: seq<nat>, el: nat, deg: nat,
                       eras: seq<nat>)
    requires |e| == c.nn && Symbols(f, e) && |sp| == c.nroots && |lam| == c.nroots + 1
    requires forall i :: 0 <= i < |eras| ==> eras[i] < c.nn
    requires SyndromesOf(f, sp, Scaled(c, f, e), CodeLocators(c, f))
    requires Progress(f, sp, lam, bp, |sp|, el, |eras|, Scaled(c, f, e), CodeLocators(c, f), PositionSet(eras, |eras|))
    requires DistinctPositions(eras, |eras|) && 2 * UnknownErrors(e, PositionSet(eras, |eras|)) + |eras| <= c.nroots
    requires deg < |lam| && lam[deg] != 0 && forall j :: deg < j < |lam| ==> lam[j] == 0
    ensures LocatesErrata(c, f, lam, deg, Errata(e, PositionSet(eras, |eras|)))
  {
    hide f.Size, Eval, UnknownErrors, Discrepancy, Locator, PositionSet, Vanishes, SyndromesOf;
    var er, y, xs := PositionSet(eras, |eras|), Scaled(c, f, e), CodeLocators(c, f);
    ScaledErrors(c, f, e, er);
    PositionSetSize(eras, |eras|);
    BoundedPositions(eras, |eras|, c.nn);
    LocatorFound(f, sp, lam, bp, el, |eras|, y, xs, er);
    assert deg == el;
    forall p | 0 <= p < c.nn ensures xs[p] == Locator(c, f, p) {
    }
  }

  // What the Berlekamp-Massey loop ends with: the invariant, with every
  // erasure a root of the locator and of the correction polynomial b.
  ghost predicate EndsWith(c: Codec, f: Field, sp: seq<nat>, eras: seq<nat>, lam: seq<nat>, b: seq<nat>, el: nat) {
    && Tracks(f, sp, lam, b, |sp|, el, |eras|)
    && Vanishes(f, lam, CodeLocators(c, f), PositionSet(eras, |eras|))
    && Vanishes(f, b, CodeLocators(c, f), PositionSet(eras, |eras|))
  }

  ghost predicate LocatorOf(c: Codec, f: Field, sp: seq<nat>, eras: seq<nat>, lam: seq<nat>) {
    exists b: seq<nat>, el: nat :: EndsWith(c, f, sp, eras, lam, b, el)
  }

  // From the syndromes to the recorded roots.
  method FindErrata(c: Codec, ghost f: Field, eras: seq<nat>, s: seq<nat>, ghost sp: seq<nat>, root: array<nat>,
                    loc: array<nat>, ghost e: seq<nat>)
    returns (count: nat, deg: nat, lambda: seq<nat>, ghost lam: seq<nat>)
    requires Valid(c, f) && |e| == c.nn && Symbols(f, e) && |sp| == c.nroots && IndexForm(c, s, sp)
    requires SyndromesOf(f, sp, Scaled(c, f, e), CodeLocators(c, f))
    requires |eras| <= c.nroots && forall i :: 0 <= i < |eras| ==> eras[i] < c.nn
    requires root.Length == loc.Length == c.nroots && root != loc
    modifies root, loc
    ensures |lam| == c.nroots + 1 && IndexForm(c, lambda, lam) && Symbols(f, lam) && lam[0] == 1
    ensures LocatorOf(c, f, sp, eras, lam)
    ensures count <= deg <= c.nroots && lam[deg] != 0 && forall j :: deg < j < |lam| ==> lam[j] == 0
    ensures Recorded(c, f, lam, deg, root[..], loc[..], count, c.nn + 1)
    ensures PositionSet(loc[..], count) == RootPositions(c, f, lam, deg)
    ensures |RootPositions(c, f, lam, deg)| == count
    ensures PositionSet(eras, |eras|) <= RootPositions(c, f, lam, deg)
    ensures DistinctPositions(eras, |eras|) && 2 * UnknownErrors(e, PositionSet(eras, |eras|)) + |eras| <= c.nroots
      ==> LocatesErrata(c, f, lam, deg, Errata(e, PositionSet(eras, |eras|)))
  {
    hide f.Alpha, f.Size, Eval, UnknownErrors, Locates, Progress, SyndromesOf, Recorded, Complete, LocatesErrata,
      PositionSet, Tables, DistinctPositions, RootPositions, LocatorOf, Vanishes;
    var lambdaArray := new nat[c.nroots + 1];
    InitLocator(c, f, lambdaArray, eras);
    ghost var y, xs, er := Scaled(c, f, e), CodeLocators(c, f), PositionSet(eras, |eras|);
    StartProgress(c, f, sp, lambdaArray[..], eras, y);
    ghost var el, bp := BerlekampMassey(c, f, lambdaArray, s, sp, |eras|, y, xs, er);
    lam := lambdaArray[..];
    ProgressLocator(c, f, sp, eras, lam, bp, el, y);
    hide Tracks;
    deg := IndexAndDegree(c, f, lambdaArray);
    lambda := lambdaArray[..];
    BoundedPositions(eras, |eras|, c.nn);
    ErasuresAreRoots(c, f, lam, deg, er);
    if DistinctPositions(eras, |eras|) && 2 * UnknownErrors(e, PositionSet(eras, |eras|)) + |eras| <= c.nroots {
      DegreeIsLength(c, f, sp, e, lam, bp, el, deg, eras);
    }
    count := ChienSearch(c, f, lambda, lam, deg, root, loc);
    SearchFinds(c, f, lam, deg, root[..], loc[..], count);
  }

  lemma ProgressLocator(c: Codec, f: Field, sp: seq<nat>, eras: seq<nat>, lam: seq<nat>, bp: seq<nat>, el: nat,
                        y: seq<nat>)
    requires var er := PositionSet(eras, |eras|);
      Progress(f, sp, lam, bp, |sp|, el, |eras|, y, CodeLocators(c, f), er)
    ensures LocatorOf(c, f, sp, eras, lam) && |lam| == |sp| + 1 && Symbols(f, lam) && lam[0] == 1
    ensures Vanishes(f, lam, CodeLocators(c, f), PositionSet(eras, |eras|))
  {
    hide Vanishes, UnknownErrors, Discrepancy, CodeLocators, PositionSet;
    assert EndsWith(c, f, sp, eras, lam, bp, el);
  }

  // What the caller may rely on, for any received block and any codeword.
  ghost predicate Outcome(c: Codec, f: Field, sent: seq<nat>, received: seq<nat>, eras: seq<nat>, data: seq<nat>,
                          count: int, found: set<nat>)
    requires |sent| == |received| == |data|
  {
    && -1 <= count <= c.nroots
    && Symbols(f, data)
    && (count == -1 ==> data == received)
    && (count >= 0 ==> |found| == count && OnlyAt(c, data, received, found))
    && (Codeword(c, f, received) ==> count == 0 && data == received)
    && (Correctable(c, sent, received, eras) ==>
          && data == sent
          && (received == sent ==> count == 0)
          && (received != sent ==> found == ErrataOf(c, sent, received, eras) && count == |found|))
  }

  lemma CleanOutcome(c: Codec, f: Field, sent: seq<nat>, received: seq<nat>, eras: seq<nat>)
    requires Valid(c, f) && Codeword(c, f, sent) && Codeword(c, f, received)
    requires forall i :: 0 <= i < |eras| ==> eras[i] < c.nn
    ensures Outcome(c, f, sent, received, eras, received, 0, {})
  {
    hide Syndrome, Distance, WrongSymbols, ErrataOf, f.Size;
    if Correctable(c, sent, received, eras) {
      PositionSetSize(eras, |eras|);
      BoundedPositions(eras, |eras|, c.nn);
      DistanceBound(c, sent, received, PositionSet(eras, |eras|));
      Detection(c, f, sent, received);
    }
  }

  // The degree of a polynomial given lowest coefficient first.
  ghost function Degree(p: seq<nat>, n: nat): nat
    requires n <= |p|
  {
    if n <= 1 then 0 else if p[n - 1] != 0 then n - 1 else Degree(p, n - 1)
  }

  lemma {:induction false} DegreeIs(p: seq<nat>, deg: nat, n: nat)
    requires deg < n <= |p| && p[deg] != 0 && forall j :: deg < j < n ==> p[j] == 0
    ensures Degree(p, n) == deg
  {
    if deg < n - 1 { DegreeIs(p, deg, n - 1); }
  }

  // The verdict on a block that is not a codeword. The decoder accepts it
  // exactly when the locator has as many roots as its degree; lam is that
  // locator and fix the corrections. The accepted block is the only codeword
  // there may be that differs from the received block at most at the roots,
  // and it is one exactly when the locator's discrepancies vanish from its
  // degree on and no correction fell into the pad.
  ghost predicate Verdict(c: Codec, f: Field, received: seq<nat>, eras: seq<nat>, data: seq<nat>, count: int,
                          found: set<nat>, lam: seq<nat>, fix: seq<nat>)
    requires |received| == |data|
  {
    && |lam| == c.nroots + 1 && LocatorOf(c, f, Syndromes(c, f, received), eras, lam)
    && var deg := Degree(lam, |lam|);
    && deg < |lam| && PositionSet(eras, |eras|) <= RootPositions(c, f, lam, deg)
    && count == (if |RootPositions(c, f, lam, deg)| == deg then deg else -1)
    && (count >= 0 ==>
          && found == RootPositions(c, f, lam, deg)
          && |fix| == c.nn == c.pad + |data| && Applied(c, data, received, fix)
          && (forall p :: 0 <= p < c.nn && fix[p] != 0 ==> p in found)
          && (forall w :: Codeword(c, f, w) && |w| == |received| && OnlyAt(c, w, received, found) ==> data == w)
          && (Codeword(c, f, data) <==>
                && (forall k :: count <= k < c.nroots ==> Discrepancy(f, lam, Syndromes(c, f, received), k) == 0)
                && PadUntouched(c, fix)))
  }

  lemma SyndromesDescribeErrors(c: Codec, f: Field, sent: seq<nat>, received: seq<nat>, sp: seq<nat>)
    requires Valid(c, f) && Codeword(c, f, sent) && Block(c, f, received)
    requires sp == Syndromes(c, f, received)
    ensures var e := ErrorVector(c, sent, received);
      |e| == c.nn && Symbols(f, e) && SyndromesOf(f, sp, Scaled(c, f, e), CodeLocators(c, f))
  {
    hide f.Size, PowerSum, Eval, Root, ErrorVector, Syndrome;
    var e := ErrorVector(c, sent, received);
    assert Symbols(f, e) by { ErrorSymbols(c, f, sent, received); }
    LocatorsDistinct(c, f);
    forall i | 0 <= i < |sp| ensures sp[i] == PowerSum(f, Scaled(c, f, e), CodeLocators(c, f), i, c.nn) {
      SyndromeOfErrors(c, f, sent, received, i);
    }
  }

  // The transmitted block differs from the received one at the errata only.
  lemma SentAtErrata(c: Codec, sent: seq<nat>, received: seq<nat>, eras: seq<nat>)
    requires |sent| == |received|
    ensures OnlyAt(c, sent, received, ErrataOf(c, sent, received, eras))
  {
    hide Xor, PositionSet;
    var e := ErrorVector(c, sent, received);
    forall d | 0 <= d < |sent| && sent[d] != received[d] ensures d + c.pad in ErrataOf(c, sent, received, eras) {
      assert e[d + c.pad] == Xor(received[d], sent[d]);
      if e[d + c.pad] == 0 { XorEqZero(received[d], sent[d]); }
    }
  }

  // An accepted block within capacity is the transmitted one.
  lemma AcceptedOutcome(c: Codec, f: Field, sent: seq<nat>, received: seq<nat>, eras: seq<nat>, data: seq<nat>,
                        lam: seq<nat>, om: seq<nat>, fix: seq<nat>)
    requires Accepts(c, f, received, lam, om, fix) && Codeword(c, f, sent) && !Codeword(c, f, received)
    requires |sent| == |received| == |data| && Symbols(f, data) && Applied(c, data, received, fix)
    requires Correctable(c, sent, received, eras) ==> LocatesErrata(c, f, lam, |om|, ErrataOf(c, sent, received, eras))
    ensures Outcome(c, f, sent, received, eras, data, |om|, RootPositions(c, f, lam, |om|))
  {
    hide Codeword, Correctable, ErrataOf, RootPositions, OnlyAt, Applied, f.Size, Balanced, EvaluatorOf, Valid, Block;
    AppliedOnlyAt(c, f, received, lam, om, fix, data);
    assert |RootPositions(c, f, lam, |om|)| == |om| <= c.nroots;
    hide Accepts;
    if Correctable(c, sent, received, eras) {
      SentAtErrata(c, sent, received, eras);
      OnlyCodeword(c, f, received, lam, om, fix, data, sent);
    }
  }

  lemma AcceptedVerdict(c: Codec, f: Field, received: seq<nat>, eras: seq<nat>, data: seq<nat>, lam: seq<nat>,
                        om: seq<nat>, fix: seq<nat>)
    requires Accepts(c, f, received, lam, om, fix) && LocatorOf(c, f, Syndromes(c, f, received), eras, lam)
    requires |received| == |data| && Symbols(f, data) && Applied(c, data, received, fix)
    requires Degree(lam, |lam|) == |om| && PositionSet(eras, |eras|) <= RootPositions(c, f, lam, |om|)
    ensures Verdict(c, f, received, eras, data, |om|, RootPositions(c, f, lam, |om|), lam, fix)
  {
    hide Codeword, RootPositions, OnlyAt, Applied, f.Size, Balanced, EvaluatorOf, Valid, Discrepancy, Syndromes,
      PadUntouched, LocatorOf, PositionSet, Degree;
    CodewordExactly(c, f, received, lam, om, fix, data);
    forall w | Codeword(c, f, w) && |w| == |received| && OnlyAt(c, w, received, RootPositions(c, f, lam, |om|))
      ensures data == w
    {
      OnlyCodeword(c, f, received, lam, om, fix, data, w);
    }
  }

  // The positions to report: the first count recorded locations.
  method ReportPositions(eras: array?<nat>, loc: array<nat>, count: nat)
    requires count <= loc.Length && (eras != null ==> eras.Length >= count && eras != loc)
    modifies eras
    ensures eras != null ==> eras[..count] == loc[..count]
  {
    if eras != null {
      for i := 0 to count
        invariant forall k :: 0 <= k < i ==> eras[k] == loc[k]
      {
        eras[i] := loc[i];
      }
    }
  }

  lemma BlockFacts(c: Codec, f: Field, received: seq<nat>, sent: seq<nat>)
    requires Valid(c, f) && Block(c, f, received) && Codeword(c, f, sent)
    ensures Tables(c, f) && c.nroots < c.nn && Symbols(f, received) && |sent| == |received| == c.nn - c.pad
  {
    hide Symbols, Tables;
  }

  lemma SyndromeTest(c: Codec, f: Field, d: seq<nat>)
    requires Block(c, f, d)
    ensures Codeword(c, f, d) <==> forall i :: 0 <= i < c.nroots ==> Syndromes(c, f, d)[i] == 0
  {
    hide Syndrome, Block, f.Size, f.Alpha;
    var s := Syndromes(c, f, d);
    assert forall i :: 0 <= i < c.nroots ==> s[i] == Syndrome(c, f, d, i);
    if forall i :: 0 <= i < c.nroots ==> s[i] == 0 {
      forall i | 0 <= i < c.nroots ensures Syndrome(c, f, d, i) == 0 { assert s[i] == 0; }
    }
  }

  // decode_rs: corrects data in place and returns the number of errata, or -1.
  method DecodeRs(c: Codec, ghost f: Field, data: array<nat>, eras: array?<nat>, noEras: nat, ghost sent: seq<nat>)
    returns (count: int, ghost found: seq<nat>, ghost lam: seq<nat>, ghost fix: seq<nat>)
    requires Valid(c, f) && Block(c, f, data[..]) && Codeword(c, f, sent)
    requires noEras <= c.nroots && (noEras > 0 ==> eras != null)
    requires eras != null ==> eras != data && eras.Length >= c.nroots && forall i :: 0 <= i < noEras ==> eras[i] < c.nn
    modifies data, eras
    ensures var e0 := if eras == null then [] else old(eras[..noEras]);
      && Outcome(c, f, sent, old(data[..]), e0, data[..], count, PositionSet(found, |found|))
      && (!Codeword(c, f, old(data[..])) ==>
            Verdict(c, f, old(data[..]), e0, data[..], count, PositionSet(found, |found|), lam, fix))
    ensures eras != null && count >= 0 ==> eras[..count] == found
  {
    hide f.Alpha, f.Size, Syndrome, Eval, UnknownErrors, SyndromesOf, Recorded, Complete, LocatesErrata, PositionSet,
      Tables, DistinctPositions, Outcome, Verdict, ErrorVector, LocatorOf, RootPositions, Corrects, Applied, Degree,
      Block, Valid, Codeword, Syndromes, EvaluatorOf;
    ghost var received := data[..];
    var e0: seq<nat> := if eras == null then [] else eras[..noEras];
    BlockFacts(c, f, received, sent);
    var s := new nat[c.nroots];
    ComputeSyndromes(c, f, data, s);
    ghost var sp := s[..];
    assert sp == Syndromes(c, f, received);
    SyndromesDescribeErrors(c, f, sent, received, sp);
    var synError := ToIndexForm(c, f, s);
    found, lam, fix := [], [], [];
    NoPositions();
    assert Codeword(c, f, received) <==> forall i :: 0 <= i < |sp| ==> sp[i] == 0 by { SyndromeTest(c, f, received); }
    if !synError {
      CleanOutcome(c, f, sent, received, e0);
      count := 0;
      return;
    }
    var root, loc := new nat[c.nroots], new nat[c.nroots];
    var n, deg, lambda;
    n, deg, lambda, lam := FindErrata(c, f, e0, s[..], sp, root, loc, ErrorVector(c, sent, received));
    DegreeIs(lam, deg, |lam|);
    if deg != n {
      assert Outcome(c, f, sent, received, e0, received, -1, {}) by {
        FailedOutcome(c, f, sent, received, e0, lam, deg);
      }
      assert Verdict(c, f, received, e0, received, -1, {}, lam, fix) by {
        FailedVerdict(c, f, received, e0, lam, deg, fix);
      }
      count := -1;
      return;
    }
    var omega;
    ghost var om;
    omega, om := ComputeEvaluator(c, f, lambda, lam, s[..], sp, deg);
    fix := CorrectErrors(c, f, data, root[..], loc[..], n, lambda, lam, omega, om);
    assert Accepts(c, f, received, lam, om, fix);
    AcceptedOutcome(c, f, sent, received, e0, data[..], lam, om, fix);
    AcceptedVerdict(c, f, received, e0, data[..], lam, om, fix);
    found := loc[..n];
    assert PositionSet(found, n) == PositionSet(loc[..], n) by { PositionSetPrefix(found, loc[..], n); }
    ReportPositions(eras, loc, n);
    count := n;
  }

  lemma NoPositions()
    ensures PositionSet([], 0) == {}
  {
  }

  lemma {:induction false} PositionSetPrefix(a: seq<nat>, b: seq<nat>, n: nat)
    requires n <= |a| && n <= |b| && forall i :: 0 <= i < n ==> a[i] == b[i]
    ensures PositionSet(a, n) == PositionSet(b, n)
  {
    if n > 0 { PositionSetPrefix(a, b, n - 1); }
  }

  lemma FailedOutcome(c: Codec, f: Field, sent: seq<nat>, received: seq<nat>, eras: seq<nat>, lam: seq<nat>, deg: nat)
    requires Codeword(c, f, sent) && Block(c, f, received) && !Codeword(c, f, received)
    requires deg < |lam| && |RootPositions(c, f, lam, deg)| != deg
    requires Correctable(c, sent, received, eras) ==> LocatesErrata(c, f, lam, deg, ErrataOf(c, sent, received, eras))
    ensures Outcome(c, f, sent, received, eras, received, -1, {})
  {
    hide f.Size, Syndrome, Correctable, ErrataOf, RootPositions;
  }

  lemma FailedVerdict(c: Codec, f: Field, received: seq<nat>, eras: seq<nat>, lam: seq<nat>, deg: nat, fix: seq<nat>)
    requires |lam| == c.nroots + 1 && LocatorOf(c, f, Syndromes(c, f, received), eras, lam)
    requires deg < |lam| && Degree(lam, |lam|) == deg && |RootPositions(c, f, lam, deg)| != deg
    requires PositionSet(eras, |eras|) <= RootPositions(c, f, lam, deg)
    ensures Verdict(c, f, received, eras, received, -1, {}, lam, fix)
  {
    hide f.Size, LocatorOf, Syndromes, RootPositions, PositionSet, Degree;
  }
}
