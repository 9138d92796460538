// The Reed-Solomon code the control block describes: blocks whose syndromes
// all vanish, and how many symbol errors the syndromes are sure to detect.
module RsCode {
  import opened Arithmetic
  import opened Bits
  import opened GaloisField
  import opened Polynomials
  import opened RsCodec
  import opened KeyEquation

  // The value of the received polynomial at the i-th root of the generator.
  ghost function Syndrome(c: Codec, f: Field, d: seq<nat>, i: nat): nat {
    Eval(f, d, Root(f, c.fcr, c.prim, i), |d|)
  }

  ghost predicate Block(c: Codec, f: Field, d: seq<nat>) {
    |d| + c.pad == c.nn && Symbols(f, d)
  }

  ghost predicate Codeword(c: Codec, f: Field, d: seq<nat>) {
    && Block(c, f, d)
    && forall i :: 0 <= i < c.nroots ==> Syndrome(c, f, d, i) == 0
  }

  // The locator of position p, pad included: alpha^(prim*(nn-1-p)).
  ghost function Locator(c: Codec, f: Field, p: nat): nat
    requires p < c.nn
  {
    var back: nat := c.nn - 1 - p;
    f.Alpha(c.prim * back)
  }

  ghost function CodeLocators(c: Codec, f: Field): (xs: seq<nat>)
    ensures |xs| == c.nn
  {
    seq(c.nn, p requires 0 <= p < c.nn => Locator(c, f, p))
  }

  // Error values scaled by the fcr-th power of their locators.
  ghost function Scaled(c: Codec, f: Field, e: seq<nat>): (y: seq<nat>)
    requires |e| == c.nn
    ensures |y| == c.nn && Symbols(f, y)
  {
    seq(c.nn, p requires 0 <= p < c.nn => Mul(f, e[p], Pow(f, Locator(c, f, p), c.fcr)))
  }

  ghost function Zeros(n: nat): (z: seq<nat>)
    ensures |z| == n && forall i :: 0 <= i < n ==> z[i] == 0
  {
    seq(n, _ => 0)
  }

  // A shortened block with its pad symbols restored.
  ghost function Full(c: Codec, d: seq<nat>): (r: seq<nat>)
    ensures |r| == c.pad + |d|
  {
    Zeros(c.pad) + d
  }

  ghost function Difference(a: seq<nat>, b: seq<nat>): (e: seq<nat>)
    requires |a| == |b|
    ensures |e| == |a|
  {
    seq(|a|, i requires 0 <= i < |a| => Xor(a[i], b[i]))
  }

  // ---------- Locators are distinct ----------

  lemma CancelPrim(c: Codec, i: nat, j: nat)
    requires c.nn >= 1 && (c.iprim * c.prim) % c.nn == 1 % c.nn
    requires (c.prim * i) % c.nn == (c.prim * j) % c.nn
    ensures i % c.nn == j % c.nn
  {
    ScaleMod(c.prim * i, c.prim * j, c.iprim, c.nn);
    ScaleMod(c.iprim * c.prim, 1, i, c.nn);
    ScaleMod(c.iprim * c.prim, 1, j, c.nn);
    assert c.iprim * (c.prim * i) == i * (c.iprim * c.prim);
    assert c.iprim * (c.prim * j) == j * (c.iprim * c.prim);
  }

  lemma LocatorNonzero(c: Codec, f: Field, p: nat)
    requires p < c.nn
    ensures 0 < Locator(c, f, p) < f.Size()
  {
    hide f.Alpha, f.Size;
    var a: nat := c.nn - 1 - p;
    AlphaBound(f, c.prim * a);
    AlphaNonzero(f, c.prim * a);
  }

  lemma LocatorInjective(c: Codec, f: Field, p: nat, q: nat)
    requires Valid(c, f) && p < c.nn && q < c.nn
    requires Locator(c, f, p) == Locator(c, f, q)
    ensures p == q
  {
    hide f.Alpha, f.Size, Tables;
    var a: nat, b: nat := c.nn - 1 - p, c.nn - 1 - q;
    var i, j := c.prim * a, c.prim * b;
    assert c.nn == f.Nn() by { TablesLength(c, f); }
    AlphaEqual(f, i, j);
    CancelPrim(c, a, b);
    RemainderUnique(a, c.nn, 0, a);
    RemainderUnique(b, c.nn, 0, b);
  }

  lemma TablesLength(c: Codec, f: Field)
    requires Tables(c, f)
    ensures c.nn == f.Nn()
  {
  }

  lemma LocatorsDistinct(c: Codec, f: Field)
    requires Valid(c, f)
    ensures Locators(f, CodeLocators(c, f))
  {
    hide Locator, Valid, f.Size;
    var xs := CodeLocators(c, f);
    forall p | 0 <= p < c.nn ensures 0 < xs[p] < f.Size() {
      LocatorNonzero(c, f, p);
    }
    forall p, q | 0 <= p < q < c.nn ensures xs[p] != xs[q] {
      if xs[p] == xs[q] { LocatorInjective(c, f, p, q); }
    }
  }

  // ---------- Syndromes as power sums ----------

  lemma TermOfSyndrome(c: Codec, f: Field, e: nat, p: nat, k: nat)
    requires p < c.nn
    ensures Mul(f, Mul(f, e, Pow(f, Locator(c, f, p), c.fcr)), Pow(f, Locator(c, f, p), k))
         == Mul(f, e, Pow(f, Root(f, c.fcr, c.prim, k), c.nn - 1 - p))
  {
    hide f.Alpha, Mul, Pow, f.Size;
    var a: nat, x := c.nn - 1 - p, Locator(c, f, p);
    LocatorNonzero(c, f, p);
    MulAssoc(f, e, Pow(f, x, c.fcr), Pow(f, x, k));
    PowAdd(f, x, c.fcr, k);
    PowOfAlpha(f, c.prim * a, c.fcr + k);
    PowOfAlpha(f, (c.fcr + k) * c.prim, a);
    assert (c.prim * a) * (c.fcr + k) == ((c.fcr + k) * c.prim) * a;
  }

  lemma {:induction false} PrefixAsPowerSum(c: Codec, f: Field, e: seq<nat>, k: nat, n: nat)
    requires |e| == c.nn && n <= c.nn && Symbols(f, e)
    ensures var x := Root(f, c.fcr, c.prim, k);
      Mul(f, Pow(f, x, c.nn - n), Eval(f, e, x, n)) == PowerSum(f, Scaled(c, f, e), CodeLocators(c, f), k, n)
  {
    hide f.Alpha, Mul, Xor, f.Size;
    var x := Root(f, c.fcr, c.prim, k);
    var h := Pow(f, x, c.nn - n);
    if n == 0 {
      MulZero(f, h);
    } else {
      PrefixAsPowerSum(c, f, e, k, n - 1);
      var g := Eval(f, e, x, n - 1);
      MulDistrib(f, h, e[n - 1], Mul(f, x, g));
      MulSwap(f, h, x, g);
      MulAssoc(f, x, h, g);
      assert Pow(f, x, c.nn - (n - 1)) == Mul(f, x, h);
      TermOfSyndrome(c, f, e[n - 1], n - 1, k);
      MulComm(f, h, e[n - 1]);
      XorComm(Mul(f, h, e[n - 1]), Mul(f, h, Mul(f, x, g)));
    }
  }

  lemma FullAsPowerSum(c: Codec, f: Field, e: seq<nat>, k: nat)
    requires |e| == c.nn && Symbols(f, e)
    ensures Eval(f, e, Root(f, c.fcr, c.prim, k), c.nn) == PowerSum(f, Scaled(c, f, e), CodeLocators(c, f), k, c.nn)
  {
    hide f.Alpha, Mul, Eval, f.Size, PowerSum;
    var x := Root(f, c.fcr, c.prim, k);
    PrefixAsPowerSum(c, f, e, k, c.nn);
    assert Pow(f, x, 0) == 1;
    EvalBound(f, e, x, c.nn);
    MulOne(f, Eval(f, e, x, c.nn));
  }

  // Pad symbols contribute nothing to a syndrome.
  lemma {:induction false} EvalLeadingZeros(f: Field, z: seq<nat>, d: seq<nat>, x: nat, n: nat)
    requires n <= |d| && forall i :: 0 <= i < |z| ==> z[i] == 0
    ensures Eval(f, z + d, x, |z| + n) == Eval(f, d, x, n)
  {
    hide Mul, Xor;
    if n == 0 {
      EvalOfZeros(f, z + d, x, |z|);
    } else {
      EvalLeadingZeros(f, z, d, x, n - 1);
    }
  }

  lemma SyndromeOfFull(c: Codec, f: Field, d: seq<nat>, i: nat)
    requires Block(c, f, d)
    ensures Syndrome(c, f, d, i) == Eval(f, Full(c, d), Root(f, c.fcr, c.prim, i), c.nn)
  {
    hide Eval, Root;
    EvalLeadingZeros(f, Zeros(c.pad), d, Root(f, c.fcr, c.prim, i), |d|);
  }

  lemma {:induction false} EvalDifference(f: Field, a: seq<nat>, b: seq<nat>, x: nat, n: nat)
    requires n <= |a| == |b|
    ensures Eval(f, Difference(a, b), x, n) == Xor(Eval(f, a, x, n), Eval(f, b, x, n))
  {
    hide Mul, Xor;
    if n == 0 {
      XorZero(0);
    } else {
      EvalDifference(f, a, b, x, n - 1);
      var ea, eb := Eval(f, a, x, n - 1), Eval(f, b, x, n - 1);
      MulDistrib(f, x, ea, eb);
      XorSwap(a[n - 1], b[n - 1], Mul(f, x, ea), Mul(f, x, eb));
    }
  }

  lemma DifferenceSymbols(f: Field, a: seq<nat>, b: seq<nat>)
    requires |a| == |b| && Symbols(f, a) && Symbols(f, b)
    ensures Symbols(f, Difference(a, b))
  {
    hide Xor;
    forall i | 0 <= i < |a| ensures Difference(a, b)[i] < f.Size() {
      XorBound(a[i], b[i], f.m);
    }
  }

  // The errors of a received block, in full-length numbering.
  ghost function ErrorVector(c: Codec, sent: seq<nat>, received: seq<nat>): (e: seq<nat>)
    requires |sent| == |received|
    ensures |e| == c.pad + |sent|
  {
    Full(c, Difference(received, sent))
  }

  // The syndromes of a received block are those of its error vector.
  lemma SyndromeOfErrors(c: Codec, f: Field, sent: seq<nat>, received: seq<nat>, i: nat)
    requires Codeword(c, f, sent) && Block(c, f, received) && i < c.nroots
    ensures Symbols(f, ErrorVector(c, sent, received))
    ensures Syndrome(c, f, received, i)
         == PowerSum(f, Scaled(c, f, ErrorVector(c, sent, received)), CodeLocators(c, f), i, c.nn)
  {
    hide Eval, Root, PowerSum, Xor, f.Size;
    var x := Root(f, c.fcr, c.prim, i);
    var d := Difference(received, sent);
    DifferenceSymbols(f, received, sent);
    AlphaBound(f, 0);
    EvalDifference(f, received, sent, x, |received|);
    assert Syndrome(c, f, sent, i) == 0;
    XorZero(Syndrome(c, f, received, i));
    SyndromeOfFull(c, f, d, i);
    FullAsPowerSum(c, f, Full(c, d), i);
  }

  // ---------- The minimum distance ----------

  lemma ScaledNonzero(c: Codec, f: Field, e: seq<nat>, p: nat)
    requires |e| == c.nn && p < c.nn && Symbols(f, e)
    ensures Scaled(c, f, e)[p] == 0 <==> e[p] == 0
  {
    hide Locator, Mul, Pow, f.Size;
    var x := Locator(c, f, p);
    LocatorNonzero(c, f, p);
    PowBound(f, x, c.fcr);
    MulZero(f, Pow(f, x, c.fcr));
    if e[p] != 0 { MulNonzero(f, e[p], Pow(f, x, c.fcr)); }
  }

  // A block with at most n nonzero symbols whose first n syndromes vanish is
  // zero.
  lemma MinimumDistance(c: Codec, f: Field, e: seq<nat>, n: nat)
    requires Valid(c, f) && |e| == c.nn && Symbols(f, e) && Weight(e, c.nn) <= n
    requires forall i :: 0 <= i < n ==> Eval(f, e, Root(f, c.fcr, c.prim, i), c.nn) == 0
    ensures forall p :: 0 <= p < c.nn ==> e[p] == 0
  {
    hide Eval, Root, PowerSum, Mul, Weight, f.Size;
    var y, xs := Scaled(c, f, e), CodeLocators(c, f);
    LocatorsDistinct(c, f);
    forall p | 0 <= p < c.nn ensures y[p] == 0 <==> e[p] == 0 {
      ScaledNonzero(c, f, e, p);
    }
    WeightMonotone(y, e, c.nn);
    forall k | 0 <= k < 0 + n ensures PowerSum(f, y, xs, k, c.nn) == 0 {
      FullAsPowerSum(c, f, e, k);
    }
    Vandermonde(f, y, xs, 0, n, c.nn);
  }

  // Number of positions in which two blocks differ.
  ghost function Distance(a: seq<nat>, b: seq<nat>): nat
    requires |a| == |b|
  {
    Weight(Difference(a, b), |a|)
  }

  lemma {:induction false} WeightOfFull(z: seq<nat>, d: seq<nat>, n: nat)
    requires n <= |d| && forall i :: 0 <= i < |z| ==> z[i] == 0
    ensures Weight(z + d, |z| + n) == Weight(d, n)
  {
    if n == 0 {
      WeightOfZeros(z + d, |z|);
    } else {
      WeightOfFull(z, d, n - 1);
    }
  }

  lemma {:induction false} WeightOfZeros(z: seq<nat>, n: nat)
    requires n <= |z| && forall i :: 0 <= i < n ==> z[i] == 0
    ensures Weight(z, n) == 0
  {
    if n > 0 { WeightOfZeros(z, n - 1); }
  }

  // Up to nroots wrong symbols always leave a nonzero syndrome.
  lemma Detection(c: Codec, f: Field, sent: seq<nat>, received: seq<nat>)
    requires Valid(c, f) && Codeword(c, f, sent) && Block(c, f, received)
    requires Distance(received, sent) <= c.nroots
    requires forall i :: 0 <= i < c.nroots ==> Syndrome(c, f, received, i) == 0
    ensures received == sent
  {
    hide Eval, Root, Xor, Weight, f.Size;
    var d := Difference(received, sent);
    var e := Full(c, d);
    DifferenceSymbols(f, received, sent);
    AlphaBound(f, 0);
    WeightOfFull(Zeros(c.pad), d, |d|);
    forall i | 0 <= i < c.nroots ensures Eval(f, e, Root(f, c.fcr, c.prim, i), c.nn) == 0 {
      var x := Root(f, c.fcr, c.prim, i);
      EvalDifference(f, received, sent, x, |received|);
      assert Syndrome(c, f, sent, i) == 0 && Syndrome(c, f, received, i) == 0;
      XorZero(0);
      SyndromeOfFull(c, f, d, i);
    }
    MinimumDistance(c, f, e, c.nroots);
    forall i | 0 <= i < |sent| ensures received[i] == sent[i] {
      assert e[c.pad + i] == 0;
      XorEqZero(received[i], sent[i]);
    }
  }

  // ---------- The generator polynomial has full weight ----------

  // No coefficient of the generator polynomial is zero, so its index form
  // never holds the marker nn.
  lemma GeneratorFullWeight(c: Codec, f: Field)
    requires Valid(c, f)
    ensures forall j :: 0 <= j <= c.nroots ==> Generator(f, c.fcr, c.prim, c.nroots)[j] != 0
    ensures forall j :: 0 <= j <= c.nroots ==> c.genpoly[j] < c.nn
  {
    hide Eval, Root, Generator, Weight, f.Alpha, f.Size;
    var g := Generator(f, c.fcr, c.prim, c.nroots);
    GeneratorShape(f, c.fcr, c.prim, c.nroots);
    var z := Zeros(c.nn - 1 - c.nroots);
    var e := z + g;
    AlphaBound(f, 0);
    forall j | 0 <= j <= c.nroots ensures g[j] != 0 {
      if g[j] == 0 {
        WeightOfFull(z, g, |g|);
        WeightBelow(g, |g|, j);
        forall i | 0 <= i < c.nroots ensures Eval(f, e, Root(f, c.fcr, c.prim, i), c.nn) == 0 {
          EvalLeadingZeros(f, z, g, Root(f, c.fcr, c.prim, i), |g|);
          GeneratorRoots(f, c.fcr, c.prim, c.nroots, i);
        }
        assert e[|z|] == g[0];
        MinimumDistance(c, f, e, c.nroots);
        assert false;
      }
    }
    forall j | 0 <= j <= c.nroots ensures c.genpoly[j] < c.nn {
      assert c.alphaTo[c.genpoly[j]] == g[c.nroots - j];
    }
  }

  lemma {:induction false} WeightBelow(u: seq<nat>, n: nat, j: nat)
    requires j < n <= |u| && u[j] == 0
    ensures Weight(u, n) <= n - 1
  {
    if j < n - 1 { WeightBelow(u, n - 1, j); }
  }
}
