// The roots of the generator polynomial, and when it reads the same from both
// ends, as that of section 4 of CCSDS 131.0-B does.
module RsGenerator {
  import opened Arithmetic
  import opened Bits
  import opened GaloisField
  import opened Polynomials
  import opened KeyEquation
  import opened ErrorEvaluator
  import opened RsCodec
  import opened RsCode

  function Reversed(p: seq<nat>): (r: seq<nat>)
    ensures |r| == |p| && forall j :: 0 <= j < |p| ==> r[j] == p[|p| - 1 - j]
  {
    seq(|p|, j requires 0 <= j < |p| => p[|p| - 1 - j])
  }

  lemma {:induction false} EvalLeading(f: Field, a: nat, p: seq<nat>, z: nat, n: nat)
    requires n <= |p| && a < f.Size()
    ensures Eval(f, [a] + p, z, n + 1) == Xor(Mul(f, a, Pow(f, z, n)), Eval(f, p, z, n))
  {
    hide Mul, Xor, f.Size;
    var q := [a] + p;
    if n == 0 {
      EvalOne(f, q, z);
      MulOne(f, a);
      XorZero(a);
    } else {
      EvalLeading(f, a, p, z, n - 1);
      var h, e := Pow(f, z, n - 1), Eval(f, p, z, n - 1);
      MulDistrib(f, z, Mul(f, a, h), e);
      MulSwap(f, z, a, h);
      XorComm(p[n - 1], Mul(f, z, e));
      XorAssoc(Mul(f, a, Mul(f, z, h)), Mul(f, z, e), p[n - 1]);
      XorComm(p[n - 1], Xor(Mul(f, a, Mul(f, z, h)), Mul(f, z, e)));
    }
  }

  // Reading a polynomial upwards is reading its reversal downwards.
  lemma {:induction false} AscendingIsReversed(f: Field, p: seq<nat>, z: nat)
    requires Symbols(f, p)
    ensures Ascending(f, p, z, |p|) == Eval(f, Reversed(p), z, |p|)
  {
    hide Mul, Xor, f.Size;
    if |p| > 0 {
      var n := |p| - 1;
      var front := p[..n];
      AscendingIsReversed(f, front, z);
      assert Reversed(p) == [p[n]] + Reversed(front);
      EvalLeading(f, p[n], Reversed(front), z, n);
      AscendingSame(f, p, front, z, n);
      XorComm(Ascending(f, p, z, n), Mul(f, p[n], Pow(f, z, n)));
    }
  }

  lemma {:induction false} AscendingSame(f: Field, p: seq<nat>, q: seq<nat>, z: nat, n: nat)
    requires n <= |p| && n <= |q| && forall j :: 0 <= j < n ==> p[j] == q[j]
    ensures Ascending(f, p, z, n) == Ascending(f, q, z, n)
  {
    hide Mul, Xor;
    if n > 0 { AscendingSame(f, p, q, z, n - 1); }
  }

  // The inverse of a root is a root of the reversal.
  lemma InverseRoot(f: Field, g: seq<nat>, x: nat, z: nat)
    requires |g| > 0 && Symbols(f, g) && 0 < x < f.Size() && 0 < z < f.Size() && Mul(f, x, z) == 1
    requires Eval(f, g, x, |g|) == 0
    ensures Eval(f, Reversed(g), z, |g|) == 0
  {
    hide Mul, Eval, Ascending, f.Size;
    var n := |g| - 1;
    AscendingIsEval(f, g, x, z, |g|);
    AscendingIsReversed(f, g, z);
    PowBound(f, x, n);
    assert Symbols(f, Reversed(g));
    EvalBound(f, Reversed(g), z, |g|);
    if Eval(f, Reversed(g), z, |g|) != 0 {
      MulNonzero(f, Pow(f, x, n), Eval(f, Reversed(g), z, |g|));
    }
  }

  // The only square root of 1 is 1.
  lemma RootOfOne(f: Field, a: nat)
    requires a < f.Size() && Mul(f, a, a) == 1
    ensures a == 1
  {
    hide Mul, Xor, f.Size;
    AlphaBound(f, 0);
    var b := Xor(a, 1);
    AddBound(f, a, 1);
    MulDistrib(f, b, a, 1);
    MulDistribRight(f, a, 1, a);
    MulOne(f, a);
    MulOne(f, b);
    XorComm(1, a);
    XorSelf(b);
    if b != 0 { MulNonzero(f, b, b); }
    XorEqZero(a, 1);
  }

  // ---------- The generator's roots ----------

  // Different positions in the list of roots hold different roots.
  lemma RootsDistinct(c: Codec, f: Field)
    requires Valid(c, f)
    ensures Locators(f, Roots(f, c.fcr, c.prim, c.nroots))
  {
    hide f.Alpha, f.Size, Tables, Generator;
    var rs := Roots(f, c.fcr, c.prim, c.nroots);
    RootsAreSymbols(f, c.fcr, c.prim, c.nroots);
    assert c.nn == f.Nn() by { TablesLength(c, f); }
    forall i, j | 0 <= i < j < c.nroots ensures rs[i] != rs[j] {
      if rs[i] == rs[j] {
        AlphaEqual(f, (c.fcr + i) * c.prim, (c.fcr + j) * c.prim);
        assert (c.fcr + i) * c.prim == c.prim * (c.fcr + i) && (c.fcr + j) * c.prim == c.prim * (c.fcr + j);
        CancelPrim(c, c.fcr + i, c.fcr + j);
        CloseResidues(c.fcr + i, j - i, c.nn);
        assert false;
      }
    }
  }

  lemma CloseResidues(a: nat, d: nat, n: nat)
    requires 0 < d < n
    ensures a % n != (a + d) % n
  {
    var r := a % n;
    AddOne(a, d, n);
    if r + d < n {
      RemainderUnique(r + d, n, 0, r + d);
    } else {
      RemainderUnique(r + d, n, 1, r + d - n);
    }
  }

  ghost function Below(n: nat): (s: set<nat>)
    ensures |s| == n && forall x: nat :: x in s <==> x < n
  {
    if n == 0 then {} else Below(n - 1) + {n - 1}
  }

  // x is the (fcr + i)*prim-th power of alpha.
  ghost predicate PowerAt(c: Codec, f: Field, x: nat, i: nat) { x == f.Alpha((c.fcr + i) * c.prim) }

  // With n different roots there is no room for another.
  lemma NoOtherRoot(f: Field, g: seq<nat>, rs: seq<nat>, x: nat)
    requires Locators(f, rs) && |g| == |rs| + 1 && Symbols(f, g) && g[0] != 0
    requires forall i :: 0 <= i < |rs| ==> Eval(f, g, rs[i], |g|) == 0
    requires x < f.Size() && Eval(f, g, x, |g|) == 0
    ensures exists i :: 0 <= i < |rs| && rs[i] == x
  {
    hide f.Size, Eval;
    if forall i :: 0 <= i < |rs| ==> rs[i] != x {
      LocatorsAtSize(f, rs, Below(|rs|));
      var all := LocatorsAt(rs, Below(|rs|)) + {x};
      assert |all| == |rs| + 1;
      RootBound(f, g, |g|, all);
      assert false;
    }
  }

  lemma ListedRoots(c: Codec, f: Field, i: nat, x: nat)
    requires i < c.nroots
    ensures var rs := Roots(f, c.fcr, c.prim, c.nroots);
      && Eval(f, Generator(f, c.fcr, c.prim, c.nroots), rs[i], c.nroots + 1) == 0
      && (PowerAt(c, f, x, i) <==> rs[i] == x)
  {
    hide f.Alpha, f.Size, Generator, Eval;
    GeneratorRoots(f, c.fcr, c.prim, c.nroots, i);
  }

  // The generator polynomial vanishes exactly at the powers of alpha with
  // exponents fcr*prim, (fcr + 1)*prim and so on, nroots of them.
  lemma RootsExactly(c: Codec, f: Field, x: nat)
    requires Valid(c, f) && x < f.Size()
    ensures Eval(f, Generator(f, c.fcr, c.prim, c.nroots), x, c.nroots + 1) == 0
       <==> exists i: nat :: i < c.nroots && PowerAt(c, f, x, i)
  {
    hide f.Alpha, f.Size, Generator, Eval, Valid, Roots, PowerAt, Locators, Symbols;
    var n, g := c.nroots, Generator(f, c.fcr, c.prim, c.nroots);
    var rs := Roots(f, c.fcr, c.prim, n);
    forall i: nat | i < n ensures Eval(f, g, rs[i], n + 1) == 0 && (PowerAt(c, f, x, i) <==> rs[i] == x) {
      ListedRoots(c, f, i, x);
    }
    GeneratorShape(f, c.fcr, c.prim, n);
    RootsDistinct(c, f);
    if Eval(f, g, x, n + 1) == 0 {
      NoOtherRoot(f, g, rs, x);
    }
  }

  // Roots at the same distance from both ends of the list are inverse.
  lemma MirroredRoots(c: Codec, f: Field, i: nat)
    requires Valid(c, f) && i < c.nroots && (c.prim * (2 * c.fcr + c.nroots - 1)) % c.nn == 0
    ensures Mul(f, Root(f, c.fcr, c.prim, c.nroots - 1 - i), Root(f, c.fcr, c.prim, i)) == 1
  {
    hide f.Alpha, f.Size, Tables, Generator, Mul;
    assert c.nn == f.Nn() by { TablesLength(c, f); }
    var j := c.nroots - 1 - i;
    MulAlphas(f, (c.fcr + j) * c.prim, (c.fcr + i) * c.prim);
    assert (c.fcr + j) * c.prim + (c.fcr + i) * c.prim == c.prim * (2 * c.fcr + c.nroots - 1);
    AlphaMod(f, c.prim * (2 * c.fcr + c.nroots - 1));
    AlphaZero(f);
  }

  // The reversal has the generator's roots.
  lemma ReversedRoots(c: Codec, f: Field, i: nat)
    requires Valid(c, f) && i < c.nroots && (c.prim * (2 * c.fcr + c.nroots - 1)) % c.nn == 0
    ensures var g := Generator(f, c.fcr, c.prim, c.nroots);
      Eval(f, Reversed(g), Root(f, c.fcr, c.prim, i), c.nroots + 1) == 0
  {
    hide f.Size, Generator, Mul, Eval, Root, Valid;
    var j := c.nroots - 1 - i;
    GeneratorShape(f, c.fcr, c.prim, c.nroots);
    RootsAreSymbols(f, c.fcr, c.prim, c.nroots);
    var rs := Roots(f, c.fcr, c.prim, c.nroots);
    assert rs[i] == Root(f, c.fcr, c.prim, i) && rs[j] == Root(f, c.fcr, c.prim, j);
    MirroredRoots(c, f, i);
    GeneratorRoots(f, c.fcr, c.prim, c.nroots, j);
    InverseRoot(f, Generator(f, c.fcr, c.prim, c.nroots), rs[j], rs[i]);
  }

  // A polynomial without leading coefficient that has all the roots is zero.
  lemma LeadingZero(f: Field, d: seq<nat>, xs: seq<nat>)
    requires Locators(f, xs) && |d| == |xs| + 1 && Symbols(f, d) && d[0] == 0
    requires forall i :: 0 <= i < |xs| ==> Eval(f, d, xs[i], |d|) == 0
    ensures AllZero(d)
  {
    hide Eval, f.Size, Locators;
    var ps := Below(|xs|);
    assert d == [0] + d[1..];
    forall p | p in ps ensures p < |xs| && Eval(f, d[1..], xs[p], |d| - 1) == 0 {
      EvalPrepended(f, d[1..], xs[p], |d| - 1);
    }
    ManyRoots(f, d[1..], xs, ps);
    forall i | 0 <= i < |d| ensures d[i] == 0 {
      if i > 0 { assert d[i] == d[1..][i - 1]; }
    }
  }

  // If the exponents of the roots lie symmetrically about a multiple of nn,
  // the generator polynomial is its own reversal.
  lemma Palindromic(c: Codec, f: Field)
    requires Valid(c, f) && (c.prim * (2 * c.fcr + c.nroots - 1)) % c.nn == 0
    ensures var g := Generator(f, c.fcr, c.prim, c.nroots); Reversed(g) == g
  {
    hide f.Size, Generator, Mul, Eval, Root, Valid, Xor;
    var n, g := c.nroots, Generator(f, c.fcr, c.prim, c.nroots);
    var h, a := Reversed(g), g[n];
    GeneratorShape(f, c.fcr, c.prim, n);
    RootsDistinct(c, f);
    var rs := Roots(f, c.fcr, c.prim, n);
    var d := seq(n + 1, j requires 0 <= j <= n => Xor(h[j], Mul(f, a, g[j])));
    forall j | 0 <= j <= n ensures d[j] < f.Size() { AddBound(f, h[j], Mul(f, a, g[j])); }
    MulOne(f, a);
    XorSelf(a);
    forall i | 0 <= i < n ensures Eval(f, d, rs[i], n + 1) == 0 {
      assert rs[i] == Root(f, c.fcr, c.prim, i);
      EvalLinear(f, d, h, a, g, rs[i], n + 1);
      ReversedRoots(c, f, i);
      GeneratorRoots(f, c.fcr, c.prim, n, i);
      MulZero(f, a);
      XorZero(0);
    }
    LeadingZero(f, d, rs);
    forall j | 0 <= j <= n ensures h[j] == Mul(f, a, g[j]) {
      assert d[j] == 0;
      XorEqZero(h[j], Mul(f, a, g[j]));
    }
    assert h[n] == g[0] == 1;
    RootOfOne(f, a);
    forall j | 0 <= j <= n ensures h[j] == g[j] { MulOne(f, g[j]); }
  }

  lemma IndexOfCoefficient(c: Codec, f: Field, j: nat)
    requires Valid(c, f) && j <= c.nroots
    ensures c.genpoly[j] < f.Nn() && f.Alpha(c.genpoly[j]) == Generator(f, c.fcr, c.prim, c.nroots)[c.nroots - j]
  {
    hide f.Size, f.Alpha, Generator;
    GeneratorFullWeight(c, f);
  }

  // The same in the index form the encoder uses.
  lemma PalindromicIndices(c: Codec, f: Field, j: nat)
    requires Valid(c, f) && j <= c.nroots && (c.prim * (2 * c.fcr + c.nroots - 1)) % c.nn == 0
    ensures |c.genpoly| == c.nroots + 1 && c.genpoly[j] == c.genpoly[c.nroots - j]
  {
    hide f.Size, f.Alpha, Generator, Tables;
    assert |c.genpoly| == c.nroots + 1;
    hide Valid;
    Palindromic(c, f);
    IndexOfCoefficient(c, f, j);
    IndexOfCoefficient(c, f, c.nroots - j);
    var g := Generator(f, c.fcr, c.prim, c.nroots);
    assert Reversed(g)[j] == g[c.nroots - j];
    var p, q := c.genpoly[j], c.genpoly[c.nroots - j];
    if p < q { AlphaInjective(f, p, q); } else if q < p { AlphaInjective(f, q, p); }
  }
}
