// The first half of lib/libfec/decode_rs.h: syndromes, the erasure locator
// and the Berlekamp-Massey loop.
module RsLocator {
  import opened Bits
  import opened GaloisField
  import opened Polynomials
  import opened RsCodec
  import opened RsCode

  // An array in index form: idx[i] is the table entry of p[i].
  ghost predicate IndexForm(c: Codec, idx: seq<nat>, p: seq<nat>) {
    && |idx| == |p|
    && forall i :: 0 <= i < |p| ==> p[i] < |c.indexOf| && idx[i] == c.indexOf[p[i]]
  }

  lemma IndexFormZero(c: Codec, f: Field, idx: seq<nat>, p: seq<nat>, i: nat)
    requires Tables(c, f) && IndexForm(c, idx, p) && i < |p|
    ensures idx[i] <= c.nn && p[i] <= c.nn
    ensures idx[i] == c.nn <==> p[i] == 0
    ensures p[i] != 0 ==> f.Alpha(idx[i]) == p[i]
  {
    hide f.Alpha, f.Size;
  }

  // ALPHA_TO[MODNN(INDEX_OF[a] + INDEX_OF[b])] for two nonzero symbols.
  lemma ProductOfIndices(c: Codec, f: Field, a: nat, b: nat)
    requires Tables(c, f) && 0 < a <= c.nn && 0 < b <= c.nn
    ensures f.Alpha(c.indexOf[a] + c.indexOf[b]) == Mul(f, a, b)
  {
    hide f.Alpha, f.Size, Mul;
    MulAlphas(f, c.indexOf[a], c.indexOf[b]);
  }

  // ---------- Syndromes ----------

  method ComputeSyndromes(c: Codec, ghost f: Field, data: array<nat>, s: array<nat>)
    requires Valid(c, f) && Block(c, f, data[..]) && s.Length == c.nroots && s != data
    modifies s
    ensures forall i :: 0 <= i < c.nroots ==> s[i] == Syndrome(c, f, data[..], i)
    ensures Symbols(f, s[..])
  {
    hide f.Alpha, f.Size, Eval;
    ghost var d := data[..];
    for i := 0 to c.nroots
      invariant forall k :: 0 <= k < i ==> s[k] == data[0]
    {
      s[i] := data[0];
    }
    forall i | 0 <= i < c.nroots ensures s[i] == Eval(f, d, Root(f, c.fcr, c.prim, i), 1) {
      EvalOne(f, d, Root(f, c.fcr, c.prim, i));
    }
    for j := 1 to c.nn - c.pad
      invariant forall i :: 0 <= i < c.nroots ==> s[i] == Eval(f, d, Root(f, c.fcr, c.prim, i), j)
    {
      AddSymbol(c, f, d, j, data[j], s);
    }
    forall i | 0 <= i < c.nroots ensures s[i] < f.Size() {
      EvalBound(f, d, Root(f, c.fcr, c.prim, i), |d|);
    }
  }

  // One symbol of Horner's rule in every syndrome.
  method AddSymbol(c: Codec, ghost f: Field, ghost d: seq<nat>, ghost j: nat, dj: nat, s: array<nat>)
    requires Tables(c, f) && s.Length == c.nroots && Symbols(f, d)
    requires 0 < j < |d| && dj == d[j]
    requires forall i :: 0 <= i < c.nroots ==> s[i] == Eval(f, d, Root(f, c.fcr, c.prim, i), j)
    modifies s
    ensures forall i :: 0 <= i < c.nroots ==> s[i] == Eval(f, d, Root(f, c.fcr, c.prim, i), j + 1)
  {
    hide f.Alpha, f.Size, Eval;
    for i := 0 to c.nroots
      invariant forall k :: 0 <= k < i ==> s[k] == Eval(f, d, Root(f, c.fcr, c.prim, k), j + 1)
      invariant forall k :: i <= k < c.nroots ==> s[k] == Eval(f, d, Root(f, c.fcr, c.prim, k), j)
    {
      HornerStep(c, f, d, j, i, s[i]);
      if s[i] == 0 {
        s[i] := dj;
      } else {
        var v := Antilog(c, f, c.indexOf[s[i]] + (c.fcr + i) * c.prim);
        s[i] := Xor(dj, v);
      }
    }
  }

  lemma HornerStep(c: Codec, f: Field, d: seq<nat>, j: nat, i: nat, e: nat)
    requires Tables(c, f) && Symbols(f, d) && j < |d|
    requires e == Eval(f, d, Root(f, c.fcr, c.prim, i), j)
    ensures e <= c.nn
    ensures e == 0 ==> Eval(f, d, Root(f, c.fcr, c.prim, i), j + 1) == d[j]
    ensures e != 0 ==>
      Eval(f, d, Root(f, c.fcr, c.prim, i), j + 1) == Xor(d[j], f.Alpha(c.indexOf[e] + (c.fcr + i) * c.prim))
  {
    hide f.Alpha, Mul, Xor;
    var x := Root(f, c.fcr, c.prim, i);
    EvalBound(f, d, x, j);
    if e == 0 {
      MulZero(f, x);
      XorZero(d[j]);
    } else {
      TableOfProduct(c, f, e, (c.fcr + i) * c.prim);
    }
  }

  // Converts an array of symbols to index form; the result says whether any
  // symbol was nonzero.
  method ToIndexForm(c: Codec, ghost f: Field, a: array<nat>) returns (nonzero: bool)
    requires Tables(c, f) && Symbols(f, a[..])
    modifies a
    ensures IndexForm(c, a[..], old(a[..]))
    ensures nonzero <==> exists i :: 0 <= i < a.Length && old(a[i]) != 0
  {
    hide f.Alpha;
    ghost var p := a[..];
    nonzero := false;
    for i := 0 to a.Length
      invariant nonzero <==> exists k :: 0 <= k < i && p[k] != 0
      invariant forall k :: 0 <= k < i ==> a[k] == c.indexOf[p[k]]
      invariant forall k :: i <= k < a.Length ==> a[k] == p[k]
    {
      nonzero := nonzero || a[i] != 0;
      a[i] := c.indexOf[a[i]];
    }
  }

  // ---------- The erasure locator ----------

  ghost function ErasureLocators(c: Codec, f: Field, eras: seq<nat>): (xs: seq<nat>)
    requires forall i :: 0 <= i < |eras| ==> eras[i] < c.nn
    ensures |xs| == |eras|
  {
    seq(|eras|, i requires 0 <= i < |eras| => Locator(c, f, eras[i]))
  }

  // lam[0..n] is the product of the first n erasure factors; the rest is zero.
  ghost predicate Locates(f: Field, lam: seq<nat>, xs: seq<nat>, n: nat) {
    && n <= |xs| && n < |lam|
    && (forall j :: 0 <= j <= n ==> lam[j] == RootProduct(f, xs, n)[j])
    && (forall j :: n < j < |lam| ==> lam[j] == 0)
  }

  // Multiplies the locator by one more factor, highest coefficient first.
  method TimesErasure(c: Codec, ghost f: Field, lambda: array<nat>, u: nat, ghost xs: seq<nat>, i: nat)
    requires Tables(c, f) && i < |xs| && i + 1 < lambda.Length
    requires forall k :: 0 <= k < |xs| ==> 0 < xs[k] < f.Size()
    requires Locates(f, lambda[..], xs, i) && f.Alpha(u) == xs[i]
    modifies lambda
    ensures Locates(f, lambda[..], xs, i + 1)
  {
    hide f.Alpha, Mul, Xor, RootProduct;
    ghost var p, q := RootProduct(f, xs, i), RootProduct(f, xs, i + 1);
    RootProductShape(f, xs, i);
    assert q == TimesRoot(f, p, xs[i]) by { RootProductUnfold(f, xs, i); }
    var j := i + 1;
    while j > 0
      invariant 0 <= j <= i + 1
      invariant forall k :: 0 <= k <= j && k <= i ==> lambda[k] == p[k]
      invariant j == i + 1 ==> lambda[i + 1] == 0
      invariant forall k :: j < k <= i + 1 ==> lambda[k] == q[k]
      invariant forall k :: i + 1 < k < lambda.Length ==> lambda[k] == 0
    {
      assert q[j] == TimesRootAt(f, p, xs[i], j);
      assert lambda[j - 1] == p[j - 1];
      var tmp := c.indexOf[lambda[j - 1]];
      if tmp != c.nn {
        TableOfProduct(c, f, lambda[j - 1], u);
        var v := Antilog(c, f, u + tmp);
        assert u + tmp == tmp + u;
        lambda[j] := Xor(lambda[j], v);
      } else {
        MulZero(f, xs[i]);
        XorZero(lambda[j]);
      }
      j := j - 1;
    }
    assert q[0] == TimesRootAt(f, p, xs[i], 0);
    XorZero(p[0]);
  }

  lemma RootProductUnfold(f: Field, xs: seq<nat>, n: nat)
    requires n < |xs|
    ensures RootProduct(f, xs, n + 1) == TimesRoot(f, RootProduct(f, xs, n), xs[n])
  {
  }

  // MODNN(PRIM * (NN - 1 - pos))
  method ErasureLog(c: Codec, ghost f: Field, pos: nat) returns (u: nat)
    requires Tables(c, f) && pos < c.nn
    ensures u < c.nn && c.alphaTo[u] == f.Alpha(u) == Locator(c, f, pos)
  {
    hide f.Alpha;
    var back: nat := c.nn - 1 - pos;
    u := ModNn(c.mm, c.nn, c.prim * back);
    AlphaMod(f, c.prim * back);
  }

  // The locator loop builds the product of (1 + x*alpha^(prim*(nn-1-pos))).
  method InitLocator(c: Codec, ghost f: Field, lambda: array<nat>, eras: seq<nat>)
    requires Tables(c, f) && |eras| < lambda.Length
    requires forall i :: 0 <= i < |eras| ==> eras[i] < c.nn
    modifies lambda
    ensures Locates(f, lambda[..], ErasureLocators(c, f, eras), |eras|)
  {
    hide f.Alpha, f.Size, Mul, Xor, RootProduct;
    ghost var xs := ErasureLocators(c, f, eras);
    for i := 1 to lambda.Length
      invariant forall k :: 1 <= k < i ==> lambda[k] == 0
    {
      lambda[i] := 0;
    }
    lambda[0] := 1;
    assert RootProduct(f, xs, 0) == [1] by { EmptyProduct(f, xs); }
    forall k | 0 <= k < |xs| ensures 0 < xs[k] < f.Size() {
      LocatorNonzero(c, f, eras[k]);
    }
    if |eras| > 0 {
      // The first factor needs no loop: lambda[1] takes the locator itself.
      FirstErasure(c, f, xs);
      var u0 := ErasureLog(c, f, eras[0]);
      lambda[1] := c.alphaTo[u0];
      for i := 1 to |eras|
        invariant Locates(f, lambda[..], xs, i)
      {
        var u := ErasureLog(c, f, eras[i]);
        TimesErasure(c, f, lambda, u, xs, i);
      }
    }
  }

  lemma EmptyProduct(f: Field, xs: seq<nat>)
    ensures RootProduct(f, xs, 0) == [1]
  {
  }

  lemma FirstErasure(c: Codec, f: Field, xs: seq<nat>)
    requires |xs| > 0 && 0 < xs[0] < f.Size()
    ensures RootProduct(f, xs, 1) == [1, xs[0]]
  {
    hide f.Size, Mul, Xor;
    RootProductUnfold(f, xs, 0);
    var p := RootProduct(f, xs, 0);
    XorZero(1);
    XorZero(Mul(f, xs[0], 1));
    MulOne(f, xs[0]);
    assert TimesRootAt(f, p, xs[0], 0) == 1;
    assert TimesRootAt(f, p, xs[0], 1) == xs[0];
  }
}
