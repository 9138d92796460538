// The Reed-Solomon control block of lib/libfec/rs-common.h and its
// construction in lib/libfec/init_rs.h.
module RsCodec {
  import opened Arithmetic
  import opened Bits
  import opened GaloisField
  import opened Polynomials

  // struct rs: it is filled once by InitRs and never written again.
  datatype Codec = Codec(
    mm: nat, nn: nat, alphaTo: seq<nat>, indexOf: seq<nat>, genpoly: seq<nat>,
    nroots: nat, fcr: nat, prim: nat, iprim: nat, pad: nat)

  // The parameter checks of init_rs.h; `width` is the number of bits of data_t.
  predicate InRange(width: nat, symsize: int, fcr: int, prim: int, nroots: int, pad: int) {
    && 0 <= symsize <= width
    && 0 <= fcr < Pow2(symsize)
    && 0 < prim < Pow2(symsize)
    && 0 <= nroots < Pow2(symsize)
    && 0 <= pad < Pow2(symsize) - 1 - nroots
  }

  // The tables are exponentiation and discrete logarithm; index nn stands for
  // the logarithm of zero.
  ghost predicate Tables(c: Codec, f: Field) {
    && c.mm == f.m && c.nn == f.Nn() && c.nn >= 1
    && |c.alphaTo| == |c.indexOf| == c.nn + 1
    && c.alphaTo[c.nn] == 0 && c.indexOf[0] == c.nn
    && (forall i :: 0 <= i < c.nn ==> c.alphaTo[i] == f.Alpha(i))
    && (forall x :: 0 < x <= c.nn ==> c.indexOf[x] < c.nn && f.Alpha(c.indexOf[x]) == x)
  }

  // The i-th root of the generator polynomial.
  ghost function Root(f: Field, fcr: nat, prim: nat, i: nat): nat {
    f.Alpha((fcr + i) * prim)
  }

  ghost function Roots(f: Field, fcr: nat, prim: nat, n: nat): (r: seq<nat>)
    ensures |r| == n
  {
    seq(n, i requires 0 <= i < n => Root(f, fcr, prim, i))
  }

  // The product of (x + Root(i)) for i < n, leading coefficient first.
  ghost function Generator(f: Field, fcr: nat, prim: nat, n: nat): (g: seq<nat>)
    ensures |g| == n + 1
  {
    RootProduct(f, Roots(f, fcr, prim, n), n)
  }

  ghost predicate Valid(c: Codec, f: Field) {
    && Tables(c, f)
    && c.nroots + c.pad < c.nn
    && c.prim >= 1
    && 1 <= c.iprim <= c.nn && (c.iprim * c.prim) % c.nn == 1 % c.nn
    && |c.genpoly| == c.nroots + 1
    && (forall j :: 0 <= j <= c.nroots ==> c.genpoly[j] <= c.nn)
    && (forall j :: 0 <= j <= c.nroots ==>
          c.alphaTo[c.genpoly[j]] == Generator(f, c.fcr, c.prim, c.nroots)[c.nroots - j])
  }

  lemma NnIsSizeLessOne(c: Codec, f: Field)
    requires Tables(c, f)
    ensures c.nn == f.Size() - 1 && c.indexOf[0] == c.nn
    ensures forall x :: 0 <= x < f.Size() ==> (c.indexOf[x] == c.nn <==> x == 0)
  {
    hide f.Alpha;
  }

  // ---------- modnn ----------

  // Reduction modulo 2^mm - 1 by folding the high bits onto the low ones.
  method ModNn(mm: nat, nn: nat, x: nat) returns (r: nat)
    requires mm >= 1 && nn == Pow2(mm) - 1
    ensures nn >= 1 && r == x % nn
  {
    hide Shr, Low;
    assert nn >= 1 by { assert Pow2(mm) == 2 * Pow2(mm - 1); }
    r := x;
    while r >= nn
      invariant r % nn == x % nn
    {
      SubtractOnce(r, nn);
      r := r - nn;
      ShiftAndMask(r, mm);
      ghost var q := Shr(r, mm);
      assert Shr(r, mm) + Low(r, mm) == r - q * nn by {
        assert Pow2(mm) * q == q * nn + q;
      }
      FoldModulus(r, q, nn);
      r := Shr(r, mm) + Low(r, mm);
    }
    RemainderUnique(r, nn, 0, r);
  }

  // MODNN(x)
  method Reduce(c: Codec, ghost f: Field, x: nat) returns (k: nat)
    requires Tables(c, f)
    ensures k < c.nn && k == x % c.nn && f.Alpha(k) == f.Alpha(x) && c.alphaTo[k] == f.Alpha(x)
  {
    hide f.StepN;
    k := ModNn(c.mm, c.nn, x);
    AlphaMod(f, x);
  }

  // ALPHA_TO[MODNN(x)]
  method Antilog(c: Codec, ghost f: Field, x: nat) returns (v: nat)
    requires Tables(c, f)
    ensures v == f.Alpha(x)
  {
    hide f.StepN;
    var k := ModNn(c.mm, c.nn, x);
    v := c.alphaTo[k];
    AlphaMod(f, x);
  }

  // Multiplying by alpha^rt through the tables.
  lemma TableOfProduct(c: Codec, f: Field, x: nat, rt: nat)
    requires Tables(c, f) && 0 < x <= c.nn
    ensures f.Alpha(c.indexOf[x] + rt) == Mul(f, f.Alpha(rt), x)
  {
    hide f.StepN, Mul;
    MulAlphas(f, rt, c.indexOf[x]);
    assert c.indexOf[x] + rt == rt + c.indexOf[x];
  }

  // ---------- The generator polynomial ----------

  lemma RootsAreSymbols(f: Field, fcr: nat, prim: nat, n: nat)
    ensures forall i :: 0 <= i < n ==> 0 < Roots(f, fcr, prim, n)[i] < f.Size()
  {
    hide f.Alpha, f.Size;
    forall i | 0 <= i < n ensures 0 < Roots(f, fcr, prim, n)[i] < f.Size() {
      AlphaBound(f, (fcr + i) * prim);
      AlphaNonzero(f, (fcr + i) * prim);
    }
  }

  // Monic, with nonzero constant term.
  lemma GeneratorShape(f: Field, fcr: nat, prim: nat, n: nat)
    ensures var g := Generator(f, fcr, prim, n); Symbols(f, g) && g[0] == 1 && g[n] != 0
  {
    hide Root, RootProduct;
    RootsAreSymbols(f, fcr, prim, n);
    RootProductShape(f, Roots(f, fcr, prim, n), n);
  }

  // Every Root(i), i < n, is a root of the generator polynomial.
  lemma GeneratorRoots(f: Field, fcr: nat, prim: nat, n: nat, i: nat)
    requires i < n
    ensures Eval(f, Generator(f, fcr, prim, n), Root(f, fcr, prim, i), n + 1) == 0
  {
    hide Root, RootProduct, Eval;
    var rs := Roots(f, fcr, prim, n);
    assert rs[i] == Root(f, fcr, prim, i);
    RootProductRoots(f, rs, n, i);
  }
}
