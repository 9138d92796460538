// The construction of a control block: lib/libfec/init_rs.h.
module RsInit {
  import opened Arithmetic
  import opened Bits
  import opened GaloisField
  import opened Polynomials
  import opened Periods
  import opened Primitivity
  import opened RsCodec
  import opened Wrappers

  // Generates the lookup tables. `ok` is the source's own test that the
  // register is back at 1 after nn turns.
  method FillTables(symsize: nat, gfpoly: nat) returns (alphaTo: seq<nat>, indexOf: seq<nat>, ok: bool)
    requires symsize >= 1
    ensures var r := Register(symsize, gfpoly);
      && |alphaTo| == |indexOf| == r.Nn() + 1
      && (ok <==> r.Alpha(r.Nn()) == 1)
      && alphaTo[r.Nn()] == 0
      && (forall i :: 0 <= i < r.Nn() ==> alphaTo[i] == r.Alpha(i))
      && (r.Primitive() ==>
            && indexOf[0] == r.Nn()
            && forall i :: 0 <= i < r.Nn() ==> r.Alpha(i) <= r.Nn() && indexOf[r.Alpha(i)] == i)
  {
    hide Xor, Low, Shr;
    ghost var gf := Register(symsize, gfpoly);
    var nn := Pow2(symsize) - 1;
    assert Pow2(symsize) == 2 * Pow2(symsize - 1);
    var alpha, index := new nat[nn + 1], new nat[nn + 1];
    index[0] := nn;
    alpha[nn] := 0;
    var sr: nat := 1;
    for i := 0 to nn
      invariant sr == gf.Alpha(i) && sr <= nn
      invariant alpha[nn] == 0
      invariant forall j :: 0 <= j < i ==> alpha[j] == gf.Alpha(j)
      invariant gf.Primitive() ==> index[0] == nn
      invariant gf.Primitive() ==> forall j :: 0 <= j < i ==> gf.Alpha(j) <= nn && index[gf.Alpha(j)] == j
    {
      if gf.Primitive() {
        FreshPower(gf, i);
      }
      index[sr] := i;
      alpha[i] := sr;
      ghost var before := sr;
      sr := 2 * sr;
      if Shr(sr, symsize) % 2 == 1 {
        sr := Xor(sr, gfpoly);
      }
      sr := Low(sr, symsize);
      assert sr == gf.Step(before);
    }
    alphaTo, indexOf, ok := alpha[..], index[..], sr == 1;
  }

  // Under a primitive polynomial each turn writes a table entry of its own.
  lemma FreshPower(f: Field, i: nat)
    requires i < f.Nn()
    ensures f.Alpha(i) != 0 && forall j: nat :: j < i ==> f.Alpha(j) != f.Alpha(i)
  {
    hide f.Alpha, f.Size;
    AlphaNonzero(f, i);
    forall j: nat | j < i ensures f.Alpha(j) != f.Alpha(i) {
      AlphaInjective(f, j, i);
    }
  }

  lemma InverseTable(f: Field, indexOf: seq<nat>, x: nat)
    requires |indexOf| == f.Size() && 0 < x < f.Size()
    requires forall i :: 0 <= i < f.Nn() ==> f.Alpha(i) < f.Size() && indexOf[f.Alpha(i)] == i
    ensures indexOf[x] < f.Nn() && f.Alpha(indexOf[x]) == x
  {
    hide f.Alpha, f.Size;
    var i := Log(f, x);
    assert indexOf[f.Alpha(i)] == i;
  }

  // ---------- iprim ----------

  lemma ReduceWitness(prim: nat, nn: nat, u: nat)
    requires Divisor(prim, 1 + u * nn)
    ensures Divisor(prim, 1 + (u % prim) * nn)
  {
    var q, r := u / prim, u % prim;
    assert u == prim * q + r;
    SplitProduct(q, prim, r, nn);
    FoldModulus(1 + u * nn, q * nn, prim);
  }

  lemma SplitProduct(q: nat, prim: nat, r: nat, nn: nat)
    ensures (prim * q + r) * nn == r * nn + (q * nn) * prim
  {
    assert (prim * q) * nn == prim * (q * nn);
  }

  // The search for iprim comes to an end exactly when prim and nn have no
  // common divisor: otherwise no value of the counter is a multiple of prim.
  lemma SearchEnds(prim: nat, nn: nat)
    requires prim > 0
    ensures (exists u: nat :: Divisor(prim, 1 + u * nn)) <==> Coprime(prim, nn)
  {
    InverseExists(prim, nn);
  }

  // Parameters that pass every check of the source and on which the search
  // does not end: prim 3 with eight-bit symbols.
  lemma SearchWithoutEnd(u: nat)
    ensures InRange(8, 8, 112, 3, 32, 0) && !Divisor(3, 1 + u * 255)
  {
    Pow2OfEight();
    RemainderUnique(1 + u * 255, 3, u * 85, 1);
  }

  lemma Pow2OfEight()
    ensures Pow2(8) == 256
  {
    assert Pow2(4) == 16;
    assert Pow2(6) == 4 * Pow2(4);
    assert Pow2(8) == 4 * Pow2(6);
  }

  // The first u for which prim divides 1 + u*nn, found as the source finds it.
  method FindIprim(prim: nat, nn: nat) returns (iprim: nat)
    requires prim > 0 && nn > 0 && prim <= nn && Coprime(prim, nn)
    ensures 1 <= iprim <= nn
    ensures (iprim * prim) % nn == 1 % nn
  {
    InverseExists(prim, nn);
    ghost var w: nat :| Divisor(prim, 1 + w * nn);
    ReduceWitness(prim, nn, w);
    ghost var v := w % prim;
    ghost var u := 0;
    var ip := 1;
    while ip % prim != 0
      invariant u <= v < prim && ip == 1 + u * nn
      decreases v - u
    {
      assert (u + 1) * nn == u * nn + nn;
      ip := ip + nn;
      u := u + 1;
    }
    IprimRange(prim, nn, u, ip);
    iprim := ip / prim;
  }

  lemma IprimRange(prim: nat, nn: nat, u: nat, ip: nat)
    requires 0 < prim <= nn && u < prim && ip == 1 + u * nn && ip % prim == 0
    ensures 1 <= ip / prim <= nn && ((ip / prim) * prim) % nn == 1 % nn
  {
    var q := ip / prim;
    assert q * prim == ip;
    FoldModulus(ip, u, nn);
    if q == 0 {
      assert false;
    } else if q >= nn + 1 {
      UpperBound(prim, nn, u, q);
      assert false;
    }
  }

  lemma UpperBound(prim: nat, nn: nat, u: nat, q: nat)
    requires 0 < prim && u < prim && q >= nn + 1 && nn > 0
    ensures q * prim > 1 + u * nn
  {
    assert q * prim >= (nn + 1) * prim;
    assert (nn + 1) * prim == nn * prim + prim;
    assert u * nn <= (prim - 1) * nn;
    assert (prim - 1) * nn == nn * prim - nn;
  }

  // ---------- The generator polynomial ----------

  // genpoly[0..n], constant coefficient first, is the product of n factors.
  ghost predicate Forms(f: Field, genpoly: seq<nat>, fcr: nat, prim: nat, n: nat) {
    && n < |genpoly|
    && forall j :: 0 <= j <= n ==> genpoly[j] == Generator(f, fcr, prim, n)[n - j]
  }

  lemma GeneratorStep(f: Field, fcr: nat, prim: nat, n: nat, j: nat)
    requires j <= n + 1
    ensures Generator(f, fcr, prim, n + 1)[n + 1 - j]
         == TimesRootAt(f, Generator(f, fcr, prim, n), Root(f, fcr, prim, n), n + 1 - j)
  {
    hide TimesRootAt, Root;
    var rs, qs := Roots(f, fcr, prim, n + 1), Roots(f, fcr, prim, n);
    RootProductPrefix(f, rs, qs, n);
    assert rs[n] == Root(f, fcr, prim, n);
  }

  // Multiplies the polynomial in genpoly[0..i] by (x + alpha^root), in place.
  method TimesFactor(c: Codec, ghost f: Field, genpoly: array<nat>, i: nat, root: nat)
    requires Tables(c, f) && i + 1 < genpoly.Length
    requires root == (c.fcr + i) * c.prim
    requires Forms(f, genpoly[..], c.fcr, c.prim, i)
    modifies genpoly
    ensures Forms(f, genpoly[..], c.fcr, c.prim, i + 1)
    ensures forall j :: i + 1 < j < genpoly.Length ==> genpoly[j] == old(genpoly[j])
  {
    hide Mul, Xor, f.Alpha, f.Size, Generator;
    ghost var g := Generator(f, c.fcr, c.prim, i);
    ghost var g' := Generator(f, c.fcr, c.prim, i + 1);
    GeneratorShape(f, c.fcr, c.prim, i);
    GeneratorShape(f, c.fcr, c.prim, i + 1);
    genpoly[i + 1] := 1;
    var j := i;
    while j > 0
      invariant 0 <= j <= i
      invariant forall k :: 0 <= k <= j ==> genpoly[k] == g[i - k]
      invariant forall k :: j < k <= i + 1 ==> genpoly[k] == g'[i + 1 - k]
      invariant forall k :: i + 1 < k < genpoly.Length ==> genpoly[k] == old(genpoly[k])
    {
      GeneratorStep(f, c.fcr, c.prim, i, j);
      if genpoly[j] != 0 {
        TableOfProduct(c, f, genpoly[j], root);
        var v := Antilog(c, f, c.indexOf[genpoly[j]] + root);
        genpoly[j] := Xor(genpoly[j - 1], v);
      } else {
        MulZero(f, f.Alpha(root));
        XorZero(genpoly[j - 1]);
        genpoly[j] := genpoly[j - 1];
      }
      j := j - 1;
    }
    GeneratorStep(f, c.fcr, c.prim, i, 0);
    TableOfProduct(c, f, genpoly[0], root);
    XorZero(Mul(f, f.Alpha(root), genpoly[0]));
    var v := Antilog(c, f, c.indexOf[genpoly[0]] + root);
    genpoly[0] := v;
  }

  // The generator polynomial in index form.
  method FormGenerator(c: Codec, ghost f: Field) returns (genpoly: seq<nat>)
    requires Tables(c, f)
    ensures |genpoly| == c.nroots + 1
    ensures forall j :: 0 <= j <= c.nroots ==>
      genpoly[j] <= c.nn && c.alphaTo[genpoly[j]] == Generator(f, c.fcr, c.prim, c.nroots)[c.nroots - j]
  {
    hide Generator, f.Alpha, f.Size;
    var gp := new nat[c.nroots + 1](_ => 0);
    gp[0] := 1;
    assert Forms(f, gp[..], c.fcr, c.prim, 0) by { EmptyGenerator(f, c.fcr, c.prim); }
    var root := c.fcr * c.prim;
    for i := 0 to c.nroots
      invariant root == (c.fcr + i) * c.prim
      invariant Forms(f, gp[..], c.fcr, c.prim, i)
    {
      TimesFactor(c, f, gp, i, root);
      assert (c.fcr + i + 1) * c.prim == (c.fcr + i) * c.prim + c.prim;
      root := root + c.prim;
    }
    ghost var g := gp[..];
    GeneratorShape(f, c.fcr, c.prim, c.nroots);
    for i := 0 to c.nroots + 1
      invariant forall j :: i <= j <= c.nroots ==> gp[j] == g[j]
      invariant forall j :: 0 <= j < i ==> gp[j] <= c.nn && c.alphaTo[gp[j]] == g[j]
    {
      gp[i] := c.indexOf[gp[i]];
    }
    genpoly := gp[..];
  }

  lemma EmptyGenerator(f: Field, fcr: nat, prim: nat)
    ensures Generator(f, fcr, prim, 0) == [1]
  {
  }

  // ---------- init_rs ----------

  // What the source needs of parameters that pass its checks: a register that
  // does not come back after a proper divisor of nn turns, and a prim without
  // common divisor with nn. Without the first some table entry is never
  // written (UnwrittenLogarithm), without the second the search for iprim
  // never ends (SearchEnds).
  ghost predicate Constructible(width: nat, symsize: int, gfpoly: nat, fcr: int, prim: int, nroots: int, pad: int) {
    InRange(width, symsize, fcr, prim, nroots, pad) ==>
      var r := Register(symsize, gfpoly);
      r.Alpha(r.Nn()) == 1 ==> NoDivisorPeriod(r) && Coprime(prim, r.Nn())
  }

  method InitRs(width: nat, symsize: int, gfpoly: nat, fcr: int, prim: int, nroots: int, pad: int)
    returns (rs: Option<Codec>)
    requires Constructible(width, symsize, gfpoly, fcr, prim, nroots, pad)
    ensures rs.Some? <==>
      && 0 <= symsize <= width && 0 <= fcr < Pow2(symsize) && 1 <= prim < Pow2(symsize)
      && nroots >= 0 && pad >= 0 && Pow2(symsize) - 1 - nroots - pad >= 1
      && Register(symsize, gfpoly).Primitive()
    ensures rs.Some? ==>
      && Valid(rs.value, Register(symsize, gfpoly))
      && rs.value.nroots == nroots && rs.value.fcr == fcr && rs.value.prim == prim && rs.value.pad == pad
  {
    hide Register.Alpha, Register.Step, Generator, NoDivisorPeriod, Coprime;
    if symsize < 0 || symsize > width { return None; }
    if fcr < 0 || fcr >= Pow2(symsize) { return None; }
    if prim <= 0 || prim >= Pow2(symsize) { return None; }
    if nroots < 0 || nroots >= Pow2(symsize) { return None; }
    if pad < 0 || pad >= Pow2(symsize) - 1 - nroots { return None; }
    var nn := Pow2(symsize) - 1;
    assert symsize >= 1;
    PrimitiveTest(Register(symsize, gfpoly));
    var alphaTo, indexOf, ok := FillTables(symsize, gfpoly);
    if !ok { return None; }
    ghost var f: Field := Register(symsize, gfpoly);
    forall x | 0 < x <= nn ensures indexOf[x] < nn && f.Alpha(indexOf[x]) == x {
      InverseTable(f, indexOf, x);
    }
    var iprim := FindIprim(prim, nn);
    var c := Codec(symsize, nn, alphaTo, indexOf, [], nroots, fcr, prim, iprim, pad);
    var genpoly := FormGenerator(c, f);
    rs := Some(c.(genpoly := genpoly));
  }
}
