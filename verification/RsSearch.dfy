// The Chien search of lib/libfec/decode_rs.h: roots of the locator, found by
// stepping every power of alpha.
module RsSearch {
  import opened Arithmetic
  import opened Bits
  import opened GaloisField
  import opened Polynomials
  import opened ErrorEvaluator
  import opened RsCodec
  import opened RsCode
  import opened RsLocator

  // The exponent i, 1..nn, at which the search meets position p.
  ghost function RootIndex(c: Codec, p: nat): nat
    requires c.nn >= 1
  {
    var i := (c.prim * (p + 1)) % c.nn;
    if i == 0 then c.nn else i
  }

  lemma RootIndexOf(c: Codec, i: nat, k: nat)
    requires c.nn >= 1 && (c.iprim * c.prim) % c.nn == 1 % c.nn
    requires 1 <= i <= c.nn && (k + 1) % c.nn == (i * c.iprim) % c.nn
    ensures RootIndex(c, k) == i && (c.prim * (k + 1)) % c.nn == i % c.nn
  {
    var n := c.nn;
    ScaleMod(k + 1, i * c.iprim, c.prim, n);
    assert c.prim * (i * c.iprim) == i * (c.iprim * c.prim);
    ScaleMod(c.iprim * c.prim, 1, i, n);
    assert (c.prim * (k + 1)) % n == i % n;
    if i == n {
      RemainderUnique(i, n, 1, 0);
    } else {
      RemainderUnique(i, n, 0, i);
    }
  }

  lemma RootIndexInjective(c: Codec, p: nat, q: nat)
    requires c.nn >= 1 && (c.iprim * c.prim) % c.nn == 1 % c.nn
    requires p < c.nn && q < c.nn && RootIndex(c, p) == RootIndex(c, q)
    ensures p == q
  {
    CancelPrim(c, p + 1, q + 1);
    SameResidue(p, q, c.nn);
  }

  lemma SameResidue(p: nat, q: nat, n: nat)
    requires p < n && q < n && (p + 1) % n == (q + 1) % n
    ensures p == q
  {
    if p + 1 < n { RemainderUnique(p + 1, n, 0, p + 1); } else { RemainderUnique(p + 1, n, 1, 0); }
    if q + 1 < n { RemainderUnique(q + 1, n, 0, q + 1); } else { RemainderUnique(q + 1, n, 1, 0); }
  }

  // alpha^i is the inverse of the locator of the position it is met at.
  lemma InverseLocator(c: Codec, f: Field, i: nat, k: nat)
    requires c.nn == f.Nn() && c.nn >= 1 && k < c.nn
    requires (c.prim * (k + 1)) % c.nn == i % c.nn
    ensures Mul(f, Locator(c, f, k), f.Alpha(i)) == 1
  {
    hide f.StepN, f.Size, Mul;
    var a: nat := c.nn - 1 - k;
    AlphaEqual(f, c.prim * (k + 1), i);
    MulAlphas(f, c.prim * a, c.prim * (k + 1));
    assert c.prim * a + c.prim * (k + 1) == 0 + c.prim * c.nn by {
      assert c.prim * a + c.prim * (k + 1) == c.prim * (a + (k + 1));
    }
    AlphaPeriod(f, 0, c.prim);
    AlphaZero(f);
  }

  lemma RootTest(c: Codec, f: Field, lam: seq<nat>, deg: nat, i: nat, k: nat)
    requires c.nn == f.Nn() && c.nn >= 1 && k < c.nn && deg < |lam| && Symbols(f, lam)
    requires (c.prim * (k + 1)) % c.nn == i % c.nn
    ensures Ascending(f, lam, f.Alpha(i), deg + 1) == 0 <==> Eval(f, lam, Locator(c, f, k), deg + 1) == 0
  {
    hide f.Alpha, f.Size, Mul, Ascending, Eval;
    var x, z := Locator(c, f, k), f.Alpha(i);
    var t := Ascending(f, lam, z, deg + 1);
    InverseLocator(c, f, i, k);
    LocatorNonzero(c, f, k);
    AlphaBound(f, i);
    AlphaNonzero(f, i);
    AscendingIsEval(f, lam, x, z, deg + 1);
    AscendingBound(f, lam, z, deg + 1);
    PowBound(f, x, deg);
    MulZero(f, Pow(f, x, deg));
    if t != 0 { MulNonzero(f, Pow(f, x, deg), t); }
  }

  lemma {:induction false} AscendingBound(f: Field, p: seq<nat>, z: nat, n: nat)
    requires n <= |p|
    ensures Ascending(f, p, z, n) < f.Size()
  {
    hide Mul, Xor, f.Size;
    AlphaBound(f, 0);
    if n > 0 {
      AscendingBound(f, p, z, n - 1);
      AddBound(f, Ascending(f, p, z, n - 1), Mul(f, p[n - 1], Pow(f, z, n - 1)));
    }
  }

  // ---------- The running registers ----------

  // reg[j] is the logarithm of lam[j]*alpha^(i*j), or nn for a zero term.
  ghost predicate Running(c: Codec, f: Field, reg: seq<nat>, lam: seq<nat>, deg: nat, i: nat) {
    && deg < |reg| && deg < |lam|
    && forall j :: 1 <= j <= deg ==> RunningAt(c, f, reg[j], lam[j], i, j)
  }

  ghost predicate RunningAt(c: Codec, f: Field, regj: nat, lamj: nat, i: nat, j: nat) {
    && (lamj == 0 ==> regj == c.nn)
    && (lamj != 0 ==> regj < c.nn && f.Alpha(regj) == Mul(f, lamj, Pow(f, f.Alpha(i), j)))
  }

  lemma RunningStep(c: Codec, f: Field, regj: nat, lamj: nat, i: nat, j: nat)
    requires Tables(c, f) && RunningAt(c, f, regj, lamj, i, j) && 0 < lamj <= c.nn
    ensures RunningAt(c, f, (regj + j) % c.nn, lamj, i + 1, j)
  {
    hide f.Alpha, f.Size, Mul, Tables;
    assert c.nn == f.Nn() >= 1 by { TablesLength(c, f); }
    PowOfAlpha(f, i, j);
    PowOfAlpha(f, i + 1, j);
    AlphaMod(f, regj + j);
    MulAlphas(f, regj, j);
    MulAssoc(f, lamj, f.Alpha(i * j), f.Alpha(j));
    MulAlphas(f, i * j, j);
    assert (i + 1) * j == i * j + j;
  }

  // One value of the locator: every register advances by its own power.
  method EvaluateLocator(c: Codec, ghost f: Field, reg: array<nat>, ghost lam: seq<nat>, deg: nat, ghost i: nat)
    returns (q: nat)
    requires Tables(c, f) && Symbols(f, lam) && Running(c, f, reg[..], lam, deg, i) && lam[0] == 1
    modifies reg
    ensures Running(c, f, reg[..], lam, deg, i + 1)
    ensures q == Ascending(f, lam, f.Alpha(i + 1), deg + 1)
  {
    hide f.Alpha, f.Size, Mul, Xor, RunningAt;
    ghost var z := f.Alpha(i + 1);
    ghost var total := Ascending(f, lam, z, deg + 1);
    assert c.nn == f.Size() - 1 by { NnIsSizeLessOne(c, f); }
    q := 1;
    var j := deg;
    while j > 0
      invariant 0 <= j <= deg
      invariant forall k :: 1 <= k <= j ==> RunningAt(c, f, reg[k], lam[k], i, k)
      invariant forall k :: j < k <= deg ==> RunningAt(c, f, reg[k], lam[k], i + 1, k)
      invariant Xor(q, Ascending(f, lam, z, j + 1)) == Xor(1, total)
    {
      ghost var rest, term := Ascending(f, lam, z, j), Mul(f, lam[j], Pow(f, z, j));
      RunningZero(c, f, reg[j], lam[j], i, j);
      MulZero(f, Pow(f, z, j));
      XorMove(q, rest, term);
      if reg[j] != c.nn {
        RunningStep(c, f, reg[j], lam[j], i, j);
        reg[j] := Reduce(c, f, reg[j] + j);
        assert c.alphaTo[reg[j]] == term by { RunningTerm(c, f, reg[j], lam[j], i + 1, j); }
        q := Xor(q, c.alphaTo[reg[j]]);
      }
      j := j - 1;
    }
    AscendingOne(f, lam, z);
    XorComm(q, 1);
    XorCancel(1, q);
    XorCancel(1, total);
  }

  lemma RunningZero(c: Codec, f: Field, regj: nat, lamj: nat, i: nat, j: nat)
    requires RunningAt(c, f, regj, lamj, i, j)
    ensures regj <= c.nn
    ensures regj == c.nn <==> lamj == 0
    ensures lamj == 0 ==> RunningAt(c, f, regj, lamj, i + 1, j)
  {
  }

  lemma RunningTerm(c: Codec, f: Field, regj: nat, lamj: nat, i: nat, j: nat)
    requires Tables(c, f) && RunningAt(c, f, regj, lamj, i, j) && lamj != 0
    ensures regj < c.nn && c.alphaTo[regj] == Mul(f, lamj, Pow(f, f.Alpha(i), j))
  {
    hide f.Alpha, Mul;
  }

  lemma AscendingOne(f: Field, lam: seq<nat>, z: nat)
    requires |lam| > 0 && Symbols(f, lam)
    ensures Ascending(f, lam, z, 1) == lam[0]
  {
    hide Mul, Xor, f.Size;
    assert Ascending(f, lam, z, 0) == 0;
    assert Pow(f, z, 0) == 1;
    MulOne(f, lam[0]);
    XorZero(lam[0]);
  }

  // ---------- The search ----------

  // The m roots recorded so far, all met before step i.
  ghost predicate Recorded(c: Codec, f: Field, lam: seq<nat>, deg: nat, root: seq<nat>, loc: seq<nat>, m: nat, i: nat)
    requires c.nn >= 1 && deg < |lam|
  {
    && m <= |root| && m <= |loc|
    && (forall k :: 0 <= k < m ==>
          && 1 <= root[k] < i && loc[k] < c.nn && RootIndex(c, loc[k]) == root[k]
          && Eval(f, lam, Locator(c, f, loc[k]), deg + 1) == 0)
    && (forall k, l :: 0 <= k < l < m ==> loc[k] != loc[l])
  }

  // Every root met before step i has been recorded.
  ghost predicate Complete(c: Codec, f: Field, lam: seq<nat>, deg: nat, loc: seq<nat>, m: nat, i: nat)
    requires c.nn >= 1 && deg < |lam| && m <= |loc|
  {
    forall p: nat :: p < c.nn && RootIndex(c, p) < i && Eval(f, lam, Locator(c, f, p), deg + 1) == 0 ==> p in loc[..m]
  }

  // At step i the running location k satisfies k + 1 == i*iprim modulo nn.
  ghost predicate AtStep(c: Codec, i: nat, k: nat)
    requires c.nn >= 1
  {
    k < c.nn && (k + 1) % c.nn == (i * c.iprim) % c.nn
  }

  method ChienSearch(c: Codec, ghost f: Field, lambda: seq<nat>, ghost lam: seq<nat>, deg: nat, root: array<nat>,
                     loc: array<nat>)
    returns (count: nat)
    requires Valid(c, f) && IndexForm(c, lambda, lam) && Symbols(f, lam) && |lam| == c.nroots + 1 && lam[0] == 1
    requires deg <= c.nroots && root.Length == loc.Length == c.nroots && root != loc
    modifies root, loc
    ensures count <= deg
    ensures Recorded(c, f, lam, deg, root[..], loc[..], count, c.nn + 1)
    ensures count < deg ==> Complete(c, f, lam, deg, loc[..], count, c.nn + 1)
  {
    hide f.Alpha, f.Size, Eval, Ascending, Running, Locator, Tables, RootIndex, Recorded, Complete, AtStep;
    var reg := new nat[c.nroots + 1](j requires 0 <= j < |lambda| => lambda[j]);
    StartRunning(c, f, reg[..], lambda, lam, deg);
    StartSearch(c, f, lam, deg, root[..], loc[..]);
    StartLocation(c, f);
    count := 0;
    var i: nat, k: nat := 1, c.iprim - 1;
    while i <= c.nn
      invariant 1 <= i <= c.nn + 1 && AtStep(c, i, k)
      invariant fresh(reg) && Running(c, f, reg[..], lam, deg, i - 1)
      invariant count <= deg && (deg > 0 ==> count < deg)
      invariant Recorded(c, f, lam, deg, root[..], loc[..], count, i)
      invariant Complete(c, f, lam, deg, loc[..], count, i)
    {
      var q := EvaluateLocator(c, f, reg, lam, deg, i - 1);
      SearchStep(c, f, lam, deg, i, k);
      if q == 0 {
        AscendingNotZero(f, lam, f.Alpha(i), deg);
        Extend(c, f, lam, deg, root[..], loc[..], count, i, k);
        ghost var root', loc' := root[..][count := i], loc[..][count := k];
        root[count] := i;
        loc[count] := k;
        assert root[..] == root' && loc[..] == loc';
        count := count + 1;
        if count == deg {
          Widen(c, f, lam, deg, root[..], loc[..], count, i + 1);
          return;
        }
      } else {
        Skip(c, f, lam, deg, root[..], loc[..], count, i, k);
      }
      NextStep(c, i, k);
      k := Reduce(c, f, k + c.iprim);
      i := i + 1;
    }
  }

  lemma StartRunning(c: Codec, f: Field, reg: seq<nat>, lambda: seq<nat>, lam: seq<nat>, deg: nat)
    requires Tables(c, f) && IndexForm(c, lambda, lam) && Symbols(f, lam) && deg < |lam| && reg == lambda
    ensures Running(c, f, reg, lam, deg, 0)
  {
    hide f.Alpha, f.Size, Mul;
    forall j | 1 <= j <= deg ensures RunningAt(c, f, reg[j], lam[j], 0, j) {
      IndexFormZero(c, f, lambda, lam, j);
      PowOfAlpha(f, 0, j);
      AlphaZero(f);
      MulOne(f, lam[j]);
    }
  }

  lemma SearchStep(c: Codec, f: Field, lam: seq<nat>, deg: nat, i: nat, k: nat)
    requires Valid(c, f) && Symbols(f, lam) && deg < |lam|
    requires 1 <= i <= c.nn && AtStep(c, i, k)
    ensures k < c.nn && RootIndex(c, k) == i
    ensures Ascending(f, lam, f.Alpha(i), deg + 1) == 0 <==> Eval(f, lam, Locator(c, f, k), deg + 1) == 0
  {
    hide f.Alpha, f.Size, Eval, Ascending, Locator;
    RootIndexOf(c, i, k);
    RootTest(c, f, lam, deg, i, k);
  }

  lemma AscendingNotZero(f: Field, lam: seq<nat>, z: nat, deg: nat)
    requires deg < |lam| && Symbols(f, lam) && lam[0] == 1
    requires Ascending(f, lam, z, deg + 1) == 0
    ensures deg > 0
  {
    AscendingOne(f, lam, z);
  }

  lemma StartSearch(c: Codec, f: Field, lam: seq<nat>, deg: nat, root: seq<nat>, loc: seq<nat>)
    requires c.nn >= 1 && deg < |lam|
    ensures Recorded(c, f, lam, deg, root, loc, 0, 1) && Complete(c, f, lam, deg, loc, 0, 1)
  {
    hide Eval, Locator;
  }

  lemma Widen(c: Codec, f: Field, lam: seq<nat>, deg: nat, root: seq<nat>, loc: seq<nat>, m: nat, i: nat)
    requires c.nn >= 1 && deg < |lam| && i <= c.nn + 1
    requires Recorded(c, f, lam, deg, root, loc, m, i)
    ensures Recorded(c, f, lam, deg, root, loc, m, c.nn + 1)
  {
    hide Eval, Locator, RootIndex;
  }

  lemma Extend(c: Codec, f: Field, lam: seq<nat>, deg: nat, root: seq<nat>, loc: seq<nat>, m: nat, i: nat, k: nat)
    requires c.nn >= 1 && (c.iprim * c.prim) % c.nn == 1 % c.nn && deg < |lam|
    requires m < |root| && m < |loc| && i >= 1
    requires k < c.nn && RootIndex(c, k) == i && Eval(f, lam, Locator(c, f, k), deg + 1) == 0
    requires Recorded(c, f, lam, deg, root, loc, m, i)
    requires Complete(c, f, lam, deg, loc, m, i)
    ensures Recorded(c, f, lam, deg, root[m := i], loc[m := k], m + 1, i + 1)
    ensures Complete(c, f, lam, deg, loc[m := k], m + 1, i + 1)
  {
    hide Eval, Locator, RootIndex;
    var loc' := loc[m := k];
    assert loc'[..m + 1] == loc[..m] + [k];
    forall p: nat | p < c.nn && RootIndex(c, p) < i + 1 && Eval(f, lam, Locator(c, f, p), deg + 1) == 0
      ensures p in loc'[..m + 1]
    {
      if RootIndex(c, p) == i {
        RootIndexInjective(c, p, k);
      } else {
        assert p in loc[..m];
      }
    }
  }

  lemma Skip(c: Codec, f: Field, lam: seq<nat>, deg: nat, root: seq<nat>, loc: seq<nat>, m: nat, i: nat, k: nat)
    requires c.nn >= 1 && (c.iprim * c.prim) % c.nn == 1 % c.nn && deg < |lam| && m <= |loc|
    requires k < c.nn && RootIndex(c, k) == i && Eval(f, lam, Locator(c, f, k), deg + 1) != 0
    requires Recorded(c, f, lam, deg, root, loc, m, i)
    requires Complete(c, f, lam, deg, loc, m, i)
    ensures Recorded(c, f, lam, deg, root, loc, m, i + 1)
    ensures Complete(c, f, lam, deg, loc, m, i + 1)
  {
    hide Eval, Locator, RootIndex;
    forall p: nat | p < c.nn && RootIndex(c, p) < i + 1 && Eval(f, lam, Locator(c, f, p), deg + 1) == 0
      ensures p in loc[..m]
    {
      if RootIndex(c, p) == i {
        RootIndexInjective(c, p, k);
      }
    }
  }

  lemma StartLocation(c: Codec, f: Field)
    requires Valid(c, f)
    ensures AtStep(c, 1, c.iprim - 1)
  {
    assert 1 * c.iprim == c.iprim;
  }

  lemma NextStep(c: Codec, i: nat, k: nat)
    requires c.nn >= 1 && AtStep(c, i, k)
    ensures AtStep(c, i + 1, (k + c.iprim) % c.nn)
  {
    NextLocation(k, i, c.iprim, c.nn);
  }

  lemma NextLocation(k: nat, i: nat, ip: nat, n: nat)
    requires n > 0 && (k + 1) % n == (i * ip) % n
    ensures ((k + ip) % n + 1) % n == ((i + 1) * ip) % n
  {
    AddMod((k + ip) % n, k + ip, 1, n);
    AddMod(k + 1, i * ip, ip, n);
    assert (i + 1) * ip == i * ip + ip;
    RemainderUnique((k + ip) % n, n, 0, (k + ip) % n);
  }
}
