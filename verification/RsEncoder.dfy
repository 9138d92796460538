// The systematic encoder of lib/libfec/encode_rs.h: a feedback register that
// divides the message by the generator polynomial.
module RsEncoder {
  import opened Bits
  import opened GaloisField
  import opened Polynomials
  import opened RsCodec
  import opened RsCode
  import opened KeyEquation

  // One turn of the register, in terms of the field.
  ghost function ParityAt(f: Field, g: seq<nat>, parity: seq<nat>, fb: nat, j: nat): nat
    requires |g| == |parity| + 1 && j < |parity|
  {
    Xor(if j + 1 < |parity| then parity[j + 1] else 0, Mul(f, fb, g[j + 1]))
  }

  ghost function ParityStep(f: Field, g: seq<nat>, parity: seq<nat>, d: nat): (r: seq<nat>)
    requires |g| == |parity| + 1 && |parity| > 0
    ensures |r| == |parity|
  {
    var fb := Xor(d, parity[0]);
    seq(|parity|, j requires 0 <= j < |parity| => ParityAt(f, g, parity, fb, j))
  }

  ghost function GeneratorOf(c: Codec, f: Field): (g: seq<nat>)
    ensures |g| == c.nroots + 1
  {
    Generator(f, c.fcr, c.prim, c.nroots)
  }

  lemma {:induction false} EvalConcat(f: Field, a: seq<nat>, b: seq<nat>, x: nat, n: nat)
    requires n <= |b| && 0 < x < f.Size() && Symbols(f, a)
    ensures Eval(f, a + b, x, |a| + n) == Xor(Mul(f, Pow(f, x, n), Eval(f, a, x, |a|)), Eval(f, b, x, n))
  {
    hide Mul, Xor, f.Size;
    var ea := Eval(f, a, x, |a|);
    if n == 0 {
      EvalSame(f, a + b, a, x, |a|);
      EvalBound(f, a, x, |a|);
      MulOne(f, ea);
      XorZero(ea);
    } else {
      EvalConcat(f, a, b, x, n - 1);
      var h, eb := Pow(f, x, n - 1), Eval(f, b, x, n - 1);
      MulDistrib(f, x, Mul(f, h, ea), eb);
      MulAssoc(f, x, h, ea);
      var u, v := Mul(f, Mul(f, x, h), ea), Mul(f, x, eb);
      XorAssoc(b[n - 1], u, v);
      XorComm(b[n - 1], u);
      XorAssoc(u, b[n - 1], v);
    }
  }

  // At a root of the generator the register is the message so far times x^nroots.
  lemma ParityStepEval(f: Field, g: seq<nat>, parity: seq<nat>, d: nat, x: nat)
    requires |g| == |parity| + 1 && |parity| > 0 && g[0] == 1
    requires Symbols(f, parity) && d < f.Size() && 0 < x < f.Size()
    requires Eval(f, g, x, |g|) == 0
    ensures Eval(f, ParityStep(f, g, parity, d), x, |parity|)
         == Xor(Mul(f, d, Pow(f, x, |parity|)), Mul(f, x, Eval(f, parity, x, |parity|)))
  {
    hide Mul, Xor, f.Size, Eval;
    var n, fb := |parity|, Xor(d, parity[0]);
    var next := ParityStep(f, g, parity, d);
    var long, whole := parity + [0], [d] + next;
    assert fb < f.Size() by { AddBound(f, d, parity[0]); }
    forall j | 0 <= j < n + 1 ensures whole[j] == Xor(long[j], Mul(f, fb, g[j])) {
      if j == 0 {
        MulOne(f, fb);
        XorComm(d, parity[0]);
        XorCancel(parity[0], d);
      } else {
        assert whole[j] == next[j - 1];
      }
    }
    EvalLinear(f, whole, long, fb, g, x, n + 1);
    MulZero(f, fb);
    XorZero(Eval(f, long, x, n + 1));
    AlphaBound(f, 0);
    EvalConcat(f, parity, [0], x, 1);
    EvalConcat(f, [d], next, x, n);
    EvalOne(f, [0], x);
    EvalOne(f, [d], x);
    PowOne(f, x);
    XorZero(Mul(f, x, Eval(f, parity, x, n)));
    MulComm(f, d, Pow(f, x, n));
    XorCancel(Mul(f, d, Pow(f, x, n)), Eval(f, next, x, n));
  }

  lemma PowOne(f: Field, x: nat)
    requires x < f.Size()
    ensures Pow(f, x, 1) == x
  {
    hide Mul, f.Size;
    assert Pow(f, x, 0) == 1;
    MulOne(f, x);
  }

  // ALPHA_TO[MODNN(feedback + GENPOLY[NROOTS - j])]: never the marker for zero.
  method FeedbackTerm(c: Codec, ghost f: Field, feedback: nat, j: nat, ghost fb: nat) returns (v: nat)
    requires Valid(c, f) && 0 < j <= c.nroots
    requires 0 < fb <= c.nn && feedback == c.indexOf[fb]
    ensures v == Mul(f, fb, GeneratorOf(c, f)[j])
  {
    hide f.Alpha, f.Size, Mul, Generator;
    GeneratorFullWeight(c, f);
    v := Antilog(c, f, feedback + c.genpoly[c.nroots - j]);
    MulAlphas(f, feedback, c.genpoly[c.nroots - j]);
  }

  method Feed(c: Codec, ghost f: Field, parity: array<nat>, d: nat)
    requires Valid(c, f) && parity.Length == c.nroots > 0
    requires Symbols(f, parity[..]) && d < f.Size()
    modifies parity
    ensures parity[..] == ParityStep(f, GeneratorOf(c, f), old(parity[..]), d)
    ensures Symbols(f, parity[..])
  {
    hide f.Alpha, f.Size, Mul, Xor, GeneratorOf;
    ghost var was, g := parity[..], GeneratorOf(c, f);
    ghost var fb := Xor(d, was[0]);
    assert fb < f.Size() by { AddBound(f, d, was[0]); }
    assert c.nn == f.Size() - 1 by { NnIsSizeLessOne(c, f); }
    forall j | 0 < j <= c.nroots ensures Mul(f, 0, g[j]) == 0 { MulZero(f, g[j]); }
    var feedback := c.indexOf[Xor(d, parity[0])];
    if feedback != c.nn {
      for j := 1 to c.nroots
        invariant forall k :: 0 < k < j ==> parity[k] == Xor(was[k], Mul(f, fb, g[k]))
        invariant forall k :: j <= k < c.nroots ==> parity[k] == was[k]
      {
        var v := FeedbackTerm(c, f, feedback, j, fb);
        parity[j] := Xor(parity[j], v);
      }
    } else {
      forall k | 0 < k < c.nroots ensures parity[k] == Xor(was[k], Mul(f, fb, g[k])) {
        XorZero(was[k]);
      }
    }
    ShiftDown(parity);
    XorZero(Mul(f, fb, g[c.nroots]));
    if feedback != c.nn {
      var v := FeedbackTerm(c, f, feedback, c.nroots, fb);
      parity[c.nroots - 1] := v;
    } else {
      parity[c.nroots - 1] := 0;
    }
    assert parity[..] == ParityStep(f, g, was, d);
    forall j | 0 <= j < c.nroots ensures parity[j] < f.Size() {
      AddBound(f, if j + 1 < |was| then was[j + 1] else 0, Mul(f, fb, g[j + 1]));
    }
  }

  // memmove(&a[0], &a[1], ...)
  method ShiftDown(a: array<nat>)
    requires a.Length > 0
    modifies a
    ensures forall k :: 0 <= k < a.Length - 1 ==> a[k] == old(a[k + 1])
  {
    for i := 0 to a.Length - 1
      invariant forall k :: 0 <= k < i ==> a[k] == old(a[k + 1])
      invariant forall k :: i <= k < a.Length ==> a[k] == old(a[k])
    {
      a[i] := a[i + 1];
    }
  }

  // The register's value at every root of the generator.
  ghost predicate Divides(c: Codec, f: Field, data: seq<nat>, n: nat, parity: seq<nat>)
    requires n <= |data|
  {
    forall i :: 0 <= i < c.nroots ==>
      var x := Root(f, c.fcr, c.prim, i);
      Eval(f, parity, x, |parity|) == Mul(f, Pow(f, x, |parity|), Eval(f, data, x, n))
  }

  lemma RootBounds(c: Codec, f: Field, i: nat)
    ensures 0 < Root(f, c.fcr, c.prim, i) < f.Size()
  {
    hide f.Alpha, f.Size;
    AlphaBound(f, (c.fcr + i) * c.prim);
    AlphaNonzero(f, (c.fcr + i) * c.prim);
  }

  lemma DividesStep(c: Codec, f: Field, data: seq<nat>, n: nat, parity: seq<nat>)
    requires n < |data| && Symbols(f, data) && |parity| == c.nroots > 0 && Symbols(f, parity)
    requires Divides(c, f, data, n, parity)
    ensures Divides(c, f, data, n + 1, ParityStep(f, GeneratorOf(c, f), parity, data[n]))
  {
    hide Root, Mul, Xor, f.Size, ParityStep, Generator;
    GeneratorShape(f, c.fcr, c.prim, c.nroots);
    var g := GeneratorOf(c, f);
    forall i | 0 <= i < c.nroots
      ensures var x := Root(f, c.fcr, c.prim, i);
        Eval(f, ParityStep(f, g, parity, data[n]), x, |parity|) == Mul(f, Pow(f, x, |parity|), Eval(f, data, x, n + 1))
    {
      var x := Root(f, c.fcr, c.prim, i);
      var h, e := Pow(f, x, |parity|), Eval(f, data, x, n);
      RootBounds(c, f, i);
      GeneratorRoots(f, c.fcr, c.prim, c.nroots, i);
      ParityStepEval(f, g, parity, data[n], x);
      MulDistrib(f, h, data[n], Mul(f, x, e));
      MulComm(f, h, data[n]);
      MulSwap(f, h, x, e);
    }
  }

  lemma DividesAll(c: Codec, f: Field, data: seq<nat>, parity: seq<nat>)
    requires |parity| == c.nroots && |data| + c.nroots + c.pad == c.nn
    requires Symbols(f, data) && Symbols(f, parity)
    requires Divides(c, f, data, |data|, parity)
    ensures Codeword(c, f, data + parity)
  {
    hide Root, Mul, Xor, f.Size, Eval;
    forall i | 0 <= i < c.nroots ensures Syndrome(c, f, data + parity, i) == 0 {
      var x := Root(f, c.fcr, c.prim, i);
      RootBounds(c, f, i);
      EvalConcat(f, data, parity, x, |parity|);
      XorSelf(Eval(f, parity, x, |parity|));
    }
  }

  lemma EmptyDivides(c: Codec, f: Field, data: seq<nat>, parity: seq<nat>)
    requires forall j :: 0 <= j < |parity| ==> parity[j] == 0
    ensures Divides(c, f, data, 0, parity)
  {
    hide Root, Mul;
    forall i | 0 <= i < c.nroots
      ensures var x := Root(f, c.fcr, c.prim, i);
        Eval(f, parity, x, |parity|) == Mul(f, Pow(f, x, |parity|), Eval(f, data, x, 0))
    {
      var x := Root(f, c.fcr, c.prim, i);
      EvalOfZeros(f, parity, x, |parity|);
      MulZero(f, Pow(f, x, |parity|));
    }
  }

  // encode_rs: the message followed by the parity symbols is a codeword.
  method EncodeRs(c: Codec, ghost f: Field, data: seq<nat>, parity: array<nat>)
    requires Valid(c, f) && c.nroots > 0
    requires |data| + c.nroots + c.pad == c.nn && Symbols(f, data)
    requires parity.Length == c.nroots
    modifies parity
    ensures Codeword(c, f, data + parity[..])
  {
    hide f.Alpha, f.Size, ParityStep, Divides, Valid;
    for i := 0 to c.nroots
      invariant forall j :: 0 <= j < i ==> parity[j] == 0
    {
      parity[i] := 0;
    }
    EmptyDivides(c, f, data, parity[..]);
    AlphaBound(f, 0);
    for i := 0 to c.nn - c.nroots - c.pad
      invariant Symbols(f, parity[..])
      invariant Divides(c, f, data, i, parity[..])
    {
      DividesStep(c, f, data, i, parity[..]);
      Feed(c, f, parity, data[i]);
    }
    DividesAll(c, f, data, parity[..]);
  }

  // The parity symbols are the only ones that make the message a codeword.
  lemma ParityUnique(c: Codec, f: Field, data: seq<nat>, p: seq<nat>, q: seq<nat>)
    requires Valid(c, f) && |p| == |q| == c.nroots
    requires Codeword(c, f, data + p) && Codeword(c, f, data + q)
    ensures p == q
  {
    hide Syndrome, Weight, f.Size, Valid;
    var a, b := data + p, data + q;
    SharedPrefixDistance(a, b, |data|, |a|);
    assert forall i :: 0 <= i < c.nroots ==> Syndrome(c, f, b, i) == 0;
    Detection(c, f, a, b);
    assert p == a[|data|..] && q == b[|data|..];
  }

  lemma {:induction false} SharedPrefixDistance(a: seq<nat>, b: seq<nat>, k: nat, n: nat)
    requires |a| == |b| && k <= n <= |a|
    requires forall i :: 0 <= i < k ==> a[i] == b[i]
    ensures Weight(Difference(b, a), n) <= n - k
  {
    hide Xor;
    if n == k {
      forall i | 0 <= i < k ensures Difference(b, a)[i] == 0 { XorSelf(a[i]); }
      WeightOfZeros(Difference(b, a), n);
    } else {
      SharedPrefixDistance(a, b, k, n - 1);
    }
  }

  // A shortened code is the full code restricted to leading zero symbols.
  lemma ShortenedIsFull(c: Codec, f: Field, d: seq<nat>)
    requires Block(c, f, d)
    ensures Codeword(c, f, d) <==> Codeword(c.(pad := 0), f, Zeros(c.pad) + d)
  {
    hide Eval, Root, f.Size;
    var c0, d0 := c.(pad := 0), Zeros(c.pad) + d;
    AlphaBound(f, 0);
    forall i | 0 <= i < c.nroots ensures Syndrome(c, f, d, i) == Syndrome(c0, f, d0, i) {
      EvalLeadingZeros(f, Zeros(c.pad), d, Root(f, c.fcr, c.prim, i), |d|);
    }
  }
}
