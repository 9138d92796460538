// The Berlekamp-Massey loop of lib/libfec/decode_rs.h on its arrays.
module RsBerlekampMassey {
  import opened Arithmetic
  import opened Bits
  import opened GaloisField
  import opened Polynomials
  import opened RsCodec
  import opened KeyEquation
  import opened RsLocator

  // What the loop keeps: the algebraic invariant, the roots at the erasures,
  // and, while the errata are few enough, a bound on the length.
  ghost predicate Progress(f: Field, sp: seq<nat>, lam: seq<nat>, bp: seq<nat>, r: nat, el: nat, e: nat,
                           y: seq<nat>, xs: seq<nat>, er: set<nat>)
  {
    && Tracks(f, sp, lam, bp, r, el, e)
    && Vanishes(f, lam, xs, er) && Vanishes(f, bp, xs, er)
    && (2 * UnknownErrors(y, er) + e <= |sp| ==> el <= e + UnknownErrors(y, er))
  }

  method ComputeDiscrepancy(c: Codec, ghost f: Field, lambda: array<nat>, s: seq<nat>, ghost sp: seq<nat>, r: nat)
    returns (d: nat)
    requires Tables(c, f) && IndexForm(c, s, sp) && Symbols(f, lambda[..])
    requires 0 < r <= |s| && r <= lambda.Length
    ensures d == Discrepancy(f, lambda[..], sp, r - 1)
  {
    hide f.Alpha, Mul, Xor;
    ghost var lam := lambda[..];
    d := 0;
    for i := 0 to r
      invariant d == Convolution(f, lam, sp, r - 1, i)
    {
      IndexFormZero(c, f, s, sp, r - i - 1);
      MulZero(f, lam[i]);
      MulZero(f, sp[r - i - 1]);
      XorZero(d);
      if lambda[i] != 0 && s[r - i - 1] != c.nn {
        ProductOfIndices(c, f, lambda[i], sp[r - i - 1]);
        var v := Antilog(c, f, c.indexOf[lambda[i]] + s[r - i - 1]);
        d := Xor(d, v);
      }
    }
  }

  // T(x) <-- lambda(x) - discr_r*x*b(x)
  method FormCorrection(c: Codec, ghost f: Field, t: array<nat>, lambda: array<nat>, b: array<nat>,
                        ghost bp: seq<nat>, discr: nat, ghost d: nat)
    requires Tables(c, f) && IndexForm(c, b[..], bp)
    requires t.Length == lambda.Length == b.Length > 0 && t != lambda && t != b
    requires 0 < d <= c.nn && discr == c.indexOf[d]
    modifies t
    ensures Corrected(f, t[..], lambda[..], d, bp)
  {
    hide f.Alpha, Mul, Xor;
    t[0] := lambda[0];
    MulZero(f, d);
    XorZero(lambda[0]);
    for i := 0 to t.Length - 1
      invariant forall j :: 0 <= j <= i ==> t[j] == Xor(lambda[j], Mul(f, d, Shifted(bp)[j]))
    {
      IndexFormZero(c, f, b[..], bp, i);
      XorZero(lambda[i + 1]);
      if b[i] != c.nn {
        ProductOfIndices(c, f, d, bp[i]);
        var v := Antilog(c, f, discr + b[i]);
        t[i + 1] := Xor(lambda[i + 1], v);
      } else {
        t[i + 1] := lambda[i + 1];
      }
    }
  }

  // B(x) <-- inv(discr_r)*lambda(x)
  method Normalize(c: Codec, ghost f: Field, b: array<nat>, lambda: array<nat>, discr: nat, ghost d: nat)
    returns (ghost bp: seq<nat>)
    requires Tables(c, f) && Symbols(f, lambda[..]) && b != lambda && b.Length == lambda.Length
    requires 0 < d <= c.nn && discr == c.indexOf[d]
    modifies b
    ensures IndexForm(c, b[..], bp) && |bp| == |lambda[..]| && Symbols(f, bp)
    ensures forall j :: 0 <= j < lambda.Length ==> lambda[j] == Mul(f, d, bp[j])
  {
    hide f.Alpha, Mul;
    bp := [];
    for i := 0 to b.Length
      invariant |bp| == i
      invariant forall j :: 0 <= j < i ==> bp[j] <= c.nn && b[j] == c.indexOf[bp[j]] && lambda[j] == Mul(f, d, bp[j])
    {
      MulZero(f, d);
      if lambda[i] == 0 {
        b[i] := c.nn;
        bp := bp + [0];
      } else {
        ghost var q := Ratio(c, f, lambda[i], d);
        b[i] := ModNn(c.mm, c.nn, c.indexOf[lambda[i]] + c.nn - discr);
        bp := bp + [q];
      }
    }
  }

  lemma Ratio(c: Codec, f: Field, a: nat, d: nat) returns (q: nat)
    requires Tables(c, f) && 0 < a <= c.nn && 0 < d <= c.nn
    ensures 0 < q <= c.nn && Mul(f, d, q) == a
    ensures (c.indexOf[a] + c.nn - c.indexOf[d]) % c.nn == c.indexOf[q]
  {
    hide f.Alpha, Mul;
    var i, j, n := c.indexOf[a], c.indexOf[d], c.nn;
    var k := if i >= j then i - j else i + n - j;
    RemainderUnique(i + n - j, n, if i >= j then 1 else 0, k);
    AlphaPeriod(f, i, 1);
    q := f.Alpha(k);
    AlphaBound(f, k);
    AlphaNonzero(f, k);
    MulAlphas(f, j, k);
    AlphaEqual(f, c.indexOf[q], k);
    RemainderUnique(c.indexOf[q], n, 0, c.indexOf[q]);
    RemainderUnique(k, n, 0, k);
  }

  // B(x) <-- x*B(x)
  method ShiftUp(c: Codec, b: array<nat>, ghost bp: seq<nat>)
    requires b.Length > 0 && IndexForm(c, b[..], bp) && |c.indexOf| > 0 && c.indexOf[0] == c.nn
    modifies b
    ensures IndexForm(c, b[..], Shifted(bp))
  {
    var i := b.Length - 1;
    while i > 0
      invariant 0 <= i < b.Length
      invariant forall k :: 0 <= k <= i ==> b[k] == old(b[k])
      invariant forall k :: i < k < b.Length ==> b[k] == old(b[k - 1])
    {
      b[i] := b[i - 1];
      i := i - 1;
    }
    b[0] := c.nn;
    ShiftedIndices(c, old(b[..]), b[..], bp);
  }

  lemma ShiftedIndices(c: Codec, was: seq<nat>, now: seq<nat>, bp: seq<nat>)
    requires |was| == |now| > 0 && IndexForm(c, was, bp) && |c.indexOf| > 0 && c.indexOf[0] == c.nn
    requires now[0] == c.nn && forall k :: 0 < k < |now| ==> now[k] == was[k - 1]
    ensures IndexForm(c, now, Shifted(bp))
  {
    var sh := Shifted(bp);
    forall k | 0 <= k < |sh| ensures sh[k] < |c.indexOf| && now[k] == c.indexOf[sh[k]] {
      if k > 0 { assert sh[k] == bp[k - 1]; }
    }
  }

  method CopyArray(dst: array<nat>, src: array<nat>)
    requires dst.Length == src.Length && dst != src
    modifies dst
    ensures dst[..] == src[..]
  {
    for i := 0 to dst.Length
      invariant forall k :: 0 <= k < i ==> dst[k] == src[k]
    {
      dst[i] := src[i];
    }
  }

  // ---------- One step keeps the invariant ----------

  lemma LastIsZero(f: Field, sp: seq<nat>, lam: seq<nat>, bp: seq<nat>, r: nat, el: nat, e: nat)
    requires Tracks(f, sp, lam, bp, r, el, e) && r < |sp|
    ensures bp[|bp| - 1] == 0
  {
  }

  lemma ProgressUnchanged(f: Field, sp: seq<nat>, lam: seq<nat>, bp: seq<nat>, r: nat, el: nat, e: nat,
                          y: seq<nat>, xs: seq<nat>, er: set<nat>)
    requires SyndromesOf(f, sp, y, xs) && Progress(f, sp, lam, bp, r, el, e, y, xs, er) && r < |sp|
    requires Discrepancy(f, lam, sp, r) == 0
    ensures Progress(f, sp, lam, Shifted(bp), r + 1, el, e, y, xs, er)
  {
    hide Tracks, Discrepancy, UnknownErrors;
    TracksUnchanged(f, sp, lam, bp, r, el, e);
    TracksSymbols(f, sp, lam, bp, r, el, e);
    LastIsZero(f, sp, lam, bp, r, el, e);
    ShiftedVanishes(f, bp, xs, er);
  }

  lemma TracksSymbols(f: Field, sp: seq<nat>, lam: seq<nat>, bp: seq<nat>, r: nat, el: nat, e: nat)
    requires Tracks(f, sp, lam, bp, r, el, e)
    ensures Symbols(f, lam) && Symbols(f, bp) && |lam| == |bp| == |sp| + 1 && e <= el <= r <= |sp|
  {
  }

  lemma ProgressSameLength(f: Field, sp: seq<nat>, t: seq<nat>, lam: seq<nat>, d: nat, bp: seq<nat>, r: nat, el: nat,
                           e: nat, y: seq<nat>, xs: seq<nat>, er: set<nat>)
    requires SyndromesOf(f, sp, y, xs) && Progress(f, sp, lam, bp, r, el, e, y, xs, er) && r < |sp|
    requires d == Discrepancy(f, lam, sp, r) && d < f.Size()
    requires Corrected(f, t, lam, d, bp)
    requires 2 * el > r + e
    ensures Progress(f, sp, t, Shifted(bp), r + 1, el, e, y, xs, er)
  {
    hide Tracks, Discrepancy, UnknownErrors, Corrected;
    TracksSymbols(f, sp, lam, bp, r, el, e);
    TracksSameLength(f, sp, t, lam, d, bp, r, el, e);
    LastIsZero(f, sp, lam, bp, r, el, e);
    ShiftedVanishes(f, bp, xs, er);
    CorrectedVanishes(f, t, lam, d, bp, xs, er);
  }

  lemma ProgressLonger(f: Field, sp: seq<nat>, t: seq<nat>, b': seq<nat>, lam: seq<nat>, d: nat, bp: seq<nat>,
                       r: nat, el: nat, e: nat, y: seq<nat>, xs: seq<nat>, er: set<nat>)
    requires SyndromesOf(f, sp, y, xs) && Progress(f, sp, lam, bp, r, el, e, y, xs, er) && r < |sp|
    requires d == Discrepancy(f, lam, sp, r) && 0 < d < f.Size()
    requires Corrected(f, t, lam, d, bp)
    requires |b'| == |lam| && Symbols(f, b') && forall j :: 0 <= j < |lam| ==> lam[j] == Mul(f, d, b'[j])
    requires 2 * el <= r + e
    ensures Progress(f, sp, t, b', r + 1, r + 1 + e - el, e, y, xs, er)
  {
    hide Tracks, Discrepancy, UnknownErrors, Corrected, Mul;
    TracksSymbols(f, sp, lam, bp, r, el, e);
    TracksLonger(f, sp, t, b', lam, d, bp, r, el, e);
    LastIsZero(f, sp, lam, bp, r, el, e);
    CorrectedVanishes(f, t, lam, d, bp, xs, er);
    ScaledVanishes(f, lam, d, b', xs, er);
    LengthBound(f, sp, y, xs, er, lam, bp, r, el, e);
  }

  // ---------- The loop ----------

  method Step(c: Codec, ghost f: Field, lambda: array<nat>, b: array<nat>, t: array<nat>, s: seq<nat>,
              ghost sp: seq<nat>,
              ghost bp: seq<nat>, r: nat, el: nat, e: nat, ghost y: seq<nat>, ghost xs: seq<nat>, ghost er: set<nat>)
    returns (el': nat, ghost bp': seq<nat>)
    requires Tables(c, f) && IndexForm(c, s, sp) && IndexForm(c, b[..], bp)
    requires lambda.Length == b.Length == t.Length == |sp| + 1 && lambda != b && lambda != t && b != t
    requires 0 < r <= |sp| && SyndromesOf(f, sp, y, xs)
    requires Progress(f, sp, lambda[..], bp, r - 1, el, e, y, xs, er)
    modifies lambda, b, t
    ensures IndexForm(c, b[..], bp')
    ensures Progress(f, sp, lambda[..], bp', r, el', e, y, xs, er)
  {
    hide f.Alpha, f.Size, Mul, Xor, Progress, Corrected, Vanishes, SyndromesOf, UnknownErrors;
    ghost var lam := lambda[..];
    assert Tracks(f, sp, lam, bp, r - 1, el, e) by { ProgressTracks(f, sp, lam, bp, r - 1, el, e, y, xs, er); }
    TracksSymbols(f, sp, lam, bp, r - 1, el, e);
    assert c.indexOf[0] == c.nn && c.nn == f.Size() - 1 by { NnIsSizeLessOne(c, f); }
    hide Tracks;
    var d := ComputeDiscrepancy(c, f, lambda, s, sp, r);
    ConvolutionBound(f, lam, sp, r - 1, r);
    hide Discrepancy;
    var discr := c.indexOf[d];
    assert discr == c.nn <==> d == 0 by { NnIsSizeLessOne(c, f); }
    if discr == c.nn {
      ShiftUp(c, b, bp);
      el', bp' := el, Shifted(bp);
      ProgressUnchanged(f, sp, lam, bp, r - 1, el, e, y, xs, er);
    } else {
      FormCorrection(c, f, t, lambda, b, bp, discr, d);
      if 2 * el <= r + e - 1 {
        el' := r + e - el;
        bp' := Normalize(c, f, b, lambda, discr, d);
        ProgressLonger(f, sp, t[..], bp', lam, d, bp, r - 1, el, e, y, xs, er);
      } else {
        ShiftUp(c, b, bp);
        el', bp' := el, Shifted(bp);
        ProgressSameLength(f, sp, t[..], lam, d, bp, r - 1, el, e, y, xs, er);
      }
      CopyArray(lambda, t);
    }
  }

  lemma ProgressTracks(f: Field, sp: seq<nat>, lam: seq<nat>, bp: seq<nat>, r: nat, el: nat, e: nat,
                       y: seq<nat>, xs: seq<nat>, er: set<nat>)
    requires Progress(f, sp, lam, bp, r, el, e, y, xs, er)
    ensures Tracks(f, sp, lam, bp, r, el, e)
  {
  }

  // Started at the erasure locator, the loop ends with every syndrome used.
  method BerlekampMassey(c: Codec, ghost f: Field, lambda: array<nat>, s: seq<nat>, ghost sp: seq<nat>, noEras: nat,
                         ghost y: seq<nat>, ghost xs: seq<nat>, ghost er: set<nat>)
    returns (ghost el: nat, ghost bp: seq<nat>)
    requires Tables(c, f) && IndexForm(c, s, sp) && SyndromesOf(f, sp, y, xs)
    requires lambda.Length == |sp| + 1 && noEras <= |sp|
    requires Progress(f, sp, lambda[..], lambda[..], noEras, noEras, noEras, y, xs, er)
    modifies lambda
    ensures Progress(f, sp, lambda[..], bp, |sp|, el, noEras, y, xs, er)
  {
    hide f.Alpha, f.Size, Progress, SyndromesOf;
    var b, t := new nat[lambda.Length], new nat[lambda.Length];
    bp := lambda[..];
    ProgressTracks(f, sp, bp, bp, noEras, noEras, noEras, y, xs, er);
    TracksSymbols(f, sp, bp, bp, noEras, noEras, noEras);
    assert c.nn == f.Size() - 1 by { NnIsSizeLessOne(c, f); }
    for i := 0 to b.Length
      invariant forall j :: 0 <= j < i ==> b[j] == c.indexOf[bp[j]]
      invariant lambda[..] == bp
    {
      b[i] := c.indexOf[lambda[i]];
    }
    hide Tracks;
    var r, len := noEras + 1, noEras;
    while r <= |s|
      invariant noEras < r <= |s| + 1
      invariant IndexForm(c, b[..], bp)
      invariant Progress(f, sp, lambda[..], bp, r - 1, len, noEras, y, xs, er)
    {
      len, bp := Step(c, f, lambda, b, t, s, sp, bp, r, len, noEras, y, xs, er);
      r := r + 1;
    }
    el := len;
  }
}
