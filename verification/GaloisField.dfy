// The finite field GF(2^m) that lib/libfec/init_rs.h tabulates: its nonzero
// elements are the successive states of a shift register with feedback taps
// gfpoly, started at 1.
module GaloisField {
  import opened Bits

  datatype Register = Register(m: nat, gfpoly: nat) {

    // Number of symbol values, 2^m.
    function Size(): (r: nat)
      ensures r >= 1
    { Pow2(m) }

    // Number of nonzero symbol values, 2^m - 1 (`nn` in the source).
    function Nn(): nat { Size() - 1 }

    // One turn of the table-filling loop: shift left, reduce, mask.
    function Step(x: nat): (r: nat)
      ensures r < Size()
    {
      var y := 2 * x;
      Low(if Shr(y, m) % 2 == 1 then Xor(y, gfpoly) else y, m)
    }

    // k turns from x.
    function StepN(k: nat, x: nat): nat
    {
      if k == 0 then x else Step(StepN(k - 1, x))
    }

    // The k-th power of the register's root alpha.
    function Alpha(k: nat): nat { StepN(k, 1) }

    // The register runs through all 2^m - 1 nonzero states before it repeats:
    // the feedback polynomial is primitive.
    ghost predicate Primitive()
    {
      && m >= 1
      && Alpha(Nn()) == 1
      && forall i :: 0 < i < Nn() ==> Alpha(i) != 1
    }
  }

  lemma FieldWitness()
    ensures Register(1, 3).Primitive()
  {
    var f := Register(1, 3);
    assert Pow2(1) == 2 * Pow2(0) == 2;
    assert f.Step(1) == 1 by {
      assert Xor(2, 3) == 0 % 2 + 1 % 2 + 2 * Xor(1, 1);
      assert Xor(1, 1) == 0;
    }
    assert f.StepN(0, 1) == 1;
    assert f.Alpha(1) == f.Step(f.StepN(0, 1));
  }

  type Field = f: Register | f.Primitive()
    ghost witness (FieldWitness(); Register(1, 3))

  // ---------- The register is linear over exclusive-or ----------

  lemma StepForm(f: Register, x: nat)
    ensures f.Step(x) == Xor(Low(2 * x, f.m), if Shr(2 * x, f.m) % 2 == 1 then Low(f.gfpoly, f.m) else 0)
  {
    hide Xor, Low, Shr;
    XorLow(2 * x, f.gfpoly, f.m);
    XorZero(Low(2 * x, f.m));
  }

  lemma StepLinear(f: Register, a: nat, b: nat)
    ensures f.Step(Xor(a, b)) == Xor(f.Step(a), f.Step(b))
  {
    hide Xor, Low, Shr, f.Step;
    var m, g := f.m, Low(f.gfpoly, f.m);
    var ta, tb, tc := Shr(2 * a, m) % 2, Shr(2 * b, m) % 2, Shr(2 * Xor(a, b), m) % 2;
    var ga, gb, gc := if ta == 1 then g else 0, if tb == 1 then g else 0, if tc == 1 then g else 0;
    XorDouble(a, b);
    XorShift(2 * a, 2 * b, m);
    XorUnfold(Shr(2 * a, m), Shr(2 * b, m));
    XorZero(g);
    XorZero(0);
    XorSelf(g);
    assert gc == Xor(ga, gb);
    XorLow(2 * a, 2 * b, m);
    StepForm(f, a);
    StepForm(f, b);
    StepForm(f, Xor(a, b));
    XorSwap(Low(2 * a, m), ga, Low(2 * b, m), gb);
  }

  lemma {:induction false} StepNLinear(f: Register, k: nat, a: nat, b: nat)
    ensures f.StepN(k, Xor(a, b)) == Xor(f.StepN(k, a), f.StepN(k, b))
  {
    hide Xor, f.Step;
    if k > 0 {
      StepNLinear(f, k - 1, a, b);
      StepLinear(f, f.StepN(k - 1, a), f.StepN(k - 1, b));
    }
  }

  lemma {:induction false} StepNAdd(f: Register, i: nat, j: nat, x: nat)
    ensures f.StepN(i + j, x) == f.StepN(i, f.StepN(j, x))
  {
    hide f.Step;
    if i > 0 { StepNAdd(f, i - 1, j, x); }
  }

  lemma {:induction false} ShrOfZero(n: nat)
    ensures Shr(0, n) == 0
  {
    if n > 0 { ShrOfZero(n - 1); }
  }

  lemma StepZero(f: Register)
    ensures f.Step(0) == 0
  {
    hide Low, Shr;
    ShrOfZero(f.m);
    LowOfZero(f.m);
  }

  lemma {:induction false} StepNZero(f: Register, k: nat)
    ensures f.StepN(k, 0) == 0
  {
    if k > 0 {
      StepNZero(f, k - 1);
      StepZero(f);
    }
  }

  lemma AddBound(f: Register, a: nat, b: nat)
    requires a < f.Size() && b < f.Size()
    ensures Xor(a, b) < f.Size()
  {
    XorBound(a, b, f.m);
  }

  // ---------- Powers of alpha ----------

  lemma AlphaZero(f: Register)
    ensures f.Alpha(0) == 1
  {
  }

  lemma AlphaBound(f: Field, k: nat)
    ensures f.Alpha(k) < f.Size() && 2 <= f.Size() && f.Nn() >= 1
  {
    hide f.Step;
    assert f.Size() == 2 * Pow2(f.m - 1);
  }

  lemma {:induction false} AlphaPeriod(f: Field, k: nat, q: nat)
    ensures f.Alpha(k + q * f.Nn()) == f.Alpha(k)
  {
    hide f.StepN, Pow2;
    if q > 0 {
      AlphaPeriod(f, k, q - 1);
      var j := k + (q - 1) * f.Nn();
      assert k + q * f.Nn() == j + f.Nn();
      StepNAdd(f, j, f.Nn(), 1);
    }
  }

  lemma AlphaMod(f: Field, k: nat)
    ensures f.Nn() >= 1 && f.Alpha(k) == f.Alpha(k % f.Nn())
  {
    hide f.StepN, Pow2;
    AlphaBound(f, 0);
    AlphaPeriod(f, k % f.Nn(), k / f.Nn());
    assert k == k % f.Nn() + (k / f.Nn()) * f.Nn();
  }

  lemma AlphaNonzero(f: Field, k: nat)
    ensures f.Alpha(k) != 0
  {
    hide f.StepN, Pow2;
    AlphaMod(f, k);
    var i := k % f.Nn();
    if f.Alpha(i) == 0 {
      StepNAdd(f, f.Nn() - i, i, 1);
      StepNZero(f, f.Nn() - i);
      assert false;
    }
  }

  lemma AlphaInjective(f: Field, i: nat, j: nat)
    requires i < j < f.Nn()
    ensures f.Alpha(i) != f.Alpha(j)
  {
    hide f.StepN, Pow2;
    var d := f.Nn() - j;
    assert f.Alpha(d + i) != 1;
    StepNAdd(f, d, i, 1);
    StepNAdd(f, d, j, 1);
  }

  // Two powers agree exactly when their exponents agree modulo 2^m - 1.
  lemma AlphaEqual(f: Field, i: nat, j: nat)
    ensures f.Nn() >= 1
    ensures f.Alpha(i) == f.Alpha(j) <==> i % f.Nn() == j % f.Nn()
  {
    hide f.Alpha, f.Size;
    AlphaMod(f, i);
    AlphaMod(f, j);
    var a, b := i % f.Nn(), j % f.Nn();
    if a < b {
      AlphaInjective(f, a, b);
    } else if b < a {
      AlphaInjective(f, b, a);
    }
  }

  // The numbers 1..n.
  ghost function UpTo(n: nat): (s: set<nat>)
    ensures |s| == n && forall x :: x in s <==> 1 <= x <= n
  {
    if n == 0 then {} else UpTo(n - 1) + {n}
  }

  ghost function Powers(f: Field, k: nat): set<nat> {
    set i: nat | i < k :: f.Alpha(i)
  }

  lemma {:induction false} PowersSize(f: Field, k: nat)
    requires k <= f.Nn()
    ensures |Powers(f, k)| == k
  {
    hide f.Alpha, f.Size;
    if k > 0 {
      PowersSize(f, k - 1);
      assert Powers(f, k) == Powers(f, k - 1) + {f.Alpha(k - 1)};
      forall i: nat | i < k - 1 ensures f.Alpha(i) != f.Alpha(k - 1) {
        AlphaInjective(f, i, k - 1);
      }
    }
  }

  // Every nonzero symbol is a power of alpha.
  lemma AlphaSurjective(f: Field, x: nat)
    requires 0 < x < f.Size()
    ensures exists i: nat :: i < f.Nn() && f.Alpha(i) == x
  {
    hide f.Alpha, Pow2;
    var n := f.Nn();
    var all := UpTo(n);
    PowersSize(f, n);
    forall i: nat | i < n ensures f.Alpha(i) in all {
      AlphaBound(f, i);
      AlphaNonzero(f, i);
    }
    assert Powers(f, n) <= all;
    if x !in Powers(f, n) {
      assert Powers(f, n) <= all - {x};
      SubsetSize(Powers(f, n), all - {x});
      assert false;
    }
  }

  lemma {:induction false} SubsetSize<T>(a: set<T>, b: set<T>)
    requires a <= b
    ensures |a| <= |b|
  {
    if a != {} {
      var x :| x in a;
      SubsetSize(a - {x}, b - {x});
    }
  }

  // The discrete logarithm of a nonzero symbol.
  ghost function Log(f: Field, x: nat): (i: nat)
    requires 0 < x < f.Size()
    ensures i < f.Nn() && f.Alpha(i) == x
  {
    AlphaSurjective(f, x);
    var i: nat :| i < f.Nn() && f.Alpha(i) == x;
    i
  }

  lemma LogAlpha(f: Field, k: nat)
    ensures 0 < f.Alpha(k) < f.Size() && f.Nn() >= 1
    ensures Log(f, f.Alpha(k)) == k % f.Nn()
  {
    hide f.Alpha, f.Size, Log;
    AlphaBound(f, k);
    AlphaNonzero(f, k);
    AlphaEqual(f, Log(f, f.Alpha(k)), k);
    assert Log(f, f.Alpha(k)) % f.Nn() == Log(f, f.Alpha(k));
  }

  // ---------- The field product ----------

  // Product by adding logarithms. Arguments are taken modulo 2^m, so that the
  // ring laws hold for all natural numbers.
  ghost function Mul(f: Field, a: nat, b: nat): (r: nat)
    ensures r < f.Size()
  {
    var x, y := Low(a, f.m), Low(b, f.m);
    if x == 0 || y == 0 then 0
    else
      AlphaBound(f, Log(f, x) + Log(f, y));
      f.Alpha(Log(f, x) + Log(f, y))
  }

  lemma MulLow(f: Field, a: nat, b: nat)
    ensures Mul(f, a, b) == Mul(f, Low(a, f.m), Low(b, f.m))
  {
    hide f.Alpha, Log, Low, Pow2;
    LowOfSmall(Low(a, f.m), f.m);
    LowOfSmall(Low(b, f.m), f.m);
  }

  lemma MulComm(f: Field, a: nat, b: nat)
    ensures Mul(f, a, b) == Mul(f, b, a)
  {
    hide f.Alpha, Log, f.Size;
  }

  lemma MulZero(f: Field, a: nat)
    ensures Mul(f, a, 0) == 0 && Mul(f, 0, a) == 0
  {
    hide f.Alpha, Log, Low, Pow2;
    LowOfZero(f.m);
  }

  lemma MulOfNonzero(f: Field, i: nat, j: nat)
    ensures f.Nn() >= 1
    ensures Mul(f, f.Alpha(i), f.Alpha(j)) == f.Alpha(i % f.Nn() + j % f.Nn())
  {
    hide f.Alpha, Log, Low, f.Size;
    LogAlpha(f, i);
    LogAlpha(f, j);
    AlphaInSymbols(f, i);
    AlphaInSymbols(f, j);
  }

  lemma AlphaInSymbols(f: Field, i: nat)
    ensures Low(f.Alpha(i), f.m) == f.Alpha(i)
  {
    AlphaBound(f, i);
    LowOfSmall(f.Alpha(i), f.m);
  }

  lemma MulAlphas(f: Field, i: nat, j: nat)
    ensures Mul(f, f.Alpha(i), f.Alpha(j)) == f.Alpha(i + j)
  {
    hide f.Alpha, Log, Low, f.Size, Mul;
    MulOfNonzero(f, i, j);
    var n := f.Nn();
    AlphaPeriod(f, i % n + j % n, i / n + j / n);
    SumOfQuotients(i, j, n);
  }

  lemma SumOfQuotients(i: nat, j: nat, n: nat)
    requires n > 0
    ensures i + j == i % n + j % n + (i / n + j / n) * n
  {
    var p, q := i / n, j / n;
    assert i == i % n + p * n && j == j % n + q * n;
    assert (p + q) * n == p * n + q * n;
  }

  // Multiplying by alpha^i is i turns of the register.
  lemma MulAlpha(f: Field, i: nat, b: nat)
    requires b < f.Size()
    ensures Mul(f, f.Alpha(i), b) == f.StepN(i, b)
  {
    hide f.StepN, Log, Pow2, Mul;
    if b == 0 {
      StepNZero(f, i);
      MulZero(f, f.Alpha(i));
    } else {
      var j := Log(f, b);
      MulAlphas(f, i, j);
      StepNAdd(f, i, j, 1);
    }
  }

  // The product distributes over exclusive-or.
  lemma MulDistrib(f: Field, a: nat, b: nat, c: nat)
    ensures Mul(f, a, Xor(b, c)) == Xor(Mul(f, a, b), Mul(f, a, c))
  {
    hide f.Alpha, Mul, Xor, Low, Pow2;
    MulLow(f, a, b);
    MulLow(f, a, c);
    MulLow(f, a, Xor(b, c));
    XorLow(b, c, f.m);
    var x, y, z := Low(a, f.m), Low(b, f.m), Low(c, f.m);
    XorBound(y, z, f.m);
    if x == 0 {
      MulZero(f, y); MulZero(f, z); MulZero(f, Xor(y, z)); XorZero(0);
    } else {
      var i := Log(f, x);
      MulAlpha(f, i, y);
      MulAlpha(f, i, z);
      MulAlpha(f, i, Xor(y, z));
      StepNLinear(f, i, y, z);
    }
  }

  lemma MulAssoc(f: Field, a: nat, b: nat, c: nat)
    ensures Mul(f, Mul(f, a, b), c) == Mul(f, a, Mul(f, b, c))
  {
    hide f.Alpha, Mul, Low, Pow2;
    var x, y, z := Low(a, f.m), Low(b, f.m), Low(c, f.m);
    MulLow(f, a, b);
    MulLow(f, b, c);
    MulLow(f, Mul(f, a, b), c);
    MulLow(f, a, Mul(f, b, c));
    LowOfSmall(Mul(f, a, b), f.m);
    LowOfSmall(Mul(f, b, c), f.m);
    if x == 0 || y == 0 || z == 0 {
      MulZero(f, x); MulZero(f, y); MulZero(f, z);
      MulZero(f, Mul(f, x, y)); MulZero(f, Mul(f, y, z));
    } else {
      var i, j, k := Log(f, x), Log(f, y), Log(f, z);
      MulAlphas(f, i, j);
      MulAlphas(f, j, k);
      MulAlphas(f, i + j, k);
      MulAlphas(f, i, j + k);
      assert (i + j) + k == i + (j + k);
    }
  }

  lemma MulOne(f: Field, a: nat)
    requires a < f.Size()
    ensures Mul(f, 1, a) == a && Mul(f, a, 1) == a
  {
    hide Mul, f.Size;
    assert f.StepN(0, a) == a;
    assert f.Alpha(0) == 1;
    MulAlpha(f, 0, a);
    MulComm(f, 1, a);
  }

  lemma MulNonzero(f: Field, a: nat, b: nat)
    requires 0 < a < f.Size() && 0 < b < f.Size()
    ensures Mul(f, a, b) != 0
  {
    hide f.Alpha, Mul, Log, f.Size;
    MulAlphas(f, Log(f, a), Log(f, b));
    AlphaNonzero(f, Log(f, a) + Log(f, b));
  }
}
