// The order of x modulo the checksum polynomial x^16 + x^12 + x^5 + 1.
module CrcOrder {
  import opened Arithmetic
  import opened Crc
  import opened Periods
  import opened Fcs

  // The k-th power of x: the register that holds 1, shifted k times.
  ghost function Power(k: nat): bv16 { ShiftN(k, 0x8000) }

  function Term(y: bv16, z: bv16): bv16 { if y & 0x8000 != 0 then z else 0 }

  function Round(y: bv16, z: bv16, inner: bv16): bv16 { Mix(Term(y, z), Shift(inner)) }

  // y*z modulo the polynomial, by Horner's rule over n coefficients of y.
  function Product(y: bv16, z: bv16, n: nat): bv16
    decreases n
  {
    if n == 0 then 0 else Round(y, z, Product(Double(y), z, n - 1))
  }

  // The same for all sixteen coefficients, written out.
  function Product16(y: bv16, z: bv16): bv16 {
    var y1 := Double(y); var y2 := Double(y1); var y3 := Double(y2); var y4 := Double(y3);
    var y5 := Double(y4); var y6 := Double(y5); var y7 := Double(y6); var y8 := Double(y7);
    var y9 := Double(y8); var yA := Double(y9); var yB := Double(yA); var yC := Double(yB);
    var yD := Double(yC); var yE := Double(yD); var yF := Double(yE);
    var top := Round(yC, z, Round(yD, z, Round(yE, z, Round(yF, z, 0))));
    var high := Round(y8, z, Round(y9, z, Round(yA, z, Round(yB, z, top))));
    Round(y, z, Round(y1, z, Round(y2, z, Round(y3, z, Round(y4, z, Round(y5, z, Round(y6, z, Round(y7, z, high))))))))
  }

  function DoubleN(n: nat, y: bv16): bv16
  {
    if n == 0 then y else DoubleN(n - 1, Double(y))
  }

  lemma TopBit(y: bv16)
    ensures y == Mix(Term(y, 0x8000), Shift(Double(y)))
  {
    hide Shift, Mix, Term;
    var low := y & 0x7FFF;
    assert Double(y) == low << 1;
    ShiftOfEven(low);
    SplitTop(y);
  }

  lemma SplitTop(y: bv16)
    ensures y == Mix(Term(y, 0x8000), y & 0x7FFF)
  {
    TopOrNothing(y);
    MaskParts(y);
  }

  lemma TopOrNothing(y: bv16)
    ensures Term(y, 0x8000) == y & 0x8000
  {
  }

  lemma MaskParts(y: bv16)
    ensures Mix(y & 0x8000, y & 0x7FFF) == y
  {
  }

  lemma {:induction false} TermPower(y: bv16, k: nat)
    ensures ShiftN(k, Term(y, 0x8000)) == Term(y, Power(k))
  {
    hide Shift;
    ShiftNZero(k);
  }

  // k shifts of y are y times the k-th power.
  lemma {:induction false} ProductIsShifts(k: nat, y: bv16, n: nat)
    ensures ShiftN(k, y) == Mix(Product(y, Power(k), n), ShiftN(n, ShiftN(k, DoubleN(n, y))))
    decreases n
  {
    hide Shift, Mix, Term, Double, ShiftN, Power;
    if n == 0 {
      assert ShiftN(0, ShiftN(k, y)) == ShiftN(k, y) by { ShiftStep(0, ShiftN(k, y)); }
      MixZero(ShiftN(k, y));
    } else {
      var y' := Double(y);
      ProductIsShifts(k, y', n - 1);
      TopBit(y);
      ShiftNLinear(k, Term(y, 0x8000), Shift(y'));
      TermPower(y, k);
      assert ShiftN(k, Shift(y')) == Shift(ShiftN(k, y')) by { ShiftCommutes(k, y'); }
      var p, r := Product(y', Power(k), n - 1), ShiftN(n - 1, ShiftN(k, DoubleN(n - 1, y')));
      ShiftLinear(p, r);
      ShiftStep(n - 1, ShiftN(k, DoubleN(n - 1, y')));
      MixAssoc(Term(y, Power(k)), Shift(p), Shift(r));
    }
  }

  lemma ShiftCommutes(k: nat, y: bv16)
    ensures ShiftN(k, Shift(y)) == Shift(ShiftN(k, y))
  {
    hide Shift, ShiftN;
    ShiftNAdd(k, 1, y);
    ShiftNAdd(1, k, y);
    ShiftStep(0, y);
    ShiftStep(0, ShiftN(k, y));
  }

  lemma DoubleStep(n: nat, y: bv16)
    ensures DoubleN(0, y) == y && DoubleN(n + 1, y) == DoubleN(n, Double(y))
  {
  }

  lemma ProductStep(y: bv16, z: bv16, n: nat)
    ensures Product(y, z, 0) == 0 && Product(y, z, n + 1) == Round(y, z, Product(Double(y), z, n))
  {
  }

  // Sixteen unrollings at once.
  lemma DoubleSixteen(y: bv16)
    ensures DoubleN(16, y) == 0
    ensures forall z :: Product(y, z, 16) == Product16(y, z)
  {
    hide DoubleN, Product;
    var y1 := Double(y); var y2 := Double(y1); var y3 := Double(y2); var y4 := Double(y3);
    var y5 := Double(y4); var y6 := Double(y5); var y7 := Double(y6); var y8 := Double(y7);
    var y9 := Double(y8); var yA := Double(y9); var yB := Double(yA); var yC := Double(yB);
    var yD := Double(yC); var yE := Double(yD); var yF := Double(yE);
    DoubleStep(15, y);
    DoubleStep(14, y1);
    DoubleStep(13, y2);
    DoubleStep(12, y3);
    DoubleStep(11, y4);
    DoubleStep(10, y5);
    DoubleStep(9, y6);
    DoubleStep(8, y7);
    DoubleStep(7, y8);
    DoubleStep(6, y9);
    DoubleStep(5, yA);
    DoubleStep(4, yB);
    DoubleStep(3, yC);
    DoubleStep(2, yD);
    DoubleStep(1, yE);
    DoubleStep(0, yF);
    DoubleStep(0, Double(yF));
    assert Double(yF) == 0;
    forall z ensures Product(y, z, 16) == Product16(y, z) {
      hide Round, Double;
      ProductStep(y, z, 15);
      ProductStep(y1, z, 14);
      ProductStep(y2, z, 13);
      ProductStep(y3, z, 12);
      ProductStep(y4, z, 11);
      ProductStep(y5, z, 10);
      ProductStep(y6, z, 9);
      ProductStep(y7, z, 8);
      ProductStep(y8, z, 7);
      ProductStep(y9, z, 6);
      ProductStep(yA, z, 5);
      ProductStep(yB, z, 4);
      ProductStep(yC, z, 3);
      ProductStep(yD, z, 2);
      ProductStep(yE, z, 1);
      ProductStep(yF, z, 0);
      ProductStep(Double(yF), z, 0);
    }
  }

  // Multiplying two known powers.
  lemma PowerStep(a: nat, b: nat, pa: bv16, pb: bv16, pc: bv16)
    requires Power(a) == pa && Power(b) == pb && Product16(pa, pb) == pc
    ensures Power(a + b) == pc
  {
    hide Shift, Mix, Product, Product16, DoubleN, ShiftN;
    ShiftNAdd(b, a, 0x8000);
    assert a + b == b + a;
    ProductIsShifts(b, pa, 16);
    DoubleSixteen(pa);
    ShiftNZero(b);
    ShiftNZero(16);
    MixZero(Product(pa, pb, 16));
  }

  // ---------- The powers that decide the order ----------

  lemma FirstPower()
    ensures Power(0) == 0x8000 && Power(1) == 0x4000
  {
    ShiftStep(0, 0x8000);
  }

  lemma LowPowers()
    ensures Power(2) == 0x2000 && Power(4) == 0x0800 && Power(8) == 0x0080 && Power(16) == 0x8408
    ensures Power(32) == 0x0CEC
  {
    hide Power;
    FirstPower();
    PowerStep(1, 1, 0x4000, 0x4000, 0x2000);
    PowerStep(2, 2, 0x2000, 0x2000, 0x0800);
    PowerStep(4, 4, 0x0800, 0x0800, 0x0080);
    PowerStep(8, 8, 0x0080, 0x0080, 0x8408);
    PowerStep(16, 16, 0x8408, 0x8408, 0x0CEC);
  }

  lemma MiddlePowers()
    ensures Power(64) == 0x861D && Power(128) == 0x3F75 && Power(256) == 0x9471 && Power(512) == 0x3FC8
    ensures Power(1024) == 0x236C
  {
    hide Power;
    LowPowers();
    PowerStep(32, 32, 0x0CEC, 0x0CEC, 0x861D);
    PowerStep(64, 64, 0x861D, 0x861D, 0x3F75);
    PowerStep(128, 128, 0x3F75, 0x3F75, 0x9471);
    PowerStep(256, 256, 0x9471, 0x9471, 0x3FC8);
    PowerStep(512, 512, 0x3FC8, 0x3FC8, 0x236C);
  }

  lemma HighPowers()
    ensures Power(2048) == 0x0ABF && Power(4096) == 0x7955 && Power(8192) == 0x3811 && Power(16384) == 0x1A22
    ensures Power(32768) == 0x4000
  {
    hide Power;
    MiddlePowers();
    PowerStep(1024, 1024, 0x236C, 0x236C, 0x0ABF);
    PowerStep(2048, 2048, 0x0ABF, 0x0ABF, 0x7955);
    PowerStep(4096, 4096, 0x7955, 0x7955, 0x3811);
    PowerStep(8192, 8192, 0x3811, 0x3811, 0x1A22);
    PowerStep(16384, 16384, 0x1A22, 0x1A22, 0x4000);
  }

  // None of the largest proper divisors of 32767 is a period, 32767 is.
  lemma DivisorPowers()
    ensures Power(217) != Power(0) && Power(1057) != Power(0) && Power(4681) != Power(0)
  {
    hide Power;
    FirstPower();
    LowPowers();
    MiddlePowers();
    HighPowers();
    PowerStep(128, 64, 0x3F75, 0x861D, 0xD0A6);
    PowerStep(192, 16, 0xD0A6, 0x8408, 0x2DA2);
    PowerStep(208, 8, 0x2DA2, 0x0080, 0x8635);
    PowerStep(216, 1, 0x8635, 0x4000, 0xC712);
    PowerStep(1024, 32, 0x236C, 0x0CEC, 0xE28F);
    PowerStep(1056, 1, 0xE28F, 0x4000, 0xF54F);
    PowerStep(4096, 512, 0x7955, 0x3FC8, 0x052A);
    PowerStep(4608, 64, 0x052A, 0x861D, 0x6080);
    PowerStep(4672, 8, 0x6080, 0x0080, 0x8468);
    PowerStep(4680, 1, 0x8468, 0x4000, 0x4234);
  }

  lemma FullPeriod()
    ensures Power(32767) == Power(0)
  {
    hide Power;
    FirstPower();
    HighPowers();
    assert Power(32768) == Power(1);
    assert Power(1 + 32767) == ShiftN(1, Power(32767)) && Power(1 + 0) == ShiftN(1, Power(0)) by {
      PowerAdd(1, 32767);
      PowerAdd(1, 0);
    }
    ShiftNInjective(1, Power(32767), Power(0));
  }

  lemma PowerAdd(a: nat, b: nat)
    ensures Power(a + b) == ShiftN(a, Power(b))
  {
    hide ShiftN;
    ShiftNAdd(a, b, 0x8000);
  }

  // ---------- Periods ----------

  ghost function Cycles(): nat -> bool {
    (k: nat) => Power(k) == Power(0)
  }

  lemma CyclesClosed()
    ensures Closed(Cycles())
  {
    hide Power;
    var p := Cycles();
    forall a: nat, b: nat | p(a) ensures p(Sum(a, b)) <==> p(b) {
      assert Sum(a, b) == b + a;
      PowerAdd(b, a);
      PowerAdd(b, 0);
    }
  }

  // ---------- 32767 = 7 * 31 * 151 ----------

  lemma Residues7(r: nat, s: nat)
    requires 0 < r < 7 && 0 < s < 7
    ensures (r * s) % 7 != 0
  {
    var t := r * s / 7;
    if r == 1 {} else if r == 2 {} else if r == 3 {} else if r == 4 {} else if r == 5 {} else {}
  }

  lemma Residues31(r: nat, s: nat)
    requires 0 < r < 31 && 0 < s < 31
    ensures (r * s) % 31 != 0
  {
    var t := r * s / 31;
    if r <= 8 {
      if r == 1 {} else if r == 2 {} else if r == 3 {} else if r == 4 {} else if r == 5 {}
      else if r == 6 {} else if r == 7 {} else {}
    } else if r <= 16 {
      if r == 9 {} else if r == 10 {} else if r == 11 {} else if r == 12 {}
      else if r == 13 {} else if r == 14 {} else if r == 15 {} else {}
    } else if r <= 24 {
      if r == 17 {} else if r == 18 {} else if r == 19 {} else if r == 20 {}
      else if r == 21 {} else if r == 22 {} else if r == 23 {} else {}
    } else {
      if r == 25 {} else if r == 26 {} else if r == 27 {} else if r == 28 {} else if r == 29 {} else {}
    }
  }

  lemma ProductResidue(p: nat, a: nat, b: nat)
    requires p > 0 && (a * b) % p == 0
    ensures ((a % p) * (b % p)) % p == 0
  {
    ScaleOne(b, a, p);
    ScaleOne(a, b % p, p);
    assert a * (b % p) == (b % p) * a;
    assert (b % p) * (a % p) == (a % p) * (b % p);
  }

  lemma Exact(y: nat, p: nat, k: nat)
    requires p > 0 && y == p * k
    ensures y % p == 0
  {
    RemainderUnique(y, p, k, 0);
  }

  lemma SplitBy7(q: nat, g: nat)
    requires g > 0 && q * g == 32767
    ensures 4681 % g == 0 || (g % 7 == 0 && q * (g / 7) == 4681)
  {
    ProductResidue(7, q, g);
    if q % 7 == 0 {
      var u := q / 7;
      assert 4681 == g * u by { assert 7 * (u * g) == q * g; }
      Exact(4681, g, u);
    } else if g % 7 == 0 {
      var h := g / 7;
      assert q * h == 4681 by { assert 7 * (q * h) == q * g; }
    } else {
      Residues7(q % 7, g % 7);
    }
  }

  lemma SplitBy31(q: nat, h: nat)
    requires h > 0 && q * h == 4681
    ensures 151 % h == 0 || (h % 31 == 0 && q * (h / 31) == 151)
  {
    ProductResidue(31, q, h);
    if q % 31 == 0 {
      var u := q / 31;
      assert 151 == h * u by { assert 31 * (u * h) == q * h; }
      Exact(151, h, u);
    } else if h % 31 == 0 {
      var w := h / 31;
      assert q * w == 151 by { assert 31 * (q * w) == q * h; }
    } else {
      Residues31(q % 31, h % 31);
    }
  }

  lemma SmallCofactor(q: nat, w: nat)
    requires q * w == 151 && w >= 13
    ensures q <= 11
  {
    assert q * w == 11 * w + w * (q - 11);
    if q >= 12 { MulAtLeast(w, q - 11); }
  }

  lemma Prime151(q: nat, w: nat)
    requires q * w == 151 && q >= 2
    ensures w == 1
  {
    if w < 13 {
      if w == 0 {} else if w == 1 {} else if w == 2 {} else if w == 3 {} else if w == 4 {}
      else if w == 5 {} else if w == 6 {}
      else if w == 7 {} else if w == 8 {} else if w == 9 {} else if w == 10 {} else if w == 11 {} else {}
    } else {
      SmallCofactor(q, w);
      if q == 2 {} else if q == 3 {} else if q == 4 {} else if q == 5 {} else if q == 6 {} else if q == 7 {}
      else if q == 8 {} else if q == 9 {} else if q == 10 {} else {}
    }
  }

  // Every proper divisor of 32767 divides 4681, 1057 or 217.
  lemma ProperDivisor(g: nat)
    requires 0 < g < 32767 && 32767 % g == 0
    ensures 4681 % g == 0 || 1057 % g == 0 || 217 % g == 0
  {
    var q := 32767 / g;
    assert q * g == 32767;
    assert q >= 2;
    SplitBy7(q, g);
    if 4681 % g != 0 {
      var h := g / 7;
      SplitBy31(q, h);
      if 151 % h == 0 {
        var k := 151 / h;
        assert 151 == h * k;
        assert 1057 == g * k by { assert 7 * (h * k) == (7 * h) * k; }
        Exact(1057, g, k);
      } else {
        Prime151(q, h / 31);
        assert g == 217;
      }
    }
  }

  // x has order exactly 32767: the powers that are 1 are those of its multiples.
  lemma OrderOfX(d: nat)
    ensures Power(d) == Power(0) <==> d % 32767 == 0
  {
    hide Power;
    var p, r := Cycles(), d % 32767;
    FullPeriod();
    CyclesClosed();
    assert d == (d / 32767) * 32767 + r;
    Multiples(p, 32767, d / 32767, r);
    assert p(d) <==> p(r);
    if r > 0 && p(r) {
      var g := CommonDivisor(p, r, 32767);
      ProperDivisor(g);
      DivisorPowers();
      if 4681 % g == 0 {
        MultipleIn(p, g, 4681);
      } else if 1057 % g == 0 {
        MultipleIn(p, g, 1057);
      } else {
        MultipleIn(p, g, 217);
      }
      assert false;
    }
  }
}
