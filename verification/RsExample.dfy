// A three-bit code worked out by hand: polynomial 0xb, first root 1, primitive
// element alpha^3, two roots. Its roots are alpha^3 and alpha^6, that is the
// symbols 3 and 5.
module RsExample {
  import opened Arithmetic
  import opened Bits
  import opened GaloisField
  import opened Polynomials
  import opened KeyEquation
  import opened Periods
  import opened Primitivity
  import opened RsCodec
  import opened RsInit
  import opened RsCode
  import opened RsEncoder
  import opened RsMiscorrection
  import opened Wrappers

  lemma ThreeAndSeven()
    ensures Coprime(3, 7)
  {
    forall d: nat | Divisor(d, 3) && Divisor(d, 7) ensures d == 1 {
      if d > 3 { RemainderUnique(3, d, 0, 3); }
    }
  }

  lemma CodeParameters()
    ensures Register(3, GFPOLY).Primitive() && Constructible(8, 3, GFPOLY, 1, 3, 2, 0)
  {
    var r := Register(3, GFPOLY);
    hide r.Alpha, r.Step, Coprime;
    Cycle();
    PrimitiveTest(r);
    ThreeAndSeven();
  }

  lemma Products(f: Field)
    requires f == Register(3, GFPOLY)
    ensures Mul(f, 3, 5) == 4 && Mul(f, 5, 3) == 4
  {
    hide f.Alpha, f.Size, Mul;
    Cycle();
    MulAlphas(f, 3, 6);
    AlphaPeriod(f, 2, 1);
    MulComm(f, 3, 5);
  }

  // The symbols 1, 6 and 4 behind four zeros, at 3 and at 5.
  lemma LastThree(f: Field, x: nat, y: nat)
    requires f == Register(3, GFPOLY) && x < 8 && Xor(6, x) == y && Mul(f, x, y) == 4
    ensures Eval(f, [0, 0, 0, 0, 1, 6, 4], x, 7) == 0
  {
    hide Mul, Xor;
    var d: seq<nat> := [0, 0, 0, 0, 1, 6, 4];
    assert f.Size() == 8;
    hide f.Size;
    EvalOfZeros(f, d, x, 4);
    MulZero(f, x);
    XorZero(1);
    assert Eval(f, d, x, 5) == 1;
    MulOne(f, x);
    assert Eval(f, d, x, 6) == y;
    XorSelf(4);
  }

  lemma BlockHere(c: Codec, f: Field)
    requires f == Register(3, GFPOLY) && Valid(c, f) && c.nroots == 2 && c.fcr == 1 && c.prim == 3 && c.pad == 0
    ensures c.nn == 7 && Codeword(c, f, [0, 0, 0, 0, 1, 6, 4])
  {
    hide f.Alpha, Eval, Mul;
    Cycle();
    Products(f);
    assert c.nn == 7 by { TablesLength(c, f); }
    assert f.Size() == 8;
    assert Xor(6, 3) == 5 && Xor(6, 5) == 3;
    LastThree(f, 3, 5);
    LastThree(f, 5, 3);
  }

  // The encoder on a message of one nonzero symbol.
  method SmallEncode() returns (rs: Option<Codec>, parity: array<nat>)
    ensures rs.Some? && rs.value.prim == 3 && rs.value.fcr == 1 && parity[..] == [6, 4]
  {
    CodeParameters();
    hide Register.Primitive, Register.Alpha, Codeword, Constructible;
    ghost var f: Field := Register(3, GFPOLY);
    assert Pow2(3) == 8;
    rs := InitRs(8, 3, GFPOLY, 1, 3, 2, 0);
    var c := rs.value;
    BlockHere(c, f);
    hide Valid;
    parity := new nat[2];
    var message: seq<nat> := [0, 0, 0, 0, 1];
    assert f.Size() == 8;
    EncodeRs(c, f, message, parity);
    assert message + [6, 4] == [0, 0, 0, 0, 1, 6, 4];
    ParityUnique(c, f, message, parity[..], [6, 4]);
  }
}
