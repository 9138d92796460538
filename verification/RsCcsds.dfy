// The instance of the CCSDS telemetry standard (section 4 of CCSDS 131.0-B):
// lib/libfec/fixed.h and lib/libfec/gen_ccsds.c.
module RsCcsds {
  import opened Arithmetic
  import opened Bits
  import opened GaloisField
  import opened RsInit
  import opened RsCodec
  import opened RsCode
  import opened RsGenerator
  import opened Wrappers
  import opened Periods
  import opened Primitivity
  import opened WireBits

  const GFPOLY: nat := 0x187
  const FCR: int := 112
  const PRIM: int := 11
  const IPRIM: nat := 116
  const NROOTS: int := 32

  // ---------- Bytes as bit lists and as numbers ----------

  function ToNat(bits: seq<bool>): nat {
    if bits == [] then 0 else (if bits[0] then 1 else 0) + 2 * ToNat(bits[1..])
  }

  function Number(x: bv8): nat { ToNat(ByteBits(x)) }

  lemma Halved(s: seq<bool>)
    requires s != []
    ensures ToNat(s) % 2 == (if s[0] then 1 else 0) && ToNat(s) / 2 == ToNat(s[1..])
  {
  }

  lemma {:induction false} XorOfBits(s: seq<bool>, t: seq<bool>)
    requires |s| == |t|
    ensures Xor(ToNat(s), ToNat(t)) == ToNat(Differ(s, t))
  {
    hide Xor;
    if s == [] {
      XorZero(0);
    } else {
      XorOfFirst(s, t);
      XorOfBits(s[1..], t[1..]);
      HalvesDetermine(Xor(ToNat(s), ToNat(t)), ToNat(Differ(s, t)));
    }
  }

  lemma XorOfFirst(s: seq<bool>, t: seq<bool>)
    requires |s| == |t| > 0
    ensures var x, d := Xor(ToNat(s), ToNat(t)), ToNat(Differ(s, t));
      x % 2 == d % 2 && x / 2 == Xor(ToNat(s[1..]), ToNat(t[1..])) && d / 2 == ToNat(Differ(s[1..], t[1..]))
  {
    hide Xor, ToNat;
    XorUnfold(ToNat(s), ToNat(t));
    Halved(s);
    Halved(t);
    Halved(Differ(s, t));
    assert Differ(s, t)[1..] == Differ(s[1..], t[1..]);
  }

  lemma {:induction false} LowOfBits(s: seq<bool>, n: nat)
    requires n <= |s|
    ensures Low(ToNat(s), n) == ToNat(s[..n])
  {
    if n > 0 {
      LowOfBits(s[1..], n - 1);
      assert s[..n][1..] == s[1..][..n - 1];
    }
  }

  lemma {:induction false} ShrOfBits(s: seq<bool>, n: nat)
    requires n <= |s|
    ensures Shr(ToNat(s), n) == ToNat(s[n..])
  {
    hide ToNat;
    if n > 0 {
      ShrOfBits(s[1..], n - 1);
      Halved(s);
      assert s[1..][n - 1..] == s[n..];
    } else {
      assert s[0..] == s;
    }
  }

  lemma {:induction false} ToNatInjective(s: seq<bool>, t: seq<bool>)
    requires |s| == |t| && ToNat(s) == ToNat(t)
    ensures s == t
  {
    if s != [] {
      ToNatInjective(s[1..], t[1..]);
      assert s == [s[0]] + s[1..] && t == [t[0]] + t[1..];
    }
  }

  lemma NumberInjective(x: bv8, y: bv8)
    requires Number(x) == Number(y)
    ensures x == y
  {
    hide ByteBits;
    ToNatInjective(ByteBits(x), ByteBits(y));
    BitsDetermineByte(x, y);
  }

  function Both(x: bv8, y: bv8): bv8 { x ^ y }

  lemma BothMask(x: bv8, y: bv8, t: nat)
    requires t < 8
    ensures (Both(x, y) & Mask(t) != 0) == ((x & Mask(t) != 0) != (y & Mask(t) != 0))
  {
  }

  lemma BothBits(x: bv8, y: bv8)
    ensures ByteBits(Both(x, y)) == Differ(ByteBits(x), ByteBits(y))
  {
    hide Both, ByteBits;
    forall t: nat | t < 8 ensures ByteBits(Both(x, y))[t] == Differ(ByteBits(x), ByteBits(y))[t] {
      hide Mask;
      BothMask(x, y, t);
      ByteBitIsMask(x, t);
      ByteBitIsMask(y, t);
      ByteBitIsMask(Both(x, y), t);
    }
  }

  lemma XorOfNumbers(x: bv8, y: bv8)
    ensures Xor(Number(x), Number(y)) == Number(Both(x, y))
  {
    hide Xor, ByteBits, Both;
    XorOfBits(ByteBits(x), ByteBits(y));
    BothBits(x, y);
  }

  // ---------- The register on bytes ----------

  function Left(x: bv8): bv8 { x << 1 }

  predicate Top(x: bv8) { x & 0x80 != 0 }

  function Turn(g: bv8, x: bv8): bv8 { Both(Left(x), if Top(x) then g else 0) }

  lemma LeftBits(x: bv8)
    ensures ByteBits(Left(x))[0] == false && ByteBits(Left(x))[1..] == ByteBits(x)[..7] && Top(x) == ByteBits(x)[7]
  {
    LeftMasks(x);
  }

  lemma LeftMasks(r: bv8)
    ensures var x := Left(r);
      && x & 1 == 0 && (x & 2 != 0) == (r & 1 != 0) && (x & 4 != 0) == (r & 2 != 0) && (x & 8 != 0) == (r & 4 != 0)
      && (x & 16 != 0) == (r & 8 != 0) && (x & 32 != 0) == (r & 16 != 0) && (x & 64 != 0) == (r & 32 != 0)
      && (x & 128 != 0) == (r & 64 != 0) && Top(r) == (r & 128 != 0)
  {
  }

  lemma DoubledNumber(x: bv8)
    ensures Low(2 * Number(x), 8) == Number(Left(x))
    ensures Shr(2 * Number(x), 8) % 2 == if Top(x) then 1 else 0
  {
    hide ByteBits, Left, Top, Low, Shr;
    var bits := ByteBits(x);
    var nine := [false] + bits;
    assert nine[1..] == bits;
    assert ToNat(nine) == 2 * Number(x);
    LowOfBits(nine, 8);
    ShrOfBits(nine, 8);
    LeftBits(x);
    assert nine[..8] == ByteBits(Left(x));
    assert nine[8..] == [bits[7]] && [bits[7]][1..] == [];
  }

  lemma ZeroNumber()
    ensures Number(0) == 0
  {
    assert ByteBits(0) == [false, false, false, false, false, false, false, false];
    ZeroBits(ByteBits(0));
  }

  lemma {:induction false} ZeroBits(s: seq<bool>)
    requires forall i :: 0 <= i < |s| ==> !s[i]
    ensures ToNat(s) == 0
  {
    if s != [] { ZeroBits(s[1..]); }
  }

  lemma StepIsTurn(f: Register, g: bv8, x: bv8)
    requires f.m == 8 && Low(f.gfpoly, 8) == Number(g)
    ensures f.Step(Number(x)) == Number(Turn(g, x))
  {
    hide Xor, Low, Shr, Number, Left, Top, Both, f.Step;
    StepForm(f, Number(x));
    DoubledNumber(x);
    ZeroNumber();
    XorOfNumbers(Left(x), if Top(x) then g else 0);
  }

  function Turns(g: bv8, k: nat): bv8 {
    if k == 0 then 1 else Turn(g, Turns(g, k - 1))
  }

  lemma OneNumber()
    ensures Number(1) == 1
  {
    var s := ByteBits(1);
    assert s == [true, false, false, false, false, false, false, false];
    ZeroBits(s[1..]);
  }

  lemma {:induction false} AlphaIsTurns(f: Register, g: bv8, k: nat)
    requires f.m == 8 && Low(f.gfpoly, 8) == Number(g)
    ensures f.Alpha(k) == Number(Turns(g, k))
  {
    hide f.Step, Turn, Number, Low;
    OneNumber();
    if k > 0 {
      AlphaIsTurns(f, g, k - 1);
      StepIsTurn(f, g, Turns(g, k - 1));
    }
  }

  lemma AlphaIsOne(f: Register, g: bv8, k: nat)
    requires f.m == 8 && Low(f.gfpoly, 8) == Number(g)
    ensures f.Alpha(k) == 1 <==> Turns(g, k) == 1
  {
    hide f.Alpha, Turns, Number, Low;
    AlphaIsTurns(f, g, k);
    OneNumber();
    if f.Alpha(k) == 1 { NumberInjective(Turns(g, k), 1); }
  }

  // ---------- Seventeen turns at a time ----------

  function FourTurns(g: bv8, x: bv8): bv8 { Turn(g, Turn(g, Turn(g, Turn(g, x)))) }

  function SixteenTurns(g: bv8, x: bv8): bv8 { FourTurns(g, FourTurns(g, FourTurns(g, FourTurns(g, x)))) }

  lemma FourMore(g: bv8, k: nat)
    ensures Turns(g, k + 4) == FourTurns(g, Turns(g, k))
  {
    hide Turn;
    assert Turns(g, k + 1) == Turn(g, Turns(g, k));
    assert Turns(g, k + 2) == Turn(g, Turns(g, k + 1));
    assert Turns(g, k + 3) == Turn(g, Turns(g, k + 2));
    assert Turns(g, k + 4) == Turn(g, Turns(g, k + 3));
  }

  lemma SixteenMore(g: bv8, k: nat)
    ensures Turns(g, k + 16) == SixteenTurns(g, Turns(g, k))
  {
    hide FourTurns, Turns;
    FourMore(g, k);
    FourMore(g, k + 4);
    FourMore(g, k + 8);
    FourMore(g, k + 12);
  }

  lemma OneMore(g: bv8, k: nat)
    ensures Turns(g, k + 1) == Turn(g, Turns(g, k))
  {
  }

  lemma SeventeenMore(g: bv8, k: nat, x: bv8, y: bv8)
    requires Turns(g, k) == x && Turn(g, SixteenTurns(g, x)) == y
    ensures Turns(g, k + 17) == y
  {
    hide Turn, Turns, SixteenTurns;
    SixteenMore(g, k);
    OneMore(g, k + 16);
  }

  lemma NoTurn(g: bv8)
    ensures Turns(g, 0) == 1
  {
  }

  lemma FirstFiftyOne()
    ensures Turns(0x87, 51) == 0x6c
  {
    hide Turns;
    assert Turns(0x87, 0) == 1 by { NoTurn(0x87); }
    SeventeenMore(0x87, 0, 0x1, 0xde);
    SeventeenMore(0x87, 17, 0xde, 0x74);
    SeventeenMore(0x87, 34, 0x74, 0x6c);
  }

  lemma SecondFiftyOne()
    requires Turns(0x87, 51) == 0x6c
    ensures Turns(0x87, 102) == 0x18 && Turns(0x87, 85) == 0xaa
  {
    hide Turns;
    SeventeenMore(0x87, 51, 0x6c, 0xdf);
    SeventeenMore(0x87, 68, 0xdf, 0xaa);
    SeventeenMore(0x87, 85, 0xaa, 0x18);
  }

  lemma ThirdFiftyOne()
    requires Turns(0x87, 102) == 0x18
    ensures Turns(0x87, 153) == 0xb2
  {
    hide Turns;
    SeventeenMore(0x87, 102, 0x18, 0xb3);
    SeventeenMore(0x87, 119, 0xb3, 0x75);
    SeventeenMore(0x87, 136, 0x75, 0xb2);
  }

  lemma FourthFiftyOne()
    requires Turns(0x87, 153) == 0xb2
    ensures Turns(0x87, 204) == 0xc7
  {
    hide Turns;
    SeventeenMore(0x87, 153, 0xb2, 0xab);
    SeventeenMore(0x87, 170, 0xab, 0xc6);
    SeventeenMore(0x87, 187, 0xc6, 0xc7);
  }

  lemma LastFiftyOne()
    requires Turns(0x87, 204) == 0xc7
    ensures Turns(0x87, 255) == 0x1
  {
    hide Turns;
    SeventeenMore(0x87, 204, 0xc7, 0x19);
    SeventeenMore(0x87, 221, 0x19, 0x6d);
    SeventeenMore(0x87, 238, 0x6d, 0x1);
  }

  lemma CcsdsPowers()
    ensures Turns(0x87, 51) == 0x6c && Turns(0x87, 85) == 0xaa && Turns(0x87, 255) == 1
  {
    hide Turns;
    FirstFiftyOne();
    SecondFiftyOne();
    ThirdFiftyOne();
    FourthFiftyOne();
    LastFiftyOne();
  }

  lemma FifteenTurns()
    ensures Turns(0x87, 15) == 0xf4
  {
    hide Turns, FourTurns;
    NoTurn(0x87);
    FourMore(0x87, 0);
    FourMore(0x87, 4);
    FourMore(0x87, 8);
    OneMore(0x87, 12);
    OneMore(0x87, 13);
    OneMore(0x87, 14);
    TwelveTurns();
  }

  lemma TwelveTurns()
    ensures Turn(0x87, Turn(0x87, Turn(0x87, FourTurns(0x87, FourTurns(0x87, FourTurns(0x87, 1)))))) == 0xf4
  {
  }

  lemma ShortCycle()
    ensures Turns(0x1B, 51) == 1
  {
    hide Turns;
    assert Turns(0x1B, 0) == 1 by { NoTurn(0x1B); }
    SeventeenMore(0x1B, 0, 0x1, 0xbc);
    SeventeenMore(0x1B, 17, 0xbc, 0xbd);
    SeventeenMore(0x1B, 34, 0xbd, 0x1);
  }

  // ---------- Primitive or not ----------

  lemma TapsOfCcsds()
    ensures Low(GFPOLY, 8) == Number(0x87)
  {
    assert Low(0x187, 8) == 0x87 by { LowOfTaps(0x187, 0x87); }
    var s := ByteBits(0x87);
    assert s == [true, true, true, false, false, false, false, true];
    NumberOf(s);
  }

  lemma TapsOf11b()
    ensures Low(0x11B, 8) == Number(0x1B)
  {
    assert Low(0x11B, 8) == 0x1B by { LowOfTaps(0x11B, 0x1B); }
    var s := ByteBits(0x1B);
    assert s == [true, true, false, true, true, false, false, false];
    NumberOf(s);
  }

  lemma {:induction false} LowIsMod(a: nat, n: nat)
    ensures Low(a, n) == a % Pow2(n)
  {
    if n > 0 {
      LowIsMod(a / 2, n - 1);
      HalfRemainder(a, Pow2(n - 1));
    }
  }

  lemma HalfRemainder(a: nat, p: nat)
    requires p > 0
    ensures a % (2 * p) == 2 * ((a / 2) % p) + a % 2
  {
    var q, r := (a / 2) / p, (a / 2) % p;
    assert a / 2 == p * q + r;
    TwiceProduct(p, q);
    RemainderUnique(a, 2 * p, q, 2 * r + a % 2);
  }

  lemma LowOfTaps(taps: nat, low: nat)
    requires taps == 256 + low && low < 256
    ensures Low(taps, 8) == low
  {
    LowIsMod(taps, 8);
    Pow2OfEight();
  }

  lemma NumberOf(s: seq<bool>)
    requires |s| == 8
    ensures ToNat(s) == (if s[0] then 1 else 0) + (if s[1] then 2 else 0) + (if s[2] then 4 else 0)
      + (if s[3] then 8 else 0) + (if s[4] then 16 else 0) + (if s[5] then 32 else 0)
      + (if s[6] then 64 else 0) + (if s[7] then 128 else 0)
  {
    hide ToNat;
    Suffix(s, 0); Suffix(s, 1); Suffix(s, 2); Suffix(s, 3);
    Suffix(s, 4); Suffix(s, 5); Suffix(s, 6); Suffix(s, 7);
    assert s[0..] == s;
    assert ToNat(s[8..]) == 0 by { NothingNumber(s[8..]); }
  }

  lemma NothingNumber(s: seq<bool>)
    requires |s| == 0
    ensures ToNat(s) == 0
  {
  }

  lemma Suffix(s: seq<bool>, k: nat)
    requires k < |s|
    ensures ToNat(s[k..]) == (if s[k] then 1 else 0) + 2 * ToNat(s[k + 1..])
  {
    assert s[k..][1..] == s[k + 1..];
  }

  // ---------- Periods ----------

  // 255 = 3 * 5 * 17
  lemma ProperDivisor(g: nat)
    requires 0 < g < 255 && 255 % g == 0
    ensures 15 % g == 0 || 51 % g == 0 || 85 % g == 0
  {
    var q := 255 / g;
    assert q * g == 255;
    if g >= 16 {
      assert q <= 15 by { if q >= 16 { Products(q, g); } }
      SmallCofactor(q, g);
    }
  }

  lemma Products(q: nat, g: nat)
    requires q >= 16 && g >= 16
    ensures q * g >= 256
  {
  }

  lemma SmallCofactor(q: nat, g: nat)
    requires q * g == 255 && 2 <= q <= 15
    ensures g == 85 || g == 51 || g == 17
  {
    if q == 2 { assert false; }
    if q == 4 { assert false; }
    if q == 6 { assert false; }
    if q == 7 { assert false; }
    if q == 8 { assert false; }
    if q == 9 { assert false; }
    if q == 10 { assert false; }
    if q == 11 { assert false; }
    if q == 12 { assert false; }
    if q == 13 { assert false; }
    if q == 14 { assert false; }
    assert q == 3 || q == 5 || q == 15;
  }

  lemma NoShorterPeriod(f: Register, i: nat)
    requires f.Alpha(255) == 1 && f.Alpha(15) != 1 && f.Alpha(51) != 1 && f.Alpha(85) != 1
    requires 0 < i < 255
    ensures f.Alpha(i) != 1
  {
    hide f.Alpha;
    var p := Returns(f);
    ReturnsClosed(f);
    if p(i) {
      var g := CommonDivisor(p, i, 255);
      ProperDivisor(g);
      if 15 % g == 0 {
        MultipleIn(p, g, 15);
      } else if 51 % g == 0 {
        MultipleIn(p, g, 51);
      } else {
        MultipleIn(p, g, 85);
      }
      assert false;
    }
  }

  lemma CcsdsPeriods(f: Register)
    requires f == Register(8, GFPOLY)
    ensures f.Alpha(255) == 1 && f.Alpha(15) != 1 && f.Alpha(51) != 1 && f.Alpha(85) != 1
  {
    hide Turns, f.Alpha, Low, Number;
    TapsOfCcsds();
    CcsdsPowers();
    FifteenTurns();
    AlphaIsOne(f, 0x87, 15);
    AlphaIsOne(f, 0x87, 51);
    AlphaIsOne(f, 0x87, 85);
    AlphaIsOne(f, 0x87, 255);
  }

  // x^8 + x^7 + x^2 + x + 1 is primitive: the register runs through all 255 states.
  lemma CcsdsPrimitive()
    ensures Register(8, GFPOLY).Primitive()
  {
    var f := Register(8, GFPOLY);
    hide f.Alpha, f.Size;
    assert f.Size() == 256 by { Pow2OfEight(); }
    CcsdsPeriods(f);
    forall i: nat | 0 < i < 255 ensures f.Alpha(i) != 1 { NoShorterPeriod(f, i); }
  }

  // 11 * 116 = 1 + 5 * 255
  lemma CcsdsInvertible()
    ensures Coprime(PRIM, 255) && PRIM * IPRIM == 5 * 255 + 1
  {
    assert Divisor(PRIM, 1 + 5 * 255);
    InverseExists(PRIM, 255);
  }

  // The parameters of the telemetry standard meet what InitRs asks for.
  lemma CcsdsConstructible(pad: int)
    ensures Constructible(8, 8, GFPOLY, FCR, PRIM, NROOTS, pad)
  {
    hide Coprime;
    CcsdsPrimitive();
    CcsdsInvertible();
    Pow2OfEight();
    PrimitiveTest(Register(8, GFPOLY));
  }

  // The parameters give a control block for exactly the paddings 0 to 222,
  // and its generator polynomial reads the same from both ends.
  method CcsdsBlock(pad: int) returns (rs: Option<Codec>)
    ensures rs.Some? <==> 0 <= pad <= 222
    ensures Register(8, GFPOLY).Primitive()
    ensures rs.Some? ==>
      && Valid(rs.value, Register(8, GFPOLY)) && rs.value.nroots == 32 && rs.value.pad == pad
      && forall j :: 0 <= j <= 32 ==> rs.value.genpoly[j] == rs.value.genpoly[32 - j]
  {
    hide Valid, Register.Primitive, Constructible;
    CcsdsConstructible(pad);
    CcsdsPrimitive();
    Pow2OfEight();
    rs := InitRs(8, 8, GFPOLY, FCR, PRIM, NROOTS, pad);
    if rs.Some? {
      CcsdsPalindrome(rs.value, Register(8, GFPOLY));
    }
  }

  // The first root 112 puts the 32 exponents symmetrically about 255 / 2.
  lemma CcsdsPalindrome(c: Codec, f: Field)
    requires f.m == 8 && Valid(c, f) && c.fcr == FCR && c.prim == PRIM && c.nroots == NROOTS
    ensures |c.genpoly| == 33 && forall j :: 0 <= j <= 32 ==> c.genpoly[j] == c.genpoly[32 - j]
  {
    hide Tables, f.Alpha, Generator, Pow2;
    assert |c.genpoly| == 33;
    TablesLength(c, f);
    Pow2OfEight();
    assert c.nn == 255;
    hide Valid;
    forall j: nat | j <= 32 ensures c.genpoly[j] == c.genpoly[32 - j] {
      PalindromicIndices(c, f, j);
    }
  }

  // The register test at the end of the table loop only shows that the period
  // divides 255: the taps 0x11b pass it with a period of 51.
  lemma RegisterTestIsNotEnough()
    ensures var f := Register(8, 0x11B); f.Alpha(f.Nn()) == 1 && !f.Primitive()
  {
    var f := Register(8, 0x11B);
    hide Turns, f.Alpha, Low, Number;
    TapsOf11b();
    ShortCycle();
    AlphaIsOne(f, 0x1B, 51);
    Pow2OfEight();
    ReturnsClosed(f);
    assert Returns(f)(51);
    MultipleIn(Returns(f), 51, 255);
    assert 0 < 51 < f.Nn();
  }

  // mod255: reduction by folding the high bits onto the low byte.
  method Mod255(x: nat) returns (r: nat)
    ensures r == x % 255
  {
    r := x;
    while r >= 255
      invariant r % 255 == x % 255
    {
      SubtractOnce(r, 255);
      r := r - 255;
      FoldModulus(r, r / 256, 255);
      r := r / 256 + r % 256;
    }
  }
}
