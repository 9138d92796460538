// The checksums of lib/crc.cc that take the most significant bit first:
// crc16_ccitt, crc16_aug_ccitt and crc16_ibm.
module CrcMsb {
  import opened BitPacking
  import CrcMsbTable

  const CCITT: bv16 := 0x1021
  const IBM: bv16 := 0x8005

  function Mix(a: bv16, b: bv16): bv16 { a ^ b }

  function Double(w: bv16): bv16 { w << 1 }

  predicate Top(w: bv16) { w & 0x8000 != 0 }

  // One step of division by x^16 plus the low-order terms `poly`.
  function Step(poly: bv16, x: bv16): bv16 {
    Mix(Double(x), Feedback(poly, x))
  }

  function Feedback(poly: bv16, x: bv16): bv16 { (0 - (x >> 15)) & poly }

  lemma FeedbackIs(poly: bv16, x: bv16)
    ensures Feedback(poly, x) == if Top(x) then poly else 0
  {
  }

  function BitWord(b: bool): bv16 { if b then 0x8000 else 0 }

  function ByteWord(b: bv8): bv16 { (b as bv16) << 8 }

  // Bit-serial polynomial division: the reference definition of the checksums.
  function FeedBits(poly: bv16, reg: bv16, bits: seq<bool>): bv16 {
    if bits == [] then reg
    else Step(poly, Mix(FeedBits(poly, reg, bits[..|bits| - 1]), BitWord(bits[|bits| - 1])))
  }

  // ---------- The register is linear ----------

  lemma MixAssoc(a: bv16, b: bv16, c: bv16)
    ensures Mix(Mix(a, b), c) == Mix(a, Mix(b, c))
  {
  }

  lemma MixZero(a: bv16)
    ensures Mix(a, 0) == a && Mix(0, a) == a && Mix(a, a) == 0
  {
  }

  lemma MixSwap(a: bv16, b: bv16, c: bv16, d: bv16)
    ensures Mix(Mix(a, b), Mix(c, d)) == Mix(Mix(a, c), Mix(b, d))
  {
    hide Mix;
    MixAssoc(a, b, Mix(c, d));
    MixAssoc(b, c, d);
    MixComm(b, c);
    MixAssoc(c, b, d);
    MixAssoc(a, c, Mix(b, d));
  }

  lemma MixComm(a: bv16, b: bv16)
    ensures Mix(a, b) == Mix(b, a)
  {
  }

  lemma DoubleLinear(v: bv16, w: bv16)
    ensures Double(Mix(v, w)) == Mix(Double(v), Double(w))
  {
  }

  lemma TopMix(v: bv16, w: bv16)
    ensures Top(Mix(v, w)) == (Top(v) != Top(w))
  {
  }

  lemma StepLinear(poly: bv16, v: bv16, w: bv16)
    ensures Step(poly, Mix(v, w)) == Mix(Step(poly, v), Step(poly, w))
  {
    hide Mix, Double, Top, Feedback;
    DoubleLinear(v, w);
    TopMix(v, w);
    FeedbackIs(poly, v);
    FeedbackIs(poly, w);
    FeedbackIs(poly, Mix(v, w));
    MixZero(poly);
    MixZero(0);
    MixSwap(Double(v), Feedback(poly, v), Double(w), Feedback(poly, w));
  }

  function StepN(poly: bv16, n: nat, x: bv16): bv16 {
    if n == 0 then x else Step(poly, StepN(poly, n - 1, x))
  }

  function DoubleN(n: nat, w: bv16): bv16 {
    if n == 0 then w else Double(DoubleN(n - 1, w))
  }

  lemma {:induction false} StepNLinear(poly: bv16, n: nat, v: bv16, w: bv16)
    ensures StepN(poly, n, Mix(v, w)) == Mix(StepN(poly, n, v), StepN(poly, n, w))
  {
    hide Step, Mix;
    if n > 0 {
      StepNLinear(poly, n - 1, v, w);
      StepLinear(poly, StepN(poly, n - 1, v), StepN(poly, n - 1, w));
    }
  }

  // The top n bits of a word, most significant first.
  function TopBits(w: bv16, n: nat): (r: seq<bool>)
    ensures |r| == n
  {
    if n == 0 then [] else TopBits(w, n - 1) + [Top(DoubleN(n - 1, w))]
  }

  lemma FeedOne(poly: bv16, reg: bv16, bits: seq<bool>, b: bool)
    ensures FeedBits(poly, reg, bits + [b]) == Step(poly, Mix(FeedBits(poly, reg, bits), BitWord(b)))
  {
    assert (bits + [b])[..|bits|] == bits;
  }

  lemma TopSplit(w: bv16)
    ensures w == Mix(BitWord(Top(w)), w & 0x7FFF) && Double(w & 0x7FFF) == Double(w) && !Top(w & 0x7FFF)
  {
  }

  // Feeding the top bit of w serially leaves the rest of w to be fed.
  lemma PeelTop(poly: bv16, x: bv16, w: bv16)
    ensures Step(poly, Mix(x, w)) == Mix(Step(poly, Mix(x, BitWord(Top(w)))), Double(w))
  {
    hide Mix, BitWord, Top, Double;
    var b, u := BitWord(Top(w)), w & 0x7FFF;
    TopSplit(w);
    MixAssoc(x, b, u);
    MixZero(Double(u));
    StepLinear(poly, Mix(x, b), u);
    StepPlain(poly, u);
  }

  lemma StepPlain(poly: bv16, u: bv16)
    requires !Top(u)
    ensures Step(poly, u) == Double(u)
  {
    hide Double, Feedback;
    FeedbackIs(poly, u);
    MixZero(Double(u));
  }

  // Feeding a word bit by bit is mixing it in and stepping.
  lemma {:induction false} FeedWord(poly: bv16, reg: bv16, w: bv16, n: nat)
    ensures StepN(poly, n, Mix(reg, w)) == Mix(FeedBits(poly, reg, TopBits(w, n)), DoubleN(n, w))
  {
    hide Step, Mix, BitWord, Top, Double;
    if n > 0 {
      FeedWord(poly, reg, w, n - 1);
      var bits, u := TopBits(w, n - 1), DoubleN(n - 1, w);
      FeedOne(poly, reg, bits, Top(u));
      PeelTop(poly, FeedBits(poly, reg, bits), u);
    }
  }

  lemma {:induction false} FeedBitsConcat(poly: bv16, reg: bv16, a: seq<bool>, b: seq<bool>)
    ensures FeedBits(poly, reg, a + b) == FeedBits(poly, FeedBits(poly, reg, a), b)
  {
    hide Step, Mix;
    if b == [] {
      assert a + b == a;
    } else {
      var b' := b[..|b| - 1];
      assert (a + b)[..|a + b| - 1] == a + b';
      FeedBitsConcat(poly, reg, a, b');
    }
  }

  // ---------- Bytes ----------

  lemma TopOfByte(b: bv8)
    ensures var w := ByteWord(b);
      var w1 := Double(w); var w2 := Double(w1); var w3 := Double(w2); var w4 := Double(w3);
      var w5 := Double(w4); var w6 := Double(w5); var w7 := Double(w6);
      && MsbBits(b) == [Top(w), Top(w1), Top(w2), Top(w3), Top(w4), Top(w5), Top(w6), Top(w7)]
      && Double(w7) == 0
  {
  }

  lemma TopStep(w: bv16, n: nat)
    ensures TopBits(w, 0) == [] && TopBits(w, n + 1) == TopBits(w, n) + [Top(DoubleN(n, w))]
    ensures DoubleN(0, w) == w && DoubleN(n + 1, w) == Double(DoubleN(n, w))
  {
  }

  lemma ByteAsWord(b: bv8)
    ensures TopBits(ByteWord(b), 8) == MsbBits(b)
    ensures DoubleN(8, ByteWord(b)) == 0
  {
    hide DoubleN, TopBits, ByteWord, MsbBits, Double, Top;
    var w := ByteWord(b);
    TopStep(w, 0); TopStep(w, 1); TopStep(w, 2); TopStep(w, 3);
    TopStep(w, 4); TopStep(w, 5); TopStep(w, 6); TopStep(w, 7);
    TopOfByte(b);
  }

  // Eight steps with a byte mixed into the high end feed its eight bits.
  lemma ByteIsBits(poly: bv16, reg: bv16, b: bv8)
    ensures StepN(poly, 8, Mix(reg, ByteWord(b))) == FeedBits(poly, reg, MsbBits(b))
  {
    hide StepN, Mix, ByteWord, MsbBits, DoubleN, TopBits, FeedBits;
    FeedWord(poly, reg, ByteWord(b), 8);
    ByteAsWord(b);
    MixZero(FeedBits(poly, reg, MsbBits(b)));
  }

  // ---------- crc16_ccitt and crc16_aug_ccitt ----------

  function StepC(x: bv16): bv16 { Step(CCITT, x) }

  function Step8(x: bv16): bv16 { StepC(StepC(StepC(StepC(StepC(StepC(StepC(StepC(x)))))))) }

  lemma Step8Is(x: bv16)
    ensures StepN(CCITT, 8, x) == Step8(x)
  {
    hide Step;
    var p := CCITT;
    assert StepN(p, 1, x) == Step(p, x);
    assert StepN(p, 2, x) == Step(p, StepN(p, 1, x));
    assert StepN(p, 3, x) == Step(p, StepN(p, 2, x));
    assert StepN(p, 4, x) == Step(p, StepN(p, 3, x));
    assert StepN(p, 5, x) == Step(p, StepN(p, 4, x));
    assert StepN(p, 6, x) == Step(p, StepN(p, 5, x));
    assert StepN(p, 7, x) == Step(p, StepN(p, 6, x));
    assert StepN(p, 8, x) == Step(p, StepN(p, 7, x));
  }

  lemma Entries0(c: bv8)
    requires c < 16
    ensures CrcMsbTable.Row0(c) == Step8(ByteWord(0x00 | c))
  {
  }

  lemma Entries1(c: bv8)
    requires c < 16
    ensures CrcMsbTable.Row1(c) == Step8(ByteWord(0x10 | c))
  {
  }

  lemma Entries2(c: bv8)
    requires c < 16
    ensures CrcMsbTable.Row2(c) == Step8(ByteWord(0x20 | c))
  {
  }

  lemma Entries3(c: bv8)
    requires c < 16
    ensures CrcMsbTable.Row3(c) == Step8(ByteWord(0x30 | c))
  {
  }

  lemma Entries4(c: bv8)
    requires c < 16
    ensures CrcMsbTable.Row4(c) == Step8(ByteWord(0x40 | c))
  {
  }

  lemma Entries5(c: bv8)
    requires c < 16
    ensures CrcMsbTable.Row5(c) == Step8(ByteWord(0x50 | c))
  {
  }

  lemma Entries6(c: bv8)
    requires c < 16
    ensures CrcMsbTable.Row6(c) == Step8(ByteWord(0x60 | c))
  {
  }

  lemma Entries7(c: bv8)
    requires c < 16
    ensures CrcMsbTable.Row7(c) == Step8(ByteWord(0x70 | c))
  {
  }

  lemma Entries8(c: bv8)
    requires c < 16
    ensures CrcMsbTable.Row8(c) == Step8(ByteWord(0x80 | c))
  {
  }

  lemma Entries9(c: bv8)
    requires c < 16
    ensures CrcMsbTable.Row9(c) == Step8(ByteWord(0x90 | c))
  {
  }

  lemma EntriesA(c: bv8)
    requires c < 16
    ensures CrcMsbTable.RowA(c) == Step8(ByteWord(0xA0 | c))
  {
  }

  lemma EntriesB(c: bv8)
    requires c < 16
    ensures CrcMsbTable.RowB(c) == Step8(ByteWord(0xB0 | c))
  {
  }

  lemma EntriesC(c: bv8)
    requires c < 16
    ensures CrcMsbTable.RowC(c) == Step8(ByteWord(0xC0 | c))
  {
  }

  lemma EntriesD(c: bv8)
    requires c < 16
    ensures CrcMsbTable.RowD(c) == Step8(ByteWord(0xD0 | c))
  {
  }

  lemma EntriesE(c: bv8)
    requires c < 16
    ensures CrcMsbTable.RowE(c) == Step8(ByteWord(0xE0 | c))
  {
  }

  lemma EntriesF(c: bv8)
    requires c < 16
    ensures CrcMsbTable.RowF(c) == Step8(ByteWord(0xF0 | c))
  {
  }

  // Every table entry is eight steps of the division.
  lemma TableEntry(i: bv8)
    ensures CrcMsbTable.Entry(i) == Step8(ByteWord(i))
  {
    hide Step8, ByteWord;
    var c := i & 0x0F;
    assert c < 16 && i == (i & 0xF0) | c;
    match i >> 4
    case 0 => Entries0(c); assert i == 0x00 | c;
    case 1 => Entries1(c); assert i == 0x10 | c;
    case 2 => Entries2(c); assert i == 0x20 | c;
    case 3 => Entries3(c); assert i == 0x30 | c;
    case 4 => Entries4(c); assert i == 0x40 | c;
    case 5 => Entries5(c); assert i == 0x50 | c;
    case 6 => Entries6(c); assert i == 0x60 | c;
    case 7 => Entries7(c); assert i == 0x70 | c;
    case 8 => Entries8(c); assert i == 0x80 | c;
    case 9 => Entries9(c); assert i == 0x90 | c;
    case 10 => EntriesA(c); assert i == 0xA0 | c;
    case 11 => EntriesB(c); assert i == 0xB0 | c;
    case 12 => EntriesC(c); assert i == 0xC0 | c;
    case 13 => EntriesD(c); assert i == 0xD0 | c;
    case 14 => EntriesE(c); assert i == 0xE0 | c;
    case _ => EntriesF(c); assert i == 0xF0 | c;
  }

  lemma Step8Low(v: bv16)
    ensures Step8(v & 0x00FF) == v << 8
  {
  }

  function HighByte(v: bv16): bv8 { (v >> 8) as bv8 }

  lemma SplitHigh(v: bv16)
    ensures v == Mix(ByteWord(HighByte(v)), v & 0x00FF)
  {
  }

  // One turn of the table-driven loop.
  function FeedByte(reg: bv16, b: bv8): bv16 {
    Mix(CrcMsbTable.Entry(HighByte(reg) ^ b), reg << 8)
  }

  lemma HighAndLow(reg: bv16, b: bv8)
    ensures var v := Mix(reg, ByteWord(b)); HighByte(v) == HighByte(reg) ^ b && v << 8 == reg << 8
  {
  }

  // A table lookup feeds the eight bits of a byte.
  lemma FeedByteIsBits(reg: bv16, b: bv8)
    ensures FeedByte(reg, b) == FeedBits(CCITT, reg, MsbBits(b))
  {
    hide Step8, CrcMsbTable.Entry, Mix, ByteWord, HighByte, StepN, MsbBits, FeedBits;
    var v := Mix(reg, ByteWord(b));
    ByteIsBits(CCITT, reg, b);
    SplitHigh(v);
    StepNLinear(CCITT, 8, ByteWord(HighByte(v)), v & 0x00FF);
    Step8Is(ByteWord(HighByte(v)));
    Step8Is(v & 0x00FF);
    Step8Low(v);
    TableEntry(HighByte(v));
    HighAndLow(reg, b);
  }

  lemma FeedAnother(poly: bv16, reg: bv16, data: seq<bv8>, i: nat)
    requires i < |data|
    ensures FeedBits(poly, reg, Unpack(data[..i + 1]))
         == FeedBits(poly, FeedBits(poly, reg, Unpack(data[..i])), MsbBits(data[i]))
  {
    hide FeedBits, MsbBits;
    assert data[..i + 1][..i] == data[..i];
    FeedBitsConcat(poly, reg, Unpack(data[..i]), MsbBits(data[i]));
  }

  // The loop shared by crc16_ccitt and crc16_aug_ccitt, from a start value.
  method TableLoop(start: bv16, data: seq<bv8>) returns (crc: bv16)
    ensures crc == FeedBits(CCITT, start, Unpack(data))
  {
    hide FeedByte, MsbBits, FeedBits;
    crc := start;
    NothingFed(CCITT, start, data);
    for i := 0 to |data|
      invariant crc == FeedBits(CCITT, start, Unpack(data[..i]))
    {
      FeedByteIsBits(crc, data[i]);
      FeedAnother(CCITT, start, data, i);
      crc := FeedByte(crc, data[i]);
    }
    assert data[..|data|] == data;
  }

  lemma NothingFed(poly: bv16, reg: bv16, data: seq<bv8>)
    ensures FeedBits(poly, reg, Unpack(data[..0])) == reg
  {
  }

  method Crc16Ccitt(data: seq<bv8>) returns (crc: bv16)
    ensures crc == FeedBits(CCITT, 0, Unpack(data))
  {
    crc := TableLoop(0, data);
  }

  method Crc16AugCcitt(data: seq<bv8>) returns (crc: bv16)
    ensures crc == Mix(FeedBits(CCITT, 0x1D0F, Unpack(data)), 0xFFFF)
  {
    crc := TableLoop(0x1D0F, data);
    crc := Mix(crc, 0xFFFF);
  }

  // ---------- crc16_ibm ----------

  function ByteLeft(b: bv8): bv8 { b << 1 }

  function ByteLeftN(n: nat, b: bv8): bv8 {
    if n == 0 then b else ByteLeft(ByteLeftN(n - 1, b))
  }

  // ((reg & 0x8000) >> 8) ^ (crc & 0x80)
  predicate Differs(reg: bv16, crc: bv8) {
    (((reg & 0x8000) >> 8) as bv8) ^ (crc & 0x80) != 0
  }

  lemma DiffersIs(reg: bv16, crc: bv8)
    ensures Differs(reg, crc) <==> Top(reg) != (crc & 0x80 != 0)
  {
  }

  lemma BitAtTop(b: bool)
    ensures Top(BitWord(b)) == b && Double(BitWord(b)) == 0
  {
  }

  lemma LeftTurn(reg: bv16, crc: bv8)
    ensures Step(IBM, Mix(reg, BitWord(crc & 0x80 != 0))) ==
      if Differs(reg, crc) then Mix(Double(reg), IBM) else Double(reg)
  {
    hide Mix, Double, Top, BitWord, Differs, Feedback;
    FeedbackIs(IBM, Mix(reg, BitWord(crc & 0x80 != 0)));
    var b := crc & 0x80 != 0;
    DiffersIs(reg, crc);
    BitAtTop(b);
    DoubleLinear(reg, BitWord(b));
    TopMix(reg, BitWord(b));
    MixZero(Double(reg));
  }

  lemma TopsOfByte(b: bv8, n: nat)
    requires n < 8
    ensures MsbBits(b)[n] == (ByteLeftN(n, b) & 0x80 != 0)
  {
    assert ByteLeftN(1, b) == b << 1;
    assert ByteLeftN(2, b) == b << 2;
    assert ByteLeftN(3, b) == b << 3;
    assert ByteLeftN(4, b) == b << 4;
    assert ByteLeftN(5, b) == b << 5;
    assert ByteLeftN(6, b) == b << 6;
    assert ByteLeftN(7, b) == b << 7;
  }

  // update_crc16_ibm: one byte, bit by bit.
  method UpdateCrc16Ibm(b: bv8, start: bv16) returns (reg: bv16)
    ensures reg == FeedBits(IBM, start, MsbBits(b))
  {
    hide Step, Mix, BitWord, Double, Differs, MsbBits, ByteLeft;
    reg := start;
    var crc := b;
    for i := 0 to 8
      invariant crc == ByteLeftN(i, b)
      invariant reg == FeedBits(IBM, start, MsbBits(b)[..i])
    {
      TopsOfByte(b, i);
      LeftTurn(reg, crc);
      FeedOne(IBM, start, MsbBits(b)[..i], MsbBits(b)[i]);
      assert MsbBits(b)[..i + 1] == MsbBits(b)[..i] + [MsbBits(b)[i]];
      if Differs(reg, crc) {
        reg := Mix(Double(reg), IBM);
      } else {
        reg := Double(reg);
      }
      crc := ByteLeft(crc);
    }
    assert MsbBits(b)[..8] == MsbBits(b);
  }

  method Crc16Ibm(data: seq<bv8>) returns (crc: bv16)
    ensures crc == FeedBits(IBM, 0xFFFF, Unpack(data))
  {
    hide MsbBits, FeedBits;
    crc := 0xFFFF;
    NothingFed(IBM, crc, data);
    for i := 0 to |data|
      invariant crc == FeedBits(IBM, 0xFFFF, Unpack(data[..i]))
    {
      FeedAnother(IBM, 0xFFFF, data, i);
      crc := UpdateCrc16Ibm(data[i], crc);
    }
    assert data[..|data|] == data;
  }
}
