// The Castagnoli checksum: lib/crc.cc, crc32_c.
module Crc32c {
  import opened WireBits
  import Crc32cTable

  function Mix(a: bv32, b: bv32): bv32 { a ^ b }

  function Halve(w: bv32): bv32 { w >> 1 }

  predicate Odd(w: bv32) { w & 1 != 0 }

  // One step of division by the Castagnoli polynomial, least significant bit first.
  function Shift(x: bv32): bv32 {
    Mix(Halve(x), Feedback(x))
  }

  function Feedback(x: bv32): bv32 { (0 - (x & 1)) & 0x82F63B78 }

  function BitWord(b: bool): bv32 { if b then 1 else 0 }

  function ByteWord(b: bv8): bv32 { b as bv32 }

  // Bit-serial polynomial division: the reference definition of the checksum.
  function FeedBits(reg: bv32, bits: seq<bool>): bv32 {
    if bits == [] then reg
    else Shift(Mix(FeedBits(reg, bits[..|bits| - 1]), BitWord(bits[|bits| - 1])))
  }

  function Shift8(x: bv32): bv32 {
    Shift(Shift(Shift(Shift(Shift(Shift(Shift(Shift(x))))))))
  }

  // One turn of the table-driven loop.
  function FeedByte(reg: bv32, b: bv8): bv32 {
    Mix(reg >> 8, Crc32cTable.Entry((Mix(reg, ByteWord(b)) & 0xFF) as bv8))
  }

  // The loop of crc32_c, without the final complement.
  function FeedBytes(reg: bv32, data: seq<bv8>): bv32 {
    if data == [] then reg else FeedByte(FeedBytes(reg, data[..|data| - 1]), data[|data| - 1])
  }

  // ---------- The register is linear ----------

  lemma MixAssoc(a: bv32, b: bv32, c: bv32)
    ensures Mix(Mix(a, b), c) == Mix(a, Mix(b, c))
  {
  }

  lemma MixComm(a: bv32, b: bv32)
    ensures Mix(a, b) == Mix(b, a)
  {
  }

  lemma MixZero(a: bv32)
    ensures Mix(a, 0) == a && Mix(0, a) == a && Mix(a, a) == 0
  {
  }

  lemma HalveLinear(v: bv32, w: bv32)
    ensures Halve(Mix(v, w)) == Mix(Halve(v), Halve(w))
  {
  }

  lemma FeedbackIs(x: bv32)
    ensures Feedback(x) == if Odd(x) then 0x82F63B78 else 0
  {
  }

  lemma OddMix(v: bv32, w: bv32)
    ensures Odd(Mix(v, w)) == (Odd(v) != Odd(w))
  {
  }

  lemma MixSwap(a: bv32, b: bv32, c: bv32, d: bv32)
    ensures Mix(Mix(a, b), Mix(c, d)) == Mix(Mix(a, c), Mix(b, d))
  {
    hide Mix;
    MixAssoc(a, b, Mix(c, d));
    MixAssoc(b, c, d);
    MixComm(b, c);
    MixAssoc(c, b, d);
    MixAssoc(a, c, Mix(b, d));
  }

  lemma ShiftLinear(v: bv32, w: bv32)
    ensures Shift(Mix(v, w)) == Mix(Shift(v), Shift(w))
  {
    hide Mix, Halve, Odd, Feedback;
    HalveLinear(v, w);
    OddMix(v, w);
    FeedbackIs(v);
    FeedbackIs(w);
    FeedbackIs(Mix(v, w));
    MixZero(0);
    MixZero(0x82F63B78);
    MixSwap(Halve(v), Feedback(v), Halve(w), Feedback(w));
  }

  lemma Shift8Linear(v: bv32, w: bv32)
    ensures Shift8(Mix(v, w)) == Mix(Shift8(v), Shift8(w))
  {
    hide Shift, Mix;
    ShiftLinear(v, w);
    var v1, w1 := Shift(v), Shift(w);
    ShiftLinear(v1, w1);
    var v2, w2 := Shift(v1), Shift(w1);
    ShiftLinear(v2, w2);
    var v3, w3 := Shift(v2), Shift(w2);
    ShiftLinear(v3, w3);
    var v4, w4 := Shift(v3), Shift(w3);
    ShiftLinear(v4, w4);
    var v5, w5 := Shift(v4), Shift(w4);
    ShiftLinear(v5, w5);
    var v6, w6 := Shift(v5), Shift(w5);
    ShiftLinear(v6, w6);
    ShiftLinear(Shift(v6), Shift(w6));
  }

  // ---------- The table ----------

  lemma Entries0(c: bv8)
    requires c < 16
    ensures Crc32cTable.Row0(c) == Shift8(ByteWord(0x00 | c))
  {
  }

  lemma Entries1(c: bv8)
    requires c < 16
    ensures Crc32cTable.Row1(c) == Shift8(ByteWord(0x10 | c))
  {
  }

  lemma Entries2(c: bv8)
    requires c < 16
    ensures Crc32cTable.Row2(c) == Shift8(ByteWord(0x20 | c))
  {
  }

  lemma Entries3(c: bv8)
    requires c < 16
    ensures Crc32cTable.Row3(c) == Shift8(ByteWord(0x30 | c))
  {
  }

  lemma Entries4(c: bv8)
    requires c < 16
    ensures Crc32cTable.Row4(c) == Shift8(ByteWord(0x40 | c))
  {
  }

  lemma Entries5(c: bv8)
    requires c < 16
    ensures Crc32cTable.Row5(c) == Shift8(ByteWord(0x50 | c))
  {
  }

  lemma Entries6(c: bv8)
    requires c < 16
    ensures Crc32cTable.Row6(c) == Shift8(ByteWord(0x60 | c))
  {
  }

  lemma Entries7(c: bv8)
    requires c < 16
    ensures Crc32cTable.Row7(c) == Shift8(ByteWord(0x70 | c))
  {
  }

  lemma Entries8(c: bv8)
    requires c < 16
    ensures Crc32cTable.Row8(c) == Shift8(ByteWord(0x80 | c))
  {
  }

  lemma Entries9(c: bv8)
    requires c < 16
    ensures Crc32cTable.Row9(c) == Shift8(ByteWord(0x90 | c))
  {
  }

  lemma EntriesA(c: bv8)
    requires c < 16
    ensures Crc32cTable.RowA(c) == Shift8(ByteWord(0xA0 | c))
  {
  }

  lemma EntriesB(c: bv8)
    requires c < 16
    ensures Crc32cTable.RowB(c) == Shift8(ByteWord(0xB0 | c))
  {
  }

  lemma EntriesC(c: bv8)
    requires c < 16
    ensures Crc32cTable.RowC(c) == Shift8(ByteWord(0xC0 | c))
  {
  }

  lemma EntriesD(c: bv8)
    requires c < 16
    ensures Crc32cTable.RowD(c) == Shift8(ByteWord(0xD0 | c))
  {
  }

  lemma EntriesE(c: bv8)
    requires c < 16
    ensures Crc32cTable.RowE(c) == Shift8(ByteWord(0xE0 | c))
  {
  }

  lemma EntriesF(c: bv8)
    requires c < 16
    ensures Crc32cTable.RowF(c) == Shift8(ByteWord(0xF0 | c))
  {
  }

  // Every table entry is eight steps of the division.
  lemma TableEntry(i: bv8)
    ensures Crc32cTable.Entry(i) == Shift8(ByteWord(i))
  {
    hide Shift8, ByteWord;
    var c := i & 0x0F;
    assert c < 16 && i == (i & 0xF0) | c;
    match i >> 4
    case 0 => Entries0(c); assert i == 0x00 | c;
    case 1 => Entries1(c); assert i == 0x10 | c;
    case 2 => Entries2(c); assert i == 0x20 | c;
    case 3 => Entries3(c); assert i == 0x30 | c;
    case 4 => Entries4(c); assert i == 0x40 | c;
    case 5 => Entries5(c); assert i == 0x50 | c;
    case 6 => Entries6(c); assert i == 0x60 | c;
    case 7 => Entries7(c); assert i == 0x70 | c;
    case 8 => Entries8(c); assert i == 0x80 | c;
    case 9 => Entries9(c); assert i == 0x90 | c;
    case 10 => EntriesA(c); assert i == 0xA0 | c;
    case 11 => EntriesB(c); assert i == 0xB0 | c;
    case 12 => EntriesC(c); assert i == 0xC0 | c;
    case 13 => EntriesD(c); assert i == 0xD0 | c;
    case 14 => EntriesE(c); assert i == 0xE0 | c;
    case _ => EntriesF(c); assert i == 0xF0 | c;
  }

  lemma Shift8High(v: bv32)
    ensures Shift8(v & 0xFFFFFF00) == v >> 8
  {
  }

  lemma SplitHighLow(v: bv32)
    ensures v == Mix(v & 0xFFFFFF00, ByteWord((v & 0xFF) as bv8))
  {
  }

  lemma HighUnchanged(reg: bv32, b: bv8)
    ensures Mix(reg, ByteWord(b)) >> 8 == reg >> 8
  {
  }

  // A table lookup is eight division steps on the register with the byte mixed in.
  lemma FeedByteIsShift8(reg: bv32, b: bv8)
    ensures FeedByte(reg, b) == Shift8(Mix(reg, ByteWord(b)))
  {
    hide Shift8, Crc32cTable.Entry, Mix, ByteWord;
    var v := Mix(reg, ByteWord(b));
    var low := (v & 0xFF) as bv8;
    SplitHighLow(v);
    Shift8Linear(v & 0xFFFFFF00, ByteWord(low));
    Shift8High(v);
    TableEntry(low);
    HighUnchanged(reg, b);
  }

  // ---------- Table-driven and bit-serial division agree ----------

  lemma ShiftOfEven(w: bv32)
    requires w < 0x80000000
    ensures Shift(w << 1) == w
  {
  }

  lemma LowestBit(w: bv32)
    ensures w == Mix(BitWord(Odd(w)), Halve(w) << 1) && Halve(w) < 0x80000000
  {
  }

  // Feeding the lowest bit of w serially leaves the rest of w to be fed.
  lemma PeelBit(x: bv32, w: bv32)
    ensures Shift(Mix(x, w)) == Mix(Shift(Mix(x, BitWord(Odd(w)))), Halve(w))
  {
    hide Shift, Mix, BitWord, Odd, Halve;
    var b, u := BitWord(Odd(w)), Halve(w);
    LowestBit(w);
    PeelParts(x, w, b, u);
  }

  lemma PeelParts(x: bv32, w: bv32, b: bv32, u: bv32)
    requires w == Mix(b, u << 1) && u < 0x80000000
    ensures Shift(Mix(x, w)) == Mix(Shift(Mix(x, b)), u)
  {
    hide Shift, Mix;
    MixAssoc(x, b, u << 1);
    ShiftLinear(Mix(x, b), u << 1);
    ShiftOfEven(u);
  }

  lemma FeedBitsStep(reg: bv32, bits: seq<bool>, b: bool)
    ensures FeedBits(reg, bits + [b]) == Shift(Mix(FeedBits(reg, bits), BitWord(b)))
  {
    assert (bits + [b])[..|bits|] == bits;
  }

  function ShiftN(n: nat, x: bv32): bv32 {
    if n == 0 then x else Shift(ShiftN(n - 1, x))
  }

  function HalveN(n: nat, w: bv32): bv32 {
    if n == 0 then w else Halve(HalveN(n - 1, w))
  }

  // The low n bits of a word, least significant first.
  function WordBits(w: bv32, n: nat): (r: seq<bool>)
    ensures |r| == n
  {
    if n == 0 then [] else WordBits(w, n - 1) + [Odd(HalveN(n - 1, w))]
  }

  // Feeding a word bit by bit is mixing it in and shifting.
  lemma {:induction false} FeedWord(reg: bv32, w: bv32, n: nat)
    ensures ShiftN(n, Mix(reg, w)) == Mix(FeedBits(reg, WordBits(w, n)), HalveN(n, w))
  {
    hide Shift, Mix, BitWord, Odd, Halve;
    if n > 0 {
      FeedWord(reg, w, n - 1);
      var bits, u := WordBits(w, n - 1), HalveN(n - 1, w);
      FeedBitsStep(reg, bits, Odd(u));
      PeelBit(FeedBits(reg, bits), u);
    }
  }

  lemma HalveStep(n: nat, w: bv32)
    ensures HalveN(0, w) == w && HalveN(n + 1, w) == Halve(HalveN(n, w))
  {
  }

  lemma ShiftStep(n: nat, x: bv32)
    ensures ShiftN(0, x) == x && ShiftN(n + 1, x) == Shift(ShiftN(n, x))
  {
  }

  lemma BitsOfByteWord(b: bv8)
    ensures var w := ByteWord(b);
      var w1 := Halve(w); var w2 := Halve(w1); var w3 := Halve(w2); var w4 := Halve(w3);
      var w5 := Halve(w4); var w6 := Halve(w5); var w7 := Halve(w6);
      var x := ByteBits(b);
      && x[0] == Odd(w) && x[1] == Odd(w1) && x[2] == Odd(w2) && x[3] == Odd(w3)
      && x[4] == Odd(w4) && x[5] == Odd(w5) && x[6] == Odd(w6) && x[7] == Odd(w7)
      && Halve(w7) == 0
  {
  }

  lemma {:induction false} WordBitAt(w: bv32, n: nat, k: nat)
    requires k < n
    ensures WordBits(w, n)[k] == Odd(HalveN(k, w))
  {
    hide Odd, HalveN;
    if k < n - 1 { WordBitAt(w, n - 1, k); }
  }

  lemma ByteAsWord(b: bv8)
    ensures WordBits(ByteWord(b), 8) == ByteBits(b)
    ensures HalveN(8, ByteWord(b)) == 0
  {
    hide HalveN, WordBits, ByteWord, ByteBits, Halve, Odd;
    var w := ByteWord(b);
    HalveStep(0, w); HalveStep(1, w); HalveStep(2, w); HalveStep(3, w);
    HalveStep(4, w); HalveStep(5, w); HalveStep(6, w); HalveStep(7, w);
    BitsOfByteWord(b);
    WordBitAt(w, 8, 0); WordBitAt(w, 8, 1); WordBitAt(w, 8, 2); WordBitAt(w, 8, 3);
    WordBitAt(w, 8, 4); WordBitAt(w, 8, 5); WordBitAt(w, 8, 6); WordBitAt(w, 8, 7);
    assert WordBits(w, 8) == ByteBits(b);
  }

  lemma Shift8IsShiftN(x: bv32)
    ensures ShiftN(8, x) == Shift8(x)
  {
    hide Shift, ShiftN;
    ShiftStep(0, x); ShiftStep(1, x); ShiftStep(2, x); ShiftStep(3, x);
    ShiftStep(4, x); ShiftStep(5, x); ShiftStep(6, x); ShiftStep(7, x);
  }

  lemma FeedByteIsBits(reg: bv32, b: bv8)
    ensures FeedByte(reg, b) == FeedBits(reg, ByteBits(b))
  {
    hide Shift8, ShiftN, Mix, ByteWord, ByteBits, FeedByte, HalveN;
    FeedByteIsShift8(reg, b);
    Shift8IsShiftN(Mix(reg, ByteWord(b)));
    FeedWord(reg, ByteWord(b), 8);
    ByteAsWord(b);
    MixZero(FeedBits(reg, ByteBits(b)));
  }

  lemma {:induction false} FeedBitsConcat(reg: bv32, a: seq<bool>, b: seq<bool>)
    ensures FeedBits(reg, a + b) == FeedBits(FeedBits(reg, a), b)
  {
    hide Shift, Mix;
    if b == [] {
      assert a + b == a;
    } else {
      var b' := b[..|b| - 1];
      assert (a + b)[..|a + b| - 1] == a + b';
      FeedBitsConcat(reg, a, b');
    }
  }

  // The table-driven checksum register is bit-serial polynomial division of
  // the transmitted bits, for every byte string.
  lemma {:induction false} TableIsSerial(reg: bv32, data: seq<bv8>)
    ensures FeedBytes(reg, data) == FeedBits(reg, BytesBits(data))
  {
    hide FeedByte, ByteBits;
    if data != [] {
      var d, b := data[..|data| - 1], data[|data| - 1];
      TableIsSerial(reg, d);
      FeedByteIsBits(FeedBytes(reg, d), b);
      FeedBitsConcat(reg, BytesBits(d), ByteBits(b));
    }
  }

  // crc32_c
  method Crc32C(data: seq<bv8>) returns (crc: bv32)
    ensures crc == Mix(FeedBits(0xFFFFFFFF, BytesBits(data)), 0xFFFFFFFF)
  {
    hide FeedByte, Mix;
    var fcs: bv32 := 0xFFFFFFFF;
    for i := 0 to |data|
      invariant fcs == FeedBytes(0xFFFFFFFF, data[..i])
    {
      assert data[..i + 1][..i] == data[..i];
      fcs := FeedByte(fcs, data[i]);
    }
    assert data[..|data|] == data;
    TableIsSerial(0xFFFFFFFF, data);
    crc := Mix(fcs, 0xFFFFFFFF);
  }
}
