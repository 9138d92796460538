// What the frame check sequence tells the AX.25 decoder: the residue test,
// the errors it is sure to see, and single-bit repair.
module Fcs {
  import opened Crc
  import opened WireBits

  // ---------- The division step is a bijection ----------

  lemma ShiftNonzero(x: bv16)
    requires Shift(x) == 0
    ensures x == 0
  {
  }

  lemma MixCancel(a: bv16, b: bv16)
    requires Mix(a, b) == 0
    ensures a == b
  {
  }

  lemma {:induction false} ShiftNLinear(n: nat, v: bv16, w: bv16)
    ensures ShiftN(n, Mix(v, w)) == Mix(ShiftN(n, v), ShiftN(n, w))
  {
    hide Shift, Mix;
    if n > 0 {
      ShiftNLinear(n - 1, v, w);
      ShiftLinear(ShiftN(n - 1, v), ShiftN(n - 1, w));
    }
  }

  lemma {:induction false} ShiftNNonzero(n: nat, x: bv16)
    requires ShiftN(n, x) == 0
    ensures x == 0
  {
    hide Shift;
    if n > 0 {
      ShiftNonzero(ShiftN(n - 1, x));
      ShiftNNonzero(n - 1, x);
    }
  }

  lemma {:induction false} ShiftNZero(n: nat)
    ensures ShiftN(n, 0) == 0
  {
    if n > 0 {
      ShiftNZero(n - 1);
      assert Shift(0) == 0;
    }
  }

  lemma ShiftNInjective(n: nat, v: bv16, w: bv16)
    requires ShiftN(n, v) == ShiftN(n, w)
    ensures v == w
  {
    hide Shift, Mix, ShiftN;
    ShiftNLinear(n, v, w);
    MixZero(ShiftN(n, v));
    ShiftNNonzero(n, Mix(v, w));
    MixCancel(v, w);
  }

  lemma {:induction false} ShiftNAdd(m: nat, n: nat, x: bv16)
    ensures ShiftN(m + n, x) == ShiftN(m, ShiftN(n, x))
  {
    hide Shift;
    if m > 0 { ShiftNAdd(m - 1, n, x); }
  }

  // ---------- The residue test ----------

  // ax25_decoder::is_frame_valid on a buffer that holds at least the FCS.
  function ReceivedFcs(frame: seq<bv8>): bv16
    requires |frame| >= 2
  {
    (ByteWord(frame[|frame| - 1]) << 8) | ByteWord(frame[|frame| - 2])
  }

  predicate FrameValid(frame: seq<bv8>)
    requires |frame| >= 2
  {
    Mix(FeedBytes(0xFFFF, frame[..|frame| - 2]), 0xFFFF) == ReceivedFcs(frame)
  }

  const RESIDUE: bv16 := 0xF0B8

  lemma TwoBytes(r: bv16, lo: bv8, hi: bv8)
    ensures FeedByte(FeedByte(r, lo), hi) == Shift8(Shift8(Mix(r, (ByteWord(hi) << 8) | ByteWord(lo))))
  {
    hide Shift8, FeedByte, Mix, ByteWord;
    FeedByteIsShift8(r, lo);
    FeedByteIsShift8(FeedByte(r, lo), hi);
    var h := ByteWord(hi) << 8;
    SplitWord(lo, hi);
    MixAssoc(r, ByteWord(lo), h);
    Shift8Linear(Mix(r, ByteWord(lo)), h);
    HighByte(hi);
  }

  lemma SplitWord(lo: bv8, hi: bv8)
    ensures (ByteWord(hi) << 8) | ByteWord(lo) == Mix(ByteWord(lo), ByteWord(hi) << 8)
  {
  }

  lemma HighByte(hi: bv8)
    ensures Shift8(ByteWord(hi) << 8) == ByteWord(hi)
  {
    var v := ByteWord(hi) << 8;
    assert v & 0xFF00 == v && v >> 8 == ByteWord(hi);
    Shift8High(v);
  }

  lemma GoodResidue()
    ensures Shift8(Shift8(0xFFFF)) == RESIDUE
  {
  }

  lemma MixIsOnes(r: bv16, w: bv16)
    ensures Mix(r, 0xFFFF) == w <==> Mix(r, w) == 0xFFFF
  {
    hide Mix;
    MixAssoc(r, r, 0xFFFF);
    MixAssoc(r, r, w);
    MixZero(r);
    MixZero(w);
    MixZero(0xFFFF);
  }

  lemma Shift8Injective(v: bv16, w: bv16)
    requires Shift8(v) == Shift8(w)
    ensures v == w
  {
    hide Shift8, ShiftN;
    Shift8IsShiftN(v);
    Shift8IsShiftN(w);
    ShiftNInjective(8, v, w);
  }

  lemma LastTwoBytes(frame: seq<bv8>)
    requires |frame| >= 2
    ensures FeedBytes(0xFFFF, frame)
         == Shift8(Shift8(Mix(FeedBytes(0xFFFF, frame[..|frame| - 2]), ReceivedFcs(frame))))
  {
    hide Shift8, FeedByte, Mix, ByteWord;
    var n := |frame|;
    var r := FeedBytes(0xFFFF, frame[..n - 2]);
    assert frame[..n - 1][..n - 2] == frame[..n - 2];
    assert FeedBytes(0xFFFF, frame[..n - 1]) == FeedByte(r, frame[n - 2]);
    TwoBytes(r, frame[n - 2], frame[n - 1]);
  }

  // A frame passes the FCS comparison exactly when the register, run over the
  // whole frame, ends at the constant of appendix C.2 of RFC 1662.
  lemma ResidueTest(frame: seq<bv8>)
    requires |frame| >= 2
    ensures FrameValid(frame) <==> FeedBits(0xFFFF, BytesBits(frame)) == RESIDUE
  {
    hide Shift8, FeedBytes, Mix, ReceivedFcs;
    var r, w := FeedBytes(0xFFFF, frame[..|frame| - 2]), ReceivedFcs(frame);
    TableIsSerial(0xFFFF, frame);
    LastTwoBytes(frame);
    MixIsOnes(r, w);
    GoodResidue();
    if Shift8(Shift8(Mix(r, w))) == RESIDUE {
      Shift8Injective(Shift8(Mix(r, w)), Shift8(0xFFFF));
      Shift8Injective(Mix(r, w), 0xFFFF);
    }
  }

  // Appending the complemented register, low byte first, makes a valid frame.
  lemma AppendedFcs(body: seq<bv8>, crc: bv16)
    requires crc == Mix(FeedBytes(0xFFFF, body), 0xFFFF)
    ensures FrameValid(body + [(crc & 0xFF) as bv8, (crc >> 8) as bv8])
  {
    hide Mix;
    var frame := body + [(crc & 0xFF) as bv8, (crc >> 8) as bv8];
    assert frame[..|frame| - 2] == body;
    SplitCrc(crc);
  }

  lemma SplitCrc(crc: bv16)
    ensures (ByteWord((crc >> 8) as bv8) << 8) | ByteWord((crc & 0xFF) as bv8) == crc
  {
  }

  // ---------- Differences of frames ----------

  lemma BitWordDiffer(a: bool, b: bool)
    ensures BitWord(a != b) == Mix(BitWord(a), BitWord(b))
  {
  }

  lemma {:induction false} FeedDifference(u: bv16, v: bv16, s: seq<bool>, t: seq<bool>)
    requires |s| == |t|
    ensures FeedBits(Mix(u, v), Differ(s, t)) == Mix(FeedBits(u, s), FeedBits(v, t))
  {
    hide Shift, Mix, BitWord;
    if s != [] {
      var n := |s| - 1;
      var s', t' := s[..n], t[..n];
      FeedDifference(u, v, s', t');
      assert Differ(s, t)[..n] == Differ(s', t');
      BitWordDiffer(s[n], t[n]);
      var a, b, p, q := FeedBits(u, s'), FeedBits(v, t'), BitWord(s[n]), BitWord(t[n]);
      MixSwap(a, b, p, q);
      ShiftLinear(Mix(a, p), Mix(b, q));
    }
  }

  lemma MixSwap(a: bv16, b: bv16, p: bv16, q: bv16)
    ensures Mix(Mix(a, b), Mix(p, q)) == Mix(Mix(a, p), Mix(b, q))
  {
    hide Mix;
    MixAssoc(a, b, Mix(p, q));
    MixAssoc(b, p, q);
    MixComm(b, p);
    MixAssoc(p, b, q);
    MixAssoc(a, p, Mix(b, q));
  }

  lemma {:induction false} FeedZeros(reg: bv16, bits: seq<bool>)
    requires forall i :: 0 <= i < |bits| ==> !bits[i]
    ensures FeedBits(reg, bits) == ShiftN(|bits|, reg)
  {
    hide Shift, Mix;
    if bits != [] {
      FeedZeros(reg, bits[..|bits| - 1]);
      MixZero(FeedBits(reg, bits[..|bits| - 1]));
      assert BitWord(false) == 0;
    }
  }

  // Two valid frames of equal length differ by a multiple of the polynomial.
  lemma ValidDifference(a: seq<bv8>, b: seq<bv8>)
    requires |a| == |b| >= 2 && FrameValid(a)
    ensures FrameValid(b) <==> FeedBits(0, Differ(BytesBits(a), BytesBits(b))) == 0
  {
    hide Mix, FeedBits, FrameValid;
    ResidueTest(a);
    ResidueTest(b);
    FeedDifference(0xFFFF, 0xFFFF, BytesBits(a), BytesBits(b));
    MixZero(0xFFFF);
    MixZero(RESIDUE);
    if FeedBits(0, Differ(BytesBits(a), BytesBits(b))) == 0 {
      MixCancel(FeedBits(0xFFFF, BytesBits(a)), FeedBits(0xFFFF, BytesBits(b)));
    }
  }

  // ---------- Bursts ----------

  function Double(u: bv16): bv16 { u << 1 }

  // The word whose low bits, least significant first, are the given ones.
  ghost function Word(bits: seq<bool>): bv16
    requires |bits| <= 16
  {
    if bits == [] then 0 else Mix(BitWord(bits[0]), Double(Word(bits[1..])))
  }

  lemma {:induction false} HalveFirst(n: nat, w: bv16)
    ensures HalveN(n + 1, w) == HalveN(n, Halve(w))
  {
    hide Halve;
    if n > 0 { HalveFirst(n - 1, w); }
  }

  lemma {:induction false} WordBitsFirst(w: bv16, n: nat)
    ensures WordBits(w, n + 1) == [Odd(w)] + WordBits(Halve(w), n)
  {
    hide Halve, Odd;
    if n > 0 {
      WordBitsFirst(w, n - 1);
      HalveFirst(n - 1, w);
    }
  }

  lemma {:induction false} HalveMore(n: nat, m: nat, w: bv16)
    requires n <= m && HalveN(n, w) == 0
    ensures HalveN(m, w) == 0
  {
    if n < m {
      HalveMore(n, m - 1, w);
      assert Halve(0) == 0;
    }
  }

  lemma FifteenHalves(w: bv16)
    requires HalveN(15, w) == 0
    ensures w < 0x8000
  {
    hide HalveN;
    HalveStep(0, w); HalveStep(1, w); HalveStep(2, w); HalveStep(3, w); HalveStep(4, w);
    HalveStep(5, w); HalveStep(6, w); HalveStep(7, w); HalveStep(8, w); HalveStep(9, w);
    HalveStep(10, w); HalveStep(11, w); HalveStep(12, w); HalveStep(13, w); HalveStep(14, w);
  }

  lemma DoubledWord(b: bool, u: bv16)
    requires u < 0x8000
    ensures var w := Mix(BitWord(b), Double(u)); Odd(w) == b && Halve(w) == u && (w == 0 ==> !b && u == 0)
  {
  }

  lemma {:induction false} WordOfBits(bits: seq<bool>)
    requires |bits| <= 16
    ensures WordBits(Word(bits), |bits|) == bits && HalveN(|bits|, Word(bits)) == 0
    ensures Word(bits) == 0 ==> forall i :: 0 <= i < |bits| ==> !bits[i]
  {
    hide Halve, Odd, Mix, BitWord, Double;
    if bits != [] {
      var rest := bits[1..];
      WordOfBits(rest);
      var u, w := Word(rest), Word(bits);
      HalveMore(|rest|, 15, u);
      assert u < 0x8000 by { FifteenHalves(u); }
      DoubledWord(bits[0], u);
      WordBitsFirst(w, |rest|);
      HalveFirst(|rest|, w);
      assert bits == [bits[0]] + rest;
    }
  }

  // A burst of at most sixteen bits never divides out.
  lemma BurstNonzero(bits: seq<bool>)
    requires |bits| <= 16 && FeedBits(0, bits) == 0
    ensures forall i :: 0 <= i < |bits| ==> !bits[i]
  {
    hide Shift, Mix, FeedBits, WordBits, Word, ShiftN;
    var w := Word(bits);
    WordOfBits(bits);
    FeedWord(0, w, |bits|);
    MixZero(w);
    MixZero(0);
    ShiftNNonzero(|bits|, w);
  }

  lemma BurstInStream(d: seq<bool>, p: nat, q: nat)
    requires p <= q <= |d| && q <= p + 16
    requires forall i :: 0 <= i < |d| && d[i] ==> p <= i < q
    requires FeedBits(0, d) == 0
    ensures forall i :: 0 <= i < |d| ==> !d[i]
  {
    hide Shift, Mix, FeedBits, ShiftN;
    var a, b, c := d[..p], d[p..q], d[q..];
    assert d == a + b + c;
    FeedBitsConcat(0, a + b, c);
    FeedBitsConcat(0, a, b);
    FeedZeros(0, a);
    ShiftNZero(p);
    FeedZeros(FeedBits(0, b), c);
    ShiftNNonzero(|c|, FeedBits(0, b));
    BurstNonzero(b);
    forall i | 0 <= i < |d| ensures !d[i] {
      if p <= i < q { assert d[i] == b[i - p]; }
    }
  }

  // Two valid frames of equal length that differ only inside sixteen
  // consecutive transmitted bits are the same frame.
  lemma BurstDetected(a: seq<bv8>, b: seq<bv8>, p: nat, q: nat)
    requires |a| == |b| >= 2 && FrameValid(a) && FrameValid(b)
    requires p <= q <= 8 * |a| && q <= p + 16
    requires forall i :: 0 <= i < 8 * |a| && BytesBits(a)[i] != BytesBits(b)[i] ==> p <= i < q
    ensures a == b
  {
    hide FeedBits, FrameValid, BytesBits;
    var s, t := BytesBits(a), BytesBits(b);
    ValidDifference(a, b);
    BurstInStream(Differ(s, t), p, q);
    assert s == t by {
      forall i | 0 <= i < |s| ensures s[i] == t[i] { assert !Differ(s, t)[i]; }
    }
    BitsDetermineBytes(a, b);
  }
}
