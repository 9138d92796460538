// The two eight-bit registers of the AX.25 decoder, seen as windows on the
// stream: the newest bit is the most significant one.
module Ax25Register {
  import opened WireBits
  import opened Ax25Machine

  const FLAG: seq<bool> := [false, true, true, true, true, true, true, false]

  lemma FlagBits()
    ensures ByteBits(SYNC_FLAG) == FLAG
  {
  }

  lemma IsFlag(reg: bv8)
    ensures reg == SYNC_FLAG <==> ByteBits(reg) == FLAG
  {
    hide ByteBits;
    FlagBits();
    if ByteBits(reg) == FLAG { BitsDetermineByte(reg, SYNC_FLAG); }
  }

  lemma ShiftInMasks(r: bv8, b: bool)
    ensures var x := ShiftIn(r, b);
      && (x & 1 != 0) == (r & 2 != 0) && (x & 2 != 0) == (r & 4 != 0) && (x & 4 != 0) == (r & 8 != 0)
      && (x & 8 != 0) == (r & 16 != 0) && (x & 16 != 0) == (r & 32 != 0) && (x & 32 != 0) == (r & 64 != 0)
      && (x & 64 != 0) == (r & 128 != 0) && (x & 128 != 0) == b
  {
  }

  lemma ShiftInBits(r: bv8, b: bool)
    ensures ByteBits(ShiftIn(r, b)) == ByteBits(r)[1..] + [b]
  {
    hide ShiftIn;
    ShiftInMasks(r, b);
  }

  lemma DropMasks(r: bv8)
    ensures var x := Drop(r);
      && (x & 2 != 0) == (r & 1 != 0) && (x & 4 != 0) == (r & 2 != 0) && (x & 8 != 0) == (r & 4 != 0)
      && (x & 16 != 0) == (r & 8 != 0) && (x & 32 != 0) == (r & 16 != 0) && (x & 64 != 0) == (r & 32 != 0)
      && (x & 128 != 0) == (r & 64 != 0) && x & 1 == 0
  {
  }

  lemma DropBits(r: bv8)
    ensures ByteBits(Drop(r)) == [false] + ByteBits(r)[..7]
  {
    hide ByteBits, Drop;
    var x, y := ByteBits(Drop(r)), ByteBits(r);
    DropMasks(r);
    ByteBitsAt(r);
    ByteBitsAt(Drop(r));
    assert x[1..] == y[..7];
    assert x == [x[0]] + x[1..];
  }

  // Five ones and then a zero.
  predicate EndsStuffed(bits: seq<bool>) {
    var n := |bits|;
    n >= 6 && !bits[n - 1] && bits[n - 2] && bits[n - 3] && bits[n - 4] && bits[n - 5] && bits[n - 6]
  }

  lemma IsStuffed(reg: bv8)
    ensures Stuffed(reg) <==> EndsStuffed(ByteBits(reg))
  {
    assert (reg & 0xFC == 0x7C) <==>
      (reg & 128 == 0 && reg & 64 != 0 && reg & 32 != 0 && reg & 16 != 0 && reg & 8 != 0 && reg & 4 != 0);
  }

  lemma StuffedIsZero(reg: bv8, b: bool)
    requires Stuffed(ShiftIn(reg, b))
    ensures !b
  {
  }

  lemma ZeroBits()
    ensures ByteBits(0) == [false, false, false, false, false, false, false, false]
  {
  }

  // ---------- Windows ----------

  // The newest k bits of the register are the last k bits of the past.
  predicate Recent(reg: bv8, k: nat, past: seq<bool>) {
    && k <= 8 && k <= |past|
    && ByteBits(reg)[8 - k..] == past[|past| - k..]
  }

  lemma RecentShift(reg: bv8, k: nat, past: seq<bool>, b: bool)
    requires Recent(reg, k, past)
    ensures Recent(ShiftIn(reg, b), if k < 8 then k + 1 else 8, past + [b])
  {
    hide ByteBits, ShiftIn;
    ShiftInBits(reg, b);
    var r, m := ByteBits(reg), if k < 8 then k + 1 else 8;
    var x := ByteBits(ShiftIn(reg, b));
    assert x[8 - m..] == r[9 - m..] + [b];
    assert (past + [b])[|past| + 1 - m..] == past[|past| + 1 - m..] + [b];
    assert r[9 - m..] == r[8 - k..][k + 1 - m..];
    assert past[|past| + 1 - m..] == past[|past| - k..][k + 1 - m..];
  }

  // Dropping a stuffed bit leaves the data bits collected so far in place.
  lemma RecentDrop(dec: bv8, k: nat, data: seq<bool>)
    requires k < 8 && Recent(dec, k, data)
    ensures Recent(Drop(ShiftIn(dec, false)), k, data)
  {
    hide ByteBits, ShiftIn;
    ShiftInBits(dec, false);
    DropBits(ShiftIn(dec, false));
    var d, x := ByteBits(dec), ByteBits(Drop(ShiftIn(dec, false)));
    assert x == [false] + d[1..];
    assert x[8 - k..] == d[8 - k..];
  }

  lemma RecentNothing(reg: bv8, past: seq<bool>)
    ensures Recent(reg, 0, past)
  {
  }

  // The whole register is known.
  lemma RecentAll(reg: bv8, past: seq<bool>)
    requires Recent(reg, 8, past)
    ensures ByteBits(reg) == past[|past| - 8..]
    ensures reg == SYNC_FLAG <==> past[|past| - 8..] == FLAG
    ensures Stuffed(reg) <==> EndsStuffed(past)
  {
    hide ByteBits, Stuffed;
    IsFlag(reg);
    IsStuffed(reg);
    assert ByteBits(reg)[0..] == ByteBits(reg);
    var w, n := past[|past| - 8..], |past|;
    assert w[7] == past[n - 1] && w[6] == past[n - 2] && w[5] == past[n - 3];
    assert w[4] == past[n - 4] && w[3] == past[n - 5] && w[2] == past[n - 6];
  }
}
