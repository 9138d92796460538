// The checksums of lib/crc.cc on the nine digits "123456789", whose values
// are published for each of them: what polynomial, start value and final
// complement come to.
module CrcCheck {
  import opened WireBits
  import opened BitPacking
  import Crc
  import CrcMsb
  import Crc32c

  const DIGITS: seq<bv8> := [0x31, 0x32, 0x33, 0x34, 0x35, 0x36, 0x37, 0x38, 0x39]

  // ---------- Least significant bit first ----------

  lemma NextFcs(reg: bv16, i: nat)
    requires i < 9
    ensures Crc.FeedBytes(reg, DIGITS[..i + 1]) == Crc.FeedByte(Crc.FeedBytes(reg, DIGITS[..i]), DIGITS[i])
  {
    hide Crc.FeedByte;
    assert DIGITS[..i + 1][..i] == DIGITS[..i];
  }

  lemma FcsTurns123()
    ensures Crc.FeedByte(0xFFFF, 0x31) == 0x2F8D
    ensures Crc.FeedByte(0x2F8D, 0x32) == 0x4D53
    ensures Crc.FeedByte(0x4D53, 0x33) == 0x634B
  {
  }

  lemma FcsTurns456()
    ensures Crc.FeedByte(0x634B, 0x34) == 0x8B13
    ensures Crc.FeedByte(0x8B13, 0x35) == 0x44BF
    ensures Crc.FeedByte(0x44BF, 0x36) == 0x198D
  {
  }

  lemma FcsTurns789()
    ensures Crc.FeedByte(0x198D, 0x37) == 0x1AC8
    ensures Crc.FeedByte(0x1AC8, 0x38) == 0xF795
    ensures Crc.FeedByte(0xF795, 0x39) == 0x6F91
  {
  }

  lemma Fcs()
    ensures Crc.Mix(Crc.FeedBits(0xFFFF, BytesBits(DIGITS)), 0xFFFF) == 0x906E
  {
    hide Crc.FeedByte, Crc.FeedBytes, Crc.FeedBits, BytesBits;
    FcsTurns123(); FcsTurns456(); FcsTurns789();
    NoDigits(0xFFFF);
    NextFcs(0xFFFF, 0); NextFcs(0xFFFF, 1); NextFcs(0xFFFF, 2); NextFcs(0xFFFF, 3); NextFcs(0xFFFF,
      4); NextFcs(0xFFFF, 5); NextFcs(0xFFFF, 6); NextFcs(0xFFFF, 7); NextFcs(0xFFFF, 8);
    assert DIGITS[..9] == DIGITS;
    Crc.TableIsSerial(0xFFFF, DIGITS);
  }

  lemma NoDigits(reg: bv16)
    ensures Crc.FeedBytes(reg, DIGITS[..0]) == reg
  {
  }

  lemma NextCastagnoli(reg: bv32, i: nat)
    requires i < 9
    ensures Crc32c.FeedBytes(reg, DIGITS[..i + 1])
         == Crc32c.FeedByte(Crc32c.FeedBytes(reg, DIGITS[..i]), DIGITS[i])
  {
    hide Crc32c.FeedByte;
    assert DIGITS[..i + 1][..i] == DIGITS[..i];
  }

  lemma NoDigitsCastagnoli(reg: bv32)
    ensures Crc32c.FeedBytes(reg, DIGITS[..0]) == reg
  {
  }

  lemma CastagnoliTurns123()
    ensures Crc32c.FeedByte(0xFFFFFFFF, 0x31) == 0x6F0A661C
    ensures Crc32c.FeedByte(0x6F0A661C, 0x32) == 0x8CAA3B9F
    ensures Crc32c.FeedByte(0x8CAA3B9F, 0x33) == 0xEF84D04D
  {
  }

  lemma CastagnoliTurns456()
    ensures Crc32c.FeedByte(0xEF84D04D, 0x34) == 0x09C50B11
    ensures Crc32c.FeedByte(0x09C50B11, 0x35) == 0xE72EDCCA
    ensures Crc32c.FeedByte(0xE72EDCCA, 0x36) == 0xBECA8E79
  {
  }

  lemma CastagnoliTurns789()
    ensures Crc32c.FeedByte(0xBECA8E79, 0x37) == 0xEDBD6815
    ensures Crc32c.FeedByte(0xEDBD6815, 0x38) == 0x9F787F65
    ensures Crc32c.FeedByte(0x9F787F65, 0x39) == 0x1CF96D7C
  {
  }

  lemma Castagnoli()
    ensures Crc32c.Mix(Crc32c.FeedBits(0xFFFFFFFF, BytesBits(DIGITS)), 0xFFFFFFFF) == 0xE3069283
  {
    hide Crc32c.FeedByte, Crc32c.FeedBytes, Crc32c.FeedBits, BytesBits;
    CastagnoliTurns123(); CastagnoliTurns456(); CastagnoliTurns789();
    NoDigitsCastagnoli(0xFFFFFFFF);
    NextCastagnoli(0xFFFFFFFF, 0); NextCastagnoli(0xFFFFFFFF, 1); NextCastagnoli(0xFFFFFFFF,
      2); NextCastagnoli(0xFFFFFFFF, 3);
    NextCastagnoli(0xFFFFFFFF, 4); NextCastagnoli(0xFFFFFFFF, 5); NextCastagnoli(0xFFFFFFFF,
      6); NextCastagnoli(0xFFFFFFFF, 7); NextCastagnoli(0xFFFFFFFF, 8);
    assert DIGITS[..9] == DIGITS;
    Crc32c.TableIsSerial(0xFFFFFFFF, DIGITS);
  }

  // ---------- Most significant bit first ----------

  // One more digit through the CCITT table.
  lemma NextCcitt(start: bv16, i: nat)
    requires i < 9
    ensures CrcMsb.FeedBits(CrcMsb.CCITT, start, Unpack(DIGITS[..i + 1]))
         == CrcMsb.FeedByte(CrcMsb.FeedBits(CrcMsb.CCITT, start, Unpack(DIGITS[..i])), DIGITS[i])
  {
    hide CrcMsb.FeedByte, CrcMsb.FeedBits, MsbBits, Unpack;
    CrcMsb.FeedAnother(CrcMsb.CCITT, start, DIGITS, i);
    CrcMsb.FeedByteIsBits(CrcMsb.FeedBits(CrcMsb.CCITT, start, Unpack(DIGITS[..i])), DIGITS[i]);
  }

  lemma CcittTurns123()
    ensures CrcMsb.FeedByte(0x0000, 0x31) == 0x2672
    ensures CrcMsb.FeedByte(0x2672, 0x32) == 0x20B5
    ensures CrcMsb.FeedByte(0x20B5, 0x33) == 0x9752
  {
  }

  lemma CcittTurns456()
    ensures CrcMsb.FeedByte(0x9752, 0x34) == 0xD789
    ensures CrcMsb.FeedByte(0xD789, 0x35) == 0x546C
    ensures CrcMsb.FeedByte(0x546C, 0x36) == 0x20E4
  {
  }

  lemma CcittTurns789()
    ensures CrcMsb.FeedByte(0x20E4, 0x37) == 0x86D6
    ensures CrcMsb.FeedByte(0x86D6, 0x38) == 0x9015
    ensures CrcMsb.FeedByte(0x9015, 0x39) == 0x31C3
  {
  }

  lemma Ccitt()
    ensures CrcMsb.FeedBits(CrcMsb.CCITT, 0, Unpack(DIGITS)) == 0x31C3
  {
    hide CrcMsb.FeedByte, CrcMsb.FeedBits, Unpack;
    CcittTurns123(); CcittTurns456(); CcittTurns789();
    CrcMsb.NothingFed(CrcMsb.CCITT, 0x0000, DIGITS);
    NextCcitt(0x0000, 0); NextCcitt(0x0000, 1); NextCcitt(0x0000, 2); NextCcitt(0x0000, 3); NextCcitt(0x0000, 4);
    NextCcitt(0x0000, 5); NextCcitt(0x0000, 6); NextCcitt(0x0000, 7); NextCcitt(0x0000, 8);
    assert DIGITS[..9] == DIGITS;
  }

  lemma AugmentedCcittTurns123()
    ensures CrcMsb.FeedByte(0x1D0F, 0x31) == 0xEAEE
    ensures CrcMsb.FeedByte(0xEAEE, 0x32) == 0xA475
    ensures CrcMsb.FeedByte(0xA475, 0x33) == 0x865E
  {
  }

  lemma AugmentedCcittTurns456()
    ensures CrcMsb.FeedByte(0x865E, 0x34) == 0xD999
    ensures CrcMsb.FeedByte(0xD999, 0x35) == 0xA5A2
    ensures CrcMsb.FeedByte(0xA5A2, 0x36) == 0x11DA
  {
  }

  lemma AugmentedCcittTurns789()
    ensures CrcMsb.FeedByte(0x11DA, 0x37) == 0x9EA4
    ensures CrcMsb.FeedByte(0x9EA4, 0x38) == 0x712C
    ensures CrcMsb.FeedByte(0x712C, 0x39) == 0xE5CC
  {
  }

  lemma AugmentedCcitt()
    ensures CrcMsb.Mix(CrcMsb.FeedBits(CrcMsb.CCITT, 0x1D0F, Unpack(DIGITS)), 0xFFFF) == 0x1A33
  {
    hide CrcMsb.FeedByte, CrcMsb.FeedBits, Unpack;
    AugmentedCcittTurns123(); AugmentedCcittTurns456(); AugmentedCcittTurns789();
    CrcMsb.NothingFed(CrcMsb.CCITT, 0x1D0F, DIGITS);
    NextCcitt(0x1D0F, 0); NextCcitt(0x1D0F, 1); NextCcitt(0x1D0F, 2); NextCcitt(0x1D0F, 3); NextCcitt(0x1D0F, 4);
    NextCcitt(0x1D0F, 5); NextCcitt(0x1D0F, 6); NextCcitt(0x1D0F, 7); NextCcitt(0x1D0F, 8);
    assert DIGITS[..9] == DIGITS;
  }

  function StepIbm(x: bv16): bv16 { CrcMsb.Step(CrcMsb.IBM, x) }

  function Step8Ibm(x: bv16): bv16 { StepIbm(StepIbm(StepIbm(StepIbm(StepIbm(StepIbm(StepIbm(StepIbm(x)))))))) }

  lemma IbmSteps(n: nat, x: bv16)
    ensures CrcMsb.StepN(CrcMsb.IBM, n + 1, x) == StepIbm(CrcMsb.StepN(CrcMsb.IBM, n, x))
    ensures CrcMsb.StepN(CrcMsb.IBM, 0, x) == x
  {
    hide CrcMsb.Step;
  }

  // One more digit through eight turns of the bitwise loop.
  lemma NextIbm(start: bv16, i: nat)
    requires i < 9
    ensures CrcMsb.FeedBits(CrcMsb.IBM, start, Unpack(DIGITS[..i + 1]))
         == Step8Ibm(CrcMsb.Mix(CrcMsb.FeedBits(CrcMsb.IBM, start, Unpack(DIGITS[..i])), CrcMsb.ByteWord(DIGITS[i])))
  {
    hide CrcMsb.FeedBits, CrcMsb.StepN, CrcMsb.Mix, CrcMsb.ByteWord, MsbBits, Unpack, StepIbm;
    var reg := CrcMsb.FeedBits(CrcMsb.IBM, start, Unpack(DIGITS[..i]));
    CrcMsb.FeedAnother(CrcMsb.IBM, start, DIGITS, i);
    CrcMsb.ByteIsBits(CrcMsb.IBM, reg, DIGITS[i]);
    var v := CrcMsb.Mix(reg, CrcMsb.ByteWord(DIGITS[i]));
    IbmSteps(0, v); IbmSteps(1, v); IbmSteps(2, v); IbmSteps(3, v);
    IbmSteps(4, v); IbmSteps(5, v); IbmSteps(6, v); IbmSteps(7, v);
  }

  lemma IbmTurns123()
    ensures Step8Ibm(CrcMsb.Mix(0xFFFF, CrcMsb.ByteWord(0x31))) == 0x7DA7
    ensures Step8Ibm(CrcMsb.Mix(0x7DA7, CrcMsb.ByteWord(0x32))) == 0x26A1
    ensures Step8Ibm(CrcMsb.Mix(0x26A1, CrcMsb.ByteWord(0x33))) == 0x217D
  {
  }

  lemma IbmTurns456()
    ensures Step8Ibm(CrcMsb.Mix(0x217D, CrcMsb.ByteWord(0x34))) == 0xFD7D
    ensures Step8Ibm(CrcMsb.Mix(0xFD7D, CrcMsb.ByteWord(0x35))) == 0xFFB3
    ensures Step8Ibm(CrcMsb.Mix(0xFFB3, CrcMsb.ByteWord(0x36))) == 0xB1B6
  {
  }

  lemma IbmTurns789()
    ensures Step8Ibm(CrcMsb.Mix(0xB1B6, CrcMsb.ByteWord(0x37))) == 0x3517
    ensures Step8Ibm(CrcMsb.Mix(0x3517, CrcMsb.ByteWord(0x38))) == 0x972D
    ensures Step8Ibm(CrcMsb.Mix(0x972D, CrcMsb.ByteWord(0x39))) == 0xAEE7
  {
  }

  lemma Ibm()
    ensures CrcMsb.FeedBits(CrcMsb.IBM, 0xFFFF, Unpack(DIGITS)) == 0xAEE7
  {
    hide CrcMsb.FeedBits, CrcMsb.Mix, CrcMsb.ByteWord, Unpack, Step8Ibm;
    IbmTurns123(); IbmTurns456(); IbmTurns789();
    CrcMsb.NothingFed(CrcMsb.IBM, 0xFFFF, DIGITS);
    NextIbm(0xFFFF, 0); NextIbm(0xFFFF, 1); NextIbm(0xFFFF, 2); NextIbm(0xFFFF, 3); NextIbm(0xFFFF, 4);
    NextIbm(0xFFFF, 5); NextIbm(0xFFFF, 6); NextIbm(0xFFFF, 7); NextIbm(0xFFFF, 8);
    assert DIGITS[..9] == DIGITS;
  }
}
