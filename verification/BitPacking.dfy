// Bits packed into bytes with the most significant bit first.
module BitPacking {

  function MsbBits(b: bv8): (r: seq<bool>)
    ensures |r| == 8
  {
    [b & 128 != 0, b & 64 != 0, b & 32 != 0, b & 16 != 0, b & 8 != 0, b & 4 != 0, b & 2 != 0, b & 1 != 0]
  }

  lemma MsbBitsAt(b: bv8)
    ensures var x := MsbBits(b);
      && x[0] == (b & 128 != 0) && x[1] == (b & 64 != 0) && x[2] == (b & 32 != 0) && x[3] == (b & 16 != 0)
      && x[4] == (b & 8 != 0) && x[5] == (b & 4 != 0) && x[6] == (b & 2 != 0) && x[7] == (b & 1 != 0)
  {
  }

  function Unpack(bytes: seq<bv8>): (r: seq<bool>)
    ensures |r| == 8 * |bytes|
  {
    if bytes == [] then [] else Unpack(bytes[..|bytes| - 1]) + MsbBits(bytes[|bytes| - 1])
  }

  // sr = (sr << 1) | bit
  function PushBit(sr: bv8, b: bool): bv8 {
    (sr << 1) | (if b then 1 else 0)
  }

  lemma PushMasks(sr: bv8, b: bool)
    ensures var x := PushBit(sr, b);
      && (x & 128 != 0) == (sr & 64 != 0) && (x & 64 != 0) == (sr & 32 != 0) && (x & 32 != 0) == (sr & 16 != 0)
      && (x & 16 != 0) == (sr & 8 != 0) && (x & 8 != 0) == (sr & 4 != 0) && (x & 4 != 0) == (sr & 2 != 0)
      && (x & 2 != 0) == (sr & 1 != 0) && (x & 1 != 0) == b
  {
  }

  lemma PushBits(sr: bv8, b: bool)
    ensures MsbBits(PushBit(sr, b)) == MsbBits(sr)[1..] + [b]
  {
    hide PushBit;
    PushMasks(sr, b);
  }

  // `bits` is what has been packed: whole bytes in `bytes`, and the last n
  // bits in the low end of the shift register.
  predicate Packed(bytes: seq<bv8>, sr: bv8, n: nat, bits: seq<bool>) {
    && n <= 8 && |bits| == 8 * |bytes| + n
    && Unpack(bytes) == bits[..8 * |bytes|]
    && MsbBits(sr)[8 - n..] == bits[8 * |bytes|..]
  }

  lemma PackBit(bytes: seq<bv8>, sr: bv8, n: nat, bits: seq<bool>, b: bool)
    requires Packed(bytes, sr, n, bits) && n < 8
    ensures Packed(bytes, PushBit(sr, b), n + 1, bits + [b])
  {
    hide MsbBits, PushBit, Unpack;
    PushBits(sr, b);
    var m, s := 8 * |bytes|, MsbBits(sr);
    assert (bits + [b])[..m] == bits[..m];
    assert (s[1..] + [b])[7 - n..] == s[8 - n..] + [b];
    assert (bits + [b])[m..] == bits[m..] + [b];
  }

  lemma PackByte(bytes: seq<bv8>, sr: bv8, bits: seq<bool>)
    requires Packed(bytes, sr, 8, bits)
    ensures Packed(bytes + [sr], sr, 0, bits)
  {
    hide MsbBits;
    var m := 8 * |bytes|;
    assert (bytes + [sr])[..|bytes|] == bytes;
    assert MsbBits(sr)[0..] == MsbBits(sr);
    assert bits == bits[..m] + bits[m..];
    assert bits[..8 * |bytes + [sr]|] == bits;
  }

  lemma {:induction false} UnpackConcat(a: seq<bv8>, b: seq<bv8>)
    ensures Unpack(a + b) == Unpack(a) + Unpack(b)
  {
    hide MsbBits;
    if b == [] {
      assert a + b == a;
    } else {
      var n := |b| - 1;
      assert (a + b)[..|a + b| - 1] == a + b[..n];
      UnpackConcat(a, b[..n]);
    }
  }
}
