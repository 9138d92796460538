// Bytes as bits in the order AX.25 and the reflected CRCs send them.
module WireBits {

  // A byte's bits in transmission order, least significant first.
  function ByteBits(b: bv8): (r: seq<bool>)
    ensures |r| == 8
  {
    [b & 1 != 0, b & 2 != 0, b & 4 != 0, b & 8 != 0, b & 16 != 0, b & 32 != 0, b & 64 != 0, b & 128 != 0]
  }

  lemma ByteBitsAt(r: bv8)
    ensures var x := ByteBits(r);
      && x[0] == (r & 1 != 0) && x[1] == (r & 2 != 0) && x[2] == (r & 4 != 0) && x[3] == (r & 8 != 0)
      && x[4] == (r & 16 != 0) && x[5] == (r & 32 != 0) && x[6] == (r & 64 != 0) && x[7] == (r & 128 != 0)
  {
  }

  function BytesBits(data: seq<bv8>): (r: seq<bool>)
    ensures |r| == 8 * |data|
  {
    if data == [] then [] else BytesBits(data[..|data| - 1]) + ByteBits(data[|data| - 1])
  }

  // Where two bit strings differ.
  ghost function Differ(s: seq<bool>, t: seq<bool>): (d: seq<bool>)
    requires |s| == |t|
    ensures |d| == |s|
  {
    seq(|s|, i requires 0 <= i < |s| => s[i] != t[i])
  }

  lemma BitsDetermineByte(x: bv8, y: bv8)
    requires ByteBits(x) == ByteBits(y)
    ensures x == y
  {
    var s, t := ByteBits(x), ByteBits(y);
    assert s[0] == t[0] && s[1] == t[1] && s[2] == t[2] && s[3] == t[3];
    assert s[4] == t[4] && s[5] == t[5] && s[6] == t[6] && s[7] == t[7];
  }

  lemma {:induction false} BitsDetermineBytes(a: seq<bv8>, b: seq<bv8>)
    requires |a| == |b| && BytesBits(a) == BytesBits(b)
    ensures a == b
  {
    hide ByteBits;
    if a != [] {
      var n := |a| - 1;
      var s, t := BytesBits(a), BytesBits(b);
      assert s[..8 * n] == BytesBits(a[..n]) && t[..8 * n] == BytesBits(b[..n]);
      assert s[8 * n..] == ByteBits(a[n]) && t[8 * n..] == ByteBits(b[n]);
      BitsDetermineBytes(a[..n], b[..n]);
      BitsDetermineByte(a[n], b[n]);
      assert a == a[..n] + [a[n]] && b == b[..n] + [b[n]];
    }
  }

  // The mask of a byte's j-th bit.
  function Mask(j: nat): bv8
    requires j < 8
  {
    if j == 0 then 0x1 else if j == 1 then 0x2 else if j == 2 then 0x4 else if j == 3 then 0x8
    else if j == 4 then 0x10 else if j == 5 then 0x20 else if j == 6 then 0x40 else 0x80
  }

  lemma ByteBitIsMask(x: bv8, t: nat)
    requires t < 8
    ensures ByteBits(x)[t] == (x & Mask(t) != 0)
  {
  }
}
