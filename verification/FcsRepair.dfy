// Single-bit repair of a frame with a wrong FCS: the search order of
// ax25_decoder::error_correction and what it recovers.
module FcsRepair {
  import opened Crc
  import opened WireBits
  import opened Fcs
  import opened CrcOrder
  import opened Wrappers

  function Toggle(x: bv8, m: bv8): bv8 { x ^ m }

  // Bit k in transmission order, toggled.
  function FlipBit(frame: seq<bv8>, k: nat): (r: seq<bv8>)
    requires k < 8 * |frame|
    ensures |r| == |frame|
  {
    frame[k / 8 := Toggle(frame[k / 8], Mask(k % 8))]
  }

  // The first bit from k on whose flip makes the frame valid.
  function FirstFix(frame: seq<bv8>, k: nat): (r: Option<nat>)
    requires |frame| >= 2
    ensures r.Some? ==> r.value < 8 * |frame|
    decreases 8 * |frame| - k
  {
    if k >= 8 * |frame| then None
    else if FrameValid(FlipBit(frame, k)) then Some(k)
    else FirstFix(frame, k + 1)
  }

  function Repair(frame: seq<bv8>): (r: Option<seq<bv8>>)
    requires |frame| >= 2
    ensures r.Some? ==> |r.value| == |frame|
  {
    match FirstFix(frame, 0)
    case None => None
    case Some(k) => Some(FlipBit(frame, k))
  }

  lemma {:induction false} FirstFixFinds(frame: seq<bv8>, k: nat)
    requires |frame| >= 2
    ensures var r := FirstFix(frame, k);
      match r
      case None => forall j :: k <= j < 8 * |frame| ==> !FrameValid(FlipBit(frame, j))
      case Some(i) =>
        && k <= i < 8 * |frame| && FrameValid(FlipBit(frame, i))
        && forall j :: k <= j < i ==> !FrameValid(FlipBit(frame, j))
    decreases 8 * |frame| - k
  {
    hide FrameValid, FlipBit;
    if k < 8 * |frame| && !FrameValid(FlipBit(frame, k)) {
      FirstFixFinds(frame, k + 1);
    }
  }

  // A repaired frame is valid and one bit away; a refusal means no single
  // flip would have helped.
  lemma RepairSound(frame: seq<bv8>)
    requires |frame| >= 2
    ensures match Repair(frame)
      case Some(g) => FrameValid(g) && exists k :: 0 <= k < 8 * |frame| && g == FlipBit(frame, k)
      case None => forall k :: 0 <= k < 8 * |frame| ==> !FrameValid(FlipBit(frame, k))
  {
    hide FrameValid, FlipBit;
    FirstFixFinds(frame, 0);
  }

  // ---------- Flips as differences ----------

  lemma {:induction false} BitAt(data: seq<bv8>, i: nat)
    requires i < 8 * |data|
    ensures BytesBits(data)[i] == ByteBits(data[i / 8])[i % 8]
  {
    hide ByteBits;
    var n := |data| - 1;
    if i < 8 * n { BitAt(data[..n], i); }
  }

  lemma ToggleSame(x: bv8, j: nat)
    requires j < 8
    ensures (Toggle(x, Mask(j)) & Mask(j) != 0) == !(x & Mask(j) != 0)
  {
  }

  lemma ToggleOther(x: bv8, m: bv8, n: bv8)
    requires m & n == 0
    ensures Toggle(x, m) & n == x & n
  {
  }

  lemma MasksDisjoint(j: nat, t: nat)
    requires j < 8 && t < 8 && j != t
    ensures Mask(j) & Mask(t) == 0
  {
  }

  lemma FlippedByte(x: bv8, j: nat, t: nat)
    requires j < 8 && t < 8
    ensures ByteBits(Toggle(x, Mask(j)))[t] == (ByteBits(x)[t] != (t == j))
  {
    hide ByteBits, Mask, Toggle;
    ByteBitIsMask(x, t);
    ByteBitIsMask(Toggle(x, Mask(j)), t);
    if t == j {
      ToggleSame(x, j);
    } else {
      MasksDisjoint(j, t);
      ToggleOther(x, Mask(j), Mask(t));
    }
  }

  lemma FlippedAt(frame: seq<bv8>, k: nat, b: nat)
    requires k < 8 * |frame| && b < |frame|
    ensures FlipBit(frame, k)[b] == if b == k / 8 then Toggle(frame[b], Mask(k % 8)) else frame[b]
  {
  }

  lemma FlippedBit(frame: seq<bv8>, k: nat, i: nat)
    requires k < 8 * |frame| && i < 8 * |frame|
    ensures BytesBits(FlipBit(frame, k))[i] == (BytesBits(frame)[i] != (i == k))
  {
    hide ByteBits, BytesBits, Mask, Toggle, FlipBit;
    BitAt(frame, i);
    BitAt(FlipBit(frame, k), i);
    var b, t := i / 8, i % 8;
    assert i == 8 * b + t && k == 8 * (k / 8) + k % 8;
    FlippedAt(frame, k, b);
    if b == k / 8 {
      FlippedByte(frame[b], k % 8, t);
    }
  }

  lemma FlipTwice(frame: seq<bv8>, k: nat)
    requires k < 8 * |frame|
    ensures FlipBit(FlipBit(frame, k), k) == frame
  {
    var x, m := frame[k / 8], Mask(k % 8);
    UndoMask(x, m);
  }

  lemma UndoMask(x: bv8, m: bv8)
    ensures Toggle(Toggle(x, m), m) == x
  {
  }

  // n bits of which only bit k is set.
  ghost function Unit(n: nat, k: nat): (u: seq<bool>)
    requires k < n
    ensures |u| == n
  {
    seq(n, i => i == k)
  }

  lemma UnitFeed(n: nat, k: nat)
    requires k < n
    ensures FeedBits(0, Unit(n, k)) == ShiftN(n - k, 1)
  {
    hide Shift, Mix, FeedBits, ShiftN;
    var u := Unit(n, k);
    var a, c := u[..k], u[k + 1..];
    assert u == (a + [true]) + c;
    FeedBitsConcat(0, a + [true], c);
    FeedZeros(0, a);
    ShiftNZero(k);
    FeedBitsStep(0, a, true);
    MixZero(1);
    assert BitWord(true) == 1;
    FeedZeros(Shift(1), c);
    ShiftCommutes(|c|, 1);
    ShiftStep(|c|, 1);
  }

  lemma OneIsPower(n: nat)
    ensures ShiftN(n, 1) == Power(n + 15)
  {
    hide ShiftN;
    ShiftNAdd(n, 15, 0x8000);
    FifteenShifts();
  }

  lemma FifteenShifts()
    ensures ShiftN(15, 0x8000) == 1
  {
    hide ShiftN;
    ShiftStep(0, 0x8000); ShiftStep(1, 0x8000); ShiftStep(2, 0x8000); ShiftStep(3, 0x8000); ShiftStep(4, 0x8000);
    ShiftStep(5, 0x8000); ShiftStep(6, 0x8000); ShiftStep(7, 0x8000); ShiftStep(8, 0x8000); ShiftStep(9, 0x8000);
    ShiftStep(10, 0x8000); ShiftStep(11, 0x8000); ShiftStep(12, 0x8000); ShiftStep(13, 0x8000); ShiftStep(14, 0x8000);
  }

  // Two units cancel exactly when their distance is a period of x.
  lemma UnitsCancel(n: nat, j: nat, k: nat)
    requires j < k < n
    ensures FeedBits(0, Differ(Unit(n, j), Unit(n, k))) == 0 <==> Power(k - j) == Power(0)
  {
    hide Shift, Mix, FeedBits, ShiftN, Power;
    FeedDifference(0, 0, Unit(n, j), Unit(n, k));
    MixZero(0);
    UnitFeed(n, j);
    UnitFeed(n, k);
    OneIsPower(n - j);
    OneIsPower(n - k);
    var m := n - k + 15;
    PowerAdd(m, k - j);
    PowerAdd(m, 0);
    MixZero(Power(m));
    if Mix(Power(n - j + 15), Power(m)) == 0 {
      MixCancel(Power(n - j + 15), Power(m));
      ShiftNInjective(m, Power(k - j), Power(0));
    }
  }

  lemma SecondFlipBits(frame: seq<bv8>, j: nat, k: nat)
    requires j < 8 * |frame| && k < 8 * |frame|
    ensures Differ(BytesBits(frame), BytesBits(FlipBit(FlipBit(frame, k), j)))
         == Differ(Unit(8 * |frame|, j), Unit(8 * |frame|, k))
  {
    hide BytesBits, FlipBit;
    var g, n := FlipBit(frame, k), 8 * |frame|;
    forall i | 0 <= i < n ensures
      Differ(BytesBits(frame), BytesBits(FlipBit(g, j)))[i] == Differ(Unit(n, j), Unit(n, k))[i]
    {
      FlippedBit(g, j, i);
      FlippedBit(frame, k, i);
    }
  }

  // After one flip, an earlier flip restores validity only at a period.
  lemma SecondFlip(frame: seq<bv8>, j: nat, k: nat)
    requires |frame| >= 2 && FrameValid(frame) && j < k < 8 * |frame|
    ensures FrameValid(FlipBit(FlipBit(frame, k), j)) <==> Power(k - j) == Power(0)
  {
    hide BytesBits, FlipBit, FrameValid, FeedBits, Power;
    ValidDifference(frame, FlipBit(FlipBit(frame, k), j));
    SecondFlipBits(frame, j, k);
    UnitsCancel(8 * |frame|, j, k);
  }

  lemma FlipsDiffer(frame: seq<bv8>, j: nat, k: nat)
    requires j < 8 * |frame| && k < 8 * |frame| && j != k
    ensures FlipBit(FlipBit(frame, k), j) != frame
  {
    hide BytesBits, FlipBit;
    FlippedBit(FlipBit(frame, k), j, j);
    FlippedBit(frame, k, j);
  }

  // One flipped bit never goes unnoticed.
  lemma SingleFlipInvalid(frame: seq<bv8>, k: nat)
    requires |frame| >= 2 && FrameValid(frame) && k < 8 * |frame|
    ensures !FrameValid(FlipBit(frame, k))
  {
    hide BytesBits, FlipBit, FrameValid;
    var g := FlipBit(frame, k);
    forall i | 0 <= i < 8 * |frame| && BytesBits(frame)[i] != BytesBits(g)[i] ensures k <= i < k + 1 {
      FlippedBit(frame, k, i);
    }
    FlippedBit(frame, k, k);
    if FrameValid(g) {
      BurstDetected(frame, g, k, k + 1);
      assert false;
    }
  }

  // The transmitted frame comes back exactly when the flipped bit is among
  // the first 32767: every bit of a frame of up to 4095 bytes.
  lemma RepairExact(frame: seq<bv8>, k: nat)
    requires |frame| >= 2 && FrameValid(frame) && k < 8 * |frame|
    ensures Repair(FlipBit(frame, k)) == Some(frame) <==> k < 32767
  {
    hide FlipBit, FrameValid, Power, FirstFix;
    var g := FlipBit(frame, k);
    FlipTwice(frame, k);
    FirstFixFinds(g, 0);
    if k < 32767 {
      forall j | 0 <= j < k ensures !FrameValid(FlipBit(g, j)) {
        SecondFlip(frame, j, k);
        OrderOfX(k - j);
      }
      assert FrameValid(FlipBit(g, k));
    } else {
      var j := k - 32767;
      SecondFlip(frame, j, k);
      OrderOfX(32767);
      assert FrameValid(FlipBit(g, j));
      var i := FirstFix(g, 0).value;
      assert i <= j;
      FlipsDiffer(frame, i, k);
    }
  }
}
