// lib/ax25_encoder.cc: frame assembly, bit stuffing, flags, packing and NRZI,
// with scrambling off.
module Ax25Encoder {
  import opened Wrappers
  import opened BitPacking
  import opened Crc
  import opened WireBits
  import opened Fcs
  import opened FcsRepair
  import opened Ax25Machine
  import opened Ax25Register
  import opened Ax25Stuffing
  import opened Ax25Reception
  import Nrzi

  const CALLSIGN_MAX_LEN: nat := 6
  const MAX_HEADER_LEN: nat := 73

  datatype Encoder = Encoder(
    destAddr: seq<bv8>, destSsid: bv8, srcAddr: seq<bv8>, srcSsid: bv8,
    preambleLen: nat, postambleLen: nat, nrzi: bool)
  {
    predicate Valid() {
      1 <= |destAddr| <= CALLSIGN_MAX_LEN && 1 <= |srcAddr| <= CALLSIGN_MAX_LEN
    }
  }

  // The constructor, which refuses callsigns of a wrong length.
  method Make(destAddr: seq<bv8>, destSsid: bv8, srcAddr: seq<bv8>, srcSsid: bv8,
              preambleLen: nat, postambleLen: nat, nrzi: bool) returns (e: Option<Encoder>)
    ensures e.Some? <==> 1 <= |destAddr| <= CALLSIGN_MAX_LEN && 1 <= |srcAddr| <= CALLSIGN_MAX_LEN
    ensures e.Some? ==> e.value == Encoder(destAddr, destSsid, srcAddr, srcSsid, preambleLen, postambleLen, nrzi)
  {
    if |destAddr| == 0 || |destAddr| > CALLSIGN_MAX_LEN {
      return None;
    }
    if |srcAddr| == 0 || |srcAddr| > CALLSIGN_MAX_LEN {
      return None;
    }
    e := Some(Encoder(destAddr, destSsid, srcAddr, srcSsid, preambleLen, postambleLen, nrzi));
  }

  // ---------- The frame (sections 3.1 and 3.12 of AX.25 v2.2) ----------

  // An address character makes room for the extension bit.
  function Shifted(c: bv8): bv8 { c << 1 }

  // A callsign, padded with spaces, every character shifted left.
  function Callsign(addr: seq<bv8>): (r: seq<bv8>)
    requires |addr| <= CALLSIGN_MAX_LEN
    ensures |r| == CALLSIGN_MAX_LEN
  {
    seq(CALLSIGN_MAX_LEN, i requires 0 <= i < CALLSIGN_MAX_LEN => Shifted(if i < |addr| then addr[i] else 0x20))
  }

  function SsidByte(ssid: bv8, last: bool): bv8 {
    ((0x0F & ssid) << 1) | (if last then 0x61 else 0x60)
  }

  function Address(e: Encoder): (r: seq<bv8>)
    requires e.Valid()
    ensures |r| == MIN_ADDR_LEN
  {
    Callsign(e.destAddr) + [SsidByte(e.destSsid, false)] + Callsign(e.srcAddr) + [SsidByte(e.srcSsid, true)]
  }

  // Address, control and PID field, and the payload.
  function Body(e: Encoder, pdu: seq<bv8>): (r: seq<bv8>)
    requires e.Valid()
    ensures |r| == |pdu| + 16
  {
    Address(e) + [0x00, 0xF0] + pdu
  }

  function Checksum(body: seq<bv8>): bv16 {
    Mix(FeedBits(0xFFFF, BytesBits(body)), 0xFFFF)
  }

  function FcsBytes(crc: bv16): (r: seq<bv8>)
    ensures |r| == 2
  {
    [(crc & 0xFF) as bv8, (crc >> 8) as bv8]
  }

  function FrameOf(e: Encoder, pdu: seq<bv8>): (r: seq<bv8>)
    requires e.Valid()
    ensures |r| == |pdu| + 18
  {
    Body(e, pdu) + FcsBytes(Checksum(Body(e, pdu)))
  }

  lemma FrameIsValid(e: Encoder, pdu: seq<bv8>)
    requires e.Valid()
    ensures FrameValid(FrameOf(e, pdu)) && FrameOf(e, pdu)[..|pdu| + 16] == Body(e, pdu)
  {
    hide Mix, FeedBits, FeedBytes, BytesBits, FrameValid, Body;
    var body := Body(e, pdu);
    TableIsSerial(0xFFFF, body);
    AppendedFcs(body, Checksum(body));
  }

  // insert_address
  method InsertAddress(e: Encoder, out: array<bv8>) returns (n: nat)
    requires e.Valid() && out.Length >= MIN_ADDR_LEN
    modifies out
    ensures n == MIN_ADDR_LEN
    ensures out[..n] == Address(e) && out[n..] == old(out[n..])
  {
    hide SsidByte, Callsign;
    InsertCallsign(e.destAddr, out, 0);
    ghost var dest := out[..6];
    assert dest == out[0..6];
    out[6] := SsidByte(e.destSsid, false);
    InsertCallsign(e.srcAddr, out, 7);
    ghost var src := out[7..13];
    out[13] := SsidByte(e.srcSsid, true);
    n := MIN_ADDR_LEN;
    assert out[..6] == dest && out[7..13] == src;
    assert out[..14] == out[..6] + [out[6]] + out[7..13] + [out[13]];
    assert forall k :: 14 <= k < out.Length ==> out[k] == old(out[k]);
    assert out[n..] == old(out[n..]);
  }

  method InsertCallsign(addr: seq<bv8>, out: array<bv8>, at: nat)
    requires |addr| <= CALLSIGN_MAX_LEN && at + CALLSIGN_MAX_LEN <= out.Length
    modifies out
    ensures out[at..at + CALLSIGN_MAX_LEN] == Callsign(addr)
    ensures forall k :: 0 <= k < out.Length && !(at <= k < at + CALLSIGN_MAX_LEN) ==> out[k] == old(out[k])
  {
    var i := 0;
    while i < |addr|
      invariant i <= |addr|
      invariant forall k :: 0 <= k < i ==> out[at + k] == Callsign(addr)[k]
      invariant forall k :: 0 <= k < out.Length && !(at <= k < at + i) ==> out[k] == old(out[k])
    {
      out[at + i] := Shifted(addr[i]);
      i := i + 1;
    }
    while i < CALLSIGN_MAX_LEN
      invariant |addr| <= i <= CALLSIGN_MAX_LEN
      invariant forall k :: 0 <= k < i ==> out[at + k] == Callsign(addr)[k]
      invariant forall k :: 0 <= k < out.Length && !(at <= k < at + i) ==> out[k] == old(out[k])
    {
      out[at + i] := Shifted(0x20);
      i := i + 1;
    }
  }

  // ---------- Reading the address back ----------

  predicate SevenBit(addr: seq<bv8>) { forall i :: 0 <= i < |addr| ==> addr[i] < 128 }

  lemma ShiftedBack(c: bv8)
    requires c < 128
    ensures Shifted(c) >> 1 == c && Shifted(c) & 1 == 0
  {
  }

  lemma SsidBack(ssid: bv8, last: bool)
    requires ssid < 16
    ensures (SsidByte(ssid, last) >> 1) & 0x0F == ssid && (SsidByte(ssid, last) & 1 == 1 <==> last)
    ensures SsidByte(ssid, last) & 0xE0 == 0x60
  {
  }

  // The receiver's reading of the address field: characters and SSIDs come
  // back, the padding is spaces, and only the last byte carries the
  // extension bit. The command and reserved bits are 011.
  lemma AddressBack(e: Encoder, i: nat)
    requires e.Valid() && i < MIN_ADDR_LEN && e.destSsid < 16 && e.srcSsid < 16
    requires SevenBit(e.destAddr) && SevenBit(e.srcAddr)
    ensures var a := Address(e);
      && (a[i] & 1 == 1 <==> i == MIN_ADDR_LEN - 1)
      && (i < 6 ==> a[i] >> 1 == if i < |e.destAddr| then e.destAddr[i] else 0x20)
      && (i == 6 ==> (a[i] >> 1) & 0x0F == e.destSsid && a[i] & 0xE0 == 0x60)
      && (7 <= i < 13 ==> a[i] >> 1 == if i - 7 < |e.srcAddr| then e.srcAddr[i - 7] else 0x20)
      && (i == 13 ==> (a[i] >> 1) & 0x0F == e.srcSsid && a[i] & 0xE0 == 0x60)
  {
    hide Shifted, SsidByte;
    SsidBack(e.destSsid, false);
    SsidBack(e.srcSsid, true);
    if i < 6 {
      ShiftedBack(if i < |e.destAddr| then e.destAddr[i] else 0x20);
    } else if 7 <= i < 13 {
      ShiftedBack(if i - 7 < |e.srcAddr| then e.srcAddr[i - 7] else 0x20);
    }
  }

  // A frame without its checksum as the receiver reads it: the address field,
  // a UI frame's control field, the PID of no layer 3, and the payload.
  predicate Reads(e: Encoder, pdu: seq<bv8>, frame: seq<bv8>)
    requires e.Valid()
  {
    && |frame| == 16 + |pdu| && frame[..14] == Address(e)
    && frame[14] == 0x00 && frame[15] == 0xF0 && frame[16..] == pdu
  }

  lemma FrameBack(e: Encoder, pdu: seq<bv8>)
    requires e.Valid()
    ensures Reads(e, pdu, FrameOf(e, pdu)[..16 + |pdu|])
  {
    hide Address, FcsBytes, Checksum;
    var body, a := Body(e, pdu), Address(e);
    assert FrameOf(e, pdu)[..16 + |pdu|] == body;
    assert body == a + ([0x00, 0xF0] + pdu);
    assert body[..14] == a && body[14..] == [0x00, 0xF0] + pdu;
    assert body[14] == body[14..][0] && body[15] == body[14..][1];
    assert body[16..] == body[14..][2..] == pdu;
  }

  // ---------- The bits sent ----------

  function Padding(n: nat): (z: nat)
    ensures z < 8 && (n + z) % 8 == 0
  {
    (8 - n % 8) % 8
  }

  // Flags, the stuffed frame, flags, and zeros up to a whole byte.
  function Raw(e: Encoder, pdu: seq<bv8>): seq<bool>
    requires e.Valid()
  {
    var frame := FrameOf(e, pdu);
    Transmission(frame, e.preambleLen, e.postambleLen, Padding(|Stuff(0, BytesBits(frame))|))
  }

  function Line(e: Encoder, pdu: seq<bv8>): seq<bool>
    requires e.Valid()
  {
    if e.nrzi then Nrzi.Encode(false, Raw(e, pdu)) else Raw(e, pdu)
  }

  // Without line coding the bits are sent as they are.
  lemma PlainLine(e: Encoder, pdu: seq<bv8>)
    requires e.Valid()
    ensures if e.nrzi then Nrzi.Decode(false, Line(e, pdu)) == Raw(e, pdu) else Line(e, pdu) == Raw(e, pdu)
  {
    hide Raw;
    Nrzi.RoundTrip(false, Raw(e, pdu));
  }

  // The bytes the source allocates for the output.
  function Capacity(e: Encoder, n: nat): nat {
    e.preambleLen + e.postambleLen + n + n / 8 + MAX_HEADER_LEN + 4
  }

  predicate Fits(e: Encoder, pdu: seq<bv8>)
    requires e.Valid()
  {
    |Raw(e, pdu)| <= 8 * Capacity(e, |pdu|)
  }

  lemma RawLength(e: Encoder, pdu: seq<bv8>)
    requires e.Valid()
    ensures var n := |Stuff(0, BytesBits(FrameOf(e, pdu)))|;
      && |Raw(e, pdu)| == 8 * e.preambleLen + n + 8 * e.postambleLen + Padding(n)
      && |Raw(e, pdu)| % 8 == 0
  {
    hide Stuff, BytesBits, FrameOf;
  }

  // The zeros stuffed into a frame.
  function Zeroed(e: Encoder, pdu: seq<bv8>): nat
    requires e.Valid()
  {
    Inserted(0, BytesBits(FrameOf(e, pdu)))
  }

  // The output fits the allocation exactly when no more zeros are stuffed
  // than eight for every eighth payload byte and for 59 more.
  lemma FitsExactly(e: Encoder, pdu: seq<bv8>)
    requires e.Valid()
    ensures Fits(e, pdu) <==> Zeroed(e, pdu) <= 8 * (|pdu| / 8 + 59)
  {
    hide Stuff, Inserted, BytesBits, FrameOf, Raw;
    RawLength(e, pdu);
    InsertedLength(0, BytesBits(FrameOf(e, pdu)));
  }

  // ---------- Lengths that always or never fit ----------

  function Header(e: Encoder): (r: seq<bv8>)
    requires e.Valid()
    ensures |r| == 16
  {
    Address(e) + [0x00, 0xF0]
  }

  // The zeros stuffed into address, control and PID field.
  function HeaderZeros(e: Encoder): nat
    requires e.Valid()
  {
    Inserted(0, BytesBits(Header(e)))
  }

  lemma FourZeros(run: nat)
    requires run < 5
    ensures var f: seq<bool> := [false, false, false, false]; Inserted(run, f) == 0 && EndRun(run, f) == 0
  {
    var f: seq<bool> := [false, false, false, false];
    assert f[1..] == [false, false, false] && f[1..][1..] == [false, false] && f[1..][1..][1..] == [false];
    assert f[1..][1..][1..][1..] == [];
    EmitFirst(run, f);
    EmitFirst(0, f[1..]);
    EmitFirst(0, f[1..][1..]);
    EmitFirst(0, f[1..][1..][1..]);
    InsertedBound(0, f[1..]);
  }

  lemma FourOnes()
    ensures Inserted(0, AllOnes(4)) == 0 && EndRun(0, AllOnes(4)) == 4
  {
    InsertedOnes(0, 4);
    assert AllOnes(4)[1..] == AllOnes(3) && AllOnes(3)[1..] == AllOnes(2) && AllOnes(2)[1..] == AllOnes(1);
    assert AllOnes(1)[1..] == [];
    assert EndRun(3, AllOnes(1)) == 4 && EndRun(2, AllOnes(2)) == 4 && EndRun(1, AllOnes(3)) == 4;
  }

  lemma PlainBytes()
    ensures ByteBits(0x00) == [false, false, false, false] + [false, false, false, false]
    ensures ByteBits(0xF0) == [false, false, false, false] + AllOnes(4)
  {
  }

  // Control and PID field take no stuffing and leave a run of four ones.
  lemma ControlAndPid(run: nat)
    requires run < 5
    ensures var bits := ByteBits(0x00) + ByteBits(0xF0); Inserted(run, bits) == 0 && EndRun(run, bits) == 4
  {
    hide Inserted, EndRun, ByteBits;
    var f: seq<bool> := [false, false, false, false];
    PlainBytes();
    FourZeros(run);
    FourZeros(0);
    FourOnes();
    InsertedConcat(run, f, f);
    EndRunConcat(run, f, f);
    InsertedConcat(0, f, AllOnes(4));
    EndRunConcat(0, f, AllOnes(4));
    InsertedConcat(run, f + f, f + AllOnes(4));
    EndRunConcat(run, f + f, f + AllOnes(4));
  }

  lemma HeaderBits(e: Encoder)
    requires e.Valid()
    ensures BytesBits(Header(e)) == BytesBits(Address(e)) + (ByteBits(0x00) + ByteBits(0xF0))
  {
    hide ByteBits, Address;
    BytesBitsConcat(Address(e), [0x00, 0xF0]);
    assert [0x00, 0xF0 as bv8][..1] == [0x00] && [0x00 as bv8][..0] == [];
    assert BytesBits([0x00]) == ByteBits(0x00);
  }

  lemma HeaderRun(e: Encoder)
    requires e.Valid()
    ensures EndRun(0, BytesBits(Header(e))) == 4
    ensures HeaderZeros(e) == Inserted(0, BytesBits(Address(e)))
  {
    hide Inserted, EndRun, ByteBits, BytesBits, Address;
    var bits := BytesBits(Address(e));
    HeaderBits(e);
    EndRunConcat(0, bits, ByteBits(0x00) + ByteBits(0xF0));
    InsertedConcat(0, bits, ByteBits(0x00) + ByteBits(0xF0));
    ControlAndPid(EndRun(0, bits));
  }

  lemma EvenByte(run: nat, b: bv8)
    requires run < 5 && b & 1 == 0
    ensures Inserted(run, ByteBits(b)) <= 1
  {
    var x := ByteBits(b);
    assert !x[0];
    hide ByteBits;
    InsertedBound(0, x[1..]);
  }

  lemma {:induction false} EvenBytes(bytes: seq<bv8>)
    requires forall i :: 0 <= i < |bytes| ==> bytes[i] & 1 == 0
    ensures Inserted(0, BytesBits(bytes)) <= |bytes|
  {
    hide Inserted, EndRun, ByteBits;
    if bytes == [] {
      InsertedBound(0, []);
    } else {
      var n := |bytes| - 1;
      EvenBytes(bytes[..n]);
      InsertedConcat(0, BytesBits(bytes[..n]), ByteBits(bytes[n]));
      EvenByte(EndRun(0, BytesBits(bytes[..n])), bytes[n]);
    }
  }

  lemma ShiftedEven(c: bv8)
    ensures Shifted(c) & 1 == 0
  {
  }

  lemma SsidEven(ssid: bv8)
    ensures SsidByte(ssid, false) & 1 == 0
  {
  }

  // The header never takes more than fifteen zeros.
  lemma FewHeaderZeros(e: Encoder)
    requires e.Valid()
    ensures HeaderZeros(e) <= 15
  {
    hide Inserted, EndRun, ByteBits, BytesBits, Shifted, SsidByte;
    HeaderRun(e);
    var front := Callsign(e.destAddr) + [SsidByte(e.destSsid, false)] + Callsign(e.srcAddr);
    var last := [SsidByte(e.srcSsid, true)];
    assert Address(e) == front + last;
    SsidEven(e.destSsid);
    forall i | 0 <= i < |front| ensures front[i] & 1 == 0 {
      if i < 6 {
        ShiftedEven(if i < |e.destAddr| then e.destAddr[i] else 0x20);
      } else if i >= 7 {
        ShiftedEven(if i - 7 < |e.srcAddr| then e.srcAddr[i - 7] else 0x20);
      }
    }
    EvenBytes(front);
    BytesBitsConcat(front, last);
    InsertedConcat(0, BytesBits(front), BytesBits(last));
    InsertedBound(EndRun(0, BytesBits(front)), BytesBits(last));
  }

  lemma {:induction false} BytesBitsConcat(a: seq<bv8>, b: seq<bv8>)
    ensures BytesBits(a + b) == BytesBits(a) + BytesBits(b)
  {
    hide ByteBits;
    if b == [] {
      assert a + b == a;
    } else {
      var n := |b| - 1;
      assert (a + b)[..|a + b| - 1] == a + b[..n];
      BytesBitsConcat(a, b[..n]);
    }
  }

  lemma {:induction false} OnesBytes(pdu: seq<bv8>)
    requires forall i :: 0 <= i < |pdu| ==> pdu[i] == 0xFF
    ensures BytesBits(pdu) == AllOnes(8 * |pdu|)
  {
    hide ByteBits;
    if pdu != [] {
      OnesBytes(pdu[..|pdu| - 1]);
      assert ByteBits(0xFF) == AllOnes(8) by { OnesByte(); }
      assert AllOnes(8 * |pdu|) == AllOnes(8 * |pdu| - 8) + AllOnes(8);
    }
  }

  lemma OnesByte()
    ensures ByteBits(0xFF) == AllOnes(8)
  {
  }

  lemma FrameParts(e: Encoder, pdu: seq<bv8>)
    requires e.Valid()
    ensures var fcs := FcsBytes(Checksum(Body(e, pdu)));
      Zeroed(e, pdu) == HeaderZeros(e) + Inserted(4, BytesBits(pdu) + BytesBits(fcs))
  {
    hide Inserted, EndRun, BytesBits, FcsBytes, Checksum, Address;
    var fcs := FcsBytes(Checksum(Body(e, pdu)));
    assert FrameOf(e, pdu) == Header(e) + (pdu + fcs);
    BytesBitsConcat(Header(e), pdu + fcs);
    BytesBitsConcat(pdu, fcs);
    InsertedConcat(0, BytesBits(Header(e)), BytesBits(pdu) + BytesBits(fcs));
    HeaderRun(e);
  }

  // A payload length that fits whatever the payload, from the zeros of the
  // header alone.
  lemma LengthFits(e: Encoder, pdu: seq<bv8>)
    requires e.Valid() && HeaderZeros(e) + (8 * |pdu| + 20) / 5 <= 8 * (|pdu| / 8 + 59)
    ensures Fits(e, pdu)
  {
    hide Inserted, BytesBits, FcsBytes, Checksum, HeaderZeros, Zeroed, Fits;
    var bits := BytesBits(pdu) + BytesBits(FcsBytes(Checksum(Body(e, pdu))));
    FrameParts(e, pdu);
    InsertedBound(4, bits);
    FitsExactly(e, pdu);
  }

  // A payload length at which a payload of ones does not fit: the two bounds
  // are at most four zeros apart.
  lemma OnesDoNotFit(e: Encoder, pdu: seq<bv8>)
    requires e.Valid() && forall i :: 0 <= i < |pdu| ==> pdu[i] == 0xFF
    requires HeaderZeros(e) + (8 * |pdu| + 4) / 5 > 8 * (|pdu| / 8 + 59)
    ensures !Fits(e, pdu)
  {
    hide Inserted, EndRun, BytesBits, FcsBytes, Checksum, HeaderZeros, Zeroed, Fits;
    var fcs := FcsBytes(Checksum(Body(e, pdu)));
    FrameParts(e, pdu);
    OnesBytes(pdu);
    InsertedOnes(4, 8 * |pdu|);
    InsertedConcat(4, BytesBits(pdu), BytesBits(fcs));
    FitsExactly(e, pdu);
  }

  // For every encoder: up to 748 bytes everything fits, and from 786 bytes on
  // ones do not.
  lemma AlwaysFits(e: Encoder, pdu: seq<bv8>)
    requires e.Valid() && |pdu| <= 748
    ensures Fits(e, pdu)
  {
    hide HeaderZeros, Fits;
    FewHeaderZeros(e);
    LengthFits(e, pdu);
  }

  lemma OnesNeverFit(e: Encoder, pdu: seq<bv8>)
    requires e.Valid() && |pdu| >= 786 && forall i :: 0 <= i < |pdu| ==> pdu[i] == 0xFF
    ensures !Fits(e, pdu)
  {
    hide HeaderZeros, Fits;
    OnesDoNotFit(e, pdu);
  }

  // ---------- The stuffing loop ----------

  // The low end of the shift register shows the current run of ones.
  predicate LowRun(sr: bv8, run: nat) {
    if run == 0 then sr & 0x01 == 0x00
    else if run == 1 then sr & 0x03 == 0x01
    else if run == 2 then sr & 0x07 == 0x03
    else if run == 3 then sr & 0x0F == 0x07
    else run == 4 && sr & 0x1F == 0x0F
  }

  lemma PushRun(sr: bv8, run: nat, b: bool)
    requires run < 5 && LowRun(sr, run)
    ensures PushBit(sr, b) & 0x1F == 0x1F <==> b && run == 4
    ensures !(b && run == 4) ==> LowRun(PushBit(sr, b), AfterEmit(run, b))
  {
  }

  lemma EndsRun(sr: bv8)
    ensures LowRun(PushBit(sr, false), 0)
  {
  }

  // (tmp[i / 8] >> (i % 8)) & 1
  function BitOf(x: bv8, k: nat): bool
    requires k < 8
  {
    (x >> k) & 1 == 1
  }

  lemma BitOfByte(x: bv8, k: nat)
    requires k < 8
    ensures BitOf(x, k) == ByteBits(x)[k]
  {
    if k == 0 {
      assert (x >> 0) & 1 == 1 <==> x & 1 != 0;
    } else if k == 1 {
      assert (x >> 1) & 1 == 1 <==> x & 2 != 0;
    } else if k == 2 {
      assert (x >> 2) & 1 == 1 <==> x & 4 != 0;
    } else if k == 3 {
      assert (x >> 3) & 1 == 1 <==> x & 8 != 0;
    } else if k == 4 {
      assert (x >> 4) & 1 == 1 <==> x & 16 != 0;
    } else if k == 5 {
      assert (x >> 5) & 1 == 1 <==> x & 32 != 0;
    } else if k == 6 {
      assert (x >> 6) & 1 == 1 <==> x & 64 != 0;
    } else {
      assert (x >> 7) & 1 == 1 <==> x & 128 != 0;
    }
  }

  // Stores a completed byte.
  method Flush(buf: array<bv8>, idx: nat, sr: bv8, enc: nat, ghost bits: seq<bool>) returns (next: nat, left: nat)
    requires idx <= buf.Length && Packed(buf[..idx], sr, enc, bits) && |bits| <= 8 * buf.Length
    modifies buf
    ensures idx <= next <= buf.Length && left < 8 && Packed(buf[..next], sr, left, bits)
  {
    hide Unpack, MsbBits;
    next, left := idx, enc;
    if left == 8 {
      left := 0;
      PackByte(buf[..idx], sr, bits);
      buf[next] := sr;
      next := next + 1;
      assert buf[..next] == old(buf[..idx]) + [sr];
    }
  }

  lemma StuffPrefix(bits: seq<bool>, i: nat)
    requires i < |bits|
    ensures Stuff(0, bits[..i + 1]) == Stuff(0, bits[..i]) + Emit(EndRun(0, bits[..i]), bits[i])
    ensures EndRun(0, bits[..i + 1]) == AfterEmit(EndRun(0, bits[..i]), bits[i])
    ensures |Stuff(0, bits[..i + 1])| <= |Stuff(0, bits)|
  {
    hide Stuff, EndRun, AfterEmit, Emit;
    assert bits[..i + 1] == bits[..i] + [bits[i]];
    StuffAppend(0, bits[..i], bits[i]);
    assert bits == bits[..i + 1] + bits[i + 1..];
    StuffConcat(0, bits[..i + 1], bits[i + 1..]);
  }

  // One turn of the stuffing loop.
  method StuffBit(buf: array<bv8>, idx: nat, sr: bv8, enc: nat, bit: bool, ghost run: nat, ghost bits: seq<bool>)
    returns (next: nat, reg: bv8, left: nat)
    requires idx <= buf.Length && enc < 8 && Packed(buf[..idx], sr, enc, bits)
    requires run < 5 && LowRun(sr, run) && |bits + Emit(run, bit)| <= 8 * buf.Length
    modifies buf
    ensures idx <= next <= buf.Length && left < 8 && Packed(buf[..next], reg, left, bits + Emit(run, bit))
    ensures LowRun(reg, AfterEmit(run, bit))
  {
    hide Unpack, MsbBits, PushBit, LowRun, Packed;
    PushRun(sr, run, bit);
    PackBit(buf[..idx], sr, enc, bits, bit);
    reg := PushBit(sr, bit);
    next, left := Flush(buf, idx, reg, enc + 1, bits + [bit]);
    if reg & 0x1F == 0x1F {
      PackBit(buf[..next], reg, left, bits + [bit], false);
      assert (bits + [bit]) + [false] == bits + Emit(run, bit);
      EndsRun(reg);
      reg := PushBit(reg, false);
      left := left + 1;
    }
    next, left := Flush(buf, next, reg, left, bits + Emit(run, bit));
  }

  lemma StuffTurn(frame: seq<bv8>, i: nat)
    requires i < 8 * |frame|
    ensures BitOf(frame[i / 8], i % 8) == BytesBits(frame)[i]
  {
    hide ByteBits, BytesBits, BitOf;
    BitAt(frame, i);
    BitOfByte(frame[i / 8], i % 8);
  }

  // Stuffs the frame into the buffer after the bits already packed.
  method StuffFrame(buf: array<bv8>, start: nat, tmp: array<bv8>, len: nat, ghost before: seq<bool>)
    returns (idx: nat, sr: bv8, enc: nat)
    requires buf != tmp && len <= tmp.Length && start <= buf.Length && Packed(buf[..start], 0, 0, before)
    requires |before| + |Stuff(0, BytesBits(tmp[..len]))| <= 8 * buf.Length
    modifies buf
    ensures idx <= buf.Length && enc < 8
    ensures Packed(buf[..idx], sr, enc, before + Stuff(0, BytesBits(tmp[..len])))
  {
    hide Packed, Stuff, EndRun, AfterEmit, Emit, LowRun, BitOf, BytesBits;
    ghost var bits := BytesBits(tmp[..len]);
    idx, sr, enc := start, 0, 0;
    assert bits[..0] == [];
    NothingToStuff(0);
    ZeroRun();
    assert before + [] == before;
    for i := 0 to len * 8
      invariant idx <= buf.Length && enc < 8
      invariant tmp[..len] == old(tmp[..len])
      invariant Packed(buf[..idx], sr, enc, before + Stuff(0, bits[..i]))
      invariant LowRun(sr, EndRun(0, bits[..i]))
    {
      StuffTurn(tmp[..len], i);
      StuffPrefix(bits, i);
      ghost var run, sent := EndRun(0, bits[..i]), before + Stuff(0, bits[..i]);
      assert sent + Emit(run, bits[i]) == before + Stuff(0, bits[..i + 1]);
      idx, sr, enc := StuffBit(buf, idx, sr, enc, BitOf(tmp[i / 8], i % 8), run, sent);
    }
    assert bits[..len * 8] == bits;
  }

  lemma ZeroRun()
    ensures LowRun(0, EndRun(0, []))
  {
  }

  // ---------- Flags, padding and line code ----------

  lemma {:induction false} FlagsAt(n: nat, i: nat)
    requires i < 8 * n
    ensures Flags(n)[i] == FLAG[i % 8]
    decreases n
  {
    if i >= 8 {
      FlagsAt(n - 1, i - 8);
    }
  }

  lemma FlagBit(k: nat)
    requires k < 8
    ensures BitOf(SYNC_FLAG, k) == FLAG[k]
  {
    hide ByteBits, BitOf;
    BitOfByte(SYNC_FLAG, k);
    FlagBits();
  }

  // The postamble, wherever in a byte the stuffed frame ended.
  method AppendFlags(buf: array<bv8>, start: nat, reg: bv8, n: nat, count: nat, ghost before: seq<bool>)
    returns (idx: nat, sr: bv8, enc: nat)
    requires start <= buf.Length && n < 8 && Packed(buf[..start], reg, n, before)
    requires |before| + 8 * count <= 8 * buf.Length
    modifies buf
    ensures idx <= buf.Length && enc < 8 && Packed(buf[..idx], sr, enc, before + Flags(count))
  {
    hide Packed, BitOf, Flags, PushBit;
    idx, sr, enc := start, reg, n;
    ghost var flags := Flags(count);
    assert before + flags[..0] == before;
    for i := 0 to count * 8
      invariant idx <= buf.Length && enc < 8
      invariant Packed(buf[..idx], sr, enc, before + flags[..i])
    {
      FlagsAt(count, i);
      FlagBit(i % 8);
      ghost var sent := before + flags[..i];
      var bit := BitOf(SYNC_FLAG, i % 8);
      PackBit(buf[..idx], sr, enc, sent, bit);
      assert sent + [bit] == before + flags[..i + 1];
      sr := PushBit(sr, bit);
      idx, enc := Flush(buf, idx, sr, enc + 1, before + flags[..i + 1]);
    }
    assert flags[..count * 8] == flags;
  }

  function PushZeros(sr: bv8, m: nat): bv8 {
    if m == 0 then sr else PushBit(PushZeros(sr, m - 1), false)
  }

  // sr << (8 - enc_bits)
  lemma ShiftIsZeros(sr: bv8, m: nat)
    requires 1 <= m <= 7
    ensures sr << m == PushZeros(sr, m)
  {
    assert PushZeros(sr, 1) == sr << 1;
    if m >= 2 { assert PushZeros(sr, 2) == (sr << 1) << 1; }
    if m >= 3 { assert PushZeros(sr, 3) == (sr << 2) << 1; }
    if m >= 4 { assert PushZeros(sr, 4) == (sr << 3) << 1; }
    if m >= 5 { assert PushZeros(sr, 5) == (sr << 4) << 1; }
    if m >= 6 { assert PushZeros(sr, 6) == (sr << 5) << 1; }
    if m >= 7 { assert PushZeros(sr, 7) == (sr << 6) << 1; }
  }

  lemma {:induction false} PackZeros(bytes: seq<bv8>, sr: bv8, n: nat, bits: seq<bool>, m: nat)
    requires Packed(bytes, sr, n, bits) && n + m <= 8
    ensures Packed(bytes, PushZeros(sr, m), n + m, bits + Zeros(m))
    decreases m
  {
    hide Packed, PushBit;
    if m == 0 {
      assert bits + Zeros(0) == bits;
    } else {
      PackZeros(bytes, sr, n, bits, m - 1);
      PackBit(bytes, PushZeros(sr, m - 1), n + m - 1, bits + Zeros(m - 1), false);
      assert (bits + Zeros(m - 1)) + [false] == bits + Zeros(m);
    }
  }

  // Fills the last byte with zeros.
  method Pad(buf: array<bv8>, start: nat, sr: bv8, enc: nat, ghost bits: seq<bool>) returns (idx: nat)
    requires start <= buf.Length && enc < 8 && Packed(buf[..start], sr, enc, bits)
    requires |bits| + Padding(|bits|) <= 8 * buf.Length
    modifies buf
    ensures idx <= buf.Length && Unpack(buf[..idx]) == bits + Zeros(Padding(|bits|))
  {
    hide MsbBits, Unpack, PushBit;
    idx := start;
    assert |bits| == 8 * start + enc;
    if enc > 0 {
      var m := 8 - enc;
      assert Padding(|bits|) == m;
      PackZeros(buf[..start], sr, enc, bits, m);
      ShiftIsZeros(sr, m);
      PackByte(buf[..start], PushZeros(sr, m), bits + Zeros(m));
      buf[idx] := sr << m;
      idx := idx + 1;
      assert buf[..idx] == old(buf[..start]) + [PushZeros(sr, m)];
      assert (bits + Zeros(m))[..8 * idx] == bits + Zeros(m);
    } else {
      assert bits[..8 * start] == bits && bits + Zeros(0) == bits;
    }
  }

  lemma CodeTurn(raw: seq<bv8>, done: seq<bv8>, b: bv8, i: nat)
    requires i < |raw| && Unpack(done) == Nrzi.Encode(false, Unpack(raw[..i]))
    requires MsbBits(b) == Nrzi.Encode(Nrzi.Last(false, Unpack(done)), MsbBits(raw[i]))
    ensures Unpack(done + [b]) == Nrzi.Encode(false, Unpack(raw[..i + 1]))
    ensures Nrzi.Last(false, Unpack(done + [b])) == Nrzi.Last(false, MsbBits(b))
  {
    hide MsbBits;
    assert raw[..i + 1][..i] == raw[..i];
    assert (done + [b])[..|done|] == done;
    Nrzi.EncodeConcat(false, Unpack(raw[..i]), MsbBits(raw[i]));
  }

  // The NRZI loop, in place.
  method CodeLine(buf: array<bv8>, n: nat)
    requires n <= buf.Length
    modifies buf
    ensures Unpack(buf[..n]) == Nrzi.Encode(false, Unpack(old(buf[..n])))
  {
    hide Unpack, MsbBits, Nrzi.Encode, Nrzi.LevelBit;
    ghost var raw := buf[..n];
    var prev: bv8 := 0;
    CodeStart(raw);
    for i := 0 to n
      invariant Unpack(buf[..i]) == Nrzi.Encode(false, Unpack(raw[..i]))
      invariant prev == Nrzi.LevelBit(Nrzi.Last(false, Unpack(buf[..i])))
      invariant forall k :: i <= k < n ==> buf[k] == raw[k]
    {
      ghost var done := buf[..i];
      var b, last := Nrzi.CodeByte(buf[i], prev, Nrzi.Last(false, Unpack(done)));
      CodeTurn(raw, done, b, i);
      buf[i] := b;
      prev := last;
      assert buf[..i + 1] == done + [b];
    }
    assert raw[..n] == raw;
  }

  lemma CodeStart(raw: seq<bv8>)
    ensures Unpack([]) == Nrzi.Encode(false, Unpack(raw[..0]))
    ensures 0 == Nrzi.LevelBit(Nrzi.Last(false, Unpack([])))
  {
    assert raw[..0] == [];
  }

  // ---------- encode ----------

  // Writes address, control, PID, payload and FCS.
  method BuildFrame(e: Encoder, pdu: seq<bv8>, tmp: array<bv8>) returns (len: nat)
    requires e.Valid() && tmp.Length == MAX_HEADER_LEN + |pdu| + 2
    modifies tmp
    ensures len == |pdu| + 18 && tmp[..len] == FrameOf(e, pdu)
  {
    hide Address, FcsBytes;
    var idx := InsertAddress(e, tmp);
    tmp[idx] := 0x00;
    idx := idx + 1;
    tmp[idx] := 0xF0;
    idx := idx + 1;
    assert tmp[..16] == Address(e) + [0x00, 0xF0];
    forall i | 0 <= i < |pdu| {
      tmp[16 + i] := pdu[i];
    }
    idx := idx + |pdu|;
    assert tmp[..idx] == Body(e, pdu);
    var crc := Crc16Ax25(tmp[..idx]);
    tmp[idx] := (crc & 0xFF) as bv8;
    idx := idx + 1;
    tmp[idx] := (crc >> 8) as bv8;
    idx := idx + 1;
    FcsPair(crc);
    len := idx;
    assert tmp[..len] == Body(e, pdu) + [tmp[len - 2], tmp[len - 1]];
  }

  lemma FcsPair(crc: bv16)
    ensures FcsBytes(crc) == [(crc & 0xFF) as bv8, (crc >> 8) as bv8]
  {
  }

  lemma {:induction false} PreambleBits(bytes: seq<bv8>)
    requires forall i :: 0 <= i < |bytes| ==> bytes[i] == SYNC_FLAG
    ensures Packed(bytes, 0, 0, Flags(|bytes|))
  {
    hide MsbBits, FLAG;
    if bytes == [] {
      assert Flags(0)[..0] == [] && Unpack(bytes) == [];
    } else {
      var front := bytes[..|bytes| - 1];
      PreambleBits(front);
      assert Flags(|front|)[..8 * |front|] == Flags(|front|);
      FlagMsb();
      FlagsLast(|front|);
      assert Flags(|bytes|)[..8 * |bytes|] == Flags(|bytes|);
    }
  }

  lemma FlagMsb()
    ensures MsbBits(SYNC_FLAG) == FLAG
  {
  }

  lemma {:induction false} FlagsLast(n: nat)
    ensures Flags(n + 1) == Flags(n) + FLAG
  {
    hide FLAG;
    if n == 0 {
      assert Flags(0) == [] && Flags(1) == FLAG + Flags(0);
    } else {
      FlagsLast(n - 1);
      assert FLAG + (Flags(n - 1) + FLAG) == (FLAG + Flags(n - 1)) + FLAG;
    }
  }

  // encode: the bytes sent, most significant bit first, are the line-coded
  // transmission of the frame. The source stores them without a bound check:
  // the array here goes on behind the allocation, and `overrun` says that the
  // source writes past its end.
  method Encode(e: Encoder, pdu: seq<bv8>) returns (blob: seq<bv8>, overrun: bool)
    requires e.Valid()
    ensures Unpack(blob) == Line(e, pdu)
    ensures overrun <==> |blob| > Capacity(e, |pdu|)
    ensures overrun <==> Zeroed(e, pdu) > 8 * (|pdu| / 8 + 59)
  {
    hide FrameOf, Packed, Unpack, Stuff, BytesBits, Nrzi.Encode, Flags, Padding, Zeroed;
    var buf := new bv8[Capacity(e, |pdu|) + |pdu| + 18];
    Room(e, pdu);
    var tmp := new bv8[MAX_HEADER_LEN + |pdu| + 2];
    var len := BuildFrame(e, pdu, tmp);
    ghost var frame := FrameOf(e, pdu);
    ghost var stuffed := Stuff(0, BytesBits(frame));
    RawParts(e, pdu);
    forall i | 0 <= i < e.preambleLen {
      buf[i] := SYNC_FLAG;
    }
    PreambleBits(buf[..e.preambleLen]);
    ghost var sent := Flags(e.preambleLen);
    assert tmp[..len] == frame;
    var idx, sr, enc := StuffFrame(buf, e.preambleLen, tmp, len, sent);
    assert tmp[..len] == frame;
    sent := sent + stuffed;
    idx, sr, enc := AppendFlags(buf, idx, sr, enc, e.postambleLen, sent);
    sent := sent + Flags(e.postambleLen);
    idx := Pad(buf, idx, sr, enc, sent);
    if e.nrzi {
      CodeLine(buf, idx);
    }
    blob := buf[..idx];
    overrun := idx > Capacity(e, |pdu|);
    FitsExactly(e, pdu);
  }

  // Memory enough for every output.
  lemma Room(e: Encoder, pdu: seq<bv8>)
    requires e.Valid()
    ensures |Raw(e, pdu)| <= 8 * (Capacity(e, |pdu|) + |pdu| + 18)
  {
    hide Stuff, BytesBits, FrameOf, Raw;
    RawLength(e, pdu);
    StuffLength(0, BytesBits(FrameOf(e, pdu)));
  }

  lemma Regroup(a: seq<bool>, b: seq<bool>, c: seq<bool>, d: seq<bool>)
    ensures a + (b + (c + d)) == ((a + b) + c) + d
  {
  }

  lemma WholeBytes(pre: nat, n: nat, post: nat)
    ensures Padding((8 * pre + n) + 8 * post) == Padding(n)
  {
  }

  lemma RawParts(e: Encoder, pdu: seq<bv8>)
    requires e.Valid()
    ensures var stuffed := Stuff(0, BytesBits(FrameOf(e, pdu)));
      var sent := (Flags(e.preambleLen) + stuffed) + Flags(e.postambleLen);
      && Raw(e, pdu) == sent + Zeros(Padding(|sent|))
      && Padding(|sent|) == Padding(|stuffed|)
      && |Raw(e, pdu)| == |sent| + Padding(|sent|)
  {
    hide FrameOf, Stuff, BytesBits, Flags, Padding;
    var stuffed := Stuff(0, BytesBits(FrameOf(e, pdu)));
    var a, b, z := Flags(e.preambleLen), Flags(e.postambleLen), Zeros(Padding(|stuffed|));
    Regroup(a, stuffed, b, z);
    WholeBytes(e.preambleLen, |stuffed|, e.postambleLen);
  }
}
