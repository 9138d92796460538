// The AX.25 encoder and decoder back to back.
module Ax25RoundTrip {
  import opened Wrappers
  import opened BitPacking
  import opened WireBits
  import opened Fcs
  import opened FcsRepair
  import opened Ax25Machine
  import opened Ax25Stuffing
  import opened Ax25Reception
  import opened Ax25Encoder
  import Nrzi

  // ---------- Calls on pieces of the line signal ----------

  // The bits each call hands to the machine, the line level carried over.
  function LineChunks(level: bool, lines: seq<seq<bool>>): seq<seq<bool>>
    decreases |lines|
  {
    if lines == [] then []
    else [Nrzi.Decode(level, lines[0])] + LineChunks(Nrzi.Last(level, lines[0]), lines[1..])
  }

  lemma {:induction false} LineChunksJoin(level: bool, lines: seq<seq<bool>>)
    ensures Joined(LineChunks(level, lines)) == Nrzi.Decode(level, Joined(lines))
    decreases |lines|
  {
    if lines != [] {
      var next := Nrzi.Last(level, lines[0]);
      LineChunksJoin(next, lines[1..]);
      Nrzi.DecodeConcat(level, lines[0], Joined(lines[1..]));
      assert LineChunks(level, lines)[1..] == LineChunks(next, lines[1..]);
    }
  }

  // Calls without input decode to no bits.
  lemma {:induction false} EmptyLines(level: bool, lines: seq<seq<bool>>, k: nat)
    ensures LineChunks(level, lines + Empties(k)) == LineChunks(level, lines) + Empties(k)
    decreases |lines| + k
  {
    if lines == [] {
      assert lines + Empties(k) == Empties(k);
      assert [] + Empties(k) == Empties(k);
      if k > 0 {
        assert Empties(k)[0] == [] && Empties(k)[1..] == Empties(k - 1) && Nrzi.Decode(level, []) == [];
        EmptyLines(level, [], k - 1);
        assert [] + Empties(k - 1) == Empties(k - 1);
      }
    } else {
      var next := Nrzi.Last(level, lines[0]);
      assert (lines + Empties(k))[1..] == lines[1..] + Empties(k);
      EmptyLines(next, lines[1..], k);
      var first := [Nrzi.Decode(level, lines[0])];
      assert first + (LineChunks(next, lines[1..]) + Empties(k)) == (first + LineChunks(next, lines[1..])) + Empties(k);
    }
  }

  // ---------- The destination callsign ----------

  lemma ShiftedClear(c: bv8)
    ensures Clear(Shifted(c)) <==> c & 0x1F != 0x1F
  {
  }

  lemma FirstByteClear(e: Encoder, pdu: seq<bv8>)
    requires e.Valid()
    ensures Clear(FrameOf(e, pdu)[0]) <==> e.destAddr[0] & 0x1F != 0x1F
  {
    hide Clear, Shifted, FcsBytes, Checksum;
    ShiftedClear(e.destAddr[0]);
    assert FrameOf(e, pdu)[0] == Body(e, pdu)[0] == Address(e)[0] == Callsign(e.destAddr)[0];
  }

  // Upper-case letters and digits never trip the decoder.
  lemma CallsignCharacter(c: bv8)
    requires ('A' as bv8 <= c <= 'Z' as bv8) || ('0' as bv8 <= c <= '9' as bv8)
    ensures c & 0x1F != 0x1F
  {
  }

  // ---------- The round trip ----------

  function Received(cfg: Config, e: Encoder, pdu: seq<bv8>): seq<Frame>
    requires e.Valid()
  {
    if e.destAddr[0] & 0x1F != 0x1F && |pdu| + 18 < cfg.maxFrameLen
    then [Frame(Body(e, pdu), true, 7, 8 * e.preambleLen + |Stuff(0, BytesBits(FrameOf(e, pdu)))|)]
    else []
  }

  // What the decoder hands over for a payload: one frame that reads as it was
  // put together, or nothing.
  predicate Delivers(cfg: Config, e: Encoder, pdu: seq<bv8>, frames: seq<Frame>)
    requires e.Valid()
  {
    if e.destAddr[0] & 0x1F != 0x1F && |pdu| + 18 < cfg.maxFrameLen
    then |frames| == 1 && frames[0].crcValid && Reads(e, pdu, frames[0].pdu)
    else frames == []
  }

  lemma ReceivedReads(cfg: Config, e: Encoder, pdu: seq<bv8>)
    requires e.Valid()
    ensures Delivers(cfg, e, pdu, Received(cfg, e, pdu))
  {
    hide Body, Reads, FrameOf, Stuff, BytesBits;
    FrameIsValid(e, pdu);
    FrameBack(e, pdu);
  }

  lemma GoodFrame(cfg: Config, frame: seq<bv8>, start: nat, cnt: int)
    requires 16 <= |frame| && FrameValid(frame)
    ensures FrameSeq(FrameEnd(cfg, frame, start, cnt)) == [Frame(frame[..|frame| - 2], true, start, cnt)]
  {
    hide FrameValid;
  }

  lemma RawDrained(cfg: Config, e: Encoder, pdu: seq<bv8>)
    requires e.Valid() && e.preambleLen >= 1 && e.postambleLen >= 1
    ensures Drain(cfg, Extend(Init(), Raw(e, pdu))).0 == Received(cfg, e, pdu)
  {
    hide Drain, Extend, Transmission, Stuff, FrameOf, FrameEnd, FrameSeq, FrameValid, BytesBits, Clear, Body;
    var frame := FrameOf(e, pdu);
    var n := |Stuff(0, BytesBits(frame))|;
    FrameIsValid(e, pdu);
    FirstByteClear(e, pdu);
    Reception(cfg, frame, e.preambleLen, e.postambleLen, Padding(n));
    GoodFrame(cfg, frame, 7, 8 * e.preambleLen + n);
  }

  // The encoder's bytes, sent most significant bit first to a fresh decoder
  // in calls of any sizes and followed by enough calls without input, come
  // back as exactly the frame sent, unless its first character or its length
  // is one the decoder loses.
  lemma RoundTrip(cfg: Config, e: Encoder, pdu: seq<bv8>, blob: seq<bv8>, lines: seq<seq<bool>>) returns (n: nat)
    requires e.Valid() && e.nrzi && e.preambleLen >= 1 && e.postambleLen >= 1
    requires Unpack(blob) == Line(e, pdu) && Joined(lines) == Unpack(blob)
    ensures forall k: nat :: k >= n ==>
      Session(cfg, Init(), LineChunks(false, lines + Empties(k))).0 == Received(cfg, e, pdu)
    ensures Delivers(cfg, e, pdu, Received(cfg, e, pdu))
  {
    ReceivedReads(cfg, e, pdu);
    hide Delivers, Drain, Extend, Session, Joined, LineChunks, Received, Raw, Unpack, Empties, Nrzi.Encode, Nrzi.Decode;
    LineChunksJoin(false, lines);
    Nrzi.RoundTrip(false, Raw(e, pdu));
    n := SessionIsDrain(cfg, Init(), LineChunks(false, lines));
    RawDrained(cfg, e, pdu);
    forall k: nat | k >= n
      ensures Session(cfg, Init(), LineChunks(false, lines + Empties(k))).0 == Received(cfg, e, pdu)
    {
      EmptyLines(false, lines, k);
    }
  }

  // A callsign starting with an underscore is lost, whatever the payload.
  lemma UnderscoreLost(cfg: Config, pdu: seq<bv8>)
    ensures var e := Encoder(['_' as bv8], 0, ['A' as bv8], 0, 1, 1, true);
      e.Valid() && Received(cfg, e, pdu) == []
  {
    assert ('_' as bv8) & 0x1F == 0x1F;
  }

  // ---------- Frames sharing flags ----------

  // A frame the decoder does not lose.
  predicate Receivable(cfg: Config, frame: seq<bv8>) {
    16 <= |frame| < cfg.maxFrameLen && FrameValid(frame) && Clear(frame[0])
  }

  function EndOf(frames: seq<seq<bv8>>, flags: seq<nat>, at: nat, i: nat): nat
    requires |flags| == |frames| && i < |frames|
  {
    StartOf(frames, flags, at, i) + |Stuff(0, BytesBits(frames[i]))|
  }

  // The last bit of the first of the flags in front of frame i.
  function OpenedAt(frames: seq<seq<bv8>>, flags: seq<nat>, start: nat, at: nat, i: nat): nat
    requires |flags| == |frames| && i < |frames|
  {
    if i == 0 then start else EndOf(frames, flags, at, i - 1) + 7
  }

  // Frame i as it is handed over.
  function FrameAt(frames: seq<seq<bv8>>, flags: seq<nat>, start: nat, at: nat, i: nat): Frame
    requires |flags| == |frames| && i < |frames| && |frames[i]| >= 2
  {
    var open := OpenedAt(frames, flags, start, at, i);
    Frame(frames[i][..|frames[i]| - 2], true, open, EndOf(frames, flags, at, i) + 7 - open)
  }

  lemma {:induction false} StartLater(frames: seq<seq<bv8>>, flags: seq<nat>, at: nat, i: nat)
    requires |flags| == |frames| && i < |frames|
    ensures StartOf(frames, flags, at, i + 1) == StartOf(frames[1..], flags[1..], StartOf(frames, flags, at, 1), i)
  {
    hide Stuff, BytesBits;
    if i > 0 {
      StartLater(frames, flags, at, i - 1);
      assert frames[1..][i - 1] == frames[i] && flags[1..][i - 1] == flags[i];
    }
  }

  lemma FrameLater(frames: seq<seq<bv8>>, flags: seq<nat>, start: nat, at: nat, i: nat)
    requires |flags| == |frames| && i + 1 < |frames| && |frames[i + 1]| >= 2
    ensures FrameAt(frames, flags, start, at, i + 1)
         == FrameAt(frames[1..], flags[1..], EndOf(frames, flags, at, 0) + 7, StartOf(frames, flags, at, 1), i)
  {
    hide Stuff, BytesBits, StartOf;
    StartLater(frames, flags, at, i);
    assert frames[1..][i] == frames[i + 1];
    if i > 0 {
      StartLater(frames, flags, at, i - 1);
      assert frames[1..][i - 1] == frames[i];
    }
  }

  lemma FirstFrame(cfg: Config, frame: seq<bv8>, start: nat, end: nat)
    requires Receivable(cfg, frame)
    ensures Output(cfg, Whole(frame), start, end) == [Frame(frame[..|frame| - 2], true, start, end + 7 - start)]
  {
    hide FrameValid, Clear, FrameEnd, FrameSeq;
    GoodFrame(cfg, frame, start, end + 7 - start);
  }

  lemma {:induction false} OutputsOfFrames(cfg: Config, frames: seq<seq<bv8>>, flags: seq<nat>, start: nat, at: nat)
    requires |flags| == |frames|
    requires forall i :: 0 <= i < |frames| ==> |frames[i]| >= 2 && flags[i] >= 1 && Receivable(cfg, frames[i])
    ensures var out := Outputs(cfg, FrameItems(frames, flags), start, at);
      |out| == |frames| && forall i :: 0 <= i < |frames| ==> out[i] == FrameAt(frames, flags, start, at, i)
    decreases |frames|
  {
    hide FrameValid, Clear, FrameEnd, FrameSeq, Stuff, BytesBits, Output, FrameAt;
    if frames != [] {
      var items := FrameItems(frames, flags);
      var end, next := EndOf(frames, flags, at, 0), StartOf(frames, flags, at, 1);
      assert items[1..] == FrameItems(frames[1..], flags[1..]);
      assert RawBits(items[0].what) == Stuff(0, BytesBits(frames[0]));
      FirstFrame(cfg, frames[0], start, end);
      OutputsOfFrames(cfg, frames[1..], flags[1..], end + 7, next);
      var out, rest := Outputs(cfg, items, start, at), Outputs(cfg, items[1..], end + 7, next);
      assert out == Output(cfg, Whole(frames[0]), start, end) + rest;
      forall i | 0 <= i < |frames| ensures out[i] == FrameAt(frames, flags, start, at, i) {
        if i == 0 {
          FrameAtFirst(frames, flags, start, at);
        } else {
          FrameLater(frames, flags, start, at, i - 1);
          assert out[i] == rest[i - 1];
        }
      }
    }
  }

  lemma FrameAtFirst(frames: seq<seq<bv8>>, flags: seq<nat>, start: nat, at: nat)
    requires |flags| == |frames| && frames != [] && |frames[0]| >= 2
    ensures FrameAt(frames, flags, start, at, 0)
         == Frame(frames[0][..|frames[0]| - 2], true, start, EndOf(frames, flags, at, 0) + 7 - start)
  {
  }

  // Frames separated by flags, each of which ends one frame and opens the
  // next, received in calls of any sizes: every one comes out, in order, and
  // at its position.
  lemma FramesInOrder(cfg: Config, lead: seq<bool>, pre: nat, frames: seq<seq<bv8>>, flags: seq<nat>, zeros: nat,
                      chunks: seq<seq<bool>>)
    returns (n: nat)
    requires FlagFree(0, lead) && Ones(0, lead) != 6 && pre >= 1 && zeros < 8 && |flags| == |frames|
    requires forall i :: 0 <= i < |frames| ==> |frames[i]| >= 2 && flags[i] >= 1 && Receivable(cfg, frames[i])
    requires Joined(chunks) == lead + (Flags(pre) + OnAir(FrameItems(frames, flags), Zeros(zeros)))
    ensures forall k: nat :: k >= n ==>
      var out := Session(cfg, Init(), chunks + Empties(k)).0;
      && |out| == |frames|
      && forall i :: 0 <= i < |frames| ==> out[i] == FrameAt(frames, flags, |lead| + 7, |lead| + 8 * pre, i)
  {
    hide Drain, Extend, Session, Joined, Empties, Outputs, OnAir, Flags, FrameAt, FlagFree, Ones, FrameValid, Clear;
    var items := FrameItems(frames, flags);
    assert ProperItems(items);
    n := SessionIsDrain(cfg, Init(), chunks);
    StreamReception(cfg, lead, pre, items, zeros);
    OutputsOfFrames(cfg, frames, flags, |lead| + 7, |lead| + 8 * pre);
  }

  // ---------- A frame with one wrong bit ----------

  // A valid frame of which bit k was flipped before stuffing, received by a
  // decoder that corrects errors: some frame comes out under the same two
  // conditions as without the flip, and it is the one sent exactly for
  // k < 32767.
  lemma RepairedReception(cfg: Config, frame: seq<bv8>, k: nat, pre: nat, post: nat, zeros: nat)
    returns (got: seq<bv8>)
    requires 16 <= |frame| && FrameValid(frame) && cfg.errorCorrection
    requires k < 8 * |frame| && pre >= 1 && post >= 1 && zeros < 8
    ensures |got| == |frame| && FrameValid(got) && (got == frame <==> k < 32767)
    ensures var g := FlipBit(frame, k);
      Drain(cfg, Extend(Init(), Transmission(g, pre, post, zeros))).0 ==
        if Clear(g[0]) && |frame| < cfg.maxFrameLen
        then [Frame(got[..|frame| - 2], true, 7, 8 * pre + |Stuff(0, BytesBits(g))|)]
        else []
  {
    hide Drain, Extend, Transmission, Stuff, BytesBits, FrameValid, FlipBit, Repair, Clear;
    var g := FlipBit(frame, k);
    Reception(cfg, g, pre, post, zeros);
    SingleFlipInvalid(frame, k);
    RepairExact(frame, k);
    RepairSound(g);
    SomeFlipHelps(frame, k);
    got := Repair(g).value;
  }

  lemma SomeFlipHelps(frame: seq<bv8>, k: nat)
    requires |frame| >= 2 && FrameValid(frame) && k < 8 * |frame|
    ensures Repair(FlipBit(frame, k)).Some?
  {
    hide FrameValid, FlipBit, Repair;
    FlipTwice(frame, k);
    RepairSound(FlipBit(frame, k));
  }
}
