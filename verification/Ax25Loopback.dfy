// The encoder's object and the decoder's object connected: what one sends is
// fed to the other, some samples at a time.
module Ax25Loopback {
  import opened BitPacking
  import opened Ax25Machine
  import opened Ax25Encoder
  import opened Ax25Decoder
  import opened Ax25RoundTrip
  import Nrzi

  function SampleOf(b: bool): bv8 { if b then 1 else 0 }

  lemma SampleLevel(b: bool)
    ensures LevelOf(SampleOf(b)) == b
  {
  }

  // One sample for every bit of the encoder's bytes.
  function Samples(bits: seq<bool>): (r: seq<bv8>)
    ensures |r| == |bits|
  {
    seq(|bits|, i requires 0 <= i < |bits| => SampleOf(bits[i]))
  }

  lemma SampleLevels(bits: seq<bool>, from: nat, to: nat)
    requires from <= to <= |bits|
    ensures Levels(Samples(bits)[from..to]) == bits[from..to]
  {
    hide LevelOf, SampleOf;
    var s := Samples(bits)[from..to];
    forall i | 0 <= i < |s| ensures Levels(s)[i] == bits[from..to][i] { SampleLevel(bits[from + i]); }
  }

  // Bits that are buffered and not looked at yet.
  predicate Unread(d: Decoder)
    reads d
  {
    if d.mode == NoSync then d.bitstream != [] else d.startIdx < |d.bitstream|
  }

  // Frames handed out so far and those still buffered are the frames of the
  // whole stream.
  ghost predicate OnTrack(cfg: Config, bits: seq<bool>, frames: seq<Frame>, now: State)
    requires WellFormed(now)
  {
    var d := Drain(cfg, now);
    Drain(cfg, Extend(Init(), bits)) == (frames + d.0, d.1)
  }

  lemma StartOnTrack(cfg: Config)
    ensures OnTrack(cfg, [], [], Init())
  {
    hide Drain;
    assert Extend(Init(), []) == Init();
    var d := Drain(cfg, Init());
    assert [] + d.0 == d.0;
  }

  lemma StayOnTrack(cfg: Config, bits: seq<bool>, frames: seq<Frame>, now: State, more: seq<bool>)
    requires WellFormed(now) && OnTrack(cfg, bits, frames, now)
    ensures var c := Call(cfg, Extend(now, more)); OnTrack(cfg, bits + more, frames + Emitted(c), c.next)
  {
    hide Drain, Call, Emitted, Extend, WellFormed;
    var x, c := Extend(now, more), Call(cfg, Extend(now, more));
    CallThenDrain(cfg, x);
    DrainExtends(cfg, now, more);
    DrainExtends(cfg, Extend(Init(), bits), more);
    assert Extend(Init(), bits + more) == Extend(Extend(Init(), bits), more) by { ExtendMore(Init(), bits, more); }
    var d, b := Drain(cfg, now), Drain(cfg, Extend(Drain(cfg, now).1, more));
    assert (frames + d.0) + b.0 == frames + (d.0 + b.0);
    var rest := Drain(cfg, c.next).0;
    assert frames + (Emitted(c) + rest) == (frames + Emitted(c)) + rest;
  }

  // Hands the line bits to the decoder, `step` samples to a call.
  method Feed(d: Decoder, cfg: Config, bits: seq<bool>, step: nat) returns (frames: seq<Frame>)
    requires d.Valid() && d.cfg == cfg && d.Abs() == Init() && !LevelOf(d.prevBit) && step >= 1
    modifies d, d.frameBuffer
    ensures d.Valid() && OnTrack(cfg, Nrzi.Decode(false, bits), frames, d.Abs())
  {
    hide Drain, Call, Extend, WellFormed, Nrzi.Decode, LevelOf, Samples, Levels, OnTrack;
    var samples := Samples(bits);
    frames := [];
    var pos := 0;
    StartOnTrack(cfg);
    NothingDecoded(bits);
    while pos < |samples|
      invariant pos <= |samples| && d.Valid()
      invariant LevelOf(d.prevBit) == Nrzi.Last(false, bits[..pos])
      invariant OnTrack(cfg, Nrzi.Decode(false, bits[..pos]), frames, d.Abs())
    {
      var next := if pos + step < |samples| then pos + step else |samples|;
      ghost var now := d.Abs();
      ghost var more := Nrzi.Decode(LevelOf(d.prevBit), bits[pos..next]);
      SampleLevels(bits, pos, next);
      NextPiece(bits, pos, next);
      StayOnTrack(cfg, Nrzi.Decode(false, bits[..pos]), frames, now, more);
      var f, _ := d.Decode(samples[pos..next]);
      frames := frames + FrameSeq(f);
      LastLevel(bits, next);
      pos := next;
    }
    assert bits[..pos] == bits;
  }

  // Makes calls without input until nothing is left to look at.
  method Flush(d: Decoder, cfg: Config, ghost bits: seq<bool>, got: seq<Frame>) returns (frames: seq<Frame>)
    requires d.Valid() && d.cfg == cfg && OnTrack(cfg, bits, got, d.Abs())
    modifies d, d.frameBuffer
    ensures frames == Drain(cfg, Extend(Init(), bits)).0
  {
    hide Drain, Call, Extend, WellFormed, Nrzi.Decode, LevelOf, Levels, OnTrack;
    frames := got;
    while Unread(d)
      invariant d.Valid() && OnTrack(cfg, bits, frames, d.Abs())
      decreases Buffered(d.Abs()), Rank(d.Abs().mode), |d.Abs().pend|
    {
      ghost var now := d.Abs();
      PendingBits(d);
      NoInput(cfg, LevelOf(d.prevBit), now);
      StayOnTrack(cfg, bits, frames, now, []);
      assert bits + [] == bits;
      var f, _ := d.Decode([]);
      frames := frames + FrameSeq(f);
    }
    PendingBits(d);
    Finished(cfg, bits, frames, d.Abs());
  }

  // A fresh decoder on a line signal: all frames of the decoded bits.
  method Receive(cfg: Config, bits: seq<bool>, step: nat) returns (frames: seq<Frame>)
    requires step >= 1
    ensures frames == Drain(cfg, Extend(Init(), Nrzi.Decode(false, bits))).0
  {
    hide Drain, Extend, WellFormed, Nrzi.Decode, OnTrack;
    var d := new Decoder(cfg.maxFrameLen, cfg.crcCheck, cfg.errorCorrection);
    frames := Feed(d, cfg, bits, step);
    frames := Flush(d, cfg, Nrzi.Decode(false, bits), frames);
  }

  // Sends a payload through both objects, `step` samples to a call, and then
  // makes calls without input until nothing is left to look at.
  method Loopback(e: Encoder, pdu: seq<bv8>, cfg: Config, step: nat) returns (frames: seq<Frame>)
    requires e.Valid() && e.nrzi && e.preambleLen >= 1 && e.postambleLen >= 1 && step >= 1
    ensures frames == Received(cfg, e, pdu) && Delivers(cfg, e, pdu, frames)
  {
    hide Delivers, Drain, Extend, Received, Raw, Unpack, Nrzi.Encode, Nrzi.Decode;
    var blob, _ := Encode(e, pdu);
    frames := Receive(cfg, Unpack(blob), step);
    Nrzi.RoundTrip(false, Raw(e, pdu));
    RawDrained(cfg, e, pdu);
    ReceivedReads(cfg, e, pdu);
  }

  lemma NothingDecoded(bits: seq<bool>)
    ensures Nrzi.Decode(false, bits[..0]) == [] && Nrzi.Last(false, bits[..0]) == false
  {
  }

  lemma NextPiece(bits: seq<bool>, pos: nat, next: nat)
    requires pos <= next <= |bits|
    ensures Nrzi.Decode(false, bits[..next])
         == Nrzi.Decode(false, bits[..pos]) + Nrzi.Decode(Nrzi.Last(false, bits[..pos]), bits[pos..next])
  {
    hide Nrzi.Decode;
    assert bits[..next] == bits[..pos] + bits[pos..next];
    Nrzi.DecodeConcat(false, bits[..pos], bits[pos..next]);
  }

  lemma LastLevel(bits: seq<bool>, next: nat)
    requires 0 < next <= |bits|
    ensures Nrzi.Last(false, bits[..next]) == LevelOf(Samples(bits)[next - 1])
  {
    hide LevelOf, SampleOf;
    SampleLevel(bits[next - 1]);
  }

  lemma PendingBits(d: Decoder)
    requires d.Valid()
    ensures Unread(d) <==> d.Abs().pend != []
  {
  }

  // A call without input when there is something to look at.
  lemma NoInput(cfg: Config, level: bool, s: State)
    requires WellFormed(s) && s.pend != []
    ensures Nrzi.Decode(level, Levels([])) == [] && Extend(s, []) == s && Smaller(Call(cfg, s).next, s)
  {
    hide Call, WellFormed, Smaller;
    ExtendNone(s);
    CallSmaller(cfg, s);
  }

  lemma Finished(cfg: Config, bits: seq<bool>, frames: seq<Frame>, s: State)
    requires WellFormed(s) && s.pend == [] && OnTrack(cfg, bits, frames, s)
    ensures Drain(cfg, Extend(Init(), bits)).0 == frames
  {
    hide Drain, WellFormed, Extend;
    NothingPending(cfg, s);
    assert frames + [] == frames;
  }
}
