// lib/ax25_decoder.cc: the decoder object, proved against the bit machine.
module Ax25Decoder {
  import opened Wrappers
  import opened Crc
  import opened WireBits
  import opened Fcs
  import opened FcsRepair
  import opened Ax25Machine
  import Nrzi

  // The parity of a sample is its line level.
  predicate LevelOf(x: bv8) { x & 1 == 1 }

  function Levels(input: seq<bv8>): (r: seq<bool>)
    ensures |r| == |input|
  {
    seq(|input|, i requires 0 <= i < |input| => LevelOf(input[i]))
  }

  lemma SameParity(x: bv8, prev: bv8)
    ensures (x - prev) & 1 == 0 <==> LevelOf(x) == LevelOf(prev)
  {
  }

  // One sample more is one bit more.
  lemma DecodeSample(prev: bv8, input: seq<bv8>, i: nat)
    requires i < |input|
    ensures Nrzi.Decode(LevelOf(prev), Levels(input[..i + 1]))
         == Nrzi.Decode(LevelOf(prev), Levels(input[..i]))
          + [LevelOf(input[i]) == LevelOf(if i == 0 then prev else input[i - 1])]
  {
    hide LevelOf;
    var a, b := Levels(input[..i]), [LevelOf(input[i])];
    assert Levels(input[..i + 1]) == a + b;
    Nrzi.DecodeConcat(LevelOf(prev), a, b);
    assert b[1..] == [];
  }

  lemma DecodeNone(level: bool, input: seq<bv8>)
    ensures Nrzi.Decode(level, Levels(input[..0])) == []
  {
  }

  lemma ExtendNone(s: State)
    requires WellFormed(s)
    ensures Extend(s, []) == s
  {
    assert s.pend + [] == s.pend;
  }

  lemma ExtendMore(s: State, a: seq<bool>, b: seq<bool>)
    requires WellFormed(s)
    ensures Extend(Extend(s, a), b) == Extend(s, a + b)
  {
    assert (s.pend + a) + b == s.pend + (a + b);
  }

  lemma CallStep(cfg: Config, s: State)
    requires WellFormed(s) && s.pend != []
    ensures var e := Step(cfg, s); Call(cfg, s) == if e.Ended? then e else Call(cfg, e.next)
  {
    hide Step, WellFormed;
    StepTurn(cfg, s);
  }

  lemma CallDone(cfg: Config, s: State)
    requires WellFormed(s) && s.pend == []
    ensures Call(cfg, s) == Continue(s)
  {
  }

  lemma NoSyncNext(cfg: Config, s: State, b: bool, rest: seq<bool>)
    requires WellFormed(s) && s.mode == NoSync && s.pend == [b] + rest
    ensures Call(cfg, s) == Call(cfg,
      if ShiftIn(s.reg, b) == SYNC_FLAG then State(InSync, 0, 0, 0, [], [b], rest, s.nread, s.nread)
      else s.(reg := ShiftIn(s.reg, b), dec := ShiftIn(s.dec, b), pend := rest, nread := s.nread + 1))
  {
    hide ShiftIn, Call;
    CallStep(cfg, s);
  }

  lemma InSyncNext(cfg: Config, s: State, b: bool, rest: seq<bool>)
    requires WellFormed(s) && s.mode == InSync && s.pend == [b] + rest
    ensures var seen, reg, dec := s.kept + [b], ShiftIn(s.reg, b), ShiftIn(s.dec, b);
      Call(cfg, s) == Call(cfg,
        if s.nbits < 7 then s.(reg := reg, dec := dec, nbits := s.nbits + 1, kept := seen, pend := rest)
        else if reg != SYNC_FLAG then EnterDecoding(s, seen, rest, reg, dec)
        else s.(reg := reg, dec := dec, nbits := 0, kept := seen, pend := rest))
  {
    hide ShiftIn, Call, EnterDecoding;
    CallStep(cfg, s);
  }

  lemma DecodingNext(cfg: Config, s: State, b: bool, rest: seq<bool>)
    requires WellFormed(s) && s.mode == Decoding && s.pend == [b] + rest
    ensures var seen, reg, dec := s.kept + [b], ShiftIn(s.reg, b), ShiftIn(s.dec, b);
      if reg == SYNC_FLAG && s.nbits == 7 then
        Call(cfg, s) ==
          Ended(Rewind(s, seen, rest, 8), FrameEnd(cfg, s.frame, s.frameStart, Cursor(s) - s.frameStart))
      else Call(cfg, s) == Call(cfg,
        if reg == SYNC_FLAG then Rewind(s, seen, rest, 8)
        else if Stuffed(reg) then s.(reg := reg, dec := Drop(dec), kept := seen, pend := rest)
        else if Abort(reg) then Rewind(s, seen, rest, 8)
        else if s.nbits < 7 then s.(reg := reg, dec := dec, nbits := s.nbits + 1, kept := seen, pend := rest)
        else if |s.frame| + 1 >= cfg.maxFrameLen then Rewind(s, seen, rest, |seen|)
        else s.(reg := reg, dec := dec, nbits := 0, frame := s.frame + [dec], kept := seen, pend := rest))
  {
    hide ShiftIn, Call, Rewind, FrameEnd, Stuffed, Abort, Drop;
    CallStep(cfg, s);
  }

  lemma FirstFixStep(frame: seq<bv8>, k: nat)
    requires |frame| >= 2 && k < 8 * |frame|
    ensures FirstFix(frame, k) == if FrameValid(FlipBit(frame, k)) then Some(k) else FirstFix(frame, k + 1)
  {
    hide FrameValid, FlipBit;
  }

  lemma FirstFixEnd(frame: seq<bv8>)
    requires |frame| >= 2
    ensures FirstFix(frame, 8 * |frame|) == None
  {
    hide FrameValid, FlipBit;
  }

  lemma FlipOne(frame: seq<bv8>, i: nat, j: nat)
    requires i < |frame| && j < 8
    ensures FlipBit(frame, 8 * i + j) == frame[i := Toggle(frame[i], Mask(j))]
  {
    hide Mask, Toggle;
    assert (8 * i + j) / 8 == i && (8 * i + j) % 8 == j;
  }

  // Erasing all but the last n of the bits looked at.
  lemma KeepLast(bits: seq<bool>, i: nat, n: nat)
    requires i < |bits| && n <= i + 1
    ensures var seen := bits[..i] + [bits[i]]; bits[i + 1 - n..] == seen[|seen| - n..] + bits[i + 1..]
  {
  }

  class Decoder {
    const cfg: Config
    const frameBuffer: array<bv8>
    var mode: Mode
    var shiftReg: bv8
    var decB: bv8
    var prevBit: bv8
    var receivedBytes: nat
    var decodedBits: nat
    var bitstream: seq<bool>
    var startIdx: nat
    var frameStart: nat
    var sampleCnt: int
    var nitemsRead: nat

    // The machine's state when bits up to index i have been looked at.
    ghost function At(i: nat): State
      requires i <= |bitstream| && receivedBytes <= frameBuffer.Length
      reads this, frameBuffer
    {
      if mode == NoSync then
        State(mode, shiftReg, decB, decodedBits, frameBuffer[..receivedBytes], [], bitstream[i..],
              nitemsRead + i, frameStart)
      else
        State(mode, shiftReg, decB, decodedBits, frameBuffer[..receivedBytes], bitstream[..i], bitstream[i..],
              nitemsRead, frameStart)
    }

    ghost predicate ValidAt(i: nat)
      reads this, frameBuffer
    {
      && frameBuffer.Length == cfg.maxFrameLen + 73 + 2
      && i <= |bitstream| && receivedBytes <= frameBuffer.Length
      && WellFormed(At(i))
      && (mode != Decoding ==> receivedBytes == 0)
      && (mode == Decoding ==> receivedBytes <= 1 || receivedBytes < cfg.maxFrameLen)
    }

    ghost function Index(): nat
      reads this
    {
      if mode == NoSync then 0 else startIdx
    }

    ghost predicate Valid()
      reads this, frameBuffer
    {
      ValidAt(Index())
    }

    ghost function Abs(): (s: State)
      requires Valid()
      reads this, frameBuffer
      ensures WellFormed(s)
    {
      At(Index())
    }

    constructor (maxFrameLen: nat, crcCheck: bool, errorCorrection: bool)
      ensures Valid() && fresh(frameBuffer) && Abs() == Init() && !LevelOf(prevBit)
      ensures cfg == Config(maxFrameLen, crcCheck, errorCorrection)
    {
      cfg := Config(maxFrameLen, crcCheck, errorCorrection);
      frameBuffer := new bv8[maxFrameLen + 73 + 2];
      mode := NoSync;
      shiftReg, decB, prevBit := 0, 0, 0;
      receivedBytes, decodedBits := 0, 0;
      bitstream := [];
      startIdx, frameStart, sampleCnt, nitemsRead := 0, 0, 0, 0;
    }

    method Decode1b(b: bool)
      modifies this`shiftReg, this`decB
      ensures shiftReg == ShiftIn(old(shiftReg), b) && decB == ShiftIn(old(decB), b)
    {
      shiftReg := ShiftIn(shiftReg, b);
      decB := ShiftIn(decB, b);
    }

    // incr_nitems_read after erasing n bits
    method Erase(n: nat)
      requires n <= |bitstream|
      modifies this`bitstream, this`nitemsRead
      ensures bitstream == old(bitstream)[n..] && nitemsRead == old(nitemsRead) + n
    {
      bitstream := bitstream[n..];
      nitemsRead := nitemsRead + n;
    }

    method ResetState()
      modifies this`mode, this`decB, this`shiftReg, this`decodedBits, this`receivedBytes
      ensures mode == NoSync && decB == 0 && shiftReg == 0 && decodedBits == 0 && receivedBytes == 0
    {
      mode := NoSync;
      decB := 0;
      shiftReg := 0;
      decodedBits := 0;
      receivedBytes := 0;
    }

    method EnterSyncState()
      modifies this`mode, this`decB, this`shiftReg, this`decodedBits, this`receivedBytes
      ensures mode == InSync && decB == 0 && shiftReg == 0 && decodedBits == 0 && receivedBytes == 0
    {
      mode := InSync;
      decB := 0;
      shiftReg := 0;
      decodedBits := 0;
      receivedBytes := 0;
    }

    method EnterDecodingState()
      requires frameBuffer.Length >= 1
      modifies this`mode, this`decB, this`decodedBits, this`receivedBytes, frameBuffer
      ensures mode == Decoding
      ensures if Stuffed(shiftReg) then decB == Drop(old(decB)) && decodedBits == 7 && receivedBytes == 0
        else decB == old(decB) && decodedBits == 0 && receivedBytes == 1 && frameBuffer[0] == decB
    {
      mode := Decoding;
      decodedBits := 0;
      receivedBytes := 0;
      if Stuffed(shiftReg) {
        decB := Drop(decB);
        decodedBits := 7;
      } else {
        frameBuffer[0] := decB;
        decodedBits := 0;
        receivedBytes := 1;
      }
    }

    // ---------- The frame check ----------

    ghost function Received(): (f: seq<bv8>)
      requires receivedBytes <= frameBuffer.Length
      reads this, frameBuffer
      ensures |f| == receivedBytes
    {
      frameBuffer[..receivedBytes]
    }

    method IsFrameValid() returns (ok: bool)
      requires 2 <= receivedBytes <= frameBuffer.Length
      ensures ok == FrameValid(Received())
    {
      hide Mix, FeedBits, FeedBytes, BytesBits, ReceivedFcs;
      var n := receivedBytes;
      var fcs := Crc16Ax25(frameBuffer[..n - 2]);
      TableIsSerial(0xFFFF, frameBuffer[..n - 2]);
      assert Received()[..n - 2] == frameBuffer[..n - 2];
      ok := fcs == ReceivedFcs(frameBuffer[..n]);
    }

    // Toggles a bit, and toggles it back unless that made the frame valid.
    method TryMask(i: nat, j: nat) returns (ok: bool)
      requires 2 <= receivedBytes <= frameBuffer.Length && i < receivedBytes && j < 8
      modifies frameBuffer
      ensures var f, k := old(Received()), 8 * i + j; FirstFix(f, k) == if ok then Some(k) else FirstFix(f, k + 1)
      ensures Received() == if ok then FlipBit(old(Received()), 8 * i + j) else old(Received())
    {
      hide FrameValid, Mask, Toggle, FirstFix, FlipBit;
      FlipOne(Received(), i, j);
      ghost var f := Received();
      frameBuffer[i] := Toggle(frameBuffer[i], Mask(j));
      assert Received() == FlipBit(f, 8 * i + j);
      ok := IsFrameValid();
      if !ok {
        UndoMask(f[i], Mask(j));
        frameBuffer[i] := Toggle(frameBuffer[i], Mask(j));
        assert Received() == f;
      }
      FirstFixStep(f, 8 * i + j);
    }

    // error_correction: on success the buffer holds the repaired frame, on
    // failure it is as before.
    method ErrorCorrection() returns (ok: bool)
      requires 2 <= receivedBytes <= frameBuffer.Length
      modifies frameBuffer
      ensures ok == (cfg.errorCorrection && Repair(old(Received())).Some?)
      ensures Received() == if ok then Repair(old(Received())).value else old(Received())
    {
      hide FrameValid, FlipBit, FirstFix;
      if !cfg.errorCorrection {
        return false;
      }
      ghost var f := Received();
      for i := 0 to receivedBytes
        invariant Received() == f && FirstFix(f, 0) == FirstFix(f, 8 * i)
      {
        ok := TryMask(i, 0);
        if ok { return true; }
        ok := TryMask(i, 1);
        if ok { return true; }
        ok := TryMask(i, 2);
        if ok { return true; }
        ok := TryMask(i, 3);
        if ok { return true; }
        ok := TryMask(i, 4);
        if ok { return true; }
        ok := TryMask(i, 5);
        if ok { return true; }
        ok := TryMask(i, 6);
        if ok { return true; }
        ok := TryMask(i, 7);
        if ok { return true; }
      }
      FirstFixEnd(f);
      ok := false;
    }

    // enter_frame_end: the frame added to the status, if any.
    method EnterFrameEnd() returns (done: bool, frame: Option<Frame>)
      requires receivedBytes <= frameBuffer.Length
      modifies this`mode, this`decB, this`shiftReg, this`decodedBits, this`receivedBytes, frameBuffer
      ensures frame == FrameEnd(cfg, old(Received()), frameStart, sampleCnt)
      ensures done <==> frame.Some? && frame.value.crcValid
      ensures mode == NoSync && decB == 0 && shiftReg == 0 && decodedBits == 0 && receivedBytes == 0
    {
      hide FrameValid, Repair;
      frame := None;
      if receivedBytes < MIN_ADDR_LEN + 2 {
        ResetState();
        return false, None;
      }
      var ok := IsFrameValid();
      if ok {
        frame := Some(Frame(frameBuffer[..receivedBytes - 2], true, frameStart, sampleCnt));
        assert Received()[..receivedBytes - 2] == frameBuffer[..receivedBytes - 2];
        ResetState();
        return true, frame;
      } else {
        var fixed := ErrorCorrection();
        assert Received()[..receivedBytes - 2] == frameBuffer[..receivedBytes - 2];
        if fixed {
          frame := Some(Frame(frameBuffer[..receivedBytes - 2], true, frameStart, sampleCnt));
          ResetState();
          return true, frame;
        }
        if !cfg.crcCheck {
          frame := Some(Frame(frameBuffer[..receivedBytes - 2], false, frameStart, sampleCnt));
        }
      }
      ResetState();
      return false, frame;
    }

    // ---------- The three states of _decode ----------

    // Empties the buffer up to the last zero of the flag.
    method KeepLastZero(i: nat)
      requires ValidAt(i) && mode == NoSync && i < |bitstream|
      modifies this`mode, this`decB, this`shiftReg, this`decodedBits, this`receivedBytes
      modifies this`bitstream, this`nitemsRead, this`frameStart, this`startIdx
      ensures Valid() && mode == InSync && |bitstream| <= |old(bitstream)|
      ensures var n := old(nitemsRead) + i;
        Abs() == State(InSync, 0, 0, 0, [], [old(bitstream)[i]], old(bitstream)[i + 1..], n, n)
    {
      Erase(i);
      EnterSyncState();
      frameStart := nitemsRead;
      startIdx := 1;
      assert bitstream[..1] == [old(bitstream)[i]] && bitstream[1..] == old(bitstream)[i + 1..];
    }

    // NO_SYNC: looks for the first flag.
    method ScanNoSync() returns (cont: bool)
      requires Valid() && mode == NoSync
      modifies this
      ensures Valid() && Call(cfg, old(Abs())) == Call(cfg, Abs())
      ensures if cont then mode == InSync && |bitstream| <= |old(bitstream)| else bitstream == []
      ensures prevBit == old(prevBit)
    {
      hide ShiftIn, Call, Step;
      var i := 0;
      while i < |bitstream|
        invariant ValidAt(i) && mode == NoSync && bitstream == old(bitstream) && nitemsRead == old(nitemsRead)
        invariant Call(cfg, At(i)) == Call(cfg, old(Abs())) && prevBit == old(prevBit)
      {
        var b := bitstream[i];
        assert bitstream[i..] == [b] + bitstream[i + 1..];
        NoSyncNext(cfg, At(i), b, bitstream[i + 1..]);
        Decode1b(b);
        if shiftReg == SYNC_FLAG {
          KeepLastZero(i);
          return true;
        }
        i := i + 1;
      }
      Erase(|bitstream|);
      assert Abs() == State(mode, shiftReg, decB, decodedBits, [], [], [], nitemsRead, frameStart);
      return false;
    }

    // ---------- IN_SYNC ----------

    lemma SplitAt(i: nat)
      requires i < |bitstream|
      ensures bitstream[i..] == [bitstream[i]] + bitstream[i + 1..]
      ensures bitstream[..i + 1] == bitstream[..i] + [bitstream[i]]
    {
    }

    // Leaves the seven last bits in the buffer and starts on the frame.
    method StartFrame(i: nat, ghost s: State)
      requires frameBuffer.Length == cfg.maxFrameLen + 75 && receivedBytes == 0
      requires 7 <= i < |bitstream| && WellFormed(s) && s.mode == InSync
      requires s.kept == bitstream[..i] && s.nread == nitemsRead && s.frameStart == frameStart
      modifies this`mode, this`decB, this`decodedBits, this`receivedBytes, frameBuffer
      modifies this`bitstream, this`nitemsRead, this`startIdx
      ensures Valid() && mode == Decoding && |bitstream| < |old(bitstream)|
      ensures Abs() ==
        EnterDecoding(s, s.kept + [old(bitstream)[i]], old(bitstream)[i + 1..], shiftReg, old(decB))
    {
      hide Stuffed, Drop;
      ghost var b, rest, seen := bitstream[i], bitstream[i + 1..], bitstream[..i + 1];
      assert seen == s.kept + [b];
      Erase(i + 1 - 7);
      startIdx := 7;
      EnterDecodingState();
      assert bitstream[..7] == seen[|seen| - 7..] && bitstream[7..] == rest;
      if receivedBytes == 1 {
        assert Received() == [decB];
      } else {
        assert Received() == [];
      }
    }

    // One turn of the IN_SYNC loop.
    method SyncTurn(i: nat) returns (cont: bool)
      requires ValidAt(i) && mode == InSync && i < |bitstream|
      modifies this, frameBuffer
      ensures prevBit == old(prevBit)
      ensures if cont then Valid() && mode == Decoding && |bitstream| < |old(bitstream)|
        else ValidAt(i + 1) && mode == InSync && bitstream == old(bitstream)
      ensures Call(cfg, old(At(i))) == Call(cfg, if cont then Abs() else At(i + 1))
    {
      hide ShiftIn, Call, Step, EnterDecoding, Stuffed, Drop;
      ghost var s := At(i);
      SplitAt(i);
      InSyncNext(cfg, s, bitstream[i], bitstream[i + 1..]);
      Decode1b(bitstream[i]);
      decodedBits := decodedBits + 1;
      if decodedBits == 8 {
        if shiftReg != SYNC_FLAG {
          StartFrame(i, s);
          return true;
        }
        decodedBits := 0;
      }
      return false;
    }

    // IN_SYNC: skips flags until a byte is not one.
    method ScanInSync() returns (cont: bool)
      requires Valid() && mode == InSync
      modifies this, frameBuffer
      ensures Valid() && Call(cfg, old(Abs())) == Call(cfg, Abs()) && prevBit == old(prevBit)
      ensures if cont then mode == Decoding && |bitstream| < |old(bitstream)| else Abs().pend == []
    {
      hide ShiftIn, Call, Step, WellFormed;
      var i: nat := startIdx;
      while i < |bitstream|
        invariant ValidAt(i) && mode == InSync && bitstream == old(bitstream)
        invariant Call(cfg, At(i)) == Call(cfg, old(Abs())) && prevBit == old(prevBit)
      {
        cont := SyncTurn(i);
        if cont { return true; }
        i := i + 1;
      }
      startIdx := |bitstream|;
      return false;
    }

    // ---------- DECODING ----------

    // Drops all but the last eight bits looked at and starts over.
    method RewindFlag(i: nat, ghost s: State)
      requires frameBuffer.Length == cfg.maxFrameLen + 75
      requires 7 <= i < |bitstream| && s.kept == bitstream[..i] && s.nread == nitemsRead && s.frameStart == frameStart
      modifies this`mode, this`decB, this`shiftReg, this`decodedBits, this`receivedBytes
      modifies this`bitstream, this`nitemsRead
      ensures Valid() && mode == NoSync && |bitstream| <= |old(bitstream)|
      ensures Abs() == Rewind(s, s.kept + [old(bitstream)[i]], old(bitstream)[i + 1..], 8)
    {
      KeepLast(bitstream, i, 8);
      Erase(i + 1 - 8);
      ResetState();
    }

    // The closing flag: the frame ends and is checked.
    method CloseFrame(i: nat, ghost s: State) returns (frame: Option<Frame>)
      requires frameBuffer.Length == cfg.maxFrameLen + 75 && receivedBytes <= frameBuffer.Length
      requires 7 <= i < |bitstream| && s.kept == bitstream[..i] && s.nread == nitemsRead && s.frameStart == frameStart
      requires s.frame == Received()
      modifies this, frameBuffer
      ensures Valid() && prevBit == old(prevBit) && mode == NoSync && |bitstream| <= |old(bitstream)|
      ensures Abs() == Rewind(s, s.kept + [old(bitstream)[i]], old(bitstream)[i + 1..], 8)
      ensures frame == FrameEnd(cfg, s.frame, s.frameStart, Cursor(s) - s.frameStart)
    {
      hide FrameEnd;
      KeepLast(bitstream, i, 8);
      sampleCnt := nitemsRead + i - frameStart;
      Erase(i + 1 - 8);
      var _, f := EnterFrameEnd();
      frame := f;
    }

    method StoreByte()
      requires receivedBytes < frameBuffer.Length
      modifies this`receivedBytes, this`decodedBits, frameBuffer
      ensures receivedBytes == old(receivedBytes) + 1 && decodedBits == 0
      ensures Received() == old(Received()) + [decB]
    {
      frameBuffer[receivedBytes] := decB;
      receivedBytes := receivedBytes + 1;
      decodedBits := 0;
    }

    // Starts over on the whole buffer.
    method Restart(i: nat, ghost s: State)
      requires frameBuffer.Length == cfg.maxFrameLen + 75
      requires i < |bitstream| && s.kept == bitstream[..i] && s.nread == nitemsRead && s.frameStart == frameStart
      modifies this`mode, this`decB, this`shiftReg, this`decodedBits, this`receivedBytes
      ensures Valid() && mode == NoSync
      ensures Abs() == Rewind(s, s.kept + [bitstream[i]], bitstream[i + 1..], |s.kept| + 1)
    {
      KeepLast(bitstream, i, i + 1);
      ResetState();
    }

    // A data bit.
    method DataBit(i: nat, ghost s: State) returns (cont: bool)
      requires frameBuffer.Length == cfg.maxFrameLen + 75 && mode == Decoding
      requires receivedBytes <= 1 || receivedBytes < cfg.maxFrameLen
      requires i < |bitstream| && s.kept == bitstream[..i] && s.nread == nitemsRead && s.frameStart == frameStart
      requires WellFormed(s) && s.mode == Decoding && s.frame == Received() && s.nbits == decodedBits
      modifies this`mode, this`decB, this`shiftReg, this`decodedBits, this`receivedBytes, frameBuffer
      ensures var seen, rest := s.kept + [bitstream[i]], bitstream[i + 1..];
        if s.nbits == 7 && |s.frame| + 1 >= cfg.maxFrameLen then
          cont && Valid() && mode == NoSync && Abs() == Rewind(s, seen, rest, |seen|)
        else
          !cont && ValidAt(i + 1) && mode == Decoding && At(i + 1) ==
            if s.nbits < 7
            then s.(reg := old(shiftReg), dec := old(decB), nbits := s.nbits + 1, kept := seen, pend := rest)
            else s.(reg := old(shiftReg), dec := old(decB), nbits := 0, frame := s.frame + [old(decB)],
                    kept := seen, pend := rest)
    {
      hide Rewind;
      SplitAt(i);
      cont := false;
      decodedBits := decodedBits + 1;
      if decodedBits == 8 {
        StoreByte();
        if receivedBytes >= cfg.maxFrameLen {
          Restart(i, s);
          return true;
        }
      }
    }

    // One turn of the DECODING loop: it goes on, starts over, or ends a frame.
    method DataTurn(i: nat) returns (cont: bool, ended: bool, frame: Option<Frame>)
      requires ValidAt(i) && mode == Decoding && i < |bitstream|
      modifies this, frameBuffer
      ensures prevBit == old(prevBit) && !(cont && ended)
      ensures cont || ended ==> Valid() && mode == NoSync && |bitstream| <= |old(bitstream)|
      ensures cont ==> Call(cfg, old(At(i))) == Call(cfg, Abs())
      ensures ended ==> Call(cfg, old(At(i))) == Ended(Abs(), frame)
      ensures cont || ended || (ValidAt(i + 1) && mode == Decoding && bitstream == old(bitstream)
        && Call(cfg, old(At(i))) == Call(cfg, At(i + 1)))
    {
      hide ShiftIn, Call, Step, Stuffed, Abort, Drop, Rewind, FrameEnd;
      cont, ended, frame := false, false, None;
      ghost var s := At(i);
      SplitAt(i);
      DecodingNext(cfg, s, bitstream[i], bitstream[i + 1..]);
      Decode1b(bitstream[i]);
      if shiftReg == SYNC_FLAG {
        if decodedBits != 7 {
          RewindFlag(i, s);
          cont := true;
        } else {
          frame := CloseFrame(i, s);
          ended := true;
        }
      } else if Stuffed(shiftReg) {
        decB := Drop(decB);
      } else if Abort(shiftReg) {
        RewindFlag(i, s);
        cont := true;
      } else {
        cont := DataBit(i, s);
      }
    }

    // DECODING: collects a frame up to its closing flag.
    method ScanDecoding() returns (cont: bool, ended: bool, frame: Option<Frame>)
      requires Valid() && mode == Decoding
      modifies this, frameBuffer
      ensures Valid() && prevBit == old(prevBit) && !(cont && ended)
      ensures cont ==> mode == NoSync && |bitstream| <= |old(bitstream)|
      ensures if ended then Call(cfg, old(Abs())) == Ended(Abs(), frame)
        else Call(cfg, old(Abs())) == Call(cfg, Abs()) && (cont || Abs().pend == [])
    {
      hide ShiftIn, Call, Step, WellFormed;
      var i: nat := startIdx;
      while i < |bitstream|
        invariant ValidAt(i) && mode == Decoding && bitstream == old(bitstream)
        invariant Call(cfg, At(i)) == Call(cfg, old(Abs())) && prevBit == old(prevBit)
      {
        cont, ended, frame := DataTurn(i);
        if cont || ended { return; }
        i := i + 1;
      }
      startIdx := |bitstream|;
      return false, false, None;
    }

    // _decode: runs until the buffer is used up or a frame has ended.
    method DecodeBits() returns (frame: Option<Frame>)
      requires Valid()
      modifies this, frameBuffer
      ensures Valid() && prevBit == old(prevBit)
      ensures var e := Call(cfg, old(Abs())); Abs() == e.next && frame == if e.Ended? then e.frame else None
    {
      hide ShiftIn, Call, Step;
      frame := None;
      while |bitstream| > 0
        invariant Valid() && Call(cfg, Abs()) == Call(cfg, old(Abs())) && prevBit == old(prevBit)
        decreases |bitstream|, Rank(mode)
      {
        var cont := false;
        match mode {
          case NoSync =>
            cont := ScanNoSync();
          case InSync =>
            cont := ScanInSync();
          case Decoding =>
            var ended;
            cont, ended, frame := ScanDecoding();
            if ended { return frame; }
        }
        if !cont {
          CallDone(cfg, Abs());
          return None;
        }
      }
      CallDone(cfg, Abs());
      return None;
    }

    // One turn of the line-decoding loop.
    method PushSample(x: bv8)
      requires Valid()
      modifies this`bitstream, this`prevBit
      ensures Valid() && prevBit == x
      ensures Abs() == Extend(old(Abs()), [LevelOf(x) == old(LevelOf(prevBit))])
    {
      hide LevelOf;
      SameParity(x, prevBit);
      var b := (x - prevBit) & 1 == 0;
      prevBit := x;
      bitstream := bitstream + [b];
    }

    // decode: line-decodes the samples into the buffer and runs.
    method Decode(input: seq<bv8>) returns (frame: Option<Frame>, consumed: nat)
      requires Valid()
      modifies this, frameBuffer
      ensures Valid() && consumed == |input|
      ensures prevBit == if input == [] then old(prevBit) else input[|input| - 1]
      ensures var bits := Nrzi.Decode(old(LevelOf(prevBit)), Levels(input));
        var e := Call(cfg, Extend(old(Abs()), bits));
        Abs() == e.next && frame == if e.Ended? then e.frame else None
    {
      hide LevelOf, Call, Nrzi.Decode, Levels, Extend, WellFormed;
      ghost var level, prev, s := LevelOf(prevBit), prevBit, Abs();
      DecodeNone(level, input);
      ExtendNone(s);
      for i := 0 to |input|
        invariant Valid() && prevBit == if i == 0 then prev else input[i - 1]
        invariant Abs() == Extend(s, Nrzi.Decode(level, Levels(input[..i])))
      {
        DecodeSample(prev, input, i);
        ghost var b := [LevelOf(input[i]) == LevelOf(prevBit)];
        ExtendMore(s, Nrzi.Decode(level, Levels(input[..i])), b);
        PushSample(input[i]);
      }
      assert input[..|input|] == input;
      frame := DecodeBits();
      consumed := |input|;
    }
  }
}
