// The AX.25 decoder of lib/ax25_decoder.cc as a machine that consumes one bit
// at a time. A state keeps the bits it may still have to rescan (`kept`) in
// front of the bits it has not looked at yet (`pend`); the source's deque is
// their concatenation and its start index is |kept|.
module Ax25Machine {
  import opened Fcs
  import opened FcsRepair
  import opened Wrappers

  const SYNC_FLAG: bv8 := 0x7E
  const MIN_ADDR_LEN: nat := 14

  datatype Mode = NoSync | InSync | Decoding

  datatype Config = Config(maxFrameLen: nat, crcCheck: bool, errorCorrection: bool)

  // The metadata of a decoded frame.
  datatype Frame = Frame(pdu: seq<bv8>, crcValid: bool, sampleStart: nat, sampleCnt: int)

  datatype State = State(
    mode: Mode, reg: bv8, dec: bv8, nbits: nat, frame: seq<bv8>,
    kept: seq<bool>, pend: seq<bool>, nread: nat, frameStart: nat)

  // A step either goes on or reaches an accepted closing flag, where the
  // source returns to its caller.
  datatype Event = Continue(next: State) | Ended(next: State, frame: Option<Frame>)

  // The absolute index of the next bit to look at.
  function Cursor(s: State): nat { s.nread + |s.kept| }

  predicate WellFormed(s: State) {
    && s.nbits < 8
    && (s.mode == NoSync ==> s.kept == [] && s.nbits == 0 && s.frame == [])
    && (s.mode == InSync ==> |s.kept| >= 1 + s.nbits && s.frame == [])
    && (s.mode == Decoding ==> |s.kept| >= 7)
  }

  function Init(): (s: State)
    ensures WellFormed(s)
  {
    State(NoSync, 0, 0, 0, [], [], [], 0, 0)
  }

  // decode_1b: the least significant bit is sent first.
  function ShiftIn(r: bv8, b: bool): bv8 {
    (r >> 1) | (if b then 0x80 else 0)
  }

  // A stuffed bit is shifted out again.
  function Drop(dec: bv8): bv8 { dec << 1 }

  predicate Stuffed(reg: bv8) { reg & 0xFC == 0x7C }

  predicate Abort(reg: bv8) { reg & 0xFE == 0xFE }

  // reset_state, after dropping all but the last n of the bits looked at.
  function Rewind(s: State, seen: seq<bool>, rest: seq<bool>, n: nat): (r: State)
    requires n <= |seen|
    ensures WellFormed(r)
  {
    State(NoSync, 0, 0, 0, [], [], seen[|seen| - n..] + rest, s.nread + (|seen| - n), s.frameStart)
  }

  // ---------- The frame check at a closing flag ----------

  // enter_frame_end: the frame handed to the caller, if any.
  function FrameEnd(cfg: Config, frame: seq<bv8>, start: nat, cnt: int): Option<Frame> {
    if |frame| < MIN_ADDR_LEN + 2 then None
    else if FrameValid(frame) then Some(Frame(frame[..|frame| - 2], true, start, cnt))
    else
      var fixed := if cfg.errorCorrection then Repair(frame) else None;
      if fixed.Some? then Some(Frame(fixed.value[..|frame| - 2], true, start, cnt))
      else if !cfg.crcCheck then Some(Frame(frame[..|frame| - 2], false, start, cnt))
      else None
  }

  // Some single flip makes the frame valid.
  predicate OneFlipHelps(frame: seq<bv8>)
    requires |frame| >= 2
  {
    exists k :: 0 <= k < 8 * |frame| && FrameValid(FlipBit(frame, k))
  }

  // pdu is what one flip makes of the frame, without its checksum.
  predicate RepairedTo(frame: seq<bv8>, pdu: seq<bv8>)
    requires |frame| >= 2
  {
    exists k :: 0 <= k < 8 * |frame| && FrameValid(FlipBit(frame, k)) && pdu == FlipBit(frame, k)[..|frame| - 2]
  }

  // Which frames are handed over, and how: at least sixteen bytes, and valid,
  // or one flip from valid where correction is on, or unchecked. All come
  // without their checksum; only those that stay invalid are marked so, and
  // those carry the bytes received.
  lemma FrameEndReads(cfg: Config, frame: seq<bv8>, start: nat, cnt: int)
    ensures var r := FrameEnd(cfg, frame, start, cnt);
      var repairable := cfg.errorCorrection && |frame| >= 2 && OneFlipHelps(frame);
      && (r.Some? <==> |frame| >= 16 && (FrameValid(frame) || repairable || !cfg.crcCheck))
      && (r.Some? ==> var f := r.value;
            && |f.pdu| == |frame| - 2 && f.sampleStart == start && f.sampleCnt == cnt
            && (f.crcValid <==> FrameValid(frame) || repairable)
            && (FrameValid(frame) || !f.crcValid ==> f.pdu == frame[..|frame| - 2])
            && (!FrameValid(frame) && f.crcValid ==> RepairedTo(frame, f.pdu)))
  {
    hide FrameValid, FlipBit, Repair;
    if |frame| >= 16 { RepairSound(frame); }
  }

  // With the check off a frame that no flip helps comes out cut and marked.
  lemma UncheckedFrame(cfg: Config, frame: seq<bv8>, start: nat, cnt: int)
    requires !cfg.crcCheck && |frame| >= 16 && !FrameValid(frame) && !(cfg.errorCorrection && OneFlipHelps(frame))
    ensures FrameEnd(cfg, frame, start, cnt) == Some(Frame(frame[..|frame| - 2], false, start, cnt))
  {
    hide FrameValid, FlipBit, FrameEnd, OneFlipHelps;
    FrameEndReads(cfg, frame, start, cnt);
  }

  // ---------- One bit ----------

  function StepNoSync(s: State): (e: Event)
    requires WellFormed(s) && s.mode == NoSync && s.pend != []
    ensures WellFormed(e.next) && e.Continue?
  {
    var b, rest := s.pend[0], s.pend[1..];
    var reg := ShiftIn(s.reg, b);
    if reg == SYNC_FLAG then
      Continue(State(InSync, 0, 0, 0, [], [b], rest, s.nread, s.nread))
    else
      Continue(s.(reg := reg, dec := ShiftIn(s.dec, b), pend := rest, nread := s.nread + 1))
  }

  // enter_decoding_state on the eight bits just completed.
  function EnterDecoding(s: State, seen: seq<bool>, rest: seq<bool>, reg: bv8, dec: bv8): (r: State)
    requires |seen| >= 7
    ensures WellFormed(r)
  {
    var base := State(Decoding, reg, dec, 0, [], seen[|seen| - 7..], rest, s.nread + (|seen| - 7), s.frameStart);
    if Stuffed(reg) then base.(dec := Drop(dec), nbits := 7)
    else base.(frame := [dec])
  }

  function StepInSync(s: State): (e: Event)
    requires WellFormed(s) && s.mode == InSync && s.pend != []
    ensures WellFormed(e.next) && e.Continue?
  {
    var seen, rest := s.kept + [s.pend[0]], s.pend[1..];
    var reg, dec := ShiftIn(s.reg, s.pend[0]), ShiftIn(s.dec, s.pend[0]);
    if s.nbits + 1 < 8 then
      Continue(s.(reg := reg, dec := dec, nbits := s.nbits + 1, kept := seen, pend := rest))
    else if reg != SYNC_FLAG then
      Continue(EnterDecoding(s, seen, rest, reg, dec))
    else
      Continue(s.(reg := reg, dec := dec, nbits := 0, kept := seen, pend := rest))
  }

  function StepDecoding(cfg: Config, s: State): (e: Event)
    requires WellFormed(s) && s.mode == Decoding && s.pend != []
    ensures WellFormed(e.next)
  {
    var seen, rest := s.kept + [s.pend[0]], s.pend[1..];
    var reg, dec := ShiftIn(s.reg, s.pend[0]), ShiftIn(s.dec, s.pend[0]);
    if reg == SYNC_FLAG then
      if s.nbits != 7 then Continue(Rewind(s, seen, rest, 8))
      else Ended(Rewind(s, seen, rest, 8), FrameEnd(cfg, s.frame, s.frameStart, Cursor(s) - s.frameStart))
    else if Stuffed(reg) then
      Continue(s.(reg := reg, dec := Drop(dec), kept := seen, pend := rest))
    else if Abort(reg) then
      Continue(Rewind(s, seen, rest, 8))
    else if s.nbits + 1 < 8 then
      Continue(s.(reg := reg, dec := dec, nbits := s.nbits + 1, kept := seen, pend := rest))
    else if |s.frame| + 1 >= cfg.maxFrameLen then
      Continue(Rewind(s, seen, rest, |seen|))
    else
      Continue(s.(reg := reg, dec := dec, nbits := 0, frame := s.frame + [dec], kept := seen, pend := rest))
  }

  function Step(cfg: Config, s: State): (e: Event)
    requires WellFormed(s) && s.pend != []
    ensures WellFormed(e.next)
  {
    match s.mode
    case NoSync => StepNoSync(s)
    case InSync => StepInSync(s)
    case Decoding => StepDecoding(cfg, s)
  }

  function Rank(m: Mode): nat {
    match m
    case Decoding => 2
    case NoSync => 1
    case InSync => 0
  }

  // ---------- Termination and accounting ----------

  function Buffered(s: State): nat { |s.kept| + |s.pend| }

  // One turn works off part of the buffer, or keeps the buffer and lowers the
  // state's rank, or keeps both and looks at one more bit.
  predicate Smaller(t: State, s: State) {
    || Buffered(t) < Buffered(s)
    || (Buffered(t) == Buffered(s) && Rank(t.mode) < Rank(s.mode))
    || (Buffered(t) == Buffered(s) && Rank(t.mode) == Rank(s.mode) && |t.pend| < |s.pend|)
  }

  // No bit is lost or counted twice.
  predicate Accounts(t: State, s: State) { t.nread + Buffered(t) == s.nread + Buffered(s) }

  lemma NoSyncTurn(s: State)
    requires WellFormed(s) && s.mode == NoSync && s.pend != []
    ensures var t := StepNoSync(s).next; Smaller(t, s) && Accounts(t, s)
  {
    hide ShiftIn;
  }

  lemma InSyncTurn(s: State)
    requires WellFormed(s) && s.mode == InSync && s.pend != []
    ensures var t := StepInSync(s).next; Smaller(t, s) && Accounts(t, s)
  {
    hide ShiftIn, Stuffed;
  }

  lemma RewindTurn(s: State, seen: seq<bool>, rest: seq<bool>, n: nat)
    requires s.mode == Decoding && n <= |seen| && |seen| + |rest| == Buffered(s)
    ensures var t := Rewind(s, seen, rest, n); Smaller(t, s) && Accounts(t, s)
  {
  }

  lemma DecodingTurn(cfg: Config, s: State)
    requires WellFormed(s) && s.mode == Decoding && s.pend != []
    ensures var t := StepDecoding(cfg, s).next; Smaller(t, s) && Accounts(t, s)
  {
    hide ShiftIn, Stuffed, Abort, FrameEnd, Rewind, Smaller, Accounts;
    var seen, rest := s.kept + [s.pend[0]], s.pend[1..];
    RewindTurn(s, seen, rest, 8);
    RewindTurn(s, seen, rest, |seen|);
    var reg, dec := ShiftIn(s.reg, s.pend[0]), ShiftIn(s.dec, s.pend[0]);
    AdvanceTurn(s, s.(reg := reg, dec := Drop(dec), kept := seen, pend := rest));
    AdvanceTurn(s, s.(reg := reg, dec := dec, nbits := s.nbits + 1, kept := seen, pend := rest));
    AdvanceTurn(s, s.(reg := reg, dec := dec, nbits := 0, frame := s.frame + [dec], kept := seen, pend := rest));
  }

  lemma AdvanceTurn(s: State, t: State)
    requires s.pend != [] && t.mode == s.mode && t.nread == s.nread
    requires t.kept == s.kept + [s.pend[0]] && t.pend == s.pend[1..]
    ensures Smaller(t, s) && Accounts(t, s)
  {
  }

  lemma StepTurn(cfg: Config, s: State)
    requires WellFormed(s) && s.pend != []
    ensures var t := Step(cfg, s).next; Smaller(t, s) && Accounts(t, s)
  {
    hide StepNoSync, StepInSync, StepDecoding, Smaller, Accounts, WellFormed;
    match s.mode
    case NoSync => NoSyncTurn(s);
    case InSync => InSyncTurn(s);
    case Decoding => DecodingTurn(cfg, s);
  }

  // ---------- One call, and a drain ----------

  // _decode: runs until the buffer has been looked at or a frame has ended.
  function Call(cfg: Config, s: State): (r: Event)
    requires WellFormed(s)
    ensures WellFormed(r.next)
    ensures r.Continue? ==> r.next.pend == []
    decreases Buffered(s), Rank(s.mode), |s.pend|
  {
    if s.pend == [] then Continue(s)
    else
      var e := Step(cfg, s);
      if e.Ended? then e else StepTurn(cfg, s); Call(cfg, e.next)
  }

  function FrameSeq(f: Option<Frame>): seq<Frame> {
    match f
    case None => []
    case Some(x) => [x]
  }

  // All frames of the buffered bits, and the state that is left.
  function Drain(cfg: Config, s: State): (r: (seq<Frame>, State))
    requires WellFormed(s)
    ensures WellFormed(r.1) && r.1.pend == []
    decreases Buffered(s), Rank(s.mode), |s.pend|
  {
    if s.pend == [] then ([], s)
    else
      var e := Step(cfg, s);
      StepTurn(cfg, s);
      var r := Drain(cfg, e.next);
      if e.Ended? then (FrameSeq(e.frame) + r.0, r.1) else r
  }

  function Emitted(e: Event): seq<Frame> {
    if e.Ended? then FrameSeq(e.frame) else []
  }

  function Extend(s: State, bits: seq<bool>): (t: State)
    requires WellFormed(s)
    ensures WellFormed(t)
  {
    s.(pend := s.pend + bits)
  }

  // ---------- Streaming ----------

  function ExtendEvent(e: Event, bits: seq<bool>): Event
    requires WellFormed(e.next)
  {
    match e
    case Continue(t) => Continue(Extend(t, bits))
    case Ended(t, f) => Ended(Extend(t, bits), f)
  }

  lemma ExtendPend(s: State, bits: seq<bool>)
    requires WellFormed(s) && s.pend != []
    ensures var x := Extend(s, bits); x.pend[0] == s.pend[0] && x.pend[1..] == s.pend[1..] + bits
  {
  }

  lemma RewindExtends(s: State, seen: seq<bool>, rest: seq<bool>, n: nat, bits: seq<bool>)
    requires WellFormed(s) && n <= |seen|
    ensures Rewind(Extend(s, bits), seen, rest + bits, n) == Extend(Rewind(s, seen, rest, n), bits)
  {
    assert seen[|seen| - n..] + (rest + bits) == (seen[|seen| - n..] + rest) + bits;
  }

  lemma NoSyncExtends(s: State, bits: seq<bool>)
    requires WellFormed(s) && s.mode == NoSync && s.pend != []
    ensures StepNoSync(Extend(s, bits)) == ExtendEvent(StepNoSync(s), bits)
  {
    hide ShiftIn;
    ExtendPend(s, bits);
  }

  lemma InSyncExtends(s: State, bits: seq<bool>)
    requires WellFormed(s) && s.mode == InSync && s.pend != []
    ensures StepInSync(Extend(s, bits)) == ExtendEvent(StepInSync(s), bits)
  {
    hide ShiftIn, Stuffed;
    ExtendPend(s, bits);
  }

  lemma DecodingExtends(cfg: Config, s: State, bits: seq<bool>)
    requires WellFormed(s) && s.mode == Decoding && s.pend != []
    ensures StepDecoding(cfg, Extend(s, bits)) == ExtendEvent(StepDecoding(cfg, s), bits)
  {
    hide ShiftIn, Stuffed, Abort, FrameEnd, Rewind;
    ExtendPend(s, bits);
    var seen, rest := s.kept + [s.pend[0]], s.pend[1..];
    RewindExtends(s, seen, rest, 8, bits);
    RewindExtends(s, seen, rest, |seen|, bits);
  }

  // A step does not depend on bits that have not arrived yet.
  lemma StepExtends(cfg: Config, s: State, bits: seq<bool>)
    requires WellFormed(s) && s.pend != []
    ensures Extend(s, bits).pend != []
    ensures Step(cfg, Extend(s, bits)) == ExtendEvent(Step(cfg, s), bits)
  {
    hide StepNoSync, StepInSync, StepDecoding, WellFormed;
    ExtendPend(s, bits);
    match s.mode
    case NoSync => NoSyncExtends(s, bits);
    case InSync => InSyncExtends(s, bits);
    case Decoding => DecodingExtends(cfg, s, bits);
  }

  // A call is a prefix of the drain.
  lemma {:induction false} CallThenDrain(cfg: Config, s: State)
    requires WellFormed(s)
    ensures var c := Call(cfg, s); var rest := Drain(cfg, c.next);
      Drain(cfg, s) == (Emitted(c) + rest.0, rest.1)
    decreases Buffered(s), Rank(s.mode), |s.pend|
  {
    hide Step, WellFormed, FrameSeq;
    var rest := Drain(cfg, Call(cfg, s).next);
    assert [] + rest.0 == rest.0;
    if s.pend != [] {
      StepTurn(cfg, s);
      if Step(cfg, s).Continue? {
        CallThenDrain(cfg, Step(cfg, s).next);
      }
    }
  }

  // Draining first and adding bits later is draining everything at once.
  lemma {:induction false} DrainExtends(cfg: Config, s: State, bits: seq<bool>)
    requires WellFormed(s)
    ensures var a := Drain(cfg, s); var b := Drain(cfg, Extend(a.1, bits));
      Drain(cfg, Extend(s, bits)) == (a.0 + b.0, b.1)
    decreases Buffered(s), Rank(s.mode), |s.pend|
  {
    hide Step, WellFormed, FrameSeq;
    if s.pend == [] {
      var b := Drain(cfg, Extend(s, bits));
      assert [] + b.0 == b.0;
    } else {
      StepTurn(cfg, s);
      StepExtends(cfg, s, bits);
      StepTurn(cfg, Extend(s, bits));
      var e := Step(cfg, s);
      DrainExtends(cfg, e.next, bits);
      var a := Drain(cfg, e.next);
      var b := Drain(cfg, Extend(a.1, bits));
      if e.Ended? {
        assert (FrameSeq(e.frame) + a.0) + b.0 == FrameSeq(e.frame) + (a.0 + b.0);
      }
    }
  }

  // The frames of a run of decode calls, one chunk of bits each, and the
  // state after the last call.
  function Session(cfg: Config, s: State, chunks: seq<seq<bool>>): (r: (seq<Frame>, State))
    requires WellFormed(s)
    ensures WellFormed(r.1)
    decreases |chunks|
  {
    if chunks == [] then ([], s)
    else
      var c := Call(cfg, Extend(s, chunks[0]));
      var r := Session(cfg, c.next, chunks[1..]);
      (Emitted(c) + r.0, r.1)
  }

  function Joined(chunks: seq<seq<bool>>): seq<bool> {
    if chunks == [] then [] else chunks[0] + Joined(chunks[1..])
  }

  // However the stream is split, the calls followed by a drain give the same
  // frames, with the same positions, and the same live state.
  lemma {:induction false} SessionThenDrain(cfg: Config, s: State, chunks: seq<seq<bool>>)
    requires WellFormed(s)
    ensures var r := Session(cfg, s, chunks); var d := Drain(cfg, r.1);
      Drain(cfg, Extend(s, Joined(chunks))) == (r.0 + d.0, d.1)
    decreases |chunks|
  {
    hide Step, Call, Drain, WellFormed;
    if chunks == [] {
      assert Extend(s, []) == s by { assert s.pend + [] == s.pend; }
      var d := Drain(cfg, s);
      assert [] + d.0 == d.0;
    } else {
      var x := Extend(s, chunks[0]);
      var c, tail := Call(cfg, x), Joined(chunks[1..]);
      assert Extend(x, tail) == Extend(s, Joined(chunks)) by {
        assert (s.pend + chunks[0]) + tail == s.pend + (chunks[0] + tail);
      }
      CallThenDrain(cfg, x);
      DrainExtends(cfg, x, tail);
      DrainExtends(cfg, c.next, tail);
      SessionThenDrain(cfg, c.next, chunks[1..]);
      var r := Session(cfg, c.next, chunks[1..]);
      var dx, dc := Drain(cfg, x), Drain(cfg, c.next);
      var b := Drain(cfg, Extend(dc.1, tail));
      assert dx == (Emitted(c) + dc.0, dc.1);
      assert (Emitted(c) + dc.0) + b.0 == Emitted(c) + (dc.0 + b.0);
      var d := Drain(cfg, r.1);
      assert Emitted(c) + (r.0 + d.0) == (Emitted(c) + r.0) + d.0;
    }
  }

  // ---------- Calls without input ----------

  function Empties(n: nat): (r: seq<seq<bool>>)
    ensures |r| == n
  {
    if n == 0 then [] else [[]] + Empties(n - 1)
  }

  lemma SmallerStill(t: State, u: State, s: State)
    requires Smaller(t, u) && (u == s || Smaller(u, s))
    ensures Smaller(t, s)
  {
  }

  // A call that finds something to look at makes progress.
  lemma {:induction false} CallSmaller(cfg: Config, s: State)
    requires WellFormed(s) && s.pend != []
    ensures Smaller(Call(cfg, s).next, s)
    decreases Buffered(s), Rank(s.mode), |s.pend|
  {
    hide Step, WellFormed, Smaller;
    StepTurn(cfg, s);
    var e := Step(cfg, s);
    if e.Continue? && e.next.pend != [] {
      SmallerIsLess(e.next, s);
      CallSmaller(cfg, e.next);
      SmallerStill(Call(cfg, s).next, e.next, s);
    }
  }

  lemma SmallerIsLess(t: State, s: State)
    requires Smaller(t, s)
    ensures Buffered(t) < Buffered(s)
      || (Buffered(t) == Buffered(s) && (Rank(t.mode) < Rank(s.mode)
      || (Rank(t.mode) == Rank(s.mode) && |t.pend| < |s.pend|)))
  {
  }

  lemma EmptyCall(cfg: Config, s: State, n: nat)
    requires WellFormed(s)
    ensures var c := Call(cfg, s); var r := Session(cfg, c.next, Empties(n));
      Session(cfg, s, Empties(n + 1)) == (Emitted(c) + r.0, r.1)
  {
    hide Call, WellFormed, Emitted;
    assert s.pend + [] == s.pend;
    assert Empties(n + 1)[0] == [] && Empties(n + 1)[1..] == Empties(n);
  }

  lemma NothingPending(cfg: Config, s: State)
    requires WellFormed(s) && s.pend == []
    ensures Drain(cfg, s) == ([], s) && Call(cfg, s) == Continue(s)
  {
  }

  // Draining is what finitely many calls without input do.
  lemma {:induction false} DrainIsCalls(cfg: Config, s: State) returns (n: nat)
    requires WellFormed(s)
    ensures Session(cfg, s, Empties(n)) == Drain(cfg, s)
    decreases Buffered(s), Rank(s.mode), |s.pend|
  {
    hide Call, Drain, WellFormed, Smaller, Emitted;
    if s.pend == [] {
      n := 0;
      NothingPending(cfg, s);
    } else {
      var c := Call(cfg, s);
      CallSmaller(cfg, s);
      SmallerIsLess(c.next, s);
      var m := DrainIsCalls(cfg, c.next);
      n := m + 1;
      EmptyCall(cfg, s, m);
      CallThenDrain(cfg, s);
    }
  }

  // Further calls change nothing.
  lemma {:induction false} QuietCalls(cfg: Config, s: State, n: nat)
    requires WellFormed(s) && s.pend == []
    ensures Session(cfg, s, Empties(n)) == ([], s)
    decreases n
  {
    hide Call, Drain, WellFormed;
    if n > 0 {
      NothingPending(cfg, s);
      EmptyCall(cfg, s, n - 1);
      QuietCalls(cfg, s, n - 1);
    }
  }

  lemma {:induction false} SessionConcat(cfg: Config, s: State, a: seq<seq<bool>>, b: seq<seq<bool>>)
    requires WellFormed(s)
    ensures var x := Session(cfg, s, a); var y := Session(cfg, x.1, b);
      Session(cfg, s, a + b) == (x.0 + y.0, y.1)
    decreases |a|
  {
    hide Call, WellFormed, Emitted;
    if a == [] {
      assert a + b == b;
      var y := Session(cfg, s, b);
      assert [] + y.0 == y.0;
    } else {
      assert (a + b)[0] == a[0] && (a + b)[1..] == a[1..] + b;
      var c := Call(cfg, Extend(s, a[0]));
      SessionConcat(cfg, c.next, a[1..], b);
      var x := Session(cfg, c.next, a[1..]);
      var y := Session(cfg, x.1, b);
      assert Emitted(c) + (x.0 + y.0) == (Emitted(c) + x.0) + y.0;
    }
  }

  lemma {:induction false} MoreEmpties(n: nat, k: nat)
    ensures Empties(n + k) == Empties(n) + Empties(k)
    decreases n
  {
    if n == 0 {
      assert Empties(0) + Empties(k) == Empties(k);
    } else {
      MoreEmpties(n - 1, k);
      assert [[]] + (Empties(n - 1) + Empties(k)) == ([[]] + Empties(n - 1)) + Empties(k);
    }
  }

  // Whatever the calls the stream is cut into, after enough calls without
  // input the frames, their positions and the live state are those of the
  // whole stream.
  lemma SessionIsDrain(cfg: Config, s: State, chunks: seq<seq<bool>>) returns (n: nat)
    requires WellFormed(s)
    ensures forall k: nat :: k >= n ==>
      Session(cfg, s, chunks + Empties(k)) == Drain(cfg, Extend(s, Joined(chunks)))
  {
    hide Call, Drain, Session, WellFormed, Extend, Empties;
    SessionThenDrain(cfg, s, chunks);
    var r := Session(cfg, s, chunks);
    var m := DrainIsCalls(cfg, r.1);
    n := m;
    var d := Drain(cfg, r.1);
    forall k: nat | k >= n ensures Session(cfg, s, chunks + Empties(k)) == Drain(cfg, Extend(s, Joined(chunks))) {
      MoreEmpties(n, k - n);
      SessionConcat(cfg, r.1, Empties(n), Empties(k - n));
      QuietCalls(cfg, d.1, k - n);
      assert d.0 + [] == d.0;
      SessionConcat(cfg, s, chunks, Empties(k));
    }
  }

  // Two ways of cutting the same stream end alike.
  lemma SplitsAgree(cfg: Config, s: State, a: seq<seq<bool>>, b: seq<seq<bool>>) returns (n: nat)
    requires WellFormed(s) && Joined(a) == Joined(b)
    ensures Session(cfg, s, a + Empties(n)) == Session(cfg, s, b + Empties(n))
  {
    hide Session, Drain, WellFormed, Extend, Empties, Joined;
    var k := SessionIsDrain(cfg, s, a);
    var l := SessionIsDrain(cfg, s, b);
    n := k + l;
  }
}
