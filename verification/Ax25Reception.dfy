// What the AX.25 decoder makes of a stream of flags, whole frames, aborted
// frames and stray bits: every flag opens what comes after it.
module Ax25Reception {
  import opened WireBits
  import opened Ax25Machine
  import opened Ax25Register
  import opened Ax25Stuffing
  import opened Wrappers

  // ---------- The run of ones at the top of the shift register ----------

  predicate RunIs(reg: bv8, run: nat) {
    if run == 0 then reg & 0x80 == 0
    else if run == 1 then reg & 0xC0 == 0x80
    else if run == 2 then reg & 0xE0 == 0xC0
    else if run == 3 then reg & 0xF0 == 0xE0
    else if run == 4 then reg & 0xF8 == 0xF0
    else if run == 5 then reg & 0xFC == 0xF8
    else if run == 6 then reg & 0xFE == 0xFC
    else reg & 0xFE == 0xFE
  }

  lemma RunShift(reg: bv8, run: nat, b: bool)
    requires RunIs(reg, run)
    ensures RunIs(ShiftIn(reg, b), NextRun(run, b))
    ensures ShiftIn(reg, b) == SYNC_FLAG <==> !b && run == 6
    ensures Stuffed(ShiftIn(reg, b)) <==> !b && run >= 5
    ensures Abort(ShiftIn(reg, b)) <==> b && run >= 6
  {
  }

  lemma RunKnown()
    ensures RunIs(0, 0) && RunIs(SYNC_FLAG, 0)
  {
  }

  lemma DrainStep(cfg: Config, s: State)
    requires WellFormed(s) && s.pend != [] && Step(cfg, s).Continue?
    ensures Drain(cfg, s) == Drain(cfg, Step(cfg, s).next)
  {
    hide Step, WellFormed;
    StepTurn(cfg, s);
  }

  // ---------- Looking for the flag ----------

  // In sync at a flag whose last bit is bit k of the stream.
  function Locked(k: nat, rest: seq<bool>): (s: State)
    ensures WellFormed(s) && Cursor(s) == k + 1
  {
    State(InSync, 0, 0, 0, [], [false], rest, k, k)
  }

  // From here the decoder hands over `out` and is then in sync at the flag
  // that ends with bit k.
  predicate Resumes(cfg: Config, s: State, out: seq<Frame>, k: nat, rest: seq<bool>)
    requires WellFormed(s)
  {
    var d := Drain(cfg, Locked(k, rest));
    Drain(cfg, s) == (out + d.0, d.1)
  }

  lemma ScanBit(cfg: Config, s: State, run: nat, b: bool, rest: seq<bool>) returns (t: State)
    requires WellFormed(s) && s.mode == NoSync && RunIs(s.reg, run) && (b || run != 6) && s.pend == [b] + rest
    ensures WellFormed(t) && t.mode == NoSync && RunIs(t.reg, NextRun(run, b)) && t.pend == rest
    ensures t.nread == s.nread + 1 && Drain(cfg, s) == Drain(cfg, t)
  {
    hide RunIs, ShiftIn, Drain;
    RunShift(s.reg, run, b);
    t := Step(cfg, s).next;
    DrainStep(cfg, s);
  }

  lemma {:induction false} Scan(cfg: Config, s: State, run: nat, bits: seq<bool>, rest: seq<bool>) returns (t: State)
    requires WellFormed(s) && s.mode == NoSync && RunIs(s.reg, run)
    requires FlagFree(run, bits) && s.pend == bits + rest
    ensures WellFormed(t) && t.mode == NoSync && RunIs(t.reg, Ones(run, bits))
    ensures t.pend == rest && t.nread == s.nread + |bits| && Drain(cfg, s) == Drain(cfg, t)
    decreases |bits|
  {
    hide RunIs, Drain, WellFormed;
    if bits == [] {
      t := s;
    } else {
      assert s.pend == [bits[0]] + (bits[1..] + rest);
      t := ScanBit(cfg, s, run, bits[0], bits[1..] + rest);
      t := Scan(cfg, t, NextRun(run, bits[0]), bits[1..], rest);
    }
  }

  lemma Found(cfg: Config, s: State, rest: seq<bool>)
    requires WellFormed(s) && s.mode == NoSync && RunIs(s.reg, 6) && s.pend == [false] + rest
    ensures Drain(cfg, s) == Drain(cfg, Locked(s.nread, rest))
  {
    hide RunIs, ShiftIn, Drain;
    RunShift(s.reg, 6, false);
    DrainStep(cfg, s);
  }

  // A flag but for its last bit.
  const PARTIAL: seq<bool> := [false, true, true, true, true, true, true]

  lemma PartialCalm(run: nat)
    requires run < 6
    ensures Calm(run, PARTIAL) && Ones(run, PARTIAL) == 6
    ensures FLAG == PARTIAL + [false]
  {
    var p := PARTIAL;
    assert p[1..] == [true, true, true, true, true, true];
    var q: seq<bool> := [true, true, true, true, true, true];
    assert q[1..] == [true, true, true, true, true] && q[2..] == [true, true, true, true];
    assert q[1..][1..] == q[2..] && q[2..][1..] == q[3..] && q[3..][1..] == q[4..] && q[4..][1..] == q[5..]
      && q[5..][1..] == [];
    assert Ones(0, q) == Ones(1, q[1..]) == Ones(2, q[2..]) == Ones(3, q[3..]) == Ones(4, q[4..])
      == Ones(5, q[5..]) == 6;
    assert Calm(5, q[5..]) && Calm(4, q[4..]) && Calm(3, q[3..]) && Calm(2, q[2..]) && Calm(1, q[1..]) && Calm(0, q);
  }

  lemma PartialFree(run: nat)
    requires run != 6
    ensures FlagFree(run, PARTIAL) && Ones(run, PARTIAL) == 6
  {
    PartialCalm(0);
    CalmIsFlagFree(0, PARTIAL);
  }

  // The decoder locks on to the first flag after bits without one.
  lemma LockOn(cfg: Config, s: State, run: nat, bits: seq<bool>, rest: seq<bool>)
    requires WellFormed(s) && s.mode == NoSync && RunIs(s.reg, run)
    requires FlagFree(run, bits) && Ones(run, bits) != 6 && s.pend == bits + (FLAG + rest)
    ensures Drain(cfg, s) == Drain(cfg, Locked(s.nread + |bits| + 7, rest))
  {
    hide RunIs, Drain, WellFormed, FlagFree, Ones, Locked;
    PartialFree(Ones(run, bits));
    FlagFreeConcat(run, bits, PARTIAL);
    CalmConcat(run, bits, PARTIAL);
    assert FLAG == PARTIAL + [false] by { PartialCalm(0); }
    assert bits + (FLAG + rest) == (bits + PARTIAL) + ([false] + rest);
    var t := Scan(cfg, s, run, bits + PARTIAL, [false] + rest);
    Found(cfg, t, rest);
  }

  // ---------- In sync ----------

  // The windows of both registers since the last flag.
  predicate Synced(s: State, run: nat) {
    && WellFormed(s) && s.mode == InSync && RunIs(s.reg, run)
    && Recent(s.reg, s.nbits, s.kept) && Recent(s.dec, s.nbits, s.kept)
  }

  lemma SyncBit(cfg: Config, s: State, run: nat, b: bool, rest: seq<bool>) returns (t: State)
    requires Synced(s, run) && run < 6 && s.nbits < 7 && s.pend == [b] + rest
    ensures Synced(t, NextRun(run, b)) && t.nbits == s.nbits + 1 && t.kept == s.kept + [b] && t.pend == rest
    ensures t.nread == s.nread && t.frameStart == s.frameStart && Drain(cfg, s) == Drain(cfg, t)
  {
    hide RunIs, ShiftIn, Drain, Recent;
    RunShift(s.reg, run, b);
    RecentShift(s.reg, s.nbits, s.kept, b);
    RecentShift(s.dec, s.nbits, s.kept, b);
    t := Step(cfg, s).next;
    DrainStep(cfg, s);
  }

  lemma {:induction false} SyncBits(cfg: Config, s: State, run: nat, bits: seq<bool>, rest: seq<bool>)
    returns (t: State)
    requires Synced(s, run) && run <= 6 && Calm(run, bits) && s.nbits + |bits| <= 7 && s.pend == bits + rest
    ensures Ones(run, bits) <= 6 && Synced(t, Ones(run, bits))
    ensures t.nbits == s.nbits + |bits| && t.kept == s.kept + bits && t.pend == rest
    ensures t.nread == s.nread && t.frameStart == s.frameStart && Drain(cfg, s) == Drain(cfg, t)
    decreases |bits|
  {
    hide Synced, Drain;
    if bits == [] {
      t := s;
    } else {
      assert s.pend == [bits[0]] + (bits[1..] + rest);
      t := SyncBit(cfg, s, run, bits[0], bits[1..] + rest);
      t := SyncBits(cfg, t, NextRun(run, bits[0]), bits[1..], rest);
    }
  }

  lemma SkipFlag(cfg: Config, s: State, rest: seq<bool>) returns (t: State)
    requires Synced(s, 0) && s.nbits == 0 && s.pend == FLAG + rest
    ensures Synced(t, 0) && t.nbits == 0 && t.kept == s.kept + FLAG && t.pend == rest
    ensures t.nread == s.nread && t.frameStart == s.frameStart && Drain(cfg, s) == Drain(cfg, t)
  {
    hide RunIs, ShiftIn, Drain, Recent;
    PartialCalm(0);
    assert FLAG + rest == PARTIAL + ([false] + rest);
    var u := SyncBits(cfg, s, 0, PARTIAL, [false] + rest);
    RunShift(u.reg, 6, false);
    RunKnown();
    t := Step(cfg, u).next;
    DrainStep(cfg, u);
    RecentNothing(t.reg, t.kept);
    RecentNothing(t.dec, t.kept);
    assert (s.kept + PARTIAL) + [false] == s.kept + FLAG;
  }

  function Flags(n: nat): (r: seq<bool>)
    ensures |r| == 8 * n
  {
    if n == 0 then [] else FLAG + Flags(n - 1)
  }

  lemma {:induction false} SkipFlags(cfg: Config, s: State, n: nat, rest: seq<bool>) returns (t: State)
    requires Synced(s, 0) && s.nbits == 0 && s.pend == Flags(n) + rest
    ensures Synced(t, 0) && t.nbits == 0 && |t.kept| == |s.kept| + 8 * n && t.pend == rest
    ensures t.nread == s.nread && t.frameStart == s.frameStart && Drain(cfg, s) == Drain(cfg, t)
    decreases n
  {
    hide Synced, Drain;
    if n == 0 {
      t := s;
      assert [] + rest == rest;
    } else {
      assert Flags(n) + rest == FLAG + (Flags(n - 1) + rest);
      t := SkipFlag(cfg, s, Flags(n - 1) + rest);
      t := SkipFlags(cfg, t, n - 1, rest);
    }
  }

  // ---------- Nothing more to find ----------

  function Zeros(n: nat): (r: seq<bool>)
    ensures |r| == n
  {
    seq(n, i => false)
  }

  lemma {:induction false} ZerosCalm(run: nat, n: nat)
    requires run < 6
    ensures Calm(run, Zeros(n))
    decreases n
  {
    if n > 0 {
      assert Zeros(n)[1..] == Zeros(n - 1);
      ZerosCalm(0, n - 1);
    }
  }

  lemma DrainNothing(cfg: Config, s: State)
    requires WellFormed(s) && s.pend == []
    ensures Drain(cfg, s) == ([], s)
  {
  }

  // ---------- Entering a frame ----------

  lemma RecentSuffix(reg: bv8, k: nat, front: seq<bool>, w: seq<bool>)
    requires Recent(reg, k, front + w) && k <= |w|
    ensures Recent(reg, k, w)
  {
    hide ByteBits;
    assert (front + w)[|front| + |w| - k..] == w[|w| - k..];
  }

  // The first eight raw bits after the flags, where only a zero stuffed at
  // the very end is taken out.
  lemma Enter(cfg: Config, s: State, w: seq<bool>, rest: seq<bool>) returns (t: State)
    requires Synced(s, 0) && s.nbits == 0 && |w| == 8 && Calm(0, w) && Ones(0, w) <= 6 && s.pend == w + rest
    ensures WellFormed(t) && t.mode == Decoding && RunIs(t.reg, Ones(0, w))
    ensures t.kept == w[1..] && t.pend == rest && t.frameStart == s.frameStart
    ensures t.nread + 7 == s.nread + |s.kept| + 8 && Drain(cfg, s) == Drain(cfg, t)
    ensures if !w[7] && Ones(0, w[..7]) == 5 then t.nbits == 7 && t.frame == [] && Recent(t.dec, 7, w[..7])
      else t.nbits == 0 && |t.frame| == 1 && BytesBits(t.frame) == w
  {
    hide RunIs, ShiftIn, Drain, Drop, Recent, Calm, Ones, Stuffed, BytesBits, FLAG;
    var front, b := w[..7], w[7];
    assert w == front + [b];
    CalmConcat(0, front, [b]);
    CalmLast(Ones(0, front), b);
    assert w + rest == front + ([b] + rest);
    var u := SyncBits(cfg, s, 0, front, [b] + rest);
    var run := Ones(0, front);
    RunShift(u.reg, run, b);
    t := Step(cfg, u).next;
    DrainStep(cfg, u);
    RecentShift(u.reg, 7, u.kept, b);
    RecentShift(u.dec, 7, u.kept, b);
    assert u.kept + [b] == s.kept + w;
    var seen := s.kept + w;
    assert seen[|seen| - 7..] == w[1..];
    if !b && run == 5 {
      RecentDrop(u.dec, 7, u.kept);
      RecentSuffix(t.dec, 7, s.kept, front);
    } else {
      RecentSuffix(ShiftIn(u.dec, b), 8, s.kept, w);
      OneByte(ShiftIn(u.dec, b), w);
    }
  }

  lemma CalmLast(run: nat, b: bool)
    ensures Calm(run, [b]) <==> run < 6
    ensures Ones(run, [b]) == NextRun(run, b)
  {
    assert [b][1..] == [];
  }

  lemma OneByte(dec: bv8, w: seq<bool>)
    requires |w| == 8 && Recent(dec, 8, w)
    ensures BytesBits([dec]) == w
  {
    hide ByteBits;
    assert ByteBits(dec)[0..] == ByteBits(dec) && w[0..] == w;
    assert [dec][..0] == [];
  }

  // ---------- Inside a frame ----------

  predicate Plain(run: nat, b: bool) { if b then run < 6 else run < 5 }

  // A bit that is neither stuffed nor part of a flag's end.
  lemma PlainStep(cfg: Config, s: State, run: nat, b: bool, rest: seq<bool>)
    requires WellFormed(s) && s.mode == Decoding && RunIs(s.reg, run) && Plain(run, b) && s.pend == [b] + rest
    ensures var seen, reg, dec := s.kept + [b], ShiftIn(s.reg, b), ShiftIn(s.dec, b);
      && RunIs(reg, NextRun(run, b))
      && Step(cfg, s) == Continue(
        if s.nbits < 7 then s.(reg := reg, dec := dec, nbits := s.nbits + 1, kept := seen, pend := rest)
        else if |s.frame| + 1 >= cfg.maxFrameLen then Rewind(s, seen, rest, |seen|)
        else s.(reg := reg, dec := dec, nbits := 0, frame := s.frame + [dec], kept := seen, pend := rest))
  {
    hide RunIs, ShiftIn, Drop, Stuffed, Abort, FrameEnd, Rewind;
    RunShift(s.reg, run, b);
  }

  lemma StuffedStep(cfg: Config, s: State, rest: seq<bool>)
    requires WellFormed(s) && s.mode == Decoding && RunIs(s.reg, 5) && s.pend == [false] + rest
    ensures var reg, dec := ShiftIn(s.reg, false), Drop(ShiftIn(s.dec, false));
      && RunIs(reg, 0)
      && Step(cfg, s) == Continue(s.(reg := reg, dec := dec, kept := s.kept + [false], pend := rest))
  {
    hide RunIs, ShiftIn, Drop, Stuffed, Abort, FrameEnd, Rewind;
    RunShift(s.reg, 5, false);
  }

  lemma FlagStep(cfg: Config, s: State, rest: seq<bool>)
    requires WellFormed(s) && s.mode == Decoding && RunIs(s.reg, 6) && s.pend == [false] + rest
    ensures var next := Rewind(s, s.kept + [false], rest, 8);
      Step(cfg, s) == if s.nbits != 7 then Continue(next)
        else Ended(next, FrameEnd(cfg, s.frame, s.frameStart, Cursor(s) - s.frameStart))
  {
    hide RunIs, ShiftIn, Drop, Stuffed, Abort, FrameEnd, Rewind;
    RunShift(s.reg, 6, false);
  }

  lemma AbortStep(cfg: Config, s: State, rest: seq<bool>)
    requires WellFormed(s) && s.mode == Decoding && RunIs(s.reg, 6) && s.pend == [true] + rest
    ensures Step(cfg, s) == Continue(Rewind(s, s.kept + [true], rest, 8))
  {
    hide RunIs, ShiftIn, Drop, Stuffed, Abort, FrameEnd, Rewind;
    RunShift(s.reg, 6, true);
  }

  // Between two bits of a frame: `todo` are the data bits still to come.
  predicate InFrame(s: State, run: nat, todo: seq<bool>, tail: seq<bool>, raw: seq<bool>) {
    && WellFormed(s) && s.mode == Decoding && run <= 5 && RunIs(s.reg, run)
    && s.pend == Stuff(run, todo) + tail
    && s.kept + s.pend == raw + tail
  }

  predicate SameFrame(s: State, t: State) {
    t.frame == s.frame && t.nread == s.nread && t.frameStart == s.frameStart && Cursor(t) == Cursor(s) + 1
  }

  lemma TakeBit(kept: seq<bool>, b: bool, rest: seq<bool>)
    ensures (kept + [b]) + rest == kept + ([b] + rest)
  {
  }

  lemma DropStuffed(cfg: Config, s: State, todo: seq<bool>, tail: seq<bool>, raw: seq<bool>) returns (t: State)
    requires InFrame(s, 5, todo, tail, raw)
    ensures InFrame(t, 0, todo, tail, raw) && SameFrame(s, t)
    ensures t.nbits == s.nbits && t.dec == Drop(ShiftIn(s.dec, false))
    ensures Drain(cfg, s) == Drain(cfg, t)
  {
    hide RunIs, ShiftIn, Drop, Drain, Step;
    var rest := Stuff(0, todo) + tail;
    assert s.pend == [false] + rest;
    StuffedStep(cfg, s, rest);
    t := Step(cfg, s).next;
    DrainStep(cfg, s);
    TakeBit(s.kept, false, rest);
  }

  lemma NextTodo(run: nat, todo: seq<bool>, tail: seq<bool>)
    requires run < 5 && todo != []
    ensures Stuff(run, todo) + tail == [todo[0]] + (Stuff(NextRun(run, todo[0]), todo[1..]) + tail)
  {
  }

  lemma TakeData(cfg: Config, s: State, run: nat, todo: seq<bool>, tail: seq<bool>, raw: seq<bool>) returns (t: State)
    requires InFrame(s, run, todo, tail, raw) && run < 5 && todo != []
    requires s.nbits == 7 ==> |s.frame| + 1 < cfg.maxFrameLen
    ensures InFrame(t, NextRun(run, todo[0]), todo[1..], tail, raw)
    ensures t.nread == s.nread && t.frameStart == s.frameStart && Cursor(t) == Cursor(s) + 1
    ensures t.dec == ShiftIn(s.dec, todo[0])
    ensures if s.nbits < 7 then t.nbits == s.nbits + 1 && t.frame == s.frame
      else t.nbits == 0 && t.frame == s.frame + [t.dec]
    ensures Drain(cfg, s) == Drain(cfg, t)
  {
    hide RunIs, ShiftIn, Drain, Step, Stuff;
    var b, rest := todo[0], Stuff(NextRun(run, todo[0]), todo[1..]) + tail;
    NextTodo(run, todo, tail);
    PlainStep(cfg, s, run, b, rest);
    t := Step(cfg, s).next;
    DrainStep(cfg, s);
    TakeBit(s.kept, b, rest);
  }

  // The length limit drops the frame and rescans everything after the first
  // bit of the frame, up to the flag behind it.
  lemma TooLong(cfg: Config, s: State, run: nat, b: bool, more: seq<bool>, raw: seq<bool>, rest: seq<bool>)
    requires WellFormed(s) && s.mode == Decoding && RunIs(s.reg, run) && Plain(run, b) && s.pend == [b] + more
    requires s.nbits == 7 && |s.frame| + 1 >= cfg.maxFrameLen
    requires s.kept + s.pend == raw + (FLAG + rest) && Calm(0, raw) && Ones(0, raw) < 6
    ensures Drain(cfg, s) == Drain(cfg, Locked(s.nread + |raw| + 7, rest))
  {
    hide RunIs, ShiftIn, Drain, Step, FLAG, Locked, Calm, Ones, FlagFree;
    PlainStep(cfg, s, run, b, more);
    DrainStep(cfg, s);
    TakeBit(s.kept, b, more);
    RunKnown();
    CalmIsFlagFree(0, raw);
    LockOn(cfg, Step(cfg, s).next, 0, raw, rest);
  }

  // ---------- The closing flag ----------

  predicate AllPlain(run: nat, bits: seq<bool>)
    decreases |bits|
  {
    bits == [] || (Plain(run, bits[0]) && AllPlain(NextRun(run, bits[0]), bits[1..]))
  }

  lemma {:induction false} PlainBits(cfg: Config, s: State, run: nat, bits: seq<bool>, rest: seq<bool>)
    returns (t: State)
    requires WellFormed(s) && s.mode == Decoding && RunIs(s.reg, run) && AllPlain(run, bits)
    requires s.pend == bits + rest && s.nbits + |bits| <= 7
    ensures WellFormed(t) && t.mode == Decoding && RunIs(t.reg, Ones(run, bits)) && t.pend == rest
    ensures t.kept == s.kept + bits && t.nbits == s.nbits + |bits|
    ensures t.frame == s.frame && t.nread == s.nread && t.frameStart == s.frameStart
    ensures Drain(cfg, s) == Drain(cfg, t)
    decreases |bits|
  {
    hide RunIs, ShiftIn, Drain, Step;
    if bits == [] {
      t := s;
    } else {
      assert s.pend == [bits[0]] + (bits[1..] + rest);
      PlainStep(cfg, s, run, bits[0], bits[1..] + rest);
      DrainStep(cfg, s);
      t := PlainBits(cfg, Step(cfg, s).next, NextRun(run, bits[0]), bits[1..], rest);
    }
  }

  lemma SixPlain(run: nat)
    requires run < 5
    ensures AllPlain(run, PARTIAL) && Ones(run, PARTIAL) == 6
    ensures AllPlain(run, PARTIAL[..6]) && Ones(run, PARTIAL[..6]) == 5
  {
    var q: seq<bool> := [true, true, true, true, true, true];
    assert PARTIAL[1..] == q && PARTIAL[..6][1..] == q[1..];
    assert q[1..][1..] == q[2..] && q[2..][1..] == q[3..] && q[3..][1..] == q[4..] && q[4..][1..] == q[5..]
      && q[5..][1..] == [];
    assert AllPlain(5, q[5..]) && AllPlain(4, q[4..]) && AllPlain(3, q[3..]) && AllPlain(2, q[2..])
      && AllPlain(1, q[1..]) && AllPlain(0, q);
    assert AllPlain(4, q[5..]) && AllPlain(3, q[4..]) && AllPlain(2, q[3..]) && AllPlain(1, q[2..])
      && AllPlain(0, q[1..]);
    assert Ones(0, q) == Ones(1, q[1..]) == Ones(2, q[2..]) == Ones(3, q[3..]) == Ones(4, q[4..])
      == Ones(5, q[5..]) == 6;
    assert Ones(0, q[1..]) == Ones(1, q[2..]) == Ones(2, q[3..]) == Ones(3, q[4..]) == Ones(4, q[5..]) == 5;
  }

  lemma EndsInFlag(kept: seq<bool>, rest: seq<bool>)
    ensures var seen := (kept + PARTIAL) + [false]; seen[|seen| - 8..] + rest == [] + (FLAG + rest)
  {
    assert PARTIAL + [false] == FLAG;
    assert (kept + PARTIAL) + [false] == kept + FLAG;
  }

  lemma DrainEnded(cfg: Config, s: State)
    requires WellFormed(s) && s.pend != [] && Step(cfg, s).Ended?
    ensures var e := Step(cfg, s); var d := Drain(cfg, e.next); Drain(cfg, s) == (FrameSeq(e.frame) + d.0, d.1)
  {
    hide Step, WellFormed;
    StepTurn(cfg, s);
  }

  // A closing flag in byte position hands the frame over and opens the next.
  lemma CloseAligned(cfg: Config, s: State, run: nat, rest: seq<bool>)
    requires WellFormed(s) && s.mode == Decoding && run < 5 && RunIs(s.reg, run) && s.nbits == 0
    requires s.pend == FLAG + rest
    ensures var k := Cursor(s) + 7;
      Resumes(cfg, s, FrameSeq(FrameEnd(cfg, s.frame, s.frameStart, k - s.frameStart)), k, rest)
  {
    hide RunIs, ShiftIn, Drain, Step, FLAG, FrameEnd, FrameSeq, AllPlain, Locked;
    SixPlain(run);
    PartialCalm(0);
    assert FLAG + rest == PARTIAL + ([false] + rest);
    var t := PlainBits(cfg, s, run, PARTIAL, [false] + rest);
    FlagStep(cfg, t, rest);
    DrainEnded(cfg, t);
    EndsInFlag(s.kept, rest);
    FlagRescanned(cfg, Step(cfg, t).next, rest);
  }

  lemma FlagRescanned(cfg: Config, s: State, rest: seq<bool>)
    requires WellFormed(s) && s.mode == NoSync && s.reg == 0 && s.pend == [] + (FLAG + rest)
    ensures Drain(cfg, s) == Drain(cfg, Locked(s.nread + 7, rest))
  {
    hide RunIs, Drain, FLAG, Locked;
    RunKnown();
    EmptyCalm(0);
    LockOn(cfg, s, 0, [], rest);
  }

  lemma EmptyCalm(run: nat)
    ensures Calm(run, []) && Ones(run, []) == run && FlagFree(run, [])
  {
  }

  // ---------- Any bits up to a flag ----------

  // The limit was reached: everything after the first bit is looked at again.
  predicate Rewound(s: State, t: State) {
    WellFormed(t) && t.mode == NoSync && t.reg == 0 && t.pend == s.kept + s.pend && t.nread == s.nread
  }

  // Bits without a flag or abort have been taken.
  predicate Taken(s: State, t: State, run: nat, bits: seq<bool>, rest: seq<bool>) {
    && WellFormed(t) && t.mode == Decoding && Ones(run, bits) <= 6 && RunIs(t.reg, Ones(run, bits))
    && t.pend == rest && t.kept == s.kept + bits && t.nread == s.nread && t.frameStart == s.frameStart
    && t.nbits == (s.nbits + DataCount(run, bits)) % 8
  }

  lemma CalmBit(cfg: Config, s: State, run: nat, b: bool, rest: seq<bool>) returns (t: State)
    requires WellFormed(s) && s.mode == Decoding && RunIs(s.reg, run) && run < 6 && s.pend == [b] + rest
    ensures WellFormed(t) && Drain(cfg, s) == Drain(cfg, t) && (Rewound(s, t) || Taken(s, t, run, [b], rest))
  {
    hide RunIs, ShiftIn, Drop, Drain, Step;
    CalmLast(run, b);
    assert DataCount(run, [b]) == if !b && run == 5 then 0 else 1 by { assert [b][1..] == []; }
    if !b && run == 5 {
      StuffedStep(cfg, s, rest);
    } else {
      PlainStep(cfg, s, run, b, rest);
      TakeBit(s.kept, b, rest);
    }
    t := Step(cfg, s).next;
    DrainStep(cfg, s);
  }

  lemma {:induction false} CalmBits(cfg: Config, s: State, run: nat, bits: seq<bool>, rest: seq<bool>)
    returns (t: State)
    requires WellFormed(s) && s.mode == Decoding && RunIs(s.reg, run) && run <= 6 && Calm(run, bits)
    requires s.pend == bits + rest
    ensures WellFormed(t) && Drain(cfg, s) == Drain(cfg, t) && (Rewound(s, t) || Taken(s, t, run, bits, rest))
    decreases |bits|
  {
    hide RunIs, Drain;
    if bits == [] {
      t := s;
    } else {
      var b, next := bits[0], NextRun(run, bits[0]);
      assert s.pend == [b] + (bits[1..] + rest);
      t := CalmBit(cfg, s, run, b, bits[1..] + rest);
      CalmLast(run, b);
      if !Rewound(s, t) {
        var u := CalmBits(cfg, t, next, bits[1..], rest);
        TakenTwice(s, t, u, run, bits, rest);
        t := u;
      }
    }
  }

  lemma TakenTwice(s: State, t: State, u: State, run: nat, bits: seq<bool>, rest: seq<bool>)
    requires bits != [] && s.pend == bits + rest && Taken(s, t, run, [bits[0]], bits[1..] + rest)
    requires Rewound(t, u) || Taken(t, u, NextRun(run, bits[0]), bits[1..], rest)
    ensures Rewound(s, u) || Taken(s, u, run, bits, rest)
  {
    hide RunIs;
    var b := bits[0];
    TakeBit(s.kept, b, bits[1..] + rest);
    assert [b] + bits[1..] == bits;
    assert (s.kept + [b]) + bits[1..] == s.kept + bits;
    assert s.pend == [b] + (bits[1..] + rest);
    DataCountConcat(run, [b], bits[1..]);
    CalmConcat(run, [b], bits[1..]);
    CalmLast(run, b);
    ModSum(s.nbits, DataCount(run, [b]), DataCount(NextRun(run, b), bits[1..]));
  }

  lemma ModSum(n: nat, a: nat, b: nat)
    ensures ((n + a) % 8 + b) % 8 == (n + (a + b)) % 8
  {
  }

  // From inside a frame up to a flag: `lead` is what a rescan would look at
  // before the flag. At most one frame comes out, and none unless the flag is
  // in byte position.
  lemma FlagBehind(cfg: Config, s: State, run: nat, front: seq<bool>, lead: seq<bool>, rest: seq<bool>)
    returns (out: seq<Frame>)
    requires WellFormed(s) && s.mode == Decoding && RunIs(s.reg, run) && run <= 6
    requires Calm(run, front) && Ones(run, front) == 6 && s.pend == front + ([false] + rest)
    requires s.kept + s.pend == lead + (FLAG + rest) && FlagFree(0, lead) && Ones(0, lead) != 6
    ensures Resumes(cfg, s, out, s.nread + |lead| + 7, rest) && |out| <= 1
    ensures (s.nbits + DataCount(run, front)) % 8 != 7 ==> out == []
  {
    hide RunIs, Drain, Calm, Ones, FlagFree, Step, FrameEnd, FrameSeq, Locked, DataCount;
    out := [];
    var d := Drain(cfg, Locked(s.nread + |lead| + 7, rest));
    assert [] + d.0 == d.0;
    var t := CalmBits(cfg, s, run, front, [false] + rest);
    if Rewound(s, t) {
      RunKnown();
      LockOn(cfg, t, 0, lead, rest);
    } else {
      FlagStep(cfg, t, rest);
      FlagLast(t.kept, lead, rest);
      var u := Rewind(t, t.kept + [false], rest, 8);
      FlagRescanned(cfg, u, rest);
      if t.nbits != 7 {
        DrainStep(cfg, t);
      } else {
        DrainEnded(cfg, t);
        out := FrameSeq(FrameEnd(cfg, t.frame, t.frameStart, Cursor(t) - t.frameStart));
        OneFrame(FrameEnd(cfg, t.frame, t.frameStart, Cursor(t) - t.frameStart));
      }
    }
  }

  lemma OneFrame(f: Option<Frame>)
    ensures |FrameSeq(f)| <= 1
  {
  }

  lemma FlagLast(kept: seq<bool>, lead: seq<bool>, rest: seq<bool>)
    requires kept + ([false] + rest) == lead + (FLAG + rest)
    ensures |kept| == |lead| + 7 && (kept + [false])[|kept| + 1 - 8..] + rest == [] + (FLAG + rest)
  {
    var seen := kept + [false];
    assert seen + rest == kept + ([false] + rest);
    assert (lead + FLAG) + rest == lead + (FLAG + rest);
    assert |seen| == |lead| + 8;
    assert seen == (seen + rest)[..|seen|] == lead + FLAG;
  }

  // The place in its byte at which the bit before a flag's last bit falls,
  // as the decoder counts: among the first eight bits it takes a stuffed zero
  // out only at their end.
  function Position(bits: seq<bool>): nat
    requires bits != []
  {
    var w, more := (bits + PARTIAL)[..8], (bits + PARTIAL)[8..];
    (if !w[7] && Ones(0, w[..7]) == 5 then 7 else 0) + DataCount(Ones(0, w), more)
  }

  // Bits of any kind between two flags: at most one frame comes out, and the
  // second flag opens what follows. If it is out of byte position, nothing
  // comes out.
  lemma Between(cfg: Config, s: State, bits: seq<bool>, rest: seq<bool>) returns (out: seq<Frame>)
    requires Synced(s, 0) && s.nbits == 0 && bits != [] && Calm(0, bits) && Ones(0, bits) < 6
    requires s.pend == bits + (FLAG + rest)
    ensures Resumes(cfg, s, out, Cursor(s) + |bits| + 7, rest) && |out| <= 1
    ensures Position(bits) % 8 != 7 ==> out == []
  {
    hide RunIs, Drain, Calm, Ones, FlagFree, Recent, FLAG, BytesBits, DataCount;
    var whole := bits + PARTIAL;
    PartialCalm(Ones(0, bits));
    CalmConcat(0, bits, PARTIAL);
    var w, more := whole[..8], whole[8..];
    assert whole == w + more;
    CalmConcat(0, w, more);
    CalmBound(0, w);
    assert FLAG == PARTIAL + [false];
    assert bits + (FLAG + rest) == w + (more + ([false] + rest));
    var t := Enter(cfg, s, w, more + ([false] + rest));
    var lead := bits[1..];
    assert w[1..] + (more + ([false] + rest)) == lead + (FLAG + rest) by {
      assert w[1..] + more == whole[1..] == lead + PARTIAL;
    }
    CalmTail(bits);
    CalmIsFlagFree(0, lead);
    out := FlagBehind(cfg, t, Ones(0, w), more, lead, rest);
    assert t.nread + |lead| + 7 == Cursor(s) + |bits| + 7;
    assert Drain(cfg, s) == Drain(cfg, t);
  }

  lemma {:induction false} CalmBound(run: nat, bits: seq<bool>)
    requires run <= 6 && Calm(run, bits)
    ensures Ones(run, bits) <= 6
    decreases |bits|
  {
    if bits != [] { CalmBound(NextRun(run, bits[0]), bits[1..]); }
  }

  lemma CalmTail(bits: seq<bool>)
    requires bits != [] && Calm(0, bits)
    ensures Calm(0, bits[1..]) && Ones(0, bits[1..]) <= Ones(0, bits)
  {
    assert bits == [bits[0]] + bits[1..];
    CalmConcat(0, [bits[0]], bits[1..]);
    CalmLess(0, Ones(0, [bits[0]]), bits[1..]);
  }

  // ---------- An aborted frame ----------

  // After the seventh one, anything without a flag.
  predicate AfterAbort(more: seq<bool>) { FlagFree(7, more) && Ones(7, more) != 6 }

  lemma SeventhOne(front: seq<bool>, more: seq<bool>)
    requires Calm(0, front) && Ones(0, front) == 6 && AfterAbort(more)
    ensures FlagFree(0, front + ([true] + more)) && Ones(0, front + ([true] + more)) != 6
  {
    hide Calm;
    assert ([true] + more)[1..] == more;
    assert FlagFree(6, [true] + more) && Ones(6, [true] + more) == Ones(7, more);
    hide Ones, FlagFree;
    CalmIsFlagFree(0, front);
    FlagFreeConcat(0, front, [true] + more);
    CalmConcat(0, front, [true] + more);
  }

  // A suffix of more than six bits ends in the same run.
  lemma SameRun(bits: seq<bool>, i: nat)
    requires i + 6 < |bits| && Calm(0, bits) && Ones(0, bits) == 6
    ensures Calm(0, bits[i..]) && Ones(0, bits[i..]) == 6
  {
    hide Calm, Ones;
    var a, b := bits[..i], bits[i..];
    assert bits == a + b;
    CalmConcat(0, a, b);
    CalmLess(0, Ones(0, a), b);
    if false !in b {
      OnesOfTrues(Ones(0, a), b);
    } else {
      OnesForget(Ones(0, a), 0, b);
    }
  }

  // The seventh one: the last eight bits are looked at again.
  lemma AbortTaken(cfg: Config, u: State, part: seq<bool>, more: seq<bool>, rest: seq<bool>)
    requires WellFormed(u) && u.mode == Decoding && RunIs(u.reg, 6) && |part| >= 8 && u.kept == part[1..]
    requires Calm(0, part) && Ones(0, part) == 6 && AfterAbort(more)
    requires u.pend == [true] + (more + (FLAG + rest))
    ensures Drain(cfg, u) == Drain(cfg, Locked(u.nread + |part| + |more| + 7, rest))
  {
    hide RunIs, Drain, Calm, Ones, FlagFree, FLAG, Step, Locked, AfterAbort;
    AbortStep(cfg, u, more + (FLAG + rest));
    DrainStep(cfg, u);
    var v, last := Step(cfg, u).next, part[|part| - 7..];
    assert (u.kept + [true])[|u.kept| + 1 - 8..] == last + [true];
    assert v.pend == (last + ([true] + more)) + (FLAG + rest);
    SameRun(part, |part| - 7);
    SeventhOne(last, more);
    RunKnown();
    LockOn(cfg, v, 0, last + ([true] + more), rest);
  }

  // The limit was reached before it: everything is looked at again.
  lemma AbortRewound(cfg: Config, u: State, part: seq<bool>, more: seq<bool>, rest: seq<bool>)
    requires WellFormed(u) && u.mode == NoSync && u.reg == 0
    requires |part| >= 8 && Calm(0, part) && Ones(0, part) == 6 && AfterAbort(more)
    requires u.pend == (part[1..] + ([true] + more)) + (FLAG + rest)
    ensures Drain(cfg, u) == Drain(cfg, Locked(u.nread + |part| + |more| + 7, rest))
  {
    hide RunIs, Drain, Calm, Ones, FlagFree, FLAG, Locked, AfterAbort;
    RunKnown();
    SameRun(part, 1);
    SeventhOne(part[1..], more);
    LockOn(cfg, u, 0, part[1..] + ([true] + more), rest);
  }

  // Eight or more bits behind a flag have been taken, or, at the limit, all
  // but the first are to be looked at again.
  predicate Begun(u: State, part: seq<bool>, tail: seq<bool>)
    requires part != []
  {
    && WellFormed(u)
    && if u.mode == Decoding then RunIs(u.reg, Ones(0, part)) && u.kept == part[1..] && u.pend == tail
      else u.mode == NoSync && u.reg == 0 && u.pend == part[1..] + tail
  }

  lemma Begin(cfg: Config, s: State, part: seq<bool>, tail: seq<bool>) returns (u: State)
    requires Synced(s, 0) && s.nbits == 0 && |part| >= 8 && Calm(0, part) && s.pend == part + tail
    ensures WellFormed(u) && Begun(u, part, tail) && u.nread == Cursor(s) + 1 && Drain(cfg, s) == Drain(cfg, u)
  {
    hide RunIs, Drain, Calm, Ones, Recent, BytesBits, DataCount, Step;
    var w, more := part[..8], part[8..];
    assert part == w + more && w[1..] + more == part[1..];
    CalmConcat(0, w, more);
    CalmBound(0, w);
    assert s.pend == w + (more + tail);
    var t := Enter(cfg, s, w, more + tail);
    u := CalmBits(cfg, t, Ones(0, w), more, tail);
    assert w[1..] + (more + tail) == part[1..] + tail;
  }

  lemma BegunAborted(cfg: Config, u: State, part: seq<bool>, more: seq<bool>, rest: seq<bool>)
    requires |part| >= 8 && Calm(0, part) && Ones(0, part) == 6 && AfterAbort(more)
    requires Begun(u, part, [true] + (more + (FLAG + rest)))
    ensures Drain(cfg, u) == Drain(cfg, Locked(u.nread + |part| + |more| + 7, rest))
  {
    hide RunIs, Drain, Calm, Ones, FLAG, Locked, AfterAbort, WellFormed;
    if u.mode == Decoding {
      AbortTaken(cfg, u, part, more, rest);
    } else {
      Regroup(part[1..], [true], more, FLAG + rest);
      AbortRewound(cfg, u, part, more, rest);
    }
  }

  // At least eight bits up to the sixth one in a row, a seventh, then no flag
  // for a while: nothing comes out, and the next flag opens what follows.
  lemma Aborted(cfg: Config, s: State, part: seq<bool>, more: seq<bool>, rest: seq<bool>)
    requires Synced(s, 0) && s.nbits == 0 && |part| >= 8 && Calm(0, part) && Ones(0, part) == 6 && AfterAbort(more)
    requires s.pend == (part + ([true] + more)) + (FLAG + rest)
    ensures Resumes(cfg, s, [], Cursor(s) + |part| + 1 + |more| + 7, rest)
  {
    hide RunIs, Drain, Calm, Ones, FLAG, Locked, Synced, AfterAbort, WellFormed, Begun, Resumes;
    SyncedWellFormed(s, 0);
    Regroup(part, [true], more, FLAG + rest);
    var u := Begin(cfg, s, part, [true] + (more + (FLAG + rest)));
    BegunWellFormed(u, part, [true] + (more + (FLAG + rest)));
    BegunAborted(cfg, u, part, more, rest);
    NothingOut(cfg, s, u.nread + |part| + |more| + 7, rest);
  }

  lemma BegunWellFormed(u: State, part: seq<bool>, tail: seq<bool>)
    requires part != [] && Begun(u, part, tail)
    ensures WellFormed(u)
  {
  }

  lemma Regroup(a: seq<bool>, b: seq<bool>, c: seq<bool>, d: seq<bool>)
    ensures (a + (b + c)) + d == a + (b + (c + d))
  {
  }

  lemma NothingOut(cfg: Config, s: State, k: nat, rest: seq<bool>)
    requires WellFormed(s) && Drain(cfg, s) == Drain(cfg, Locked(k, rest))
    ensures Resumes(cfg, s, [], k, rest)
  {
    hide Drain, Locked, WellFormed;
    var d := Drain(cfg, Locked(k, rest));
    assert [] + d.0 == d.0;
  }

  // ---------- A frame in byte position ----------

  lemma {:induction false} ByteAt(data: seq<bv8>, j: nat)
    requires j < |data|
    ensures BytesBits(data)[8 * j..8 * j + 8] == ByteBits(data[j])
  {
    hide ByteBits;
    var n := |data| - 1;
    var front := BytesBits(data[..n]);
    if j < n {
      ByteAt(data[..n], j);
      assert BytesBits(data)[8 * j..8 * j + 8] == front[8 * j..8 * j + 8];
    }
  }

  // After k data bits of the frame.
  predicate Aligned(s: State, frame: seq<bv8>, k: nat) {
    && k <= 8 * |frame| && s.nbits == k % 8 && s.frame == frame[..k / 8]
    && Recent(s.dec, k % 8, BytesBits(frame)[..k])
  }

  lemma BitDone(dec: bv8, data: seq<bool>, k: nat, n: nat)
    requires k < |data| && n < 8 && Recent(dec, n, data[..k])
    ensures Recent(ShiftIn(dec, data[k]), n + 1, data[..k + 1])
  {
    hide ShiftIn, Recent;
    RecentShift(dec, n, data[..k], data[k]);
    assert data[..k + 1] == data[..k] + [data[k]];
  }

  lemma RecentAt(dec: bv8, data: seq<bool>, n: nat)
    requires n + 8 <= |data| && Recent(dec, 8, data[..n + 8])
    ensures ByteBits(dec) == data[n..n + 8]
  {
    hide ByteBits, Recent, Stuffed, EndsStuffed;
    RecentAll(dec, data[..n + 8]);
    assert data[..n + 8][n..] == data[n..n + 8];
  }

  lemma ByteDone(dec: bv8, frame: seq<bv8>, j: nat)
    requires j < |frame| && Recent(dec, 8, BytesBits(frame)[..8 * j + 8])
    ensures dec == frame[j]
  {
    hide ByteBits, BytesBits, Recent;
    var data := BytesBits(frame);
    RecentAt(dec, data, 8 * j);
    ByteAt(frame, j);
    BitsDetermineByte(dec, frame[j]);
  }

  lemma EighthBit(k: nat)
    requires k % 8 == 7
    ensures (k + 1) % 8 == 0 && (k + 1) / 8 == k / 8 + 1 && k + 1 == 8 * (k / 8) + 8
  {
  }

  lemma AlignedNext(s: State, t: State, frame: seq<bv8>, k: nat)
    requires k < 8 * |frame| && Aligned(s, frame, k)
    requires t.dec == ShiftIn(s.dec, BytesBits(frame)[k])
    requires if s.nbits < 7 then t.nbits == s.nbits + 1 && t.frame == s.frame
      else t.nbits == 0 && t.frame == s.frame + [t.dec]
    ensures Aligned(t, frame, k + 1)
  {
    hide ByteBits, BytesBits, ShiftIn, Recent;
    BitDone(s.dec, BytesBits(frame), k, s.nbits);
    if s.nbits == 7 {
      EighthBit(k);
      ByteDone(t.dec, frame, k / 8);
      RecentNothing(t.dec, BytesBits(frame)[..k + 1]);
    }
  }

  lemma AlignedDrop(s: State, t: State, frame: seq<bv8>, k: nat)
    requires Aligned(s, frame, k) && t.nbits == s.nbits && t.frame == s.frame && t.dec == Drop(ShiftIn(s.dec, false))
    ensures Aligned(t, frame, k)
  {
    hide Recent, Drop, ShiftIn, BytesBits;
    RecentDrop(s.dec, s.nbits, BytesBits(frame)[..k]);
  }

  // What the decoder hands over for a frame whose closing flag starts at `end`.
  function Handed(cfg: Config, frame: seq<bv8>, start: nat, end: nat): seq<Frame> {
    if |frame| < cfg.maxFrameLen then FrameSeq(FrameEnd(cfg, frame, start, end + 7 - start)) else []
  }

  lemma {:induction false} AlignedRun(cfg: Config, s: State, run: nat, frame: seq<bv8>, k: nat, raw: seq<bool>,
                                      rest: seq<bool>)
    requires 2 <= |frame| && Aligned(s, frame, k)
    requires InFrame(s, run, BytesBits(frame)[k..], FLAG + rest, raw)
    requires Calm(0, raw) && Ones(0, raw) < 6
    requires |s.frame| <= 1 || |s.frame| < cfg.maxFrameLen
    ensures var end := Cursor(s) + |Stuff(run, BytesBits(frame)[k..])|;
      Resumes(cfg, s, Handed(cfg, frame, s.frameStart, end), end + 7, rest)
    decreases 8 * |frame| - k, if run == 5 then 1 else 0
  {
    hide RunIs, ShiftIn, Drain, FLAG, BytesBits, ByteBits, Drop, FrameEnd, FrameSeq, Aligned, Calm, Ones, NextRun,
      Locked;
    AlignedFields(s, frame, k);
    var todo, tail := BytesBits(frame)[k..], FLAG + rest;
    if run == 5 {
      var t := DropStuffed(cfg, s, todo, tail, raw);
      AlignedDrop(s, t, frame, k);
      AlignedRun(cfg, t, 0, frame, k, raw, rest);
    } else if k == 8 * |frame| {
      assert [] + tail == tail;
      CloseAligned(cfg, s, run, rest);
    } else {
      var b, more := todo[0], Stuff(NextRun(run, todo[0]), todo[1..]) + tail;
      if s.nbits == 7 && |s.frame| + 1 >= cfg.maxFrameLen {
        NextTodo(run, todo, tail);
        RawLength(s, run, todo, tail, raw);
        TooLong(cfg, s, run, b, more, raw, rest);
        var d := Drain(cfg, Locked(s.nread + |raw| + 7, rest));
        assert [] + d.0 == d.0;
      } else {
        var t := TakeData(cfg, s, run, todo, tail, raw);
        AlignedNext(s, t, frame, k);
        assert BytesBits(frame)[k + 1..] == todo[1..];
        StuffNext(run, todo);
        AlignedRun(cfg, t, NextRun(run, b), frame, k + 1, raw, rest);
      }
    }
  }

  lemma RawLength(s: State, run: nat, todo: seq<bool>, tail: seq<bool>, raw: seq<bool>)
    requires InFrame(s, run, todo, tail, raw)
    ensures s.nread + |raw| == Cursor(s) + |Stuff(run, todo)|
  {
    assert |s.kept + s.pend| == |raw + tail|;
  }

  lemma StuffNext(run: nat, todo: seq<bool>)
    requires run < 5 && todo != []
    ensures |Stuff(run, todo)| == 1 + |Stuff(NextRun(run, todo[0]), todo[1..])|
  {
  }

  lemma AlignedFields(s: State, frame: seq<bv8>, k: nat)
    requires Aligned(s, frame, k)
    ensures k <= 8 * |frame| && s.nbits == k % 8 && |s.frame| == k / 8
    ensures k == 8 * |frame| ==> s.frame == frame
  {
    hide Recent;
  }

  // ---------- The first eight bits ----------

  // The first byte's stuffed zero, if any, does not fall before its last bit.
  predicate Clear(first: bv8) { first & 0x1F != 0x1F && first & 0x3E != 0x3E }

  lemma ClearBits(first: bv8)
    ensures var x := ByteBits(first);
      Clear(first) <==> !(x[0] && x[1] && x[2] && x[3] && x[4]) && !(x[1] && x[2] && x[3] && x[4] && x[5])
  {
  }

  lemma FirstSeven(frame: seq<bv8>)
    requires frame != []
    ensures Clear(frame[0]) <==> Quiet(0, BytesBits(frame)[..7])
    ensures BytesBits(frame)[..7] == ByteBits(frame[0])[..7]
  {
    hide ByteBits, BytesBits, Clear, Quiet;
    var x, data := ByteBits(frame[0]), BytesBits(frame);
    ByteAt(frame, 0);
    assert data[..7] == data[0..8][..7];
    assert data[..7] == [x[0], x[1], x[2], x[3], x[4], x[5], x[6]];
    ClearBits(frame[0]);
    QuietSeven(x[0], x[1], x[2], x[3], x[4], x[5], x[6]);
  }

  lemma OnesLast(run: nat, bits: seq<bool>, b: bool)
    ensures Ones(run, bits + [b]) == NextRun(Ones(run, bits), b)
  {
    CalmConcat(run, bits, [b]);
    CalmLast(Ones(run, bits), b);
  }

  // The run left after the first eight raw bits, and the data bits in them.
  lemma AlignedStart(data: seq<bool>) returns (w: seq<bool>, k: nat)
    requires |data| >= 8 && Quiet(0, data[..7])
    ensures k <= 8 && |w| == 8 && Stuff(0, data) == w + Stuff(Ones(0, w), data[k..]) && Ones(0, w) <= 5
    ensures if !w[7] && Ones(0, w[..7]) == 5 then k == 7 && w[..7] == data[..7] else k == 8 && w == data[..8]
  {
    hide Quiet, Ones, Stuff;
    var front := data[..7];
    QuietStuff(0, front, data[7..]);
    assert data == front + data[7..];
    var run := Ones(0, front);
    if run == 5 {
      w, k := front + [false], 7;
      OnesLast(0, front, false);
      assert Stuff(5, data[7..]) == [false] + Stuff(0, data[7..]) by { FullRun(data[7..]); }
    } else {
      w, k := front + [data[7]], 8;
      OnesLast(0, front, data[7]);
      assert data[7..][1..] == data[8..];
      NextTodo(run, data[7..], []);
      assert Stuff(run, data[7..]) + [] == Stuff(run, data[7..]);
      assert Stuff(Ones(0, w), data[8..]) + [] == Stuff(Ones(0, w), data[8..]);
    }
    assert w[..7] == front;
  }

  // A stuffed zero too early takes the place of a data bit.
  lemma ShiftedStart(data: seq<bool>) returns (w: seq<bool>)
    requires |data| >= 8
    requires (data[0] && data[1] && data[2] && data[3] && data[4])
          || (!data[0] && data[1] && data[2] && data[3] && data[4] && data[5])
    ensures |w| == 8 && Stuff(0, data) == w + Stuff(Ones(0, w), data[7..]) && Ones(0, w) <= 2
    ensures Ones(0, w[..7]) < 5
  {
    hide Quiet, Ones, Stuff;
    var n := if data[0] then 5 else 6;
    var lead, b := data[..n], data[n];
    assert lead == [true, true, true, true, true] || lead == [false, true, true, true, true, true];
    FiveOnes(lead);
    assert data == lead + ([b] + data[n + 1..]);
    EarlyStuff(lead, b, data[n + 1..]);
    OnesLast(0, lead, false);
    assert lead + [false, b] == (lead + [false]) + [b];
    OnesLast(0, lead + [false], b);
    w := lead + [false, b];
    if n == 5 {
      var run := NextRun(0, b);
      NextTodo(run, data[6..], []);
      assert data[6..][1..] == data[7..];
      OnesLast(0, w, data[6]);
      assert Stuff(run, data[6..]) + [] == Stuff(run, data[6..]);
      var u := w;
      w := w + [data[6]];
      assert w[..7] == u;
      assert Stuff(Ones(0, w), data[7..]) + [] == Stuff(Ones(0, w), data[7..]);
      assert u + ([data[6]] + Stuff(Ones(0, w), data[7..])) == w + Stuff(Ones(0, w), data[7..]);
    } else {
      assert w[..7] == lead + [false];
    }
  }

  // Dropping the first bit of a stuffed frame leaves no flag in it.
  lemma RawCalm(data: seq<bool>, w: seq<bool>, rest: seq<bool>)
    requires Stuff(0, data) == w + rest && |w| == 8
    ensures Calm(0, w) && Calm(0, w[1..] + rest) && Ones(0, w[1..] + rest) < 6
  {
    StuffCalm(0, data);
    CalmConcat(0, w, rest);
    var raw := w[1..] + rest;
    assert w + rest == [w[0]] + raw;
    CalmConcat(0, [w[0]], raw);
    CalmLess(0, Ones(0, [w[0]]), raw);
  }

  // ---------- A whole frame ----------

  lemma AlignedReception(cfg: Config, s: State, frame: seq<bv8>, rest: seq<bool>)
    requires 2 <= |frame| && Clear(frame[0])
    requires Synced(s, 0) && s.nbits == 0 && s.pend == Stuff(0, BytesBits(frame)) + (FLAG + rest)
    ensures var end := Cursor(s) + |Stuff(0, BytesBits(frame))|;
      Resumes(cfg, s, Handed(cfg, frame, s.frameStart, end), end + 7, rest)
  {
    hide RunIs, Drain, Recent, Calm, Ones, Quiet, Step, FLAG, Flags, Stuff, BytesBits, Clear, Handed, Locked;
    var data, tail := BytesBits(frame), FLAG + rest;
    FirstSeven(frame);
    var w, k := AlignedStart(data);
    var more := Stuff(Ones(0, w), data[k..]);
    RawCalm(data, w, more);
    assert (w + more) + tail == w + (more + tail);
    var t := Enter(cfg, s, w, more + tail);
    assert w[1..] + (more + tail) == (w[1..] + more) + tail;
    if k == 8 {
      FirstByteDone(t.frame, frame);
      RecentNothing(t.dec, data[..8]);
    }
    assert Aligned(t, frame, k);
    AlignedRun(cfg, t, Ones(0, w), frame, k, w[1..] + more, rest);
  }

  lemma FirstByteDone(got: seq<bv8>, frame: seq<bv8>)
    requires |got| == 1 && frame != [] && BytesBits(got) == BytesBits(frame)[..8]
    ensures got == frame[..1]
  {
    hide ByteBits, BytesBits;
    ByteAt(got, 0);
    ByteAt(frame, 0);
    assert BytesBits(got)[0..8] == BytesBits(got);
    BitsDetermineByte(got[0], frame[0]);
  }

  // A zero stuffed before the eighth bit puts the closing flag out of place.
  lemma ShiftedPosition(frame: seq<bv8>)
    requires 2 <= |frame| && !Clear(frame[0])
    ensures var raw := Stuff(0, BytesBits(frame));
      raw != [] && Calm(0, raw) && Ones(0, raw) < 6 && Position(raw) % 8 == 0
  {
    hide Calm, Ones, Quiet, Stuff, BytesBits, Clear, ByteBits, DataCount;
    var data := BytesBits(frame);
    FirstSeven(frame);
    ClearBits(frame[0]);
    var x := ByteBits(frame[0]);
    assert data[..7] == x[..7];
    assert data[0] == data[..7][0] && data[1] == data[..7][1] && data[2] == data[..7][2];
    assert data[3] == data[..7][3] && data[4] == data[..7][4] && data[5] == data[..7][5];
    var w := ShiftedStart(data);
    var run, more := Ones(0, w), Stuff(Ones(0, w), data[7..]);
    StuffCalm(0, data);
    var raw := Stuff(0, data);
    assert (raw + PARTIAL)[..8] == w && (raw + PARTIAL)[8..] == more + PARTIAL;
    DataCountConcat(run, more, PARTIAL);
    DataCountStuff(run, data[7..]);
    StuffCalm(run, data[7..]);
    PartialCount(Ones(run, more));
  }

  lemma PartialCount(run: nat)
    requires run < 5
    ensures DataCount(run, PARTIAL) == 7
  {
    var q: seq<bool> := [true, true, true, true, true, true];
    assert PARTIAL[1..] == q;
    OnesCount(0, q);
  }

  lemma {:induction false} OnesCount(run: nat, bits: seq<bool>)
    requires false !in bits
    ensures DataCount(run, bits) == |bits|
    decreases |bits|
  {
    if bits != [] { OnesCount(run + 1, bits[1..]); }
  }

  // What comes out for a whole frame whose closing flag starts at `end`.
  function Delivered(cfg: Config, frame: seq<bv8>, start: nat, end: nat): seq<Frame>
    requires frame != []
  {
    if Clear(frame[0]) then Handed(cfg, frame, start, end) else []
  }

  lemma WholeFrame(cfg: Config, s: State, frame: seq<bv8>, rest: seq<bool>)
    requires 2 <= |frame|
    requires Synced(s, 0) && s.nbits == 0 && s.pend == Stuff(0, BytesBits(frame)) + (FLAG + rest)
    ensures var end := Cursor(s) + |Stuff(0, BytesBits(frame))|;
      Resumes(cfg, s, Delivered(cfg, frame, s.frameStart, end), end + 7, rest)
  {
    hide Synced, Stuff, BytesBits, Clear, FLAG, Handed, Resumes, Position;
    if Clear(frame[0]) {
      AlignedReception(cfg, s, frame, rest);
    } else {
      ShiftedPosition(frame);
      var out := Between(cfg, s, Stuff(0, BytesBits(frame)), rest);
    }
  }

  // ---------- A whole stream ----------

  // What may stand between two flags: a stuffed frame, a frame aborted by a
  // seventh one in a row, or bits that leave the next flag out of byte
  // position.
  datatype Sending = Whole(frame: seq<bv8>) | Broken(part: seq<bool>, more: seq<bool>) | Slipped(bits: seq<bool>)

  predicate Proper(x: Sending) {
    match x
    case Whole(frame) => |frame| >= 2
    case Broken(part, more) => |part| >= 8 && Calm(0, part) && Ones(0, part) == 6 && AfterAbort(more)
    case Slipped(bits) => bits != [] && Calm(0, bits) && Ones(0, bits) < 6 && Position(bits) % 8 != 7
  }

  function RawBits(x: Sending): seq<bool> {
    match x
    case Whole(frame) => Stuff(0, BytesBits(frame))
    case Broken(part, more) => part + ([true] + more)
    case Slipped(bits) => bits
  }

  // What comes out for it, its opening flag being the one at `start`.
  function Output(cfg: Config, x: Sending, start: nat, end: nat): seq<Frame>
    requires Proper(x)
  {
    if x.Whole? then Delivered(cfg, x.frame, start, end) else []
  }

  lemma OneSending(cfg: Config, s: State, x: Sending, rest: seq<bool>)
    requires Proper(x) && Synced(s, 0) && s.nbits == 0 && s.pend == RawBits(x) + (FLAG + rest)
    ensures var end := Cursor(s) + |RawBits(x)|;
      Resumes(cfg, s, Output(cfg, x, s.frameStart, end), end + 7, rest)
  {
    hide Synced, Stuff, BytesBits, Calm, Ones, Clear, FLAG, Delivered, Resumes, Position, AfterAbort;
    match x
    case Whole(frame) =>
      WholeFrame(cfg, s, frame, rest);
    case Broken(part, more) =>
      Aborted(cfg, s, part, more, rest);
    case Slipped(bits) =>
      var out := Between(cfg, s, bits, rest);
  }

  // Something sent, and the flags after it. Each of them ends it and opens
  // what comes next.
  datatype Item = Item(what: Sending, flags: nat)

  predicate ProperItems(items: seq<Item>) {
    forall i :: 0 <= i < |items| ==> Proper(items[i].what) && items[i].flags >= 1
  }

  function OnAir(items: seq<Item>, tail: seq<bool>): seq<bool> {
    if items == [] then tail
    else RawBits(items[0].what) + (Flags(items[0].flags) + OnAir(items[1..], tail))
  }

  // All that comes out: `start` is the last bit of the first of the flags
  // before, `at` the first bit after them.
  function Outputs(cfg: Config, items: seq<Item>, start: nat, at: nat): seq<Frame>
    requires ProperItems(items)
    decreases |items|
  {
    if items == [] then [] else
    var end := at + |RawBits(items[0].what)|;
    Output(cfg, items[0].what, start, end) + Outputs(cfg, items[1..], end + 7, end + 8 * items[0].flags)
  }

  lemma LockedSynced(k: nat, rest: seq<bool>)
    ensures Synced(Locked(k, rest), 0) && Locked(k, rest).nbits == 0
  {
    hide RunIs, Recent;
    RunKnown();
    RecentNothing(0, [false]);
  }

  // Every flag opens what follows it, so everything whole is handed over, in
  // order and at its position.
  lemma {:induction false} Stream(cfg: Config, s: State, items: seq<Item>, tail: seq<bool>) returns (t: State)
    requires ProperItems(items) && Synced(s, 0) && s.nbits == 0 && s.pend == OnAir(items, tail)
    ensures WellFormed(s) && WellFormed(t) && Synced(t, 0) && t.nbits == 0 && t.pend == tail
    ensures Drain(cfg, s) == (Outputs(cfg, items, s.frameStart, Cursor(s)) + Drain(cfg, t).0, Drain(cfg, t).1)
    decreases |items|
  {
    hide Synced, Drain, Flags, RawBits, Output, FLAG, Proper, WellFormed;
    SyncedWellFormed(s, 0);
    if items == [] {
      t := s;
      assert [] + Drain(cfg, t).0 == Drain(cfg, t).0;
    } else {
      var x, n, more := items[0].what, items[0].flags, OnAir(items[1..], tail);
      var end := Cursor(s) + |RawBits(x)|;
      MoreFlag(n);
      assert Flags(n) + more == FLAG + (Flags(n - 1) + more);
      OneSending(cfg, s, x, Flags(n - 1) + more);
      var u := Locked(end + 7, Flags(n - 1) + more);
      LockedSynced(end + 7, Flags(n - 1) + more);
      var v := SkipFlags(cfg, u, n - 1, more);
      t := Stream(cfg, v, items[1..], tail);
      var a, b := Output(cfg, x, s.frameStart, end), Outputs(cfg, items[1..], end + 7, end + 8 * n);
      assert a + (b + Drain(cfg, t).0) == (a + b) + Drain(cfg, t).0;
    }
  }

  lemma MoreFlag(n: nat)
    requires n >= 1
    ensures Flags(n) == FLAG + Flags(n - 1)
  {
  }

  lemma FewZeros(cfg: Config, s: State, zeros: nat)
    requires Synced(s, 0) && s.nbits == 0 && zeros < 8 && s.pend == Zeros(zeros)
    ensures Drain(cfg, s).0 == []
  {
    hide Synced, Drain, Calm, Ones;
    ZerosCalm(0, zeros);
    assert Zeros(zeros) + [] == Zeros(zeros);
    var w := SyncBits(cfg, s, 0, Zeros(zeros), []);
    DrainNothing(cfg, w) by { assert WellFormed(w) by { SyncedWellFormed(w, Ones(0, Zeros(zeros))); } }
  }

  lemma SyncedWellFormed(s: State, run: nat)
    requires Synced(s, run)
    ensures WellFormed(s)
  {
  }

  // A fresh decoder, bits without a flag, flags, a stream as above, and a few
  // zeros.
  lemma StreamReception(cfg: Config, lead: seq<bool>, pre: nat, items: seq<Item>, zeros: nat)
    requires FlagFree(0, lead) && Ones(0, lead) != 6 && pre >= 1 && ProperItems(items) && zeros < 8
    ensures Drain(cfg, Extend(Init(), lead + (Flags(pre) + OnAir(items, Zeros(zeros))))).0
         == Outputs(cfg, items, |lead| + 7, |lead| + 8 * pre)
  {
    hide RunIs, Drain, Ones, FlagFree, FLAG, Flags, OnAir, Outputs, ProperItems, Locked, Synced;
    var air := OnAir(items, Zeros(zeros));
    var x := Extend(Init(), lead + (Flags(pre) + air));
    MoreFlag(pre);
    assert x.pend == lead + (FLAG + (Flags(pre - 1) + air));
    RunKnown();
    LockOn(cfg, x, 0, lead, Flags(pre - 1) + air);
    var k := |lead| + 7;
    LockedSynced(k, Flags(pre - 1) + air);
    LockedFields(k, Flags(pre - 1) + air);
    var s := SkipFlags(cfg, Locked(k, Flags(pre - 1) + air), pre - 1, air);
    var t := Stream(cfg, s, items, Zeros(zeros));
    FewZeros(cfg, t, zeros);
    var o := Outputs(cfg, items, k, |lead| + 8 * pre);
    assert o + [] == o;
  }

  lemma LockedFields(k: nat, rest: seq<bool>)
    ensures var s := Locked(k, rest); s.pend == rest && s.nread == s.frameStart == k && |s.kept| == 1
  {
  }

  // ---------- A clean transmission ----------

  // What follows the closing flag of a frame.
  function Ending(flags: nat, zeros: nat): seq<bool> {
    Flags(flags) + Zeros(zeros)
  }

  function Transmission(frame: seq<bv8>, pre: nat, post: nat, zeros: nat): seq<bool> {
    Flags(pre) + (Stuff(0, BytesBits(frame)) + Ending(post, zeros))
  }

  // A clean transmission is read back as exactly its frame, at its position,
  // or not at all: not when the frame reaches the length limit or a zero was
  // stuffed before the eighth bit.
  lemma Reception(cfg: Config, frame: seq<bv8>, pre: nat, post: nat, zeros: nat)
    requires 2 <= |frame| && pre >= 1 && post >= 1 && zeros < 8
    ensures Drain(cfg, Extend(Init(), Transmission(frame, pre, post, zeros))).0 ==
      if Clear(frame[0]) && |frame| < cfg.maxFrameLen
      then FrameSeq(FrameEnd(cfg, frame, 7, 8 * pre + |Stuff(0, BytesBits(frame))|))
      else []
  {
    hide Drain, Extend, Stuff, BytesBits, Clear, FLAG, Flags, FrameEnd, FrameSeq, Zeros;
    var items := [Item(Whole(frame), post)];
    assert items[1..] == [];
    EmptyCalm(0);
    StreamReception(cfg, [], pre, items, zeros);
    var out := Output(cfg, Whole(frame), 7, 8 * pre + |Stuff(0, BytesBits(frame))|);
    assert out + [] == out;
    assert [] + Transmission(frame, pre, post, zeros) == Transmission(frame, pre, post, zeros);
  }

  // ---------- Frames one after the other ----------

  // A stream of frames only, n flags behind each of them.
  function FrameItems(frames: seq<seq<bv8>>, flags: seq<nat>): (r: seq<Item>)
    requires |flags| == |frames|
    ensures |r| == |frames|
    ensures (forall i :: 0 <= i < |frames| ==> |frames[i]| >= 2 && flags[i] >= 1) ==> ProperItems(r)
  {
    seq(|frames|, i requires 0 <= i < |frames| => Item(Whole(frames[i]), flags[i]))
  }

  // Where the first bit of frame i stands.
  function StartOf(frames: seq<seq<bv8>>, flags: seq<nat>, at: nat, i: nat): nat
    requires |flags| == |frames| && i <= |frames|
  {
    if i == 0 then at
    else StartOf(frames, flags, at, i - 1) + |Stuff(0, BytesBits(frames[i - 1]))| + 8 * flags[i - 1]
  }
}
