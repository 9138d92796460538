// What a decoded frame says about the stream it came from, for every stream:
// where its flags are, and how its bytes relate to the bits in between.
module Ax25Soundness {
  import opened WireBits
  import opened Wrappers
  import opened Ax25Machine
  import opened Ax25Register

  // ---------- Reference definitions ----------

  // Bit k is the last bit of a flag whose leading zero may be missing.
  predicate Opening(stream: seq<bool>, k: nat) {
    && 6 <= k < |stream|
    && stream[k - 6..k + 1] == [true, true, true, true, true, true, false]
  }

  // Bit k is the last bit of a complete flag.
  predicate Closing(stream: seq<bool>, k: nat) {
    7 <= k < |stream| && stream[k - 7..k + 1] == FLAG
  }

  predicate AllFlags(bits: seq<bool>) {
    bits == [] || (|bits| >= 8 && bits[|bits| - 8..] == FLAG && AllFlags(bits[..|bits| - 8]))
  }

  // The data bits of a raw bit run. A stuffed zero among the first seven bits
  // is taken for data.
  function Unstuff(raw: seq<bool>): seq<bool> {
    if raw == [] then []
    else
      var front := raw[..|raw| - 1];
      if |raw| >= 8 && EndsStuffed(raw) then Unstuff(front) else Unstuff(front) + [raw[|raw| - 1]]
  }

  // Frame f was read between an opening and a closing flag: data starts at a
  // whole number of flags after the opening one, and the frame's bytes,
  // followed by seven bits of the closing flag, are the unstuffed data.
  ghost predicate Delimited(cfg: Config, stream: seq<bool>, f: Frame, a: nat, bytes: seq<bv8>) {
    && f.sampleCnt > 0
    && var end := f.sampleStart + f.sampleCnt;
    && Opening(stream, f.sampleStart) && Closing(stream, end)
    && f.sampleStart < a <= end && AllFlags(stream[f.sampleStart + 1..a])
    && |Unstuff(stream[a..end])| == 8 * |bytes| + 7
    && Unstuff(stream[a..end])[..8 * |bytes|] == BytesBits(bytes)
    && FrameEnd(cfg, bytes, f.sampleStart, f.sampleCnt) == Some(f)
  }

  ghost predicate Sound(cfg: Config, stream: seq<bool>, f: Frame) {
    exists a, bytes :: Delimited(cfg, stream, f, a, bytes)
  }

  // Every frame starts no earlier than the closing flag of the one before.
  ghost predicate InOrder(from: nat, frames: seq<Frame>)
    decreases |frames|
  {
    frames == [] ||
    (from <= frames[0].sampleStart && frames[0].sampleCnt > 0
     && InOrder(frames[0].sampleStart + frames[0].sampleCnt, frames[1..]))
  }

  // ---------- The invariant ----------

  // The set bits of the register are ones of the stream after `base`.
  predicate OnesSeen(reg: bv8, base: nat, past: seq<bool>) {
    forall i :: 0 <= i < 8 && ByteBits(reg)[i] ==> base + 7 - i < |past| && past[|past| - 8 + i]
  }

  // The last closing flag ended at `last` (0: none yet).
  predicate Base(stream: seq<bool>, last: nat, base: nat) {
    (last == 0 && base == 0) || (base + 7 == last && Closing(stream, last))
  }

  // The buffer holds exactly the bits from the current position on.
  predicate Holds(s: State, stream: seq<bool>) {
    s.nread <= |stream| && stream[s.nread..] == s.kept + s.pend
  }

  // `a` is where the data of the current frame starts.
  ghost predicate Inv(s: State, stream: seq<bool>, last: nat, base: nat, a: nat) {
    && WellFormed(s) && Base(stream, last, base)
    && Holds(s, stream)
    && var past := stream[..Cursor(s)];
    match s.mode
    case NoSync => base <= s.nread && OnesSeen(s.reg, base, past)
    case InSync =>
      && s.nread == s.frameStart && last <= s.frameStart
      && Opening(stream, s.frameStart)
      && Recent(s.reg, s.nbits, past) && Recent(s.dec, s.nbits, past)
      && AllFlags(stream[s.frameStart + 1..Cursor(s) - s.nbits])
    case Decoding =>
      && last <= s.frameStart < a && a + 8 <= Cursor(s) && a < s.nread
      && Opening(stream, s.frameStart) && AllFlags(stream[s.frameStart + 1..a])
      && Recent(s.reg, 8, past)
      && var data := Unstuff(stream[a..Cursor(s)]);
      && |data| == 8 * |s.frame| + s.nbits
      && data[..8 * |s.frame|] == BytesBits(s.frame)
      && Recent(s.dec, s.nbits, data)
  }

  lemma NextBit(s: State, stream: seq<bool>)
    requires s.pend != [] && Holds(s, stream)
    ensures var c := Cursor(s);
      && c < |stream| && stream[c] == s.pend[0]
      && stream[..c + 1] == stream[..c] + [s.pend[0]]
      && stream[s.nread..] == (s.kept + [s.pend[0]]) + s.pend[1..]
  {
    var c := Cursor(s);
    assert stream[s.nread..][|s.kept|] == s.pend[0];
    assert s.kept + s.pend == (s.kept + [s.pend[0]]) + s.pend[1..];
  }

  // Dropping all but n of the bits looked at.
  lemma Rebuffer(stream: seq<bool>, nread: nat, seen: seq<bool>, rest: seq<bool>, n: nat)
    requires nread <= |stream| && stream[nread..] == seen + rest && n <= |seen|
    ensures nread + |seen| - n <= |stream|
    ensures stream[nread + |seen| - n..] == seen[|seen| - n..] + rest
  {
    var m := |seen| - n;
    assert |stream[nread..]| == |seen| + |rest|;
    assert stream[nread..][m..] == stream[nread + m..];
    assert (seen + rest)[m..] == seen[m..] + rest;
  }

  // ---------- Looking for a flag ----------

  lemma OnesNone(base: nat, past: seq<bool>)
    ensures OnesSeen(0, base, past)
  {
    hide ByteBits;
    ZeroBits();
  }

  lemma OnesShift(reg: bv8, base: nat, past: seq<bool>, b: bool)
    requires OnesSeen(reg, base, past) && base <= |past|
    ensures OnesSeen(ShiftIn(reg, b), base, past + [b])
  {
    hide ByteBits, ShiftIn;
    ShiftInBits(reg, b);
    var x, r, p := ByteBits(ShiftIn(reg, b)), ByteBits(reg), past + [b];
    forall i | 0 <= i < 8 && x[i] ensures base + 7 - i < |p| && p[|p| - 8 + i] {
      if i < 7 { assert r[i + 1]; }
    }
  }

  // Six ones and a zero have been seen, and not before the last frame's end.
  lemma FlagSeen(reg: bv8, stream: seq<bool>, last: nat, base: nat, c: nat)
    requires Base(stream, last, base) && base <= c < |stream| && OnesSeen(reg, base, stream[..c])
    requires ShiftIn(reg, stream[c]) == SYNC_FLAG
    ensures Opening(stream, c) && last <= c
  {
    hide ByteBits, ShiftIn;
    ShiftInBits(reg, stream[c]);
    FlagBits();
    var x, r, p := ByteBits(SYNC_FLAG), ByteBits(reg), stream[..c];
    assert x[7] == stream[c];
    assert x[1] && x[2] && x[3] && x[4] && x[5] && x[6];
    assert r[2] && r[3] && r[4] && r[5] && r[6] && r[7];
    assert p[c - 6] && p[c - 5] && p[c - 4] && p[c - 3] && p[c - 2] && p[c - 1];
    assert stream[c - 6..c + 1] == [true, true, true, true, true, true, false];
    if last != 0 {
      assert stream[last - 7..last + 1][6] == FLAG[6];
    }
  }

  lemma NoSyncInv(cfg: Config, s: State, stream: seq<bool>, last: nat, base: nat, a: nat)
    requires Inv(s, stream, last, base, a) && s.mode == NoSync && s.pend != []
    ensures Inv(StepNoSync(s).next, stream, last, base, a)
  {
    hide ShiftIn, OnesSeen, Opening, Base, Recent, Unstuff;
    var c, t := Cursor(s), StepNoSync(s).next;
    NextBit(s, stream);
    if ShiftIn(s.reg, s.pend[0]) == SYNC_FLAG {
      FlagSeen(s.reg, stream, last, base, c);
      RecentNothing(0, stream[..Cursor(t)]);
      assert stream[c + 1..Cursor(t)] == [];
    } else {
      OnesShift(s.reg, base, stream[..c], s.pend[0]);
      Rebuffer(stream, s.nread, [s.pend[0]], s.pend[1..], 0);
      assert [] + s.pend[1..] == s.pend[1..];
    }
  }

  // ---------- Skipping flags ----------

  lemma {:induction false} UnstuffShort(raw: seq<bool>)
    requires |raw| < 8
    ensures Unstuff(raw) == raw
  {
    if raw != [] {
      UnstuffShort(raw[..|raw| - 1]);
    }
  }

  lemma UnstuffStep(raw: seq<bool>, b: bool)
    ensures Unstuff(raw + [b]) ==
      if |raw| >= 7 && EndsStuffed(raw + [b]) then Unstuff(raw) else Unstuff(raw) + [b]
  {
    assert (raw + [b])[..|raw|] == raw;
  }

  // The first eight bits after the flags.
  lemma FirstByte(dec: bv8, stream: seq<bool>, a: nat)
    requires a + 8 <= |stream| && Recent(dec, 8, stream[..a + 8])
    ensures var data := Unstuff(stream[a..a + 8]);
      if EndsStuffed(stream[..a + 8]) then |data| == 7 && Recent(Drop(dec), 7, data)
      else |data| == 8 && data == BytesBits([dec])
  {
    hide ByteBits, Drop, EndsStuffed;
    var raw, w := stream[a..a + 7], stream[a..a + 8];
    assert stream[..a + 8][a..] == w;
    assert w == raw + [stream[a + 7]];
    UnstuffShort(raw);
    UnstuffStep(raw, stream[a + 7]);
    EndsSame(stream[..a + 8], a);
    assert ByteBits(dec)[0..] == ByteBits(dec);
    if EndsStuffed(w) {
      DropBits(dec);
      assert ByteBits(Drop(dec))[1..] == w[..7];
    } else {
      assert BytesBits([dec]) == ByteBits(dec) by {
        assert [dec][..0] == [];
      }
    }
  }

  // Whether a run ends in a stuffed zero depends on its last six bits.
  lemma EndsSame(past: seq<bool>, a: nat)
    requires a + 8 <= |past|
    ensures EndsStuffed(past) == EndsStuffed(past[a..])
  {
  }

  lemma MoreFlags(stream: seq<bool>, f: nat, c: nat)
    requires f + 8 <= c <= |stream| && AllFlags(stream[f..c - 8]) && stream[..c][c - 8..] == FLAG
    ensures AllFlags(stream[f..c])
  {
    var w := stream[f..c];
    assert w[..|w| - 8] == stream[f..c - 8];
    assert w[|w| - 8..] == stream[..c][c - 8..];
  }

  lemma InSyncBit(s: State, stream: seq<bool>, last: nat, base: nat, a: nat)
    requires Inv(s, stream, last, base, a) && s.mode == InSync && s.pend != []
    requires s.nbits < 7
    ensures Inv(StepInSync(s).next, stream, last, base, a)
  {
    hide ShiftIn, Opening, Base, Recent, OnesSeen, AllFlags;
    NextBit(s, stream);
    RecentShift(s.reg, s.nbits, stream[..Cursor(s)], s.pend[0]);
    RecentShift(s.dec, s.nbits, stream[..Cursor(s)], s.pend[0]);
  }

  lemma InSyncFlag(s: State, stream: seq<bool>, last: nat, base: nat, a: nat)
    requires Inv(s, stream, last, base, a) && s.mode == InSync && s.pend != []
    requires s.nbits == 7 && ShiftIn(s.reg, s.pend[0]) == SYNC_FLAG
    ensures Inv(StepInSync(s).next, stream, last, base, a)
  {
    hide ShiftIn, Opening, Base, Recent, OnesSeen, AllFlags, Stuffed, EndsStuffed;
    var c := Cursor(s);
    NextBit(s, stream);
    RecentShift(s.reg, 7, stream[..c], s.pend[0]);
    var reg, dec := ShiftIn(s.reg, s.pend[0]), ShiftIn(s.dec, s.pend[0]);
    RecentAll(reg, stream[..c + 1]);
    MoreFlags(stream, s.frameStart + 1, c + 1);
    RecentNothing(reg, stream[..c + 1]);
    RecentNothing(dec, stream[..c + 1]);
  }

  lemma EnterData(s: State, stream: seq<bool>, c: nat, reg: bv8, dec: bv8)
    requires 7 <= c < |stream| && Recent(reg, 8, stream[..c + 1]) && Recent(dec, 8, stream[..c + 1])
    requires s.nread <= |stream| && |s.kept| >= 7 && c == Cursor(s)
    requires s.pend != [] && stream[s.nread..] == (s.kept + [s.pend[0]]) + s.pend[1..]
    ensures var t := EnterDecoding(s, s.kept + [s.pend[0]], s.pend[1..], reg, dec);
      && t.mode == Decoding && t.frameStart == s.frameStart && Cursor(t) == c + 1 && c - 7 < t.nread <= |stream|
      && stream[t.nread..] == t.kept + t.pend
      && Recent(t.reg, 8, stream[..c + 1])
      && var data := Unstuff(stream[c - 7..c + 1]);
      && |data| == 8 * |t.frame| + t.nbits
      && data[..8 * |t.frame|] == BytesBits(t.frame)
      && Recent(t.dec, t.nbits, data)
  {
    hide Drop, Recent, Unstuff, Stuffed, EndsStuffed, BytesBits;
    Rebuffer(stream, s.nread, s.kept + [s.pend[0]], s.pend[1..], 7);
    RecentAll(reg, stream[..c + 1]);
    FirstByte(dec, stream, c - 7);
    var data := Unstuff(stream[c - 7..c + 1]);
    RecentNothing(dec, data);
    EmptyBytes(data);
    assert data[..|data|] == data;
  }

  lemma InSyncData(s: State, stream: seq<bool>, last: nat, base: nat, a: nat)
    requires Inv(s, stream, last, base, a) && s.mode == InSync && s.pend != []
    requires s.nbits == 7 && ShiftIn(s.reg, s.pend[0]) != SYNC_FLAG
    ensures Inv(StepInSync(s).next, stream, last, base, Cursor(s) - 7)
  {
    hide ShiftIn, Opening, Base, Recent, OnesSeen, AllFlags, EnterDecoding, Unstuff;
    var c := Cursor(s);
    NextBit(s, stream);
    RecentShift(s.reg, 7, stream[..c], s.pend[0]);
    RecentShift(s.dec, 7, stream[..c], s.pend[0]);
    EnterData(s, stream, c, ShiftIn(s.reg, s.pend[0]), ShiftIn(s.dec, s.pend[0]));
  }

  lemma EmptyBytes(data: seq<bool>)
    ensures data[..0] == BytesBits([])
  {
  }

  // ---------- Collecting a frame ----------

  lemma RewindInv(s: State, stream: seq<bool>, last: nat, base: nat, a: nat, n: nat, l: nat, b: nat)
    requires Inv(s, stream, last, base, a) && s.mode == Decoding && s.pend != []
    requires n <= |s.kept| + 1 && Base(stream, l, b) && b + n <= Cursor(s) + 1
    ensures Inv(Rewind(s, s.kept + [s.pend[0]], s.pend[1..], n), stream, l, b, a)
  {
    hide Opening, Recent, AllFlags, Unstuff, OnesSeen, Base;
    NextBit(s, stream);
    var t := Rewind(s, s.kept + [s.pend[0]], s.pend[1..], n);
    Rebuffer(stream, s.nread, s.kept + [s.pend[0]], s.pend[1..], n);
    assert [] + t.pend == t.pend;
    OnesNone(b, stream[..Cursor(t)]);
  }

  // The raw bits of the frame so far, and one more.
  lemma NextRaw(stream: seq<bool>, a: nat, c: nat)
    requires a <= c < |stream|
    ensures stream[a..c + 1] == stream[a..c] + [stream[c]]
    ensures stream[..c + 1][a..] == stream[a..c + 1]
  {
  }

  lemma StuffedInv(cfg: Config, s: State, stream: seq<bool>, last: nat, base: nat, a: nat)
    requires Inv(s, stream, last, base, a) && s.mode == Decoding && s.pend != []
    requires var reg := ShiftIn(s.reg, s.pend[0]); reg != SYNC_FLAG && Stuffed(reg)
    ensures Inv(StepDecoding(cfg, s).next, stream, last, base, a)
  {
    hide ShiftIn, Drop, Opening, Base, Recent, OnesSeen, AllFlags, Unstuff, Stuffed, EndsStuffed, BytesBits;
    var c, reg := Cursor(s), ShiftIn(s.reg, s.pend[0]);
    NextBit(s, stream);
    NextRaw(stream, a, c);
    RecentShift(s.reg, 8, stream[..c], s.pend[0]);
    RecentAll(reg, stream[..c + 1]);
    EndsSame(stream[..c + 1], a);
    UnstuffStep(stream[a..c], s.pend[0]);
    StuffedIsZero(s.reg, s.pend[0]);
    RecentDrop(s.dec, s.nbits, Unstuff(stream[a..c]));
  }

  lemma DataBit(s: State, stream: seq<bool>, last: nat, base: nat, a: nat)
    requires Inv(s, stream, last, base, a) && s.mode == Decoding && s.pend != []
    requires !Stuffed(ShiftIn(s.reg, s.pend[0]))
    ensures var c, data := Cursor(s), Unstuff(stream[a..Cursor(s)]);
      && Recent(ShiftIn(s.reg, s.pend[0]), 8, stream[..c + 1])
      && Unstuff(stream[a..c + 1]) == data + [s.pend[0]]
      && Recent(ShiftIn(s.dec, s.pend[0]), s.nbits + 1, data + [s.pend[0]])
  {
    hide ShiftIn, Opening, Base, Recent, OnesSeen, AllFlags, Unstuff, Stuffed, EndsStuffed, BytesBits;
    var c, reg := Cursor(s), ShiftIn(s.reg, s.pend[0]);
    NextBit(s, stream);
    NextRaw(stream, a, c);
    RecentShift(s.reg, 8, stream[..c], s.pend[0]);
    RecentAll(reg, stream[..c + 1]);
    EndsSame(stream[..c + 1], a);
    UnstuffStep(stream[a..c], s.pend[0]);
    RecentShift(s.dec, s.nbits, Unstuff(stream[a..c]), s.pend[0]);
  }

  lemma BitInv(cfg: Config, s: State, stream: seq<bool>, last: nat, base: nat, a: nat)
    requires Inv(s, stream, last, base, a) && s.mode == Decoding && s.pend != []
    requires var reg := ShiftIn(s.reg, s.pend[0]); reg != SYNC_FLAG && !Stuffed(reg) && !Abort(reg)
    requires s.nbits < 7
    ensures Inv(StepDecoding(cfg, s).next, stream, last, base, a)
  {
    hide ShiftIn, Opening, Base, Recent, OnesSeen, AllFlags, Unstuff, Stuffed, Abort, BytesBits;
    NextBit(s, stream);
    DataBit(s, stream, last, base, a);
    var data := Unstuff(stream[a..Cursor(s)]);
    assert (data + [s.pend[0]])[..8 * |s.frame|] == data[..8 * |s.frame|];
  }

  lemma ByteDone(frame: seq<bv8>, dec: bv8, data: seq<bool>)
    requires |data| == 8 * |frame| + 8 && data[..8 * |frame|] == BytesBits(frame) && Recent(dec, 8, data)
    ensures data == BytesBits(frame + [dec])
  {
    hide ByteBits;
    assert (frame + [dec])[..|frame|] == frame;
    assert ByteBits(dec)[0..] == ByteBits(dec);
    assert data == data[..8 * |frame|] + data[|data| - 8..];
  }

  lemma ByteInv(cfg: Config, s: State, stream: seq<bool>, last: nat, base: nat, a: nat)
    requires Inv(s, stream, last, base, a) && s.mode == Decoding && s.pend != []
    requires var reg := ShiftIn(s.reg, s.pend[0]); reg != SYNC_FLAG && !Stuffed(reg) && !Abort(reg)
    requires s.nbits == 7 && |s.frame| + 1 < cfg.maxFrameLen
    ensures Inv(StepDecoding(cfg, s).next, stream, last, base, a)
  {
    hide ShiftIn, Opening, Base, Recent, OnesSeen, AllFlags, Unstuff, Stuffed, Abort, BytesBits;
    NextBit(s, stream);
    DataBit(s, stream, last, base, a);
    var data, dec := Unstuff(stream[a..Cursor(s)]) + [s.pend[0]], ShiftIn(s.dec, s.pend[0]);
    assert data[..8 * |s.frame|] == data[..|data| - 1][..8 * |s.frame|];
    ByteDone(s.frame, dec, data);
    RecentNothing(dec, data);
    assert data[..|data|] == data;
  }

  lemma BaseAt(stream: seq<bool>, c: nat)
    requires Closing(stream, c)
    ensures Base(stream, c, c - 7)
  {
  }

  lemma FlagAt(s: State, stream: seq<bool>, c: nat)
    requires s.pend != [] && Holds(s, stream) && c == Cursor(s) && Recent(s.reg, 8, stream[..c])
    requires ShiftIn(s.reg, s.pend[0]) == SYNC_FLAG
    ensures Closing(stream, c)
  {
    hide ShiftIn, Recent;
    NextBit(s, stream);
    RecentShift(s.reg, 8, stream[..c], s.pend[0]);
    RecentAll(SYNC_FLAG, stream[..c + 1]);
    RecentLength(s.reg, stream[..c]);
    assert stream[..c + 1][c - 7..] == stream[c - 7..c + 1];
  }

  lemma RecentLength(reg: bv8, past: seq<bool>)
    requires Recent(reg, 8, past)
    ensures |past| >= 8
  {
  }

  // Bit c completes a flag in byte position.
  lemma ClosingInv(cfg: Config, s: State, stream: seq<bool>, last: nat, base: nat, a: nat)
    requires Inv(s, stream, last, base, a) && s.mode == Decoding && s.pend != []
    requires ShiftIn(s.reg, s.pend[0]) == SYNC_FLAG && s.nbits == 7
    ensures var e := StepDecoding(cfg, s);
      && e.Ended? && Inv(e.next, stream, Cursor(s), Cursor(s) - 7, a)
      && (e.frame.Some? ==>
        var f := e.frame.value;
        && last <= f.sampleStart && f.sampleCnt > 0 && f.sampleStart + f.sampleCnt == Cursor(s)
        && Sound(cfg, stream, f))
  {
    hide ShiftIn, Opening, Closing, Recent, OnesSeen, AllFlags, Unstuff, BytesBits, Stuffed, Rewind, Base, FrameEnd,
      Holds;
    var c, e := Cursor(s), StepDecoding(cfg, s);
    FlagAt(s, stream, c);
    BaseAt(stream, c);
    RewindInv(s, stream, last, base, a, 8, c, c - 7);
    if e.frame.Some? {
      FrameEndFields(cfg, s.frame, s.frameStart, c - s.frameStart);
      assert Delimited(cfg, stream, e.frame.value, a, s.frame);
    }
  }

  lemma FrameEndFields(cfg: Config, frame: seq<bv8>, start: nat, cnt: int)
    ensures var f := FrameEnd(cfg, frame, start, cnt);
      f.Some? ==> f.value.sampleStart == start && f.value.sampleCnt == cnt
  {
  }

  // ---------- Whole runs ----------

  lemma DecodingInv(cfg: Config, s: State, stream: seq<bool>, last: nat, base: nat, a: nat)
    requires Inv(s, stream, last, base, a) && s.mode == Decoding && s.pend != []
    requires StepDecoding(cfg, s).Continue?
    ensures Inv(StepDecoding(cfg, s).next, stream, last, base, a)
  {
    hide ShiftIn, Opening, Recent, OnesSeen, AllFlags, Unstuff, BytesBits, Stuffed, Abort, Rewind, Base;
    var reg := ShiftIn(s.reg, s.pend[0]);
    BaseBound(s, stream, last, base, a);
    if reg == SYNC_FLAG {
      RewindInv(s, stream, last, base, a, 8, last, base);
    } else if Stuffed(reg) {
      StuffedInv(cfg, s, stream, last, base, a);
    } else if Abort(reg) {
      RewindInv(s, stream, last, base, a, 8, last, base);
    } else if s.nbits < 7 {
      BitInv(cfg, s, stream, last, base, a);
    } else if |s.frame| + 1 >= cfg.maxFrameLen {
      RewindInv(s, stream, last, base, a, |s.kept| + 1, last, base);
    } else {
      ByteInv(cfg, s, stream, last, base, a);
    }
  }

  lemma BaseBound(s: State, stream: seq<bool>, last: nat, base: nat, a: nat)
    requires Inv(s, stream, last, base, a) && s.mode == Decoding
    ensures base <= s.nread && |s.kept| >= 7
  {
    hide Opening, Recent, OnesSeen, AllFlags, Unstuff, BytesBits, Closing;
  }

  lemma StepInv(cfg: Config, s: State, stream: seq<bool>, last: nat, base: nat, a: nat) returns (a': nat)
    requires Inv(s, stream, last, base, a) && s.pend != []
    ensures var e := Step(cfg, s);
      && (e.Continue? ==> Inv(e.next, stream, last, base, a'))
      && (e.Ended? ==>
        && last <= Cursor(s) && Cursor(s) >= 7 && Inv(e.next, stream, Cursor(s), Cursor(s) - 7, a')
        && (e.frame.Some? ==>
          var f := e.frame.value;
          && last <= f.sampleStart && f.sampleCnt > 0 && f.sampleStart + f.sampleCnt == Cursor(s)
          && Sound(cfg, stream, f)))
  {
    hide StepNoSync, StepInSync, StepDecoding, Inv, Sound;
    InvMode(s, stream, last, base, a);
    a' := a;
    match s.mode
    case NoSync => NoSyncInv(cfg, s, stream, last, base, a);
    case InSync =>
      if s.nbits < 7 {
        InSyncBit(s, stream, last, base, a);
      } else if ShiftIn(s.reg, s.pend[0]) == SYNC_FLAG {
        InSyncFlag(s, stream, last, base, a);
      } else {
        a' := Cursor(s) - 7;
        InSyncData(s, stream, last, base, a);
      }
    case Decoding =>
      if StepDecoding(cfg, s).Continue? {
        DecodingInv(cfg, s, stream, last, base, a);
      } else {
        EndedAt(cfg, s);
        ClosingInv(cfg, s, stream, last, base, a);
      }
  }

  lemma InvMode(s: State, stream: seq<bool>, last: nat, base: nat, a: nat)
    requires Inv(s, stream, last, base, a)
    ensures WellFormed(s)
    ensures s.mode == InSync ==> Cursor(s) >= 7
    ensures s.mode == Decoding ==> last <= Cursor(s) && Cursor(s) >= 7
  {
    hide Recent, OnesSeen, AllFlags, Unstuff, BytesBits, Closing;
  }

  lemma EndedAt(cfg: Config, s: State)
    requires WellFormed(s) && s.mode == Decoding && s.pend != [] && StepDecoding(cfg, s).Ended?
    ensures ShiftIn(s.reg, s.pend[0]) == SYNC_FLAG && s.nbits == 7
  {
    hide ShiftIn, Stuffed, Abort, Rewind, FrameEnd;
  }

  lemma {:induction false} Later(early: nat, late: nat, frames: seq<Frame>)
    requires early <= late && InOrder(late, frames)
    ensures InOrder(early, frames)
  {
  }

  lemma {:induction false} DrainSound(cfg: Config, s: State, stream: seq<bool>, last: nat, base: nat, a: nat)
    returns (l: nat, b: nat, a': nat)
    requires Inv(s, stream, last, base, a)
    ensures var d := Drain(cfg, s);
      && (forall f :: f in d.0 ==> Sound(cfg, stream, f))
      && InOrder(last, d.0) && Inv(d.1, stream, l, b, a')
    decreases Buffered(s), Rank(s.mode), |s.pend|
  {
    hide Step, Inv, Sound, WellFormed, InOrder;
    InvMode(s, stream, last, base, a);
    if s.pend == [] {
      l, b, a' := last, base, a;
      NoFrames(last);
    } else {
      StepTurn(cfg, s);
      var e := Step(cfg, s);
      var a1 := StepInv(cfg, s, stream, last, base, a);
      var c, b1 := last, base;
      if e.Ended? { c, b1 := Cursor(s), Cursor(s) - 7; }
      l, b, a' := DrainSound(cfg, e.next, stream, c, b1, a1);
      var rest := Drain(cfg, e.next).0;
      if e.Ended? {
        if e.frame.Some? {
          assert [e.frame.value] + rest == FrameSeq(e.frame) + rest;
          OneMore(last, e.frame.value, rest);
        } else {
          assert [] + rest == rest;
          Later(last, c, rest);
        }
      }
    }
  }

  lemma NoFrames(from: nat)
    ensures InOrder(from, [])
  {
  }

  lemma OneMore(from: nat, f: Frame, rest: seq<Frame>)
    requires from <= f.sampleStart && f.sampleCnt > 0 && InOrder(f.sampleStart + f.sampleCnt, rest)
    ensures InOrder(from, [f] + rest)
  {
    assert ([f] + rest)[1..] == rest;
  }

  lemma InitInv(stream: seq<bool>)
    ensures Inv(Extend(Init(), stream), stream, 0, 0, 0)
  {
    hide OnesSeen;
    OnesNone(0, []);
    assert [] + stream == stream;
  }

  lemma {:induction false} OrderPrefix(from: nat, a: seq<Frame>, b: seq<Frame>)
    requires InOrder(from, a + b)
    ensures InOrder(from, a)
    decreases |a|
  {
    if a != [] {
      assert (a + b)[0] == a[0] && (a + b)[1..] == a[1..] + b;
      OrderPrefix(a[0].sampleStart + a[0].sampleCnt, a[1..], b);
    }
  }

  // ---------- Accounting ----------

  lemma NoSyncHolds(s: State, stream: seq<bool>)
    requires WellFormed(s) && s.mode == NoSync && s.pend != [] && Holds(s, stream)
    ensures Holds(StepNoSync(s).next, stream)
  {
    hide ShiftIn;
    NextBit(s, stream);
    Rebuffer(stream, s.nread, [s.pend[0]], s.pend[1..], 0);
    assert [] + s.pend[1..] == s.pend[1..];
  }

  lemma InSyncHolds(s: State, stream: seq<bool>)
    requires WellFormed(s) && s.mode == InSync && s.pend != [] && Holds(s, stream)
    ensures Holds(StepInSync(s).next, stream)
  {
    hide ShiftIn, Stuffed, Drop;
    NextBit(s, stream);
    if s.nbits == 7 {
      Rebuffer(stream, s.nread, s.kept + [s.pend[0]], s.pend[1..], 7);
    }
  }

  lemma RewindHolds(s: State, stream: seq<bool>, seen: seq<bool>, rest: seq<bool>, n: nat)
    requires s.nread <= |stream| && stream[s.nread..] == seen + rest && n <= |seen|
    ensures Holds(Rewind(s, seen, rest, n), stream)
  {
    Rebuffer(stream, s.nread, seen, rest, n);
    var t := Rewind(s, seen, rest, n);
    assert [] + t.pend == t.pend;
  }

  lemma DecodingHolds(cfg: Config, s: State, stream: seq<bool>)
    requires WellFormed(s) && s.mode == Decoding && s.pend != [] && Holds(s, stream)
    ensures Holds(StepDecoding(cfg, s).next, stream)
  {
    hide ShiftIn, Stuffed, Abort, FrameEnd, Drop, Rewind;
    NextBit(s, stream);
    var seen, rest := s.kept + [s.pend[0]], s.pend[1..];
    RewindHolds(s, stream, seen, rest, 8);
    RewindHolds(s, stream, seen, rest, |seen|);
  }

  lemma StepHolds(cfg: Config, s: State, stream: seq<bool>)
    requires WellFormed(s) && s.pend != [] && Holds(s, stream)
    ensures Holds(Step(cfg, s).next, stream)
  {
    hide StepNoSync, StepInSync, StepDecoding, Holds, WellFormed;
    match s.mode
    case NoSync => NoSyncHolds(s, stream);
    case InSync => InSyncHolds(s, stream);
    case Decoding => DecodingHolds(cfg, s, stream);
  }

  lemma {:induction false} CallHolds(cfg: Config, s: State, stream: seq<bool>)
    requires WellFormed(s) && Holds(s, stream)
    ensures Holds(Call(cfg, s).next, stream)
    decreases Buffered(s), Rank(s.mode), |s.pend|
  {
    hide Step, WellFormed, Holds;
    if s.pend != [] {
      StepTurn(cfg, s);
      StepHolds(cfg, s, stream);
      if Step(cfg, s).Continue? { CallHolds(cfg, Step(cfg, s).next, stream); }
    }
  }

  lemma {:induction false} SessionHolds(cfg: Config, s: State, chunks: seq<seq<bool>>, before: seq<bool>)
    requires WellFormed(s) && Holds(s, before)
    ensures Holds(Session(cfg, s, chunks).1, before + Joined(chunks))
    decreases |chunks|
  {
    hide Step, WellFormed, Call;
    if chunks == [] {
      assert before + [] == before;
    } else {
      var x, now := Extend(s, chunks[0]), before + chunks[0];
      assert now[s.nread..] == before[s.nread..] + chunks[0];
      assert s.kept + (s.pend + chunks[0]) == (s.kept + s.pend) + chunks[0];
      CallHolds(cfg, x, now);
      SessionHolds(cfg, Call(cfg, x).next, chunks[1..], now);
      assert now + Joined(chunks[1..]) == before + Joined(chunks);
    }
  }

  // Whatever the stream and however it is cut into calls, every frame handed
  // out sits between two flags at the reported positions, its bytes are the
  // unstuffed bits in between, frames do not overlap, and the position and
  // the buffer account for every bit received.
  lemma SessionSound(cfg: Config, chunks: seq<seq<bool>>)
    ensures var r := Session(cfg, Init(), chunks); var stream := Joined(chunks);
      && (forall f :: f in r.0 ==> Sound(cfg, stream, f))
      && InOrder(0, r.0)
      && Holds(r.1, stream)
  {
    hide Step, Inv, Sound, WellFormed, InOrder, Session, Drain, Extend;
    var stream := Joined(chunks);
    InitInv(stream);
    var _, _, _ := DrainSound(cfg, Extend(Init(), stream), stream, 0, 0, 0);
    SessionThenDrain(cfg, Init(), chunks);
    var r := Session(cfg, Init(), chunks);
    var d := Drain(cfg, r.1);
    forall f | f in r.0 ensures Sound(cfg, stream, f) {
      assert f in r.0 + d.0;
    }
    OrderPrefix(0, r.0, d.0);
    assert Holds(Init(), []);
    SessionHolds(cfg, Init(), chunks, []);
    assert [] + stream == stream;
  }
}
