// The line code of the AX.25 pair: a zero flips the level, a one keeps it.
module Nrzi {
  import opened BitPacking

  function Level(level: bool, b: bool): bool { if b then level else !level }

  function Encode(level: bool, bits: seq<bool>): (r: seq<bool>)
    ensures |r| == |bits|
    decreases |bits|
  {
    if bits == [] then [] else
    var next := Level(level, bits[0]);
    [next] + Encode(next, bits[1..])
  }

  // The level changes before bit i exactly when the bit is a zero.
  lemma {:induction false} Transition(level: bool, bits: seq<bool>, i: nat)
    requires i < |bits|
    ensures var line := Encode(level, bits);
      line[i] == (if i == 0 then level else line[i - 1]) <==> bits[i]
    decreases |bits|
  {
    var next := Level(level, bits[0]);
    assert Encode(level, bits)[1..] == Encode(next, bits[1..]);
    if i > 0 {
      Transition(next, bits[1..], i - 1);
      var line, rest := Encode(level, bits), Encode(next, bits[1..]);
      assert line[i] == rest[i - 1] && line[i - 1] == if i == 1 then next else rest[i - 2];
    }
  }

  function Decode(level: bool, line: seq<bool>): (r: seq<bool>)
    ensures |r| == |line|
    decreases |line|
  {
    if line == [] then [] else [line[0] == level] + Decode(line[0], line[1..])
  }

  lemma {:induction false} RoundTrip(level: bool, bits: seq<bool>)
    ensures Decode(level, Encode(level, bits)) == bits
    decreases |bits|
  {
    if bits != [] {
      var next := Level(level, bits[0]);
      assert Encode(level, bits)[1..] == Encode(next, bits[1..]);
      RoundTrip(next, bits[1..]);
    }
  }

  function Last(level: bool, line: seq<bool>): bool {
    if line == [] then level else line[|line| - 1]
  }

  lemma {:induction false} EncodeConcat(level: bool, a: seq<bool>, b: seq<bool>)
    ensures Encode(level, a + b) == Encode(level, a) + Encode(Last(level, Encode(level, a)), b)
    decreases |a|
  {
    if a == [] {
      assert a + b == b;
      assert [] + Encode(level, b) == Encode(level, b);
    } else {
      var next := Level(level, a[0]);
      assert (a + b)[1..] == a[1..] + b;
      EncodeConcat(next, a[1..], b);
      var tail := Encode(next, a[1..]);
      assert Last(level, [next] + tail) == Last(next, tail);
      assert [next] + (tail + Encode(Last(next, tail), b)) == ([next] + tail) + Encode(Last(next, tail), b);
    }
  }

  lemma {:induction false} DecodeConcat(level: bool, a: seq<bool>, b: seq<bool>)
    ensures Decode(level, a + b) == Decode(level, a) + Decode(Last(level, a), b)
    decreases |a|
  {
    if a == [] {
      assert a + b == b;
      assert [] + Decode(level, b) == Decode(level, b);
    } else {
      assert (a + b)[1..] == a[1..] + b;
      DecodeConcat(a[0], a[1..], b);
      assert Last(level, a) == Last(a[0], a[1..]);
      var x := Decode(a[0], a[1..]);
      var y := Decode(Last(level, a), b);
      assert [a[0] == level] + (x + y) == ([a[0] == level] + x) + y;
    }
  }

  // ---------- One byte of the encoder's output loop ----------

  function LevelBit(level: bool): bv8 { if level then 1 else 0 }

  function Invert(x: bv8): bv8 { !x }

  // prev = ((inv >> k) & 1) ^ prev
  function NextLevel(inv: bv8, k: nat, prev: bv8): bv8
    requires k < 8
  {
    ((inv >> k) & 1) ^ prev
  }

  function Join(p7: bv8, p6: bv8, p5: bv8, p4: bv8, p3: bv8, p2: bv8, p1: bv8, p0: bv8): bv8 {
    (p7 << 7) | (p6 << 6) | (p5 << 5) | (p4 << 4) | (p3 << 3) | (p2 << 2) | (p1 << 1) | p0
  }

  function InvertedBitOf(x: bv8, k: nat): bv8
    requires k < 8
  {
    (Invert(x) >> k) & 1
  }

  lemma InvertedBit(x: bv8, k: nat)
    requires k < 8
    ensures InvertedBitOf(x, k) == if MsbBits(x)[7 - k] then 0 else 1
  {
    if k == 0 {
      assert ((!x) >> 0) & 1 == if x & 1 != 0 then 0 else 1;
    } else if k == 1 {
      assert ((!x) >> 1) & 1 == if x & 2 != 0 then 0 else 1;
    } else if k == 2 {
      assert ((!x) >> 2) & 1 == if x & 4 != 0 then 0 else 1;
    } else if k == 3 {
      assert ((!x) >> 3) & 1 == if x & 8 != 0 then 0 else 1;
    } else if k == 4 {
      assert ((!x) >> 4) & 1 == if x & 16 != 0 then 0 else 1;
    } else if k == 5 {
      assert ((!x) >> 5) & 1 == if x & 32 != 0 then 0 else 1;
    } else if k == 6 {
      assert ((!x) >> 6) & 1 == if x & 64 != 0 then 0 else 1;
    } else {
      assert ((!x) >> 7) & 1 == if x & 128 != 0 then 0 else 1;
    }
  }

  lemma NextLevelBit(x: bv8, k: nat, level: bool)
    requires k < 8
    ensures NextLevel(Invert(x), k, LevelBit(level)) == LevelBit(Level(level, MsbBits(x)[7 - k]))
  {
    hide MsbBits;
    InvertedBit(x, k);
    assert InvertedBitOf(x, k) ^ LevelBit(level) == LevelBit(Level(level, MsbBits(x)[7 - k])) by {
      if MsbBits(x)[7 - k] {
        assert 0 ^ LevelBit(level) == LevelBit(level);
      } else {
        assert 1 ^ LevelBit(level) == LevelBit(!level);
      }
    }
  }

  lemma Assemble(a7: bool, a6: bool, a5: bool, a4: bool, a3: bool, a2: bool, a1: bool, a0: bool)
    ensures var m := MsbBits(Join(LevelBit(a7), LevelBit(a6), LevelBit(a5), LevelBit(a4),
                                  LevelBit(a3), LevelBit(a2), LevelBit(a1), LevelBit(a0)));
      && m[0] == a7 && m[1] == a6 && m[2] == a5 && m[3] == a4 && m[4] == a3 && m[5] == a2 && m[6] == a1 && m[7] == a0
  {
  }

  lemma {:induction false} EncodeAt(level: bool, bits: seq<bool>, k: nat)
    requires k < |bits|
    ensures var e := Encode(level, bits); e[k] == Level(if k == 0 then level else e[k - 1], bits[k])
    decreases |bits|
  {
    if k > 0 { EncodeAt(Level(level, bits[0]), bits[1..], k - 1); }
  }

  // Bit k of the code is made by turn k of the unrolled loop body.
  lemma CodeTurn(x: bv8, l: bool, k: nat)
    requires k < 8
    ensures var e := Encode(l, MsbBits(x));
      NextLevel(Invert(x), 7 - k, LevelBit(if k == 0 then l else e[k - 1])) == LevelBit(e[k])
  {
    hide Encode, Level, MsbBits, NextLevel, LevelBit, Invert;
    var e := Encode(l, MsbBits(x));
    EncodeAt(l, MsbBits(x), k);
    NextLevelBit(x, 7 - k, if k == 0 then l else e[k - 1]);
  }

  lemma SameLast(e: seq<bool>)
    requires |e| == 8
    ensures Last(false, e) == e[7]
  {
  }

  lemma Assembled(e: seq<bool>, p7: bv8, p6: bv8, p5: bv8, p4: bv8, p3: bv8, p2: bv8, p1: bv8, p0: bv8)
    requires |e| == 8
    requires p7 == LevelBit(e[0]) && p6 == LevelBit(e[1]) && p5 == LevelBit(e[2]) && p4 == LevelBit(e[3])
    requires p3 == LevelBit(e[4]) && p2 == LevelBit(e[5]) && p1 == LevelBit(e[6]) && p0 == LevelBit(e[7])
    ensures MsbBits(Join(p7, p6, p5, p4, p3, p2, p1, p0)) == e
    ensures p0 == LevelBit(Last(false, e))
  {
    hide *;
    SameLast(e);
    Assemble(e[0], e[1], e[2], e[3], e[4], e[5], e[6], e[7]);
  }

  // The unrolled loop body codes one byte, most significant bit first.
  method CodeByte(x: bv8, prev: bv8, ghost l: bool) returns (b: bv8, last: bv8)
    requires prev == LevelBit(l)
    ensures MsbBits(b) == Encode(l, MsbBits(x))
    ensures last == LevelBit(Last(false, Encode(l, MsbBits(x))))
  {
    hide *;
    ghost var e := Encode(l, MsbBits(x));
    var inv := Invert(x);
    var p7 := NextLevel(inv, 7, prev);
    CodeTurn(x, l, 0);
    assert p7 == LevelBit(e[0]);
    var p6 := NextLevel(inv, 6, p7);
    CodeTurn(x, l, 1);
    assert p6 == LevelBit(e[1]);
    var p5 := NextLevel(inv, 5, p6);
    CodeTurn(x, l, 2);
    assert p5 == LevelBit(e[2]);
    var p4 := NextLevel(inv, 4, p5);
    CodeTurn(x, l, 3);
    assert p4 == LevelBit(e[3]);
    var p3 := NextLevel(inv, 3, p4);
    CodeTurn(x, l, 4);
    assert p3 == LevelBit(e[4]);
    var p2 := NextLevel(inv, 2, p3);
    CodeTurn(x, l, 5);
    assert p2 == LevelBit(e[5]);
    var p1 := NextLevel(inv, 1, p2);
    CodeTurn(x, l, 6);
    assert p1 == LevelBit(e[6]);
    last := NextLevel(inv, 0, p1);
    CodeTurn(x, l, 7);
    assert last == LevelBit(e[7]);
    b := Join(p7, p6, p5, p4, p3, p2, p1, last);
    Assembled(e, p7, p6, p5, p4, p3, p2, p1, last);
  }
}
