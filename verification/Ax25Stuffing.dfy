// Bit stuffing (section 3.6 of AX.25 v2.2): after five ones in a row the
// sender inserts a zero, so that six ones in a row only occur in a flag.
module Ax25Stuffing {

  // The length of the run of ones at the end of the bits sent so far.
  function NextRun(run: nat, b: bool): nat { if b then run + 1 else 0 }

  function Ones(run: nat, bits: seq<bool>): nat
    decreases |bits|
  {
    if bits == [] then run else Ones(NextRun(run, bits[0]), bits[1..])
  }

  function Stuff(run: nat, bits: seq<bool>): seq<bool>
    decreases |bits|, if run == 5 then 1 else 0
  {
    if run == 5 then [false] + Stuff(0, bits)
    else if bits == [] then []
    else [bits[0]] + Stuff(NextRun(run, bits[0]), bits[1..])
  }

  // The receiver's side: the bit after five ones is dropped.
  function Destuff(run: nat, raw: seq<bool>): seq<bool>
    decreases |raw|
  {
    if raw == [] then []
    else if run == 5 then Destuff(0, raw[1..])
    else [raw[0]] + Destuff(NextRun(run, raw[0]), raw[1..])
  }

  // No bit follows six ones.
  predicate Calm(run: nat, bits: seq<bool>)
    decreases |bits|
  {
    bits == [] || (run < 6 && Calm(NextRun(run, bits[0]), bits[1..]))
  }

  lemma {:induction false} DestuffStuff(run: nat, bits: seq<bool>)
    requires run <= 5
    ensures Destuff(run, Stuff(run, bits)) == bits
    decreases |bits|, if run == 5 then 1 else 0
  {
    var raw := Stuff(run, bits);
    if run == 5 {
      assert raw[1..] == Stuff(0, bits);
      DestuffStuff(0, bits);
    } else if bits != [] {
      var next := NextRun(run, bits[0]);
      assert raw[1..] == Stuff(next, bits[1..]);
      DestuffStuff(next, bits[1..]);
    }
  }

  lemma {:induction false} StuffCalm(run: nat, bits: seq<bool>)
    requires run <= 5
    ensures Calm(run, Stuff(run, bits)) && Ones(run, Stuff(run, bits)) <= 4
    decreases |bits|, if run == 5 then 1 else 0
  {
    var raw := Stuff(run, bits);
    if run == 5 {
      assert raw[1..] == Stuff(0, bits);
      StuffCalm(0, bits);
    } else if bits != [] {
      var next := NextRun(run, bits[0]);
      assert raw[1..] == Stuff(next, bits[1..]);
      StuffCalm(next, bits[1..]);
    }
  }

  lemma {:induction false} CalmConcat(run: nat, a: seq<bool>, b: seq<bool>)
    ensures Ones(run, a + b) == Ones(Ones(run, a), b)
    ensures Calm(run, a + b) <==> Calm(run, a) && Calm(Ones(run, a), b)
    decreases |a|
  {
    if a == [] {
      assert a + b == b;
    } else {
      assert (a + b)[1..] == a[1..] + b;
      CalmConcat(NextRun(run, a[0]), a[1..], b);
    }
  }

  // Starting with a shorter run keeps the stream calm.
  lemma {:induction false} CalmLess(less: nat, run: nat, bits: seq<bool>)
    requires less <= run && Calm(run, bits)
    ensures Calm(less, bits) && Ones(less, bits) <= Ones(run, bits)
    decreases |bits|
  {
    if bits != [] {
      CalmLess(NextRun(less, bits[0]), NextRun(run, bits[0]), bits[1..]);
    }
  }

  // No zero ends a run of exactly six ones.
  predicate FlagFree(run: nat, bits: seq<bool>)
    decreases |bits|
  {
    bits == [] || ((bits[0] || run != 6) && FlagFree(NextRun(run, bits[0]), bits[1..]))
  }

  lemma {:induction false} CalmIsFlagFree(run: nat, bits: seq<bool>)
    requires Calm(run, bits)
    ensures FlagFree(run, bits)
    decreases |bits|
  {
    if bits != [] { CalmIsFlagFree(NextRun(run, bits[0]), bits[1..]); }
  }

  lemma {:induction false} FlagFreeConcat(run: nat, a: seq<bool>, b: seq<bool>)
    ensures FlagFree(run, a + b) <==> FlagFree(run, a) && FlagFree(Ones(run, a), b)
    decreases |a|
  {
    if a == [] {
      assert a + b == b;
    } else {
      assert (a + b)[1..] == a[1..] + b;
      FlagFreeConcat(NextRun(run, a[0]), a[1..], b);
    }
  }

  lemma {:induction false} OnesOfTrues(run: nat, bits: seq<bool>)
    requires false !in bits
    ensures Ones(run, bits) == run + |bits| && FlagFree(run, bits)
    decreases |bits|
  {
    if bits != [] { OnesOfTrues(run + 1, bits[1..]); }
  }

  // Behind a zero the run does not depend on what was before it.
  lemma {:induction false} OnesForget(run: nat, other: nat, bits: seq<bool>)
    requires false in bits
    ensures Ones(run, bits) == Ones(other, bits)
    decreases |bits|
  {
    if bits[0] { OnesForget(run + 1, other + 1, bits[1..]); }
  }

  // The bits that are not stuffed zeros.
  function DataCount(run: nat, raw: seq<bool>): nat
    decreases |raw|
  {
    if raw == [] then 0
    else (if !raw[0] && run == 5 then 0 else 1) + DataCount(NextRun(run, raw[0]), raw[1..])
  }

  lemma {:induction false} DataCountConcat(run: nat, a: seq<bool>, b: seq<bool>)
    ensures DataCount(run, a + b) == DataCount(run, a) + DataCount(Ones(run, a), b)
    decreases |a|
  {
    if a == [] {
      assert a + b == b;
    } else {
      assert (a + b)[1..] == a[1..] + b;
      DataCountConcat(NextRun(run, a[0]), a[1..], b);
    }
  }

  lemma {:induction false} DataCountStuff(run: nat, bits: seq<bool>)
    requires run <= 5
    ensures DataCount(run, Stuff(run, bits)) == |bits|
    decreases |bits|, if run == 5 then 1 else 0
  {
    var raw := Stuff(run, bits);
    if run == 5 {
      assert raw[1..] == Stuff(0, bits);
      DataCountStuff(0, bits);
    } else if bits != [] {
      var next := NextRun(run, bits[0]);
      assert raw[1..] == Stuff(next, bits[1..]);
      DataCountStuff(next, bits[1..]);
    }
  }

  lemma {:induction false} CalmSixOnes(run: nat, bits: seq<bool>, i: nat)
    requires Calm(run, bits) && Ones(run, bits) < 6 && i + 6 <= |bits|
    ensures !(bits[i] && bits[i + 1] && bits[i + 2] && bits[i + 3] && bits[i + 4] && bits[i + 5])
    decreases |bits|
  {
    if i > 0 {
      CalmSixOnes(NextRun(run, bits[0]), bits[1..], i - 1);
    } else if bits[0] && bits[1] && bits[2] && bits[3] && bits[4] && bits[5] {
      var head, rest := bits[..6], bits[6..];
      assert bits == head + rest;
      CalmConcat(run, head, rest);
      assert head == [true] + [true] + [true] + [true] + [true] + [true];
      SixOnes(run);
    }
  }

  lemma SixOnes(run: nat)
    ensures Ones(run, [true] + [true] + [true] + [true] + [true] + [true]) == run + 6
  {
    CalmConcat(run, [true] + [true] + [true] + [true] + [true], [true]);
    CalmConcat(run, [true] + [true] + [true] + [true], [true]);
    CalmConcat(run, [true] + [true] + [true], [true]);
    CalmConcat(run, [true] + [true], [true]);
    CalmConcat(run, [true], [true]);
  }

  // Between flags there are never six ones in a row, wherever one looks.
  lemma StuffedHasNoFlag(bits: seq<bool>, i: nat)
    requires i + 6 <= |Stuff(0, bits)|
    ensures var raw := Stuff(0, bits);
      !(raw[i] && raw[i + 1] && raw[i + 2] && raw[i + 3] && raw[i + 4] && raw[i + 5])
  {
    StuffCalm(0, bits);
    CalmSixOnes(0, Stuff(0, bits), i);
  }

  // ---------- Size ----------

  lemma {:induction false} StuffLength(run: nat, bits: seq<bool>)
    requires run <= 5
    ensures |bits| <= |Stuff(run, bits)| && 5 * |Stuff(run, bits)| <= 6 * |bits| + run
    decreases |bits|, if run == 5 then 1 else 0
  {
    if run == 5 {
      StuffLength(0, bits);
    } else if bits != [] {
      StuffLength(NextRun(run, bits[0]), bits[1..]);
    }
  }

  // The zeros the sender inserts, counted without building the stuffed bits.
  function Inserted(run: nat, bits: seq<bool>): nat
    decreases |bits|, if run == 5 then 1 else 0
  {
    if run == 5 then 1 + Inserted(0, bits)
    else if bits == [] then 0
    else Inserted(NextRun(run, bits[0]), bits[1..])
  }

  lemma {:induction false} InsertedLength(run: nat, bits: seq<bool>)
    ensures |Stuff(run, bits)| == |bits| + Inserted(run, bits)
    decreases |bits|, if run == 5 then 1 else 0
  {
    if run == 5 {
      InsertedLength(0, bits);
    } else if bits != [] {
      InsertedLength(NextRun(run, bits[0]), bits[1..]);
    }
  }

  // ---------- One bit at a time ----------

  // What the sender emits for one bit, and the run it leaves behind.
  function Emit(run: nat, b: bool): seq<bool> {
    if b && run == 4 then [b, false] else [b]
  }

  function AfterEmit(run: nat, b: bool): (r: nat)
    requires run < 5
    ensures r < 5
  {
    if b && run < 4 then run + 1 else 0
  }

  function EndRun(run: nat, bits: seq<bool>): (r: nat)
    requires run < 5
    ensures r < 5
    decreases |bits|
  {
    if bits == [] then run else EndRun(AfterEmit(run, bits[0]), bits[1..])
  }

  lemma EmitFirst(run: nat, bits: seq<bool>)
    requires run < 5 && bits != []
    ensures Stuff(run, bits) == Emit(run, bits[0]) + Stuff(AfterEmit(run, bits[0]), bits[1..])
  {
    var b, rest := bits[0], bits[1..];
    if b && run == 4 {
      FullRun(rest);
      JoinTwo(b, false, Stuff(0, rest));
    } else {
      assert NextRun(run, b) == AfterEmit(run, b);
    }
  }

  lemma FullRun(bits: seq<bool>)
    ensures Stuff(5, bits) == [false] + Stuff(0, bits)
  {
  }

  lemma JoinTwo(a: bool, b: bool, rest: seq<bool>)
    ensures [a] + ([b] + rest) == [a, b] + rest
  {
  }

  lemma {:induction false} StuffAppend(run: nat, bits: seq<bool>, b: bool)
    requires run < 5
    ensures Stuff(run, bits + [b]) == Stuff(run, bits) + Emit(EndRun(run, bits), b)
    ensures EndRun(run, bits + [b]) == AfterEmit(EndRun(run, bits), b)
    decreases |bits|
  {
    hide Stuff, Emit, AfterEmit;
    if bits == [] {
      assert bits + [b] == [b];
      EmitFirst(run, [b]);
      NothingToStuff(AfterEmit(run, b));
      NothingToStuff(run);
    } else {
      var next := AfterEmit(run, bits[0]);
      assert (bits + [b])[1..] == bits[1..] + [b];
      EmitFirst(run, bits);
      EmitFirst(run, bits + [b]);
      StuffAppend(next, bits[1..], b);
    }
  }

  lemma NothingToStuff(run: nat)
    requires run < 5
    ensures Stuff(run, []) == []
  {
  }

  lemma {:induction false} StuffConcat(run: nat, a: seq<bool>, b: seq<bool>)
    requires run < 5
    ensures Stuff(run, a + b) == Stuff(run, a) + Stuff(EndRun(run, a), b)
    decreases |a|
  {
    hide Stuff, Emit, AfterEmit;
    if a == [] {
      assert a + b == b;
      NothingToStuff(run);
      assert [] + Stuff(run, b) == Stuff(run, b);
    } else {
      assert (a + b)[1..] == a[1..] + b;
      EmitFirst(run, a);
      EmitFirst(run, a + b);
      StuffConcat(AfterEmit(run, a[0]), a[1..], b);
      var x, y, z := Emit(run, a[0]), Stuff(AfterEmit(run, a[0]), a[1..]), Stuff(EndRun(run, a), b);
      assert x + (y + z) == (x + y) + z;
    }
  }

  lemma InsertedConcat(run: nat, a: seq<bool>, b: seq<bool>)
    requires run < 5
    ensures Inserted(run, a + b) == Inserted(run, a) + Inserted(EndRun(run, a), b)
  {
    StuffConcat(run, a, b);
    InsertedLength(run, a + b);
    InsertedLength(run, a);
    InsertedLength(EndRun(run, a), b);
  }

  // At most one zero for every five bits.
  lemma InsertedBound(run: nat, bits: seq<bool>)
    requires run <= 5
    ensures 5 * Inserted(run, bits) <= |bits| + run
  {
    StuffLength(run, bits);
    InsertedLength(run, bits);
  }

  lemma {:induction false} EndRunConcat(run: nat, a: seq<bool>, b: seq<bool>)
    requires run < 5
    ensures EndRun(run, a + b) == EndRun(EndRun(run, a), b)
    decreases |a|
  {
    hide AfterEmit;
    if a == [] {
      assert a + b == b;
    } else {
      assert (a + b)[1..] == a[1..] + b;
      EndRunConcat(AfterEmit(run, a[0]), a[1..], b);
    }
  }

  function AllOnes(n: nat): (r: seq<bool>)
    ensures |r| == n
  {
    seq(n, i => true)
  }

  // Ones after a run of ones: one zero for every five.
  lemma {:induction false} InsertedOnes(run: nat, n: nat)
    requires run <= 5
    ensures Inserted(run, AllOnes(n)) == (n + run) / 5
    decreases n, if run == 5 then 1 else 0
  {
    if run == 5 {
      InsertedOnes(0, n);
    } else if n > 0 {
      assert AllOnes(n)[1..] == AllOnes(n - 1);
      InsertedOnes(run + 1, n - 1);
    }
  }

  // ---------- Stretches without a stuffed zero ----------

  predicate Quiet(run: nat, bits: seq<bool>)
    decreases |bits|
  {
    bits == [] || (run < 5 && Quiet(NextRun(run, bits[0]), bits[1..]))
  }

  lemma {:induction false} QuietStuff(run: nat, bits: seq<bool>, more: seq<bool>)
    requires Quiet(run, bits)
    ensures Stuff(run, bits + more) == bits + Stuff(Ones(run, bits), more)
    ensures run <= 5 ==> Ones(run, bits) <= 5
    decreases |bits|
  {
    if bits == [] {
      assert bits + more == more;
      assert [] + Stuff(run, more) == Stuff(run, more);
    } else {
      assert (bits + more)[1..] == bits[1..] + more;
      QuietStuff(NextRun(run, bits[0]), bits[1..], more);
      assert [bits[0]] + (bits[1..] + Stuff(Ones(run, bits), more)) == bits + Stuff(Ones(run, bits), more);
    }
  }

  // Where a stuffed zero can fall among the first eight bits sent.
  lemma QuietSeven(a: bool, b: bool, c: bool, d: bool, e: bool, f: bool, g: bool)
    ensures Quiet(0, [a, b, c, d, e, f, g]) <==> !(a && b && c && d && e) && !(b && c && d && e && f)
  {
    var s0, s1, s2, s3 := [a, b, c, d, e, f, g], [b, c, d, e, f, g], [c, d, e, f, g], [d, e, f, g];
    var s4, s5, s6 := [e, f, g], [f, g], [g];
    assert s0[1..] == s1 && s1[1..] == s2 && s2[1..] == s3 && s3[1..] == s4 && s4[1..] == s5 && s5[1..] == s6;
    var r1 := NextRun(0, a);
    var r2 := NextRun(r1, b);
    var r3 := NextRun(r2, c);
    var r4 := NextRun(r3, d);
    var r5 := NextRun(r4, e);
    var r6 := NextRun(r5, f);
    assert Quiet(r6, s6) <==> r6 < 5;
    assert Quiet(r5, s5) <==> r5 < 5 && Quiet(r6, s6);
    assert Quiet(r4, s4) <==> r4 < 5 && Quiet(r5, s5);
    assert Quiet(r3, s3) <==> Quiet(r4, s4);
    assert Quiet(r2, s2) <==> Quiet(r3, s3);
    assert Quiet(r1, s1) <==> Quiet(r2, s2);
    assert Quiet(0, s0) <==> Quiet(r1, s1);
  }

  // Five ones, the stuffed zero, and two more bits.
  lemma EarlyStuff(lead: seq<bool>, b: bool, more: seq<bool>)
    requires Quiet(0, lead) && Ones(0, lead) == 5
    ensures Stuff(0, lead + ([b] + more)) == (lead + [false, b]) + Stuff(NextRun(0, b), more)
  {
    QuietStuff(0, lead, [b] + more);
    assert ([b] + more)[1..] == more;
    assert Stuff(5, [b] + more) == [false] + ([b] + Stuff(NextRun(0, b), more));
    assert lead + ([false] + ([b] + Stuff(NextRun(0, b), more))) == (lead + [false, b]) + Stuff(NextRun(0, b), more);
  }

  lemma FiveOnes(lead: seq<bool>)
    requires lead == [true, true, true, true, true] || lead == [false, true, true, true, true, true]
    ensures Quiet(0, lead) && Ones(0, lead) == 5
  {
    var q: seq<bool> := [true, true, true, true, true];
    assert q[1..] == [true, true, true, true] && q[1..][1..] == q[2..] && q[2..][1..] == q[3..]
      && q[3..][1..] == q[4..];
    assert q[4..][1..] == [];
    assert Quiet(4, q[4..]) && Quiet(3, q[3..]) && Quiet(2, q[2..]) && Quiet(1, q[1..]) && Quiet(0, q);
    assert Ones(0, q) == Ones(1, q[1..]) == Ones(2, q[2..]) == Ones(3, q[3..]) == Ones(4, q[4..]) == 5;
    if !lead[0] { assert lead[1..] == q; }
  }
}
