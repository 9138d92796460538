// lib/convolutional_deinterleaver.cc: a bank of delay lines used in turn.
module Deinterleaver {
  import opened Arithmetic
  import opened BitPacking

  // Sample i of the stream, zero before its start.
  function Sample(stream: seq<bv8>, i: int): bv8 {
    if 0 <= i < |stream| then stream[i] else 0
  }

  function LineLength(n: nat, m: nat, k: nat): nat
    requires k < n
  {
    (n - 1 - k) * m
  }

  // The delay law: branch k = t mod n holds back n * m * (n - 1 - k) samples.
  function Delay(n: nat, m: nat, t: nat): nat
    requires n > 0
  {
    n * LineLength(n, m, t % n)
  }

  function Deinterleaved(n: nat, m: nat, stream: seq<bv8>, t: nat): bv8
    requires n > 0
  {
    Sample(stream, t - Delay(n, m, t))
  }

  // The branch used last in a turn does not delay, the one used first delays
  // most, and each of the others n * m samples less than the one before it.
  lemma Branches(n: nat, m: nat, t: nat)
    requires n > 0
    ensures t % n == n - 1 ==> Delay(n, m, t) == 0
    ensures t % n == 0 ==> Delay(n, m, t) == n * ((n - 1) * m)
    ensures t % n < n - 1 ==> Delay(n, m, t) == Delay(n, m, t + 1) + n * m
  {
    var k := t % n;
    if k == n - 1 {
      assert (n - 1 - k) * m == 0 * m == 0;
      assert n * 0 == 0;
    } else {
      AddOne(t, 1, n);
      RemainderUnique(k + 1, n, 0, k + 1);
      assert (n - 1 - k) * m == (n - 1 - (k + 1)) * m + m;
      assert n * ((n - 1 - (k + 1)) * m + m) == n * ((n - 1 - (k + 1)) * m) + n * m;
    }
  }

  // The sender's interleaver, whose branch k holds back n * m * k samples.
  function Interleaved(n: nat, m: nat, stream: seq<bv8>): (r: seq<bv8>)
    requires n > 0
    ensures |r| == |stream|
  {
    seq(|stream|, t requires 0 <= t < |stream| => Sample(stream, t - n * ((t % n) * m)))
  }

  lemma EarlierTurn(t: nat, n: nat, q: nat)
    requires n > 0 && t >= n * q
    ensures (t - n * q) % n == t % n
  {
    assert q * n == n * q;
    FoldModulus(t, q, n);
  }

  lemma SplitProduct(n: nat, m: nat, k: nat)
    requires k < n
    ensures n * LineLength(n, m, k) + n * (k * m) == n * ((n - 1) * m)
  {
    assert (n - 1 - k) * m + k * m == (n - 1) * m;
  }

  // Interleaver and deinterleaver together only delay, by n * m * (n - 1).
  lemma PureDelay(n: nat, m: nat, stream: seq<bv8>, t: nat)
    requires n > 0 && t < |stream|
    ensures Deinterleaved(n, m, Interleaved(n, m, stream), t) == Sample(stream, t - n * ((n - 1) * m))
  {
    hide LineLength;
    var k := t % n;
    var d := n * LineLength(n, m, k);
    SplitProduct(n, m, k);
    if t >= d {
      EarlierTurn(t, n, LineLength(n, m, k));
      assert Interleaved(n, m, stream)[t - d] == Sample(stream, (t - d) - n * (k * m));
    }
  }

  // When branch k is next in use after `t` samples, `idx` being the branch in use.
  function Due(n: nat, t: int, idx: nat, k: nat): int {
    t - idx + k + if k < idx then n else 0
  }

  // Branch k holds the samples it saw last, oldest first.
  ghost predicate Holds(line: seq<bv8>, n: nat, m: nat, k: nat, stream: seq<bv8>, idx: nat)
    requires k < n
  {
    && |line| == LineLength(n, m, k)
    && forall j :: 0 <= j < |line| ==> line[j] == Sample(stream, Due(n, |stream|, idx, k) - n * (|line| - j))
  }

  lemma SampleBefore(stream: seq<bv8>, b: bv8, i: int)
    requires i < |stream|
    ensures Sample(stream + [b], i) == Sample(stream, i)
  {
  }

  lemma OneTurn(n: int, len: int, j: int)
    ensures n * (len - (j + 1)) == n * (len - j) - n
    ensures len - j >= 1 && n >= 0 ==> n * (len - j) >= n
  {
    if len - j >= 1 && n > 0 { MulAtLeast(n, len - j); }
  }

  lemma OtherLine(line: seq<bv8>, n: nat, m: nat, k: nat, stream: seq<bv8>, idx: nat, b: bv8)
    requires k < n && idx < n && k != idx && Holds(line, n, m, k, stream, idx)
    ensures Holds(line, n, m, k, stream + [b], if idx + 1 == n then 0 else idx + 1)
  {
    hide LineLength;
    var due := Due(n, |stream|, idx, k);
    forall j | 0 <= j < |line| ensures line[j] == Sample(stream + [b], due - n * (|line| - j)) {
      OneTurn(n, |line|, j);
      SampleBefore(stream, b, due - n * (|line| - j));
    }
  }

  lemma UsedLine(line: seq<bv8>, n: nat, m: nat, stream: seq<bv8>, idx: nat, b: bv8)
    requires idx < n && Holds(line, n, m, idx, stream, idx)
    ensures Holds((line + [b])[1..], n, m, idx, stream + [b], if idx + 1 == n then 0 else idx + 1)
    ensures (line + [b])[0] == Sample(stream + [b], |stream| - n * |line|)
  {
    hide LineLength;
    var next, grown := (line + [b])[1..], stream + [b];
    var due := |stream| + n;
    forall j | 0 <= j < |next| ensures next[j] == Sample(grown, due - n * (|next| - j)) {
      OneTurn(n, |next|, j);
      if j + 1 < |line| {
        OneTurn(n, |line|, j + 1);
        assert next[j] == line[j + 1];
        SampleBefore(stream, b, |stream| - n * (|line| - (j + 1)));
      } else {
        assert n * (|next| - j) == n;
      }
    }
    if |line| > 0 {
      OneTurn(n, |line|, 0);
      SampleBefore(stream, b, |stream| - n * |line|);
    } else {
      assert n * |line| == 0;
    }
  }

  function Bit(b: bv8, k: nat): bv8
    requires k < 8
  {
    (b >> k) & 1
  }

  function Collect(o7: bv8, o6: bv8, o5: bv8, o4: bv8, o3: bv8, o2: bv8, o1: bv8, o0: bv8): bv8 {
    (o7 << 7) | (o6 << 6) | (o5 << 5) | (o4 << 4) | (o3 << 3) | (o2 << 2) | (o1 << 1) | o0
  }

  // The bits of a byte as samples, most significant first.
  function Samples(b: bv8): (r: seq<bv8>)
    ensures |r| == 8
  {
    [Bit(b, 7), Bit(b, 6), Bit(b, 5), Bit(b, 4), Bit(b, 3), Bit(b, 2), Bit(b, 1), Bit(b, 0)]
  }

  lemma SamplesAreBits(b: bv8, k: nat)
    requires k < 8
    ensures Samples(b)[k] <= 1 && (Samples(b)[k] == 1 <==> MsbBits(b)[k])
  {
    hide Bit, MsbBits;
    BitIsMask(b);
    MsbBitsAt(b);
    var x, y := Samples(b), MsbBits(b);
    assert x[0] == Bit(b, 7) && x[1] == Bit(b, 6) && x[2] == Bit(b, 5) && x[3] == Bit(b, 4);
    assert x[4] == Bit(b, 3) && x[5] == Bit(b, 2) && x[6] == Bit(b, 1) && x[7] == Bit(b, 0);
  }

  lemma BitIsMask(b: bv8)
    ensures forall k: nat :: k < 8 ==> Bit(b, k) <= 1
    ensures (Bit(b, 7) == 1) == (b & 128 != 0) && (Bit(b, 6) == 1) == (b & 64 != 0)
    ensures (Bit(b, 5) == 1) == (b & 32 != 0) && (Bit(b, 4) == 1) == (b & 16 != 0)
    ensures (Bit(b, 3) == 1) == (b & 8 != 0) && (Bit(b, 2) == 1) == (b & 4 != 0)
    ensures (Bit(b, 1) == 1) == (b & 2 != 0) && (Bit(b, 0) == 1) == (b & 1 != 0)
  {
  }

  // Eight bits put together are the bits of the byte, the first on top.
  lemma CollectedBits(o7: bv8, o6: bv8, o5: bv8, o4: bv8, o3: bv8, o2: bv8, o1: bv8, o0: bv8)
    requires o7 <= 1 && o6 <= 1 && o5 <= 1 && o4 <= 1 && o3 <= 1 && o2 <= 1 && o1 <= 1 && o0 <= 1
    ensures MsbBits(Collect(o7, o6, o5, o4, o3, o2, o1, o0))
         == [o7 == 1, o6 == 1, o5 == 1, o4 == 1, o3 == 1, o2 == 1, o1 == 1, o0 == 1]
  {
  }

  ghost predicate AllBits(stream: seq<bv8>) { forall i :: 0 <= i < |stream| ==> stream[i] <= 1 }

  // Bit k of a byte taken out at time t is the deinterleaved bit t + k.
  ghost predicate OutputBits(n: nat, m: nat, stream: seq<bv8>, t: nat, ret: bv8)
    requires n > 0
  {
    forall k :: 0 <= k < 8 ==> (MsbBits(ret)[k] <==> Deinterleaved(n, m, stream, t + k) == 1)
  }

  lemma CollectedOutput(n: nat, m: nat, stream: seq<bv8>, t: nat)
    requires n > 0 && AllBits(stream)
    ensures OutputBits(n, m, stream, t, Collected(n, m, stream, t))
  {
    hide Collect, MsbBits, Delay;
    CollectedBits(Deinterleaved(n, m, stream, t), Deinterleaved(n, m, stream, t + 1),
                  Deinterleaved(n, m, stream, t + 2), Deinterleaved(n, m, stream, t + 3),
                  Deinterleaved(n, m, stream, t + 4), Deinterleaved(n, m, stream, t + 5),
                  Deinterleaved(n, m, stream, t + 6), Deinterleaved(n, m, stream, t + 7));
  }

  // The byte put together from eight samples, whatever their values.
  function Collected(n: nat, m: nat, stream: seq<bv8>, t: nat): bv8
    requires n > 0
  {
    Collect(
      Deinterleaved(n, m, stream, t), Deinterleaved(n, m, stream, t + 1),
      Deinterleaved(n, m, stream, t + 2), Deinterleaved(n, m, stream, t + 3),
      Deinterleaved(n, m, stream, t + 4), Deinterleaved(n, m, stream, t + 5),
      Deinterleaved(n, m, stream, t + 6), Deinterleaved(n, m, stream, t + 7))
  }

  lemma MoreBits(stream: seq<bv8>, b: bv8)
    requires AllBits(stream)
    ensures AllBits(stream + Samples(b))
  {
    forall i | |stream| <= i < |stream| + 8 ensures (stream + Samples(b))[i] <= 1 {
      SamplesAreBits(b, i - |stream|);
    }
  }

  // A single branch has no delay: the byte itself comes out.
  lemma OneBranch(m: nat, stream: seq<bv8>, b: bv8, ret: bv8)
    requires AllBits(stream) && OutputBits(1, m, stream + Samples(b), |stream|, ret)
    ensures ret == b
  {
    hide MsbBits, Samples;
    var all := stream + Samples(b);
    forall k | 0 <= k < 8 ensures MsbBits(ret)[k] == MsbBits(b)[k] {
      SamplesAreBits(b, k);
      assert Delay(1, m, |stream| + k) == 0 by { NoDelay(m, |stream| + k); }
      assert all[|stream| + k] == Samples(b)[k];
    }
    BitsDetermine(ret, b);
  }

  lemma NoDelay(m: nat, t: nat)
    ensures Delay(1, m, t) == 0
  {
  }

  lemma BitsDetermine(a: bv8, b: bv8)
    requires forall k :: 0 <= k < 8 ==> MsbBits(a)[k] == MsbBits(b)[k]
    ensures a == b
  {
    hide MsbBits;
    MsbBitsAt(a);
    MsbBitsAt(b);
    var x, y := MsbBits(a), MsbBits(b);
    assert x[0] == y[0] && x[1] == y[1] && x[2] == y[2] && x[3] == y[3];
    assert x[4] == y[4] && x[5] == y[5] && x[6] == y[6] && x[7] == y[7];
    SameMasks(a, b);
  }

  lemma SameMasks(a: bv8, b: bv8)
    requires (a & 128 != 0) == (b & 128 != 0) && (a & 64 != 0) == (b & 64 != 0)
    requires (a & 32 != 0) == (b & 32 != 0) && (a & 16 != 0) == (b & 16 != 0)
    requires (a & 8 != 0) == (b & 8 != 0) && (a & 4 != 0) == (b & 4 != 0)
    requires (a & 2 != 0) == (b & 2 != 0) && (a & 1 != 0) == (b & 1 != 0)
    ensures a == b
  {
  }

  class ConvolutionalDeinterleaver {
    const nbranches: nat
    const m: nat
    var idx: nat
    var branches: seq<seq<bv8>>
    // The samples taken in since the last reset.
    ghost var stream: seq<bv8>

    ghost predicate Valid()
      reads this
    {
      && nbranches > 0 && |branches| == nbranches && idx == |stream| % nbranches
      && forall k :: 0 <= k < nbranches ==> Holds(branches[k], nbranches, m, k, stream, idx)
    }

    constructor (branches: nat, m: nat)
      requires branches > 0
      ensures Valid() && stream == [] && nbranches == branches && this.m == m
    {
      nbranches := branches;
      this.m := m;
      idx := 0;
      stream := [];
      this.branches := [];
      new;
      Fill();
    }

    // The loop of the constructor and of reset.
    method Fill()
      requires nbranches > 0 && branches == [] && stream == [] && idx == 0
      modifies this`branches
      ensures Valid()
    {
      hide LineLength;
      for i := 0 to nbranches
        invariant |branches| == i
        invariant forall k :: 0 <= k < i ==> Holds(branches[k], nbranches, m, k, stream, 0)
      {
        var line := seq(LineLength(nbranches, m, i), _ => 0 as bv8);
        assert Holds(line, nbranches, m, i, stream, 0);
        branches := branches + [line];
      }
    }

    method DecodeBit(b: bv8) returns (ret: bv8)
      requires Valid()
      modifies this
      ensures Valid() && stream == old(stream) + [b]
      ensures ret == Deinterleaved(nbranches, m, stream, |old(stream)|)
    {
      hide Holds, LineLength;
      ghost var before, used := branches, idx;
      var line := branches[idx] + [b];
      ret := line[0];
      UsedLine(before[used], nbranches, m, stream, used, b);
      LineIs(before[used], nbranches, m, used, stream, used);
      branches := branches[idx := line[1..]];
      idx := (idx + 1) % nbranches;
      NextIndex(used, nbranches);
      AddOne(|stream|, 1, nbranches);
      forall k | 0 <= k < nbranches ensures Holds(branches[k], nbranches, m, k, stream + [b], idx) {
        if k != used { OtherLine(before[k], nbranches, m, k, stream, used, b); }
      }
      stream := stream + [b];
    }

    // Eight turns, most significant bit first.
    method DecodeByte(b: bv8) returns (ret: bv8)
      requires Valid()
      modifies this
      ensures Valid() && stream == old(stream) + Samples(b)
      ensures ret == Collected(nbranches, m, stream, |old(stream)|)
      ensures AllBits(old(stream)) ==> AllBits(stream) && OutputBits(nbranches, m, stream, |old(stream)|, ret)
    {
      hide Bit, Collect, Deinterleaved, Samples, Holds, AllBits, OutputBits;
      ghost var s, all := stream, stream + Samples(b);
      AllAre(s, b);
      var o7 := TakeBit(Bit(b, 7), all);
      var o6 := TakeBit(Bit(b, 6), all);
      var o5 := TakeBit(Bit(b, 5), all);
      var o4 := TakeBit(Bit(b, 4), all);
      var o3 := TakeBit(Bit(b, 3), all);
      var o2 := TakeBit(Bit(b, 2), all);
      var o1 := TakeBit(Bit(b, 1), all);
      var o0 := TakeBit(Bit(b, 0), all);
      assert all[..|s| + 8] == all;
      ret := Collect(o7, o6, o5, o4, o3, o2, o1, o0);
      if AllBits(s) {
        MoreBits(s, b);
        CollectedOutput(nbranches, m, all, |s|);
      }
    }

    // One of the eight turns, on the way to the stream `all`.
    method TakeBit(b: bv8, ghost all: seq<bv8>) returns (ret: bv8)
      requires Valid() && |stream| < |all| && stream == all[..|stream|] && all[|stream|] == b
      modifies this
      ensures Valid() && |stream| == |old(stream)| + 1 && stream == all[..|stream|]
      ensures ret == Deinterleaved(nbranches, m, all, |old(stream)|)
    {
      hide Deinterleaved, Holds;
      assert stream + [b] == all[..|stream| + 1];
      ret := DecodeBit(b);
      Prefix(nbranches, m, stream, all, |old(stream)|);
    }

    method Reset()
      requires Valid()
      modifies this
      ensures Valid() && stream == []
    {
      branches := [];
      idx := 0;
      stream := [];
      Fill();
    }
  }

  lemma LineIs(line: seq<bv8>, n: nat, m: nat, k: nat, stream: seq<bv8>, idx: nat)
    requires k < n && Holds(line, n, m, k, stream, idx)
    ensures |line| == LineLength(n, m, k)
  {
  }

  lemma NextIndex(idx: nat, n: nat)
    requires idx < n
    ensures (idx + 1) % n == if idx + 1 == n then 0 else idx + 1
  {
    RemainderUnique(idx + 1, n, if idx + 1 == n then 1 else 0, if idx + 1 == n then 0 else idx + 1);
  }

  lemma AllAre(s: seq<bv8>, b: bv8)
    ensures var all, t := s + Samples(b), |s|;
      && s == all[..t]
      && all[t] == Bit(b, 7) && all[t + 1] == Bit(b, 6) && all[t + 2] == Bit(b, 5) && all[t + 3] == Bit(b, 4)
      && all[t + 4] == Bit(b, 3) && all[t + 5] == Bit(b, 2) && all[t + 6] == Bit(b, 1) && all[t + 7] == Bit(b, 0)
  {
    hide Bit;
  }

  // An output does not depend on samples that come later.
  lemma Prefix(n: nat, m: nat, stream: seq<bv8>, more: seq<bv8>, t: nat)
    requires n > 0 && t < |stream| && stream <= more
    ensures Deinterleaved(n, m, stream, t) == Deinterleaved(n, m, more, t)
  {
    hide LineLength;
  }
}
