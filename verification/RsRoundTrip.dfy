// Encoding, a noisy channel and decoding, as lib/libfec/rstest.c samples it.
module RsRoundTrip {
  import opened Bits
  import opened GaloisField
  import opened Polynomials
  import opened KeyEquation
  import opened RsCodec
  import opened RsCode
  import opened RsEncoder
  import opened RsDecoder

  // Wrong symbols, without and with numbering from the start of the pad.
  lemma ErrorsWithoutErasures(c: Codec, sent: seq<nat>, received: seq<nat>)
    requires |sent| == |received|
    ensures WrongSymbols(c, sent, received, {}) == Distance(received, sent)
    ensures |Errata(ErrorVector(c, sent, received), {})| == Distance(received, sent)
  {
    hide Xor, Weight;
    var d, e := Difference(received, sent), ErrorVector(c, sent, received);
    assert Unknown(e, {}) == e;
    WeightOfFull(Zeros(c.pad), d, |d|);
    ErrataCount(e, {});
  }

  // What the channel adds is the difference.
  lemma NoiseIsDifference(sent: seq<nat>, received: seq<nat>, noise: seq<nat>)
    requires |sent| == |received| == |noise|
    requires forall i :: 0 <= i < |sent| ==> received[i] == Xor(sent[i], noise[i])
    ensures Difference(received, sent) == noise
  {
    hide Xor;
    forall i | 0 <= i < |sent| ensures Difference(received, sent)[i] == noise[i] {
      XorComm(sent[i], noise[i]);
      XorCancel(sent[i], noise[i]);
    }
  }

  lemma EqualDistance(a: seq<nat>)
    ensures Distance(a, a) == 0
  {
    hide Xor;
    forall i | 0 <= i < |a| ensures Difference(a, a)[i] == 0 { XorSelf(a[i]); }
    WeightOfZeros(Difference(a, a), |a|);
  }

  // Without erasures, at most nroots/2 wrong symbols: the block is restored
  // and the count is the number of wrong symbols.
  lemma WithinCapacity(c: Codec, f: Field, sent: seq<nat>, received: seq<nat>, data: seq<nat>, count: int,
                       found: set<nat>)
    requires |sent| == |received| == |data| && Outcome(c, f, sent, received, [], data, count, found)
    requires 2 * Distance(received, sent) <= c.nroots
    ensures data == sent && count == Distance(received, sent)
  {
    hide UnknownErrors, Weight, Symbols, Codeword;
    ErrorsWithoutErasures(c, sent, received);
    assert PositionSet([], 0) == {};
    if received == sent {
      EqualDistance(sent);
    }
  }

  // Every message comes back from every error pattern within the capacity of
  // the code, with the number of errors.
  method RoundTrip(c: Codec, ghost f: Field, message: seq<nat>, noise: seq<nat>)
    returns (block: seq<nat>, decoded: seq<nat>, count: int)
    requires Valid(c, f) && c.nroots > 0
    requires |message| + c.nroots + c.pad == c.nn && Symbols(f, message)
    requires |noise| == |message| + c.nroots && Symbols(f, noise)
    requires 2 * Weight(noise, |noise|) <= c.nroots
    ensures |block| == |noise| && block[..|message|] == message && Codeword(c, f, block)
    ensures decoded == block && count == Weight(noise, |noise|)
  {
    hide Xor, Weight, f.Size, Valid, Codeword, Outcome;
    var parity := new nat[c.nroots];
    EncodeRs(c, f, message, parity);
    block := message + parity[..];
    BlockOfCodeword(c, f, block);
    var data := new nat[|block|];
    for i := 0 to |block|
      invariant forall k :: 0 <= k < i ==> data[k] == Xor(block[k], noise[k])
    {
      data[i] := Xor(block[i], noise[i]);
    }
    ghost var received := data[..];
    NoisyBlock(c, f, block, received, noise);
    NoiseIsDifference(block, received, noise);
    var n, found, lam, fix := DecodeRs(c, f, data, null, 0, block);
    decoded, count := data[..], n;
    WithinCapacity(c, f, block, received, decoded, count, PositionSet(found, |found|));
  }

  lemma BlockOfCodeword(c: Codec, f: Field, d: seq<nat>)
    requires Codeword(c, f, d)
    ensures Block(c, f, d)
  {
  }

  lemma NoisyBlock(c: Codec, f: Field, sent: seq<nat>, received: seq<nat>, noise: seq<nat>)
    requires Block(c, f, sent) && |sent| == |received| == |noise| && Symbols(f, noise)
    requires forall i :: 0 <= i < |sent| ==> received[i] == Xor(sent[i], noise[i])
    ensures Block(c, f, received)
  {
    hide Xor, f.Size;
    forall i | 0 <= i < |received| ensures received[i] < f.Size() { AddBound(f, sent[i], noise[i]); }
  }
}
