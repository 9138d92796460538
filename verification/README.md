# Proofs about gr-satnogs

A Dafny model of the parts of gr-satnogs whose correctness rests on algebra,
on state kept across calls, or on closed-form arithmetic, with proofs of what
they promise. `dafny verify dfyconfig.toml` checks the whole project.

* **Reed–Solomon (`lib/libfec`).** The control block with its field tables and
  generator polynomial, the systematic encoder, and the errors-and-erasures
  decoder: syndromes, erasure locator, Berlekamp–Massey, Chien search, Forney.
  Everything is parametric in symbol size, field polynomial, first root,
  primitive element, number of roots and padding. The main results are that
  the encoder's blocks are codewords, that fewer than nroots + 1 wrong symbols
  never go unseen, that the decoder restores every block with 2 × errors +
  erasures at most nroots and reports exactly the wrong or erased positions, and
  when a block it accepts beyond that capacity ends up a codeword.
  `RsCcsds` shows that the parameters of section 4 of CCSDS 131.0-B meet the
  conditions the construction needs.
* **Checksums (`lib/crc.cc`).** Table lookup equals bit-serial polynomial
  division for every byte string; for the AX.25 FCS, the residue test, the
  error patterns it is sure to see, and exactly when single-bit repair gives
  the transmitted frame back. `CrcCheck` has the published check values.
* **AX.25 (`lib/ax25_encoder.cc`, `lib/ax25_decoder.cc`).** `Ax25Machine` is
  the decoder as a machine on single bits; `Ax25Decoder.Decoder` is the source's
  object with its fields, shift registers, bit buffer and frame buffer, proved
  to run that machine. Results: termination, accounting, independence of how the
  stream is cut into calls, what every emitted frame says about an arbitrary
  stream, what comes out of a stream of frames, aborted frames and stray bits in
  which every flag ends one thing and opens the next, and the encode/decode
  round trip with its exact condition.
* **Civil calendar (`include/satnogs/date.h`).** The closed forms equal naive
  day counting and are inverse to each other.
* **Convolutional deinterleaver and Base64.** A delay law over every run; the
  encoding as regrouped bits, and the round trip.

Symbols of a Reed–Solomon code are natural numbers below 2^m with their own
exclusive-or and shift (`Bits`), because m is a parameter; registers of fixed
width (checksums, shift registers, bytes) are bit-vectors. `Wrappers`,
`Arithmetic`, `Periods` (Euclid's algorithm on closed sets of numbers), `Bits`,
`WireBits`, `BitPacking` and the three table modules hold what the others share.

Where code and comments differ, the model follows the code:

* `lib/ax25_encoder.cc:107-113` says the allocation covers the worst case of
  stuffing. It leaves an eighth for it where a fifth may be needed. For n payload
  bytes the output fits exactly when at most 8·(⌊n/8⌋ + 59) zeros are stuffed
  (`Ax25Encoder.FitsExactly`); `Ax25Encoder.LengthFits` and
  `Ax25Encoder.OnesDoNotFit` turn this into lengths for a given header,
  `Ax25Encoder.AlwaysFits` and `Ax25Encoder.OnesNeverFit` for every header.
* `lib/ax25_decoder.cc:291-299` says bit stuffing on the first byte is handled.
  It is when the stuffed bit is the eighth bit received, and not when it is the
  sixth or seventh; `Ax25Reception.Reception` and `Ax25RoundTrip.RoundTrip` give
  the exact condition.
* `lib/libfec/init_rs.h:75-77` calls the field polynomial not primitive when the
  register does not return to 1. The converse does not hold
  (`RsCcsds.RegisterTestIsNotEnough`). It holds exactly when the register is not
  back at 1 after a proper divisor of nn turns either
  (`Primitivity.PrimitiveTest`), so always when nn is prime
  (`Primitivity.PrimeOrder`). A polynomial that passes without being primitive
  leaves entries of the logarithm table unwritten
  (`Primitivity.UnwrittenLogarithm`).
* `lib/libfec/init_rs.h:99-102` searches for an inverse of prim that need not
  exist: the search ends exactly when prim and nn have no common divisor above 1
  (`RsInit.SearchEnds`); prim 3 with eight-bit symbols passes every check and
  never ends (`RsInit.SearchWithoutEnd`).
* `lib/libfec/decode_rs.h:264-272` takes a locator with as many roots as its
  degree for a correctable block. The block it then corrects need not become a
  codeword, with or without padding: `RsAcceptance.CodewordExactly` says when it
  does, `RsMiscorrection.FirstSyndromeOnly` gives a family for which it does not
  and `RsMiscorrection.AcceptedWithError` one block of it.

## Model

| member | source | states |
|---|---|---|
| `GaloisField.StepNLinear` | lib/libfec/init_rs.h:69-73 | any number of turns of the table-filling register is linear over exclusive-or |
| `GaloisField.AlphaInjective` | lib/libfec/init_rs.h:64-74 | the nn antilogarithms are pairwise different |
| `GaloisField.AlphaSurjective` | lib/libfec/init_rs.h:64-74 | every nonzero symbol is one of them |
| `GaloisField.AlphaEqual` | lib/libfec/rs-common.h:20-27 | two powers agree if and only if their exponents agree modulo nn, so reducing an exponent changes nothing |
| `GaloisField.MulDistrib` | lib/libfec/init_rs.h:61-74 | the product through logarithm tables distributes over exclusive-or, for every symbol size |
| `GaloisField.MulAssoc` | lib/libfec/init_rs.h:61-74 | the table product is associative, zero included |
| `GaloisField.MulNonzero` | lib/libfec/init_rs.h:61-74 | the table product has no zero divisors |
| `RsCodec.ModNn` | lib/libfec/rs-common.h:20-27 | the folding loop ends with exactly x modulo nn |
| `RsCodec.GeneratorShape` | lib/libfec/init_rs.h:104-121 | the generator polynomial is monic of degree nroots over the field |
| `RsCodec.GeneratorRoots` | lib/libfec/init_rs.h:104-121 | each alpha^((fcr+i)·prim) is a root of it |
| `RsGenerator.RootsExactly` | lib/libfec/init_rs.h:104-121 | the generator polynomial vanishes at a symbol if and only if that is alpha^((fcr+i)·prim) for some i below nroots |
| `RsGenerator.Palindromic` | lib/libfec/init_rs.h:104-121 | if nn divides prim·(2·fcr + nroots − 1), the generator polynomial reads the same from both ends |
| `RsInit.FillTables` | lib/libfec/init_rs.h:61-75 | the tables are powers of alpha and, for a primitive polynomial, their inverse; the test is that the register is back at 1 |
| `Primitivity.PrimitiveTest` | lib/libfec/init_rs.h:75-83 | the polynomial is primitive if and only if the register test passes and the register is not at 1 after any proper divisor of nn turns |
| `Primitivity.PrimeOrder` | lib/libfec/init_rs.h:75-83 | when nn is prime the register test alone decides |
| `Primitivity.UnwrittenLogarithm` | lib/libfec/init_rs.h:61-83 | a polynomial that passes the register test leaves the logarithm of some nonzero symbol unwritten if and only if it is not primitive |
| `RsInit.FindIprim` | lib/libfec/init_rs.h:99-102 | for every prim on which the search ends (SearchEnds) it ends with an inverse of prim modulo nn, between 1 and nn |
| `RsInit.SearchEnds` | lib/libfec/init_rs.h:99-102 | some value of the counter is a multiple of prim if and only if prim and nn have no common divisor above 1 |
| `RsInit.SearchWithoutEnd` | lib/libfec/init_rs.h:99-102 | prim 3 with eight-bit symbols is in range and no value of the counter is a multiple of it |
| `Periods.InverseExists` | lib/libfec/init_rs.h:99-102 | prim divides 1 + u·nn for some u if and only if the two have no common divisor above 1 |
| `RsInit.TimesFactor` | lib/libfec/init_rs.h:107-120 | one turn multiplies the polynomial in place by x + alpha^root |
| `RsInit.FormGenerator` | lib/libfec/init_rs.h:104-126 | the stored polynomial is the index form of the product of all nroots factors |
| `RsInit.InitRs` | lib/libfec/init_rs.h:10-130 | for parameters on which the searches end and every table entry is written: a control block is built if and only if the symbols fit the width, fcr is a symbol, prim a nonzero symbol, nroots and pad are not negative, the message length nn − nroots − pad is at least 1 and the polynomial is primitive; it is valid for that field |
| `RsCode.LocatorsDistinct` | lib/libfec/init_rs.h:99-102 | distinct positions have distinct locators because prim is invertible |
| `RsCode.SyndromeOfErrors` | lib/libfec/decode_rs.h:81-97 | the syndromes of a received block are those of its error pattern, whatever was sent |
| `RsCode.MinimumDistance` | lib/libfec/decode_rs.h:81-114 | a block with at most n nonzero symbols and n zero syndromes is zero |
| `RsCode.Detection` | lib/libfec/decode_rs.h:107-114 | a block within nroots symbols of a codeword takes the zero-syndrome exit only if it is that codeword |
| `RsCode.GeneratorFullWeight` | lib/libfec/encode_rs.h:49-56 | no coefficient of the generator polynomial is zero, so its index form never holds the marker for zero |
| `RsEncoder.ParityStepEval` | lib/libfec/encode_rs.h:41-60 | one turn of the feedback register keeps the value at every root: new parity(x) = x·parity(x) + d·x^nroots |
| `RsEncoder.Feed` | lib/libfec/encode_rs.h:41-60 | the in-place turn on parity[] is that step |
| `RsEncoder.EncodeRs` | lib/libfec/encode_rs.h:37-61 | message followed by parity has all-zero syndromes |
| `RsEncoder.ParityUnique` | lib/libfec/encode_rs.h:37-61 | no other parity makes the message a codeword |
| `RsExample.SmallEncode` | lib/libfec/encode_rs.h:37-61 | a run for three-bit symbols, polynomial 0xb, first root 1, prim 3 and two roots: the message 0 0 0 0 1 has the parity 6 4 |
| `RsEncoder.ShortenedIsFull` | lib/libfec/decode_rs.h:87-97 | a shortened block is a codeword if and only if the block with pad leading zeros is one of the full code |
| `RsLocator.ComputeSyndromes` | lib/libfec/decode_rs.h:81-97 | the Horner loop computes every syndrome |
| `RsLocator.TimesErasure` | lib/libfec/decode_rs.h:123-129 | one turn multiplies lambda in place by 1 + x·alpha^u |
| `RsLocator.InitLocator` | lib/libfec/decode_rs.h:115-130 | lambda is the product of the erasures' factors |
| `KeyEquation.TracksUnchanged` | lib/libfec/decode_rs.h:192-196 | a zero discrepancy keeps the Berlekamp–Massey invariant |
| `KeyEquation.TracksSameLength` | lib/libfec/decode_rs.h:199-207 | a correction without length change keeps it |
| `KeyEquation.TracksLonger` | lib/libfec/decode_rs.h:208-217 | a correction with length change keeps it: constant term 1, degrees within el and r + e − el, discrepancies zero from el up to r |
| `KeyEquation.LengthBound` | lib/libfec/decode_rs.h:208-209 | a nonzero discrepancy at step r means that r + 1 is at most el plus the number of unknown errors |
| `KeyEquation.ExactLocator` | lib/libfec/decode_rs.h:227-235 | a locator no longer than the number of errata, with all of them as roots, has no other roots and full degree |
| `RsBerlekampMassey.ComputeDiscrepancy` | lib/libfec/decode_rs.h:184-191 | the inner loop computes the discrepancy of the current locator |
| `RsBerlekampMassey.FormCorrection` | lib/libfec/decode_rs.h:198-207 | t becomes lambda + d·x·b, and no coefficient is lost |
| `RsBerlekampMassey.Normalize` | lib/libfec/decode_rs.h:210-216 | b becomes lambda divided by the discrepancy |
| `RsBerlekampMassey.Step` | lib/libfec/decode_rs.h:182-225 | one turn of the loop on the arrays keeps the invariant |
| `RsBerlekampMassey.BerlekampMassey` | lib/libfec/decode_rs.h:171-225 | the loop ends with the invariant over all nroots syndromes |
| `RsSearch.RootIndexOf` | lib/libfec/decode_rs.h:239 | at step i the running location k is the one whose root index is i: prim·(k+1) ≡ i modulo nn |
| `RsSearch.EvaluateLocator` | lib/libfec/decode_rs.h:241-247 | the incremental registers give the value of lambda at alpha^i |
| `RsSearch.ChienSearch` | lib/libfec/decode_rs.h:236-263 | every recorded location is a root, all are different, and if fewer than the degree were found there are no others |
| `ErrorEvaluator.DerivativeIsOddPart` | lib/libfec/decode_rs.h:304-309 | every second coefficient gives the formal derivative |
| `ErrorEvaluator.DerivativeAtRoot` | lib/libfec/decode_rs.h:302-315 | at a root of a locator with as many roots as its degree the derivative is not zero, so the division is by a nonzero symbol for every accepted block |
| `ErrorEvaluator.Forney` | lib/libfec/decode_rs.h:289-309 | at an erratum the derivative is not zero and omega = error value × derivative, up to the locator |
| `RsForney.IndexAndDegree` | lib/libfec/decode_rs.h:227-235 | the conversion yields the degree |
| `RsForney.ComputeEvaluator` | lib/libfec/decode_rs.h:273-287 | omega is syndromes times locator, truncated |
| `RsForney.ErrorValue` | lib/libfec/decode_rs.h:295-321 | the added value times the derivative equals omega times the power of the locator |
| `RsAcceptance.ValueBalances` | lib/libfec/decode_rs.h:295-321 | the added value, weighted by the fcr-th power of the locator, times the derivative is omega times the locator |
| `RsAcceptance.SyndromesMatch` | lib/libfec/decode_rs.h:273-322 | for every accepted block the corrections have the block's syndromes below the degree, and all of them if and only if the locator's discrepancies vanish from its degree on |
| `RsAcceptance.CorrectionsAreErrors` | lib/libfec/decode_rs.h:264-322 | if a codeword differs from an accepted block only at roots of the locator, the corrections are exactly the differences |
| `RsAcceptance.OnlyCodeword` | lib/libfec/decode_rs.h:264-322 | that codeword is the corrected block, and nothing was corrected in the pad |
| `RsAcceptance.CodewordExactly` | lib/libfec/decode_rs.h:264-322 | an accepted block becomes a codeword if and only if the locator's discrepancies vanish from its degree up to nroots and no nonzero correction fell into the pad |
| `RsDecoder.FindErrata` | lib/libfec/decode_rs.h:115-263 | the recorded positions are all roots of the locator, the erasures among them; within capacity they are exactly the errata |
| `RsDecoder.CorrectErrors` | lib/libfec/decode_rs.h:289-322 | every root position outside the pad is changed by the value that balances omega, and nothing else is changed |
| `RsDecoder.DecodeRs` | lib/libfec/decode_rs.h:71-331 | codewords come back unchanged with count 0; any other block is accepted if and only if the locator has as many roots as its degree, −1 leaving it unchanged; count roots are reported and nothing else changes; the accepted block is the only candidate for a codeword that differs from the received one at reported positions, and is one under exactly the condition of CodewordExactly; within 2·errors + erasures ≤ nroots the block is restored and the reported positions are the errata |
| `RsMiscorrection.NoShorterLocator` | lib/libfec/decode_rs.h:171-225 | a locator whose discrepancies vanish from its degree on has the length the loop reached as degree, for any number of distinct erasures |
| `RsMiscorrection.LengthDecides` | lib/libfec/decode_rs.h:264-272 | with distinct erasures an accepted block becomes a codeword if and only if el is the degree and no nonzero correction fell into the pad |
| `RsMiscorrection.ConstantLocator` | lib/libfec/decode_rs.h:171-235 | if only the first of two or more syndromes is nonzero, the loop ends with lambda = 1 |
| `RsMiscorrection.FirstSyndromeOnly` | lib/libfec/decode_rs.h:264-331 | every such block is accepted as it is with count 0 although it is not a codeword |
| `RsMiscorrection.AcceptedWithError` | lib/libfec/decode_rs.h:71-331 | one such run: three-bit symbols, polynomial 0xb, two roots, block 0 0 0 0 0 1 4, no padding |
| `RsRoundTrip.RoundTrip` | lib/libfec/rstest.c:86-145 | every message survives every pattern of at most nroots/2 wrong symbols and the count is their number |
| `RsCcsds.CcsdsPrimitive` | lib/libfec/gen_ccsds.c:17 | 0x187 is primitive: no power of alpha below 255 is 1 |
| `RsCcsds.CcsdsConstructible` | lib/libfec/fixed.h:24-33 | the telemetry parameters meet what the construction asks for, for every padding |
| `RsCcsds.CcsdsInvertible` | lib/libfec/fixed.h:31-32 | 116 is an inverse of 11 modulo 255 |
| `RsCcsds.CcsdsBlock` | lib/libfec/fixed.h:24-33 | the telemetry parameters give a control block for exactly the paddings 0 to 222, with a generator polynomial that reads the same from both ends (section 4 of CCSDS 131.0-B) |
| `RsCcsds.RegisterTestIsNotEnough` | lib/libfec/init_rs.h:75-83 | 0x11b passes the register test and is not primitive |
| `RsCcsds.Mod255` | lib/libfec/fixed.h:10-17 | the folding loop ends with exactly x modulo 255 |
| `Crc.TableEntry` | lib/crc.cc:34-65 | every table entry is eight steps of the division |
| `Crc.TableIsSerial` | lib/crc.cc:179-187 | the table-driven register is bit-serial division of the transmitted bits, for every byte string |
| `Crc.Crc16Ax25` | lib/crc.cc:179-187 | the loop returns the complement of that remainder; `crc16_ccitt_reversed` at lines 149-157 is the same loop |
| `CrcMsb.FeedByteIsBits` | lib/crc.cc:159-176 | a lookup in the second table feeds eight bits, most significant first |
| `CrcMsb.Crc16Ccitt` | lib/crc.cc:159-167 | the remainder from register 0 |
| `CrcMsb.Crc16AugCcitt` | lib/crc.cc:169-177 | the complemented remainder from register 0x1D0F |
| `CrcMsb.UpdateCrc16Ibm` | lib/crc.cc:189-203 | the bitwise loop feeds one byte |
| `CrcMsb.Crc16Ibm` | lib/crc.cc:205-213 | the remainder for 0x8005 from register 0xFFFF |
| `Crc32c.TableIsSerial` | lib/crc.cc:239-247 | the same for the Castagnoli polynomial |
| `Crc32c.Crc32C` | lib/crc.cc:239-247 | the loop returns the complement of that remainder |
| `CrcCheck.Fcs` | lib/crc.cc:179-187 | the digits 123456789 have the checksum 0x906E |
| `CrcCheck.Ccitt` | lib/crc.cc:159-167 | for crc16_ccitt they have 0x31C3 |
| `CrcCheck.AugmentedCcitt` | lib/crc.cc:169-177 | for crc16_aug_ccitt they have 0x1A33, the complement of 0xE5CC |
| `CrcCheck.Ibm` | lib/crc.cc:189-213 | for crc16_ibm they have 0xAEE7 |
| `CrcCheck.Castagnoli` | lib/crc.cc:239-247 | for crc32_c they have 0xE3069283 |
| `Fcs.ResidueTest` | lib/ax25_decoder.cc:376-392 | a frame is valid if and only if the register over the whole frame ends at 0xF0B8 (appendix C.2 of RFC 1662) |
| `Fcs.AppendedFcs` | lib/ax25_encoder.cc:123-125 | appending the checksum, low byte first, makes a valid frame |
| `Fcs.ValidDifference` | lib/ax25_decoder.cc:376-392 | of two frames of equal length, one valid, the other is valid if and only if their difference divides out |
| `Fcs.BurstDetected` | lib/ax25_decoder.cc:376-392 | two valid frames of equal length never differ only inside sixteen consecutive transmitted bits |
| `CrcOrder.OrderOfX` | lib/crc.cc:179-187 | x has order exactly 32767 modulo the polynomial: a power of x is 1 if and only if 32767 divides its exponent |
| `FcsRepair.RepairSound` | lib/ax25_decoder.cc:394-454 | a repaired frame is valid and one flip away; a refusal means that no single flip helps |
| `FcsRepair.SingleFlipInvalid` | lib/ax25_decoder.cc:376-392 | a single flipped bit is always noticed |
| `FcsRepair.RepairExact` | lib/ax25_decoder.cc:394-454 | after flipping bit k of a valid frame, repair returns that frame if and only if k < 32767 |
| `Ax25Machine.StepTurn` | lib/ax25_decoder.cc:107-256 | every turn shrinks the buffer, or keeps it and lowers the state's rank, or looks at one more bit; position plus buffered bits stays the same |
| `Ax25Machine.StepExtends` | lib/ax25_decoder.cc:107-256 | a turn does not depend on bits that have not arrived |
| `Ax25Machine.CallThenDrain` | lib/ax25_decoder.cc:193-207 | a call stops early, but the calls after it find what is left |
| `Ax25Machine.DrainExtends` | lib/ax25_decoder.cc:88-95 | draining, receiving more and draining again is draining everything |
| `Ax25Machine.DrainIsCalls` | lib/ax25_decoder.cc:68-96 | finitely many calls without input look at everything that is buffered |
| `Ax25Machine.SessionIsDrain` | lib/ax25_decoder.cc:68-96 | for any cut of the stream into calls, followed by enough calls without input, frames, positions and final state are those of the whole stream |
| `Ax25Machine.SplitsAgree` | lib/ax25_decoder.cc:68-96 | two ways of cutting the same stream end alike |
| `Ax25Machine.FrameEndReads` | lib/ax25_decoder.cc:307-362 | a frame is handed over if and only if it has at least 16 bytes and is valid, or one flip from valid with correction on, or unchecked; it comes without its checksum, marked valid exactly in the first two cases, and otherwise as received |
| `Ax25Machine.UncheckedFrame` | lib/ax25_decoder.cc:349-359 | with the check off, a frame no flip helps comes out cut and marked invalid |
| `Ax25Register.ShiftInBits` | lib/ax25_decoder.cc:365-374 | the registers are windows on the stream, newest bit on top |
| `Ax25Register.RecentAll` | lib/ax25_decoder.cc:178-209 | the flag and stuffing tests are tests on the last eight bits of the stream |
| `Ax25Soundness.StepInv` | lib/ax25_decoder.cc:107-256 | the invariant tying state, registers and partial frame to the stream survives every turn |
| `Ax25Soundness.DrainSound` | lib/ax25_decoder.cc:104-256 | every emitted frame lies between flags at the reported positions, with the unstuffed bits in between as its bytes |
| `Ax25Soundness.SessionSound` | lib/ax25_decoder.cc:68-96 | the same for any stream and any calls; frames do not overlap; position and buffer account for every bit |
| `Ax25Stuffing.DestuffStuff` | lib/ax25_encoder.cc:137-156 | dropping the bit after five ones undoes stuffing |
| `Ax25Stuffing.StuffedHasNoFlag` | lib/ax25_encoder.cc:147-150 | a stuffed frame never has six ones in a row |
| `Ax25Stuffing.StuffLength` | lib/ax25_encoder.cc:147-150 | n bits grow to at least n and at most 6n/5 bits |
| `Ax25Stuffing.InsertedLength` | lib/ax25_encoder.cc:147-150 | a stuffed frame is longer by exactly the zeros inserted after every five ones |
| `Ax25Reception.Reception` | lib/ax25_decoder.cc:104-374 | a clean transmission of any frame is handed to the frame check at its exact position if and only if it is shorter than the limit and no zero was stuffed before the eighth bit; otherwise nothing is emitted |
| `Ax25Reception.Enter` | lib/ax25_decoder.cc:284-305 | the first eight bits after the flags, with a stuffed zero taken out only at their end |
| `Ax25Reception.CloseAligned` | lib/ax25_decoder.cc:178-207 | a flag in byte position hands the frame over, whatever run of ones came before, and opens what follows |
| `Ax25Reception.Between` | lib/ax25_decoder.cc:178-191 | whatever stands between two flags, at most one frame comes out and the second flag opens what follows; nothing comes out if that flag is out of byte position |
| `Ax25Reception.Aborted` | lib/ax25_decoder.cc:214-228 | a seventh one in a row drops the frame; nothing comes out up to the next flag, and that flag opens what follows |
| `Ax25Reception.WholeFrame` | lib/ax25_decoder.cc:104-374 | a stuffed frame between two flags is handed over under the two conditions of Reception, and either way the second flag opens what follows |
| `Ax25Reception.StreamReception` | lib/ax25_decoder.cc:104-374 | for any stream of frames, aborted frames and out-of-place bits separated by one or more flags, behind bits without a flag: exactly the frames come out, in order and at their positions, each under the conditions of Reception |
| `Ax25Decoder.Decoder.constructor` | lib/ax25_decoder.cc:43-65 | a fresh decoder is the machine's initial state |
| `Ax25Decoder.Decoder.Erase` | lib/decoder.cc:131-135 | bits dropped from the buffer are added to the position; every caller drops no more than there are |
| `Ax25Decoder.Decoder.IsFrameValid` | lib/ax25_decoder.cc:376-392 | the method decides frame validity |
| `Ax25Decoder.Decoder.ErrorCorrection` | lib/ax25_decoder.cc:394-454 | the toggling loop leaves the repaired frame in the buffer, or the buffer as it was |
| `Ax25Decoder.Decoder.EnterFrameEnd` | lib/ax25_decoder.cc:307-362 | the frame added to the status, and the reset, in all of its exits |
| `Ax25Decoder.Decoder.ScanNoSync` | lib/ax25_decoder.cc:110-138 | the search loop runs the machine to the flag or the end of the buffer |
| `Ax25Decoder.Decoder.ScanInSync` | lib/ax25_decoder.cc:139-174 | the flag-skipping loop runs the machine to the first byte or the end of the buffer |
| `Ax25Decoder.Decoder.ScanDecoding` | lib/ax25_decoder.cc:175-248 | the frame loop runs the machine to a restart, an ended frame or the end of the buffer |
| `Ax25Decoder.Decoder.DecodeBits` | lib/ax25_decoder.cc:104-256 | the whole loop is one call of the machine and terminates |
| `Ax25Decoder.Decoder.Decode` | lib/ax25_decoder.cc:67-96 | one call on samples is one call of the machine on their line-decoded bits |
| `Nrzi.RoundTrip` | lib/ax25_encoder.cc:189-219 | line decoding undoes line coding from the same level |
| `Nrzi.Transition` | lib/ax25_encoder.cc:189-219 | the level changes before a bit if and only if the bit is a zero |
| `Nrzi.CodeByte` | lib/ax25_encoder.cc:192-217 | the unrolled body codes eight bits, most significant first |
| `BitPacking.PackBit` | lib/ax25_encoder.cc:138-145 | shifting a bit in keeps packed bytes and register in step with the bits sent |
| `Ax25Encoder.Make` | lib/ax25_encoder.cc:64-84 | an encoder exists if and only if both callsigns have one to six characters |
| `Ax25Encoder.InsertAddress` | lib/ax25_encoder.cc:229-259 | the address field is written in place and nothing else changes |
| `Ax25Encoder.AddressBack` | lib/ax25_encoder.cc:229-259 | characters, padding, SSIDs and reserved bits can be read back and only the last byte has the extension bit (section 3.12 of AX.25 v2.2) |
| `Ax25Encoder.FrameBack` | lib/ax25_encoder.cc:115-127 | of the frame sent, bytes 0 to 13 are the address field, byte 14 is 0x00, byte 15 is 0xF0 (no layer 3), and the payload follows |
| `Ax25Encoder.PlainLine` | lib/ax25_encoder.cc:189-219 | the bits sent are the raw bits, line-coded or as they are |
| `Ax25Encoder.FrameIsValid` | lib/ax25_encoder.cc:116-127 | the assembled frame passes the receiver's check |
| `Ax25Encoder.StuffFrame` | lib/ax25_encoder.cc:133-156 | the loop packs the stuffed frame behind the preamble |
| `Ax25Encoder.AppendFlags` | lib/ax25_encoder.cc:158-170 | the postamble follows at whatever bit the frame ended |
| `Ax25Encoder.Pad` | lib/ax25_encoder.cc:171-177 | the last byte is filled with zeros |
| `Ax25Encoder.CodeLine` | lib/ax25_encoder.cc:189-219 | the NRZI loop codes the whole buffer in place |
| `Ax25Encoder.Encode` | lib/ax25_encoder.cc:90-227 | for every payload the output is the line-coded transmission: flags, stuffed frame, flags, zeros; it runs over the allocation if and only if more than 8·(⌊n/8⌋ + 59) zeros were stuffed |
| `Ax25Encoder.FitsExactly` | lib/ax25_encoder.cc:107-113 | the output fits the allocation if and only if at most 8·(⌊n/8⌋ + 59) zeros are stuffed |
| `Ax25Encoder.LengthFits` | lib/ax25_encoder.cc:107-113 | with h zeros stuffed into the header, every payload with h + ⌊(8n + 20)/5⌋ at most that bound fits |
| `Ax25Encoder.AlwaysFits` | lib/ax25_encoder.cc:107-113 | payloads of up to 748 bytes fit, whatever the header |
| `Ax25Encoder.OnesDoNotFit` | lib/ax25_encoder.cc:107-113 | n bytes of ones with h + ⌊(8n + 4)/5⌋ above that bound do not fit |
| `Ax25Encoder.OnesNeverFit` | lib/ax25_encoder.cc:107-113 | 786 or more bytes of ones do not fit, whatever the header |
| `Ax25RoundTrip.FirstByteClear` | lib/ax25_encoder.cc:229-235 | the decoder's condition on the first byte is that the first character's low five bits are not all ones |
| `Ax25RoundTrip.CallsignCharacter` | lib/ax25_encoder.cc:229-235 | upper-case letters and digits meet it |
| `Ax25RoundTrip.RoundTrip` | lib/ax25_encoder.cc:90-227 | the encoder's bytes, in calls of any sizes and enough calls without input after them, come back as exactly the frame sent, which reads as address field, 0x00, 0xF0 and payload, at its position; otherwise, for exactly the stated first characters and lengths, nothing comes back |
| `Ax25RoundTrip.FramesInOrder` | lib/ax25_decoder.cc:193-207 | valid frames separated by flags, each of which ends one frame and opens the next, all come out in order and at their exact positions, for any cut into calls |
| `Ax25RoundTrip.UnderscoreLost` | lib/ax25_encoder.cc:229-235 | a frame to the destination `_` is never received, whatever the payload |
| `Ax25RoundTrip.RepairedReception` | lib/ax25_decoder.cc:332-346 | with error correction on, a valid frame of which bit k was flipped before stuffing comes out as some valid frame if and only if its first byte is clear and it is shorter than the limit, and as the one sent if and only if k < 32767 |
| `Ax25Loopback.Loopback` | lib/ax25_decoder.cc:67-96 | a run of the encoder object into a fresh decoder object, samples in pieces of any size, gives the frame sent or, under exactly the stated condition, nothing |
| `Calendar.ToDaysIsNaive` | include/satnogs/date.h:2762-2776 | to_days counts the days one year and one month at a time from 1 January 1970 |
| `Calendar.Ranges` | include/satnogs/date.h:2870-2885 | the ranges in the comments for doe, yoe, doy, mp, d and m |
| `Calendar.CivilBack` | include/satnogs/date.h:2870-2885 | the date of a day number exists in the calendar and has that day number |
| `Calendar.CivilOfDays` | include/satnogs/date.h:2870-2885 | every date of the calendar is the date of its day number |
| `Calendar.DaysRoundTrip` | include/satnogs/date.h:2870-2885 | from_days is undone by to_days if and only if the day lies in the years −32768 to 32767 |
| `Calendar.DateRoundTrip` | include/satnogs/date.h:2762-2885 | every valid date comes back from its day number |
| `Calendar.OrderPreserved` | include/satnogs/date.h:2817-2825 | dates compare as their day numbers do |
| `Calendar.NextDay` | include/satnogs/date.h:2541-2551 | the day after a date, by the month lengths and leap rule, has the next number |
| `Calendar.WeekdayIsMod` | include/satnogs/date.h:1740-1745 | for every 32-bit day number, negative ones included, the weekday is (z + 4) mod 7 |
| `Calendar.WeekdayReached` | include/satnogs/date.h:1822-1829 | adding the difference of two weekdays reaches the first one |
| `Calendar.NthOfDays` | include/satnogs/date.h:3061-3076 | year_month_weekday::to_days undoes from_days |
| `Calendar.NthOfDaysOk` | include/satnogs/date.h:3041-3058 | the n-th weekday of a day is valid if and only if the day lies in a valid year |
| `Calendar.NthOkExactly` | include/satnogs/date.h:3041-3058 | year_month_weekday::ok accepts exactly the n-th weekdays of the days of valid years |
| `Calendar.DaysOfNth` | include/satnogs/date.h:3044-3076 | from_days undoes to_days for every valid year_month_weekday |
| `Calendar.AddMonthsTwice` | include/satnogs/date.h:2159-2164 | adding months twice adds their sum, even where the stored year wraps |
| `Calendar.AddTheDifference` | include/satnogs/date.h:2185-2188 | adding the difference of two months reaches the first |
| `Deinterleaver.ConvolutionalDeinterleaver.constructor` | lib/convolutional_deinterleaver.cc:31-40 | the delay lines start out empty of samples |
| `Deinterleaver.ConvolutionalDeinterleaver.DecodeBit` | lib/convolutional_deinterleaver.cc:46-55 | on every run output t is input t − n·m·(n − 1 − (t mod n)), or 0 before the start |
| `Deinterleaver.ConvolutionalDeinterleaver.DecodeByte` | lib/convolutional_deinterleaver.cc:57-70 | eight such steps; for streams of bits, bit k of the result, most significant first, is the deinterleaved bit t + k |
| `Deinterleaver.SamplesAreBits` | lib/convolutional_deinterleaver.cc:57-70 | the samples fed for a byte are its bits, most significant first |
| `Deinterleaver.OneBranch` | lib/convolutional_deinterleaver.cc:46-70 | with one branch every byte comes out as it went in |
| `Deinterleaver.ConvolutionalDeinterleaver.Reset` | lib/convolutional_deinterleaver.cc:72-80 | starts a new run |
| `Deinterleaver.Branches` | lib/convolutional_deinterleaver.cc:31-40 | the branch used last in a turn does not delay, the first delays n·m·(n − 1), and each n·m more than the next |
| `Deinterleaver.PureDelay` | lib/convolutional_deinterleaver.cc:31-55 | behind the mirror interleaver the deinterleaver is a pure delay of n·m·(n − 1) |
| `Base64.Base64Encode` | include/satnogs/base64.h:57-106 | the loops produce the encoding of section 4 of RFC 4648, for which GroupBits and EncodedBits state what it means |
| `Base64.CodeIsAlphabet` | include/satnogs/base64.h:47-49 | code k is the k-th character of table 1 of RFC 4648 |
| `Base64.FindInAlphabet` | include/satnogs/base64.h:108-155 | the value of a character is its only position in that table |
| `Base64.TestVectors` | include/satnogs/base64.h:57-106 | f, fo and foo have the encodings of section 10 of RFC 4648, and the byte 0xFB has +w== |
| `Base64.GroupBits` | include/satnogs/base64.h:66-80 | four characters stand for the 24 bits of three bytes, most significant first |
| `Base64.EncodedBits` | include/satnogs/base64.h:57-106 | the characters before the padding stand for the bits of the data, filled up with zeros to whole sextets |
| `Base64.EncodedShape` | include/satnogs/base64.h:57-106 | the length is 4·⌈n/3⌉ and padding stands only at the end |
| `Base64.Base64Decode` | include/satnogs/base64.h:108-155 | the loops decode the characters up to the first outside the alphabet |
| `Base64.RoundTrip` | include/satnogs/base64.h:57-155 | decoding an encoding, padding included, gives every byte string back |

## Left out

- RsInit.InitRs: in-range parameters on which the source never ends (prim sharing a factor with nn) or reads table entries it never wrote (a polynomial that passes the register test and is not primitive) are excluded; SearchEnds and UnwrittenLogarithm show that these are exactly the excluded ones.
- RsEncoder.EncodeRs: asks for at least one root; with none the source's shift has a negative length.
- RsMiscorrection.LengthDecides: asks for distinct erasures; for any erasures RsAcceptance.CodewordExactly has the condition on discrepancies.
- RsDecoder.DecodeRs: symbols are unbounded integers, so products of exponents that exceed 32 bits for symbol sizes above 15 are not modelled; neither is the code under DEBUG.
- RsCodec.ModNn: the argument is a natural number; the source never passes a negative one when fcr·prim and nn are as InitRs accepts them.
- Calendar.DaysRoundTrip: day numbers within 719468 of the largest 32-bit integer overflow in the source and not here.
- Ax25Encoder.Encode: the model stores the bytes behind the allocation and reports the overrun; what the source overwrites there is not modelled.
- Ax25Decoder.Decoder.Decode: `reset` on a decoder with buffered bits is not modelled.
- Ax25RoundTrip.RoundTrip: scrambling and descrambling, which rest on `digital::lfsr`, are off; the class is not part of this model.
- Crc.Crc16Ax25: `crc::append` and its byte orders are not modelled.
- Base64.Base64Decode: characters are compared in the C locale.
- Decoded frames carry payload, FCS verdict and sample positions; the other metadata, PMT messages, logging, clocks and scheduling are not modelled.
- `lib/rs_encoder.cc`, `lib/libfec/encode_rs.c` and `decode_rs.c`, the dual-basis tables, Viterbi decoding and all vectorised code are not modelled.
- `lib/golay24.cc`, the 8b/10b tables, the Morse tree and the moving sum would only add finite or easy members.
- `lib/argos_ldr_decoder.cc` and `lib/ax100_mode6.cc` add little beyond the AX.25 decoder.
- Signal processing in floating point, sockets, files, flowgraphs and locale-dependent date formatting are not modelled.
