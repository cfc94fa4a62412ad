# Channel codecs and data paths of the OFDM radio, modelled and proved

This Dafny project models five components of the repository and proves what they are for.

* The general Reed-Solomon codec of libfec (`init_rs.h`, `encode_rs.h`, `decode_rs.h`, `rs-common.h`), for every
  symbol width, first root, primitive element, number of roots and padding: field tables, generator, encoder, and
  the whole decoder (syndromes, erasures, Berlekamp-Massey, Chien search, Forney), up to bounded-distance decoding.
  The half-table encoder of `encode_rs_av.c` is shown to compute the same parity.
* The Viterbi decoders of libfec in portable C (K = 7, 9, 9, 15) and the two written with MMX intrinsics, as one
  design with parameters: maximum-likelihood decoding, harmless wrap-around of metrics, and the round trip of the
  test programs.
* The printer and parser of libconfig, which undo each other.
* The frequency-hop sequence generator, whose sequence visits every pair of frequencies once per lap.
* Fragmentation and reassembly of packets.

The code is imperative and so are the models: classes with the source's fields, arrays updated in place, loops in
the source's order. Each method is proved against a function on values, and the properties are lemmas about these
functions.

## How the files fit together

`Bits`, `Numbers`, `Field`, `Order` and `Poly` hold bitwise exclusive-or, divisibility, the field, the order of x in it,
and its polynomials; `Reduction` says what the arithmetic of the field is. Locators are used throughout instead of
inverses: `Quo(p, X, k)` is synthetic division, the value of X^k p(1/X). `Code`, `Distance`, `Generator`,
`BerlekampMassey`, `Minimality`, `Chien`, `Forney`, `Values`, `Decoding`, `Restoration` and `Outcomes` are the theory of
the codec; `Codec`, `Init`, `Encoder`, `Decoder`, `AltiVec` and `Exercise` are its loops. `Palindrome` and `Witnesses`
are about single parameters.

`Taps`, `Trellis`, `Paths`, `Ties`, `Metrics`, `Shift`, `Chainback` and `Convolution` are the convolutional code;
`Viterbi` is the decoder object, `Designs` its six instances, `RoundTrip` and `Frame` the test programs. `Hop` and
`Payload` stand alone. `Lexemes`, `Spelling`, `Config`, `ConfigRoundTrip`, `Syntax` and `Formats` are the configuration
language on values; `SettingStore`, `Reader` and `Writer` are the linked settings, the parser's actions on them and the
writer.

## Where the code departs from what is said of it

* The check `sr != 1` is said to reject polynomials that are not primitive. It accepts some
  (`Witnesses.AcceptedButNotPrimitive`). What passes is good exactly when every nonzero symbol gets an index
  (`Order.AllWrittenIff`); otherwise entries of `index_of` stay as they were allocated (`Init.FillTables`) and the codec
  built from them is not valid (`Init.InitRS`). A caller can tell beforehand by running the register to the proper
  divisors of NN (`Order.PrimitiveIff`).
* A nonnegative return value of the Reed-Solomon decoder does not mean that the block is a codeword
  (`Witnesses.ReturnCodeIsNotEnough`). The exact condition is `Restoration.CodewordIff`.
* The table builder of the K = 9 MMX decoder leaves out `abs`, so inverted polynomials get wrong entries;
  `Designs.RawTable` says exactly which, `Designs.RawTableWrong` names two. `Viterbi.SetPolynomial` follows the
  other five decoders.
* `__config_validate_name` accepts names such as `true`, which the scanner does not take for names
  (`ConfigRoundTrip.ReadsBackIff`, `ConfigRoundTrip.NamedTrue`).

## Model

| member | source | states |
|---|---|---|
| Codec.Modnn | dependencies/libfec/rs-common.h:20-26 | The fold of high and low parts ends and leaves the remainder modulo NN, for every x >= 0 (the same loop, at eight bits, is `mod255` of fixed.h) |
| Numbers.StopsIffCoprime | dependencies/libfec/init_rs.h:82-85 | The search for iprim ends within prim rounds if and only if prim and NN have no common divisor above one |
| Codec.FindIprim | dependencies/libfec/init_rs.h:82-85 | The value found is the inverse of prim modulo NN, between 1 and NN |
| Field.ExpInjective | dependencies/libfec/init_rs.h:48-67 | When x has order NN, different indices below NN have different antilogs |
| Field.ExpOnto | dependencies/libfec/init_rs.h:48-67 | Every nonzero symbol is the antilog of an index below NN |
| Codec.TableProduct | dependencies/libfec/rs-common.h:20-26 | Looking up the sum of two logs reduced modulo NN multiplies modulo the field polynomial, for every symbol width |
| Field.MulByLogs | dependencies/libfec/init_rs.h:48-59 | Multiplication of symbols, which is that of polynomials modulo the field polynomial by Reduction.MulIsRemainder, is addition of logs |
| Reduction.MulIsRemainder | dependencies/libfec/init_rs.h:54-57 | The product of two symbols is the remainder, by the field polynomial, of their carry-less product, which is defined by shifts and exclusive-or alone; of a gfpoly of another degree only the low bits count |
| Reduction.ExpIsRemainder | dependencies/libfec/init_rs.h:50-59 | The register after i steps is the remainder of x^i by the field polynomial |
| Reduction.OnlyRemainder | dependencies/libfec/init_rs.h:54-57 | No other symbol is that remainder |
| Codec.TableRemainder | dependencies/libfec/rs-common.h:20-26 | A table look-up of a sum of logs is the remainder of the carry-less product of the two symbols |
| Field.MulAssoc | dependencies/libfec/rs-common.h:20-26 | The product of symbols is associative |
| Field.MulXor | dependencies/libfec/init_rs.h:51-59 | The product of symbols distributes over exclusive-or on both sides; this is the linearity of the register step |
| Field.NoZeroDivisors | dependencies/libfec/init_rs.h:49-54 | A product of symbols is zero exactly when a factor is |
| Init.FillTables | dependencies/libfec/init_rs.h:48-59 | For every polynomial alpha_to[k] is the remainder of x^k by it, the register ends at that of x^NN, and each entry of index_of is the last exponent at which the register was that symbol, or stays as allocated if it never was; after a return to one the tables are inverse bijections if and only if x is primitive |
| Order.AllWrittenIff | dependencies/libfec/init_rs.h:48-67 | Among the polynomials that pass the check on the register, every nonzero symbol gets an index exactly for the primitive ones |
| Order.PrimitiveIff | dependencies/libfec/init_rs.h:60-67 | A polynomial is primitive exactly when the register returns to one after NN steps and after no proper divisor of NN; a caller can check this |
| Init.BuildGenerator | dependencies/libfec/init_rs.h:87-103 | The product of the linear factors of all roots, in place and then in index form |
| Init.InitRS | dependencies/libfec/init_rs.h:8-106 | Null exactly when a range check fails or the register does not return to one; otherwise a codec of these parameters, valid (tables, iprim, generator) exactly when the polynomial is primitive |
| Init.InRangeMeans | dependencies/libfec/init_rs.h:12-23 | The range checks: symsize fits, first root, prim and number of roots are symbols, prim is not zero, and a data symbol is left |
| Witnesses.AcceptedButNotPrimitive | dependencies/libfec/init_rs.h:60-67 | The check on the register is weaker than primitivity: 0x1f at four bits passes with x of order five, and the symbol 3 gets no index |
| Generator.GeneratorRoots | dependencies/libfec/init_rs.h:87-100 | The generator is monic and vanishes at every root |
| Generator.GeneratorNonzero | dependencies/libfec/init_rs.h:101-103 | No coefficient of the generator is zero, so its indices never are the reserved one |
| Outcomes.CodewordMeans | dependencies/libfec/decode_rs.h:81-93 | A block is a codeword exactly when, as a polynomial with its last symbol as constant term, it vanishes at alpha^(prim (fcr + i)) for all i below nroots; stated with powers of alpha only |
| Encoder.EncodeSymbol | dependencies/libfec/encode_rs.h:40-56 | One data symbol: feedback, shift and last symbol are one step of the division register |
| Encoder.Encode | dependencies/libfec/encode_rs.h:33-58 | Data followed by parity is a codeword, and no other parity makes one |
| Generator.ParityVanishes | dependencies/libfec/encode_rs.h:39-57 | After every symbol, data so far followed by the register vanishes at every root of the generator |
| Generator.ParityUnique | dependencies/libfec/encode_rs.h:33-58 | The parity of a data block is unique |
| Palindrome.Palindromic | dependencies/libfec/encode_rs_av.c:10-13 | With 2 fcr + nroots - 1 a multiple of NN the generator reads the same in both directions and its constant term is one |
| Palindrome.CcsdsIsCentred | dependencies/libfec/fixed.h:29-33 | The fixed CCSDS parameters meet that condition |
| AltiVec.InitTable | dependencies/libfec/encode_rs_av.c:22-37 | The half table holds every product of a symbol with the generator coefficients of degree 1 to nroots/2 |
| AltiVec.VectorStep | dependencies/libfec/encode_rs_av.c:46-58 | Row, mirrored row, shift by one symbol: one step of the register kept in the opposite order |
| AltiVec.EncodeAv | dependencies/libfec/encode_rs_av.c:39-61 | The half-table encoder computes the same parity as the plain one, for every code with centred roots |
| Code.SyndromeIsPowerSum | dependencies/libfec/decode_rs.h:81-93 | A syndrome is the power sum of the locators of the symbols, weighted by the symbols |
| Poly.Vandermonde | dependencies/libfec/decode_rs.h:81-108 | As many consecutive vanishing power sums as distinct nonzero locators force all weights to zero |
| Distance.MinimumDistance | dependencies/libfec/init_rs.h:87-103 | Two different codewords differ in more than nroots positions |
| Distance.DamageDetected | dependencies/libfec/decode_rs.h:95-108 | A block at distance 1 to nroots from a codeword has a nonzero syndrome and is never taken as clean |
| Decoder.FormSyndromes | dependencies/libfec/decode_rs.h:81-93 | The Horner loops evaluate the block at every root of the generator |
| Decoder.ConvertSyndromes | dependencies/libfec/decode_rs.h:95-100 | Syndromes go to index form; the flag tells whether one of them is nonzero |
| Decoder.FormErasureLocator | dependencies/libfec/decode_rs.h:109-122 | The product of the linear factors of the erasures, built in place |
| BerlekampMassey.ErasureLocatorExact | dependencies/libfec/decode_rs.h:109-122 | Its degree is exactly the number of erasures, and a locator is one of a root exactly when it belongs to an erasure |
| Decoder.BMStep | dependencies/libfec/decode_rs.h:169-206 | One Berlekamp-Massey step in the arrays, with b in index form, is the step of the polynomial recursion |
| Decoder.FindLocator | dependencies/libfec/decode_rs.h:160-206 | The whole loop computes that recursion for all syndromes after the erasures |
| BerlekampMassey.StepKeeps | dependencies/libfec/decode_rs.h:169-206 | The invariant of the loop: lambda annihilates the syndromes from el on and vanishes at the erasures, deg lambda <= el, b has discrepancy one and fits its array |
| BerlekampMassey.RunKeeps | dependencies/libfec/decode_rs.h:163-206 | The invariant holds after every number of steps, so no coefficient is ever shifted out |
| BerlekampMassey.LengthMinimal | dependencies/libfec/decode_rs.h:191-192 | el never exceeds the size of any error pattern that explains the syndromes |
| Minimality.LeastLength | dependencies/libfec/decode_rs.h:163-206 | At exit el is the least length of any recurrence for the syndromes that respects the erasures |
| Minimality.LocatorUnique | dependencies/libfec/decode_rs.h:163-206 | lambda is the only such recurrence whenever 2 el <= nroots + erasures |
| BerlekampMassey.FindsLocators | dependencies/libfec/decode_rs.h:163-206 | Within the capacity the final lambda vanishes at the locator of every error and every erasure |
| Decoder.ConvertLambda | dependencies/libfec/decode_rs.h:208-214 | lambda in index form and its degree |
| Decoder.ChienSearch | dependencies/libfec/decode_rs.h:215-239 | The search with its incremental registers records every root of lambda in order, none twice and none passed over before the break |
| Chien.PlaceCongruent | dependencies/libfec/decode_rs.h:218-233 | The place k kept by repeated addition of iprim satisfies prim (k + 1) = root modulo NN |
| Chien.PlacesOfRoots | dependencies/libfec/decode_rs.h:215-239 | The recorded places are distinct, below NN, and exactly the positions at whose locators lambda vanishes |
| Chien.PlaceOnto | dependencies/libfec/decode_rs.h:218-233 | Every position is the place of some root index |
| Decoder.FormOmega | dependencies/libfec/decode_rs.h:252-260 | The evaluator: the low coefficients of the product of syndromes and lambda |
| Values.DerivativeAtRoot | dependencies/libfec/decode_rs.h:273-279 | The sum over odd coefficients is the value of lambda divided by the root's own factor |
| Values.Num2Cancels | dependencies/libfec/decode_rs.h:272 | The second numerator cancels the power of the locator that fcr introduces |
| Decoder.DenominatorNonzero | dependencies/libfec/decode_rs.h:273-289 | The denominator is never zero at a recorded root |
| Decoder.CorrectAll | dependencies/libfec/decode_rs.h:266-291 | All corrections, last place first, each at its place minus the padding and only outside the padding |
| Decoding.ValuesAreForney | dependencies/libfec/decode_rs.h:262-291 | The values written are the weights that solve the evaluator equations |
| Forney.ForneySound | dependencies/libfec/decode_rs.h:248-291 | With as many distinct roots as its degree, the Forney weights reproduce every syndrome, whatever the number of errors |
| Forney.ForneyFirst | dependencies/libfec/decode_rs.h:248-291 | Without any assumption on the syndromes the weights reproduce the first ones, as many as there are roots |
| Decoder.Decode | dependencies/libfec/decode_rs.h:71-298 | Return value, block and erasure list are those of the functional decoder; every codeword within the capacity is restored |
| Restoration.BoundedDistance | dependencies/libfec/decode_rs.h:81-297 | Bounded-distance decoding: with e errors and s erasures, 2 e + s <= nroots, the codeword, the count e + s and the damaged positions come back exactly |
| Restoration.CodewordIff | dependencies/libfec/decode_rs.h:240-297 | After a nonnegative return the block is a codeword if and only if it was clean, or deg lambda = el and no correction fell into the padding |
| Outcomes.GivenUpIff | dependencies/libfec/decode_rs.h:215-247 | Every block with a nonzero syndrome: -1 and an unchanged block exactly when lambda has another number of zeros than its degree, otherwise the zeros are reported in the order of the search and their number is returned |
| Outcomes.CorrectionsExist | dependencies/libfec/decode_rs.h:248-291 | Beyond the capacity too, the corrections made explain as many of the first syndromes as there are places, and nothing else changes in the block |
| Outcomes.CorrectionsUnique | dependencies/libfec/decode_rs.h:248-291 | They are the only corrections at these places that do |
| Witnesses.ReturnCodeIsNotEnough | dependencies/libfec/decode_rs.h:208-239 | A block with syndromes 1, 0 is returned unchanged with value 0 although it is not a codeword |
| Witnesses.ImpulseAccepted | dependencies/libfec/decode_rs.h:163-247 | This happens without erasures for every code with at least two roots and every block whose syndromes are 1, 0, ..., 0 |
| Exercise.NoiseRemoved | dependencies/libfec/rstest.c:83-134 | What the test checks holds for all noise: block restored, count right, exactly the damaged places reported |
| Exercise.Trial | dependencies/libfec/rstest.c:88-134 | Encode, damage, decode, compare: the whole trial with any noise within the capacity |
| Taps.Parity | dependencies/libfec/fec.h:283-288 | Folding a word to a byte and looking up the byte gives the parity of all bits |
| Trellis.BranchExact | dependencies/libfec/viterbi29_port.c:118-131 | The butterfly uses the encoder's own branch costs for all registers and symbols if and only if every polynomial has taps at both ends |
| Convolution.EncoderIsConvolution | dependencies/libfec/vtest27.c:115-122 | Symbol j of step t is 255 exactly when an odd number of taps of polynomial j meets a one among the newest K input bits, the lowest tap at the newest bit, the other way round for an inverted polynomial |
| Trellis.GapIsXor | dependencies/libfec/viterbi29_port.c:120 | Exclusive-or with a table entry of 0 or 255 is the absolute difference of the received symbol and the sent level |
| Viterbi.SetPolynomial | dependencies/libfec/viterbi29_port.c:42-50 | The table of sent levels, inverted for negative polynomials |
| Designs.RawTable | dependencies/libfec/viterbi39_mmx.c:43-51 | Without `abs` an entry of an inverted polynomial is right if and only if its register has an even number of ones above the lowest tap, for every polynomial and state |
| Designs.RawTableOdd | dependencies/libfec/viterbi39_mmx.c:43-51 | For polynomials with a tap at the lowest bit, as all shipped ones, that is an even number of ones in the state |
| Designs.RawTableWrong | dependencies/libfec/viterbi39_mmx.c:47 | Two wrong entries: -0x1ed at state 1 and -6 at state 3 |
| Designs.ShippedDesigns | dependencies/libfec/fec.h:13-178 | All decoders shipped have end taps and wide enough metric words; the largest 16-bit comparisons are 26420 and 7120 |
| Paths.MetricIsLowerBound | dependencies/libfec/viterbi29_port.c:118-131 | No encoder path into a state costs less than the path metric of the state |
| Paths.SurvivorOptimal | dependencies/libfec/viterbi29_port.c:75-104 | Maximum likelihood: the path that the decisions trace back has the least cost of all encoder paths to the end state, equal to its metric, for any symbols and length |
| Paths.SurvivorLeastRaw | dependencies/libfec/viterbi29_port.c:34-38 | In branch costs alone: the survivor is cheapest when paths from states other than the known one count the start bias more, so it leaves the known state only for a path cheaper by at least the bias |
| Convolution.RawIsDistance | dependencies/libfec/viterbi29_port.c:118-131 | With end taps the branch costs of a path add up to the sum of absolute differences between the received frame and what the path would have sent |
| Convolution.NearestDecoded | dependencies/libfec/viterbi29_port.c:75-104 | Of all paths to the end state the decoded one would have sent the frame nearest to the received one, up to the start bias |
| Ties.TieBreak | dependencies/libfec/viterbi29_port.c:123-129 | Of several cheapest paths the one decoded comes, where it last merges with any other, from the lower numbered state under the strict comparison and from the higher numbered one otherwise; this determines it |
| Metrics.SpreadBound | dependencies/libfec/viterbi29_port.c:118-131 | In every reachable state any two path metrics are within max(C + (K-2) M, (K-1) M) |
| Metrics.ComparedGap | dependencies/libfec/viterbi615_mmx.c:152-165 | Compared candidates differ by at most M more |
| Metrics.WrappedDecision | dependencies/libfec/viterbi615_mmx.c:152-165 | The signed test on wrapped metrics makes the decision of unbounded integers, and the kept word is the wrapped exact metric, for ever |
| Viterbi.Decoder.Init | dependencies/libfec/viterbi29_port.c:26-40 | A new frame: metric zero for the known start state, taken modulo the number of states, and the bias for all others; buffers and decision pointer reset |
| Viterbi.Decoder.Butterfly | dependencies/libfec/viterbi615_port.c:112-126 | Two new metrics and two decision bits, by two sums adjusted in place or by four sums; nothing else in the row or the other rows changes |
| Viterbi.Decoder.Step | dependencies/libfec/viterbi29_port.c:146-163 | All butterflies of a bit and the exchange of the buffers keep metrics and decisions those of the exact recursion |
| Viterbi.Decoder.Update | dependencies/libfec/viterbi29_port.c:138-166 | A block of symbols continues the frame; several calls are one longer call |
| Viterbi.Decoder.Chainback | dependencies/libfec/viterbi27_port.c:75-104 | Every output byte holds, oldest bit first, eight bits of the path the decision rows lead to from the given end state, whatever they hold; when the rows were written for the frame this is a cheapest path; the last byte may be partial |
| Viterbi.Decoder.constructor | dependencies/libfec/viterbi29_port.c:54-71 | Room for the bits of a frame and its tail, initialised for start state zero |
| Chainback.WindowBack | dependencies/libfec/viterbi27_port.c:96-103 | One shift of the widened register moves the window of path bits one bit back |
| Chainback.TraceBit | dependencies/libfec/viterbi615_port.c:90-97 | The decision found K-1 rows past a bit is that bit of the survivor |
| Chainback.PartialByte | dependencies/libfec/viterbi27_port.c:84-103 | An output byte that reaches beyond the tail of the path ends in zeros |
| RoundTrip.NoiseFree | dependencies/libfec/vtest27.c:115-131 | Noise-free symbols of any bit string decode to that string |
| RoundTrip.StrictlyCheapest | dependencies/libfec/viterbi27_port.c:75-104 | A path strictly cheaper than all others to its end is the one decoded |
| RoundTrip.WithinHalfDistance | dependencies/libfec/vtest27.c:115-139 | Noise below half the distance to every other path is corrected |
| RoundTrip.TailClears | dependencies/libfec/vtest27.c:115-118 | K-1 zero bits bring the encoder back to state zero |
| Frame.EncodeFrame | dependencies/libfec/vtest27.c:115-122 | The shift-register encoder sends the groups of the message and its tail and keeps the message bytes |
| Frame.SendAndReceive | dependencies/libfec/vtest27.c:115-139 | Encode, initialise, update, chain back: every full byte comes back as sent, for every design with end taps and wide enough words |
| Hop.InterleavedIsPermutation | ofdm_radio/src/FhSeqGenerator.cc:194-210 | Row-column picking with any stride whose square reaches the size is a permutation of the indices |
| Hop.PickedDistinct | ofdm_radio/src/FhSeqGenerator.cc:197-209 | No index is picked twice, so the array is never overrun |
| Hop.Interleave | ofdm_radio/src/FhSeqGenerator.cc:187-210 | The index order of one table: reversed below four entries, interleaved with stride ceil(sqrt(size)) otherwise; always a permutation |
| Hop.OrderIsColumnMajor | ofdm_radio/src/FhSeqGenerator.cc:187-210 | The order reads a square by columns, whose side is the least root of a square that holds the table; smaller tables are read backwards |
| Hop.FillProduct | ofdm_radio/src/FhSeqGenerator.cc:239-258 | The nested loops walk all pairs again and again until the table is full |
| Hop.WalkedAre | ofdm_radio/src/FhSeqGenerator.cc:239-258 | Step k holds the entries at the quotient and the remainder of k by the length of the inner table |
| Hop.LapCovers | ofdm_radio/src/FhSeqGenerator.cc:239-277 | Any window of rf_size * dsp_size consecutive steps meets every pair exactly once |
| Hop.FhSeqGenerator.MakeSeq | ofdm_radio/src/FhSeqGenerator.cc:176-283 | Algorithms A and B: the sequence in its nesting, with that coverage |
| Payload.FrameExtent | ofdm_radio/src_reusable/TxPayload.cc:29-35 | Frames lie end to end and the last one ends with the payload |
| Payload.Reassembled | ofdm_radio/src_reusable/RxPayload.cc:35-68 | In any order and with any duplicates, the packet is complete exactly when every frame has been delivered, and then equals the payload |
| Payload.HeldFrames | ofdm_radio/src_reusable/RxPayload.cc:44-68 | At every moment exactly the frames delivered are held, each with its own bytes |
| Payload.FirstDelivery | ofdm_radio/src_reusable/RxPayload.cc:44-68 | Of all deliveries of one frame, genuine or not, the first counts and the others change nothing |
| Payload.AcceptProgress | ofdm_radio/src_reusable/RxPayload.cc:77-87 | A delivery adds one missing frame or changes nothing; complete means none missing |
| Payload.RxPayload.AddFrame | ofdm_radio/src_reusable/RxPayload.cc:44-68 | Unknown or repeated frames are refused and change nothing; others are copied to their place and flagged |
| Payload.RxPayload.IsComplete | ofdm_radio/src_reusable/RxPayload.cc:35-42 | True exactly when all frames are flagged |
| Payload.RxPayload.NumFramesRemaining | ofdm_radio/src_reusable/RxPayload.cc:77-87 | The number of frames not flagged |
| Payload.TxPayload.GetNextFrame | ofdm_radio/src_reusable/TxPayload.cc:82-104 | Frames in order, each the bytes of its fragment, until none is left; retrieved is set with the last |
| Payload.Transfer | ofdm_radio/src_reusable/TxPayload.cc:82-104 | Sending all frames to a new receiver completes it with the payload |
| Lexemes.EscapeRoundTrip | dependencies/libconfig/lib/libconfig.c:243-290 | Scanning an escaped string with the rules of the string state gives the string back and stops behind the closing quote |
| Spelling.EscapeCodes | dependencies/libconfig/lib/scanner.l:109-114 | The two-character escapes stand for the codes 10, 13, 9, 12, 92 and 34 |
| Spelling.EscapeFolded | dependencies/libconfig/lib/scanner.l:115-119 | The letter and the digits of a hexadecimal escape may be of either case |
| Spelling.EscapedWhen | dependencies/libconfig/lib/libconfig.c:253-284 | The writer escapes quote, backslash and the codes below 32, the latter by two digits unless they have a letter, and nothing else |
| Lexemes.DecimalRoundTrip | dependencies/libconfig/lib/libconfig.c:184-207 | A printed decimal is an optional sign and digits 0 to 9, and reads back as itself |
| Lexemes.NumberRoundTrip | dependencies/libconfig/lib/scanner.l:89-92 | Each of the four printed forms of integers matches the scanner rule of its format and width and no other, and is read back as its number |
| Spelling.PrintedTexts | dependencies/libconfig/lib/libconfig.c:184-207 | Decimals have a sign only if negative, hexadecimals the prefix 0x and the digits of the unsigned pattern, numbers of 64 bits one L |
| Spelling.PrintedDigits | dependencies/libconfig/lib/libconfig.c:184-207 | Printed digits have no superfluous zero and no lower-case letter |
| Spelling.AnyDigits | dependencies/libconfig/lib/scanner.l:89-92 | Any digits of either case are, folded to upper case, zeros in front of the printed digits of the value read |
| Spelling.ScanFolded | dependencies/libconfig/lib/scanner.l:91-92 | Reading hexadecimal numbers ignores the case of their letters |
| Spelling.SignRule | dependencies/libconfig/lib/scanner.l:166-167 | A plus sign changes nothing, a minus sign negates |
| Spelling.SuffixRule | dependencies/libconfig/lib/scanner.l:90-92 | One L or two mean the same |
| Spelling.HexLexeme | dependencies/libconfig/lib/scanner.l:168-172 | A hexadecimal number of any length is saturated at 64 bits and cut to the width of its type |
| Spelling.ValidNameIff | dependencies/libconfig/lib/libconfig.c:530-547 | The names that the library accepts are exactly those of the pattern in the scanner |
| Spelling.BooleanNames | dependencies/libconfig/lib/scanner.l:86-87 | A name becomes a boolean exactly when it reads true or false in any mixture of cases |
| Formats.NumbersWritten | dependencies/libconfig/lib/libconfig.c:1131-1135 | Every number of a tree is written once, in its place, in hexadecimal exactly when its own format or the default is |
| Formats.DefaultHex | dependencies/libconfig/lib/libconfig.c:1131-1135 | With hexadecimal as the default no number is written in decimal |
| Formats.PrintedForm | dependencies/libconfig/lib/libconfig.c:168-392 | The text is that of the form with strings in one piece and a semicolon behind every setting |
| Lexemes.HexRoundTrip | dependencies/libconfig/lib/scanner.c:1158-1172 | Hexadecimal digits of the unsigned pattern read back as the signed number |
| Config.IntToken | dependencies/libconfig/lib/libconfig.c:184-193 | The rule that the printed text of an integer matches makes the token of its value and format |
| ConfigRoundTrip.ReadBack | dependencies/libconfig/lib/grammar.c:512-523 | The grammar reads the printed form of any well-formed value back, each number in the format shown, and stops right behind it |
| Syntax.ReadIff | dependencies/libconfig/lib/grammar.c:512-523 | What is read, and as what: exactly the texts generated by the productions, with strings in pieces and any separators, of settings with valid distinct names and arrays of one kind |
| Syntax.ParseSound | dependencies/libconfig/lib/grammar.c:512-523 | Whatever value is read was written in a legal form with that meaning |
| Syntax.ParseComplete | dependencies/libconfig/lib/grammar.c:512-523 | Every legal form is read with its meaning, and nothing behind it |
| Syntax.StringsComplete | dependencies/libconfig/lib/grammar.c:1558-1570 | Adjacent strings are joined in their order |
| Syntax.AdjacentStrings | dependencies/libconfig/lib/grammar.c:1558-1570 | A setting with two adjacent strings reads as the one with their concatenation |
| Syntax.SameKind | dependencies/libconfig/lib/libconfig.c:1256-1281 | The kinds that an array keeps apart: boolean, integer, 64-bit integer, string |
| Syntax.DuplicateRefused | dependencies/libconfig/lib/grammar.c:1476-1492 | After any legal settings a name already used, or an invalid one, is refused as a duplicate, whatever follows |
| Syntax.MismatchRefused | dependencies/libconfig/lib/grammar.c:1572-1600 | After any elements of one kind a scalar of another kind is refused as a mismatch |
| ConfigRoundTrip.ReadsBackIff | dependencies/libconfig/lib/libconfig.c:631-653 | A well-formed configuration reads back as itself if and only if no setting in it is named like a boolean; otherwise the text is refused |
| ConfigRoundTrip.NamedTrue | dependencies/libconfig/lib/libconfig.c:530-547 | A configuration with one setting named `true` is accepted, written, and refused when read |
| ConfigRoundTrip.ParseGood | dependencies/libconfig/lib/grammar.c:1476-1782 | Whatever is read has valid unique names in every group and arrays of one scalar type |
| ConfigRoundTrip.ReadWriteRead | dependencies/libconfig/lib/libconfig.c:551-613 | Writing what was read and reading it again changes nothing but the formats shown |
| Reader.SameNameIsEqual | dependencies/libconfig/lib/libconfig.c:128-150 | The name comparison is equality on names without path separators |
| Reader.ParseContext.Add | dependencies/libconfig/lib/libconfig.c:1521-1543 | Invalid names, names the group already has, and parents that hold no settings are refused and change nothing; otherwise a record is appended to its parent |
| Reader.ParseContext.Put | dependencies/libconfig/lib/libconfig.c:1256-1281 | A scalar becomes a new element unless its type clashes with the array's first, or fills the waiting setting |
| Reader.ParseContext.ParseValue | dependencies/libconfig/lib/grammar.c:1495-1782 | For all tokens the actions build the value of the grammar in place, change no older setting, report the same error, and restore the parent |
| Reader.ParseContext.ParseSettings | dependencies/libconfig/lib/grammar.c:1476-1492 | Settings of a group, with duplicates refused before their value is read |
| Reader.ParseContext.ReadConfig | dependencies/libconfig/lib/libconfig.c:551-613 | A whole configuration: result and error are those of the grammar and the parse context ends at the root |
| Writer.Stream.WriteValue | dependencies/libconfig/lib/libconfig.c:168-392 | The tokens emitted for a setting are the printed form of its tree |
| Writer.Stream.WriteConfig | dependencies/libconfig/lib/libconfig.c:631-664 | The root is written as its settings without braces |
| Writer.SaveAndLoad | dependencies/libconfig/lib/libconfig.c:551-664 | Saving and loading into a fresh configuration gives the same tree |

## Left out

- Init.InitRS: is specified only for a prim without common divisor with NN, because otherwise the search for iprim never ends (Numbers.StopsIffCoprime).
- Init.InitRS: does not model failing allocation; allocation always succeeds.
- Encoder.Encode: requires at least one root, because the source shifts nroots - 1 symbols.
- Decoder.Decode: does not model overflow of int products such as i * root[j], which can occur for symbols of more than 15 bits.
- Decoder.Decode: leaves out the branches under DEBUG and UNNORMALIZED.
- Decoder.Decode: requires erasure positions below NN and at most nroots of them, as the arrays of the source do.
- AltiVec.EncodeAv: is written for any even number of roots, with a table of half as many columns; the source fixes 32 roots over 8-bit symbols and works in vector registers.
- Viterbi.Decoder.Update: takes the symbols as a sequence that is consumed from the front, and leaves out null handles.
- Viterbi.Decoder.Step: does not model the width of a decision word, in which no bit can be lost; a decision byte of the MMX decoders is represented by the low bit that chainback reads.
- Viterbi.Decoder.Chainback: leaves out the path metric that the K = 9 MMX decoder returns; its correction for wrap-around is described in the source as a guess.
- Viterbi.Decoder.constructor: gets its branch table from the caller; in the source the table is shared by all decoders of a kind.
- Frame.EncodeFrame: sends levels 0 and 255 without noise; noise generation is not part of this model.
- Hop.CeilRoot: is the exact integer for the floating-point ceil(sqrt(n)), which agrees with it for all table sizes that fit an unsigned int.
- Hop.FhSeqGenerator.MakeSeq: requires tables of at least one entry, because the source never ends on an empty one; the sweeps and fixed patterns of the other algorithms are left out.
- Payload.TxPayload.GetNextFrame: describes the returned pointer by its place in the payload.
- Payload.RxPayload.AddFrame: requires as many bytes as the frame takes, as the source's copy does.
- Reader.ParseContext.ParseValue: runs the actions by recursive descent over the productions; the tables and stacks of the generated parser are not modelled.
- Reader.ParseContext.ReadConfig: keeps settings in one sequence and names them by their place in it, so memory management, hooks, line numbers and file names are left out.
- Lexemes.EscapeRoundTrip: works on the characters between the quotes; the other rules of the scanner appear as tokens, each value token being what its rule action makes of the printed text; the rule for floating-point numbers, which needs a point or an exponent, is not modelled.
- Lexemes.ScanNumber: takes decimal text of any length at its value; C leaves atoi and atoll undefined outside the range of their types.
- Config.Print: leaves out white space, which the scanner ignores, and floating-point settings, which are printed with ten digits and do not read back.
- Path lookup, removal and typed getters of libconfig, include files and locale handling.
- The assembler and saturating SIMD decoders, CPU dispatch, speed tests, dot products, and the CCSDS dual-basis tables.
- Hardware control, threads, sockets, clocks and logging of the radio, and the packet store above the payload classes.
