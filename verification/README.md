# Loss-tolerant EDI transport, jitter buffer and framing: a Dafny model

ODR-SourceCompanion receives DAB+ frames from an encoder over UDP, puts them in order, groups them
into superframes, and sends them on as EDI: TAG items in AF packets, AF packets in PFT fragments with
Reed-Solomon protection. This project models the parts of it whose correctness is decided by code, in
the form the code has (arrays rewritten in place, objects with mutable fields, loops), and proves what
they are for.

* **Packet protection.** `Galois`, `Field`, `Code`, `Generator` build GF(256) from a shift register,
  the cyclic code and its minimum distance. `Codec` is the table set-up and the encoder, `Erasures`
  and `Massey` the algebra behind the decoder, `Decoder` and `Correction` the decoder itself
  (syndromes, Berlekamp-Massey, Chien search, Forney), `ReedSolomon` the wrapper class. `ErrorWords`,
  `RepeatedErasures` and `Success` say what a result of the decoder is worth, within the distance of the
  code and beyond it. `PacketLayout`, `Loss`, `Recovery`, `PftPacket`, `Pft` and `Transport` cut an AF packet
  into chunks and fragments, and prove how many packets may be lost: `Recovery.LossTolerance` for fragments and
  `Transport.TransportTolerance` with `Transport.UnbearableLoss` for packets, both exactly; `Ambiguity` says for
  which protection parameters the packets tell the length.
* **Jitter buffer and superframes.** `OrderedQueue`, `QueueRuns` and `LossyRuns` are the circular reorder
  queue and its whole runs, without and with losses; `Superframes` and `AvtInput` are the assembler behind
  it, `SuperframeRuns` goes from arriving frames to finished superframes, and `Datagrams` from an encoder's
  datagrams.
* **Framing.** `Crc` and `CrcTable` relate the table-driven checks to the bit-serial register;
  `TagItems`, `TagPacket` and `AfPacket` serialise, and a length-walking reader inverts them.
* **Threads.** `ThreadsafeQueue` is the monitor of two threads with locking, waiting, unlocking and
  notifying as separate steps, `TcpSendClient` the client that uses it and
  `TcpSendRuns` what its runs do to the buffers.

`dafny verify dfyconfig.toml` checks the project.

## Reading the model

A byte is `Bytes.Byte`, a wrapped `bv8`. `Scale(i, a)` is the i-fold shift-and-reduce of `a`, that is
alpha^i times `a`. Words list the highest power first, as the codec does; locator polynomials list the
lowest power first. Where a method has ghost parameters, they name the value that a table index or a
received word stands for. A capture time is a number of milliseconds.

The monitor and its client are state machines: a `Label` or `Action` is one atomic step, `Enabled` says
when it can happen and `Apply` or `Do` what it changes, and `Run` is any interleaving from the start.

## Where code and documentation differ

* `lib/edioutput/PFT.cpp:163` quotes MIN(floor(c*p/(m+1)), MTU-h); the code leaves out the bound by the
  MTU, and so does the model. `PacketLayout.LimitObserved` says when that makes a difference, and
  `PacketLayout.LimitExceeded` is a case in which it does.
* `lib/fec/init_rs.h:60` calls a polynomial primitive that only brings the register back to 1 after 255
  steps: `Galois.NotEveryAcceptedPolynomialIsPrimitive` is a counterexample, `Galois.PrimitiveIff` the
  exact condition.
* `src/AVTInput.cpp:440` asks for contiguous parts; the code accepts jumps that keep the index modulo 5
  (`SuperframeRuns.ContiguityNotRequired`). `SuperframeRuns.SuperframeContinuity` says when a superframe
  is contiguous.
* `src/OrderedQueue.h:38` promises frames in order; `LossyRuns.OrderExactly` says when that is so, and
  `LossyRuns.LateFrameOutOfOrder` is a run in which it is not.
* `lib/edioutput/TagPacket.h:37` promises a length that is a multiple of eight, which only alignment 8
  guarantees (`TagPackets.OnlyAlignment8`); most of the program's own packets miss it (`TagPackets.CompanionTraffic`).
* `lib/edioutput/TagItems.h` lets a caller set the DSTI counter to any 16-bit value; counters from 8000 on
  run into the flags of the header or wrap (`TagItems.ReadDstiBack`).
* `lib/edioutput/PFT.h:71` calls m the number of fragments that can be recovered if lost. That is true for all
  lengths exactly if m*ceil(48/(m+1)) <= 48 (`Recovery.PromiseExactly`, `Transport.PacketPromiseExactly`): for
  m up to nine and eight larger values (`Recovery.PromisingNumbers`), not for ten (`Recovery.TenLossesCanBeFatal`).
* From m = 48 on the headers no longer determine the packet length (`Ambiguity.UnambiguousExactly`).
* `lib/fec/decode_rs.h:240` takes as many roots as the degree for a success. `Success.SuccessExactly` says when
  the result is then a codeword; words whose first syndrome alone is not zero are reported free of errors
  (`Correction.DecodeRs`, `Success.GivenUpWord`).

## Model

| member | source | states |
|---|---|---|
| Transport.TransportTolerance | lib/edioutput/PFT.cpp:75-320 | for every m, PFT packets whose loss takes at most 48 bytes of any chunk determine the AF packet that was sent: two AF packets with the same remaining packets are equal; for m below 48 their lengths need not be known to be equal |
| Transport.PacketPromiseExactly | lib/edioutput/PFT.cpp:163-191 | for every m with which anything can be sent: any m lost packets can be made good for all packet and chunk lengths if and only if m*ceil(48/(m+1)) <= 48 |
| Transport.AnyLostPackets | lib/edioutput/PFT.cpp:163-191 | for these m every loss of up to m packets is of that kind, whatever the packet length |
| Transport.UnbearableLoss | lib/edioutput/PFT.cpp:75-320 | any larger loss leaves two different AF packets of that length indistinguishable to the receiver, so the condition is exact |
| Ambiguity.UnambiguousExactly | lib/edioutput/PFT.cpp:75-320 | for every m with which anything can be sent: no two AF packets travel in the same packets if and only if m < 48 |
| Ambiguity.LengthNotDetermined | lib/edioutput/PFT.cpp:75-320 | for every m from 48 on a length, with chunks of one byte: any AF packet of this length and the same packet with one zero behind it (two for m = 95) travel in the same packets, even if none is lost |
| Ambiguity.AmbiguousLengthsFit | lib/edioutput/PFT.cpp:268-277 | both lengths fit the header fields whenever anything does with this m |
| Transport.ReceiveAll | lib/edioutput/PFT.cpp:75-194 | de-interleaving all fragments, stripping the parity of as many chunks as fit and dropping RSz bytes gives back the AF packet |
| Transport.PacketRead | lib/edioutput/PFT.cpp:228-320 | what a receiver parses from packet i: sequence number, index, fragment count, FEC flag, RSk, RSz and exactly fragment i |
| Transport.PlainTransport | lib/edioutput/PFT.cpp:195-225 | without protection the list of packets determines the AF packet |
| Transport.SomethingArrives | lib/edioutput/PFT.cpp:163-169 | a loss that takes at most 48 bytes of any chunk leaves some packet |
| Recovery.LossTolerance | lib/edioutput/PFT.cpp:142-194 | any t lost fragments can be made good if and only if t*(n/f)+min(t, n mod f) <= 48 for chunks of n = k+48 bytes in f fragments |
| Recovery.PromiseExactly | lib/edioutput/PFT.h:71 | m as the number of fragments that can be recovered if lost: true for all packet and chunk lengths if and only if m*ceil(48/(m+1)) <= 48 |
| Recovery.PromiseKept | lib/edioutput/PFT.cpp:163-191 | for these m any m fragments may be lost, for every packet length and every chunk length up to 207 |
| Recovery.PromisingNumbers | lib/edioutput/PFT.h:71 | these are the numbers up to nine, and 11, 12, 15, 16, 23, 24, 47 and 48 |
| Recovery.WitnessSizes | lib/edioutput/PFT.cpp:77-172 | an AF packet of 192(m+1) bytes with chunks of at most 192: m+1 chunks of 240 bytes in 5(m+1) fragments of 48 bytes |
| Recovery.WitnessLoss | lib/edioutput/PFT.cpp:180-191 | losing m of these fragments takes more than 48 bytes of a chunk exactly when m*ceil(48/(m+1)) > 48 |
| Recovery.BeyondParity | lib/edioutput/PFT.cpp:163-191 | from m = 49 on no AF packet of any length survives every loss of m fragments |
| Recovery.TenLossesCanBeFatal | lib/edioutput/PFT.cpp:163-191 | m = 10 with an AF packet of 828 bytes: 60 fragments, and ten losses are not always recoverable |
| Recovery.FewLossesRecover | lib/edioutput/PFT.cpp:120-191 | if the lost fragments take at most 48 bytes of every chunk, the rest determines the packet |
| Recovery.ManyLossesHide | lib/edioutput/PFT.cpp:120-191 | otherwise two different packets of that length agree on all fragments that arrive |
| Recovery.EnoughFragments | lib/edioutput/PFT.cpp:164-169 | 48 f >= (k+48)(m+1): the fragment count grows with m |
| Recovery.MissingBytesAreDecodable | lib/edioutput/PFT.cpp:120-137 | a received chunk whose missing bytes are listed as erasures meets the decoder's condition |
| Loss.CountBound | lib/edioutput/PFT.cpp:180-191 | t lost fragments take at most t*(n/f)+min(t, n mod f) of any n consecutive bytes of the interleaved block |
| Loss.WorstLossReached | lib/edioutput/PFT.cpp:180-191 | the first t fragments take exactly that many of the first n bytes |
| PacketLayout.ChunkSizes | lib/edioutput/PFT.cpp:79-100 | k = ceil(l/c) never exceeds the maximum chunk length, (c-1)k < l <= ck, and the padding is less than a chunk |
| PacketLayout.ReceiverRecoversSizes | lib/edioutput/PFT.cpp:163-172 | c = floor(Fcount*Plen/(RSk+48)) and l = c*RSk - RSz give back chunk count and packet length |
| PacketLayout.PayloadAtLeastChunks | lib/edioutput/PFT.cpp:163-164 | for m+1 <= 48 the payload limit is at least one byte of every chunk, so no division by zero |
| PacketLayout.FragmentsAtMostChunk | lib/edioutput/PFT.cpp:163-172 | there are at least one and at most k+48 fragments |
| PacketLayout.DeinterleaveInterleave | lib/edioutput/PFT.cpp:178-191 | de-interleaving gives back the block followed by fewer zero bytes than fragments |
| PacketLayout.CeilDivBounds | lib/edioutput/PFT.cpp:49-50 | the rounded-up quotient q of a by b satisfies (q-1)b < a <= qb |
| PacketLayout.LimitObserved | lib/edioutput/PFT.cpp:163-172 | no fragment exceeds a limit exactly when applying the limit to the payload size would give the same number of fragments |
| PacketLayout.LimitExceeded | lib/edioutput/PFT.cpp:163-172 | an AF packet of 20700 bytes with m = 1 travels in fragments of 2319 bytes |
| Pft.PlainFragmentsJoin | lib/edioutput/PFT.cpp:195-225 | concatenating the unprotected fragments gives the packet; each has 1 to 1400 bytes |
| Pft.PlainFragmentSizes | lib/edioutput/PFT.cpp:195-222 | without protection f is the least number of fragments of at most 1400 bytes, and all but the last have the length ceil(l/f) |
| Pft.ChunkNeverTooLong | lib/edioutput/PFT.cpp:91-100 | the exception for overlong chunks is never thrown, and RSz < RSk |
| Pft.NewPft | lib/edioutput/PFT.cpp:54-73 | configurations with a chunk length above 207 are refused, others give a fresh object |
| Pft.PFT.Protect | lib/edioutput/PFT.cpp:75-140 | the result is the Reed-Solomon block of the zero-padded packet: every chunk followed by the unique 48 bytes that complete it to a codeword; m_num_chunks is updated |
| Pft.PFT.ProtectAndFragment | lib/edioutput/PFT.cpp:142-226 | the result is the interleaved protected block, or the plain stretches when m is 0 |
| Pft.PFT.Assemble | lib/edioutput/PFT.cpp:228-320 | one packet per fragment, all with the current sequence number, which then advances modulo 2^16 |
| Pft.PFT.OverridePSeq | lib/edioutput/PFT.cpp:322-325 | sets the sequence number |
| Pft.ProtectChunks | lib/edioutput/PFT.cpp:120-137 | the loop over chunks computes the block, chunk by chunk |
| Pft.EncodeChunk | lib/edioutput/PFT.cpp:122-132 | a chunk padded to 207 bytes, encoded, and the padding dropped |
| Pft.InterleaveBlock | lib/edioutput/PFT.cpp:178-191 | byte j of fragment i is byte j*f+i of the block, zero behind its end |
| Pft.CutPlain | lib/edioutput/PFT.cpp:208-222 | fragment i is the i-th stretch of the packet |
| Pft.AssembleOne | lib/edioutput/PFT.cpp:250-309 | header, complemented CRC of the header, payload |
| PftPacket.ParsePacketRoundTrip | lib/edioutput/PFT.cpp:250-309 | parsing a packet per section 7 of ETSI TS 102 821 gives back every field and the payload, for 14-bit payload lengths and 24-bit counts |
| PftPacket.PacketParts | lib/edioutput/PFT.cpp:298-307 | the CRC over header and check bytes ends at 0x1d0f; the payload follows |
| Galois.PrimitiveIff | lib/fec/init_rs.h:60-67 | a polynomial that passes the test sr == 1 gives 255 distinct powers if and only if the powers 85, 51 and 15 of alpha are not 1 |
| Galois.NotEveryAcceptedPolynomialIsPrimitive | lib/fec/init_rs.h:60-67 | the test lets x^8+x^4+x^3+x+1 pass, whose alpha has a smaller order |
| Galois.ReturningIsOdd | lib/fec/init_rs.h:55-60 | an even polynomial never passes the test |
| Galois.AlphaOrder | lib/fec/init_rs.h:51-60 | for 0x11d the order of alpha is exactly 255 |
| Field.LogUnique | lib/fec/init_rs.h:53-54 | the logarithm of alpha^i is i: the two tables are inverse on the 255 nonzero elements |
| Field.ScaleXor | lib/fec/encode_rs.h:49 | multiplication by a power of alpha distributes over xor |
| Field.ScaleMod | lib/fec/rs-common.h:20-26 | exponents may be reduced modulo 255 |
| Field.ScaleSame | lib/fec/rs-common.h:20-26 | two powers of alpha agree on a nonzero element exactly when the exponents are congruent modulo 255 |
| Field.MulLog | lib/fec/decode_rs.h:173-175 | the product of nonzero elements is alpha to the sum of their logarithms |
| Codec.ModNN | lib/fec/rs-common.h:20-26 | modnn terminates and equals x mod (2^mm - 1) for every x >= 0 and mm >= 1, and returns a negative x unchanged |
| Codec.FillTables | lib/fec/init_rs.h:48-59 | alpha_to[i] is alpha^i for every polynomial, sr ends at alpha^255, and index_of inverts it when the powers are distinct |
| Codec.Rs.TimesAlpha | lib/fec/init_rs.h:94 | alpha_to[modnn(index_of[a]+e)] is the e-fold shift-and-reduce of a nonzero a |
| Codec.MultiplyRoot | lib/fec/init_rs.h:89-99 | one round of the loop multiplies the polynomial in place by x + alpha^root |
| Codec.BuildGenPoly | lib/fec/init_rs.h:87-100 | genpoly is the product over all roots |
| Codec.InitRs | lib/fec/init_rs.h:11-104 | null exactly for parameters outside the accepted ranges; otherwise the control block holds correct tables and the generator in index form |
| Generator.GenPolyRoots | lib/fec/init_rs.h:87-100 | the generator vanishes at the nroots consecutive powers of alpha and is monic |
| Generator.GenPolyNonzero | lib/fec/init_rs.h:87-103 | no coefficient of the generator is zero, on which the encoder relies |
| Generator.ParityCompletes | lib/fec/encode_rs.h:37-57 | data followed by its parity is a codeword, for every message |
| Generator.ParityUnique | lib/fec/encode_rs.h:37-57 | only one parity completes the data to a codeword |
| Codec.EncodeStep | lib/fec/encode_rs.h:40-56 | one symbol through the feedback register, in place |
| Codec.EncodeRs | lib/fec/encode_rs.h:37-57 | the parity array becomes the parity of the data, which itself stays unchanged |
| Code.BchBound | lib/fec/init_rs.h:87-100 | a word with nroots consecutive zero syndromes and at most nroots nonzero symbols is zero |
| Code.MinimumWeight | lib/fec/init_rs.h:87-100 | a nonzero codeword has at least nroots+1 nonzero symbols |
| Code.MinimumDistance | lib/fec/init_rs.h:87-100 | codewords that agree outside nroots places are equal |
| Code.CodewordOn | lib/fec/init_rs.h:87-100 | on any nroots+1 places there is a codeword that is nonzero exactly there: the bound is sharp |
| Decoder.Syndromes | lib/fec/decode_rs.h:81-93 | s[i] is the received word evaluated at alpha^(FCR+i) |
| Decoder.ToIndex | lib/fec/decode_rs.h:95-100 | conversion to index form |
| Decoder.MultiplyFactor | lib/fec/decode_rs.h:116-121 | the inner loop multiplies lambda in place by 1 + X x |
| Decoder.ErasureLocator | lib/fec/decode_rs.h:109-122 | lambda is the product of 1 + X x over the erasures |
| Decoder.ComputeDiscrepancy | lib/fec/decode_rs.h:170-176 | the discrepancy is the coefficient r-1 of syndromes times lambda |
| Decoder.UpdateLambda | lib/fec/decode_rs.h:183-190 | t = lambda - discrepancy * x * b |
| Decoder.ShiftB | lib/fec/decode_rs.h:179-202 | b becomes x * b |
| Decoder.ScaleB | lib/fec/decode_rs.h:197-198 | b becomes lambda divided by the discrepancy |
| Decoder.BerlekampMassey | lib/fec/decode_rs.h:156-206 | the loop over the arrays computes the polynomial that the recursive function Loop gives for the syndromes and the erasure locator |
| Massey.StepZero | lib/fec/decode_rs.h:178-181 | a zero discrepancy keeps the loop invariant |
| Massey.StepSameLength | lib/fec/decode_rs.h:182-204 | so does an update without change of length |
| Massey.StepNewLength | lib/fec/decode_rs.h:191-204 | so does an update that changes the length to r + no_eras - el |
| Massey.LengthBound | lib/fec/decode_rs.h:191-192 | the new length never exceeds the number of locations of any error list that has these erasures and explains the syndromes |
| Massey.FinalSolves | lib/fec/decode_rs.h:156-206 | for all syndromes: the loop ends with a polynomial that vanishes at the erasures and generates the syndromes with the final length, and no error list that explains them is shorter |
| Massey.LoopResult | lib/fec/decode_rs.h:156-206 | if an error list within 2*errors + erasures <= NROOTS explains the syndromes, the loop ends with the locator of all its errors and erasures |
| Massey.GivenUp | lib/fec/decode_rs.h:156-206 | if the first syndrome alone is not zero, the loop ends with the constant 1 and length 1 |
| RepeatedErasures.RepeatedErasureFails | lib/fec/decode_rs.h:109-122 | with a repeated erasure the loop never ends with the locator of positions, so the decoder fails |
| Massey.FactorTheorem | lib/fec/decode_rs.h:167-206 | a polynomial of that degree that vanishes at all inverse locations is the locator |
| Massey.WeightedCoefficient | lib/fec/decode_rs.h:170-176 | every coefficient of syndromes times a polynomial, at or above the degree of the polynomial, is a power sum weighted by the polynomial's values at the inverse locations |
| Massey.NoHiddenErrors | lib/fec/decode_rs.h:82-107 | values at distinct locations, the first rho of them zero, are all zero once as many consecutive syndromes vanish as there are further locations |
| Erasures.LocatorRoots | lib/fec/decode_rs.h:215-239 | the locator vanishes exactly at the inverses of the locations |
| Erasures.LocatorDegree | lib/fec/decode_rs.h:208-214 | its degree is the number of locations and its constant term is 1 |
| Erasures.KeyEquation | lib/fec/decode_rs.h:248-260 | syndromes times locator give the evaluator, up to its degree |
| Erasures.ErasureDiscrepanciesVanish | lib/fec/decode_rs.h:167-178 | with erasures only, every discrepancy of the loop is zero |
| Erasures.Forney | lib/fec/decode_rs.h:262-290 | at an inverse location the evaluator is the derivative of the locator, which is not zero, times the error value and a power of the location |
| Erasures.ForneyValue | lib/fec/decode_rs.h:272-289 | the exponent arithmetic of the correction loop yields the error value |
| Correction.DegreeOf | lib/fec/decode_rs.h:208-214 | deg_lambda is the degree |
| Correction.EvaluateAt | lib/fec/decode_rs.h:219-225 | one step of the search advances the registers and gives lambda at alpha^i |
| Correction.ChienSearch | lib/fec/decode_rs.h:215-239 | all roots are found when fewer than the degree are; the locations are the roots less one |
| ErrorWords.LocatorVanishes | lib/fec/decode_rs.h:215-239 | the locator of positions vanishes at alpha^e exactly for e one more than a position |
| ErrorWords.SameLocator | lib/fec/decode_rs.h:215-239 | a locator determines its positions up to their order |
| Correction.RootsAreInverses | lib/fec/decode_rs.h:215-247 | the search finds exactly the positions, as many as the degree, which is what the debugging block checks |
| Correction.ComputeOmega | lib/fec/decode_rs.h:248-260 | omega holds the product of syndromes and locator |
| Correction.Numerator | lib/fec/decode_rs.h:267-271 | num1 is omega at the root |
| Correction.Denominator | lib/fec/decode_rs.h:273-279 | den is the formal derivative of lambda at the root |
| Correction.CorrectSymbol | lib/fec/decode_rs.h:266-290 | one symbol is xored with its error value, no other changes |
| Correction.CorrectAll | lib/fec/decode_rs.h:248-291 | the loop takes away from the data the one word that is zero outside the located symbols and has as many of the received syndromes |
| ErrorWords.ErrorPattern | lib/fec/decode_rs.h:81-298 | a received word and any codeword determine a list of positions and values, erasures first, that explains the syndromes |
| ErrorWords.CodewordWithinReach | lib/fec/decode_rs.h:102-108 | a codeword within reach of another one is that codeword, so zero syndromes mean no errors |
| Success.WordWithSyndromes | lib/fec/decode_rs.h:81-93 | on any places there is a word with as many prescribed syndromes |
| Success.MatchUnique | lib/fec/decode_rs.h:248-291 | only one word is zero outside the located symbols and has as many of the received syndromes |
| Success.MatchForney | lib/fec/decode_rs.h:248-290 | whatever was received, the evaluator and the derivative at a root give the value of that word there |
| Success.AllSyndromesMatch | lib/fec/decode_rs.h:156-206 | a word that has the first syndromes, one per position, has all of them if the locator of its positions generates the received ones from its degree on |
| Success.LengthAtMostErrors | lib/fec/decode_rs.h:191-192 | erasures and unknown errors of any codeword are at least as many as the final length |
| Success.SuccessExactly | lib/fec/decode_rs.h:240-298 | for every received word and erasure list: a success leaves a codeword if and only if deg_lambda is the final el and no nonzero error value lies below PAD |
| Success.NoNearerCodeword | lib/fec/decode_rs.h:240-298 | a success that leaves a codeword leaves a nearest one, erased symbols not counted |
| Success.DecodableFound | lib/fec/decode_rs.h:109-298 | within 2*errors + erasures <= NROOTS of a codeword, what is found is this codeword and the positions of everything that was wrong |
| Success.GivenUpWord | lib/fec/decode_rs.h:81-93 | for two or more roots and every length that holds them there is a word whose first syndrome alone is not zero, and it is no codeword |
| Correction.FindLocator | lib/fec/decode_rs.h:109-206 | erasure locator, then Berlekamp-Massey: the polynomial that Loop gives for these erasures |
| Correction.LocateErrors | lib/fec/decode_rs.h:208-247 | degree, roots and locations: as many roots as the degree are found if and only if the polynomial is the locator of some positions, and then of the locations found |
| Correction.DecodeErrors | lib/fec/decode_rs.h:109-298 | the decoder behind the syndrome test: it fails exactly if the loop ends with no locator; otherwise it returns the number of positions, lists them and takes the matching error values away |
| Correction.DecodeRs | lib/fec/decode_rs.h:71-298 | for every codeword within 2*errors + erasures <= NROOTS of the received word: the data becomes it, the result counts erasures and errors, eras_pos lists exactly their positions; a codeword is left unchanged with result 0; a failed decoding leaves the data unchanged; for every other word: when it fails, when a success leaves a codeword, and that no codeword is then nearer |
| ReedSolomonCodec.NewReedSolomon | lib/ReedSolomon.cpp:43-62 | N and K are mapped to nroots = N-K and pad = 255-N; exactly the parameters that init_rs refuses throw |
| ReedSolomonCodec.ReedSolomon.Encode | lib/ReedSolomon.cpp:79-102 | forward: fec is the parity of the data; reverse: data and fec become the codeword within reach, and are left unchanged for the results 0 and -1; if they end as a codeword, none is nearer; a word whose first syndrome alone is not zero gives 0 |
| ReedSolomonCodec.ReedSolomon.SetReverse | lib/ReedSolomon.cpp:73-76 | sets the direction |
| ReedSolomonCodec.DecodePair | lib/ReedSolomon.cpp:86-95 | decoding in a joint buffer and copying back |
| ReedSolomonCodec.EncodedIsDecodable | lib/ReedSolomon.cpp:79-102 | what the encoder produced and the channel changed in at most nroots/2 places is decodable |
| QueueRuns.ReorderTolerance | src/OrderedQueue.cpp:38-118 | in every run in which frames are displaced by less than the capacity and none overran, pops deliver the frames in the order of their numbers with their own contents, none twice and none skipped, also across the wrap of the index |
| QueueRuns.Conservation | src/OrderedQueue.cpp:38-118 | pushes = successful pops + stock + duplicated + overruns, in every run |
| QueueRuns.CountersExactly | src/OrderedQueue.cpp:51-73 | in every run the counter of overruns is the number of pushes that met a full stock, the counter of duplicates that of accepted pushes whose index was in stock |
| QueueRuns.RunSound | src/OrderedQueue.cpp:38-118 | by induction over every run, the stock never exceeds the capacity and holds indexes in [0, maxIndex) only |
| QueueRuns.PopOrigin | src/OrderedQueue.cpp:82-96 | a popped frame is the one stored by the last accepted push of its index, and that push has not been popped before |
| LossyRuns.LossyDelivery | src/OrderedQueue.cpp:38-118 | with losses: as long as no frame arrives after a pop has passed its number, pops deliver in strictly increasing order, each frame with its own content, and the numbers skipped are exactly those never accepted; what is accepted and not yet passed is in stock |
| LossyRuns.OrderExactly | src/OrderedQueue.cpp:38-118 | frames leave in strictly increasing order if and only if none of the delivered ones had arrived after a pop had passed its number |
| LossyRuns.DeliveredParts | src/OrderedQueue.cpp:38-118 | what leaves a run is, pop by pop, the frame last accepted under that index, with its own content |
| LossyRuns.MissingFrameSkipped | src/OrderedQueue.cpp:98-108 | while the next frame is missing, a pop skips it exactly when the stock is full, and goes on with the least accepted number behind it, however many frames were lost before |
| LossyRuns.PopOrder | src/OrderedQueue.cpp:82-118 | a punctual frame leaves ahead of all other punctual ones, a late one behind a number at least as large |
| LossyRuns.LateFrameOutOfOrder | src/OrderedQueue.h:37-39 | the class comment promises frames in order: a run in which frame 11 arrives late and leaves behind frame 12 |
| LossyRuns.ArrivalOrder | src/OrderedQueue.cpp:38-118 | with room for one frame, fetching after every arrival delivers any list of numbers in the order of arrival |
| QueueRuns.TrackArrival | src/OrderedQueue.cpp:38-64 | an arrival within the window gets an index of its own |
| QueueRuns.TrackFetch | src/OrderedQueue.cpp:82-96 | a pop delivers the next frame if it has arrived, and nothing otherwise |
| OrderedQueues.PopDetermined | src/OrderedQueue.cpp:82-118 | the outcome of a pop is determined by the state: the stored index at the least circular distance, or nothing |
| OrderedQueues.JumpOnlyWhenFull | src/OrderedQueue.cpp:98-108 | indexes are skipped exactly when the stock is full and lacks the successor |
| OrderedQueues.StepSound | src/OrderedQueue.cpp:38-118 | pushes and pops keep the bounds of the stock |
| OrderedQueues.SearchMiss | src/OrderedQueue.cpp:102-108 | a miss with a full stock brings the search one index closer to every stored one, so it terminates |
| OrderedQueues.OrderedQueue.constructor | src/OrderedQueue.cpp:32-36 | an empty queue |
| OrderedQueues.OrderedQueue.Push | src/OrderedQueue.cpp:38-74 | the first push fixes the start, a stored index is replaced and counted as duplicate, a full queue counts an overrun |
| OrderedQueues.OrderedQueue.Pop | src/OrderedQueue.cpp:82-118 | nothing exactly when the stock is empty or is below capacity without the successor; otherwise the next stored frame is removed and returned |
| SuperframeRuns.ReorderedDelivery | src/AVTInput.cpp:430-508 | end to end: frames displaced by less than the capacity of a queue that never overran leave as superframes of five consecutive frames each, from the first number divisible by 5 on, without loss, 120 ms apart |
| Superframes.FiveConsecutiveParts | src/AVTInput.cpp:444-503 | every superframe is five parts popped one after the other, with indexes 0, 1, 2, 3, 4 modulo 5, and superframes do not overlap |
| Superframes.FiveMakeSuperframe | src/AVTInput.cpp:453-483 | conversely, with nothing under construction, five such parts make a superframe |
| Superframes.SuperframeTimes | src/AVTInput.cpp:453-502 | a superframe right behind the previous one is 120 ms later, any other has the capture time of its first part plus 96 ms |
| Superframes.PartsConserved | src/AVTInput.cpp:444-494 | every popped part is in a superframe, under construction or discarded |
| Superframes.GapFreeStream | src/AVTInput.cpp:444-503 | while indexes advance by one, including from 4999 to 0, alignment is never reset and no part is discarded after the first aligned one |
| Superframes.FivePhasedParts | src/AVTInput.cpp:444-494 | five parts in a row with indexes 0 to 4 modulo 5 are a superframe exactly when nothing is under construction before them, and are all discarded otherwise; in either case nothing is under construction behind them |
| Superframes.ExpectedIsSuccessor | src/AVTInput.cpp:461-482 | while aligned, the expected index is the successor of the last part's index |
| Superframes.ErrorIffJump | src/AVTInput.cpp:465-472 | within a superframe the sequence error is reported for exactly the parts whose index is not the successor of the one before |
| SuperframeRuns.RecoveryAfterLoss | src/AVTInput.cpp:430-508 | whatever was lost before, of ten consecutive frames delivered from a number divisible by 5 on the second five are a superframe with their own contents |
| SuperframeRuns.FollowsIffInStock | src/OrderedQueue.cpp:88-108 | a pop follows the previous one exactly when the successor was in stock |
| SuperframeRuns.SuperframeContinuity | src/AVTInput.cpp:440-482 | the five indexes of a superframe are successive exactly when the successor was in stock at each of its last four pops, which is when no sequence error is reported |
| SuperframeRuns.ContiguityNotRequired | src/AVTInput.cpp:440-472 | a run of the queue from which frames 0, 6, 12, 18, 24 leave and make a superframe |
| Superframes.UnalignedIsEmpty | src/AVTInput.cpp:453-492 | without alignment nothing is under construction |
| Datagrams.FrameNumberBack | src/AVTInput.cpp:267-281 | a frame counter below 5000 written as DFCTH and DFCTL is read back, whatever the bits below DFCTH |
| Datagrams.OneDatagram | src/AVTInput.cpp:267-281 | one datagram causes a push under the counter that its encoder meant, whatever the bits below DFCTH, or nothing if it is not recognised or has the wrong size |
| Datagrams.TransmittedPushes | src/AVTInput.cpp:398-428 | datagrams with the frames n under the counters n mod 5000 cause exactly the pushes of these frames under their numbers, in the order of arrival |
| Datagrams.EncoderRun | src/AVTInput.cpp:398-508 | for frames of an encoder displaced by less than the capacity of a queue that never overran: every frame before the next one has arrived, a pop that finds nothing means that the next one has not, and the superframes are those the encoder meant |
| Datagrams.DeliveredAsSent | src/AVTInput.cpp:398-508 | end to end from datagrams: for every such encoder superframe d is handed out exactly when its five frames and all before them have arrived, with their data one behind the other, at the capture time of the first frame of superframe 0 plus 96 + 120 d ms |
| AvtInput.AVTInput.SetDabPlusParameters | src/AVTInput.cpp:86-121 | returns 0 exactly for admissible parameters, and then a fresh object is ready with a buffer of 120 bytes per sub-channel index, mode and sample rate are set and the encoder is told; on a used object the missing parts fit behind those counted exactly if there are none or the frame size does not shrink; otherwise queue and buffer stay |
| AvtInput.AVTInput.ReadyHasRoom | src/AVTInput.cpp:474-476 | in every state between calls the missing parts fit behind those in the buffer |
| AvtInput.AVTInput.ResetBuffers | src/AVTInput.cpp:113-116 | an empty queue, and a zeroed buffer of five parts |
| AvtInput.AVTInput.SendCtrlMessage | src/AVTInput.cpp:310-324 | the control message if the encoder has an address, nothing otherwise |
| AvtInput.ControlMessageBack | src/AVTInput.cpp:291-324 | the six bytes of the message in the encoder's terms: 0xFD, 0x07, bit rate / 8, the mode of each of the five configurations, the sample rate flag, mono mode 0 |
| AvtInput.AVTInput.ReadFrame | src/AVTInput.cpp:398-428 | a recognised frame of the configured size whose encoder wrote counter c is pushed under number c with its data and time; any other datagram changes nothing |
| AvtInput.AVTInput.ReadAll | src/AVTInput.cpp:434-436 | all that has arrived is read first |
| AvtInput.AVTInput.TakePart | src/AVTInput.cpp:451-493 | one part aligns, is appended, is ignored or resets; the buffer always holds the bytes of the accepted parts and has room |
| AvtInput.AVTInput.Append | src/AVTInput.cpp:474-476 | the copy behind the parts in the buffer stays inside it |
| AvtInput.AVTInput.PopAndTake | src/AVTInput.cpp:444-494 | one turn of the loop removes a frame from the queue or ends the loop |
| AvtInput.AVTInput.Deliver | src/AVTInput.cpp:496-503 | a complete superframe is handed out exactly when the caller's buffer has room; otherwise its five parts are kept |
| AvtInput.AVTInput.GetNextFrame | src/AVTInput.cpp:430-508 | the n-th successful call returns the bytes and the time of the n-th superframe of everything popped so far; without one, either the buffer is too small or the queue has nothing to pop; for an encoder whose frames are displaced by less than the capacity and a queue that never overran, the call succeeds exactly when the superframe is complete and returns what was sent |
| AvtInput.AVTInput.UnalignedBufferIsEmpty | src/AVTInput.cpp:453-492 | unaligned implies an empty buffer, in every state between calls |
| AvtInput.PopSized | src/AVTInput.cpp:416-420 | every popped part has the configured size |
| Crc.InitTable | lib/crc.c:172-235 | for every polynomial and every register width of at least 8, all-ones initialisation fills the table with the register after each byte |
| Crc.TableCrc | lib/crc.c:238-266 | the byte-wise CRC equals the bit-serial shift register on every message and start value |
| Crc.TurnByTable | lib/crc.c:251-252 | eight register steps are a byte shift xored with a table entry |
| Crc.TableEntry | lib/crc.c:199-210 | complemented index, start value and correction cancel |
| Crc.TurnXor | lib/crc.c:247-255 | the register is linear in start value and message |
| CrcTable.StaticTableCorrect | lib/crc.c:68-101 | the static 16-bit table is the table of 0x1021 |
| Crc.Residue | lib/edioutput/AFPacket.cpp:78-87 | a message followed by its complemented CRC drives the register to a constant, whatever the message and the start |
| Crc.ResidueOnlyIf | lib/edioutput/AFPacket.cpp:78-87 | no other check bytes do |
| Crc.EdiResidue | lib/edioutput/AFPacket.cpp:78-87 | for 0x1021 that constant is 0x1d0f |
| Crc.BurstDetected | lib/crc.c:247-255 | equal-length messages that differ only within two adjacent bytes have different CRCs, for every 16-bit polynomial with constant term 1 |
| Crc.TurnInjective | lib/crc.c:247-255 | over as many bits as the register has, different messages lead to different registers |
| AfPackets.ReadAfBack | lib/edioutput/AFPacket.cpp:47-93 | reading an AF packet gives back sequence number and payload |
| AfPackets.CorruptionDetected | lib/edioutput/AFPacket.cpp:78-87 | an accepted packet changed within two adjacent bytes is rejected |
| AfPackets.ReceiverReadsItems | lib/edioutput/AFPacket.cpp:47-93 | from AF packet to items: sequence number, every transmitted field of every item, and the dummy item of a large alignment |
| AfPackets.AFPacketiser.Assemble | lib/edioutput/AFPacket.cpp:47-93 | the AF packet of the assembled TAG packet with the current sequence number, which advances modulo 2^16 unless an item throws |
| AfPackets.AFPacketiser.OverrideSeq | lib/edioutput/AFPacket.cpp:95-98 | sets the sequence number |
| TagItems.ReadTagsWriteTags | lib/edioutput/TagPacket.cpp:53-64 | walking from length to length over any list of tags, padded by fewer than eight bytes, gives back the list |
| TagItems.ReadItemBack | lib/edioutput/TagItems.cpp:202-445 | the item read from a tag by the names *ptr, dsti, ss, ODRv, ODRa and *dmy, given byte by byte, is the item written, up to absent optional fields and the upper byte of TSTA |
| TagItems.ReadDstiBack | lib/edioutput/TagItems.cpp:202-263 | flags, frame counter as DFCTH*250+DFCTL and the optional fields of a DSTI item are read back exactly for counters below 8000; above, the counter runs into the flags or wraps |
| TagItems.ReadSsmBack | lib/edioutput/TagItems.cpp:304-359 | the fields of a stream item, for values in their ranges |
| TagPackets.AdvancedIs | lib/edioutput/TagItems.cpp:256 | from the first assembly on a counter stands at (start + n) modulo its range, wherever it started |
| TagPackets.CounterOnTheWire | lib/edioutput/TagItems.cpp:214-256 | after n > 0 assemblies the DSTI header decodes to (start + n) mod 5000, for every 16-bit start |
| TagPackets.PatchLength | lib/edioutput/TagItems.cpp:246-254 | the placeholder is overwritten by the length of the value in bits |
| TagPackets.TagDSTI.Assemble | lib/edioutput/TagItems.cpp:202-263 | the tag with the present 16-bit counter, which then advances modulo 5000 |
| TagPackets.AssembleSsm | lib/edioutput/TagItems.cpp:304-359 | the tag, or an exception exactly for RFA of 32, TID or TIDEXT of 8, or STID of 4096 and more |
| TagPackets.AssembleStarPtr | lib/edioutput/TagItems.cpp:46-67 | the *ptr tag |
| TagPackets.AssembleOdrVersion | lib/edioutput/TagItems.cpp:387-413 | the ODRv tag |
| TagPackets.AssembleOdrAudioLevels | lib/edioutput/TagItems.cpp:421-445 | the ODRa tag, levels in two's complement |
| TagPackets.AssembleStarDmy | lib/edioutput/TagItems.cpp:362-379 | the *dmy tag |
| TagPackets.TagPacket.AssembleItems | lib/edioutput/TagPacket.cpp:51-56 | items are written one after the other up to the first that throws, and the counters of the written ones have advanced |
| TagPackets.TagPacket.Align | lib/edioutput/TagPacket.cpp:58-73 | padding to a multiple of eight for alignment 8, a dummy item for larger alignments, nothing else |
| TagPackets.TagPacket.Assemble | lib/edioutput/TagPacket.cpp:41-76 | raw bytes or items, an error for both, and an error exactly when an item throws |
| TagPackets.PacketReadBack | lib/edioutput/TagPacket.cpp:41-76 | a receiver reads exactly the items that were written, for every alignment |
| TagPackets.PacketLength | lib/edioutput/TagPacket.cpp:41-76 | the length of a packet from the fields of its items and the alignment |
| TagPackets.FillIsZero | lib/edioutput/TagPacket.cpp:58-73 | what the alignment adds behind the items is zero, except for name and length of a dummy item |
| TagPackets.PacketAligned | lib/edioutput/TagPacket.h:37-39 | when the length is a multiple of eight, in terms of the fields of the items |
| TagPackets.OnlyAlignment8 | lib/edioutput/TagPacket.h:37-39 | the class comment's promise of a multiple of eight holds for every list of items exactly for alignment 8 |
| TagPackets.CompanionTraffic | src/Outputs.cpp:204-246 | with the default alignment 0 the program's own packets are one byte beyond a multiple of eight; with the version they are a multiple of eight exactly if the version string is three bytes beyond one |
| ThreadsafeQueues.StepInv | lib/ThreadsafeQueue.h:61-228 | every atomic step of either thread keeps mutual exclusion and loses no wakeup: a sleeping thread whose wait condition has become false has a notification under way |
| ThreadsafeQueues.RunInv | lib/ThreadsafeQueue.h:61-228 | the same in every state of every interleaving, spurious wakeups included |
| ThreadsafeQueues.EffectNotifies | lib/ThreadsafeQueue.h:61-228 | an operation that ends the other thread's need to wait also notifies it |
| ThreadsafeQueues.WhoIsNotified | lib/ThreadsafeQueue.h:61-226 | pushes and wakeup requests notify the consumer, an element taken notifies the producer, nothing else notifies anybody |
| ThreadsafeQueues.WakeupArrives | lib/ThreadsafeQueue.h:117-226 | two steps of the other thread later the sleeper is awake |
| ThreadsafeQueues.NeverBothAsleep | lib/ThreadsafeQueue.h:149-228 | both threads are asleep only if the prebuffering exceeds the threshold |
| ThreadsafeQueues.BothAsleepPossible | lib/ThreadsafeQueue.h:149-228 | for every prebuffering above the threshold some interleaving puts both to sleep |
| ThreadsafeQueues.BothAsleepExactly | lib/ThreadsafeQueue.h:149-228 | both can be asleep if and only if the prebuffering exceeds the threshold |
| ThreadsafeQueues.BlockedForGood | lib/ThreadsafeQueue.h:149-228 | once both are asleep no step, spurious wakeups included, leads out |
| ThreadsafeQueues.StuckOnlyWaiting | lib/ThreadsafeQueue.h:61-228 | when neither thread can proceed, each is outside or waits for a condition that really does not hold |
| ThreadsafeQueues.ThreadsafeQueue.Push | lib/ThreadsafeQueue.h:61-76 | the element is appended unless a positive limit is reached; the result is the new size |
| ThreadsafeQueues.ThreadsafeQueue.PushOverflow | lib/ThreadsafeQueue.h:105-122 | the newest elements, the pushed one last, as many as the limit admits; overflow exactly if the limit was reached before |
| ThreadsafeQueues.ThreadsafeQueue.PushBelow | lib/ThreadsafeQueue.h:155-161 | append below the threshold |
| ThreadsafeQueues.ThreadsafeQueue.TriggerWakeup | lib/ThreadsafeQueue.h:167-173 | the flag is set |
| ThreadsafeQueues.ThreadsafeQueue.TryPop | lib/ThreadsafeQueue.h:193-207 | the front, or nothing from an empty queue |
| ThreadsafeQueues.ThreadsafeQueue.PopAwake | lib/ThreadsafeQueue.h:217-227 | a requested wakeup comes before any element: it is consumed and the queue stays as it is; otherwise the front is removed and returned |
| TcpSendClient.DoInv | lib/Socket.cpp:1142-1189 | every step of the application and of the sender keeps the log, the bound and the closing protocol |
| TcpSendClient.SentInOrder | lib/Socket.cpp:1142-1189 | in every interleaving the buffers on the wire are a subsequence of those submitted, in order |
| TcpSendClient.QueueBounded | lib/Socket.cpp:1142-1154 | between calls of sendall the queue holds at most 512 buffers, during a call at most 513 |
| TcpSendClient.BuffersConserved | lib/Socket.cpp:1142-1189 | every submitted buffer is sent, discarded, lost in a failed transmission, held by the sender, queued or in flight |
| TcpSendRuns.ActionsSay | lib/Socket.cpp:1133-1189 | in every run, from the actions alone: the submitted buffers are those of the calls, as many are on the wire as transmissions succeeded, as many lost as failed or threw; connected is the outcome of the last connection attempt until a transmission fails; running until the destructor begins or a transmission throws |
| TcpSendRuns.AllSent | lib/Socket.cpp:1142-1189 | with no failed transmission and nothing discarded, once queue, call and sender are empty, the wire has carried exactly the submitted buffers |
| TcpSendRuns.NothingDiscarded | lib/Socket.cpp:1148-1153 | while the queue has never held more than 512 buffers, none has been discarded |
| TcpSendRuns.OnlyWhenConnected | lib/Socket.cpp:1157-1186 | a transmission is attempted only while connected: after a failed one the sender connects again first |
| TcpSendRuns.RefusedAtTheEnd | lib/Socket.cpp:1142-1146 | once the destructor has begun or a transmission has thrown, no buffer is accepted any more |
| TcpSendRuns.SleepsWhenEmpty | lib/Socket.cpp:1162 | when the sender waits and no call is under way, the queue is empty |
| TcpSendRuns.JoinFreezesQueue | lib/Socket.cpp:1133-1172 | once the destructor joins, no buffer leaves the queue any more: at most the one in the sender's hands is still sent |
| TcpSendClient.JoinWakesSender | lib/Socket.cpp:1133-1139 | while the destructor joins, the sender is not asleep in the queue |
| TcpSendClient.JoinStep | lib/Socket.cpp:1133-1189 | while the destructor joins, every step that can still happen brings the sender nearer to its end |
| TcpSendClient.JoinEnds | lib/Socket.cpp:1133-1189 | from then on at most seven steps are left in any run, and a run that cannot be continued has ended the sender thread |

## Left out

- Codec.InitRs: the primitive element `prim` is fixed to 1 and symbols to eight bits, the only values the
  program uses (`iprim` is then 1); the field polynomial is 0x11d here, while `Codec.FillTables` takes any.
- Codec.BuildGenPoly: roots advance by one, as `prim` is 1.
- ReedSolomonCodec.NewReedSolomon: field polynomial and primitive element are those of the program and no parameters.
- Codec.InitRs: failing memory allocation is not modelled.
- Codec.EncodeRs: zero parity symbols, for which the source writes in front of its array, are excluded.
- Correction.DecodeRs: more erasures than parity symbols, for which the source overruns its arrays, are
  excluded; lambda, syndromes and b are converted to index form in arrays of their own instead of in place.
- ReedSolomonCodec.ReedSolomon.Encode: the overload for one buffer with data and parity is the same two calls and left out.
- Pft.PFT.Assemble: the transport header with its addresses is switched off by a constant in the source and
  left out; an empty AF packet and, with protection, a zero chunk length divide by zero in the source and are excluded.
- Transport.TransportTolerance: payload lengths of 2^14 and more and fragment counts of 2^24 and more do not
  fit their header fields and are excluded.
- OrderedQueues.OrderedQueue.Push: `src/OrderedQueue.h:43` asks its callers for indexes between 0 and the index
  range; negative ones are allowed down to minus the range, below which the remainder of C++ is negative; the counters of duplicates and overruns are unbounded here and 64 bits in the source.
- AvtInput.AVTInput.SetDabPlusParameters: after a refused call the object is not promised to be ready again; the
  caller in the source exits. The control message is a result here instead of a datagram. After a further successful
  call on a used object, which the program never makes, only the room in the buffer is described, and the contents
  for an empty one.
- Transport.TransportTolerance: for m of 48 and more the lengths of the two AF packets are taken to be equal; that
  they have to be is `Ambiguity.LengthNotDetermined`.
- AvtInput.AVTInput.ReadFrame: the walk over RTP and STI headers is left out; a datagram arrives as its
  counter bytes and data, or as unrecognised.
- AvtInput.AVTInput.GetNextFrame: PAD requests, which the source answers in the same loops, are left out.
- Crc.InitTable: one generic method stands for the three functions of the source; their registers are
  sequences of 8, 16 or 32 bits, and the static tables of the 8-bit and 32-bit checks are not compared.
- TagPackets.TagPacket.Assemble: an alignment from 1 to 7 is reported on stderr by the source and treated like 0.
- TagPackets.AssembleSsm: header fields are added where the source ors them, which is the same for values in range.
- ThreadsafeQueues.StepInv: atomic steps stand for the memory model of the standard library's mutex and
  condition variables; fairness is not modelled, so there is no statement that a step is eventually taken.
- TcpSendClient.DoInv: the socket is an outcome per transmission (taken, failed or thrown); the one-second sleep has no effect.
- Sockets, ZeroMQ, AAC decoding, the TAI clock, command line, statistics and logging.
- Fragment spreading over time in the EDI sender, which depends on the wall clock.
- Time stamps of EDI packets (`set_tist`, `set_edi_time`) and the tags deti and est, which this program does not send.
