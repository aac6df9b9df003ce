# Serving Observatory: verified core

Serving Observatory collects timestamped observations about inference requests from many sources,
decides which of them may be believed, rebuilds one trace per request, explains where the time
went, and stores everything so that a later replay gives the same answers. This project models
that core in Dafny and proves what it keeps.

How the parts fit together:

- **Wire formats.** `Wire` is the canonical binary codec: functions on cursors say what each read
  and write means, and a mutable writer and reader are proved against them. On it stand the
  observation codec (`Observations`, `ObservationCodec`, `Decoded`, `Strictness`), frames with their CRC-32
  (`Frames`, `Crc32`), the HELLO, OBS_ACK and STATUS payloads (`Payloads`), the source authority
  (`AuthorityCodec`) and the archive (`Archives`). `Sha256` is the streaming hash, `Identity` the
  128-bit identities. `Layouts` and `ArchiveLayout` say by absolute position where every value stands in
  the encoded bytes, and what becomes of arbitrary bytes; `CrcPolynomial` shows that the checksum is
  a polynomial remainder; `Sha256Constants`, `Sha256Bits` and `Sha256Vector` say where the words of
  SHA-256 come from and what its functions do to bits, and that the hash gives the published digest.
  `Division` holds the arithmetic these share.
- **Authority and coordinator.** `Authority` is the registry of current boots and generations,
  `Coordinators` the coordinator as a step system with a ghost log of acceptances (every public
  operation runs under one mutex, so an execution is a sequence of atomic steps), `SourceSystem`
  composes it with a restarting source over a network that delays, duplicates and reorders, and
  `Delivery` goes from received bytes to steps and replies.
- **Reconstruction and replay.** `Traces` rebuilds a trace from evidence and `TraceFacts` says what
  each part of it is by positions in that evidence; `Replays` rebuilds all traces and their digests
  and `ReplayFacts` says what they cover.
- **Latency and analysis.** `Sweep` awards elapsed time to phases, `CriticalPath` finds a heaviest
  chain of phases, `Latency` joins both to the evidence. `Percentiles`, `Tails` and `Grouping` are
  the aggregates.
- **End to end.** `Served` puts the layers together: whatever bytes a coordinator was fed, its
  archive can be written and loads back.

Conventions: integers have their C++ widths (`u8` to `u64` are subset types, and every wrap-around
is written out); strings are byte strings; floating-point fields are bit patterns; exceptions and
error returns are `Result` values; `std::sort` and the traversal of ordered containers are
`SortBy` and `SortedKeys`, and `Ordering.SortIsTheOnlySorting` shows that no result depends on the
algorithm. Classes and methods with loops follow the code where the code mutates state; each is
proved against a specification function, and the theorems are about those functions. JSON and text
renderings, the registry's key function, and the derivation of identities are parameters, so every
statement holds for all of them.

Where the code says less than its comments promise, the code is modelled and the exact boundary is
proved:

- `register_source` never refuses, although its comment asks for strictly higher generations.
  `Authority.RegistrationKeepsFrontier` says exactly when re-registering cannot move a source's
  acceptance frontier back; that condition, which a caller can check before the call, is the
  assumption of the theorems about runs, and `Coordinators.UndisciplinedRepeats` shows a run without
  it. `Coordinators.RegistrationKeepsOrder` and `Coordinators.OrderIsSafeExactly` say exactly when
  the order of acceptances, rather than the frontier, is safe.
- Sequence number 0 is accepted again and again while nothing else has been:
  `Coordinators.ZeroSequenceRepeats`.
- The registry key is a 64-bit mix that does not identify the pair it is made of:
  `Authority.KeysCollide`. All claims are per key.
- Decoders are lenient about presence bits, boolean bytes, health and provenance codes, and take
  the first of repeated fields. Decoding is exact for frames, HELLO and STATUS payloads.
  `Strictness.AcceptedIsEncodedExactly` says exactly which accepted observation payloads are the
  encoding of what they decode to, `Strictness.UndeclaredBitsIgnored` and `Strictness.LenientFlag`
  give families that are not; `Strictness.AuthorityIsEncodedExactly` and `Payloads.AckExact` do the
  same for authorities and acknowledgements.
- A multi-byte read that runs out of input has consumed the bytes before the end, although the
  reader's comment says it advances only on success: `Wire.ReadUintFails`.
- The reported least epoch treats 0 as "not set": `Traces.MinEpochExact`.
- Covered time can exceed the total when evidence is later than the completion.
  `Latency.BreakdownAddsUp` gives the exact condition for every breakdown, and
  `Latency.LateEvidenceConserves` a family of traces on both sides of it.
- A batch wait begins at 0 when its start has no time; `Traces.PhasesInsideTotal` says that this is
  the only way a phase leaves the total once the evidence it reads does not.

## Model

| member | source | states |
|---|---|---|
| Ordering.SortIsTheOnlySorting | src/trace.cpp:71-78 | any arrangement a sort may produce is the same one when different elements compare, whatever order they arrived in |
| Ordering.SortedKeysUnique | src/replay.cpp:46-53 | there is only one strictly increasing traversal of an ordered container's keys |
| Ordering.KeysInOrder | src/coordinator.cpp:82-88 | traversal of an ordered container visits exactly its keys, in increasing order |
| Ordering.BytesLessIsLexicographic | src/observation.cpp:88-115 | the order of byte strings is decided at the first difference, a proper prefix coming first |
| BigEndian.ValueOfBE | include/servingobs/core/binary_codec.hpp:78-97 | the number written most significant byte first is the number read |
| BigEndian.BEOfValue | include/servingobs/core/binary_codec.hpp:216-230 | the bytes read are the only encoding of the number they give |
| Identity.IdBytesRoundTrip | src/core.cpp:67-73 | the 16-byte form of an identity determines it |
| Identity.HexRoundTrip | src/core.cpp:31-65 | the canonical hexadecimal text of every identity parses back to that identity |
| Identity.HexOfAt | src/core.cpp:31-41 | the two characters of every byte are its high and low digit, in lower case |
| Identity.IdLessIsNumeric | include/servingobs/core/identity.hpp:45-47 | identities are ordered as 128-bit numbers, high half first |
| Wire.ReadUintSucceeds | include/servingobs/core/binary_codec.hpp:216-230 | with enough input a multi-byte read returns the big-endian value and stops right behind it |
| Wire.ReadUintFails | include/servingobs/core/binary_codec.hpp:211-230 | without enough input it fails having consumed everything that was left |
| Wire.ReadLength | include/servingobs/core/binary_codec.hpp:148-157 | an accepted length never exceeds what remains, and the cursor never goes back, past the end, or on after a failure |
| Wire.ReadRaw | include/servingobs/core/binary_codec.hpp:176-182 | all or nothing: exactly the next bytes, or none with the cursor unmoved and the failure recorded |
| Wire.BlobBack | include/servingobs/core/binary_codec.hpp:52-60 | length-prefixed bytes followed by anything are read back exactly and the reader stops behind them |
| Wire.F64Back | include/servingobs/core/binary_codec.hpp:140-145 | a binary64 is read back exactly; a NaN or an infinity fails the reader, whose cursor has moved |
| Wire.BlobExtends | include/servingobs/core/binary_codec.hpp:148-173 | a successful length-prefixed read does not depend on what follows |
| Wire.BinaryWriter.WriteU64 | include/servingobs/core/binary_codec.hpp:88-97 | shifting out eight bytes appends the big-endian form and changes nothing else |
| Wire.BinaryWriter.WriteBlob | include/servingobs/core/binary_codec.hpp:52-76 | appends prefix and content, or throws and leaves the buffer alone exactly when the length needs more than 32 bits |
| Wire.BinaryReader.GetUint | include/servingobs/core/binary_codec.hpp:211-230 | the byte-accumulating loop computes the specified read, including its failure |
| Wire.BinaryReader.GetBlob | include/servingobs/core/binary_codec.hpp:159-173 | moves the cursor as specified |
| Wire.BinaryReader.RequireEnd | include/servingobs/core/binary_codec.hpp:122-126 | true exactly when nothing failed and nothing is left; left-over bytes become a failure |
| Wire.BinaryReader.Sub | include/servingobs/core/binary_codec.hpp:197-203 | the nested reader sees exactly the next bytes and the outer one skips them, or fails |
| Observations.ValueBack | src/observation.cpp:55-85 | a field value is read back exactly unless it is a NaN or an infinity, which fails |
| Observations.FieldsBack | src/observation.cpp:88-157 | a field list is read back exactly when it is within the count limit and finite, and is refused otherwise |
| ObservationCodec.ReadObservation | src/observation.cpp:117-157 | over arbitrary bytes: never past the end, never backwards, never moved after a failure |
| ObservationCodec.ObservationBack | src/observation.cpp:88-157 | reading an encoding followed by anything gives the observation with absent parts defaulted and stops at its end; fails exactly for oversized or non-finite fields |
| ObservationCodec.PayloadRoundTrip | src/observation.cpp:178-189 | decoding undoes encoding exactly for readable observations whose absent optional parts hold defaults |
| ObservationCodec.ProperExtensionRejected | src/observation.cpp:183-189 | every proper extension of an encoded payload is trailing garbage |
| ObservationCodec.StrictPrefixRejected | src/observation.cpp:117-189 | every strict prefix of an encoded payload is refused |
| ObservationCodec.ConcatenationIsUnambiguous | src/observation.cpp:88-157 | concatenated encodings parse back in one way only |
| ObservationCodec.WriteObservation | src/observation.cpp:88-115 | the writer emits the layout, or throws exactly when a length does not fit |
| ObservationCodec.GetObservation | src/observation.cpp:117-157 | the field loop and all sections compute the specified decoder, cursor included |
| ObservationCodec.ReadPayload | src/observation.cpp:183-189 | payload decoding with its end check |
| Decoded.DecodedIsGood | src/observation.cpp:117-189 | whatever bytes decode, the observation can be encoded again in no more bytes than it came in, and decodes to itself from then on; Strictness.AcceptedIsEncodedExactly says when the bytes are the same |
| Strictness.AcceptedIsEncodedExactly | src/observation.cpp:69-189 | an accepted payload is byte for byte the encoding of what it decodes to exactly when presence bits, health and provenance codes are declared ones, flag bytes are 0 or 1, and keys strictly increase |
| Strictness.ValueExact | src/observation.cpp:55-85 | a value's bytes are its encoding exactly when a flag byte is 0 or 1 |
| Strictness.UndeclaredBitsIgnored | src/observation.cpp:130-145 | for every readable observation, encodings with undeclared presence bits added decode to it and are not encodings |
| Strictness.LenientFlag | src/observation.cpp:69-85 | any non-zero flag byte reads as true |
| Strictness.AuthorityIsEncodedExactly | src/authority.cpp:148-180 | an authority's bytes are its encoding exactly when flags are 0 or 1, the health code is declared and the restart count is in range |
| Layouts.ObservationLayout | src/observation.cpp:55-115 | every value of an observation stands at its own byte position in the payload: identities, kind, stamps, flagged values without gaps, then count, keys in rising order, tags and values |
| Layouts.DigitOfBE | include/servingobs/core/binary_codec.hpp:78-97 | byte i of a written number is its i-th base-256 digit from the left |
| Crc32.ComputeCrc32 | src/protocol.cpp:27-37 | the masked shift loop computes the bit-serial division |
| Crc32.StepInjective | src/protocol.cpp:31-34 | a register step loses nothing |
| Crc32.StepLinear | src/protocol.cpp:31-34 | a register step is linear over GF(2) |
| Crc32.CrcDetectsBurst | src/protocol.cpp:27-37 | two messages of any length that differ only within four consecutive bytes have different checksums |
| CrcPolynomial.CrcIsRemainder | src/protocol.cpp:26-38 | the checksum is the one number whose bits, complemented, are the remainder of the message, first 32 bits complemented, modulo the generator polynomial of clause 3.2.9 of IEEE 802.3 |
| CrcPolynomial.StepIsTimesX | src/protocol.cpp:31-34 | a register step multiplies by x modulo the generator |
| CrcPolynomial.RemainderUnique | src/protocol.cpp:26-38 | remainders of degree below 32 are unique |
| Frames.DecodeEncode | src/protocol.cpp:46-96 | an encoded frame decodes to itself exactly for the current version and payloads of at most 64 MiB less 8 bytes |
| Frames.EncodeDecode | src/protocol.cpp:46-96 | every accepted frame is byte for byte the encoding of what it decodes to |
| Frames.AcceptedIffEncoded | src/protocol.cpp:60-96 | the decoder accepts exactly the image of the encoder |
| Frames.BurstRejected | src/protocol.cpp:60-96 | damaging an acceptable frame within four consecutive bytes, anywhere, makes it unacceptable |
| Layouts.FrameLayout | src/protocol.cpp:40-58 | length, checksum of everything behind it, version, type and payload stand at bytes 0, 4, 8, 10 and 12 |
| Layouts.FrameJudged | src/protocol.cpp:60-96 | for any bytes, each of the six refusals exactly when its check is the first to fail, and acceptance exactly when none does, with the type and payload at those positions |
| Frames.EncodeFrame | src/protocol.cpp:46-58 | the two writers produce that layout |
| Frames.DecodeFrame | src/protocol.cpp:60-96 | the checks in the code's order decide as specified, with the same error |
| Sha256.PadIsStandard | src/core.cpp:147-156 | below 2^61 bytes the padding is that of section 5.1.1 of FIPS 180-4, with the fewest zero bits |
| Sha256Constants.ConstantsAreCubeRoots | src/core.cpp:93-102 | round constant t is the first 32 bits of the fractional part of the cube root of the t-th prime (section 4.2.2 of FIPS 180-4) |
| Sha256Constants.InitialIsSquareRoots | src/core.cpp:106-110 | the initial words come from the square roots of the first eight primes (section 5.3.3 of FIPS 180-4) |
| Sha256Bits.BigSigma0Bits | src/core.cpp:139 | each bit is the exclusive or of the bits 2, 13 and 22 places up, modulo 32 |
| Sha256Bits.BigSigma1Bits | src/core.cpp:136 | the same with 6, 11 and 25 |
| Sha256Bits.SmallSigma0Bits | src/core.cpp:130 | the same with 7, 18 and the shift by 3, which brings in zeros |
| Sha256Bits.SmallSigma1Bits | src/core.cpp:131 | the same with 17, 19 and the shift by 10 |
| Sha256Bits.ChBits | src/core.cpp:137 | each bit of the first word chooses between the other two |
| Sha256Bits.MajBits | src/core.cpp:140 | each bit is the majority of three |
| Sha256Vector.ScheduleWord | src/core.cpp:125-133 | each word of the message schedule in terms of the block and of earlier words |
| Sha256Vector.AbcDigest | tests/test_main.cpp:154-157 | the digest of "abc" is the published one, through padding, schedule, 64 rounds and output |
| Sha256.Hasher.ProcessBlock | src/core.cpp:123-145 | the in-place rounds are the compression function of section 6.2.2 of FIPS 180-4 |
| Sha256.Hasher.Update | src/core.cpp:112-121 | absorbs any chunk, lazily compressing full buffers, and stands for the concatenation so far |
| Sha256.Hasher.Finalize | src/core.cpp:147-165 | pads, terminates and returns the digest of everything absorbed |
| Sha256.HashChunks | src/core.cpp:112-165 | the digest does not depend on how the message was cut into update calls |
| Payloads.HelloExact | src/protocol.cpp:99-127 | the HELLO decoder accepts exactly the encoder's output, and returns what was encoded |
| Payloads.StatusExact | src/protocol.cpp:151-171 | the same for STATUS |
| Payloads.AckExact | src/protocol.cpp:130-148 | the acknowledgement decoder reads any non-zero flag byte as accepted and is exact otherwise |
| Payloads.ParseHello | src/protocol.cpp:112-127 | the reads in the code's order compute that decoder |
| Payloads.EncodeHello | src/protocol.cpp:99-111 | the writes produce the layout, or throw exactly when a text does not fit |
| Layouts.HelloLayout | src/protocol.cpp:99-111 | every value of an announcement stands at its own position |
| Layouts.AckLayout | src/protocol.cpp:130-137 | the same for an acknowledgement |
| Layouts.StatusLayout | src/protocol.cpp:151-159 | the same for a status |
| Authority.SourceRegistry.RegisterSource | src/authority.cpp:25-53 | repeats keep the entry and refresh epoch and health; anything else replaces it and counts a restart; no other entry changes |
| Authority.SourceRegistry.ValidateObservation | src/authority.cpp:55-104 | the checks in order with their reasons; only an acceptance changes the registry, and only its own entry |
| Authority.SourceRegistry.MarkRestart | src/authority.cpp:106-131 | generations and restart count go up by one, everything else is reset |
| Authority.AcceptanceExact | src/authority.cpp:64-103 | accepted exactly when the envelope is current and the sequence number is above the last one, or 0 with nothing above 0 accepted; the frontier then stands at the observation |
| Authority.JudgedExactly | src/authority.cpp:55-104 | each of the eight answers exactly when its comparison is the first to fail, and its reason carries the two compared numbers |
| Authority.ValidationEffect | src/authority.cpp:97-103 | after an acceptance the entry holds the sequence number, and the time and health that are reported; everything else stays, and a refusal changes nothing |
| Authority.RegistrationEffect | src/authority.cpp:25-53 | what the stored entry holds after a registration, for a repeat of boot and generations and for anything else |
| Authority.RestartEffect | src/authority.cpp:106-131 | what it holds after a restart, with generations that wrap at 64 bits |
| Authority.RegistrationKeepsFrontier | src/authority.cpp:25-53 | exactly when re-registering cannot move the frontier back |
| Authority.KeysCollide | include/servingobs/model/source_authority.hpp:80-85 | every source shares its registry entries with another source for every other low word |
| AuthorityCodec.AuthorityBack | src/authority.cpp:148-180 | an authority is read back exactly unless it holds a timestamp without its flag, and the reader stops behind it |
| Layouts.TakeAuthority | src/authority.cpp:148-161 | every value of a stored authority stands at its own position behind the start of the authority |
| AuthorityCodec.WriteAuthority | src/authority.cpp:148-161 | writes that layout |
| AuthorityCodec.GetAuthority | src/authority.cpp:163-180 | reads it, failing exactly when a read failed |
| Coordinators.ReachableConsistent | src/coordinator.cpp:37-110 | in every reachable state: accepted identities are distinct and are the log's; the request index is the log filtered by request over exactly the accepted non-null requests; each counter counts its own kind of call modulo 2^32, and every call was accepted or retained as stale |
| Coordinators.CountersAreExact | src/coordinator.cpp:37-76 | below 2^32 calls the accepted counter is the size of the accepted map, the duplicate counter the number of duplicates retained, and stale plus duplicate the length of the stale history |
| Coordinators.AnswersExactly | src/coordinator.cpp:37-76 | the answer to an ingest says known identity, or the registry's decision with the reason it deserves, and a refusal is the last entry of the stale history with that reason |
| Coordinators.IngestFrame | src/coordinator.cpp:37-76 | helper: one call that is not accepted changes only history and counters; an accepted one leaves history alone |
| Coordinators.DisciplinedMonotone | src/authority.cpp:25-131 | in every run whose registrations keep their frontier, acceptances of a key never go back in generation and sequence, and go up whenever the sequence is positive |
| Coordinators.AtMostOncePerSequence | src/authority.cpp:88-103 | at most one acceptance per key, generation and positive sequence number, whatever identities were used |
| Coordinators.OrderIsSafeExactly | src/authority.cpp:25-131 | in every reachable state whose acceptances are in order, no next acceptance can break the order exactly when every acceptance is at or below its key's frontier |
| Coordinators.RegistrationKeepsOrder | src/authority.cpp:25-53 | a registration keeps acceptances in order exactly when nothing of its key was accepted above the new frontier |
| Coordinators.UndisciplinedRepeats | src/authority.cpp:25-53 | without the discipline the same sequence number is accepted twice |
| Coordinators.ZeroSequenceRepeats | src/authority.cpp:88-95 | even with it, any number of observations with sequence number 0 are all accepted |
| Coordinators.Coordinator.IngestObservation | src/coordinator.cpp:37-76 | the method makes exactly the specified step and returns the answer for it |
| Coordinators.Coordinator.RegisterHello | src/coordinator.cpp:22-35 | registers the announced boot, generations and epoch without touching evidence, and returns the stored authority |
| Coordinators.Coordinator.AllAccepted | src/coordinator.cpp:82-88 | the accepted observations in identity order |
| Coordinators.Coordinator.RegistrySnapshot | src/coordinator.cpp:97-102 | the authorities in key order |
| Coordinators.Coordinator.Reset | src/coordinator.cpp:103-110 | forgets everything but the epoch |
| SourceSystem.Source.Restart | src/source.cpp:84-94 | a new boot, both generations and the serial up by one |
| SourceSystem.Source.Make | src/source.cpp:96-117 | kind, current envelope, next sequence number, derived identity, clock domain, measured provenance, request and time as given, everything optional else absent; nothing in the source changes |
| SourceSystem.ReachableInv | src/source.cpp:84-110 | in every execution messages in flight are genuine, HELLOs are queued in generation order, and the registry follows the last HELLO delivered |
| SourceSystem.OldBootsStayOut | src/coordinator.cpp:37-110 | once a boot is registered nothing of an earlier boot is accepted, and nothing is accepted before the HELLO of its own boot, resets of the coordinator included |
| Delivery.ObservationExchange | src/coordinator.cpp:186-193 | sending an observation ingests exactly it, and the source decodes exactly the coordinator's answer |
| Delivery.HelloExchange | src/coordinator.cpp:175-185 | sending a HELLO registers exactly what it announced |
| Delivery.DamageIsHarmless | src/coordinator.cpp:168-172 | a frame damaged within four consecutive bytes changes nothing and is not answered |
| Delivery.AckCodes | src/coordinator.cpp:185-193 | the decision byte sent back, code by code, in terms of the registry entry and the observation |
| Delivery.TypesDecide | src/coordinator.cpp:173-215 | which message types are answered, with what, which change the state, and which one closes the connection |
| Delivery.AnyBytesAreARun | src/coordinator.cpp:150-217 | receiving any byte strings is running the steps they decode to, so every state reached from the network is consistent |
| Delivery.HandleFrame | src/coordinator.cpp:168-215 | decode, dispatch and reply compute the specified delivery |
| Traces.ReconstructionIgnoresOrder | src/trace.cpp:66-254 | a trace depends only on the set of observations |
| Traces.PhasesInsideTotal | src/trace.cpp:148-232 | when the evidence that phases read lies between the chosen arrival and end, every phase lies inside the total, except that a batch wait does exactly when its start has a time |
| Traces.MinEpochExact | src/trace.cpp:99 | the reported least epoch is the least exactly when no epoch is 0 or the last one is |
| TraceFacts.EvidenceInOrder | src/trace.cpp:71-79 | the evidence of a trace is what it was given, ordered by time, sequence number and identity |
| TraceFacts.SlotsFromEvidence | src/trace.cpp:148-232 | for each of the fourteen phases, when it is present and the times, source and provenance it has, by the positions of the first and last observations of named kinds in the evidence |
| TraceFacts.EventsCounted | src/trace.cpp:148-232 | the event count of a phase is the number of observations of its kind |
| TraceFacts.TraceFromEvidence | src/trace.cpp:81-102 | identities are those of the first observation that names one; boots and generations are each collected once, in order of appearance; the greatest epoch is one that occurs |
| TraceFacts.TimelineIsEvidence | src/trace.cpp:104-120 | timeline entry i is evidence entry i |
| TraceFacts.OutcomeFromEvidence | src/trace.cpp:234-252 | which outcome and reason is reported, by which kinds of observation occur |
| Traces.ReconstructTrace | src/trace.cpp:66-254 | sorting, scans, timeline and phase extraction compute the specified trace |
| Sweep.GapIsUniform | src/latency.cpp:89-103 | between adjacent coordinates the midpoint probe decides for every instant |
| Sweep.WinnerOwns | src/latency.cpp:95-103 | the scan picks the owner of an instant: the covering phase of highest priority |
| Sweep.PriorityIsRank | src/latency.cpp:15-36 | phases outrank each other in declaration order with SPECULATION right below PREFILL; the execution phases outrank queueing, dispatch and transfer |
| Sweep.AwardsMeasureUnion | src/latency.cpp:74-110 | at every priority level the awards at or above it add up to the measure of the union of those intervals |
| Sweep.CountIsCardinality | src/latency.cpp:104-107 | the measure used is the number of instants |
| Sweep.ExclusiveSweep | src/latency.cpp:74-110 | each interval is awarded the number of instants it owns, and the covered time is the measure of the union |
| CriticalPath.ChainBounds | src/latency.cpp:125-141 | a table entry is at least the weight of every chain that ends there |
| CriticalPath.PathIsChain | src/latency.cpp:142-146 | the predecessor walk collects a non-overlapping chain of positive intervals with the weight of its entry |
| CriticalPath.ChainsFit | src/latency.cpp:125-141 | no accumulator of the table exceeds 64 bits |
| CriticalPath.MarkCriticalPath | src/latency.cpp:116-147 | the marked components do not overlap, are not empty or inverted, and weigh as much as any non-overlapping set |
| Latency.DecomposeLatency | src/latency.cpp:59-149 | spans, awards, shares, covered time, gap and critical path of the breakdown |
| Latency.ComponentsAreSlots | src/latency.cpp:65-110 | the components are exactly the present phases other than TOTAL, once each and in slot order, each with its own phase, span, provenance and the number of instants in which no other present phase outranks it |
| Latency.ComponentsOfTrace | src/latency.cpp:65-110 | the same for the breakdown of every reconstructed trace, where slot i is phase i |
| Latency.ExclusivesConserve | src/latency.cpp:87-111 | the exclusives at any priority level or above add up to the measure of their union; all of them to the covered time |
| Latency.PercentsConserve | src/latency.cpp:111-114 | the components' percentages add up to that of the covered time |
| Latency.CriticalWithinCovered | src/latency.cpp:116-147 | the critical path is never longer than the covered time |
| Latency.ConservationFromEvidence | src/trace.cpp:148-232 | when the evidence that phases read lies between the chosen arrival and end: critical path within covered time within total, and covered plus gap is the total |
| Latency.BreakdownAddsUp | src/latency.cpp:63-111 | for every breakdown, covered plus gap is the total exactly when the phases spend no more time outside the total than they leave idle inside it |
| Latency.LateEvidenceConserves | src/trace.cpp:189-232 | for a prefill reported after the completion the breakdown adds up exactly when the prefill is no longer than the request |
| Replays.ReplayIgnoresOrder | src/replay.cpp:22-62 | every permutation of the evidence gives the same traces and the same four digests |
| ReplayFacts.ReplayTraces | src/replay.cpp:39-51 | one trace for every non-null request that is named, in rising order, each the reconstruction of exactly the evidence that names it |
| ReplayFacts.ReplayReports | src/replay.cpp:32-95 | counts, and the four digests of: count and encodings in identity order, the renderings of the traces, of their explanations, and the aggregate |
| Replays.AcceptedPermutesLog | src/coordinator.cpp:82-88 | the accepted observations in identity order are a permutation of the acceptance log |
| Replays.LiveIndexAgreesWithReplay | src/replay.cpp:39-48 | in every reachable state the live index has the requests that replay finds, and reconstructs the same traces |
| Replays.GroupByRequest | src/replay.cpp:39-44 | grouping by request, in arrival order |
| Replays.EvidenceDigestOf | src/replay.cpp:22-30 | the digest of the count and all encodings in identity order, or an exception exactly when one does not fit |
| Replays.ReplayAll | src/replay.cpp:32-62 | the loops compute the specified replay |
| Archives.ArchiveRoundTrip | src/persistence.cpp:65-189 | loading saved bytes returns the archive exactly when body length, counts and values are what the loader admits and absent parts hold defaults; otherwise it fails or differs |
| ArchiveLayout.BodyLayout | src/persistence.cpp:70-91 | header, registry, accepted and refused evidence and the four digests stand at their positions in the stored body |
| ArchiveLayout.SealJudged | src/persistence.cpp:108-128 | for any bytes, each refusal before the body is read, and its acceptance, exactly when: size, declared length and digest |
| Archives.SavedRunLoads | src/persistence.cpp:43-189 | whenever saving succeeds for epoch, registry, stale history and accepted map read one after another during a run: what was read comes back in place and in order, replay verified, under the same exact condition |
| Archives.ShortRunsFit | src/persistence.cpp:76-80 | runs of fewer than 2^31 steps cannot overflow a count or a restart counter |
| Archives.SavableIsWritable | src/persistence.cpp:65-93 | lengths, counts and counters that fit are all that saving needs |
| Archives.LoadedIsSound | src/persistence.cpp:108-189 | whatever the bytes, a loaded archive has distinct accepted identities and, when verified, the digests that replay gives |
| Archives.UnsealBack | src/persistence.cpp:93-128 | a sealed body is accepted exactly when its length fits the length field |
| Archives.SaveArchive | src/persistence.cpp:65-106 | the bytes written, or an exception exactly when a length does not fit or replay throws |
| Archives.LoadArchive | src/persistence.cpp:108-189 | the checks and loops in the code's order decide as specified, with the same error |
| Served.ReceivedStateIsDurable | src/coordinator.cpp:150-193 | everything a coordinator holds that arrived in frames can be stored and read back unchanged |
| Served.ServedArchiveLoads | src/persistence.cpp:43-189 | for any bytes ever received, an archive read while they arrive can be written and loads back verified exactly when its body and counts are within the limits |
| Percentiles.PercentileIsNearestRank | src/analysis.cpp:17-27 | the least value with at least p percent of the values at or below it |
| Percentiles.PercentileMonotone | src/analysis.cpp:17-27 | a higher percentile is never smaller, and the order of the values does not matter |
| Percentiles.PercentileOf | src/analysis.cpp:17-27 | sorting, rank and clamping compute it |
| Percentiles.MetricsInOrder | src/analysis.cpp:29-47 | minimum, percentiles and maximum are reported in order, the mean lies between the extremes, and the spread vanishes exactly when they coincide |
| Percentiles.TailMetricsOf | src/analysis.cpp:29-47 | the loops compute extremes, percentiles, mean and variance of the latencies |
| Tails.TailIsExact | src/analysis.cpp:208-232 | exactly the traces at or above the threshold, as often as given, slowest first, and at least one if there is any |
| Tails.LatencyIsSpan | src/analysis.cpp:208-214 | the latency of a trace is the number of instants in its TOTAL phase, 0 without one, and wraps exactly when TOTAL ends before it starts |
| Tails.LatencyIsTotal | src/analysis.cpp:208-214 | it is the total of every breakdown of the trace |
| Tails.LatencyOfReconstructed | src/trace.cpp:148-232 | for every reconstructed trace it is the chosen end minus the chosen arrival, or 0 |
| Tails.TailInSpans | src/analysis.cpp:208-232 | the tail in terms of time spent: exactly the traces at or above the percentile of all spans, slowest first, each explained with its own span |
| Tails.ExplainTail | src/analysis.cpp:208-232 | threshold, sort and selection compute that tail |
| Grouping.GroupingConserves | src/analysis.cpp:278-315 | for every key function: strictly increasing keys, exactly those that occur, and totals that add up to the whole |
| Grouping.TalliesAreTotals | src/analysis.cpp:285-297 | each total of a group is the sum of the spans, or the number of pairs of a trace and a position in its evidence that hold the named kind |
| Grouping.GroupsReport | src/analysis.cpp:278-315 | each summary reports those totals, modulo 64 bits, and the percentiles of the spans of the traces with its key |
| Grouping.CorrelateBy | src/analysis.cpp:278-315 | accumulation, percentiles and sort compute the summaries |

## Left out

- Sockets, server threads and the accept loop: messages are delivered by nondeterministic steps, and `Delivery` starts from complete frames; the totals quoted in HELLO_ACK and STATUS replies, which the server reads under separate locks, are those of the handling step.
- Command line, scripts, process spawning, benchmarks and CUDA.
- File reading and writing: an archive is a byte string.
- JSON and text renderings, reason texts, phase and event names, detail texts: parameters (`Views`, `Wording`) or absent; the event counts shown in detail texts are kept.
- Binary64 rounding: f32 and f64 fields are bit patterns with the finiteness test; ranks, percentages, means and variances are exact, and the standard deviation is left as its square; GPU time sums are absent.
- Identity derivation, including new boots, observation identities and the trace identity: parameters or absent; distinctness is assumed only where stated.
- Error message texts: one `Error` code per kind of refusal.
- Counterfactuals, comparison, attribution totals, shared-factor search and the factor lists of tail explanations.
- `spans_multiple_epochs`, a comparison of two fields that are modelled.
- Enumeration name tables, and the accessors for numeric and boolean fields.
- Archives.BuildArchive: reads a coordinator that nobody else is using; what saving reads while others work is the subject of Archives.SavedRunLoads.
- Archives.SaveArchive: asks for restart counters in the range of a C++ int, which the type guarantees there.
- Percentiles.PercentileOf: asks that the rank rounds up to a number its unsigned type can hold, since the conversion is undefined otherwise.
- Tails.ExplainTail: the same restriction, and of each explanation only request, latency and metrics.
- Traces.ReconstructTrace: without trace identity, event labels and detail texts.
- Replays.ReplayAll: the aggregate record is an arbitrary function of the observation count and the traces.
- SourceSystem.OldBootsStayOut: traffic of others is on other registry keys, and the source does not restart 2^64 times, after which its generations would repeat.
