# GAPCM transcoding library, modelled in Dafny

GAPCM is the PCM container of GAME ARTS titles. A file is a 2048-byte header sector followed by sectors of 1024 samples each. Every sample is one pad byte and one sign-magnitude sample byte: [0x80, 0xff] are levels 0..127 and [0x00, 0x7f] are levels -1..-128. A mono stream is one run of sectors. A stereo stream alternates one sector per channel. The header gives the format (1 stereo, 2 mono), the loop start in blocks (`mark`), the length in frames, echo parameters and a silent pregap in blocks.

This project models the library in `src/gapcm/gapcm.c` / `gapcm.h` and the min/max helpers of `src/common/math.c`, and proves properties of the model:

- **Sample transcoder** (`sample.dfy`, module `Sample`): decoding to consumer PCM around an origin and encoding back. The round trip holds for every byte and every origin, with the corrected encoder.
- **Sector codec** (`sector.dfy`, `Sector`): the two buffer-filling loops as methods over arrays, each proved against a function on sequences, with the round trip between them.
- **Header codec and validator** (`header.dfy`, `HeaderCodec`): the big-endian header layout, the header fill as a method over the sector array, the round trip, and `header_check` with its three failures in order and a closed form of acceptance.
- **Format mapping and layout constants** (`layout.dfy`, `Layout`).
- **Streams** (`streams.dfy`, `Streams`): `FILE *` becomes two classes:
  - `Source`: a byte sequence with a cursor, plus a script of statuses that flushes and seeks return and a log of the requests made.
  - `Sink`: an append-only sequence with a capacity, so short writes happen, plus a count of write calls.
- **Seek and pregap** (`transport.dfy`, `Transport`): the loop seek in capped relative steps, and the silent pregap.
- **Transcoding context and stream engine** (`engine_spec.dfy`, `engine.dfy`, `counts.dfy`, `gapcm.dfy`):
  - `IoContext` is the library's context record: the per-channel `counts` and `indexes` arrays, the `blocks` buffer of one block per channel and the `sector` buffer.
  - The decode and encode loops are methods over those arrays. Each is proved against a pure reference run: `DecodeRun` and `EncodeRun` in `EngineSpec`, round by round, and `LoopRun` for loop passes.
  - The reference runs carry their own properties: bounds, whole frames, a closed form of every decoded byte, completeness on whole input, and decode-after-encode being the identity on whole frames.

Where the header's doc comments and the code disagree, the model follows the code:

- `gapcm_decode_sector` returns the sample count, half the bytes read, not `GAPCM_SECTOR_BYTES` (gapcm.h:105-109 against gapcm.c:217-224).
- `gapcm_header_check` reports its loop-position failure with the zero-length message. The loop message is never used (`HeaderCodec.Message`).
- A header whose mark equals `length / block_frames`, or whose length and mark are both 0, passes the check.

## Model

| member | source | states |
|---|---|---|
| MathOps.MaxS8 | src/common/math.c:6 | the result is one of the two arguments and at least both, compared as signed 8-bit |
| MathOps.MaxU8 | src/common/math.c:8 | the result is one of the two arguments and at least both, compared as unsigned 8-bit |
| MathOps.MaxS16 | src/common/math.c:10-12 | the result is one of the arguments and at least both, signed 16-bit |
| MathOps.MaxU16 | src/common/math.c:14-16 | the result is one of the arguments and at least both, unsigned 16-bit |
| MathOps.MaxS32 | src/common/math.c:18-20 | the result is one of the arguments and at least both, signed 32-bit |
| MathOps.MaxU32 | src/common/math.c:22-24 | the result is one of the arguments and at least both, unsigned 32-bit |
| MathOps.MaxS64 | src/common/math.c:26-28 | the result is one of the arguments and at least both, signed 64-bit |
| MathOps.MaxU64 | src/common/math.c:30-32 | the result is one of the arguments and at least both, unsigned 64-bit |
| MathOps.MinS8 | src/common/math.c:34 | the result is one of the arguments and at most both, signed 8-bit |
| MathOps.MinU8 | src/common/math.c:36 | the result is one of the arguments and at most both, unsigned 8-bit |
| MathOps.MinS16 | src/common/math.c:38-40 | the result is one of the arguments and at most both, signed 16-bit |
| MathOps.MinU16 | src/common/math.c:42-44 | the result is one of the arguments and at most both, unsigned 16-bit |
| MathOps.MinS32 | src/common/math.c:46-48 | the result is one of the arguments and at most both, signed 32-bit |
| MathOps.MinU32 | src/common/math.c:50-52 | the result is one of the arguments and at most both, unsigned 32-bit |
| MathOps.MinS64 | src/common/math.c:54-56 | the result is one of the arguments and at most both, signed 64-bit |
| MathOps.MinU64 | src/common/math.c:58-60 | the result is one of the arguments and at most both, unsigned 64-bit |
| MathOps.SignednessDecides | src/common/math.c:6-8 | for every two 8-bit patterns: with the same sign, max_u8 and min_u8 give the patterns of max_s8 and min_s8; with different signs they swap, max_u8 giving min_s8's pattern and min_u8 giving max_s8's |
| Layout.ToChannelCount | src/gapcm/gapcm.c:366-374 | the channel count is at most 2 and non-zero exactly for the stereo and mono codes |
| Layout.ToFormat | src/gapcm/gapcm.c:376-384 | the format code is non-zero exactly for channel counts 1 and 2 |
| Layout.FormatRoundTrip | src/gapcm/gapcm.h:35-38 | the two mappings invert each other on the known codes and counts; mono is 1 channel and stereo 2 |
| Sample.SignedLevel | src/gapcm/gapcm.h:98-103 | a container byte's level lies in -128..127 and is non-negative exactly for [0x80, 0xff] |
| Sample.DecodeSample | src/gapcm/gapcm.c:212-215 | the decoded sample is the origin plus the byte's signed level, modulo 256 |
| Sample.EncodeSampleAsWritten | src/gapcm/gapcm.c:289-292 | at the 0x80 origin the encoder as written agrees with the corrected encoder |
| Sample.EncodeSample | src/gapcm/gapcm.c:289-292 | the corrected encoder: decoding its result gives the consumer sample back, for every origin (with `Sample.SampleRoundTrip` it is the inverse of the decoder, and `Sample.EncodeSampleAsWritten` shows it equals the library's encoder at 0x80) |
| Sample.SampleRoundTrip | src/gapcm/gapcm.c:212-215 | encoding a decoded byte gives it back, for every byte and origin |
| Sample.NegativeRoundTrip | src/gapcm/gapcm.c:214 | the round trip of bytes [0x00, 0x7f], the negative levels |
| Sample.DecodeSampleInjective | src/gapcm/gapcm.c:212-215 | distinct container bytes decode to distinct samples |
| Sample.EncodeAsWrittenFailsAtSignedOrigin | src/gapcm/gapcm.c:290-291 | at origin 0, byte 0x00 decodes to 0xff, which the encoder as written maps to 0xff instead of back to 0x00 |
| Sector.DecodedSamples | src/gapcm/gapcm.c:217-224 | a sector of n bytes yields n/2 samples |
| Sector.DecodedSampleAt | src/gapcm/gapcm.c:220-221 | sample i is the decode of byte 2i+1, the pad bytes being skipped |
| Sector.EncodedSector | src/gapcm/gapcm.c:294-302 | a block of n samples becomes 2n bytes |
| Sector.DecodeSector | src/gapcm/gapcm.c:217-224 | returns count/2, fills that part of the block from the odd bytes and leaves the rest of the block unchanged |
| Sector.EncodeSector | src/gapcm/gapcm.c:294-302 | returns 2·count, writes a zero pad byte and the encoded sample per block sample, and leaves the sector past 2·count unchanged |
| Sector.SectorRoundTrip | src/gapcm/gapcm.c:217-224 | decoding an encoded block gives the block back |
| Sector.SectorReencode | src/gapcm/gapcm.c:294-302 | re-encoding a decoded sector restores every sample byte and zeroes every pad byte |
| HeaderCodec.BigEndian16 | src/gapcm/gapcm.c:273-274 | two bytes, high first, whose value is x |
| HeaderCodec.BigEndian32 | src/gapcm/gapcm.c:272-277 | four bytes: the high half then the low half, each big-endian |
| HeaderCodec.ReadBigEndian16 | src/gapcm/gapcm.c:176 | the value whose big-endian bytes are the two read |
| HeaderCodec.ReadBigEndian32 | src/gapcm/gapcm.c:177-180 | the value whose big-endian bytes are the four read |
| HeaderCodec.HeaderFields | src/gapcm/gapcm.c:272-282 | the header's fields take 22 bytes |
| HeaderCodec.HeaderBytes | src/gapcm/gapcm.c:271-287 | the encoded header fills one 2048-byte sector |
| HeaderCodec.DecodeHeader | src/gapcm/gapcm.c:172-187 | returns 2048 and a header whose fields encode to the sector's first 22 bytes |
| HeaderCodec.EncodeHeader | src/gapcm/gapcm.c:271-287 | returns 2048 and leaves the sector holding the header's fields followed by zeros |
| HeaderCodec.HeaderRoundTrip | src/gapcm/gapcm.c:172-187 | decoding an encoded header gives every field back |
| HeaderCodec.DecodeHeaderIgnoresPadding | src/gapcm/gapcm.c:172-187 | sectors agreeing on their first 22 bytes decode alike |
| HeaderCodec.ZeroPaddedSectorRoundTrip | src/gapcm/gapcm.c:283-285 | a sector zero past byte 22 is what its decoded header encodes to |
| HeaderCodec.BlockFrames | src/gapcm/gapcm.c:329 | a block holds 1024/cc frames, a positive count |
| HeaderCodec.HeaderCheckOrder | src/gapcm/gapcm.c:321-343 | the format check fails exactly for unknown formats; the mark check exactly when the format passed and the mark exceeds UINT32_MAX / block_frames; the loop check exactly when both passed and length / block_frames < mark |
| HeaderCodec.HeaderCheckAccepts | src/gapcm/gapcm.c:321-343 | a header passes exactly when its format is known and mark · block_frames ≤ length |
| HeaderCodec.MarkBoundImpliedByLength | src/gapcm/gapcm.c:330-336 | a mark the bound rejects would also fail the loop check |
| HeaderCodec.HeaderCheckBoundary | src/gapcm/gapcm.c:336-341 | mono: a mark of length/1024 passes, one more fails, and length 0 with mark 0 passes |
| HeaderCodec.HeaderCheck | src/gapcm/gapcm.c:321-343 | a header that passes has a known format and a mark no larger than its length |
| HeaderCodec.Message | src/gapcm/gapcm.c:321-343 | the message reported is never the loop-start message of gapcm.h, which no failure uses |
| HeaderCodec.MessageInjective | src/gapcm/gapcm.h:48-53 | distinct failures report distinct messages |
| Streams.Source.Read | src/gapcm/gapcm.c:47 | reads min(n, remaining) bytes into the buffer at base, advancing the cursor and touching nothing else |
| Streams.Source.Flush | src/gapcm/gapcm.c:228 | logs a flush and returns the scripted status, not moving the cursor |
| Streams.Source.SeekSet | src/gapcm/gapcm.c:232 | logs the seek and moves the cursor to the offset exactly when the status is 0 |
| Streams.Source.SeekCur | src/gapcm/gapcm.c:237 | logs the seek and advances the cursor by the offset exactly when the status is 0 |
| Streams.Sink.Write | src/gapcm/gapcm.c:131-135 | writes min(n, room) bytes from the buffer, appended in order |
| Streams.Sink.Put | src/gapcm/gapcm.c:67 | writes the byte when there is room, and nothing otherwise |
| Transport.OffsetMaximumFits | src/gapcm/gapcm.c:226 | the step is UINT32_MAX / 2048 sectors, the most whose byte offset fits in 32 bits |
| Transport.SeekPlan | src/gapcm/gapcm.c:227-244 | a seek to p blocks issues 3 + p / 2097151 requests when all succeed |
| Transport.SeekPlanFits | src/gapcm/gapcm.c:236-243 | the plan flushes first and every seek offset in it fits in 32 bits |
| Transport.DecodeSeek | src/gapcm/gapcm.c:227-244 | issues a prefix of the plan; every request but the last succeeded; returns the last one's status; on success the source stands at byte 2048·(1 + position), with the rest of the stream from there remaining |
| Transport.SeekStepAsWrittenValue | src/gapcm/gapcm.c:237 | the relative step the unparenthesised macro produces is 2097151 bytes, less than the 2097151 sectors intended |
| Transport.SeekAsWrittenMissesTarget | src/gapcm/gapcm.c:236-243 | with that step the seek lands on the intended byte exactly when the position is below 2097151 |
| Transport.SeekTargetAsWritten | src/gapcm/gapcm.c:232-243 | the byte the seek as written lands on is never past the intended one, and is that one for positions below 2097151 |
| Transport.DecodePregap | src/gapcm/gapcm.c:198-210 | writes min(1024·pregap, room) origin bytes and returns that count, making one write call per attempted byte, including every later block after a failure |
| Transport.PregapCallsTotal | src/gapcm/gapcm.c:201-208 | the calls counted block by block (1024 per block with room, one more than the room left for the block the room runs out in, one for each block after it) total 1024·pregap when the room suffices, and otherwise the room plus one failed call per block from the first short block on |
| EngineSpec.Interleave | src/gapcm/gapcm.c:57-71 | a round's output holds as many frames as lane 0, every frame one byte per channel |
| EngineSpec.DecodeRun | src/gapcm/gapcm.c:37-75 | the reference decode never reads past its input |
| EngineSpec.DecodeRoundLength | src/gapcm/gapcm.c:44-56 | a round writes at most its quota of frames, and exactly that when every sector read is full |
| EngineSpec.DecodeRunBound | src/gapcm/gapcm.c:37-75 | a decode of count samples writes at most count bytes, in whole frames |
| EngineSpec.DecodeRunCells | src/gapcm/gapcm.c:57-71 | byte j of a decode is frame j/cc of channel j%cc: the decoded sample byte of that frame in that channel's sector, or the origin past the input |
| EngineSpec.DecodeRunComplete | src/gapcm/gapcm.c:44-73 | with whole sectors for every round, the decode writes every requested whole frame |
| EngineSpec.DecodeRunMono | src/gapcm/gapcm.c:37-75 | a mono decode writes the input's decoded samples in order, as many as asked or as the input holds |
| EngineSpec.Lane | src/gapcm/gapcm.c:115-123 | lane c of the taken samples has as many frames as reached channel c |
| EngineSpec.Lanes | src/gapcm/gapcm.c:115-123 | there is one lane per channel, each the channel's samples |
| EngineSpec.Padded | src/gapcm/gapcm.c:126-129 | a lane padded to a whole block with the origin, the lane itself first |
| EngineSpec.EncodeSectors | src/gapcm/gapcm.c:124-140 | at most one sector per channel from c on, stopping at the first empty lane |
| EngineSpec.EncodeRun | src/gapcm/gapcm.c:100-143 | the reference encode reads no more than its input and no more than count samples |
| EngineSpec.EncodeRunSectors | src/gapcm/gapcm.c:124-140 | an encode writes whole sectors |
| EngineSpec.EncodeSectorsWhole | src/gapcm/gapcm.c:124-140 | one round's sectors are whole sectors |
| EngineSpec.InterleaveLanes | src/gapcm/gapcm.c:115-123 | interleaving the lanes of whole frames gives the frames back |
| EngineSpec.FullSectors | src/gapcm/gapcm.c:124-140 | a round with frames in every lane writes one padded sector per channel, 2048·cc bytes |
| EngineSpec.EncodeRunLength | src/gapcm/gapcm.c:100-143 | with enough input an encode reads exactly the whole frames asked for and writes full rounds of sectors |
| EngineSpec.EncodeDecodeRun | src/gapcm/gapcm.c:100-143 | decoding what an encode wrote gives back the whole frames encoded |
| Engine.LoopRun | src/gapcm/gapcm.c:77-97 | the reference every loop contract is stated against, one pass per loop iteration: however the passes end, `passes` passes of `length` samples write at most passes · length bytes |
| Engine.LoopRunExtends | src/gapcm/gapcm.c:86-95 | later passes only append: k passes are a prefix of any larger number of passes, and every run of passes begins with the first pass |
| Engine.LoopRunLength | src/gapcm/gapcm.c:86-95 | passes write at most passes · length bytes, and exactly that when each pass decodes in full |
| Engine.IoContext.constructor | src/gapcm/gapcm.c:156-170 | a fresh context with buffers sized by the channel count and every channel drained |
| Engine.IoContext.LoadChannel | src/gapcm/gapcm.c:46-55 | a channel's count is min(samples read, count / cc), its index 0 and its block those samples; the error flag is set exactly when the sector is short |
| Engine.IoContext.ReadChannel | src/gapcm/gapcm.c:45-56 | one channel's sector is read and loaded; the error flag is set exactly when the input has no full sector for it |
| Engine.IoContext.ReadRound | src/gapcm/gapcm.c:45-56 | the read half of a round loads every channel's lane, consumes up to one sector per channel and reports a short read exactly when the reference round does |
| Engine.IoContext.EmitSlot | src/gapcm/gapcm.c:58-70 | one slot emits the channel's next sample, or the origin once that channel has run dry; it stops at channel 0 once lane 0 is used up |
| Engine.IoContext.WriteSlot | src/gapcm/gapcm.c:57-71 | the output after one slot is the next prefix of the round's interleaved frames |
| Engine.IoContext.WriteRound | src/gapcm/gapcm.c:57-71 | the write half of a round writes min(round, room) bytes of the interleaved frames, failing exactly on a short write |
| Engine.IoContext.DecodeOneRound | src/gapcm/gapcm.c:44-73 | one round consumes up to one sector per channel and writes a prefix of the reference round; a full round lowers the count by lane 0's frames |
| Engine.IoContext.DecodeContextFor | src/gapcm/gapcm.c:37-75 | writes min(reference decode, room) bytes, which are that decode's prefix; after a full decode the source stands past what it read |
| Engine.IoContext.ReadSample | src/gapcm/gapcm.c:115-122 | one read byte lands in its channel's block at that channel's index, and both the count and the index go up by one |
| Engine.IoContext.GatherSample | src/gapcm/gapcm.c:115-122 | the gathered blocks and counts extend by one sample while input remains |
| Engine.IoContext.ReadFrames | src/gapcm/gapcm.c:108-123 | reads min(input, count_block · cc) samples into the channels' blocks round-robin, failing exactly when the input is short |
| Engine.IoContext.ResetCounts | src/gapcm/gapcm.c:111-114 | every count and index is zero |
| Engine.IoContext.PadBlock | src/gapcm/gapcm.c:126-129 | the channel's block becomes its lane padded with the origin, other blocks unchanged |
| Engine.IoContext.EmitLane | src/gapcm/gapcm.c:126-136 | writes min(2048, room) bytes of the channel's encoded padded sector |
| Engine.IoContext.WriteLane | src/gapcm/gapcm.c:130-139 | a sector write is whole exactly when its byte count / 2 is a block, and then the output holds every sector so far |
| Engine.IoContext.WriteSectors | src/gapcm/gapcm.c:124-140 | writes min(sectors, room) bytes of the round's sectors, failing exactly on a short write; a full round lowers the count by the samples taken |
| Engine.IoContext.EncodeOneRound | src/gapcm/gapcm.c:107-141 | one round consumes up to count_block · cc samples and writes a prefix of its sectors; a complete round lowers the count |
| Engine.IoContext.EncodeContextFor | src/gapcm/gapcm.c:100-143 | writes min(reference encode, room) bytes, which are that encode's prefix; after a full encode the source stands past what it read |
| Engine.IoContext.DecodePass | src/gapcm/gapcm.c:87-89 | one more pass extends the output to the next prefix of the passes; a full pass leaves the context drained |
| Engine.IoContext.Rewind | src/gapcm/gapcm.c:90-94 | the loop goes on exactly when the pass was full, passes are left and the seek succeeded, the source then standing at the loop start; when it stops after a full pass with passes left, the last request it issued failed |
| Engine.IoContext.DecodeContextLoop | src/gapcm/gapcm.c:77-97 | nothing for a loop count below 1; otherwise 1 to loop_count passes, the first from where the source stands and each later one from the loop start, with the output their prefix cut to the room; every pass before the last was written in full within the room, so a short pass ends the loop; it stops before loop_count passes only on a short pass or when a seek request issued during the loop failed |
| Engine.IoContext.LoopTurn | src/gapcm/gapcm.c:86-95 | one turn runs a pass and decides on another, keeping the loop's invariants: the output is the next prefix of the passes, the pass before is whole within the room, and a stop with passes left has a short pass or a failed seek behind it |
| Counts.Wrap64 | src/gapcm/gapcm.c:82-84 | reduction modulo 2^64: below 2^64 and congruent to the input |
| Counts.MarkSamples | src/gapcm/gapcm.c:251 | for a header that passes the check, the mark's 1024 · mark samples are at most the stream's length · cc samples |
| Counts.LoopLength | src/gapcm/gapcm.c:82-84 | for up to two channels, when the mark's samples fit in the stream, they and one loop pass make up the stream's length · cc samples |
| Counts.StreamSamples | src/gapcm/gapcm.c:266 | for one or two channels, count · cc samples are exactly count whole frames |
| Counts.MarkSamplesAsWritten | src/gapcm/gapcm.c:251 | the 32-bit product 1024 · mark is the intended sample count modulo 2^32 |
| Counts.LoopLengthAsWritten | src/gapcm/gapcm.c:82-84 | the difference of the two 32-bit products, taken in 32 bits, is the intended loop length modulo 2^32 |
| Counts.StreamSamplesAsWritten | src/gapcm/gapcm.c:266 | the 32-bit product count · cc is the intended sample count modulo 2^32 |
| Counts.WrapDifference | src/gapcm/gapcm.c:82-84 | subtracting wrapped 32-bit operands and wrapping again agrees, modulo 2^32, with the 64-bit wrapped difference |
| Counts.LoopSplitsStream | src/gapcm/gapcm.c:82-84 | for a header that passes the check, the mark's samples are its whole frames, and they plus one loop pass make up the stream |
| Counts.MonoCountsAgree | src/gapcm/gapcm.c:251 | for mono headers that pass the check the 32-bit counts are the intended ones |
| Counts.StereoCountsWrap | src/gapcm/gapcm.c:83-84 | for stereo, headers that pass the check and a frame count exist whose intended sample counts are 2^32 but whose 32-bit counts are 0 |
| Gapcm.DecodeStream | src/gapcm/gapcm.c:247-258 | the output is the decode up to the loop start, followed by loop passes only when that decode was written in full, all cut to the room; the loop part carries the context loop's stop clauses: every pass before the last is whole within the room, and fewer than loop_count passes means a short pass or a failed seek |
| Gapcm.DecodeStreamFor | src/gapcm/gapcm.c:260-269 | the output is the decode of count · cc samples, cut to the room |
| Gapcm.DecodeLoop | src/gapcm/gapcm.c:189-196 | the output is the loop passes of the context loop, cut to the room; every pass before the last is whole within the room, and fewer than loop_count passes means a short pass or a failed seek |
| Gapcm.LoopRunsToCount | src/gapcm/gapcm.c:86-95 | when every pass decodes in full, the room holds the bytes of loop_count passes and no seek fails, the stop clauses leave exactly loop_count passes and loop_count · length bytes |
| Gapcm.MonoLoopTwice | src/gapcm/gapcm.c:247-258 | a mono stream with mark 0 and length 2048, decoded with loop_count 2 over enough input into enough room and with no failed seek, writes 2 · 2048 bytes |
| Gapcm.EncodeStream | src/gapcm/gapcm.c:304-308 | the output is the encode of the header's length in frames |
| Gapcm.EncodeStreamFor | src/gapcm/gapcm.c:310-319 | the output is the encode of count · cc samples, cut to the room |
| Gapcm.StreamRoundTrip | src/gapcm/gapcm.c:310-319 | decoding count frames of what encoding count frames wrote gives those frames back |

## Left out

- I/O is modelled by `Source` and `Sink`: no file descriptors, buffering, `errno` or platform seek semantics. A flush or seek returns a status from a script given to the source. A read returns min(asked, remaining). A write stops at the sink's capacity.
- `gapcm_iocontext_free`, `gapcm_header_make` and `gapcm_header_free` are allocation and release; the model leaves both to Dafny's heap.
- `gapcm_header_stringify` is `snprintf` formatting and is not part of this model.
- `gapcm_decode_silence`, `gapcm_origin` and `gapcm_sample_origin` are declared in gapcm.h but defined nowhere, so they are not modelled.
- The 16-bit `GAPCM_SAMPLE_BYTES == 2` extension is not modelled; only the 8-bit profile is.
- `GAPCM_BLOCK_SIZE` and `GAPCM_SECTOR_SIZE` are not defined in gapcm.h. The model takes 1024 and 2048, the values of `GAPCM_BLOCK_BYTES` and `GAPCM_SECTOR_BYTES`.
- Engine.IoContext.constructor: the counts and indexes start at zero where the library leaves them uninitialised. After a short first read on channel 0, the library's later channels would hold undefined values.
- Engine.IoContext.DecodeContextFor: requires a drained context, so no channel has stale samples left over. A fresh context and every completed run satisfy this. After an interrupted run, the library would emit the stale samples.
- Transport.SeekPlan: plans relative steps of 2097151 sectors (2048 · 2097151 bytes), the step gapcm.c:237 evidently intends, not the 2097151-byte step its unparenthesised macro produces (second finding). `Transport.SeekTargetAsWritten` and `Transport.SeekAsWrittenMissesTarget` state where the step as written lands.
- Transport.DecodeSeek: on success stands at byte 2048 · (1 + position), the intended target. As written, the seek lands short of it for positions of 2097151 and more (second finding).
- Engine.IoContext.Rewind: seeks with the intended step of `Transport.DecodeSeek`, not the step as written (second finding).
- Engine.IoContext.DecodeContextLoop: decodes passes of the 64-bit `Counts.LoopLength`, not the 32-bit length_loop of gapcm.c:82-84 (third finding; `Counts.LoopLengthAsWritten` states the value as written), and rewinds with the intended seek step (second finding). It states the seek requests only through the stop reason (the last status); the request log of each seek is stated by `Transport.DecodeSeek`.
- Gapcm.DecodeLoop: inherits both deviations of `Engine.IoContext.DecodeContextLoop`: the 64-bit loop length (third finding) and the intended seek step (second finding).
- Gapcm.DecodeStream: uses the 64-bit sample counts the library's variables are meant to hold, not the 32-bit products it computes (third finding). Its loop passes rewind with the intended seek step (second finding).
- Gapcm.DecodeStreamFor: uses count · cc samples, not the product modulo 2^32 (third finding).
- Gapcm.EncodeStreamFor: uses count · cc samples, not the product modulo 2^32 (third finding).
- Gapcm.EncodeStream: uses length · cc samples, not the product modulo 2^32 (third finding).
- The sample transcoders take the origin as a parameter. The stream engine fixes it at 0x80, as gapcm.h does.

## Findings

| source | as written | input that shows it | evidently intended | confidence | as-written member | corrected member |
|---|---|---|---|---|---|---|
| src/gapcm/gapcm.c:290-291 | encode_sample takes the sign from bit 7 of the consumer sample, which is the sign of its level only at origin 0x80 | origin 0, which gapcm.h:7-8 names for signed PCM: byte 0x00 decodes to 0xff, and 0xff encodes to 0xff, not 0x00 | encode_sample inverts decode_sample for every origin, the sign taken from the offset to the origin | high, not executed | Sample.EncodeAsWrittenFailsAtSignedOrigin | Sample.SampleRoundTrip |
| src/gapcm/gapcm.c:237 | the step `GAPCM_SECTOR_SIZE * GAPCM_OFFSET_MAXIMUM` expands without parentheses to 2048 · UINT32_MAX / 2048; the product wraps in 32 bits, so the step is 2097151 bytes | a seek to block 2097151 lands at byte 2048 + 2097151 instead of 2048 · 2097152 | each step covers 2097151 sectors, so the seek lands at 2048 · (1 + position) | medium (assumes a 32-bit unsigned int), not executed | Transport.SeekAsWrittenMissesTarget | Transport.DecodeSeek |
| src/gapcm/gapcm.c:83-84 | length · CHANNEL_COUNT, GAPCM_BLOCK_SIZE · mark and count · CHANNEL_COUNT (also lines 251, 266 and 316) are computed in 32 bits before being stored in 64-bit counts | a stereo header with mark 2^22 and length 2^31 passes header_check, yet 1024 · mark and length · 2 both wrap to 0, so decode_stream writes nothing: the intro and every loop pass are 0 samples | the 64-bit counts hold the full products | high, not executed | Counts.StereoCountsWrap | Counts.LoopSplitsStream |
