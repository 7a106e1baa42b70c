# A model of the base64 stream codec

This project models the C library and command-line tool of the `base64` repository: a codec for
the Base64 scheme of section 4 of RFC 4648 that can be fed in pieces, that replaces its bytewise
inner loop by word, SIMD or assembly loops wherever it stands at a group boundary, that can be run
by a team of threads, and that a tool wraps into lines and reads back. The theme of the proofs is
that all of these agree with one short mathematical codec.

The layers, from the bottom:

- `Tables`, `TableGenerator`, `Simd`: lookup tables, the generator loops that fill the word tables,
  and the vector instructions, one 32-bit lane at a time, on bit-vectors.
- `Rfc4648`: the codec on 24-bit groups, stated without reference to the program, with its language,
  round trips and canonical form.
- `Decoder`, `Encoder`: the bytewise machines as functions of state and input. Chunk invariance, the
  accepted language, the exact condition for an error to be remembered, and output lengths are
  proved here.
- `DecodeBlocks`, `EncodeBlocks`: one round of every fast loop, against `Rfc4648`.
- `Memory`: an output pointer that records every store made through it, and interleavings of the
  stores of several threads.
- `DecodeLoops`, `EncodeLoops`, `EncodeAsm`: the loops over the input, in place on an array, with the
  counters that are taken back for skipped rounds. `EncodeAsm` is the software-pipelined schedule
  over six registers.
- `StreamState`, `DecodeStream`, `EncodeStream`: the Duff's devices over a mutable state object, with
  the fast loop entered at every `case 0`; proved equal to the bytewise machines.
- `OneShot`, `OpenMp`, `Lib`: the one-shot functions, sequential and parallel.
- `Console`, `Wrapping`, `CliEncode`, `CliDecode`, `Cli`: partial reads and writes, line wrapping with
  a column kept across calls, decoding cut at newlines, and the two directions end to end.

Reading aids:

- A call of the decoder returns `Result(ret, out, st)`; `Decoder.Run` feeds a list of chunks and stops
  at the first 0.
- Encoder states are compared up to the carry that is dead when `bytes` is 0 (`Encoder.Same`): the
  bytewise code leaves it stale there (lib/arch/generic/enc_tail.c:26-29) and fast loops never touch it.
- `Write(off, data)` is one store, `log` the stores of a call in order, `Within(log, lo, hi)` says that
  all of them lie between `lo` and `hi`, and `Replay(m, log)` is the memory they leave. The wide stores
  of the fast decoders appear in the log with their overshoot. A `Trace` is a position to read, a position to
  write and the log so far; `CallLog` in `DecodeStream` and `EncodeStream` is the log of a call as a
  function of its arguments.
- `Decoder.Extent(b, n)` is floor(3(b+n)/4) - floor(3b/4), `EncodeStream.Extent(b, n)` is
  floor(4(b+n)/3) - floor(4b/3).
- The tool is specified by functions of its input and of the answers of the system: `NextRead` for one read, `Send`
  for one buffer, `WriteWrapped` for one buffer in lines, `RunEncode` and `RunDecode` for a whole run. The methods equal
  them exactly; `SentAs`, `Encodes` and `Decodes` say what they amount to. `Ample(script, n)` holds of answers without
  a failure that let at least n times something through. Sizes, reserves, thresholds and the newline are
  literals in these functions and in the lemmas, while the methods use the named constants.

Where the code does less than a reader might expect, the model follows the code:

- Not every error is remembered. A character outside the alphabet in third position of its quantum
  returns 0 but leaves `eof` clear (lib/arch/generic/dec_tail.c:37-58), so later calls can succeed
  again. `Decoder.ErrorsLatch` has the exact condition and `Decoder.ErrorForgotten` an input.
- An empty call returns 0 once the end of file has been seen (`Decoder.EmptyCall`), so chunk
  invariance is about non-empty chunks. While the second of two '=' is awaited, this failure is not
  remembered either (`Decoder.EmptyCallForgotten`).
- A stream call returns 1 for every input that can still be completed (`Decoder.ViablePrefix`). The
  tool checks no more than that (bin/base64.c:446-452), so it accepts truncated input, such as "QQ"
  (`Decoder.TruncatedAccepted`). `Decoder.SucceedsOnTruncations` says which inputs those are, and that the
  ones in the language are those whose length is a multiple of 4.
- Trailing bits of a padded quantum are not checked (section 3.5 of RFC 4648), so decoding is
  injective on canonical strings only (`Rfc4648.EncodeDecode`).
- The parallel decoder drops the state of its parts (lib/lib_openmp.c:119-121). It therefore accepts
  padding at the end of a part in the middle of the input; `OpenMp.ParallelVersusSequential` says exactly
  when its verdict differs from the sequential one, and `Lib.HiddenPaddingAccepted` gives an input of every
  length that is a multiple of 8 and goes to the parallel path.
- A parallel decode with a refused part does not set the output length (lib/lib_openmp.c:131-135); in the model it
  stays the `outlen0` it had before. With every part accepted it is set, even if the remainder is refused.
- `base64 -d` writes what each read decodes to before the next one (bin/base64.c:468-471), so a run that ends in a
  decoding error has already written the output of all earlier reads. `CliDecode.Decodes` says exactly which.

## Model

| member | source | states |
|---|---|---|
| Tables.TablesAreRanges | lib/tables/tables.c:3-35 | the written-out 6-bit and 8-bit tables hold, for every index, what the range definitions used everywhere else compute |
| Tables.EncDec | lib/tables/tables.c:3-35 | the two tables are inverse on the alphabet |
| EncodeBlocks.PairBytes | lib/tables/table_enc_12bit.py:3-26 | the two bytes found in memory at a 12-bit table entry are the characters of its two halves, in that order on both byte orders |
| TableGenerator.Clear | lib/tables/table_generator.c:60-66 | every entry becomes the sentinel |
| TableGenerator.Generate | lib/tables/table_generator.c:113-179 | after the clearing and filling loops every one of the 256 entries is the placed value of its character, or the sentinel outside the alphabet, for d0 to d3 and both byte orders |
| Rfc4648.EncodeLength | lib/lib.c:101-133 | an encoding has 4 * ceil(n / 3) characters |
| Rfc4648.QuantaIsLanguage | lib/lib.c:135-164 | quantum by quantum or as alphabet characters followed by at most two '=': the same language |
| Rfc4648.DecodeEncode | lib/lib.c:101-164 | every encoding is in the language, and decodes to its input |
| Rfc4648.EncodeDecode | lib/lib.c:101-164 | encoding again what a string decodes to gives that string if and only if its unused trailing bits are zero |
| Decoder.CallReachable | lib/arch/generic/dec_tail.c:1-91 | every call keeps the state invariant: known `eof`, `bytes` at most 3, and a clear carry at a quantum boundary |
| Decoder.Split | lib/arch/generic/dec_head.c:14-37 | two calls, the second made only if the first returned 1, return, emit and leave what one call on the concatenation does, from any state |
| Decoder.ChunkInvariance | lib/arch/generic/dec_head.c:14-37 | any list of non-empty chunks, stopped at the first 0, agrees with a single call in return, output and full state, from any state, also when a split falls between two '=' |
| Decoder.EmptyCall | lib/arch/generic/dec_head.c:14-25 | an empty call changes nothing and returns 1 exactly while `eof` is clear |
| Decoder.AlphaRun | lib/arch/generic/dec_tail.c:1-84 | whole quanta of alphabet characters at a boundary are decoded as RFC 4648 says, and the machine goes on from the same state |
| Decoder.Acceptance | lib/lib.c:135-164 | a call from the initial state returns 1 with nothing awaited if and only if the length is a multiple of 4 and the string is alphabet characters followed by zero, one or two '='; its output is then the RFC's |
| Decoder.ViablePrefix | lib/arch/generic/dec_tail.c:1-91 | a call from the initial state returns 1 if and only if some continuation of its input is in the language |
| Decoder.SucceedsOnTruncations | lib/arch/generic/dec_tail.c:1-91 | a call from the initial state returns 1 if and only if its input is alphabet characters followed by as much of the padding that their number calls for as has arrived; and such an input is in the language if and only if its length is a multiple of 4 |
| Decoder.TruncatedAccepted | lib/arch/generic/dec_tail.c:33-36 | "QQ" returns 1, though it is not in the language |
| Decoder.RoundTrip | lib/lib.c:135-164 | every encoding is accepted and decodes to its input |
| Decoder.OutputIsDecoding | lib/arch/generic/dec_tail.c:1-91 | whether a call from the initial state succeeds or not, it emits what the alphabet characters before the first other one decode to by the RFC, padded as their number calls for |
| Decoder.OutputBounds | lib/arch/generic/dec_tail.c:1-91 | a call emits at most floor(3(b+n)/4) - floor(3b/4) bytes, and if it returns 1 at most two fewer, less only by the padding that fits the length |
| Decoder.StopState | lib/arch/generic/dec_tail.c:5-79 | the whole state after a failing call: EOF, one pending character if the second of a quantum was invalid and none otherwise; but for an invalid third character `eof` stays clear and the quantum counts as having three; the carry is that of the alphabet characters before |
| Decoder.ErrorsLatch | lib/arch/generic/dec_tail.c:5-79 | from every reachable state, after a failing call all later calls fail, unless that call met an invalid third character, or was empty while the second of two '=' was awaited; in those two cases some later call succeeds |
| Decoder.ErrorForgotten | lib/arch/generic/dec_tail.c:37-58 | "AA*" is refused, and a following "A" is accepted, emits one zero byte and leads back to the initial state |
| Decoder.EmptyCallForgotten | lib/arch/generic/dec_head.c:14-25 | after "QQ=" an empty call returns 0, and a following "=" returns 1 |
| Encoder.Split | lib/arch/generic/enc_head.c:6-24 | two calls emit and leave what one call on the concatenation does |
| Encoder.DeadCarry | lib/arch/generic/enc_tail.c:23-33 | states that differ only in the carry at a group boundary cannot be told apart by calls or by `final` |
| Encoder.GroupRun | lib/arch/generic/enc_tail.c:1-31 | whole groups at a boundary emit the RFC's encoding, and the machine goes on from an agreeing state |
| Encoder.CallThenFinal | lib/lib.c:42-65 | one call followed by `final` emits the RFC's encoding |
| Encoder.ChunkInvariance | lib/lib.c:42-65 | any list of calls, empty ones included, followed by `final` emits the RFC's encoding of the concatenation |
| Encoder.OutputLength | lib/arch/generic/enc_tail.c:1-34 | a call emits floor(4(b+n)/3) - floor(4b/3) characters and leaves (b+n) mod 3 bytes of a group |
| DecodeBlocks.ShiftLeaks | lib/arch/ssse3/dec_loop.c:86-91 | each byte of the 32-bit shift has its own high nibble in its low four bits, whatever leaks in above |
| DecodeBlocks.LaneIsExact | lib/arch/ssse3/dec_loop.c:68-117 | for every lane, despite the leak, both tests on the ANDed lookups (signed comparison, test for zero) fire exactly if a byte is outside the alphabet, and the offset lookup otherwise gives the 6-bit values |
| DecodeBlocks.MergeLane | lib/arch/ssse3/dec_reshuffle.c:1-33 | the multiply-add chain puts the 24 bits of four values into three bytes of the lane |
| DecodeBlocks.PackSsse3 | lib/arch/ssse3/dec_reshuffle.c:20-33 | the byte shuffle puts the three bytes of each lane in order and next to each other |
| DecodeBlocks.PackAvx2 | lib/arch/avx2/dec_reshuffle.c:1-34 | so do the shuffle within halves and the permutation of lanes across them |
| DecodeBlocks.OredIsExact | lib/arch/generic/32/dec_loop.c:1-24 | the ORed table entries carry the sentinel exactly if one of four characters is outside the alphabet, and otherwise lie in memory as the three bytes and a zero, on both byte orders |
| DecodeBlocks.NeonValueIsExact | lib/arch/neon64/dec_loop.c:71-110 | the saturating two-table lookup exceeds 63 exactly outside the alphabet and is the 6-bit value on it |
| DecodeBlocks.NeonQuad | lib/arch/neon64/dec_loop.c:66-119 | deinterleaving, lookup, compression and interleaving decode every quantum of the block |
| DecodeBlocks.RoundIsExact | lib/arch/ssse3/dec_loop.c:68-117 | a round of any of the four decoders refuses exactly the blocks with a character outside the alphabet, and for others stores the RFC's bytes followed by its overshoot |
| EncodeBlocks.SameValue32 | lib/arch/generic/32/enc_loop.c:1-24 | load and byte swap give the same word on both byte orders |
| EncodeBlocks.SameValue64 | lib/arch/generic/64/enc_loop.c:1-28 | so they do for eight bytes |
| EncodeBlocks.Round32Encodes | lib/arch/generic/32/enc_loop.c:1-24 | a round stores the encoding of the first three of the four bytes it loads, on both byte orders |
| EncodeBlocks.Round64Encodes | lib/arch/generic/64/enc_loop.c:1-28 | a round stores the encoding of the first six of the eight bytes it loads, on both byte orders |
| EncodeBlocks.SplitBits | lib/arch/ssse3/enc_reshuffle.c:1-48 | the mulhi and mullo halves of a shuffled lane are the four 6-bit values of its group |
| EncodeBlocks.EncTranslateIsEnc6 | lib/arch/ssse3/enc_translate.c:1-33 | the saturating-subtract offset lookup is the alphabet, for every value below 64 |
| EncodeBlocks.RoundSsse3Encodes | lib/arch/ssse3/enc_loop.c:1-18 | a round stores the encoding of the first 12 of the 16 bytes it loads |
| EncodeBlocks.RoundAvx2Encodes | lib/arch/avx2/enc_reshuffle.c:1-83 | the register is the encoding of bytes 4 to 27 of the load |
| EncodeBlocks.MultishiftBits | lib/arch/avx512/enc_reshuffle_translate.c:4-50 | the eight multishift offsets select the 6-bit values of two permuted groups |
| EncodeBlocks.RoundAvx512Encodes | lib/arch/avx512/enc_reshuffle_translate.c:4-50 | permutation, multishift and lookup give the encoding of the first 48 of 64 bytes |
| EncodeLoops.RoundEncodes | lib/arch/avx512/enc_loop.c:1-13 | a round of each of the four encoders with aligned data stores exactly the encoding of the bytes it advances over |
| EncodeLoops.RoundsStore | lib/arch/generic/64/enc_loop.c:1-77 | the stores of round k of n go to block k of the output, one behind the other, and hold what the round computes from the bytes loaded for block k: two or four stores of two bytes for the generic encoders, one of a register for the others |
| EncodeLoops.PlannedRounds | lib/arch/avx512/enc_loop.c:15-28 | generic32, generic64, SSSE3, AVX512 and AVX2 plan no round below 4, 8, 16, 64 and 32 bytes, and else as many as leave at least 1, 2, 4, 24 and 4 of them and less than a block more |
| Memory.Isolated | lib/lib_openmp.c:1-12 | where no other thread stores, the final memory is what the thread's own stores leave |
| Memory.FinalValue | lib/lib_openmp.c:1-12 | after any interleaving of threads that keep to their ranges, every position holds what its owner's stores leave, and positions without an owner are unchanged |
| Memory.ScheduleIndependent | lib/lib_openmp.c:1-12 | any two interleavings of such threads leave the same memory |
| Memory.OutPtr.Store | lib/arch/ssse3/dec_loop.c:109-113 | an unaligned store at the output pointer, of which only a part is kept, is recorded with its full extent |
| DecodeLoops.Inner | lib/arch/ssse3/dec_loop.c:68-117 | a round advances both pointers over a decoded block, or changes nothing, exactly as the block is alphabet characters or not |
| DecodeLoops.LeadingIsLeast | lib/arch/avx2/dec_loop.c:73-109 | the number of leading alphabet blocks is the number planned, or that of the first block with another character |
| DecodeLoops.PlannedRounds | lib/arch/ssse3/dec_loop.c:119-132 | generic32, SSSE3, AVX2 and NEON plan no round below 8, 24, 45 and 64 characters, and else as many as leave at least 4, 8, 13 and 0 of them and less than a block more |
| DecodeLoops.LeftOver | lib/arch/avx2/dec_loop.c:57-110 | from alphabet characters only, the four loops leave fewer than 8, 24, 45 and 64 for the bytewise machine, and no fewer than the reserve |
| DecodeLoops.Unrolled | lib/arch/avx2/dec_loop.c:73-105 | the chains of eight, four, two and one rounds end only at a refused block or with no rounds left |
| DecodeLoops.Loop | lib/arch/avx2/dec_loop.c:57-110 | generic32, SSSE3 and AVX2: the rounds done are the leading alphabet blocks among those planned, so the loop stops at the first refused block or at the reserve; it emits the decoding, gives skipped rounds back to `slen` and `olen` exactly, makes exactly the stores of those rounds, and none beyond the overshoot |
| DecodeLoops.LoopNeon64 | lib/arch/neon64/dec_loop.c:51-129 | the same for NEON: it stops at exactly the first 64-byte block with a character outside the alphabet, or when less than 64 are left, without reserve or overshoot |
| EncodeLoops.Loop | lib/arch/generic/64/enc_loop.c:30-77 | generic32, generic64, SSSE3 and AVX512: does exactly the computed number of rounds, with one load each at the data and inside the source and the stores of each in order, two bytes wide in the generic encoders; keeps `slen` with the pointer and emits the encoding |
| EncodeLoops.InnerFirstAvx2 | lib/arch/avx2/enc_loop.c:1-18 | the first round shifts its data into place and leaves the pointer four bytes early |
| EncodeLoops.InnerAvx2 | lib/arch/avx2/enc_loop.c:20-33 | later rounds load four bytes before their data, inside the source |
| EncodeLoops.LoopAvx2 | lib/arch/avx2/enc_loop.c:35-89 | does exactly the computed number of rounds; the first load is at the data, all others four bytes before theirs and inside the source; the pointer fix-up is exact; the stores and the characters are the encoding of the bytes consumed |
| EncodeAsm.MacrosEncode | lib/arch/ssse3/enc_loop_asm.c:12-35 | SHUF followed by TRAN on a loaded register is one round of the plain loop |
| EncodeAsm.Machine.Stor | lib/arch/ssse3/enc_loop_asm.c:37-40 | storing register r0 as block k extends the output by block k's encoding |
| EncodeAsm.Machine.Finish | lib/arch/ssse3/enc_loop_asm.c:92-99 | storing one block while the next is finished keeps every other register |
| EncodeAsm.Machine.Round3 | lib/arch/ssse3/enc_loop_asm.c:76-90 | ROUND_3 stores three blocks and leaves the next three in flight in the other three registers, for both register assignments, with the loads three blocks ahead of the stores |
| EncodeAsm.Machine.Round3End | lib/arch/ssse3/enc_loop_asm.c:92-99 | ROUND_3_END finishes and stores the three blocks in flight |
| EncodeAsm.Machine.DaisyChain | lib/arch/ssse3/enc_loop_asm.c:171-182 | any number of alternating A and B rounds keeps the schedule |
| EncodeAsm.Machine.Dispatch | lib/arch/ssse3/enc_loop_asm.c:166-239 | the 36x loop, the 18, 9 and 6 blocks and the jump into 5 to 0 single rounds together do every round once and advance both pointers equally |
| EncodeAsm.LoopAsm | lib/arch/ssse3/enc_loop_asm.c:125-266 | for every round count and any initial register contents: the sequence of loads, the sequence of stores, the pointers and the output of the plain SSSE3 loop |
| DecodeStream.ReserveIsTight | lib/arch/avx2/dec_loop.c:63-67 | a reserve of m characters covers a decoder's overshoot if and only if m is at least 2, 6, 13 or 0; the reserves used suffice, and the AVX2 one is the least possible |
| DecodeStream.FastLoop | lib/arch/neon64/codec.c:82-93 | the loop or loops that each codec runs at `case 0` advance by whole quanta, and leave no store beyond what the rest of the input is bound to produce |
| DecodeStream.AtBoundary | lib/arch/generic/codec.c:33-41 | a fast loop entered at `case 0` leaves the rest of the call as the bytewise machine would have |
| DecodeStream.Refuse | lib/arch/generic/dec_tail.c:5-79 | the four branches for a character outside the alphabet end the call as the functional machine says |
| DecodeStream.Accept | lib/arch/generic/dec_tail.c:10-83 | the four branches for an alphabet character move to the next case label |
| DecodeStream.Machine | lib/arch/generic/dec_tail.c:1-91 | the Duff's device, entered at any label, with any codec, is the bytewise machine |
| DecodeStream.Decode | lib/arch/generic/codec.c:33-41 | for any codec, reachable state and input: return, `outlen`, output and final state of the bytewise call; the stores are a function of codec, state, source and offset; each of them, overshoot included, lies below the extent of the input, and below `outlen` if the call returns 1 |
| EncodeStream.AtBoundary | lib/arch/generic/codec.c:21-31 | a fast loop entered at `case 0` leaves the rest of the call as the bytewise machine would have, up to the dead carry |
| EncodeStream.Accept | lib/arch/generic/enc_tail.c:4-29 | the three branches store their characters and move to the next label |
| EncodeStream.Encode | lib/arch/generic/codec.c:21-31 | for any codec, reachable state and input: output and state of the bytewise call up to the dead carry, `outlen` by formula; the stores are a function of codec, state, source and offset, each within the characters emitted |
| EncodeStream.Final | lib/lib.c:42-65 | the last quantum, stored character by character within `outlen` |
| OneShot.EncodeWhole | lib/lib.c:122-132 | initialising, one call and `final` write the RFC's encoding, and nothing outside it |
| OneShot.DecodeWhole | lib/lib.c:151-163 | returns 1 exactly on the language, emits what the bytewise machine does, decodes it as the RFC says, and stores within the extent, or within `outlen` on success |
| OpenMp.PartsFit | lib/lib_openmp.c:38-43 | the parts are whole groups and never exceed the input, and with one more group each they would |
| OpenMp.EverySchedule | lib/lib_openmp.c:50-59 | the memory that one schedule of the parts leaves is the one that every interleaving of their stores leaves |
| OpenMp.EncodePart | lib/lib_openmp.c:50-59 | a part, run from a private copy of the initial state, stores within its own output range only and encodes its own input |
| OpenMp.Encode | lib/lib_openmp.c:14-74 | for every thread count the joined output is the sequential encoding, nothing else is written, the stores of each part are fixed by the codec, its input and its offset, they keep to separate ranges, and every interleaving of them leaves the same memory |
| OpenMp.PartAccepted | lib/lib_openmp.c:113-122 | a part of whole quanta returns 1 exactly if it is a string of the language by itself |
| OpenMp.SuffixAccepted | lib/lib_openmp.c:111-149 | the input from part i on is in the language exactly if the remainder and all later parts are and none of them hides padding |
| OpenMp.ParallelVersusSequential | lib/lib_openmp.c:111-149 | sequential acceptance is parallel acceptance without padding at the end of a part that is not the end of the input |
| OpenMp.SameWithoutPadding | lib/lib_openmp.c:111-149 | for input without '=' the two verdicts are the same |
| OpenMp.DecodePart | lib/lib_openmp.c:113-122 | a part stores within its own output range only, overshoot included, whether it succeeds or not |
| OpenMp.Decode | lib/lib_openmp.c:76-149 | for every thread count: the verdict; if every part is accepted, every part and the remainder stand at their own offsets and the output length is their sum, whether the remainder is accepted or not, hidden padding or not; if a part is refused, the output length is left alone and nothing follows the parallel region; the sequential output on everything the sequential decoder accepts; stores of each part fixed by its input and offset, separate ranges, the same memory after every interleaving, nothing stored beyond three quarters of the input length |
| Lib.Encode | lib/lib.c:101-133 | on the sequential and the parallel path alike: the RFC's encoding and nothing beyond it |
| Lib.AcceptedVersusLanguage | lib/lib.c:135-164 | the language is what base64_decode accepts, less the input on the parallel path with padding at the end of a part that is not the end of the input |
| Lib.HiddenPaddingAccepted | lib/lib.c:147-150 | for every k of at least 2500, 4k - 2 letters 'A', "==" and 4k letters 'A' go to the parallel path and are accepted there by two threads, though not in the language |
| Lib.Decode | lib/lib.c:135-164 | below 20000 characters or without threads it returns 1 exactly on the language, from there on exactly on what the parallel decoder accepts; every string of the language is decoded as the RFC says; output and its length are those of the bytewise call, or on the parallel path those of the parts and the remainder, each in its place |
| Lib.RoundTrip | lib/lib.c:101-164 | decoding with any codec, with or without threads, what any codec has encoded, with the same threads, others or none, returns the input |
| Console.Input.Read | bin/base64.c:326 | the result, the bytes left and the error flag are exactly what the next answer makes of a read: some of the bytes, with or without an error behind them, or none |
| Console.Output.Write | bin/base64.c:236-246 | exactly as many of the bytes offered as the next answer takes are appended, or the call is interrupted or fails |
| Console.SendMeans | bin/base64.c:229-255 | for every list of answers: a beginning of the buffer is written, all of it exactly on success; a failure has a failing answer or used all of them up; with a useful answer for every byte and no failing one it succeeds |
| Console.WriteStdout | bin/base64.c:229-255 | output, answers used and verdict are exactly those of retrying until a failure; so for every sequence of partial writes and interruptions success means every byte once and in order, failure means a failing answer or none left and a strict prefix written, and ample answers mean success |
| Console.Consume | bin/base64.c:186-206 | the inner loop removes exactly the bytes written from the front of the vectors |
| Console.WritevRetry | bin/base64.c:159-208 | the same as for write_stdout, for the vectors, which are edited in place; without vectors no call is made |
| Wrapping.WrappedSplit | bin/base64.c:257-314 | wrapping a text in two calls with the column kept between them is wrapping it in one |
| Wrapping.FullLine | bin/base64.c:278-305 | wrapped text is its first full line, the byte 10, and the rest wrapped |
| Wrapping.StripWrapped | bin/base64.c:257-314 | removing the bytes 10 of wrapped text restores it |
| Wrapping.VectorsMean | bin/base64.c:278-305 | the vectors that write_wrapped makes of a buffer, one for each piece of a line and one for each newline, join to the wrapped text, and none of them is empty |
| Wrapping.GatherMeans | bin/base64.c:210-227 | sending the vectors in batches of any size sends all of them once and in order, or a beginning if the answers are not ample |
| Wrapping.Writer.Append | bin/base64.c:210-227 | appending a vector, with the flush when the buffer is full, is one step of the batching, with the output, the answers and the pending vectors kept exactly |
| Wrapping.Writer.Write | bin/base64.c:257-314 | write_wrapped is exactly the batched sending of its vectors; on success it has emitted each byte once and in order with a newline after every full line, for any number of flushes, and keeps `col < wrap`; a failed one has written a strict prefix of that, and ample answers mean success |
| Wrapping.Writer.Finish | bin/base64.c:262-268 | the byte 10, sent exactly if a line is open |
| CliEncode.Encode | bin/base64.c:316-358 | status, output, answers used and unread input are exactly those of encoding and writing each read of at most a mebibyte before the next; success means the wrapped RFC encoding of all the input, with byte 10 behind the first full line |
| CliEncode.RunEncodes | bin/base64.c:316-358 | for every splitting of the input into reads and of the output into writes: success leaves the wrapped encoding of all of it, a writing error a strict prefix of that and only if the answers are not ample, a reading error exactly the wrapped output of what was read and only if a read fails |
| CliDecode.FindNewline | bin/base64.c:391-402 | the position of the first byte 10, or the length |
| CliDecode.DecodeToken | bin/base64.c:448-457 | a token is decoded behind what the buffer holds, which is kept, and fits there |
| CliDecode.DecodeRead | bin/base64.c:409-466 | tokenising one read gives the verdict, the output and the state of one call on the read without its newlines |
| CliDecode.Decode | bin/base64.c:404-482 | status, output, answers used and unread input are exactly those of decoding and writing each read of at most a mebibyte before the next; the bytewise call on all the input without its newlines succeeds exactly for alphabet characters with as much of their padding as has arrived, and that input is then in the language exactly if its length is a multiple of 4; its output is the decoding of the alphabet characters before the first other one |
| CliDecode.RunDecodes | bin/base64.c:404-482 | for every splitting into reads and writes and every placing of newlines: success means that the one bytewise call returns 1 and all it emits is written; a decoding error that it returns 0, and that exactly the output of all reads before the refused one is written; a reading error that exactly the output of what was read is written, and some read fails; a writing error that a strict prefix is written, and the answers are not ample |
| CliDecode.FedSplit | bin/base64.c:429-457 | feeding the pieces that are not empty is one call on all of them, from any state; a refused one decides |
| Cli.NothingForeign | lib/arch/generic/dec_tail.c:1-91 | a call that returns 1 has seen alphabet characters and '=' only |
| Cli.EndToEnd | bin/base64.c:257-482 | what `encode` writes decodes to the input if newlines are stripped, or none were written; otherwise it is refused, for every wrap width |
| Cli.PrefixRestores | bin/base64.c:257-482 | every beginning of what `encode` writes decodes without error to a beginning of the input |
| Cli.EncodeThenDecode | bin/base64.c:316-482 | the two commands joined by a pipe, for all codecs, widths, reads and partial writes, whether the first ends well or not: no decoding error, the output is always a beginning of the input, and all of it if both end well, which they do unless a read fails or the answers are not ample |

## Left out

- Choice of the codec from CPU features (lib/codec_choose.c), stub codecs and the -1 return: hardware queries; the codec is a parameter.
- The sse41, sse42, avx and neon32 codecs, the neon64 encoder, the remaining assembly variants, and builds without a fast loop: the same algorithms again, or none.
- The literal headers table_dec_32bit.h and table_enc_12bit.h: their generators are modelled instead; printing is not.
- Alternate alphabets of the table generator.
- Option parsing, usage text, opening files, allocation and messages of the tool; `Status` says which message would be printed.
- `find_garbage` and the ignore-garbage mode: its table holds the double quote and lacks '=' (bin/base64.c:379), so it does not drop exactly the characters outside the language.
- The emulation of writev by write calls (bin/base64.c:103-134): an instance of the partial writes that `Console.Output.Write` allows.
- Wrap-around of `size_t`: lengths are unbounded integers.
- Overlapping source and destination: the source is a sequence, so stores cannot change it. Loads are shown to lie inside it by the bounds of its slices.
- Console.WriteStdout: the answers of the system are an arbitrary but finite list, and writing fails when they are used up; a system that answers 0 or interrupts for ever is not modelled. The same holds of Console.WritevRetry.
- DecodeLoops.Unrolled: the chains of eight, four and two calls are one inner loop of that many rounds; so are those of the encoders.
- EncodeAsm.Machine.DaisyChain: the eleven, five, two and one ROUND_3 instances of the unrolled blocks are one loop over the alternating types.
- OpenMp.Encode: loads are not part of the interleavings. They go to the source, which no store changes.
