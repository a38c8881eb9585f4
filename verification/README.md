# Verified model of the MetaModule firmware's trickier machinery

This project models six parts of the firmware repository in Dafny and proves what they are for. Each `.dfy` file
holds one module of the same name. Run `dafny verify dfyconfig.toml` to check everything.

**Self-extracting boot image.** `Lz4Format` defines LZ4 blocks as data: what a block means (`Expand`), how it is
written (`Encode`) and how the reference decoder reads bytes (`Decode`). `Lz4Search` says, of the finished sequences
alone, where the compressor looks for matches and when it takes one. `Lz4Pack` is the packer: its compressor, decoder
and file header. `Lz4Unique` shows that what is proved of the compressor's output settles it. `StubDecoder` is the boot
stub's decoder and its word-wise copy, in place on a flat memory.
`Crc32` relates the bit-at-a-time CRC-32 of section 8 of RFC 1952 to the nibble tables of the stub and of littlefs;
`BitArithmetic` and `Bytes` are its arithmetic. `Uimg` and `ElfToUimg` build image records from ELF segments,
`StubBoot` is the stub's check-and-load routine, and `BootImage` joins all of this: what is built, packed and flashed
is what ends up in memory, and the right program is started.

**Console ring.** A core writes its log to a ring, and one reader drains three of them. Writers are a schedule of steps
that may run before every load the reader makes, down to single bytes. `ConsoleLog` is the specification, a function
of the writer's state and the schedule: what one read gives, what one call of the round robin gives, and what a run of
calls gives. The theorems about it have conditions on schedule and positions only. `ConsoleRing` is the ring and the
reader in memory; every method's contract equates its result and its new state with that function.

**Resamplers.** `Interpolation` is the cubic, `StreamResampler` and `BlockResampler` the two ways of evaluating it,
over real numbers.

**Recursive lock.** `RecursiveLock` takes every load, store and compare-and-swap of the lock as one step and lets any
number of processes interleave.

**WAV pre-buffer.** `WavFileStream` is the sample FIFO used as a cache window over a file, for any interleaving of
reads, pops, resets and seeks in which each reset has its seek before the next read.

**Calibration.** `Calibration` is the state machine that measures input and output jacks. A function of
the updates says how phase, statuses, current output and delay go on, and what the history keeps of each update,
signals included; the evidence for a stored value points into that history.

Ghost state records history (the log, what was played, when a reading was taken), so that contracts can speak about
whole runs. Where the environment decides something (writer steps, media errors, signals, buttons), it is a parameter
and the contracts hold for all of its values.

## Where the code does not do what it seems to

Each of these is proved, as the exact condition under which the code is right and with a concrete input on which it is
not.

- The stub's 32-bit test `off + size > usize` means what it says exactly unless the sum wraps to at most `usize`
  (`SizeCheckExact`). With a 128-byte image whose second record has 2^32 - 64 bytes the walk goes from the first
  header to the second and back for ever, without changing memory (`WrapLoops`).
- The packer marks a segment bootable by its run-time range, closed at the end. The stub starts it exactly if its entry
  point lies in its load range and that range ends below 2^32 (`EntrySegmentStarts`). It does not start a segment whose
  entry point lies in a zero-filled tail (`MarkedNotStarted`), nor one that reaches the top of memory, wherever its
  entry point is (`TopNotStarted`).
- The padding loop aligns payloads to four bytes exactly when their length is even (`PaddingAligns`); one byte is
  padded to two (`OneByteIsNotAligned`).
- A console chunk equals the log at its position exactly if, for every byte, its position was not written over before it
  was loaded, or the byte logged last to its cell by then happens to be the same (`ChunkIsLogExactly`). A read of a full
  ring during which one more byte is copied, but not yet published, delivers 2 where 1 was logged
  (`UnpublishedCopyIsDelivered`). If whatever overwrites is published by the second look at the write position, the
  chunk is right (`PublishedOverwriteIsSeen`).
- The block resampler's three-sample shortcut equals three shifts exactly when two taps are equal (`SkipThreeExact`). So
  an output is right exactly unless the samples taken for it from its block number 3, 9, 15 and so on, it lies between
  two samples, and the two samples before those differ (`EmissionExact`). Up to ratio 2 that never happens
  (`SlowIsRight`). At ratio 3.5 six samples given in one block make the second output wrong (`SkipThreeRun`), and the
  same samples given in two blocks do not (`SkipThreeCut`).
- The tests for the block resampler's shortcuts count samples where frames are needed. A turn takes fewer samples than
  the position moves on exactly if there are two channels or more, and one frame is left and at least two are asked
  for, or two are left and at least three, or four are left and at least five (`ShortExactly`, `ShortTurn`).
- A step keeps the lock's invariant exactly if it does not nest a hold to 2^32 (`StepKeeps`). A run from the initial
  state does nest so deep and then lets a second process in (`WrapIsReached`).

## Model

| member | source | states |
|---|---|---|
| Lz4Format.DecodeEncode | firmware/flashing/selfextract/lz4_pack.py:120-159 | reading the bytes of any block whose matches reach back into its own output gives what the block means, with the cursor exactly at the end |
| Lz4Format.SequencesAt | firmware/flashing/selfextract/lz4_pack.py:125-156 | the decoder's loop over encoded sequences produces their expansion and goes on right after them |
| Lz4Format.SequenceAt | firmware/flashing/selfextract/lz4_pack.py:125-156 | one round of the decoder undoes the encoding of one sequence, length extensions and overlap included |
| Lz4Format.ExtensionAt | firmware/flashing/selfextract/lz4_pack.py:130-135 | summing bytes up to the first below 255 undoes the extension of a length |
| Lz4Pack.CopyMatchIsSource | firmware/flashing/selfextract/lz4_pack.py:152-156 | a byte-wise copy over a stretch of the source that repeats at its offset reproduces that stretch, even where it overlaps itself |
| Lz4Pack.DescribesLegal | firmware/flashing/selfextract/lz4_pack.py:70-117 | sequences that describe the source obey the end-of-block conditions: offsets 1 to 65535, matches of at least 4 starting more than 12 bytes before the end, the last 5 bytes literals |
| Lz4Pack.DescribesLongest | firmware/flashing/selfextract/lz4_pack.py:87-95 | every match goes on to the match limit or to the first byte that differs |
| Lz4Pack.DescribesExpands | firmware/flashing/selfextract/lz4_pack.py:76-117 | sequences that describe the source expand to its prefix |
| Lz4Pack.SequenceSize | firmware/flashing/selfextract/lz4_pack.py:49-68 | a sequence's token, extension and offset bytes are paid for by its literals and its match |
| Lz4Pack.BlockSize | firmware/flashing/selfextract/lz4_pack.py:105-117 | a block for n bytes takes at most n + n/255 + 2 bytes |
| Lz4Pack.EmitSequence | firmware/flashing/selfextract/lz4_pack.py:49-68 | appends exactly the encoding of one sequence |
| Lz4Pack.ExtendMatch | firmware/flashing/selfextract/lz4_pack.py:88-95 | comparing 64 bytes at a time and then single bytes finds the longest match before the limit |
| Lz4Pack.CompressSequences | firmware/flashing/selfextract/lz4_pack.py:70-103 | the sequences emitted describe the source up to the anchor, and are the ones that the search finds: with steps that grow by one every 64 misses, a match begins at a position looked at exactly if the latest earlier one of equal hash is at most 65535 back and has the same four bytes, and copies from there |
| Lz4Pack.Lz4Compress | firmware/flashing/selfextract/lz4_pack.py:37-117 | the output encodes a legal block of longest matches that stands for the source, with exactly the matches that the search finds, within the size bound |
| Lz4Search.SearchHits | firmware/flashing/selfextract/lz4_pack.py:79-99 | after a match the search goes on at its end, and nothing decided before changes |
| Lz4Search.SearchMisses | firmware/flashing/selfextract/lz4_pack.py:100-103 | without a usable position no match begins, and the step grows with the misses |
| Lz4Search.TableFinds | firmware/flashing/selfextract/lz4_pack.py:82-90 | the hash table holds the latest position of each hash, so that its test is exactly whether a usable position exists |
| Lz4Unique.OnlyBlock | firmware/flashing/selfextract/lz4_pack.py:37-117 | these properties leave one block for a source: two blocks with them are equal |
| Lz4Unique.EqualBytes | firmware/flashing/selfextract/lz4_pack.py:76-117 | 14 equal bytes or more become one literal, one match of offset 1 and length n - 6, and five closing literals |
| Lz4Pack.Lz4Decompress | firmware/flashing/selfextract/lz4_pack.py:120-159 | the decoder's loops compute the specified reading, with each of its errors |
| Lz4Pack.BlockDecompresses | firmware/flashing/selfextract/lz4_pack.py:120-177 | decompressing a block for a source gives back that source, without error |
| Lz4Pack.Pack | firmware/flashing/selfextract/lz4_pack.py:162-186 | the packer's own check never fails; the file is header and the compressor's stream, refused only if a size does not fit 32 bits |
| StubDecoder.Copy | firmware/flashing/selfextract/stub.c:98-116 | the aligned four-word path and the byte path both move exactly the given bytes, whenever none is overwritten before it is read |
| StubDecoder.CopyWords | firmware/flashing/selfextract/stub.c:100-112 | four words read and then written are sixteen bytes copied |
| StubDecoder.StubMatch | firmware/flashing/selfextract/stub.c:154-157 | the pointer loop appends the match that the reference decoder appends |
| StubDecoder.CleanRound | firmware/flashing/selfextract/stub.c:124-158 | in a well-formed stream literals never run past the end and output never past its size |
| StubDecoder.Lz4Decompress | firmware/flashing/selfextract/stub.c:119-161 | on every well-formed stream the stub writes the bytes and returns the count of the reference decoder, and changes nothing else in memory |
| Crc32.NibbleIsBitSteps | firmware/flashing/selfextract/stub.c:165-188 | one table step is four steps of the bit-at-a-time reflected CRC with polynomial EDB88320 |
| Crc32.TableByte | firmware/flashing/selfextract/stub.c:184-188 | two table steps are one step of the 256-entry table of RFC 1952 |
| Crc32.UpdateStep | firmware/flashing/selfextract/stub.c:184-188 | so the stub's loop body is one byte of the RFC's update |
| Crc32.UpdateConcat | firmware/lib/littlefs/lfs_util.c:17-33 | a CRC over a concatenation chains over the parts |
| Crc32.NibbleInjective | firmware/flashing/selfextract/stub.c:186-187 | a table step is injective on 32-bit states |
| Crc32.UpdateInjective | firmware/flashing/selfextract/stub.c:184-188 | different states stay different over the same data |
| Crc32.FourBytes | firmware/flashing/selfextract/stub.c:184-188 | from one state, different runs of up to four bytes lead to different states |
| Crc32.CorruptionChangesCrc | firmware/flashing/selfextract/stub.c:163-190 | buffers of any one length that differ only within four consecutive bytes have different CRCs |
| Crc32.Crc32Calc | firmware/flashing/selfextract/stub.c:163-190 | over memory, the stub computes the CRC-32 of section 8 of RFC 1952 |
| Crc32.ZeroByteCrc | firmware/flashing/selfextract/stub.c:163-190 | the CRC-32 of one zero byte is D202EF8D, and that of nothing is 0 |
| Crc32.LfsCrc | firmware/lib/littlefs/lfs_util.c:17-33 | littlefs's loop computes the RFC's update from any starting value, so that started at FFFFFFFF and complemented it is the same CRC |
| Uimg.PaddingAligns | firmware/flashing/uimg_header.py:39-43 | the padding aligns to four bytes exactly for payloads of even length |
| Uimg.OneByteIsNotAligned | firmware/flashing/uimg_header.py:39-43 | a payload of one byte is padded to two |
| Uimg.Pad | firmware/flashing/uimg_header.py:39-43 | the loop appends as many zeros as the length exceeds a multiple of four |
| Uimg.CreateUimgHeader | firmware/flashing/uimg_header.py:28-73 | the patched header is the one that holds the CRC of itself with that field zero; sizes, addresses and types that do not fit are refused |
| Uimg.RecordFields | firmware/flashing/uimg_header.py:51-73 | a built record reads back as the magic, size, addresses and type it was built from |
| Uimg.RecordChecks | firmware/flashing/uimg_header.py:34-73 | both checksums are those of the bytes they cover, the header's own counting as zero; time, constants, type and name are in their places; the payload follows with its padding |
| ElfToUimg.RemapBack | firmware/flashing/elf_to_uimg.py:59-68 | remapping an address of a shared memory to the other core's view and back returns it |
| ElfToUimg.RemapLma | firmware/flashing/elf_to_uimg.py:61-68 | the loop over the table applies each mapping in turn |
| ElfToUimg.RemapIsLoadAddress | firmware/flashing/elf_to_uimg.py:13-17 | which comes to an offset of 38000000 or 20000000 (hexadecimal) for the two shared memories, both ends included, and none elsewhere |
| ElfToUimg.RecordsExactly | firmware/flashing/elf_to_uimg.py:37-86 | the records are, in order and field by field, those of the segments with data: loaded at their physical address as the loader sees it, bootable exactly if they are the A7's and run where the entry point is |
| ElfToUimg.GetImagesForElf | firmware/flashing/elf_to_uimg.py:20-96 | the image and target areas are those of the records just described; one field that does not fit refuses the file |
| ElfToUimg.ClashIsSharing | firmware/flashing/elf_to_uimg.py:132-134 | for areas that are not empty, the test on their ends is exactly whether they share an address |
| ElfToUimg.OverlapCheck | firmware/flashing/elf_to_uimg.py:126-134 | the nested loops raise exactly if two areas clash |
| ElfToUimg.NoClashDisjoint | firmware/flashing/elf_to_uimg.py:126-134 | if they do not raise, no address belongs to two targets |
| ElfToUimg.MakeImage | firmware/flashing/elf_to_uimg.py:112-134 | the main block succeeds exactly if all records fit and none clash; what it has written to the output file, also when it fails, is the A7's and then the M4's records as far as it got |
| StubBoot.SizeCheckExact | firmware/flashing/selfextract/stub.c:226-227 | the 32-bit size check agrees with the true one exactly if the sum does not wrap to something small |
| StubBoot.WrapLoops | firmware/flashing/selfextract/stub.c:226-234 | a concrete staged image over which the walk goes round for ever: any number of turns, each with its copy, leads to one of its two headers and leaves memory as it was |
| StubBoot.TurnIsStep | firmware/flashing/selfextract/stub.c:217-235 | where the size check holds, a turn in 32-bit arithmetic does what the walk's step says |
| StubBoot.OnlyKernelsStart | firmware/flashing/selfextract/stub.c:229-230 | only a record of the kernel type changes the entry point, and then to its own |
| StubBoot.ReadStep | firmware/flashing/selfextract/stub.c:217-230 | one header is judged as specified: stop, bad, or load |
| StubBoot.LoadPayload | firmware/flashing/selfextract/stub.c:232-232 | one payload is copied out, leaving the staged image and the packed file's header intact |
| StubBoot.WalkRecords | firmware/flashing/selfextract/stub.c:212-242 | the walk ends, with the specified outcome and all its payloads loaded in order |
| StubBoot.StubMain | firmware/flashing/selfextract/stub.c:192-249 | for flash contents that meet `Bootable`, the outcome, and what every byte of memory then holds |
| BootImage.WalkMeetsRecords | firmware/flashing/selfextract/stub.c:217-235 | walking the image of a list of records meets exactly those records, each at its offset |
| BootImage.LoadedByte | firmware/flashing/selfextract/stub.c:232-232 | with targets that pass the overlap check, later payloads do not overwrite earlier ones |
| BootImage.EntrySegmentStarts | firmware/flashing/elf_to_uimg.py:73-79 | a segment marked bootable is started by the stub exactly if its entry lies in its load range, header counted in, and that range ends below 2^32 |
| BootImage.MarkedNotStarted | firmware/flashing/elf_to_uimg.py:73-79 | a concrete segment that is marked and not started, its entry being in a zero-filled tail |
| BootImage.TopNotStarted | firmware/flashing/selfextract/stub.c:229-229 | a concrete segment at the top of memory that is marked and not started, wherever in its load range its entry is |
| BootImage.FlashedBoots | firmware/flashing/selfextract/stub.c:192-242 | a flashed image whose targets keep clear of what the stub still needs, with one bootable record, passes every check and jumps to that record's entry |
| BootImage.FlashedLoads | firmware/flashing/selfextract/stub.c:212-235 | each payload is then at its load address, and memory outside staging and targets is untouched |
| BootImage.PackedIsFlashed | firmware/flashing/selfextract/lz4_pack.py:179-183 | the packer's file, put where the stub looks, is a flashed image that boots |
| BootImage.BuildFlashBoot | firmware/flashing/selfextract/stub.c:192-242 | end to end: building the records of both cores, packing, flashing and running the stub jumps to the A7 file's entry point, with every byte of every segment in memory where the A7 sees the segment's physical address |
| BootImage.FlashedHangs | firmware/flashing/selfextract/stub.c:237-248 | with no bootable record the stub hangs |
| BootImage.NoKernelHangs | firmware/flashing/selfextract/stub.c:229-238 | so an image without a record of the kernel type hangs, whatever its addresses |
| BootImage.DamageIsCaught | firmware/flashing/selfextract/stub.c:209-210 | damage to the unpacked image within four consecutive bytes always fails the check |
| ConsoleLog.PositionDifference | firmware/src/console/console_buffer_reader.hh:82-82 | 32-bit positions differ by the true distance while that is below 2^32 |
| ConsoleLog.TrimmedAtNewline | firmware/src/console/console_buffer_reader.hh:109-118 | a cut chunk ends at its last newline; one without newline is left whole |
| ConsoleLog.LoadedByteIs | firmware/src/console/console_buffer_reader.hh:97-99 | a byte loaded while the writer runs is the logged one exactly if its position had not been written over, and else the one logged last to the same cell |
| ConsoleLog.ChunkIsLogExactly | firmware/src/console/console_buffer_reader.hh:97-123 | a delivered chunk equals the log at its position exactly if, for every byte, its position was not written over before it was loaded, or the byte logged last to its cell by then happens to be the same |
| ConsoleLog.PublishedOverwriteIsSeen | firmware/src/console/console_buffer_reader.hh:101-107 | if what overwrites is published by the second look at the write position, a chunk that passes it is the log at its position |
| ConsoleLog.UnpublishedCopyIsDelivered | firmware/src/console/console_buffer_reader.hh:101-107 | a concrete run of one read that delivers 2 where 1 was logged |
| ConsoleLog.PromptDelivery | firmware/src/console/console_buffer_reader.hh:75-123 | with a writer that publishes every copy at once and is less than 2^32 bytes ahead, a read gives the next logged bytes, or nothing because nothing is pending, or drops a backlog of more than `Size` bytes whole |
| ConsoleLog.LappedIsTold | firmware/src/console/console_buffer_reader.hh:86-95 | a reader that was lapped gives the overrun message, cut to the room, and goes on at what is published |
| ConsoleLog.TornIsDropped | firmware/src/console/console_buffer_reader.hh:101-107 | if the copied region was overwritten by the second look, nothing is given, and the reader goes on at what is published after it |
| ConsoleLog.SpaceIsThere | firmware/src/console/uart_log.cc:95-101 | the test a waiting writer spins on never lets it past the ring, in 32-bit arithmetic |
| ConsoleLog.WaitingStaysTight | firmware/src/console/uart_log.cc:95-101 | whatever such a writer does, its log ends within `Size` bytes of the position the reader has shown it |
| ConsoleLog.InRingDelivery | firmware/src/console/console_buffer_reader.hh:75-123 | for any schedule in which the log, unpublished copies included, ends within `Size` bytes of the reader: a read drops nothing, gives nothing just if nothing is published at its first look, and else the next logged bytes |
| ConsoleLog.InRingChunk | firmware/src/console/console_buffer_reader.hh:97-123 | and then exactly those published that fit and lie in one piece of the ring, cut at the last line end among them |
| ConsoleLog.ResyncedIsFaithful | firmware/src/console/console_buffer_reader.hh:27-32 | after a resync nothing is pending, and what is delivered from there on is faithful whatever came before |
| ConsoleLog.PayloadsAreTheLog | firmware/src/console/console_buffer_reader.hh:44-123 | over any run of calls, with any chunk sizes and whatever kinds of writes, as long as the log ends within `Size` bytes of the reader in every call: the payloads given for a buffer concatenate to exactly the piece of its log from where it started to where its reader is |
| ConsoleLog.PromptRunIsTheLog | firmware/src/console/console_buffer_reader.hh:44-123 | over any run, what has been delivered since the last drop from a buffer whose writer publishes at once is exactly the log up to the reader |
| ConsoleLog.ServedWithinThree | firmware/src/console/console_buffer_reader.hh:44-71 | under the same condition, of any three successive calls one serves a given buffer that has something pending |
| ConsoleLog.WaitingRunInRing | firmware/src/console/uart_log.cc:95-101 | in every run a writer that waits for space meets that condition |
| ConsoleLog.ReadShows | firmware/src/console/console_buffer_reader.hh:120-121 | whatever a read moves past, lapped and overwritten backlogs included, it shows to the writer |
| ConsoleLog.DrainShows | firmware/src/console/console_buffer_reader.hh:44-123 | over any run of calls every writer is shown where its reader is |
| ConsoleLog.SpaceIsWhatWasRead | firmware/src/console/uart_log.cc:95-101 | so a waiting writer's test says exactly whether what it wants to write fits beside what has not been read |
| ConsoleLog.DrainedWriterWrites | firmware/src/console/uart_log.cc:95-101 | and a writer whose log has been read gets past it |
| ConsoleRing.CellIsLatest | firmware/src/console/concurrent_buffer.hh:36-42 | every cell of the ring holds the byte logged last to it |
| ConsoleRing.ConcurrentBuffer.CopyIn | firmware/src/console/concurrent_buffer.hh:36-42 | a copy extends the log, and the ring holds its last `Size` bytes |
| ConsoleRing.ConcurrentBuffer.Step | firmware/src/console/uart_log.cc:72-101 | reserving and copying, publishing, and copying only if the wait test passes are the specified steps of the writer |
| ConsoleRing.ConcurrentBuffer.Interfere | firmware/src/console/uart_log.cc:72-101 | any list of writer steps leads to the specified state |
| ConsoleRing.TrimLine | firmware/src/console/console_buffer_reader.hh:112-118 | the backward search finds the specified cut |
| ConsoleRing.CopyOut | firmware/src/console/console_buffer_reader.hh:97-99 | the copy loads the specified bytes, for any schedule of the writer |
| ConsoleRing.ReadChunk | firmware/src/console/console_buffer_reader.hh:97-123 | copying, looking again and cutting give exactly the specified outcome |
| ConsoleRing.ReadRing | firmware/src/console/console_buffer_reader.hh:75-123 | a read gives exactly the specified outcome and leaves writer and reader where it says, for any schedule |
| ConsoleRing.ConsoleBufferReader.ReadFrom | firmware/src/console/console_buffer_reader.hh:75-123 | the buffer's state becomes the specified one, the position it moved to is stored where the writer reads it, the output holds the specified bytes, and no other buffer changes |
| ConsoleRing.ConsoleBufferReader.NextChunk | firmware/src/console/console_buffer_reader.hh:44-71 | a call changes the three buffers as specified and gives the payload of the first in turn that has something, in its colour |
| ConsoleRing.ConsoleBufferReader.Drain | firmware/src/console/console_buffer_reader.hh:44-71 | any number of calls, with any schedules, leads to the state that the run theorems speak of |
| ConsoleRing.ConsoleBufferReader.Resync | firmware/src/console/console_buffer_reader.hh:27-32 | every backlog is dropped |
| Interpolation.SlopeIsDerivative | firmware/coreproc_plugin/dsp/stream_resampler.cc:80-88 | the slope used below is the cubic's derivative |
| Interpolation.QuadraticExact | firmware/coreproc_plugin/dsp/stream_resampler.cc:80-88 | over samples of a polynomial of degree at most two the cubic is that polynomial |
| Interpolation.FirstTapMatters | firmware/coreproc_plugin/dsp/stream_resampler.cc:80-88 | a different first tap changes every value strictly between two samples |
| StreamResampler.Resampler.Restart | firmware/coreproc_plugin/dsp/stream_resampler.cc:27-39 | a flush reads three frames, with silence before them |
| StreamResampler.Resampler.Advance | firmware/coreproc_plugin/dsp/stream_resampler.cc:41-78 | the loop with its three- and two-frame shortcuts ends, and leaves the taps of the frame that single shifts would reach |
| StreamResampler.Resampler.Process | firmware/coreproc_plugin/dsp/stream_resampler.cc:14-90 | the k-th call after a flush has consumed floor(k r) + 3 frames and gives, per channel, the cubic at the fraction of k r over its four frames |
| StreamResampler.Resampler.SetSampleRateInOut | firmware/coreproc_plugin/dsp/stream_resampler.cc:115-121 | a changed ratio asks for a flush |
| StreamResampler.QuadraticInput | firmware/coreproc_plugin/dsp/stream_resampler.cc:41-89 | for input from a polynomial of degree at most two, every output with k r >= 1 is exact |
| StreamResampler.QuadraticStart | firmware/coreproc_plugin/dsp/stream_resampler.cc:31-34 | an earlier output is exact just when it falls on the first sample or the polynomial is silent before it |
| StreamResampler.CurveIsSmooth | firmware/coreproc_plugin/dsp/stream_resampler.cc:80-88 | adjacent pieces match in value and slope at every frame, for any input |
| BlockResampler.CompleteIsUnique | firmware/coreproc_plugin/dsp/block_resampler.cc:51-114 | where every output is right, what has been emitted depends on the samples alone, not on how they were cut into blocks |
| BlockResampler.CompleteIsStream | firmware/coreproc_plugin/dsp/block_resampler.cc:51-114 | and it is what the one-channel stream resampler gives |
| BlockResampler.SkipThreeExact | firmware/coreproc_plugin/dsp/block_resampler.cc:64-74 | the three-sample shortcut equals three shifts exactly if x1 = x2, and gives the same value otherwise only on a sample |
| BlockResampler.EmissionExact | firmware/coreproc_plugin/dsp/block_resampler.cc:51-114 | at any ratio and for any cut into blocks, exactly which outputs are right: all but those for which a number of samples of the form 6 i + 3 was taken from their block, and of these the ones that fall on a sample or have two equal samples before it |
| BlockResampler.SlowIsRight | firmware/coreproc_plugin/dsp/block_resampler.cc:51-114 | up to ratio 2 every output is right, for any cut |
| BlockResampler.ArrivesLate | firmware/coreproc_plugin/dsp/block_resampler.cc:64-98 | the turn of the loop that arrives at an output ends with the three-sample shortcut exactly in that case |
| BlockResampler.SkipThreeRun | firmware/coreproc_plugin/dsp/block_resampler.cc:22-115 | a fresh resampler at ratio 3.5, given six samples in one block, gets the second output wrong |
| BlockResampler.SkipThreeCut | firmware/coreproc_plugin/dsp/block_resampler.cc:22-115 | given the same samples in two blocks, it gets it right |
| BlockResampler.Resampler.ShiftTaps | firmware/coreproc_plugin/dsp/block_resampler.cc:64-98 | as many samples are taken as the position moves on exactly unless a shortcut is short; then at most six, or what the block has, with the last samples as taps, the first of them one sample late just if three were taken |
| BlockResampler.ShortExactly | firmware/coreproc_plugin/dsp/block_resampler.cc:64-87 | exactly when a shortcut is taken without enough frames, for any number of channels |
| BlockResampler.ShortTurn | firmware/coreproc_plugin/dsp/block_resampler.cc:64-98 | a concrete turn, with two channels and one frame left, that takes fewer samples than the position moves on |
| BlockResampler.Resampler.Emit | firmware/coreproc_plugin/dsp/block_resampler.cc:105-111 | the inner loop emits the outputs that lie before the next sample |
| BlockResampler.Resampler.Process | firmware/coreproc_plugin/dsp/block_resampler.cc:22-115 | for any cut of the input into blocks of whole frames, and any ratio with one channel or up to 1 with more, each output is the cubic at its position, its first tap late exactly as specified; and as long as the output does not fill up, all outputs that the samples so far allow have been given |
| RecursiveLock.StepKeeps | firmware/system/lock.cc:131-254 | a step of any process keeps the invariant exactly if it does not nest the lock to 2^32 |
| RecursiveLock.RunKeeps | firmware/system/lock.cc:131-254 | so every interleaving from the initial state keeps it |
| RecursiveLock.MutualExclusion | firmware/system/lock.cc:131-254 | at most one process is between its compare-and-swap and its final store; the owner word names it or nobody; the count is 0 exactly when there is none, and else its acquires minus its releases |
| RecursiveLock.HoldIsStable | firmware/system/lock.cc:131-254 | no step of another process changes a held lock |
| RecursiveLock.StrangerReleasesNothing | firmware/system/lock.cc:201-254 | a release by a process that does not have the lock changes nothing |
| RecursiveLock.ReleaseReleases | firmware/system/lock.cc:201-221 | from any state of the invariant, four turns of an owner's plain release free the lock, however deep it was nested, and leave everyone else where they were |
| RecursiveLock.ReleaseRecursiveReleases | firmware/system/lock.cc:223-254 | six turns of an owner's recursive release leave it one hold less, and the lock free if that was the last |
| RecursiveLock.FreeIsTaken | firmware/system/lock.cc:131-199 | three turns of any acquire of a free lock take it |
| RecursiveLock.OwnerNests | firmware/system/lock.cc:131-199 | five turns of an owner's recursive acquire nest it once more |
| RecursiveLock.TryFails | firmware/system/lock.cc:168-182 | a plain try fails and changes nothing while anybody has the lock |
| RecursiveLock.TryRecursiveFails | firmware/system/lock.cc:131-185 | a recursive one, while somebody else has it |
| RecursiveLock.NestAndUnnest | firmware/system/lock.cc:131-254 | a process that acquires and releases d times leaves the initial state, but for the result it last got |
| RecursiveLock.AcquireReturns | firmware/system/lock.cc:131-199 | success means having the lock, as owner of record; failure means not having had it, or, for a plain acquire, that somebody had |
| RecursiveLock.WrappedHoldIsTakenAgain | firmware/system/lock.cc:148-148 | nested to 2^32, the lock is taken by a second process |
| RecursiveLock.Nests | firmware/system/lock.cc:131-168 | a process that acquires d times is the owner, with count d, for every d below 2^32 |
| RecursiveLock.WrapIsReached | firmware/system/lock.cc:131-168 | a run from the initial state in which one process acquires 2^32 times and a second one is then inside as well |
| RecursiveLock.Lock.Step | firmware/system/lock.cc:131-254 | each operation on the lock's words is the state machine's step |
| RecursiveLock.Lock.Interleave | firmware/system/lock.cc:131-254 | a schedule run on the lock ends in the state machine's state |
| WavFileStream.PutKeepsTail | firmware/coreproc_plugin/wav/wav_file_stream.cc:146-160 | a sample put extends the known end of the FIFO's contents |
| WavFileStream.BlockFits | firmware/coreproc_plugin/wav/wav_file_stream.cc:118-129 | a block's samples fit the read buffer when a frame has at least a byte per channel |
| WavFileStream.Stream.Load | firmware/coreproc_plugin/wav/wav_file_stream.cc:80-91 | a file that opens is played from its start, with an empty buffer |
| WavFileStream.Stream.Resize | firmware/coreproc_plugin/wav/wav_file_stream.cc:48-65 | the buffer takes what the caller allows and no more than the file has, and is emptied only if its size changes |
| WavFileStream.Stream.ReadPcmFrames | firmware/coreproc_plugin/wav/wav_file_stream.cc:129-129 | frames come from the cursor and fit the read buffer |
| WavFileStream.Stream.ReadBlock | firmware/coreproc_plugin/wav/wav_file_stream.cc:129-166 | one block is put whole and keeps window and cursor together, or the file is at its end or in error |
| WavFileStream.Stream.ReadFramesFromFile | firmware/coreproc_plugin/wav/wav_file_stream.cc:112-168 | the state is an error exactly if the medium cut a block short before the file ended, and then the whole blocks before it were added; else exactly what was asked for, had room and was left was added, and the state tells whether the file has ended |
| WavFileStream.ReadTurn | firmware/coreproc_plugin/wav/wav_file_stream.cc:118-166 | one more block, whole or cut short by file or medium, leads to the specified end or on to the next |
| WavFileStream.WholeBlocksSuffice | firmware/coreproc_plugin/wav/wav_file_stream.cc:129-136 | a medium that gives whole blocks never makes an error |
| WavFileStream.Stream.PopSample | firmware/coreproc_plugin/wav/wav_file_stream.cc:170-177 | a pop gives the file's next sample as a fraction of full scale, or 0 from an empty buffer |
| WavFileStream.Stream.Play | firmware/coreproc_plugin/wav/wav_file_stream.cc:107-241 | over any interleaving of reads, pops, resets and seeks, each reset having its seek before the next read, what was played since playback was last positioned is the file from there, followed by what is waiting; an error needs a medium that cut a block short, and without one cursor, window, what is waiting and state are exactly what the fold over the calls says |
| WavFileStream.Stream.PlayWholeFile | firmware/coreproc_plugin/wav/wav_file_stream.cc:107-177 | a file just loaded, read and popped frame by frame, is played whole, to its end |
| WavFileStream.Stream.ResetPlaybackToFrame | firmware/coreproc_plugin/wav/wav_file_stream.cc:220-228 | a buffered frame is rewound to, so that pops go on from it, unless it is past the write position of a wrapped window; a frame that is not buffered empties the buffer |
| WavFileStream.Stream.SeekFrameInFile | firmware/coreproc_plugin/wav/wav_file_stream.cc:231-241 | a buffered frame moves nothing; any other is read next |
| WavFileStream.Stream.BufferedFramesAreTheFiles | firmware/coreproc_plugin/wav/wav_file_stream.cc:247-283 | frames reported as buffered are exactly the last ones counted, and each really holds the file's samples where a rewind looks for them |
| Calibration.Measurer.Read | firmware/src/calibrate/calibration_measurer.hh:41-70 | every second call judges the signal, and records a near and quiet one for its channel only |
| Calibration.Routine.MeasureInput | firmware/src/calibrate/calibration_routine.hh:211-238 | the status tells what was recorded since plugging in; a recorded value is the signal that this update was given, steady and near its target; the second kind of reading saves both |
| Calibration.Routine.UpdateCalIns | firmware/src/calibrate/calibration_routine.hh:174-209 | for the signals and plugs it is given, every input keeps sound evidence through an update, and statuses, plugs and phase go on as specified |
| Calibration.InputSpread | firmware/src/calibrate/calibration_measurer.hh:72-82 | sound input readings are more than 2 V apart |
| Calibration.MovesKeep | firmware/src/calibrate/calibration_routine.hh:357-409 | an update with one output patched may store as a reading only the signal it was given, steady and near the target, and keeps the order of readings and the output alone patched since the first |
| Calibration.ThirdReading | firmware/src/calibrate/calibration_routine.hh:392-396 | the zero reading completes sound evidence |
| Calibration.Routine.ScanOutputs | firmware/src/calibrate/calibration_routine.hh:341-355 | one patched output is told from none and several, and exactly the half-measured outputs that are unplugged fail |
| Calibration.Routine.MeasureValidateOutput | firmware/src/calibrate/calibration_routine.hh:438-468 | every fifth update accepts a signal that is quiet and within 0.25 V of the target |
| Calibration.Routine.FinishOutput | firmware/src/calibrate/calibration_routine.hh:392-408 | a calibration is computed from sound evidence, and accepted if the offset agrees, else retried |
| Calibration.Routine.AdvanceOutput | firmware/src/calibrate/calibration_routine.hh:357-409 | status, delay, stored readings and current output go on as specified, a stored low or high reading being the signal just measured, and all evidence stays sound |
| Calibration.Routine.UpdateCalOuts | firmware/src/calibrate/calibration_routine.hh:336-429 | an update with the given patches and measured signal goes on as specified, keeps all evidence sound, and ends the phase when all outputs are done or on request |
| Calibration.OutputSpread | firmware/src/calibrate/calibration_routine.hh:438-468 | sound low and high readings of an output are more than 3.5 V apart |
| Calibration.Routine.Run | firmware/src/calibrate/calibration_routine.hh:45-68 | over whole runs, state and history are exactly what the fold over the updates says, and every output calibration is as read back or equal to the low and high signals, more than 3.5 V apart, that updates in the history were given, in order and with a zero reading, while the output was current and alone patched; every input calibration likewise equals a low and a high signal, more than 2 V apart, given while the input stayed plugged |
| Calibration.Routine.Update | firmware/src/calibrate/calibration_routine.hh:45-68 | one update, with the buttons pressed before it, is the specified step, and the history keeps what it was given, its phase and its current output |
| Calibration.CountIsAlone | firmware/src/calibrate/calibration_routine.hh:341-355 | counting patched outputs and remembering the last one finds the output that is alone patched |
| Calibration.Routine.OutputGetsDone | firmware/src/calibrate/calibration_routine.hh:357-409 | an output that is alone patched for 24 updates, with a steady signal at the right target whenever it is looked at and an offset that agrees, is done, with the two readings stored |
| Calibration.Routine.FailedOutput | firmware/src/calibrate/calibration_routine.hh:357-371 | an output that failed and is patched again starts over exactly if it is not still the current one |
| Calibration.Routine.InputGetsDone | firmware/src/calibrate/calibration_routine.hh:211-238 | an input plugged in alone for four updates, with steady signals near 1 V and 4 V in either order at the second and fourth, is done, even if it had failed before |
| Calibration.Routine.InputsEnd | firmware/src/calibrate/calibration_routine.hh:205-208 | when all inputs are done and unplugged it is the turn of the outputs, all of them to do |
| Calibration.Routine.NextSkipsInputs | firmware/src/calibrate/calibration_routine.hh:205-208 | the next button does the same at once |
| Calibration.Routine.OutputsEnd | firmware/src/calibrate/calibration_routine.hh:415-429 | when all outputs were done, or on request, the phase ends, with writing if the data are valid |

## Left out

- StubBoot.StubMain: a stream that is not well-formed, an unpacked image too large for staging, and records that would be loaded over the staged image, over the packed file's header or past the end of memory are outside its contract; the stub checks none of these. The stub's own code and the translation table count as memory that nothing is loaded to.
- StubBoot.LoadPayload: the same targets are outside its contract, since what the stub then goes on reading is what it has just overwritten.
- StubBoot.WalkRecords: so are images with a record whose size the 32-bit check misjudges; `WrapLoops` shows what can happen there.
- ConsoleRing.ConcurrentBuffer.Step: one write at a time per buffer; the order in which bytes of writes nested by interrupts are copied is not modelled. A write whose bytes are copied between several loads of the reader is a schedule of smaller copies; if the wait test passes for the whole write, it passes for each of them. A writer that gives up waiting and writes is one that copies without the test.
- ConsoleRing.ConsoleBufferReader.NextChunk: an empty output span is excluded, since the source then reads before its start; colour codes are parameters, their text is not part of this model.
- StreamResampler.Resampler.SetSampleRateInOut: an output rate of zero, which gives an infinite ratio, is excluded; changing the number of channels while playing is not modelled.
- BlockResampler.Resampler.Process: one channel of blocks of whole frames. Nothing is said of the outputs at ratio 0, above ratio 1 with more than one channel, after a flush into a block of less than three frames, or after an output that filled up, which drops input.
- WavFileStream.Stream.ResetPlaybackToFrame: excludes a buffered frame at or past the next one to write, in a window that wraps past the end of the file. There the source passes a difference that wraps below 0 to `LockFreeFifoSpscDyn`, which is not part of this model; such a window needs a seek with frames buffered.
- WavFileStream.Stream.Load: files of more than two channels, and frames smaller than a byte per channel or larger than a block, are excluded; `unload` on its own is not modelled.
- Calibration.Routine.Run: how long several inputs plugged at once take is not stated. Reading back, writing and verifying flash are not modelled: `Start` is given the values read back.
- `CircularBufferBlock`, `LockFreeFifoSpscDyn`, the analysed signal, the calibrator, the WAV reader and the ELF reader are not part of this model; each is given a plain contract: bytes go to consecutive positions, the FIFO holds exactly its size, a signal update yields any signal, an offset is some function of the two readings, a short read means end of file or an error.
- Floating-point rounding: ratios, fractions, samples and voltages are real numbers.
- Interrupt masking in the lock, deadlock freedom and null lock pointers.
- MMU, caches, splash screen and translation table of the stub; the graphical interface; threads other than through the interleavings described.
- Record names are bytes; encoding errors of other text are not modelled, and all records of one image share one time stamp.
- The packer's closing message divides by the source size, so an empty source fails after the file is written; messages are not modelled.
