# RetroPlay OS: a verified model of its data algorithms

Seven algorithms of the firmware are modelled in Dafny and proved correct, or shown exactly where
they are not: the ROM soft-patcher, the two sound queues, the image scalers, the modifier-key
translator, the CD sector reader, the wildcard matcher, and the in-place string replacement that
quotes command lines for the shell. `dafny verify dfyconfig.toml` checks everything.

Code that changes arrays or fields step by step is a method over the same arrays and fields, with
its loops, proved equal to a function of the old state. What the code promises is then proved about
that function, for every input, every run or every interleaving.

| files | what they model |
|---|---|
| `Xor`, `Arith`, `Memory` | exclusive or and shifts on plain numbers, division facts, copying into a buffer |
| `Crc32`, `CrcStandard` | the table-driven checksum, the bitwise register, polynomial division, and the standard's generator |
| `BpsNumber`, `BpsActions`, `BpsMachine`, `BpsPatch`, `BpsProperties`, `BpsPrefill`, `BpsVerified`, `BpsWords` | BPS: numbers, the meaning of a list of actions, the interpreter on any bytes, the C loops, what they promise, a patch that shows the prefill, what acceptance proves, and numbers too large for their words |
| `Ips`, `IpsProperties`, `IpsBoundaries`, `IpsTruncated`, `Patch` | IPS: the two passes, the meaning of a list of records, where the passes stand, patches that end too early; the entry point for both formats |
| `SndRing`, `SndInterleaved`, `SndSequential` | the unlocked ring, call by call and with all sub-steps of both sides interleaved, and why the two agree |
| `AudioModel`, `AudioRing`, `AudioHeard` | the locked ring and its resampler as a step system, the code that performs the steps, and what is heard |
| `Scale`, `ScalePixels`, `ScaleScanline`, `ScalePacked` | nearest, text and scanline scalers; their pixels in plain arithmetic; the scanline forms on tall pictures; whole-factor scalers with packed stores |
| `ComboKeys`, `ComboTap`, `ComboOthers`, `ComboHistory`, `ComboTranslator` | the translator on sets of keys, when the modifier is a key of its own, what is left alone, what is pushed, and the code on packed words |
| `CdAddress`, `CdRead`, `CdProperties`, `CdRetries` | disc addresses, the read loop with its cache and retries, what a read promises, what it survives and costs |
| `Fnmatch`, `FnmatchPatterns` | the wildcard language and the backtracking matcher, and each construct without tokens |
| `ReplaceString`, `ShellQuote` | replace-all in place, and the shell that reads the quoted result |

## Where the obvious claim is false

For each of these the exact condition is proved for all inputs, and a concrete run shows the failure.

- An IPS size trailer that cuts a literal record makes the writing pass lose its place: the two passes
  begin their rounds at the same positions exactly when no literal record is cut (`PassesVisitTheSame`).
  What then follows depends on the bytes: one patch is rejected (`CutLiteralBreaksPatch`), another
  goes through (`CutLiteralMayPass`).
- An IPS patch whose last record ends in the end mark, as data or as the length and value of a run, is
  taken for one with a trailer (`SizeIsFoundExactly`, `LiteralMistakenForTrailer`).
- The prefilled output of a BPS patch can show in the result: exactly when some target copy starts at
  or above what is written (`PrefillIsIgnored`, `SelfCopyShowsPrefill`).
- `plat_sound_callback` leaves old contents in its stream exactly when frames are missing, or a
  half-word is left over (`StreamIsFilledExactly`, `EmptyQueueFillsHalf`).
- `cdrom_read` reports its last frame only (`ReturnIsLastFrame`, `FailureCanBeHidden`).
- A key outside the modifier's table is out of step exactly when an odd number of its events fell
  while the modifier was held, since the last that did not (`UnmappedKeyAfterRun`, `UnmappedKeySticks`).
- A scanline scaler draws below its target exactly when the picture is more than one line taller, or
  one line taller on an even row (`ScanlineStaysInside`, `DrawsPastItsTarget`); the rows inside keep
  the shape of the picture exactly when it is at most one line taller or the target has at most two
  rows (`ScanlineKeepsShape`).
- `buffer_upscale` changes the gap between rows exactly when its line buffer held something else
  than the screen (`GapIsKeptExactly`, `GapShowsLineBuffer`).

## Model

| member | source | states |
|---|---|---|
| Crc32.Crc.constructor | picoarch/source/patch.c:12 | The static table starts all zero, one of the two states `Valid` allows. |
| Crc32.Crc.BuildTable | picoarch/source/patch.c:14-26 | From any contents, every entry becomes its index after eight register steps: the table is complete. |
| Crc32.Crc.Compute | picoarch/source/patch.c:28-41 | In either reachable state of the table, for every buffer, the result is the bit-at-a-time CRC-32 of section 8 of RFC 1952, and the table is complete afterwards. |
| Crc32.EntryOneIsSet | picoarch/source/patch.c:31-32 | Entry 1 of a complete table is not zero, so the test of entry 1 tells the two states apart. |
| Crc32.TableStep | picoarch/source/patch.c:35-36 | Looking up the low byte and moving the rest down equals eight single-bit steps of the whole register. |
| Crc32.TableUpdate | picoarch/source/patch.c:34-38 | One round of the loop leaves the bitwise checksum of the remaining buffer unchanged. |
| Crc32.ChecksumIsRemainder | picoarch/source/patch.c:28-41 | A number is a remainder of dividing the buffer (first word complemented) by the generator polynomial over the two-element field exactly when it is the complement of the checksum. |
| CrcStandard.GeneratorIsStandard | picoarch/source/patch.c:22 | Bit 32 - e of the generator is set exactly for the powers 0, 1, 2, 4, 5, 7, 8, 10, 11, 12, 16, 22, 23, 26 and 32 of the standard. |
| Crc32.RegisterOfConcat | picoarch/source/patch.c:34-38 | The bytes go in one after the other, the first one first. |
| Crc32.DivisionExists | picoarch/source/patch.c:20-24 | The register computes a quotient that cancels every bit of the message, so a remainder exists. |
| Crc32.DivisionUnique | picoarch/source/patch.c:20-24 | Any quotient that cancels the message is that one, and its remainder is the register: division is unique. |
| Crc32.RegisterIsOneDivision | picoarch/source/patch.c:34-38 | Mixing bytes in one after the other is the same as one long division of the whole buffer. |
| Crc32.RegisterInjective | picoarch/source/patch.c:34-38 | For a fixed buffer, different registers before it stay different after it. |
| Crc32.BurstChangesChecksum | picoarch/source/patch.c:28-41 | Buffers of one length whose difference lies within 32 consecutive bits, at any bit position, have different checksums. |
| Crc32.FourBytesChangeChecksum | picoarch/source/patch.c:28-41 | Replacing up to four consecutive bytes, anywhere in a buffer of any length, always changes the checksum. |
| BpsNumber.BpsDecode | picoarch/source/patch.c:50-62 | The 64-bit loop returns the exact value modulo 2^64 and stops right behind the marked byte. |
| BpsNumber.EncodeTerminated | picoarch/source/patch.c:54-58 | The encoder marks the last byte and no other. |
| BpsNumber.DecodeEncode | picoarch/source/patch.c:50-62 | Every number is read back from its encoding, whatever stands before and behind it. |
| BpsNumber.EncodeDecode | picoarch/source/patch.c:50-62 | Every string with only its last byte marked is the encoding of its value: the coding is onto. |
| BpsNumber.DecodeInjective | picoarch/source/patch.c:50-62 | No two such strings decode alike. |
| BpsNumber.NineBytesFit | picoarch/source/patch.c:51-58 | Up to nine bytes the value is below 2^64, so the arithmetic is exact. |
| BpsNumber.TenBytesOverflow | picoarch/source/patch.c:51-58 | Some ten-byte string does not fit 64 bits: nine is the exact limit. |
| BpsActions.ExtendIsPeriodic | picoarch/source/patch.c:126-128 | A copy from distance d extends the output with period d, also when it is longer than d. |
| BpsActions.VerbatimBuilds | picoarch/source/patch.c:112-115 | The list of plain reads of a target builds that target on every source. |
| BpsMachine.CopyExtends | picoarch/source/patch.c:126-128 | The byte-after-byte copy inside the output is the self-overlapping extension, and nothing behind it changes. |
| BpsMachine.StepCarriesOut | picoarch/source/patch.c:99-132 | One round of the loop performs the action that the patch spells: bytes, both cursors, position. |
| BpsMachine.RunPerforms | picoarch/source/patch.c:99-132 | The whole loop performs any valid list of actions that stands between the metadata and the checksums. |
| BpsPatch.CopyBytes | picoarch/source/patch.c:106-124 | The copy loops out of the source and the patch write exactly the bytes named. |
| BpsPatch.CopyWithin | picoarch/source/patch.c:126-128 | The copy loop inside the output re-reads what it has just written. |
| BpsPatch.DoAction | picoarch/source/patch.c:100-131 | One round on the real buffer equals the step function: all four kinds, cursors moved in `size_t` arithmetic, offsets cut to `int`. |
| BpsPatch.RunActions | picoarch/source/patch.c:99-132 | The loop on the real buffer equals the run of the step function. |
| BpsPatch.ReadWord32 | picoarch/source/patch.c:139-149 | Four bytes are read as a word, lowest first. |
| BpsPatch.PatchBps | picoarch/source/patch.c:64-167 | Return code, size and output buffer of both calls, for every patch on which the C code stays inside its buffers, including every rejection. |
| BpsPatch.FourBytesRead | picoarch/source/patch.c:139-149 | A checksum spelled in four bytes is read back. |
| BpsProperties.BpsDecodesEncoding | picoarch/source/patch.c:64-167 | Any valid action list with any metadata, encoded, is accepted by both calls, and exactly the target of the list comes out, whatever the buffer held before. |
| BpsVerified.AcceptedIsVerified | picoarch/source/patch.c:134-164 | Any patch at all that is accepted names the sizes and the checksums of the input and of the result, and carries its own checksum. |
| BpsVerified.AcceptedExactly | picoarch/source/patch.c:64-167 | A patch that names a source and a target is accepted on an input its actions fit exactly when the input has the size and checksum of that source, and what is built from it those of that target; then that is the result, else `patch` fails. |
| BpsVerified.DamagedIsRefused | picoarch/source/patch.c:161-164 | A patch with up to four consecutive bytes changed, in front of its own checksum or inside it, is accepted on no input and no buffer. |
| BpsVerified.EncodedIsSealed | picoarch/source/patch.c:161-164 | Every encoded patch carries its own checksum, so it is protected in this way. |
| BpsVerified.FourKindsOfActions | picoarch/source/patch.c:105-131 | One list with the four kinds of actions and both cursors moved forth and back, and the bytes it builds. |
| BpsVerified.SmallPatch | picoarch/source/patch.c:78-97 | The bytes of the smallest patch that builds something. |
| BpsVerified.LiteralNumbers | picoarch/source/patch.c:50-62 | Some sizes and offsets in bytes. |
| BpsVerified.UnknownIsRefused | picoarch/source/patch.c:250-257 | Without the literal bytes of either magic, or when too short, a patch fails with no output. |
| BpsWords.OffsetSurvivesExactly | picoarch/source/patch.c:118-119 | An offset is read as spelled exactly when it is smaller than 2^30. |
| BpsWords.HighOffsets | picoarch/source/patch.c:118-119 | What becomes of offset words whose highest bit is set. |
| BpsWords.MoveWraps | picoarch/source/patch.c:122-126 | A cursor moved in front of 0 or past its largest value comes out at the other end. |
| BpsWords.HeaderIsCut | picoarch/source/patch.c:100-103 | Length and kind of an action come from its header cut to `size_t`. |
| BpsWords.HeadIsCut | picoarch/source/patch.c:80-97 | All three sizes are cut to `size_t`, and so is the position behind the metadata; a patch that names other sizes than the caller's is rejected. |
| BpsProperties.StepWritesNext | picoarch/source/patch.c:99-132 | A step changes only the bytes from the old to the new value of `written`. |
| BpsProperties.RunKeepsWritten | picoarch/source/patch.c:99-132 | No later step changes a byte that has been written. |
| BpsProperties.OldByteShows | picoarch/source/patch.c:126-128 | If some target copy starts at or above `written`, changing one old byte of the buffer changes the result. |
| BpsProperties.PrefillIsIgnored | picoarch/source/patch.c:99-137 | The result of a run that fills the buffer is the same for every former contents exactly when each target copy starts below what is written by then. |
| BpsPrefill.SelfCopyReply | picoarch/source/patch.c:126-128 | For every source, a patch with right checksums that starts with a copy from offset 0 is accepted on one buffer and rejected on every other. |
| Ips.PatchIps | picoarch/source/patch.c:169-242 | Return code, size and output of the sizing and the writing call, for every patch on which the C code stays inside its buffers. |
| Ips.DoRound | picoarch/source/patch.c:191-231 | One round on the real buffer: where the cursor goes, what is counted or written, or how the loop ends. |
| Ips.DoRounds | picoarch/source/patch.c:191-231 | The whole loop on the real buffer, with the positions at which its rounds begin. |
| Ips.WriteLiteral | picoarch/source/patch.c:207-210 | The literal loop writes what fits, and its cursor passes over only the bytes written. |
| Ips.WriteRun | picoarch/source/patch.c:218-222 | The run loop repeats the byte as far as the buffer reaches. |
| IpsProperties.LargestEndIsLargest | picoarch/source/patch.c:228-229 | The size computed is a least upper bound of all record ends. |
| IpsProperties.SizingFindsEnd | picoarch/source/patch.c:191-230 | On any list of well-formed records the sizing pass ends at the mark with the maximum of the initial size and every record end. |
| IpsProperties.WritingStep | picoarch/source/patch.c:191-223 | The writing pass after one record; its cursor is behind the whole record exactly when the buffer cuts no literal byte off. |
| IpsProperties.WritingOverlays | picoarch/source/patch.c:191-223 | With no literal cut, the writing pass meets the same records and lays them over the buffer in order. |
| IpsProperties.OverlayByte | picoarch/source/patch.c:207-222 | Each byte of the buffer comes from the last record that covers it, else it is the old byte. |
| IpsTruncated.CutPatchIsRefused | picoarch/source/patch.c:191-241 | An encoded patch cut anywhere before the end of its mark is refused by the first call exactly when the rest does not read as a patch with a trailer. |
| IpsTruncated.OverlongPasses | picoarch/source/patch.c:204-205 | The unsigned length test rejects a record exactly when it does not fit and is no longer than the patch. |
| IpsTruncated.LiteralRecords | picoarch/source/patch.c:192-219 | Both kinds of records and the empty patch in bytes. |
| IpsBoundaries.SizingVisitsRecords | picoarch/source/patch.c:191-230 | The rounds of the sizing pass begin exactly at the records and the end mark. |
| IpsBoundaries.PassesVisitTheSame | picoarch/source/patch.c:191-230 | For every list of records, the rounds of both passes begin at the same positions exactly when the output buffer cuts no literal record. |
| Patch.NewOutput | picoarch/source/patch.c:268-274 | The output starts as the input, cut or extended with zeros. |
| Patch.PatchFile | picoarch/source/patch.c:244-290 | The whole entry point on real buffers: format detection, both calls, and on any failure no output and size 0. |
| Patch.PatchAppliesBps | picoarch/source/patch.c:244-290 | `patch` on the encoding of any valid non-empty action list returns 0 with exactly the target of the list, for every source. |
| Patch.EveryTargetHasBpsPatch | picoarch/source/patch.c:244-290 | For every source and every non-empty target there is a patch that turns one into the other. |
| BpsPrefill.SelfCopyShowsPrefill | picoarch/source/patch.c:274-276 | So `patch` accepts it exactly when the byte it has prefilled is the target's. |
| Patch.PatchAppliesIps | picoarch/source/patch.c:244-290 | Without a trailer: the size is the maximum of the input size, the initial size and every record end, and each byte comes from the last covering record, else the input, else zero; an empty result is a failure. |
| Patch.SizeIsFoundExactly | picoarch/source/patch.c:181-187 | The first call finds that size exactly when the patch does not read as one with a trailer (or the size happens to be what the mark spells). |
| Patch.PatchAppliesIpsWithTrailer | picoarch/source/patch.c:181-187 | With a trailer that cuts no literal record, the trailer decides the size and the records, cut to it, are applied. |
| Patch.CutLiteralBreaksPatch | picoarch/source/patch.c:208-210 | One well-formed patch whose trailer cuts its literal record: it is rejected on every input. |
| Patch.CutLiteralMayPass | picoarch/source/patch.c:208-210 | Another, whose cut goes unnoticed because the bytes not passed over read as the end mark: it is applied. |
| Patch.LiteralMistakenForTrailer | picoarch/source/patch.c:181-187 | A patch whose last record ends in the end mark is taken for one with a trailer, and the size comes out wrong. |
| SndRing.FreeSpace | picoarch/libpicofe/sndout_sdl.c:120 | The masked difference minus two is the true free space exactly when at least two slots are free. |
| SndRing.Append | picoarch/libpicofe/sndout_sdl.c:135-141 | One copy and index update put the samples behind the unread ones. |
| SndRing.Drop | picoarch/libpicofe/sndout_sdl.c:34-42 | One copy and index update take the oldest unread samples. |
| SndRing.Ring.constructor | picoarch/libpicofe/sndout_sdl.c:20-21 | The ring starts empty. |
| SndRing.Ring.WriteNb | picoarch/libpicofe/sndout_sdl.c:118-144 | As an abstract queue: the samples that fit, and no others, are appended, and their number is returned. |
| SndRing.Ring.Take | picoarch/libpicofe/sndout_sdl.c:32-44 | In one piece or two, the oldest samples leave the queue in order. |
| SndRing.Ring.Callback | picoarch/libpicofe/sndout_sdl.c:24-50 | The stream gets what the queue holds, then silence; the queue keeps the rest. |
| SndRing.PlayedSample | picoarch/libpicofe/sndout_sdl.c:30-49 | Sample k of the stream is sample k of the queue, or silence when the queue is shorter. |
| SndInterleaved.NextInv | picoarch/libpicofe/sndout_sdl.c:24-50 | Every sub-step of either side (entry, one sample, publish index 0, publish index) keeps the invariant of the unlocked ring. |
| SndInterleaved.RunInv | picoarch/libpicofe/sndout_sdl.c:118-144 | So does every interleaving of sub-steps of any length. |
| SndInterleaved.PlaysWhatWasAccepted | picoarch/libpicofe/sndout_sdl.c:118-144 | Under every interleaving the samples copied out are a prefix of those accepted, occupancy is at most BUF_LEN-2, and the writer's masked difference is the true free space. |
| SndInterleaved.CallsTakeWhatFits | picoarch/libpicofe/sndout_sdl.c:120-132 | At any point of any interleaving a write accepts exactly what fits, and a callback plays exactly what is there, up to its length. |
| SndInterleaved.EmptyRingTakes | picoarch/libpicofe/sndout_sdl.c:120-132 | An empty ring takes 32766 samples. |
| SndInterleaved.UnreadIsSafe | picoarch/libpicofe/sndout_sdl.c:134-141 | No step of the writer ever overwrites or reorders an unread sample. |
| SndSequential.PendingIsUnread | picoarch/libpicofe/sndout_sdl.c:26 | The unread samples counted by the histories are those between the two indices. |
| SndSequential.WriteAlone | picoarch/libpicofe/sndout_sdl.c:118-144 | A write whose sub-steps nothing interrupts finishes and does to the ring what `Ring.WriteNb` does. |
| SndSequential.CallbackAlone | picoarch/libpicofe/sndout_sdl.c:24-44 | A callback whose sub-steps nothing interrupts finishes and does to the ring what `Ring.Callback` does. |
| AudioModel.TakenIsPrefix | picoarch/source/plat_sdl.c:638-655 | Over every run of locked steps, what the callback took followed by what is queued is exactly what the resampler wrote, and the queue never exceeds its capacity. |
| AudioModel.NearestIsFloor | picoarch/source/plat_sdl.c:74-91 | At fixed rates, with callbacks anywhere in between, output frame n is made at input frame floor((n * in_rate + diff0) / out_rate). |
| AudioModel.DriftIsBounded | picoarch/source/plat_sdl.c:726-736 | With the rate changing at will within limits, in_rate * written stays between lo * consumed and hi * consumed up to a constant that does not depend on the length of the run. |
| AudioModel.RunFromInput | picoarch/source/plat_sdl.c:757-758 | Every frame written is the input frame whose turn it was. |
| AudioModel.CallbackHearsFloor | picoarch/source/plat_sdl.c:646-655 | The n-th frame the callback gets is input frame floor((n * in_rate + diff0) / out_rate). |
| AudioHeard.PassthroughKeepsEveryFrame | picoarch/source/plat_sdl.c:67-72 | Passthrough, with any callbacks: what is written is the input up to what is consumed, and what the callback gets is a prefix of it. |
| AudioHeard.PassthroughQueues | picoarch/source/plat_sdl.c:67-72 | A frame handed over while there is room is queued and consumed. |
| AudioHeard.HeardIsTaken | picoarch/source/plat_sdl.c:646-655 | A callback takes as many of the oldest frames as it asks for and there are, and these are what stands in its stream. |
| AudioRing.FullAt | picoarch/source/plat_sdl.c:744-755 | The writer has to stop exactly when all slots but one are in use, and the callback exactly when none is. |
| AudioRing.FramesIn | picoarch/source/plat_sdl.c:784-787 | The length without doubling is the whole number of frames in size * in_rate / frame_rate. |
| AudioRing.Audio.ResizeBuffer | picoarch/source/plat_sdl.c:780-812 | The buffer has that length, twice that when the rate is adjusted, none without a frame rate; the queue is fresh, empty and one slot less; the error accumulator survives. |
| AudioHeard.LengthDoubles | picoarch/source/plat_sdl.c:784-790 | With rate adjustment the length is twice that without, and that is the floor of the quotient, or 0 without a frame rate. |
| AudioRing.Audio.ResamplePassthrough | picoarch/source/plat_sdl.c:67-72 | The passthrough step of the model: the frame is queued and consumed. |
| AudioRing.Audio.ResampleNearest | picoarch/source/plat_sdl.c:74-91 | The error-accumulator step of the model; a call that consumes nothing queues a frame. |
| AudioRing.Audio.Fetch | picoarch/source/plat_sdl.c:647-654 | The oldest frame leaves the queue, and max_buf_w stays one short of buf_r around the end. |
| AudioRing.Audio.Drain | picoarch/source/plat_sdl.c:646-655 | The loop takes the oldest frames, left sample first, as many as there are or are asked for. |
| AudioRing.AddSilence | picoarch/source/plat_sdl.c:657-660 | From the position given, one half-word of zero per missing frame, and nothing else in the stream changes. |
| AudioRing.Audio.Callback | picoarch/source/plat_sdl.c:638-661 | The callback is the model's step, and its stream, a buffer with old contents, then holds the queued frames, one zero per missing frame, and behind that what it held. |
| AudioRing.StreamHalfWord | picoarch/source/plat_sdl.c:646-660 | Which half-words of the stream are frames, which are zero, and which are as before the callback. |
| AudioRing.StreamIsFilledExactly | picoarch/source/plat_sdl.c:657-660 | Nothing of the stream's old contents is left exactly when a frame is queued for every four bytes and no half-word is left over. |
| AudioRing.EmptyQueueFillsHalf | picoarch/source/plat_sdl.c:657-660 | A callback with nothing queued zeroes the first half of any stream and leaves the second half as it was. |
| AudioRing.Audio.Occupancy | picoarch/source/plat_sdl.c:704-717 | The percentage is that of the queue's length, for either order of the indices, and at most 99. |
| AudioHeard.PercentIsFloor | picoarch/source/plat_sdl.c:716 | The percentage is the floor of 100 times the frames over the length. |
| AudioRing.Audio.WriteBatch | picoarch/source/plat_sdl.c:755-760 | The inner loop is a run of resampler steps in input order; it ends with the batch consumed or the ring full, and input plus free slots strictly falls. |
| AudioRing.Audio.AdjustRate | picoarch/source/plat_sdl.c:726-736 | The rate is raised below 40 percent, lowered above 60 and nominal in between, so it stays within the limits that bound the drift. |
| AudioHeard.RateByFilling | picoarch/source/plat_sdl.c:729-735 | The rate is raised when less than 40 hundredths of the buffer are filled, lowered from 61 hundredths on, else nominal. |
| AudioHeard.AdjustmentRefills | picoarch/source/plat_sdl.c:726-736 | Over any run at that rate, frames written for frames consumed are at least the raised share in the first case and at most the lowered one in the second, up to a constant. |
| AudioRing.Audio.WaitForRoom | picoarch/source/plat_sdl.c:744-753 | At most ten waits, none when frames are not limited; only callbacks happen meanwhile. |
| AudioRing.Audio.WriteFrames | picoarch/source/plat_sdl.c:740-761 | The outer loop, with any callbacks during the waits, is one run of the model that feeds the frames in order. |
| AudioRing.Audio.WriteResample | picoarch/source/plat_sdl.c:720-763 | The whole call: rate from the occupancy, then such a run; unless it gives up on a full ring or still waits, every frame is consumed. |
| Scale.PlainRow | picoarch/source/scale.c:403-413 | The column loop draws dst_w pixels by the sampling formula, for every pair of widths, and ends. |
| Scale.TextRow | picoarch/source/scale.c:486-513 | The column loop of the text scaler, with its two remembered samples, draws the text formula. |
| Scale.ScaleNN | picoarch/source/scale.c:385-427 | Both row-copying scalers draw dst_h rows, each from line floor(y * h / dst_h), copied rows included, for all positive sizes. |
| Scale.RowAboveIsSame | picoarch/source/scale.c:398-402 | The row copied is the row that would be drawn anew. |
| Scale.ScaleScanline | picoarch/source/scale.c:428-463 | The scanline scalers draw the even rows, and never advance more than one line per row, so a picture taller than the target takes as many rows as it has lines. |
| Scale.ScaleNNIsSampling | picoarch/source/scale.c:385-427 | Pixel (x, y) of the rectangle is source pixel (floor(x * w / dst_w), floor(y * h / dst_h)), enlarging or reducing, and every pixel outside the rectangle is as before. |
| ScalePixels.PlainPixel | picoarch/source/scale.c:385-427 | The same at literal positions: screen index offset + y * pitch + x holds the source pixel at (y * h / dst_h) * source pitch + x * w / dst_w. |
| Scale.PaintedPixel | picoarch/source/scale.c:415-426 | The same for either style and either kind of rows: later rows never disturb earlier ones. |
| Scale.TextIsPlainWhenDoubled | picoarch/source/scale.c:489-509 | From double width on the text scaler draws exactly what the plain one draws. |
| Scale.TextIsPlainOrLeft | picoarch/source/scale.c:489-509 | Not reducing, a text pixel is its nearest sample or the left neighbour's, and differs from the nearest only at the first pixel of a run whose left neighbour was drawn once. |
| ScalePixels.SmearsExactly | picoarch/source/scale.c:490-498 | An edge is smeared exactly when the two samples differ and the left one's channels, weighted 218, 732 and 74 in 1024ths and rounded, come to more than 24. |
| ScalePixels.TextPixelExactly | picoarch/source/scale.c:486-509 | A text pixel is the sample on its left exactly when it starts a run, the samples of the last two positions differ, and the last one is so bright; else it is the nearest sample. |
| ScalePixels.WhiteIsSmearedBlackIsNot | picoarch/source/scale.c:489-509 | A white stroke between black is drawn twice, a black one between white is not. |
| ScalePixels.Threshold | picoarch/source/scale.c:495-497 | Greys and single channels just below and above the threshold. |
| Scale.ScanlineIsEvenRows | picoarch/source/scale.c:428-463 | When the picture is not taller than the target, the scanline forms draw the even rows of the same image and leave the odd ones. |
| Scale.ScanlineOfTallPicture | picoarch/source/scale.c:456-460 | When it is taller, every even row up to the height of the picture, inside the target and below it, is drawn from the line of its own number, and every odd row is as before. |
| ScaleScanline.ScanlineStaysInside | picoarch/source/scale.c:428-463 | A scanline scaler leaves everything outside the target alone, whatever the screen held, exactly when the picture is not taller, or one line taller and the target's height odd. |
| ScaleScanline.DrawsPastItsTarget | picoarch/source/scale.c:456-460 | Three lines drawn into a target of two rows: the third line lands below the target. |
| ScaleScanline.ScanlineKeepsShape | picoarch/source/scale.c:428-463 | The even rows inside the target are those of the full scaler, whatever the picture shows, exactly when the picture is at most one line taller or the target has at most two rows. |
| ScalePacked.PairUnpacked | picoarch/source/scaler_neon.c:796-799 | For each factor from 2 to 6, the words stored for two pixels are each pixel that many times. |
| ScalePacked.LastUnpacked | picoarch/source/scaler_neon.c:838-844 | The words stored for the last pixel of an odd row are that pixel repeated. |
| ScalePacked.PackedRow | picoarch/source/scaler_neon.c:795-805 | The inner loop of scale2x_c16 (and of 3x to 6x at their lines), with its odd tail and half word, writes every pixel of the line n times. |
| ScalePacked.ReplicateIsRow | picoarch/source/scaler_neon.c:865-888 | Writing every pixel n times is what the sampling formula draws at n times the width. |
| ScalePacked.ScalePackedC16 | picoarch/source/scaler_neon.c:787-1020 | scale2x_c16 to scale6x_c16 draw what scaleNN draws at n times the size, default pitches and empty pictures included. |
| ScalePacked.Scale1xC16 | picoarch/source/scaler_neon.c:771-777 | The copy in one piece and the copy row by row give the same picture. |
| ScalePacked.PackedFourRows | picoarch/source/scaler_neon.c:897-918 | The four-rows-at-once loop leaves the same pixels at the start of each of four rows. |
| ScalePacked.Scale4xC16b | picoarch/source/scaler_neon.c:890-920 | With a pitch of whole words, scale4x_c16b draws the same picture as scale4x_c16. |
| ScalePacked.EnlargedIsReplicated | picoarch/source/scaler_neon.c:771-1020 | Pixel (x, y) is source pixel (x / n, y / n) for every width, height and non-overlapping pitch; the rest of the screen is unchanged. |
| ScalePacked.PitchesAreTheCallers | picoarch/source/scaler_neon.c:773-776 | On the caller's own pitches: screen index y * dp + x holds source index (y / n) * sp + x / n, where a source pitch of 0 stands for the width and a screen pitch of 0 for n times the width. |
| ScalePacked.WidePitch | picoarch/source/scaler_neon.c:790-791 | Lines four apart, two wide, drawn without gaps at double size. |
| ScalePacked.BufferUpscale | picoarch/source/plat_sdl.c:227-268 | For every factor: factor 1 copies in one piece, factor 0 draws nothing, any other draws each line that many times with the line buffer's old contents behind it. |
| ScalePacked.UpscaledIsReplicated | picoarch/source/plat_sdl.c:244-267 | buffer_upscale puts source pixel (x / n, y / n) at (x, y), and between the rows what its line buffer held. |
| ScalePacked.GapIsKeptExactly | picoarch/source/plat_sdl.c:262-266 | The screen between the rows is as before exactly when it held what the line buffer holds behind its row. |
| ScalePacked.GapShowsLineBuffer | picoarch/source/plat_sdl.c:262-266 | One pixel doubled onto an empty screen three pixels wide: the line buffer's third pixel shows. |
| ComboTranslator.GetPut | picoarch/libpicofe/in_sdl.c:246-267 | Setting or clearing one bit of a word is seen at that bit and at no other. |
| ComboTranslator.PutMarks | picoarch/libpicofe/in_sdl.c:246-257 | Updating a packed word adds or removes exactly one key of the set it stands for. |
| ComboTranslator.Translator.constructor | picoarch/libpicofe/in_sdl.c:286-298 | Nothing is pressed or pushed at first. |
| ComboTranslator.Translator.UpdateKeystate | picoarch/libpicofe/in_sdl.c:246-257 | The packed key set gains or loses the key. |
| ComboTranslator.Translator.GetKeystate | picoarch/libpicofe/in_sdl.c:259-267 | The answer is membership in the packed key set. |
| ComboTranslator.Translator.SwitchKeys | picoarch/libpicofe/in_sdl.c:269-284 | One key is let go and another pressed, in the set and in the events pushed, in this order. |
| ComboTranslator.Translator.TranslateEvent | picoarch/libpicofe/in_sdl.c:286-375 | On packed words and a rewritten event record, one call is the abstract automaton's step. |
| ComboTranslator.Translator.TranslateEvents | picoarch/libpicofe/in_sdl.c:396-399 | The loop over a batch is a run of the automaton. |
| ComboTranslator.Translator.TranslateBatch | picoarch/libpicofe/in_sdl.c:377-400 | A batch works on a copy of the driver's keys, which are not changed; state and pushed events are those of the automaton started from them. |
| ComboTranslator.Translator.HandleEvents | picoarch/libpicofe/in_sdl.c:402-421 | Handling events updates the driver's keys to those that the events leave down. |
| ComboTranslator.Translator.CollectEvents | picoarch/libpicofe/in_sdl.c:493-550 | At most ten events are translated, what they push goes behind the rest, and all are handled; with at most ten events the driver's keys then are the automaton's, so dropping the copy loses nothing. |
| ComboHistory.HandledSetIsKept | picoarch/libpicofe/in_sdl.c:394-421 | A set of keys that handles what is pushed arrives where the translator's own copy arrives. |
| ComboTranslator.MiyooMiniIsWellFormed | picoarch/source/plat_miyoomini.c:90-105 | In the shipped table no key has two roles, so the results below apply to it. |
| ComboKeys.StepInv | picoarch/libpicofe/in_sdl.c:286-375 | Every possible event keeps the invariant that ties state, key set, pushed events and physical keys together. |
| ComboKeys.RunInv | picoarch/libpicofe/in_sdl.c:286-375 | So does every possible run of events. |
| ComboKeys.CombosAreFaithful | picoarch/libpicofe/in_sdl.c:286-375 | In the pushed stream, after every possible run, an output key is down exactly when its input key and the modifier are physically down, an input key exactly when it is down and the modifier is not, and the modifier never. |
| ComboOthers.NeverBothNames | picoarch/libpicofe/in_sdl.c:269-284 | At no point of what is pushed in any possible run is a mapped key down under both its names, which needs the release to come first. |
| ComboOthers.OthersComeThrough | picoarch/libpicofe/in_sdl.c:295-298 | Over any run the events that are not of keys come through, all of them, in order and once. |
| ComboOthers.ModifierOutOfTurn | picoarch/libpicofe/in_sdl.c:322-345 | The modifier pressed while held, or let go while not held, comes through and changes nothing else. |
| ComboTap.HoldDecides | picoarch/libpicofe/in_sdl.c:362-374 | While the modifier is held, the state becomes a combo exactly when a mapped key moves, and no other key comes through. |
| ComboTap.TapComesThrough | picoarch/libpicofe/in_sdl.c:306-361 | The modifier pressed, any other keys moved, the modifier let go: without a mapped key down or moved, exactly its press and release come through, together and at the end; with one, neither does. |
| ComboKeys.UnmappedKeyInStep | picoarch/libpicofe/in_sdl.c:362-374 | A key outside the table is in step with the hardware after its event exactly when the modifier is up or the key was out of step before. |
| ComboKeys.UnmappedKeyAfterRun | picoarch/libpicofe/in_sdl.c:362-374 | After any possible run, such a key is as the hardware has it exactly when an even number of its events came since its last one with the modifier up. |
| ComboKeys.UnmappedKeySticks | picoarch/libpicofe/in_sdl.c:362-374 | For every such key, pressing it, pressing the modifier and letting both go leaves it stuck. |
| CdAddress.LbaToMsf | picoarch/libretro-common/cdrom/cdrom.c:73-83 | The steps on the out-parameters give the address with its minute cut to a byte. |
| CdAddress.ToFrom | picoarch/libretro-common/cdrom/cdrom.c:73-88 | Converting forth and back gives the address exactly when it is below 1,152,000. |
| CdAddress.FromTo | picoarch/libretro-common/cdrom/cdrom.c:73-88 | Converting back and forth gives the triple exactly when seconds and frames are in range. |
| CdAddress.IncrementIsPlusOne | picoarch/libretro-common/cdrom/cdrom.c:90-98 | Incrementing a proper triple adds one to its address, up to the wrap of the minute byte. |
| CdAddress.DiscUnits | picoarch/libretro-common/cdrom/cdrom.c:73-88 | 75 frames to the second, 60 seconds to the minute, in literal addresses. |
| CdRead.Stream.SendUntilAnswered | picoarch/libretro-common/cdrom/cdrom.c:483-568 | Commands for one frame until it succeeds, fails for good or the shared retries are used up. |
| CdRead.Stream.TransferFrame | picoarch/libretro-common/cdrom/cdrom.c:441-568 | One round of the frame loop: cache or drive, copy to the caller, cache update, failure. |
| CdRead.Stream.CdromRead | picoarch/libretro-common/cdrom/cdrom.c:1201-1246 | The whole read, with its two running addresses, equals the read function: return value, commands, caller's buffer and cache, also where the minute byte wraps. |
| CdProperties.CacheStaysHonest | picoarch/libretro-common/cdrom/cdrom.c:503-514 | Whatever fails on the way, a cached frame under an address that a request can have is the disc's frame at that address. |
| CdProperties.CommandsAreBounded | picoarch/libretro-common/cdrom/cdrom.c:542-550 | One call sends at most one command per frame and ten more, even if everything fails. |
| CdProperties.ReadGetsDiscBytes | picoarch/libretro-common/cdrom/cdrom.c:374-575 | If no frame fails, the call returns 0, the buffer holds exactly the bytes from `skip` bytes into the start frame, and nothing behind them changes. |
| CdRetries.TenRefusalsAreSurvived | picoarch/libretro-common/cdrom/cdrom.c:531-565 | Up to ten commands refused with sense keys 0, 2, 3, 4 or 6, wherever they fall: the call returns 0 and the caller has the disc's bytes. |
| CdRetries.OtherErrorsAreFinal | picoarch/libretro-common/cdrom/cdrom.c:535-564 | Any other sense key ends the frame with its first command. |
| CdRetries.AllRefused | picoarch/libretro-common/cdrom/cdrom.c:542-567 | A drive that always refuses gets exactly one command per frame and ten more; the buffer is as before, and the call returns 1. |
| CdRetries.ErrorDropsCache | picoarch/libretro-common/cdrom/cdrom.c:1239-1243 | After a call that returns an error nothing is cached. |
| CdRetries.CacheSavesOneCommand | picoarch/libretro-common/cdrom/cdrom.c:446-458 | With a drive that answers everything, one command per frame is sent, but none for a first frame in the cache; the last frame is cached afterwards unless it came from there. |
| CdRetries.FramesIsCeiling | picoarch/libretro-common/cdrom/cdrom.c:391 | A request takes the bytes asked for and skipped, divided by 2352 and rounded up. |
| CdProperties.ReturnIsLastFrame | picoarch/libretro-common/cdrom/cdrom.c:492 | The call returns 0 exactly when its last frame was obtained, so an error goes unreported exactly when an earlier frame failed and the last did not. |
| CdProperties.FailureCanBeHidden | picoarch/libretro-common/cdrom/cdrom.c:492 | With the first of two frames refused, the call returns 0 with the second frame in the first one's place. |
| Fnmatch.LanguageIsMatches | picoarch/libretro-common/compat/compat_fnmatch.c:33-122 | Cutting the string into one piece per token, all at once, is the same as matching token by token. |
| Fnmatch.ScanSet | picoarch/libretro-common/compat/compat_fnmatch.c:76-94 | The scan ends at the first closing bracket, and finds the character exactly when it is listed before it. |
| Fnmatch.Match | picoarch/libretro-common/compat/compat_fnmatch.c:39-121 | The pattern loop from any position returns 0 exactly when the rest of the pattern matches the rest of the string. |
| Fnmatch.MatchStar | picoarch/libretro-common/compat/compat_fnmatch.c:48-74 | After one star or several, some suffix is tried exactly when one can match. |
| Fnmatch.RlFnmatch | picoarch/libretro-common/compat/compat_fnmatch.c:33-122 | It ends, and returns 0 exactly for the strings of the pattern's language: star, any, set, literal (a subset of section 2.13 of the POSIX Shell Command Language), nothing for a malformed pattern; otherwise 1. |
| FnmatchPatterns.PlainPattern | picoarch/libretro-common/compat/compat_fnmatch.c:111-114 | A pattern of plain characters recognises itself and nothing else. |
| FnmatchPatterns.EscapedPattern | picoarch/libretro-common/compat/compat_fnmatch.c:103-114 | With a backslash in front of every character any string recognises itself and nothing else. |
| FnmatchPatterns.OneCharacter | picoarch/libretro-common/compat/compat_fnmatch.c:99-101 | A question mark recognises the strings of one character. |
| FnmatchPatterns.OneOfSet | picoarch/libretro-common/compat/compat_fnmatch.c:76-97 | Brackets recognise the single characters between them, ranges and negation being plain characters. |
| FnmatchPatterns.EndsWith | picoarch/libretro-common/compat/compat_fnmatch.c:48-74 | A star and plain characters recognise the strings that end so. |
| FnmatchPatterns.BeginsWith | picoarch/libretro-common/compat/compat_fnmatch.c:48-56 | Plain characters and a star recognise the strings that begin so. |
| FnmatchPatterns.MalformedPattern | picoarch/libretro-common/compat/compat_fnmatch.c:80-110 | An open bracket or a backslash at the end, behind plain characters, recognises nothing. |
| ReplaceString.FindIsFirst | src/common/utils.c:29 | The occurrence found is the leftmost. |
| ReplaceString.MoveLeft | src/common/utils.c:38-44 | The shrinking loop moves the tail with its terminator and nothing else. |
| ReplaceString.MoveRight | src/common/utils.c:45-56 | The growing loop, from the end down, moves the tail although source and destination overlap. |
| ReplaceString.ReplaceOnce | src/common/utils.c:35-57 | In all three cases the replacement stands where the pattern stood, with the tail and its terminator behind it and the front untouched. |
| ReplaceString.Replace | src/common/utils.c:27-60 | In place, the string becomes its leftmost non-overlapping replace-all, the count is that of the replacements, and nothing in front of the string changes. |
| ReplaceString.ReplacedLength | src/common/utils.c:32-34 | Each counted replacement changes the length by the same amount, which says how large the buffer must be. |
| ReplaceString.ReplaceCharIsMap | src/common/utils.c:62-63 | For a one-character pattern replace-all maps every character on its own. |
| ReplaceString.ReplacedInPieces | src/common/utils.c:27-60 | The string is pieces joined by the pattern, cut as far to the left as possible; the result is the same pieces joined by the replacement, and the count is that of the joints. |
| ShellQuote.EscapeSingleQuotes | src/common/utils.c:62-65 | In place, every single quote becomes quote, backslash, quote, quote. |
| ShellQuote.ReadMapped | src/common/utils.c:62-65 | Between single quotes the shell undoes the escaping character by character. |
| ShellQuote.BlanksAndQuotes | src/common/api.c:958-960 | The shell on short lines: blanks part words, quotes keep them together. |
| ShellQuote.Backslashes | src/common/api.c:958-960 | A backslash keeps the next character outside quotes and is one itself between them. |
| ShellQuote.NotAListOfWords | src/common/api.c:958-960 | An open quote, a backslash at the end or an operator: not a list of words. |
| ShellQuote.TwoWordsAreRead | src/common/api.c:958-960 | Two escaped paths between quotes are read (sections 2.2.1 and 2.2.2 of the POSIX Shell Command Language) as exactly these two words, whatever characters they hold. |
| ShellQuote.LaunchIsRead | src/common/api.c:974-975 | A quoted pak path with the script behind it is read as one word, the path with the script's name. |
| ShellQuote.QuotesAloneAreNotEnough | src/common/utils.c:62-65 | Quotes without escaping keep a path together exactly when it holds no single quote. |
| ShellQuote.LaunchGame | src/common/api.c:1035-1037 | From two paths in their buffers the command line built is read back as exactly the two paths. |
| ShellQuote.OpenPak | src/common/api.c:966-977 | From a pak path in its buffer the command line built is read back as its launch script. |

## Left out

- Words: `size_t` has W values, where W is 2^32 or 2^64; other integers are unbounded except where a width matters (checksums, `bps_decode`, the `int` offset, the luma sum, address bytes).
- Undefined behaviour: reading or writing outside a buffer is an outcome of its own (`Fault`, `None`, `OutOfBounds`) or excluded by a precondition; what a machine would then do is not modelled.
- Patch.PatchFile: a failing `calloc` is not modelled, and an IPS patch is shorter than 0x7FFF0000 bytes, so that the `int` cursor of its loop does not overflow.
- BpsProperties.BpsDecodesEncoding: header words must fit `size_t` and offsets 2^30, the limits of the C variables.
- SndInterleaved.PlaysWhatWasAccepted: every index store is one atomic step in program order; effects of the memory model, the device, `sndout_sdl_wait` and a negative `len` are left out.
- AudioRing.Audio.WriteResample: SDL's lock and delay become a list of the callbacks that run in each wait; the floating-point rate adjustment is a given integer, and a failing `realloc` and overflow of `buffered * 100` are left out.
- AudioRing.Audio.ResizeBuffer: rounding of `double` and the 32-bit product of buffer size and rate are left out.
- Scale.ScaleNN: pitches are whole pixels, `scale_select_scaler` (floating point) and the blending and assembly scalers are left out.
- ScalePacked.ScalePackedC16: the five functions are one method over a table of their stores; 32-bit-pixel forms, NEON code, alignment and 32-bit size overflow are left out.
- ComboTranslator.Translator.CollectEvents: key words have 64 bits; joysticks, emulator keys and a caller that wants one event only, which leave events in the queue to be translated again, are left out, and so is a table without a modifier.
- ComboKeys.CombosAreFaithful: keys have one role each, the physical keyboard has no output keys, and a key goes down only when up and up only when down.
- CdRead.Stream.CdromRead: only the READ CD path with a buffer; the drive is a function of command number and address, a failed command leaves the transfer buffer alone, `ceil` in `double` is exact, seconds and frames are in range, and `skip` is at most a frame (beyond that the length of the first copy wraps).
- CdProperties.ReadGetsDiscBytes: a request of no bytes is left out, because what an allocation of no bytes returns depends on the platform.
- Fnmatch.RlFnmatch: `flags` is unused in the source and not modelled; ranges and negated sets are plain characters, as in the source.
- ReplaceString.Replace: the empty pattern, on which the source never returns, is excluded; buffers are large enough for the result, and the strings end in a terminator.
- ShellQuote.LaunchGame: looking paths up, saving state and handing the command to the launcher are file handling; the shell is modelled up to words, and any unquoted character that might mean more counts as not understood.
- `content.c`, `unzip.c`, the core loader, base64, options, cheats, recents, menus and all drawing: file handling, user interface or easy members.
