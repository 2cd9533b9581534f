# vpcm: a verified model of the virtual PCM device's core

vpcm is a macOS kernel extension that makes a virtual audio device, a pair of an audio engine and
a character device. What one side of the pair plays, a client reads from `/dev/vpcmN`. What the client writes
to the node, the other side records. A control node, `/dev/vpcmctl`, takes text commands
(`info`, `create`, `delete`, `name`, `describe`) that manage the pairs. This project models the sequential
logic of the driver in Dafny and proves properties of it:

- `floatemu.dfy`, module `FloatEmu`: the integer-only codec on IEEE-754 binary32 bit patterns. It has
  `Scale` (gain in steps of about 3 dB, a factor of 2^(-1/2) each), `Clip` (clamp to ±1.0), `FloatToInt16Copy` (rounded,
  saturating) and `Int16ToFloatCopy` (exact). Samples are 32-bit words, never real numbers.
  Each routine is a loop over an array, proved against a function for one element.
- `ring.dfy`, module `Ring`: cursor arithmetic on the engine's circular byte buffer, as values.
- `engine.dfy`, module `Engine`: the class `AudioEngine`, which bridges the audio side and the device node.
  It owns the ring of bufferFrames · channels · byteWidth bytes, the client's cursor, and the signed counter.
  The counter is -1 before priming, otherwise the unread bytes (playback) or the free space (record).
  Its methods are:
  - the audio side's `clipOutputSamples` and `convertInputSamples`;
  - the client's transfer `devReadWrite`, with its wait loop, its overflow drain and its wrap-around copy;
  - `devIoctl`, `devSelect`, `devOpen` and `devClose`;
  - the counter resets, the end-of-file rule and the buffer timer.
- `properties.dfy`, module `Properties`: the stream configuration. It covers `parseOpt`, `VpcmProperties::parse`
  on the packed argument vector (in place, as the source writes NULs into it) and on words,
  and `VpcmProperties::print`. It proves that printing and parsing again give back the configuration.
- `cstring.dfy`, module `CString`: C strings in a buffer (up to the first NUL), packed argument vectors,
  `%d` printing and `sscanf("%d")`.
- `tokenizer.dfy`, module `Tokenizer`: the control node's `buildArgv`. It splits the command in place with
  quotes and backslash escapes, and it is proved against a function that lexes the command.
- `device.dfy`, module `Device`: the control node. It covers `findEngine`, `executeCommand` and the five commands
  over the list of pairs, and the class `ControlNode` with `devOpen`, `devClose`, `devRead` and `devWrite`.
- `devfs.dfy`, module `Devfs`: `DevfsDeviceNode`, a table of 32 instance slots indexed by minor number.
  It covers lowest-free-slot allocation in `devCreate`, `devDestroy`, `getInstance`, the entry points that route
  a device number to its node, and the permission check `devAccess`.
- `common.dfy`, module `Common`: errno values, state bits, C's truncating division and powers of two.

The model follows the source code. Three details of the source are easy to misread:

- `devCreate`'s declaration in `Source/DevfsDeviceNode.h:24` names its last two parameters `gid, uid`.
  The definition (`Source/DevfsDeviceNode.cpp:54`) and its caller (`Source/VpcmAudioDevice.cpp:109`) use `uid, gid`.
  The model follows the definition.
- A record-side period under input mute still advances the counter by the whole window (`Source/VpcmAudioEngine.cpp:423`).
- `devRead` on the control node discards the rest of the text however little was read (`Source/VpcmAudioDevice.cpp:175-176`).

## Model

| member | source | states |
|---|---|---|
| FloatEmu.Sign | Source/FloatEmu.cpp:9 | the sign bit of a word is 0 or 1 |
| FloatEmu.Exponent | Source/FloatEmu.cpp:6-7 | the exponent field of a word lies in [0, 256) |
| FloatEmu.Mantissa | Source/FloatEmu.cpp:10 | the mantissa field lies below the implicit bit 2^23 |
| FloatEmu.Magnitude | Source/FloatEmu.cpp:63 | the word without its sign bit lies below 2^31 |
| FloatEmu.FieldsOfCompose | Source/FloatEmu.cpp:6-11 | putting sign, exponent and mantissa together and taking them apart again gives back the same three fields |
| FloatEmu.ComposeOfFields | Source/FloatEmu.cpp:6-11 | every 32-bit word is the composition of its own three fields |
| FloatEmu.Compose | Source/FloatEmu.cpp:6-11 | the word with the given sign, exponent and mantissa fields; `FieldsOfCompose` and `ComposeOfFields` prove it inverse to the field accessors |
| FloatEmu.TimesInvSqrt2 | Source/FloatEmu.cpp:32-35 | the odd-step product `(mant * 181 + 128) >> 8` stays between 2^22 and 2^24, differs from 181/256 of the significand by at most half a unit, and never overflows 32 bits |
| FloatEmu.OddMantissa | Source/FloatEmu.cpp:36-41 | the renormalised mantissa of the odd step fits in the 23-bit field |
| FloatEmu.ScaleWord | Source/FloatEmu.cpp:26-49 | one element of `Scale` keeps the sign bit, leaves words with exponent field 0 unchanged, moves the exponent by the total adjustment and keeps the mantissa on an even step or rounds it by 1/√2 on an odd one |
| FloatEmu.ScaleByZero | Source/FloatEmu.cpp:22-44 | with k = 0 every word is unchanged |
| FloatEmu.ScaleEvenIsExact | Source/FloatEmu.cpp:22-49 | an even k keeps the mantissa and moves the exponent field by exactly k/2, an exact scaling by 2^(k/2) |
| FloatEmu.ScaleOddRounds | Source/FloatEmu.cpp:30-43 | an odd k gives a significand that is the rounded product with 181/256, doubled once (and one more exponent step) when bit 23 is lost |
| FloatEmu.ScaleMonotone | Source/FloatEmu.cpp:16-18 | a step one half further down gives a strictly smaller magnitude |
| FloatEmu.ScaleOne | Source/FloatEmu.cpp:26-49 | the loop body on one word, with kHalf and kOdd as the source computes them, equals `ScaleWord` |
| FloatEmu.Scale | Source/FloatEmu.cpp:19-53 | every word of the range becomes its scaled value and no word outside the range changes |
| FloatEmu.ClipWord | Source/FloatEmu.cpp:63-64 | the result's magnitude is at most that of 1.0 and its sign is kept; a word within range is unchanged and any larger one, including infinity and NaN, becomes ±1.0 |
| FloatEmu.ClipIdempotent | Source/FloatEmu.cpp:56-67 | clipping twice equals clipping once |
| FloatEmu.Clip | Source/FloatEmu.cpp:55-67 | every word of the range becomes its clipped value and nothing outside the range changes |
| FloatEmu.Int16Bytes | Source/FloatEmu.cpp:70 | a `short` is stored as two bytes |
| FloatEmu.LoadInt16 | Source/FloatEmu.cpp:107-111 | the `short` read from two little-endian bytes, negative from 0x8000 on; `LoadStoreInt16` proves it inverts `Int16Bytes` |
| FloatEmu.LoadStoreInt16 | Source/FloatEmu.cpp:70-104 | the two bytes stored for a `short` read back as the same `short` |
| FloatEmu.FloatToInt16Word | Source/FloatEmu.cpp:76-96 | exponent field 0 gives 0, exponent field 127 and above saturates to 32767 or -32768 by sign, and the sign of the result follows the sign bit |
| FloatEmu.RoundShift | Source/FloatEmu.cpp:85-89 | shifting right, then by 7, adding one and shifting by one more rounds half up |
| FloatEmu.ShrRounds | Source/FloatEmu.cpp:85-89 | the same rounding stated with the shifts as the source writes them |
| FloatEmu.FloatToInt16Rounds | Source/FloatEmu.cpp:84-93 | below saturation the magnitude is the significand times 2^(e-150) rounded half up, i.e. `abs(x) * 32768` rounded |
| FloatEmu.FloatToInt16Tiny | Source/FloatEmu.cpp:84-89 | inputs below 2^-16 in magnitude give 0 |
| FloatEmu.FloatToInt16WordAsWritten | Source/FloatEmu.cpp:84-85 | the shift as compiled (count taken mod 32) agrees with the intended result whenever the exponent field is above 95 |
| FloatEmu.FloatToInt16ShiftWraps | Source/FloatEmu.cpp:85 | 2^-32 converts to 32767 as written, but to 0 as intended |
| FloatEmu.ExponentByShift | Source/FloatEmu.cpp:76 | `(w >> expShift) & 0xff` is the exponent field |
| FloatEmu.FloatToInt16 | Source/FloatEmu.cpp:76-96 | the loop body on one word equals `FloatToInt16Word` |
| FloatEmu.FloatToInt16Copy | Source/FloatEmu.cpp:69-101 | the k-th pair of output bytes holds the conversion of the k-th input word, and no byte outside the output range changes |
| FloatEmu.Normalize | Source/FloatEmu.cpp:116-120 | the normalising loop ends with the implicit bit set and the exponent not increased |
| FloatEmu.NormalizeValue | Source/FloatEmu.cpp:116-120 | each exponent step doubles the value: the result is the start times 2^(steps) |
| FloatEmu.NormalizeShifts | Source/FloatEmu.cpp:116-120 | the loop takes at most as many steps as needed to reach 2^23 |
| FloatEmu.NormalizeInt16Range | Source/FloatEmu.cpp:114-120 | for a 16-bit magnitude the exponent ends in [112, 127] |
| FloatEmu.NormalizeInt16Value | Source/FloatEmu.cpp:114-120 | the normalised significand is the magnitude times 2^(135 - exponent) |
| FloatEmu.Int16ToFloatExact | Source/FloatEmu.cpp:110-124 | 0 maps to the all-zero word; any other v maps to the sign of v, an exponent field in [112, 127] and a significand representing exactly abs(v)/32768 |
| FloatEmu.Int16ToFloatWord | Source/FloatEmu.cpp:110-124 | the float a short converts to: +0.0 for 0, otherwise its sign, the exponent the normalising loop reaches and the mantissa below the implicit bit; `Int16ToFloatExact` and `Int16RoundTrip` state its value |
| FloatEmu.RoundedMultiple | Source/FloatEmu.cpp:85-89 | rounding a multiple of 2^(n+8) recovers the factor |
| FloatEmu.SignificandFactorBound | Source/FloatEmu.cpp:110-124 | a significand that is a * 2^(n+8) with n at least 1 has a < 0x8000 |
| FloatEmu.FloatToInt16OfMultiple | Source/FloatEmu.cpp:84-93 | a float whose significand is a times the right power of two converts back to exactly ±a |
| FloatEmu.Int16RoundTrip | Source/FloatEmu.cpp:70-128 | for every 16-bit v, converting to float and back gives v, including -32768 and 32767 |
| FloatEmu.Int16ToFloat | Source/FloatEmu.cpp:110-125 | the loop body (with its normalising loop) on one `short` equals `Int16ToFloatWord` |
| FloatEmu.Int16ToFloatCopy | Source/FloatEmu.cpp:103-128 | the k-th output word is the float of the k-th `short` read from its two bytes, and no word outside the output range changes |
| FloatEmu.Int16MemoryRoundTrip | Source/FloatEmu.cpp:70-128 | a 16-bit sample stored as two bytes, read back, converted to float and converted back is the same sample |
| Ring.Index | Source/VpcmAudioEngine.cpp:585-596 | the position some bytes after the cursor lies inside the ring |
| Ring.Advance | Source/VpcmAudioEngine.cpp:590-595 | the cursor after a move stays inside the ring |
| Ring.Distance | Source/VpcmAudioEngine.cpp:585-596 | how far past the cursor a position lies is less than the ring size |
| Ring.AdvanceIsMod | Source/VpcmAudioEngine.cpp:590-595 | moving the cursor, with the wrap to the start at the end, is addition modulo the ring size |
| Ring.IndexDistance | Source/VpcmAudioEngine.cpp:585-596 | the distance from the cursor undoes the position after it, and the other way round |
| Ring.Read | Source/VpcmAudioEngine.cpp:585-596 | the bytes read from the cursor on are as many as asked for |
| Ring.Write | Source/VpcmAudioEngine.cpp:585-596 | writing from the cursor on keeps the ring size |
| Ring.ReadWrite | Source/VpcmAudioEngine.cpp:585-596 | bytes written by the client from a cursor are read back from that cursor |
| Ring.WriteKeepsRest | Source/VpcmAudioEngine.cpp:585-596 | a write leaves the bytes past its end, up to the cursor, as they were |
| Ring.ReadExtend | Source/VpcmAudioEngine.cpp:587-596 | the next contiguous chunk read after the cursor has moved extends the bytes read |
| Ring.WriteExtend | Source/VpcmAudioEngine.cpp:587-596 | the next contiguous chunk written after the cursor has moved extends the bytes written |
| Engine.Zeros | Source/VpcmAudioEngine.cpp:570 | the zero-initialised fill chunk: n bytes, all zero |
| Engine.WaitRules | Source/VpcmAudioEngine.cpp:547-560 | with data the transfer proceeds, whatever the state; otherwise, in this order: EPIPE for a posix pipe without clients, then at EOF 0 for a reader and EPIPE for a writer, then EWOULDBLOCK when non-blocking; the client sleeps exactly when none of EOF, non-blocking and terminating is set and the sleep is not interrupted |
| Engine.WaitOutcome | Source/VpcmAudioEngine.cpp:547-560 | one turn of the wait loop: proceed on data, otherwise the first of the pipe, EOF, non-blocking, terminating and sleep-error tests that applies, or sleep; `WaitRules` states the rules |
| Engine.SleepBits | Source/VpcmAudioEngine.cpp:551-556 | none of the three state bits the wait loop tests is set exactly when each of them is clear |
| Engine.NoBit | Source/VpcmAudioEngine.cpp:551-556 | a state word without any bit of a union has neither part's bits |
| Engine.TransferAccounting | Source/VpcmAudioEngine.cpp:565-600 | the drained bytes plus the ring bytes are min(counter, request); the ring part is at most one ring; it starts only once the whole excess above the ring is drained; without excess nothing is drained |
| Engine.Clamped | Source/VpcmAudioEngine.cpp:562-563 | the counter after the Discard policy drops a backlog beyond one ring; `DiscardKeepsOneRing` states it |
| Engine.Excess | Source/VpcmAudioEngine.cpp:567-583 | the backlog bytes beyond one ring the drain sends before the ring, at most the bytes asked for; `TransferAccounting` states the split |
| Engine.RingBytes | Source/VpcmAudioEngine.cpp:584-600 | the ring bytes a transfer moves once the backlog is drained; `TransferAccounting` bounds them by one ring |
| Engine.DiscardKeepsOneRing | Source/VpcmAudioEngine.cpp:562-563 | under the Discard policy a counter above the ring size is clamped to it, so no synthetic bytes are ever produced |
| Engine.SyntheticContents | Source/VpcmAudioEngine.cpp:568-584 | under Zeros and Noise the counter is not clamped, the excess drained is min(counter - size, request), a reader gets zeros under Zeros and the noise bytes under Noise |
| Engine.Synthetic | Source/VpcmAudioEngine.cpp:570-577 | the synthetic bytes handed to a reader has the length asked for |
| Engine.Drain | Source/VpcmAudioEngine.cpp:568-584 | the drain loop, in chunks of at most 1024 bytes, moves exactly the excess bounded by the request, and a reader receives the synthetic bytes for it |
| Engine.CounterAfterOutput | Source/VpcmAudioEngine.cpp:362-367 | after the playback side adds n bytes the counter is at least n, and exactly n more when it was primed |
| Engine.Invalid | Source/VpcmAudioEngine.cpp:388-395 | the number of leading samples the record side zeroes: all of them when unprimed, none when enough has been written, never more than the window (corrected form, see Findings) |
| Engine.CounterAfterInput | Source/VpcmAudioEngine.cpp:415-423 | after the record side takes bytes the counter grows by them, from a full ring when it was unprimed |
| Engine.RecordCounterBounded | Source/VpcmAudioEngine.cpp:388-423 | an unmuted record period that starts within one ring ends within one ring: with the corrected count it takes only the samples the client has written (a muted period adds its whole window and may pass the ring) |
| Engine.InputOverrun | Source/VpcmAudioEngine.cpp:393-399 | a concrete input on which the count as written exceeds the window (8 of 4 samples), while the corrected count stays at 4 |
| Engine.InvalidOverrunsExactly | Source/VpcmAudioEngine.cpp:388-395 | the count as written exceeds the window exactly when the counter is at least one sample past a full ring, for every window; in every other case the corrected count is the same number |
| Engine.InvalidAsWritten | Source/VpcmAudioEngine.cpp:388-395 | the record side's count of leading samples to zero as written, without the bound by the window; `InputOverrun` and `InvalidOverrunsExactly` show where it departs from `Invalid` |
| Engine.InputCursor | Source/VpcmAudioEngine.cpp:415-421 | when priming, the cursor after the samples taken, moved to the start of the ring when it reaches the end |
| Engine.Int16SamplesScalable | Source/VpcmAudioEngine.cpp:403-411 | a sample decoded from 16-bit PCM can always be scaled by any gain in the controls' range -15..0 |
| Engine.NonBlockingOnlyBit | Source/VpcmAudioEngine.cpp:494-500 | FIONBIO sets the non-blocking bit exactly when its argument is nonzero and changes no other bit |
| Engine.NonBlocking | Source/VpcmAudioEngine.cpp:494-500 | the state word after `FIONBIO`: the non-blocking bit set for a nonzero argument and cleared otherwise; `NonBlockingOnlyBit` states that no other bit moves |
| Engine.SetBit | Source/VpcmAudioEngine.cpp:496 | or-ing in a bit sets it and keeps every other bit |
| Engine.ClearBit | Source/VpcmAudioEngine.cpp:498 | and-ing with its complement clears a bit and keeps every other bit |
| Engine.QueryBounds | Source/VpcmAudioEngine.cpp:501-512 | only FIONREAD, FIONWRITE and FIONSPACE are answered; every answer is in [0, ring size]; read plus write is the ring size when primed; everything is 0 when unprimed; FIONSPACE answers as FIONREAD does |
| Engine.Query | Source/VpcmAudioEngine.cpp:501-512 | the answers of `FIONREAD`, `FIONWRITE` and `FIONSPACE` from the counter, none for another request; `QueryBounds` states their range and sum |
| Engine.SelectMatchesQuery | Source/VpcmAudioEngine.cpp:501-525 | select reports ready exactly when FIONREAD reports bytes, and a playback period always makes it ready |
| Engine.SelectReady | Source/VpcmAudioEngine.cpp:518-525 | `devSelect` is ready when the counter is positive; `SelectMatchesQuery` ties it to `FIONREAD` |
| Engine.OpenRules | Source/VpcmAudioEngine.cpp:441-459 | an open fails only with EACCES or ENOTSUP; success needs a direction the mode allows, only one of read and write, and a state word of 0; a permitted direction succeeds exactly when the state word is 0 |
| Engine.OpenError | Source/VpcmAudioEngine.cpp:441-459 | the error `devOpen` gives for the mode, the open flags and the state word, or 0; `OpenRules` states the rules |
| Engine.WordBytes | Source/VpcmAudioEngine.cpp:358 | a float word is stored as four bytes |
| Engine.LoadStoreWord | Source/VpcmAudioEngine.cpp:358-406 | storing a word as four bytes and loading them gives the word, and the other way round |
| Engine.LoadWord | Source/VpcmAudioEngine.cpp:358-406 | the float word a `memcpy` reads from four little-endian bytes; `LoadStoreWord` proves it inverse to `WordBytes` |
| Engine.StoreOfLoad | Source/VpcmAudioEngine.cpp:406 | the bytes of a loaded word are the bytes loaded |
| Engine.EncodedDecodes | Source/VpcmAudioEngine.cpp:352-408 | a float32 sample written by the playback side is read back as the same word by the record side, an int16 one as a word with the same 16-bit conversion |
| Engine.Fill | Source/VpcmAudioEngine.cpp:343-344 | `bzero`: the range holds the value and nothing else changes |
| Engine.StoreWords | Source/VpcmAudioEngine.cpp:358 | `memcpy` of float words into the ring: each word's four bytes at its place, nothing else changes |
| Engine.LoadWords | Source/VpcmAudioEngine.cpp:406 | `memcpy` of ring bytes into float words: each word is loaded from its four bytes, nothing else changes |
| Engine.NextDeadline | Source/VpcmAudioEngine.cpp:308-309 | the loop ends at the first deadline after `now` that is a whole number of periods after the old one: unchanged when already in the future, otherwise at most one period past `now` |
| Engine.DeadlineLoop | Source/VpcmAudioEngine.cpp:308-309 | the timer loop as written, run for a given number of turns; `None` while it is still looping |
| Engine.DeadlineSpins | Source/VpcmAudioEngine.cpp:308-309 | with a ring duration of 0 and the deadline reached, the loop as written is still looping after any number of turns |
| Engine.DeadlineEnds | Source/VpcmAudioEngine.cpp:308-309 | with a positive duration the loop ends within `now - next + 1` turns at a deadline after `now` |
| Engine.ZeroDurationAccepted | Source/VpcmProperties.cpp:110-134 | the parser accepts two buffer frames at rate 2147483647, and that configuration's ring duration is 0 nanoseconds |
| Engine.BufferDuration | Source/VpcmAudioEngine.cpp:164-168 | the corrected ring duration: the nanoseconds of the buffer at the rate, rounded down, and no engine (creation fails) when that is 0, so a started timer always has a positive period |
| Engine.TimerPeriodPositive | Source/VpcmAudioEngine.cpp:164-168 | an engine whose configuration has a corrected duration runs its timer on exactly that duration, which is positive, so `OnBufferTimer` applies |
| Engine.AudioEngine.constructor | Source/VpcmAudioEngine.cpp:119-172 | a fresh engine has a zeroed ring of bufferFrames * channels * byteWidth bytes, is unprimed, closed, at frame 0, with gain, volume and mutes at 0 |
| Engine.AudioEngine.DevReadWrite | Source/VpcmAudioEngine.cpp:539-603 | an empty request returns 0 and changes nothing; without data the result is the wait loop's outcome and nothing changes; otherwise the Discard clamp, the synthetic bytes and then the ring bytes are transferred, the counter drops by exactly what was moved, the cursor advances by the ring bytes modulo the ring, a read leaves the ring as it was and a write puts the client's bytes at the cursor |
| Engine.AudioEngine.Transfer | Source/VpcmAudioEngine.cpp:562-602 | the part after the wait loop: clamp, drain, ring transfer and the counter accounting, as for `DevReadWrite` |
| Engine.AudioEngine.TransferRing | Source/VpcmAudioEngine.cpp:585-600 | the ring loop moves min(counter, request) bytes, the cursor ends advanced by them modulo the ring; a read gets the ring bytes from the cursor with the ring unchanged, a write stores the client's bytes from the cursor |
| Engine.AudioEngine.RingChunk | Source/VpcmAudioEngine.cpp:587-596 | one `uiomove` of the ring loop moves the cursor on, wrapping exactly at the end, and extends what has been read or written |
| Engine.AudioEngine.WriteChunk | Source/VpcmAudioEngine.cpp:588 | one chunk of a write extends the bytes written at the cursor |
| Engine.AudioEngine.WindowFits | Source/VpcmAudioEngine.cpp:335-342 | the byte window of frames offset to offset + count lies inside the ring |
| Engine.AudioEngine.ClipOutputSamples | Source/VpcmAudioEngine.cpp:332-372 | the mix window is scaled by the volume and clipped unless muted or raw, and nothing else in the mix changes; the ring window holds zeros when muted and otherwise the encoded mix, bytes outside the window are untouched; an unprimed ring gets its cursor at the window start; the counter grows by exactly the window size; the write position becomes (offset + count) mod frames |
| Engine.AudioEngine.StoreWindow | Source/VpcmAudioEngine.cpp:343-361 | the mute or scale, clip and encode step of `ClipOutputSamples` on its own |
| Engine.AudioEngine.EncodeSamples | Source/VpcmAudioEngine.cpp:352-360 | the format switch: the window holds the 16-bit conversion or the verbatim float bytes, nothing else changes |
| Engine.AudioEngine.ConvertInputSamples | Source/VpcmAudioEngine.cpp:374-427 | the destination holds zeros when muted; otherwise the leading samples not yet written by the client are zeros and the rest are decoded from the ring, then scaled by the gain and clipped unless raw; the leading zeros use the corrected invalid count (see Findings), not line 394's; the counter grows by the bytes taken, from a full ring when unprimed, and an unprimed ring gets its cursor after the window, wrapped at the end |
| Engine.AudioEngine.PrimeInput | Source/VpcmAudioEngine.cpp:415-423 | the tail of `convertInputSamples`: priming puts the cursor after the samples taken and the counter at a full ring, then the samples taken are added to the counter |
| Engine.AudioEngine.ConvertWindow | Source/VpcmAudioEngine.cpp:384-414 | the mute branch or `TakeSamples`, with how many samples the source pointer skips and takes |
| Engine.AudioEngine.TakeSamples | Source/VpcmAudioEngine.cpp:388-413 | the unmuted branch: it zeroes exactly the corrected invalid count and converts the rest |
| Engine.AudioEngine.DecodeWindow | Source/VpcmAudioEngine.cpp:396-413 | zeros for the invalid samples, the rest decoded and processed, nothing else in the destination changes |
| Engine.AudioEngine.DecodeSamples | Source/VpcmAudioEngine.cpp:400-408 | the format switch of the record side: each destination word is the ring sample at its place, nothing else changes |
| Engine.AudioEngine.DecodeInt16 | Source/VpcmAudioEngine.cpp:402-404 | the 16-bit case: each destination word is the float of the ring's short at its place, nothing else changes |
| Engine.AudioEngine.DecodeFloat32 | Source/VpcmAudioEngine.cpp:405-407 | the float case: each destination word is the ring's four bytes at its place, nothing else changes |
| Engine.AudioEngine.DevOpen | Source/VpcmAudioEngine.cpp:441-467 | the result is the error the open rules give; on success the state word holds the flags, the ring is unprimed and zeroed; on failure nothing changes |
| Engine.AudioEngine.OnDevOpen | Source/VpcmAudioEngine.cpp:461-467 | the ring is unprimed and zeroed |
| Engine.AudioEngine.DevClose | Source/VpcmAudioEngine.cpp:469-485 | after a close the state word is 0, so the node can be opened again |
| Engine.AudioEngine.OnDevClose | Source/VpcmAudioEngine.cpp:480-485 | the CLOSING bit is cleared and nothing else in the state word changes |
| Engine.AudioEngine.DevIoctl | Source/VpcmAudioEngine.cpp:487-516 | FIONBIO changes only the non-blocking bit and echoes its argument; the queries answer from the counter and leave the state alone; anything else gives ENOTTY and leaves the argument as it was |
| Engine.AudioEngine.StopEngineAtPosition | Source/VpcmAudioEngine.cpp:264-274 | EOF is set exactly when eofOnIdle holds, the node is open and no audio-side client remains |
| Engine.AudioEngine.PerformAudioEngineStart | Source/VpcmAudioEngine.cpp:276-287 | the first deadline is one ring from `now`; the ring is unprimed and the write position is 0 |
| Engine.AudioEngine.StopAudioEngine | Source/VpcmAudioEngine.cpp:296-301 | the ring is unprimed |
| Engine.AudioEngine.ResetClipPosition | Source/VpcmAudioEngine.cpp:320-324 | the ring is unprimed |
| Engine.AudioEngine.OnBufferTimer | Source/VpcmAudioEngine.cpp:303-312 | the new deadline is the old one plus a whole number of ring durations; it lies after `now`, is unchanged when it already did, and otherwise is at most one ring past `now` |
| Engine.AudioEngine.OnControlChanged | Source/VpcmAudioEngine.cpp:78-92 | control 0 sets the gain, 1 the volume, 2 the input mute and 3 the output mute; the others stay |
| Engine.PlaybackSession | Source/VpcmAudioEngine.cpp:332-603 | a stereo float engine of 1024 frames: one period makes 8192 bytes readable, a read of 4096 gets 4096 and leaves 4096, a read of 8192 gets the remaining 4096, and the next read waits |
| Properties.SplitOptSpec | Source/VpcmProperties.cpp:7-23 | a word is an option exactly when it starts with "--"; the option's name holds no '=' and the word is "--" + name, followed by "=" + value when it has a value |
| Properties.SplitOpt | Source/VpcmProperties.cpp:7-23 | `parseOpt` on a word: none for a word without "--", otherwise the name up to the first '=' and the value after it, if any; `SplitOptSpec` states the inverse |
| Properties.SplitOptValue | Source/VpcmProperties.cpp:13-19 | "--name=value" splits at its first '=' into the name and the value |
| Properties.SplitOptFlag | Source/VpcmProperties.cpp:13-21 | "--name" without '=' is a flag without a value |
| Properties.ValidateSpec | Source/VpcmProperties.cpp:110-134 | the checks after the last word pass exactly when the name is set and not empty, rate >= 1, channels >= 1, bufferFrames >= 2 and the frame latency (latencyMs * rate + 1) / 1000 is not negative; any other outcome is EINVAL; on success the width follows the format, the frame latency is set and posix-pipe forces eofOnIdle |
| Properties.Validate | Source/VpcmProperties.cpp:110-134 | the checks after the loop, the sample width and the latency in frames; `ValidateSpec` states them |
| Properties.LatencyFrames | Source/VpcmProperties.cpp:129 | C's truncating `( latencyMs * rate + 1 ) / 1000` |
| Properties.ParseArgs | Source/VpcmProperties.cpp:27-135 | `parse` of the words after the command: defaults, the loop, then the checks; `ParseOutcome` and `ParsePrinted` state the outcome |
| Properties.FoldErrors | Source/VpcmProperties.cpp:42-108 | every word the loop rejects fails with EINVAL |
| Properties.ParseOutcome | Source/VpcmProperties.cpp:27-135 | a parse either gives a configuration with every guarantee of the checks, or fails with EINVAL |
| Properties.FoldAppend | Source/VpcmProperties.cpp:42-109 | the words are applied in order: parsing two runs of words parses the first, then the second from where it stopped, and an error stops it |
| Properties.Defaults | Source/VpcmProperties.cpp:30-134 | a name alone gives playback, 44100 Hz, 2 channels, float32 of 4 bytes, not raw, 16384 buffer frames, latency 0, eofOnIdle, no posix pipe, the Zeros policy |
| Properties.Start | Source/VpcmProperties.cpp:30-41 | the state `parse` starts from: the configuration's defaults and no latency; `Defaults` states what an empty parse keeps of it |
| Properties.StepKeepsName | Source/VpcmProperties.cpp:49-107 | an accepted option never changes the name |
| Properties.ValueKeepsName | Source/VpcmProperties.cpp:49-91 | an accepted "--name=value" never changes the name |
| Properties.FlagKeepsName | Source/VpcmProperties.cpp:92-107 | an accepted flag never changes the name |
| Properties.LastNameWins | Source/VpcmProperties.cpp:45-48 | when the parse succeeds the last word that is not an option names the pair |
| Properties.OptionsKeepName | Source/VpcmProperties.cpp:42-109 | options alone leave the name as it was |
| Properties.BadWordFails | Source/VpcmProperties.cpp:42-109 | one word the loop rejects makes the whole parse fail with EINVAL, whatever follows it |
| Properties.UnknownValueOption | Source/VpcmProperties.cpp:53-90 | "--name=value" with a name outside rate, channels, latency-msec, buffer-frames, format, overflow, raw and eof-on-idle is EINVAL |
| Properties.UnknownFlag | Source/VpcmProperties.cpp:94-107 | "--name" with a name outside playback, record, raw, eof-on-idle, no-eof-on-idle and posix-pipe is EINVAL, so an option that needs a value fails without one |
| Properties.UnknownFormat | Source/VpcmProperties.cpp:61-73 | a format outside s16, s16le, s16ne, float32, float32le and float32ne is EINVAL |
| Properties.UnknownPolicy | Source/VpcmProperties.cpp:74-84 | an overflow policy outside zeros, noise and discard is EINVAL |
| Properties.RenderDefault | Source/VpcmProperties.cpp:140-198 | with the default separator " --" the printout is each option word after a space |
| Properties.Settings | Source/VpcmProperties.cpp:176-192 | the options `print` always writes, in its order, with the latency in milliseconds |
| Properties.Trailer | Source/VpcmProperties.cpp:193-198 | the flags `print` adds: raw, then posix-pipe, or no-eof-on-idle when end of file on idle is off |
| Properties.Items | Source/VpcmProperties.cpp:176-198 | the printed options: `Settings`, then `Trailer` |
| Properties.Print | Source/VpcmProperties.cpp:137-200 | `print`: every option after the separator, " --" when none is given; `RenderDefault` and `ParsePrinted` state what reading it back gives |
| Properties.FoldWords | Source/VpcmProperties.cpp:42-108 | parsing the printed option words applies the printed options one by one |
| Properties.ApplyCons | Source/VpcmProperties.cpp:42-108 | after one accepted option the rest is applied from the new state |
| Properties.ApplyInt | Source/VpcmProperties.cpp:51-60 | an integer printed with %d is read back by %d as the same rate, channels, buffer frames or latency |
| Properties.ApplyNames | Source/VpcmProperties.cpp:61-175 | the printed names of the mode, the format and the policy are read back as the same values |
| Properties.ApplyAppend | Source/VpcmProperties.cpp:42-109 | applying two runs of options applies the first and then the second |
| Properties.ApplyTrailer | Source/VpcmProperties.cpp:98-198 | the trailing flags set raw, then posix-pipe, or clear eofOnIdle through no-eof-on-idle when neither posix-pipe nor eofOnIdle is set |
| Properties.ApplySettingsHead | Source/VpcmProperties.cpp:176-188 | reading back the first four printed options sets the mode, rate, channels and buffer frames to the printed values |
| Properties.ApplySettingsTail | Source/VpcmProperties.cpp:181-191 | reading back the last three printed options sets the millisecond latency, the format and the policy |
| Properties.ApplySettings | Source/VpcmProperties.cpp:176-192 | reading back the options always printed sets each field they name to the printed value |
| Properties.ApplyPrinted | Source/VpcmProperties.cpp:140-198 | reading back the whole printout restores mode, rate, channels, buffer frames, format and policy, the millisecond latency, and the raw, posix-pipe and eof-on-idle flags |
| Properties.OptionNamesPlain | Source/VpcmProperties.cpp:176-198 | none of the printed option names holds '=' |
| Properties.SettingsOptionsPlain | Source/VpcmProperties.cpp:176-192 | none of the names of the options always printed holds '=' |
| Properties.TrailerOptionsPlain | Source/VpcmProperties.cpp:193-198 | none of the names of the trailing flags holds '=' |
| Properties.ItemOptionsPlain | Source/VpcmProperties.cpp:176-198 | no printed option name holds '=' |
| Properties.ParsePrinted | Source/VpcmProperties.cpp:27-198 | parsing a valid configuration's name followed by its printout succeeds and gives the same configuration, except that the frame latency is the one recomputed from the printed milliseconds |
| Properties.LatencyNotIncreased | Source/VpcmProperties.cpp:129-189 | the frame latency read back is between 0 and the one printed, and the same when it converts to whole milliseconds |
| Properties.LatencyMsec | Source/VpcmProperties.cpp:189 | the latency `print` writes: frames times 1000 over the rate, truncated, and 0 for a zero rate; `LatencyNotIncreased` bounds what reading it back gives |
| Properties.ParseOpt | Source/VpcmProperties.cpp:7-23 | `parseOpt` on a word held in the buffer: it is an option exactly when it starts with "--"; the name starts two characters in; the first '=' is overwritten with NUL so the name ends there and the value, if any, starts after it; nothing else in the buffer changes |
| Properties.EndName | Source/VpcmProperties.cpp:15-18 | the '=' after the name becomes NUL; the buffer then holds the name and the value as two terminated strings |
| Properties.OptPrefix | Source/VpcmProperties.cpp:10 | the "--" test reads only inside the word, and holds exactly when the word is an option |
| Properties.OptRest | Source/VpcmProperties.cpp:12 | what follows "--" is held, terminated, right after it |
| Properties.OptFlag | Source/VpcmProperties.cpp:20-21 | without '=' the whole rest of the word is the name |
| Properties.OptValue | Source/VpcmProperties.cpp:15-19 | cutting at the first '=' gives the name before it and the value after it, both terminated in the buffer |
| Properties.FindEquals | Source/VpcmProperties.cpp:13-14 | the scan stops at the first '=' or at the terminating NUL, and at NUL exactly at the end of the word |
| Properties.Parse | Source/VpcmProperties.cpp:27-135 | `parse` of a packed argument vector gives the parse of the words after argv[0]; each buffer character is kept or was an '=' that became NUL |
| Properties.ParseNext | Source/VpcmProperties.cpp:42-109 | one turn of the loop takes the step of the next word and leaves the following words in place |
| Properties.ParseWord | Source/VpcmProperties.cpp:44-108 | one word held in the buffer gives the same step as the word itself |
| Properties.ApplyWord | Source/VpcmProperties.cpp:45-108 | what `parseOpt` found, read from the buffer, gives the same step as the word |
| Properties.StepOption | Source/VpcmProperties.cpp:45-108 | an option word's step applies its name and value |
| Properties.Step | Source/VpcmProperties.cpp:44-108 | one word of `parse`: a non-option word is the name, an option applies its name and value or fails; `StepKeepsName`, `LastNameWins` and `FoldErrors` state its effect |
| Properties.Fold | Source/VpcmProperties.cpp:42-109 | the loop of `parse`: the words in order, stopping at the first error; `FoldAppend` and `BadWordFails` state it |
| CString.StrAt | Source/VpcmAudioDevice.cpp:92-93 | the C string at an index is the run of characters up to the first NUL, and that NUL follows it when the buffer holds one |
| CString.StrAtOfTerminated | Source/VpcmAudioDevice.cpp:92-94 | a string placed with its terminating NUL is read back as that string |
| CString.StrAtTerminate | Source/VpcmAudioDevice.cpp:187-188 | adding a terminating NUL after the buffer does not change the strings in it |
| CString.StrAtWhole | Source/VpcmAudioDevice.cpp:187-188 | a buffer without NUL holds one string, all of it |
| CString.IndexOf | Source/VpcmProperties.cpp:13-14 | the index of the first occurrence of a character, or the length when there is none; none comes before it |
| CString.SkipSpace | Source/VpcmProperties.cpp:52 | the white space %d skips: what is left is empty or starts with a non-space |
| CString.DigitPrefix | Source/VpcmProperties.cpp:52 | the longest run of digits at the start of the string |
| CString.Digit | Source/VpcmProperties.cpp:178-183 | the character printed for a digit is read back as that digit |
| CString.Decimal | Source/VpcmProperties.cpp:178-183 | the %d digits of a natural number: at least one, all digits |
| CString.FormatInt | Source/VpcmProperties.cpp:178-183 | an integer printed with %d is not empty and holds no NUL |
| CString.DecimalValueOfDecimal | Source/VpcmProperties.cpp:52-183 | the value of a number's printed digits is that number |
| CString.DigitPrefixOfDigits | Source/VpcmProperties.cpp:52 | a run of digits alone is read whole |
| CString.ScanDecimal | Source/VpcmProperties.cpp:52 | %d reads back the digits of a natural number as that number |
| CString.ScanFormatInt | Source/VpcmProperties.cpp:52-183 | `sscanf("%d")` reads back what `"%d"` printed, negative numbers included |
| CString.ScanInt | Source/VpcmProperties.cpp:52 | `sscanf( "%d" )` into a preset 0: white space, a sign and the longest digit run, 0 without digits; `ScanFormatInt` proves it inverts `FormatInt` |
| CString.DecimalShort | Source/DevfsDeviceNode.cpp:56-84 | a number below 100 prints in at most two digits |
| CString.FlattenAppend | Source/VpcmAudioDevice.cpp:81-85 | packing one more word appends it and its NUL |
| CString.FlattenSplit | Source/VpcmAudioDevice.cpp:86-95 | a packed vector is its first k words packed, then the rest |
| CString.FlattenAt | Source/VpcmAudioDevice.cpp:89-95 | the k-th packed word is followed by its NUL and the next word, which starts one past its end |
| CString.PackedReads | Source/VpcmAudioDevice.cpp:86-95 | each word of the vector is read back at its offset |
| CString.HoldsRest | Source/VpcmAudioDevice.cpp:86-95 | the tail of a packed vector lies at the offset of its first word |
| CString.HoldsString | Source/VpcmAudioDevice.cpp:92-94 | a terminated string at the head of a region is read back as it |
| CString.HoldsHead | Source/VpcmAudioDevice.cpp:92-94 | the characters of a terminated string at the head of a region, none of them NUL, then its NUL |
| CString.StrAtEnds | Source/VpcmAudioDevice.cpp:187-188 | in a buffer that holds a NUL the string at an index ends at a NUL inside the buffer |
| Tokenizer.LexNulFree | Source/VpcmAudioDevice.cpp:39-85 | the words cut from a command without NUL contain no NUL |
| Tokenizer.Lex | Source/VpcmAudioDevice.cpp:39-85 | the reference split `BuildArgv` is proved against: one character at a time with the open-word, quote and escape state; the `LexAt` lemmas state each case |
| Tokenizer.Tokens | Source/VpcmAudioDevice.cpp:32-98 | the words of a command line, lexed from the start with no word or quote open; `WordsRoundTrip` and `LineRoundTrip` state its inverse |
| Tokenizer.LexPlain | Source/VpcmAudioDevice.cpp:41-78 | characters without special meaning, outside quotes, extend the open word and open one if none is |
| Tokenizer.LexSpaced | Source/VpcmAudioDevice.cpp:39-85 | plain words, each after a space, are split into exactly those words |
| Tokenizer.WordsRoundTrip | Source/VpcmAudioDevice.cpp:31-98 | a plain word followed by space-separated plain words splits into those words |
| Tokenizer.LexSpacedLine | Source/VpcmAudioDevice.cpp:24-52 | a newline after the last word ends that word and adds none |
| Tokenizer.TokensPlainStart | Source/VpcmAudioDevice.cpp:41-42 | a plain word at the start of a line opens the first word |
| Tokenizer.LineRoundTrip | Source/VpcmAudioDevice.cpp:31-98 | a line of plain words separated by spaces and ended by a newline splits into those words |
| Tokenizer.LexSingleQuoted | Source/VpcmAudioDevice.cpp:43-78 | inside single quotes every character but a single quote is copied literally, white space, double quotes and backslashes included |
| Tokenizer.LexDoubleQuoted | Source/VpcmAudioDevice.cpp:43-78 | inside double quotes white space and single quotes are copied literally |
| Tokenizer.SingleQuotedWord | Source/VpcmAudioDevice.cpp:64-85 | a single-quoted string is one word with the quotes removed; '' gives one empty word |
| Tokenizer.DoubleQuotedWord | Source/VpcmAudioDevice.cpp:55-85 | a double-quoted string without backslashes is one word with the quotes removed |
| Tokenizer.EscapedWord | Source/VpcmAudioDevice.cpp:73-78 | a backslash copies the next character literally, even a separator or a quote |
| Tokenizer.TrailingBackslash | Source/VpcmAudioDevice.cpp:74-78 | a backslash at the end of the line is kept as a character |
| Tokenizer.BlankLine | Source/VpcmAudioDevice.cpp:24-52 | separators alone, or nothing, give no word |
| Tokenizer.LexAtWs | Source/VpcmAudioDevice.cpp:43-52 | an unquoted separator ends the open word, if any, and is skipped |
| Tokenizer.LexAtQuote | Source/VpcmAudioDevice.cpp:55-72 | a quote outside the other kind of quotes toggles its mode and is dropped |
| Tokenizer.LexAtEscape | Source/VpcmAudioDevice.cpp:73-78 | a backslash outside single quotes with a character after it copies that character |
| Tokenizer.LexAtCopy | Source/VpcmAudioDevice.cpp:41-78 | any other character is copied to the open word |
| Tokenizer.Put | Source/VpcmAudioDevice.cpp:48-78 | `*q++ = c` extends what the output cursor has written by one character |
| Tokenizer.ScanningReads | Source/VpcmAudioDevice.cpp:39-41 | the read cursor, which never falls behind the write cursor, still sees the command's character |
| Tokenizer.ScanSeparator | Source/VpcmAudioDevice.cpp:43-52 | one pass over an unquoted separator keeps the loop invariant and moves one character on |
| Tokenizer.ScanQuote | Source/VpcmAudioDevice.cpp:55-72 | one pass over a mode-changing quote keeps the loop invariant and moves one character on |
| Tokenizer.ScanEscape | Source/VpcmAudioDevice.cpp:73-78 | one pass over an escape keeps the loop invariant and moves two characters on |
| Tokenizer.ScanCopy | Source/VpcmAudioDevice.cpp:77-78 | one pass over a copied character keeps the loop invariant and moves one character on |
| Tokenizer.BuildArgv | Source/VpcmAudioDevice.cpp:31-98 | `buildArgv` splits the command in place: argc is the number of words, the words are packed from the start of the buffer, each followed by one NUL, argv[k] is the offset of the k-th word, and the buffer past the words keeps its old contents |
| Tokenizer.FinishArgv | Source/VpcmAudioDevice.cpp:81-97 | at the end of the line a word left open is closed, and the vector is built for exactly the words of the line |
| Tokenizer.FillArgv | Source/VpcmAudioDevice.cpp:86-95 | the second pass gives each packed word's start offset |
| Device.Find | Source/VpcmAudioDevice.cpp:342-356 | the index of the first entry whose name or device name is the one asked for, or -1 exactly when no entry has it |
| Device.FindEngine | Source/VpcmAudioDevice.cpp:342-356 | the scan over the list returns the first matching index, or -1 |
| Device.Shown | Source/VpcmAudioDevice.cpp:242-252 | the pairs listed are a sub-list of the list, no longer than it |
| Device.Without | Source/VpcmAudioDevice.cpp:297 | `removeObject`: one entry fewer, the others in order |
| Device.WithoutInit | Source/VpcmAudioDevice.cpp:297 | removing an entry before the last keeps the last at the end |
| Device.RegisteredWithout | Source/VpcmAudioDevice.cpp:297 | removing an entry keeps every remaining configuration valid |
| Device.HiddenPairOmitted | Source/VpcmAudioDevice.cpp:247-250 | a pair the caller may not read is not listed and counts once as hidden |
| Device.ShownOrHidden | Source/VpcmAudioDevice.cpp:240-254 | every pair is either listed or counted as hidden; the superuser is shown all; the hidden-pairs note appears exactly when some pair is unreadable |
| Device.ListingStep | Source/VpcmAudioDevice.cpp:242-252 | one more entry adds its status when readable and one hidden pair otherwise |
| Device.StatusesAppend | Source/VpcmAudioDevice.cpp:358-397 | the status lines of one more pair follow the others' |
| Device.ListEntry | Source/VpcmAudioDevice.cpp:244-251 | one turn of the listing loop keeps the listing and hidden count equal to those of the entries seen |
| Device.Status | Source/VpcmAudioDevice.cpp:358-397 | `printEngineStatus`: the name, direction and node, the client count, the node state and the configuration, or nothing without a stream |
| Device.Info | Source/VpcmAudioDevice.cpp:227-256 | `printInfo`: the banner, the count, the statuses of the readable pairs and the note on hidden ones; `ShownOrHidden` and `PrintInfo` state it |
| Device.PrintInfo | Source/VpcmAudioDevice.cpp:227-256 | the loop writes the banner with the build stamp, "No device pairs." or the count, the status of each readable pair in order, and the hidden-pairs note when some pair was not readable |
| Device.Dispatch | Source/VpcmAudioDevice.cpp:208-225 | no word does nothing and succeeds; an unknown first word is ENOTSUP; a known command other than info without its second word is EINVAL; "info" writes the listing |
| Device.Command | Source/VpcmAudioDevice.cpp:208-225 | `executeCommand` on the words: the first word selects the command, an empty line does nothing, another word is ENOTSUP; `Dispatch` and `FailureChangesNothing` state it |
| Device.FailureChangesNothing | Source/VpcmAudioDevice.cpp:208-340 | a command that fails leaves the list and the output buffer as they were |
| Device.CreateRules | Source/VpcmAudioDevice.cpp:258-278 | a parse failure is EINVAL; a name already found is EEXIST; success exactly when the parse succeeds, the name is free and activation gives a node; then exactly one pair with the parsed configuration is appended, and the name finds it |
| Device.CreateCommand | Source/VpcmAudioDevice.cpp:258-278 | `createEngine` on the words: parse, refuse a taken name or a failed activation, otherwise append; `CreateRules` states it |
| Device.DeleteRules | Source/VpcmAudioDevice.cpp:280-300 | an unknown name is ENOENT; success exactly when the entry is found and the caller may write its node; then exactly that entry is removed and no remaining pair has its name |
| Device.DeleteCommand | Source/VpcmAudioDevice.cpp:280-300 | `deleteEngine` on the words: find, check write access, remove; `DeleteRules` states it |
| Device.LookupNeedsRead | Source/VpcmAudioDevice.cpp:302-340 | name and describe fail alike; they answer exactly when the entry is found and readable, EACCES when it is not readable; name writes "/dev/<node>\n" and describe the name and the printed options |
| Device.NameCommand | Source/VpcmAudioDevice.cpp:302-319 | `nameEngine` on the words: find, check read access, answer the node path; `LookupNeedsRead` states it |
| Device.Description | Source/VpcmAudioDevice.cpp:335-338 | the line `describeEngine` writes: the name, then `print` with the default separator, then a newline |
| Device.DescribeCommand | Source/VpcmAudioDevice.cpp:321-340 | `describeEngine` on the words: find, check read access, answer `Description`; `LookupNeedsRead` and `DescribeThenCreate` state it |
| Device.CommandKeepsRegistry | Source/VpcmAudioDevice.cpp:208-300 | every command keeps each configuration valid and the names distinct |
| Device.CreateKeepsRegistry | Source/VpcmAudioDevice.cpp:258-278 | creating keeps each configuration valid and the names distinct |
| Device.FormatIntPlain | Source/VpcmProperties.cpp:176-192 | printed numbers hold only characters the command splitter copies |
| Device.PlainConcat | Source/VpcmProperties.cpp:176-198 | text made of plain characters stays plain when joined |
| Device.WordsOfPlain | Source/VpcmProperties.cpp:176-198 | options printed with plain text are plain words |
| Device.AssignPlain | Source/VpcmProperties.cpp:176-192 | "name=value" of plain parts is plain |
| Device.KeywordsPlain | Source/VpcmProperties.cpp:143-198 | the option names and keyword values `print` writes are plain |
| Device.SettingNamesPlain | Source/VpcmProperties.cpp:177-183 | the names of the options always printed are plain |
| Device.FlagNamesPlain | Source/VpcmProperties.cpp:147-198 | the mode names and trailing flags are plain |
| Device.ValueNamesPlain | Source/VpcmProperties.cpp:157-173 | the format and policy names are plain |
| Device.SettingsPlain | Source/VpcmProperties.cpp:176-192 | each option always printed is plain text |
| Device.TrailerPlain | Source/VpcmProperties.cpp:193-198 | each trailing flag is plain text |
| Device.WordsPlain | Source/VpcmProperties.cpp:176-198 | every printed option is a word the command splitter keeps whole |
| Device.SpaceAfterCommand | Source/VpcmAudioDevice.cpp:336-338 | "create " before a description is the command word followed by a space and the line |
| Device.CreateLineWords | Source/VpcmAudioDevice.cpp:31-98 | "create " followed by a description splits into the command word, the name and the printed options |
| Device.DescriptionLine | Source/VpcmAudioDevice.cpp:335-338 | the description is the name and the option words, each after a space, then a newline |
| Device.NamedWordsPlain | Source/VpcmProperties.cpp:176-198 | the name and every printed option are words the command splitter keeps whole |
| Device.DescribeThenCreate | Source/VpcmAudioDevice.cpp:258-340 | writing "create " and a pair's description to a list where its name is free appends a pair with the same configuration, except the frame latency, which comes back rounded through milliseconds |
| Device.Word | Source/VpcmAudioDevice.cpp:214-222 | the word at argv[k] is the k-th word, the string `strcmp` compares |
| Device.CreateEngine | Source/VpcmAudioDevice.cpp:258-278 | `createEngine` on the vector gives the outcome the create rules state |
| Device.DeleteEngine | Source/VpcmAudioDevice.cpp:280-300 | `deleteEngine` on the vector gives the outcome the delete rules state |
| Device.NameEngine | Source/VpcmAudioDevice.cpp:302-319 | `nameEngine` on the vector gives the outcome the lookup rules state |
| Device.DescribeEngine | Source/VpcmAudioDevice.cpp:321-340 | `describeEngine` on the vector gives the outcome the lookup rules state |
| Device.ExecuteCommand | Source/VpcmAudioDevice.cpp:208-225 | `executeCommand` on the vector `buildArgv` made gives the outcome of the command its first word selects |
| Device.OpenError | Source/VpcmAudioDevice.cpp:140-145 | EACCES exactly when the node is already open; otherwise ENOTSUP exactly for a non-blocking open; 0 exactly for a blocking open of a closed node |
| Device.Accepted | Source/VpcmAudioDevice.cpp:186-192 | a write takes the first min(length, 2047) bytes of the data |
| Device.Joined | Source/VpcmAudioDevice.cpp:234-252 | the texts of a chain of `snprintf` calls one after the other; `RoomAsWritten` and `EmitAllFits` state what the chain leaves |
| Device.PosAsWritten | Source/VpcmAudioDevice.cpp:234-252 | `pos` after a chain of calls as written: each call adds its whole text's length, whether it fitted or not; `RoomAsWritten` states it |
| Device.SizeT | Source/VpcmAudioDevice.cpp:336-338 | the `int` room `len - pos` converted to the `size_t` that `snprintf` takes, wrapping modulo 2^64 |
| Device.RoomAsWritten | Source/VpcmAudioDevice.cpp:376-394 | `pos` as written is the length of the joined texts; the room for the next call goes negative exactly when they are longer than the 2048-byte buffer, and as a `size_t` it is then larger than the buffer |
| Device.RenderLength | Source/VpcmProperties.cpp:176-198 | every printed option is preceded by its separator, so the printout is at least as long as the separators |
| Device.DescribeOverrunsAsWritten | Source/VpcmAudioDevice.cpp:336-338 | a pair whose name is 2028 to 2040 characters long still fits a 2047-byte `create` line, yet `describe` gives the final `snprintf("\n")` a negative room, which as a `size_t` is larger than the buffer |
| Device.Fit | Source/VpcmAudioDevice.cpp:22 | the text a buffer of `cCommandBufferSize` bytes holds: the first 2047 bytes at most, all of a shorter text |
| Device.Emit | Source/VpcmAudioDevice.cpp:336-338 | one `snprintf` with `pos` kept inside the buffer: the result extends the buffer's text by a prefix of the next text and keeps room for the NUL |
| Device.EmitAll | Source/VpcmAudioDevice.cpp:234-252 | a chain of such calls into an empty buffer never fills the NUL's place, so each call gets a room of at least one byte |
| Device.EmitAllFits | Source/VpcmAudioDevice.cpp:234-252 | the chain with `pos` kept inside the buffer leaves the joined texts cut to 2047 bytes, and agrees with the chain as written whenever that one stays inside the buffer |
| Device.ControlNode.constructor | Source/VpcmAudioDevice.cpp:104-113 | the control node starts closed, with an empty output buffer and no pairs |
| Device.ControlNode.DevOpen | Source/VpcmAudioDevice.cpp:136-157 | the result is the open rule's; on failure nothing changes; on success the flags are stored, and an open not for writing finds the listing, cut to the buffer (`Fit`), in an empty output buffer, while a buffer with text keeps it |
| Device.ControlNode.DevClose | Source/VpcmAudioDevice.cpp:159-165 | the node is closed and the output kept |
| Device.ControlNode.DevRead | Source/VpcmAudioDevice.cpp:167-178 | a read gets at most the bytes asked for of the output text, and the text is then discarded whatever is left |
| Device.ControlNode.DevWrite | Source/VpcmAudioDevice.cpp:180-206 | an empty write does nothing; otherwise at most 2047 bytes are split into words and executed; the result and the new list are the command's, and the output buffer is replaced, by the answer cut to the buffer (`Fit`), only when the command writes one |
| Devfs.Makedev | Source/DevfsDeviceNode.cpp:74 | the device number of a major and a minor gives back that major and that minor |
| Devfs.Access | Source/DevfsDeviceNode.cpp:106-120 | `devAccess` answers 0 or EACCES, and 0 for the superuser |
| Devfs.AccessSplit | Source/DevfsDeviceNode.cpp:117-119 | a request for several permissions is granted exactly when each part of it is |
| Devfs.OrWithin | Source/DevfsDeviceNode.cpp:117 | a union of bits lies within the granted bits exactly when each part does |
| Devfs.OrPartWithin | Source/DevfsDeviceNode.cpp:117 | each part of a union that lies within the granted bits does too |
| Devfs.OwnerPositionsOnly | Source/DevfsDeviceNode.cpp:112-119 | a caller who is not the superuser is refused any bit outside the owner positions (0700) |
| Devfs.AccessMonotone | Source/DevfsDeviceNode.cpp:112-119 | adding bits to the node's mode never takes access away |
| Devfs.Granted | Source/DevfsDeviceNode.cpp:112-116 | the permissions the caller holds, moved to the owner positions: the other bits always, the group bits for a member of the node's group, the owner bits for its owner; `Access`, `AccessSplit` and `OwnerPositionsOnly` state what follows |
| Devfs.ReadAccess | Source/DevfsDeviceNode.cpp:106-120 | reading (0400) is granted exactly to the superuser, or through the others' read bit, the group's read bit for a member of the node's group, or the owner's read bit for the owner |
| Devfs.ExecAccess | Source/DevfsDeviceNode.cpp:106-120 | executing (0100) likewise, through the three execute bits |
| Devfs.WriteAccess | Source/DevfsDeviceNode.cpp:106-120 | writing (0200) likewise, through the three write bits |
| Devfs.SubstFits | Source/DevfsDeviceNode.cpp:77-84 | with a minor below 100 the name is never longer than its pattern, so it fits the buffer of the pattern's length plus 4 and the truncation error cannot occur |
| Devfs.SubstPlain | Source/DevfsDeviceNode.cpp:82 | a pattern without '%' is the name itself |
| Devfs.SubstEngine | Source/DevfsDeviceNode.h:21-23 | "name%d" becomes the name followed by the decimal minor, e.g. "vpcm5" |
| Devfs.Subst | Source/DevfsDeviceNode.cpp:82 | the node name `snprintf` makes from the pattern and the minor, `%d` replaced by the decimal minor; `SubstFits`, `SubstPlain` and `SubstEngine` state its length and shape |
| Devfs.NodeId | Source/DevfsDeviceNode.cpp:57-65 | the owner and the group a new node gets: the requested id, or the caller's when the argument is negative (for the group the corrected form, see Findings) |
| Devfs.NodeGroupDiffers | Source/DevfsDeviceNode.cpp:62-65 | as written, with no group requested the node keeps its previous group instead of the caller's, whenever the two differ |
| Devfs.NodeGroupAsWritten | Source/DevfsDeviceNode.cpp:62-65 | the group the node keeps as written: the requested one, or with a negative argument the group it had before; `NodeGroupDiffers` shows where it departs from `NodeId` |
| Devfs.LowestFree | Source/DevfsDeviceNode.cpp:68-70 | the first free slot, every slot before it taken, or the table size when all are taken |
| Devfs.LowestFreeAt | Source/DevfsDeviceNode.cpp:68-70 | an index with every slot before it taken and itself free (or the end) is the lowest free slot |
| Devfs.FreeSlotAsWritten | Source/DevfsDeviceNode.cpp:68-70 | the slot scan as written, which reads a slot before testing the bound; `None` stands for its read one past the table |
| Devfs.SlotScanAsWritten | Source/DevfsDeviceNode.cpp:68-72 | the scan as written finds the same slot as `LowestFree` whenever one is free, and reads past the table exactly when every slot is taken |
| Devfs.Registry.constructor | Source/DevfsDeviceNode.cpp:11-14 | the table has 32 slots, all free |
| Devfs.Registry.GetInstance | Source/DevfsDeviceNode.cpp:122-130 | a foreign major or a minor past the table gives no node; otherwise the node in the minor's slot |
| Devfs.Registry.Dispatch | Source/DevfsDeviceNode.cpp:132-172 | an entry point forwards to the node registered for the device number and answers ENXIO without one; `CreatedIsFound` and `MissingIsNxio` state both cases |
| Devfs.DefaultHandler | Source/DevfsDeviceNode.cpp:174-196 | nodes that do not override them answer read and write with ENOTSUP, ioctl with ENOTTY and select with 1; open and close have no default |
| Devfs.DeviceNode.constructor | Source/DevfsDeviceNode.cpp:37-44 | a new node has no name, device number 0 and no /dev entry |
| Devfs.DeviceNode.DevAccess | Source/DevfsDeviceNode.cpp:106-120 | the check against the node's own owner, group and mode answers 0 or EACCES, 0 for the superuser |
| Devfs.DeviceNode.DevCreate | Source/DevfsDeviceNode.cpp:53-90 | no pattern is EINVAL and changes nothing; otherwise owner, group and mode are recorded, the group in `NodeId`'s corrected form (see Findings); with every slot taken the answer is ENOMEM and the table stays; otherwise the node takes the lowest free slot, gets the device number of that minor and the pattern's name, and appears in /dev |
| Devfs.DeviceNode.DevDestroy | Source/DevfsDeviceNode.cpp:92-104 | the node leaves /dev and loses its name; its slot is cleared exactly when it has a device number, its minor is in the table and the slot still holds it; no other slot changes |
| Devfs.CreatedIsFound | Source/DevfsDeviceNode.cpp:122-172 | a node registered in its minor's slot is what its device number finds, and every entry point forwards to it |
| Devfs.MissingIsNxio | Source/DevfsDeviceNode.cpp:132-172 | a foreign major, a minor past the table or a free slot answers ENXIO at every entry point |
| Properties.FoldFirst | Source/VpcmProperties.cpp:42-108 | the loop takes the first word's step: an error stops it with that error, otherwise the rest is parsed from the new state |
| Properties.HoldsCut | Source/VpcmProperties.cpp:17 | writing a NUL inside a terminated string held in the buffer leaves two terminated strings, the part before and the part after |
| Common.CDiv | Source/VpcmAudioEngine.cpp:393 | C's `/` by a positive divisor: the quotient of a negative dividend is truncated toward zero, not floored |
| Common.CQuot | Source/VpcmProperties.cpp:189 | C's `/` for a divisor of either sign, agreeing with the positive case |
| Common.Shr | Source/FloatEmu.cpp:85 | `x >> n` on an unsigned value, never larger than `x` |
| Common.ShrIsDiv | Source/FloatEmu.cpp:85 | the shift is division by 2^n, rounded down |

## Left out

- The `terminate` handshake (Source/VpcmAudioEngine.cpp:241-262) is left out. It only races a concurrent close. Its `time > timeout` refusal can never fire after the `time < timeout` loop.
- Locking and sleeping in `Synchronization` are left out. A transfer that would sleep ends with the outcome `Asleep`. The error of an interrupted sleep is the parameter `sleepErr`. Wake-ups and `selwakeup` change no state.
- Concurrency is not modelled. The `__sync_*` updates of the counter and the state word are sequential assignments. The interleaving of the audio side with a client's transfer is not modelled.
- IOKit plumbing is taken to succeed and left out: stream, format and control creation in `initHardware` (including the `sFormats` scan), `IOTimerEventSource`, `takeTimeStamp`, `workLoop->runAction`, `IOBufferMemoryDescriptor`, `cdevsw_add` and `devfs_make_node`.
- `performAudioEngineStop` and `eraseOutputSamples` only call into IOKit, so they are left out. `getIOFlags` and `getCurrentSampleFrame` are functions without a contract (`IoFlags`, `CurrentSampleFrame`).
- `deleteEngine`'s `stopAudioEngine`, `terminate` and `detach` calls are left out. Deleting removes the entry from the list.
- `createEngine`'s engine `init` and `activateAudioEngine` become the parameter `node`. It is None when activation fails, which gives EDEVERR. ENOMEM from a failed `new` is not modelled, and neither is the dead `!pEngine` check after `OSDynamicCast`.
- Devfs.DeviceNode.DevCreate: it requires a name pattern with at most one `%d`, since the driver passes only those. It takes `devfs_make_node` to succeed, so EDEVERR and the ENOMEM of a failed `new` for the name are not modelled. The slot scan tests the bound before it reads a slot. For a negative gid the group is `NodeId`'s corrected form, the caller's group, where the source leaves `mGid` unchanged. Both are findings (see Findings).
- `random()` for the Noise policy is the parameter `noise` of `DevReadWrite`. The model does not refill it per 1024-byte chunk, so which random words appear where is not modelled.
- `uiomove` is taken to succeed and to move the whole chunk. Faults and partial moves are not modelled, so neither is the EDEVERR check on a cursor past the end (Source/VpcmAudioEngine.cpp:592-593).
- The output texts (`Info`, `Status`, `Description`) are unbounded strings. The control node's buffer holds them cut to 2047 bytes (`Fit`). That is the intended form of the `snprintf` chains, which as written can write past the buffer instead of truncating (see Findings).
- 32-bit `int` wrap-around is not modelled; the integers are unbounded. This affects four places:
  - the counter;
  - `latencyMs * rate`;
  - the ring size `bufferFrames * channels * byteWidth` (`Source/VpcmAudioEngine.cpp:170`), which the engine's `Valid` ties to the unbounded product;
  - the value `sscanf("%d")` stores into the `int` `decvalue` (`Source/VpcmProperties.cpp:52`). `ScanInt` gives the whole decimal value, and the checks after parsing have no 32-bit bound. So `create x --rate=4294967296` gives rate 4294967296 in the model. In C a value outside `int` is undefined; keeping the low 32 bits would give 0 and then EINVAL.
- Time stamps from `clock_get_uptime` are the parameter `now` and are taken in the same unit as the ring's duration.
- The build stamp `__DATE__ __TIME__` of `printInfo` is the parameter `built`. The `kauth` credentials are the parameter `cred` (uid, superuser, groups), and the uid and gid of the caller of `devCreate` are parameters too.
- The number of audio-side clients (`numActiveUserClients`, a stream's `numClients`) is a parameter, or a field of a pair's activity.
- FloatEmu.Scale: it requires that every adjusted exponent field of the range stays in [1, 255] (`ScaleDefined`). The source has no underflow guard, and this case is not modelled.
- Engine.AudioEngine.ClipOutputSamples: it requires the same `ScaleDefined` range for the mix window when the output is scaled.
- Engine.AudioEngine.ConvertInputSamples: it requires the same `ScaleDefined` range for the ring samples it scales. Samples decoded from 16-bit PCM always meet it (`Int16SamplesScalable`).
- Engine.AudioEngine.OnBufferTimer: it requires a positive ring duration. The source's loop does not end otherwise, and the parser admits a duration of 0 (see Findings).
- Engine.AudioEngine.OnControlChanged: it requires one of the four control ids and, for the two level controls, a value in their range -15..0. The audio framework guarantees both.
- Device.DescribeThenCreate: it requires the pair's name to be a word the command splitter keeps whole and not an option. The latency comes back rounded through milliseconds (`Properties.LatencyNotIncreased`).
- Properties.ParsePrinted: it requires a name that is not an option word, since `parse` would read such a name as an option.
- Properties.Parse: it requires the packed argument vector `buildArgv` makes, rather than arbitrary pointers.
- `printEngineStatus` is the function `Status`. A pair without a stream prints nothing, and this is a field of the pair's activity.

## Findings

| source | as written | input that shows it | evidently intended | confidence | as-written member | corrected member |
|---|---|---|---|---|---|---|
| Source/VpcmAudioEngine.cpp:393-399 | `invalid = max(0, valueCount - valid)` with `valid = (bytes - avail) / w`, not bounded by `valueCount` | a muted record period pushes the counter past the ring size; then avail 16, 4 samples, ring of 8 bytes, width 2 gives invalid 8, so `bzero` writes past the window and `valueCount` goes negative | `invalid` is at most `valueCount`, so the window is never overrun and the count never goes negative | not executed | Engine.InputOverrun | Engine.Invalid |
| Source/FloatEmu.cpp:85 | `mant >>= expBias - exp` with a shift count of 32 or more when the exponent field is 95 or less (undefined in C; x86-64 and arm64 take the count mod 32) | the word 0x2F800000 (2^-32) converts to 32767 | every magnitude below 2^-16 converts to 0 | not executed | FloatEmu.FloatToInt16ShiftWraps | FloatEmu.FloatToInt16Tiny |
| Source/DevfsDeviceNode.cpp:62-65 | `gid = ::kauth_getgid();` assigns the parameter, not `mGid` | `devCreate` with gid -1 by a caller of group 20 on a node whose group was 0 leaves the group 0 | the node gets the caller's group, as the owner gets the caller's uid | not executed | Devfs.NodeGroupDiffers | Devfs.NodeId |
| Source/DevfsDeviceNode.cpp:69 | `while( sInstances[minor] && minor < sMaxInstances )` reads the slot before testing the bound | create a 33rd node while all 32 slots are taken: the scan reads `sInstances[32]`, one past the table | test `minor < sMaxInstances` first, so a full table gives ENOMEM without reading past it | not executed | Devfs.SlotScanAsWritten | Devfs.DeviceNode.DevCreate |
| Source/VpcmAudioEngine.cpp:308-309 | `while( mNextTime.t <= now.t ) mNextTime.t += mBufferDuration.t;` with a duration of 0 | `create vpcm --rate=2147483647 --buffer-frames=2` passes `parse`; `(2 * 10^9) / 2147483647` is 0, so the loop never ends once the timer first fires | refuse a configuration whose ring lasts less than one time unit, as `initHardware` refuses a rate below 1 | not executed | Engine.DeadlineSpins | Engine.BufferDuration |
| Source/VpcmAudioDevice.cpp:336-338 | every caller of `snprintf` (`printInfo`, `printEngineStatus`, `describeEngine`, `VpcmProperties::print`) adds the call's whole would-be length to `pos` and passes `len - pos` on as the room | `create` a pair with a name of 2028 characters, then `describe` it: the name and the options pass 2048 bytes, and the final `snprintf("\n")` gets a negative room, which as a `size_t` lets it write past `mpOutputBuffer`; about ten pairs in an `info` listing do the same | keep `pos` inside the buffer, so the output is the text cut to 2047 bytes and its NUL | not executed | Device.DescribeOverrunsAsWritten | Device.EmitAllFits |
