# Dolphin audio path: mixer FIFOs, 5.1 surround FIFO, OpenAL output loop

This project models the core of Dolphin's audio output path, in Dafny, and proves properties of the model.

- `mixer.dfy` (module `Mixer`) covers `Mixer::MixerFifo`. Each of the three
  input streams (DSP DMA, disc streaming, Wii Remote speaker) owns one such
  FIFO. It is a power-of-two ring of big-endian 16-bit words, addressed by two
  free-running `u32` indices.
  - `PushSamples` appends stereo frames, unless they would fill the ring, and
    copies across the wrap point.
  - `Mix` resamples the buffered frames with a 16.16 fixed-point step,
    interpolating linearly between neighbouring frames. It applies an 8-bit
    volume, adds the result into the caller's buffer with saturation to ±32767,
    and pads the rest of the request with the last frame read.
  - The `Mixer` class owns the three FIFOs, the `MixDMA`, `MixStreaming` and
    `MixWiiMote` entry points, and `PushWiimoteSpeakerSamples`, which duplicates
    mono speaker samples into stereo frames.
- `surround.dfy` (module `Surround`) covers `AudioCommon::SurroundDecoder`. It
  serves any number of 5.1 output frames from a FIFO of decoded samples. The
  FIFO is topped up one 512-frame decoder block at a time, and each frame is
  reordered from the decoder's channel layout to the backends' layout.
- `openal.dfy` (module `OpenAL`) covers one iteration of
  `OpenALStream::SoundLoop`. Each of its three OpenAL sources has:
  - a sample rate;
  - a number of frames per buffer;
  - a count of queued buffers;
  - the index of the next buffer to fill;
  - a pitch.

  An iteration either feeds source 0 with 5.1 audio or feeds all three sources
  with stereo audio. It backs off when every buffer is queued and none was
  played, reclaims played buffers, converts the samples to the format the
  device takes, queues the buffer and resumes playback after an underrun. A
  5.1 format the device rejects switches the thread to stereo for good. A new
  mixer rate resizes a source and drops its queue.

Modelling choices:

- **Integers.** Integers are unbounded. The source's `u32` index arithmetic and
  its `s16` and 32-bit `long` conversions are written out explicitly
  (`Wrap32`, `ToShort`, `AsInt32`).
- **Ring indexing.** `x & INDEX_MASK` is written `x % cap`, and the model
  proves that this agrees with the wrapped index.
- **External code as inputs.** The emulated time, the configuration, the OpenAL
  device's answers and the samples the mixer and the surround decoder deliver
  are inputs:
  - the resampling ratio;
  - the latency;
  - the number of processed buffers;
  - the play state;
  - the error after `alBufferData`;
  - the rendered frames;
  - the decoder's blocks.

  The rendered frame count is a free input, which covers more cases than the
  source can reach. `Mixer::MixSurround`, `MixDMA`, `MixStreaming` and
  `MixWiiMote` return exactly the request for a non-null buffer (Mixer.cpp
  lines 164, 176, 193, 210 and 236). So the surround branch's `Starved` outcome
  (OpenALStream.cpp lines 330-331) cannot happen in the source. The stereo
  `Starved` outcome happens only when `frames_per_buffer` is 0, or for the Wii
  Remote source without high-level DSP emulation.
- **Rate-change sizing.** After a rate change, the code sizes a source's buffers
  differently from start-up: the latency counts only above 10 ms, there is no
  `OAL_MAX_FRAMES` cap and there is no 240-frame surround floor. The model
  follows the code; it does not apply the start-up rule again
  (`OpenAL.RecomputedFramesPerBuffer`, `OpenAL.RecomputeDiffersFromStartup`).
  The same goes for the start-up computation, which divides the rate by 1000
  before multiplying by the latency.

## Model

| member | source | states |
|---|---|---|
| Mixer.Add32IsWrap | Source/Core/AudioCommon/Mixer.cpp:265 | advancing the write index is addition modulo 2^32 |
| Mixer.Sub32IsWrap | Source/Core/AudioCommon/Mixer.cpp:83 | `indexW - indexR` is subtraction modulo 2^32 |
| Mixer.Quotient | Source/Core/AudioCommon/Mixer.cpp:418 | unsigned division: the quotient `q` has `q*d <= x < (q+1)*d` |
| Mixer.FramesAtRate | Source/Core/AudioCommon/Mixer.cpp:418 | frames converted between rates are the floor of `frames*out/in`, bounded above and below |
| Mixer.PowerOfTwoDivides | Source/Core/AudioCommon/Mixer.cpp:83 | a power of two divides every larger power of two, so the ring size divides 2^32 |
| Mixer.Pow2IsPowerOfTwo | Source/Core/AudioCommon/Mixer.cpp:83 | every `2^k` is a ring size the mask form allows |
| Mixer.RingDividesTwo32 | Source/Core/AudioCommon/Mixer.cpp:83 | a power-of-two ring of at most 2^32 words divides 2^32 |
| Mixer.MaskAbsorbsWrap | Source/Core/AudioCommon/Mixer.cpp:87-88 | masking a `u32`-wrapped index selects the same slot as the unwrapped index |
| Mixer.Slot | Source/Core/AudioCommon/Mixer.cpp:87 | a masked index is a valid slot of the ring |
| Mixer.SlotIsMod | Source/Core/AudioCommon/Mixer.cpp:87 | a masked index is the index modulo the ring size |
| Mixer.ReaderPlusDistance | Source/Core/AudioCommon/Mixer.cpp:83 | reader plus fill distance lands on the writer's slot |
| Mixer.Swap16Involutive | Source/Core/AudioCommon/Mixer.cpp:295-296 | swapping a word's bytes twice gives back the word |
| Mixer.AsShort | Source/Core/AudioCommon/Mixer.cpp:87 | reading a word as `s16` keeps its value modulo 2^16 |
| Mixer.AsWord | Source/Core/AudioCommon/Mixer.cpp:295 | storing a sample as a word and reading it back gives the sample |
| Mixer.ToShort | Source/Core/AudioCommon/Mixer.cpp:113-114 | narrowing to `short` keeps the value modulo 2^16 and keeps every in-range value |
| Mixer.ScaleIsProduct | Source/Core/AudioCommon/Mixer.cpp:89 | the shifted sample is the product by 2^16 |
| Mixer.Interpolate | Source/Core/AudioCommon/Mixer.cpp:89 | the interpolated sample lies between the two neighbours, and is the current one at fraction 0 |
| Mixer.InterpolateBetween | Source/Core/AudioCommon/Mixer.cpp:89 | linear interpolation with a 16-bit fraction stays between its end points |
| Mixer.ApplyVolumeIsProduct | Source/Core/AudioCommon/Mixer.cpp:90 | applying a volume is `x * volume / 256`, rounded down |
| Mixer.EncodeVolume | Source/Core/AudioCommon/Mixer.cpp:409-410 | 0 encodes to 0, 255 to unity 256, and encoding at most doubles |
| Mixer.EncodeVolumeStrictlyIncreasing | Source/Core/AudioCommon/Mixer.cpp:409-410 | a louder setting gives a larger encoded volume |
| Mixer.FullVolumeIsUnity | Source/Core/AudioCommon/Mixer.cpp:409 | full volume passes every sample unchanged |
| Mixer.VolumeNeverAmplifies | Source/Core/AudioCommon/Mixer.cpp:90 | a volume of at most 255 moves a sample towards 0, never away from it |
| Mixer.Clamp | Source/Core/AudioCommon/Mixer.cpp:92 | the result is within ±32767, equals in-range input and saturates out-of-range input |
| Mixer.Step | Source/Core/AudioCommon/Mixer.cpp:101-103 | one resampler step leaves a well-formed cursor (fraction below 1.0, `u32` index) |
| Mixer.StepAdvance | Source/Core/AudioCommon/Mixer.cpp:101-102 | the frames one step advances are below 2^16 (the `u16` cast) |
| Mixer.CursorAfter | Source/Core/AudioCommon/Mixer.cpp:101-103 | k resampler steps leave a well-formed cursor |
| Mixer.ResamplerIsExact | Source/Core/AudioCommon/Mixer.cpp:101-103 | after k steps, frames advanced times 1.0 plus the fraction equals the start fraction plus k times the ratio: no rounding error accumulates |
| Mixer.ResamplerIndex | Source/Core/AudioCommon/Mixer.cpp:102 | after k steps, the read index has moved two words per frame advanced, modulo 2^32 |
| Mixer.ExactStep | Source/Core/AudioCommon/Mixer.cpp:101-103 | one step moves `fraction + ratio` into whole frames and a new fraction |
| Mixer.DistanceAfterAdvance | Source/Core/AudioCommon/Mixer.cpp:83 | moving the reader forward shortens the fill distance by the same amount |
| Mixer.FramesMixed | Source/Core/AudioCommon/Mixer.cpp:83 | the mix loop runs at most the requested number of frames |
| Mixer.FramesMixedStep | Source/Core/AudioCommon/Mixer.cpp:83-104 | while more than one frame is buffered and frames remain to be made, the loop makes one frame and steps |
| Mixer.FramesMixedStopsOnlyWhenDrained | Source/Core/AudioCommon/Mixer.cpp:83 | the loop stops before the request is met only when at most one frame is left |
| Mixer.AddFrames | Source/Core/AudioCommon/Mixer.cpp:91-99 | adding frames into an output buffer keeps its length |
| Mixer.AddFramesKeeps | Source/Core/AudioCommon/Mixer.cpp:91-99 | output samples outside the frames added are unchanged |
| Mixer.AddFramesAt | Source/Core/AudioCommon/Mixer.cpp:91-99 | output frame m is the clamped sum of its old value and the m-th frame, right channel first |
| Mixer.AddFramesAppend | Source/Core/AudioCommon/Mixer.cpp:83-122 | adding two runs of frames one after the other equals adding their concatenation |
| Mixer.Resampled | Source/Core/AudioCommon/Mixer.cpp:83-104 | k resampled frames are produced |
| Mixer.ResampledAt | Source/Core/AudioCommon/Mixer.cpp:83-104 | resampled frame i is interpolated at the cursor reached after i steps |
| Mixer.Repeat | Source/Core/AudioCommon/Mixer.cpp:115-122 | the padding is k copies of one frame |
| Mixer.MixedFrames | Source/Core/AudioCommon/Mixer.cpp:83-122 | a mix produces exactly the requested number of frames |
| Mixer.MixedFramesAt | Source/Core/AudioCommon/Mixer.cpp:83-122 | frames before the loop count are resampled frames and the rest are the volume-scaled last frame |
| Mixer.MixResultMixedFrame | Source/Core/AudioCommon/Mixer.cpp:89-99 | each output frame the loop wrote is the clamped sum of the old output and the interpolated, volume-scaled frame at its cursor |
| Mixer.MixResultPaddedFrame | Source/Core/AudioCommon/Mixer.cpp:109-122 | each padded output frame is the clamped sum of the old output and the volume-scaled last frame read |
| Mixer.MixResultKeeps | Source/Core/AudioCommon/Mixer.cpp:83-122 | output samples beyond the requested frames are untouched |
| Mixer.MixResultClamped | Source/Core/AudioCommon/Mixer.cpp:92 | every sample the mix writes is within ±32767 |
| Mixer.UnitStep | Source/Core/AudioCommon/Mixer.cpp:101-103 | at ratio 1.0 each step advances exactly one frame and keeps the fraction |
| Mixer.UnitRatioKeepsOneFrame | Source/Core/AudioCommon/Mixer.cpp:83 | at ratio 1.0 the loop makes `min(request, buffered frames - 1)` frames, leaving one frame buffered |
| Mixer.StepStaysBehindWriter | Source/Core/AudioCommon/Mixer.cpp:83-103 | with a ratio of at most 2.0, a step never moves the reader past the writer |
| Mixer.MixKeepsReaderBehind | Source/Core/AudioCommon/Mixer.cpp:83-103 | with a ratio of at most 2.0, the mix loop leaves the reader behind the writer by whole frames, however many frames it makes |
| Mixer.FastRatioOvertakesWriter | Source/Core/AudioCommon/Mixer.cpp:83-103 | with ratio 3.0 and two frames buffered, one step moves the reader past the writer, so the masked fill wraps to a large value |
| Mixer.RingContents | Source/Core/AudioCommon/Mixer.cpp:83 | the buffered words number the masked distance from reader to writer |
| Mixer.RingWrite | Source/Core/AudioCommon/Mixer.cpp:254-263 | a wrapping copy keeps the ring's size |
| Mixer.RingWriteAt | Source/Core/AudioCommon/Mixer.cpp:254-263 | word k of the copied data lands at slot `(pos + k) mod cap` |
| Mixer.RingWriteKeeps | Source/Core/AudioCommon/Mixer.cpp:254-263 | slots before the write position, up to a full turn, keep their words |
| Mixer.DistanceAfterWrite | Source/Core/AudioCommon/Mixer.cpp:265 | advancing the writer lengthens the fill distance by the same amount |
| Mixer.RingAppendAt | Source/Core/AudioCommon/Mixer.cpp:248-265 | after a push, each buffered word is the old content or the pushed data at the matching offset |
| Mixer.RingAppend | Source/Core/AudioCommon/Mixer.cpp:248-265 | a push that fits appends exactly the pushed words to the FIFO's contents |
| Mixer.AppendKeepsConsistent | Source/Core/AudioCommon/Mixer.cpp:248-265 | an accepted push keeps the fill below the ring size and whole frames |
| Mixer.RingWriteSplit | Source/Core/AudioCommon/Mixer.cpp:254-263 | the two-part `memcpy` writes the first part at the end of the ring and the rest at its start |
| Mixer.Silenced | Source/Core/AudioCommon/Mixer.cpp:173 | the first `len` samples become 0 and the rest are unchanged |
| Mixer.StereoFromMono | Source/Core/AudioCommon/Mixer.cpp:293-297 | the stereo buffer has two words per mono sample |
| Mixer.StereoFromMonoReadsBack | Source/Core/AudioCommon/Mixer.cpp:293-297 | reading either channel of stereo frame i gives mono sample i |
| Mixer.MixerFifo.PushSamples | Source/Core/AudioCommon/Mixer.cpp:239-266 | rejects a push that would fill the ring, changing nothing; otherwise writes the data at the write slot, advances the writer modulo 2^32 and appends exactly the data to the contents |
| Mixer.MixerFifo.CopyToRing | Source/Core/AudioCommon/Mixer.cpp:254-263 | the copy leaves the ring equal to the wrapping write of the samples |
| Mixer.MixerFifo.Mix | Source/Core/AudioCommon/Mixer.cpp:29-128 | returns the loop's frame count; leaves the cursor that many steps on; the output is the old output plus the mixed and padded frames; with a ratio of at most 2.0 a consistent FIFO stays consistent |
| Mixer.MixerFifo.MixFrames | Source/Core/AudioCommon/Mixer.cpp:83-104 | the resampling loop makes `FramesMixed` frames, ends at the cursor that many steps on, and adds exactly those frames |
| Mixer.MixerFifo.MixPass | Source/Core/AudioCommon/Mixer.cpp:85-103 | one pass of the loop adds the interpolated frame at the cursor and steps it |
| Mixer.MixerFifo.PadFrames | Source/Core/AudioCommon/Mixer.cpp:115-122 | the padding loop adds the last frame into every remaining output frame |
| Mixer.MixerFifo.SetVolume | Source/Core/AudioCommon/Mixer.cpp:407-411 | stores both encoded volumes |
| Mixer.MixerFifo.SetInputSampleRate | Source/Core/AudioCommon/Mixer.cpp:397-400 | stores the rate |
| Mixer.MixerFifo.AvailableSamples | Source/Core/AudioCommon/Mixer.cpp:413-419 | 0 when at most one frame is buffered, otherwise the floor of `(frames - 1) * mixer rate / input rate` |
| Mixer.MixerFifo.MixDeliversAvailableSamples | Source/Core/AudioCommon/Mixer.cpp:413-419 | at equal rates and ratio 1.0, a mix makes exactly `min(request, AvailableSamples())` frames |
| Mixer.MixedIntoSilence | Source/Core/AudioCommon/Mixer.cpp:167-177 | the output of a per-FIFO mix into a cleared buffer keeps the buffer's length |
| Mixer.MixedIntoSilenceAt | Source/Core/AudioCommon/Mixer.cpp:170-176 | each frame a per-FIFO mix writes is the FIFO's own frame, clamped |
| Mixer.MixedIntoSilenceKeeps | Source/Core/AudioCommon/Mixer.cpp:170-176 | samples beyond the request keep their old values |
| Mixer.Mixer.constructor | Source/Core/AudioCommon/Mixer.cpp:17-22 | the mixer starts at the backend rate with three empty FIFOs at their input rates |
| Mixer.Mixer.MixOne | Source/Core/AudioCommon/Mixer.cpp:167-177 | returns 0 and leaves the FIFO alone for a null buffer; otherwise clears the request, mixes one FIFO into it and returns the request size |
| Mixer.Mixer.MixDMA | Source/Core/AudioCommon/Mixer.cpp:167-177 | returns 0 and leaves the DMA FIFO's cursor alone for a null buffer; otherwise returns the request size, moves the cursor on by the frames mixed and leaves the request holding the DMA FIFO's frames mixed into silence |
| Mixer.Mixer.MixStreaming | Source/Core/AudioCommon/Mixer.cpp:184-194 | the same on the streaming FIFO: result, new cursor and output |
| Mixer.Mixer.MixWiiMote | Source/Core/AudioCommon/Mixer.cpp:201-211 | the same on the Wii Remote speaker FIFO: result, new cursor and output |
| Mixer.Mixer.PushWiimoteSpeakerSamples | Source/Core/AudioCommon/Mixer.cpp:284-301 | with fewer than `MAX_SAMPLES` samples, sets the input rate and pushes each sample duplicated into a stereo frame; otherwise changes nothing |
| Mixer.Mixer.StereoBuffer | Source/Core/AudioCommon/Mixer.cpp:293-297 | the duplication loop produces `StereoFromMono` of the samples |
| Surround.RemapFrame | Source/Core/AudioCommon/SurroundDecoder.cpp:61-69 | a remapped frame has six channels |
| Surround.UnmapFrame | Source/Core/AudioCommon/SurroundDecoder.cpp:57-60 | the inverse reordering has six channels |
| Surround.RemapFrameFollowsTable | Source/Core/AudioCommon/SurroundDecoder.cpp:63-68 | channel c of a pushed frame is decoder channel `REMAP[c]` (FL, FR, FC, LFE, BL, BR from FL, FC, FR, BL, BR, LFE) |
| Surround.RemapIsBijection | Source/Core/AudioCommon/SurroundDecoder.cpp:57-68 | the channel map is a permutation of the six channels |
| Surround.RemapFrameRoundTrip | Source/Core/AudioCommon/SurroundDecoder.cpp:61-69 | remapping and unmapping a frame are inverse in both orders: no channel is lost or duplicated |
| Surround.Remapped | Source/Core/AudioCommon/SurroundDecoder.cpp:61-69 | remapping a block keeps its length |
| Surround.RemappedAt | Source/Core/AudioCommon/SurroundDecoder.cpp:61-69 | sample c of frame i of the remapped block is sample `REMAP[c]` of frame i of the block |
| Surround.BlocksFor | Source/Core/AudioCommon/SurroundDecoder.cpp:30-36 | the fewest 512-frame blocks covering the frames |
| Surround.NoRequestsIffQueued | Source/Core/AudioCommon/SurroundDecoder.cpp:26-37 | no block is decoded exactly when the FIFO already holds the requested samples |
| Surround.RequestsSuffice | Source/Core/AudioCommon/SurroundDecoder.cpp:26-37 | the decoded blocks top the FIFO up to at least the requested samples |
| Surround.RequestsMinimal | Source/Core/AudioCommon/SurroundDecoder.cpp:26-37 | one block fewer would not suffice, so fewer than one block's samples are left over |
| Surround.Decoded | Source/Core/AudioCommon/SurroundDecoder.cpp:39-72 | n decoder calls push n blocks of samples |
| Surround.DecodedAt | Source/Core/AudioCommon/SurroundDecoder.cpp:39-72 | sample k of block j pushed is sample k of the j-th decoded block, remapped |
| Surround.SurroundDecoder.constructor | Source/Core/AudioCommon/SurroundDecoder.cpp:12-16 | the decoder starts with an empty FIFO at the given rate |
| Surround.SurroundDecoder.Clear | Source/Core/AudioCommon/SurroundDecoder.cpp:18-22 | empties the FIFO |
| Surround.SurroundDecoder.GetDecodedSamples | Source/Core/AudioCommon/SurroundDecoder.cpp:24-79 | decodes exactly `Requests` blocks; the output is the first `6*numOut` samples of the old FIFO followed by the decoded blocks; the FIFO keeps the rest |
| Surround.SurroundDecoder.DecodeBlocks | Source/Core/AudioCommon/SurroundDecoder.cpp:39-72 | appends the remapped blocks in the order decoded |
| Surround.SurroundDecoder.PopInto | Source/Core/AudioCommon/SurroundDecoder.cpp:74-78 | moves the oldest `count` samples to the output in order and removes them |
| Surround.SurroundDecoder.RequestCount | Source/Core/AudioCommon/SurroundDecoder.cpp:26-37 | the counting loop computes `Requests` |
| Surround.SurroundDecoder.PushRemapped | Source/Core/AudioCommon/SurroundDecoder.cpp:61-69 | appends the remapped block to the FIFO |
| OpenAL.LatencyFrames | Source/Core/AudioCommon/OpenALStream.cpp:234 | `frequency/1000*latency/OAL_BUFFERS` in `u32`: the floor of the quotient when the product does not wrap |
| OpenAL.InitialFramesPerBuffer | Source/Core/AudioCommon/OpenALStream.cpp:229-252 | the latency's frames (1 ms when not positive), capped at `OAL_MAX_FRAMES`, then raised to 240 for sources 0 and 1 in surround mode: each of the three cases is stated as an exact value |
| OpenAL.RecomputedFramesPerBuffer | Source/Core/AudioCommon/OpenALStream.cpp:441-451 | after a rate change, a latency above 10 ms gives exactly its frames, with no cap and no floor; a latency of at most 10 ms gives 1 ms of frames |
| OpenAL.RecomputeDiffersFromStartup | Source/Core/AudioCommon/OpenALStream.cpp:443-451 | at 48 kHz, 10 ms and one buffer, start-up gives 480 frames and a rate change 48; a 4096 cap binds only at start-up |
| OpenAL.PitchAfter | Source/Core/AudioCommon/OpenALStream.cpp:298-305 | pitch 1.0 when stretching; else the speed when above 10%; else unchanged |
| OpenAL.PitchStaysAboveFloor | Source/Core/AudioCommon/OpenALStream.cpp:466-476 | a pitch above 10% stays above 10% and is 1.0, the speed or the old pitch |
| OpenAL.Truncate | Source/Core/AudioCommon/OpenALStream.cpp:362 | conversion to integer rounds toward zero |
| OpenAL.TruncateMonotone | Source/Core/AudioCommon/OpenALStream.cpp:362 | rounding toward zero keeps order |
| OpenAL.SaturateInt32 | Source/Core/AudioCommon/OpenALStream.cpp:356-362 | the converted sample is an `int`; above or below the range it saturates; inside it is truncated |
| OpenAL.SaturateShort | Source/Core/AudioCommon/OpenALStream.cpp:374-380 | the converted sample is a `short`; above or below the range it saturates; inside it is truncated |
| OpenAL.SaturateMonotone | Source/Core/AudioCommon/OpenALStream.cpp:351-381 | both conversions keep the order of samples |
| OpenAL.SaturateInt32AsWritten | Source/Core/AudioCommon/OpenALStream.cpp:356-362 | the guard as compiled, against `INT_MAX` converted to 2^31, lets a result of `INT_MAX + 1` through |
| OpenAL.FullScaleSampleOverflows | Source/Core/AudioCommon/OpenALStream.cpp:356-362 | a full-scale sample 1.0 gives 2^31 as written, one above `INT_MAX`, where saturation gives `INT_MAX` |
| OpenAL.AsWrittenDiffersOnlyAtFullScale | Source/Core/AudioCommon/OpenALStream.cpp:356-362 | the guard as written and the saturating conversion agree exactly when the scaled sample is not 2^31 |
| OpenAL.Int32Samples | Source/Core/AudioCommon/OpenALStream.cpp:351-363 | every 32-bit sample is the saturated conversion of the scaled float sample and lies in `int` range |
| OpenAL.ShortSamples | Source/Core/AudioCommon/OpenALStream.cpp:372-381 | every 16-bit sample is the saturated conversion of the scaled float sample and lies in `short` range |
| OpenAL.AsInt32 | Source/Core/AudioCommon/OpenALStream.cpp:526 | a 32-bit `long` keeps the value modulo 2^32 in signed range |
| OpenAL.WiimoteScaled | Source/Core/AudioCommon/OpenALStream.cpp:522-527 | each widened Wii Remote sample is the 32-bit product of the sample and `LONG_MAX / SHRT_MAX` |
| OpenAL.WiimoteScaleExact | Source/Core/AudioCommon/OpenALStream.cpp:523-526 | the ratio is 65538; the product is exact from -32767 up and wraps by 2^32 for -32768, a case the clamped mixer output never produces |
| OpenAL.WiimoteScaledExact | Source/Core/AudioCommon/OpenALStream.cpp:522-527 | for mixer output (within ±32767) every widened sample is exactly `65538 * sample` |
| OpenAL.WithoutLfe | Source/Core/AudioCommon/OpenALStream.cpp:337-340 | zeroing the sub-woofer keeps the buffer's length |
| OpenAL.WithoutLfeAt | Source/Core/AudioCommon/OpenALStream.cpp:337-340 | channel 3 of each rendered frame becomes 0 and every other sample is unchanged |
| OpenAL.WithoutLfeIdempotent | Source/Core/AudioCommon/OpenALStream.cpp:337-340 | zeroing the sub-woofer twice is zeroing it once |
| OpenAL.SurroundPayload | Source/Core/AudioCommon/OpenALStream.cpp:342-385 | float32 if the device takes it, else 32-bit fixed on an X-Fi, else 16-bit, with one sample per decoded sample |
| OpenAL.SurroundPayloadAt | Source/Core/AudioCommon/OpenALStream.cpp:337-385 | in every format, each sample is the decoder's sample (0 for the sub-woofer), saturated to the format |
| OpenAL.StereoPayload | Source/Core/AudioCommon/OpenALStream.cpp:519-538 | the Wii Remote on an X-Fi gets widened 32-bit samples; every other source gets the mixed 16-bit samples |
| OpenAL.SurroundStep | Source/Core/AudioCommon/OpenALStream.cpp:293-409 | a surround turn keeps the rate and buffer size and sets the pitch by `PitchAfter` |
| OpenAL.StereoStep | Source/Core/AudioCommon/OpenALStream.cpp:412-553 | a stereo turn resets exactly when the mixer rate changed; otherwise it keeps the rate and buffer size and sets the pitch |
| OpenAL.SurroundStepKeepsSourceOk | Source/Core/AudioCommon/OpenALStream.cpp:293-409 | a surround turn keeps at most `OAL_BUFFERS` queued, a valid next buffer and a pitch above 10% |
| OpenAL.StereoStepKeepsSourceOk | Source/Core/AudioCommon/OpenALStream.cpp:412-553 | a stereo turn keeps the same invariant |
| OpenAL.SurroundBackOff | Source/Core/AudioCommon/OpenALStream.cpp:307-314 | with every buffer queued and none played, the turn changes nothing but the pitch |
| OpenAL.StereoBackOff | Source/Core/AudioCommon/OpenALStream.cpp:478-485 | the same for a stereo turn |
| OpenAL.SurroundSubmit | Source/Core/AudioCommon/OpenALStream.cpp:316-408 | submits iff not backing off and enough frames were rendered, and is starved iff too few were; a submitted buffer is the next one with the converted payload, and queued becomes `queued - processed + 1` with the next buffer advanced modulo `OAL_BUFFERS` |
| OpenAL.StereoSubmit | Source/Core/AudioCommon/OpenALStream.cpp:478-552 | backs off iff all are queued and none played; submits iff frames were rendered (none for the Wii Remote without HLE); same bookkeeping |
| OpenAL.RateChangeResets | Source/Core/AudioCommon/OpenALStream.cpp:441-464 | a new mixer rate stores the rate, recomputes the buffer size, empties the queue and restarts at buffer 0 |
| OpenAL.SurroundEndsOnlyOnRejectedFormat | Source/Core/AudioCommon/OpenALStream.cpp:387-394 | surround mode ends exactly when a buffer was submitted and the device rejected the 5.1 format |
| OpenAL.SoundLoop.constructor | Source/Core/AudioCommon/OpenALStream.cpp:211-288 | each source starts at its mixer rate with the start-up buffer size, nothing queued, next buffer 0 and pitch 1.0; surround only if configured and supported |
| OpenAL.SoundLoop.ZeroLfe | Source/Core/AudioCommon/OpenALStream.cpp:337-340 | the loop leaves the buffer equal to `WithoutLfe` of it |
| OpenAL.SoundLoop.ConvertFixed32 | Source/Core/AudioCommon/OpenALStream.cpp:351-363 | the loop scales the float buffer in place and produces `Int32Samples` |
| OpenAL.SoundLoop.ConvertShort | Source/Core/AudioCommon/OpenALStream.cpp:372-381 | the loop scales the float buffer in place and produces `ShortSamples` |
| OpenAL.SoundLoop.Widen | Source/Core/AudioCommon/OpenALStream.cpp:522-527 | the loop produces `WiimoteScaled` |
| OpenAL.SoundLoop.SurroundBuffer | Source/Core/AudioCommon/OpenALStream.cpp:337-385 | the buffer handed to the device is `SurroundPayload` |
| OpenAL.SoundLoop.SurroundTick | Source/Core/AudioCommon/OpenALStream.cpp:293-409 | source 0 and the surround flag become what `SurroundStep` says; sources 1 and 2 are unchanged |
| OpenAL.SoundLoop.QueueSurround | Source/Core/AudioCommon/OpenALStream.cpp:387-408 | queues the next buffer with the surround payload and drops surround mode on a rejected format |
| OpenAL.SoundLoop.StereoTick | Source/Core/AudioCommon/OpenALStream.cpp:414-552 | source n becomes what `StereoStep` says; the other sources are unchanged |
| OpenAL.SoundLoop.QueueStereo | Source/Core/AudioCommon/OpenALStream.cpp:540-552 | queues the next buffer of source n with its stereo payload |
| OpenAL.SoundLoop.StereoPass | Source/Core/AudioCommon/OpenALStream.cpp:412-553 | each of the three sources becomes what its `StereoStep` says, in order |
| OpenAL.SoundLoop.Iteration | Source/Core/AudioCommon/OpenALStream.cpp:290-555 | in surround mode, source 0 becomes what `SurroundStep` says and the others are unchanged; in stereo mode, each source becomes what its `StereoStep` says; surround mode is never re-entered and is left only on a rejected 5.1 buffer |

## Left out

- The resampling ratio (Mixer.cpp 48-77) is an input of `Mixer.MixerFifo.Mix`. Computing it needs `float` arithmetic, the frame-limit feedback of the emulated speed and the configuration.
- `Mixer::Mix`, `Mixer::MixSurround`, Dolby Pro Logic II decoding, FreeSurround and the SoundTouch time stretcher are not modelled. Their output enters the model as inputs: the decoder's blocks, the rendered 5.1 samples and the mixed stereo samples.
- `Mixer.Interpolate`: the interpolation is exact integer arithmetic. It does not model the `int` overflow the C++ expression could reach with a 65536-wide fraction.
- `Mixer.Mixer.MixOne`: `num_samples * 2 * sizeof(short)` in the `memset` is not wrapped to 32 bits. The request must fit the buffer.
- `Mixer.MixerFifo.PushSamples`: `num_samples * 2` in the free-space test is not wrapped to 32 bits. A push of 2^31 or more frames would wrap in the source and could pass the test.
- `Mixer.MixerFifo.Mix`: `numSamples * 2` in the loop bound is not wrapped to 32 bits. The model bounds the request only by the output buffer's length.
- `Mixer.MixerFifo.AvailableSamples`: `(samples_in_fifo - 1) * m_sampleRate` is not wrapped to 32 bits. With a large ring and a high rate the source's product could wrap, and the model gives the exact quotient.
- `Mixer.MixerFifo.AvailableSamples`: requires a non-zero input rate. The source divides by `m_input_sample_rate` without a guard, which is undefined behaviour at 0, so the model leaves that case out.
- `Surround.SurroundDecoder.GetDecodedSamples`: `num_out * SURROUND_CHANNELS` is not wrapped to 32 bits. The model bounds the request only by the output buffer's length.
- `Surround.SurroundDecoder.GetDecodedSamples`: the fixed capacity of `FixedSizeQueue` is a precondition (the FIFO never overflows), not a modelled overflow.
- `Surround.SurroundDecoder.DecodeBlocks`: states the contents of the FIFO, not a multiset permutation of each block, which follows from `Surround.RemapFrameRoundTrip`.
- Floating point is modelled as `real`. The sample conversions truncate toward zero as `static_cast<int>` does, but single-precision rounding of the scaled samples is not modelled.
- `OpenAL.SaturateInt32AsWritten`: `static_cast<int>` of 2^31 is undefined behaviour in C++. The model returns 2^31 there, which is outside `int`.
- `OpenAL.WiimoteScaleExact`: for the sample -32768, `short * long` overflows a 32-bit `long`, which is undefined behaviour in C++. The model wraps it modulo 2^32 instead. The case cannot arise, because the mixer clamps its output to ±32767 (`Mixer.MixResultClamped`).
- `Mixer.MixerFifo.SetVolume`: the `u32` sum `lvolume + (lvolume >> 7)`, its reinterpretation as `s32` when `Mix` loads it, and the `int` product `sample * volume` in `Mix` are not wrapped to 32 bits. A volume of 2^31 or more would be negative in the source, and any encoded volume above 65536 would overflow the product. The model stores and applies the exact value. The callers pass 8-bit volumes (Mixer.cpp lines 313-320), which stay far inside every bound.
- `OAL_MAX_FRAMES`: the fixed size of the local `std::array`s (`dpl2`, `surround_int32`, `wiimote_audio_data`) is not modelled. The 240-frame floor or the uncapped rate-change size can exceed it.
- `OpenAL.SoundLoop.SurroundTick` and `OpenAL.SoundLoop.StereoTick`: these require the device to report no more processed buffers than are queued. The `size_t` subtraction would otherwise wrap.
- The OpenAL device is not modelled: buffer and source handles, gain, X-RAM set-up, error logging, the sleep and the thread flag. Its answers (processed count, play state, `AL_INVALID_ENUM`) are inputs.
- `GetCurrentSpeed`, the latency, `m_audio_stretch`, `bDSPHLE` and the extension queries are inputs or constants of the model.
- `Mixer::PushSamples`, `Mixer::PushStreamingSamples`, the wave-file logging and the sample-rate getters and setters that only forward to a FIFO are not modelled.
- Atomics and the concurrency between the emulation thread and the audio thread are not modelled. Every operation is atomic in the model.
- `Mixer.h`, `SurroundDecoder.h` and `OpenALStream.h` are not part of this model. The FIFO constructor takes `MAX_SAMPLES` and the rates as parameters and starts at unity volume (256).

## Findings

| source | as written | input that shows it | evidently intended | confidence | as-written member | corrected member |
|---|---|---|---|---|---|---|
| Source/Core/AudioCommon/OpenALStream.cpp:356-362 | the 32-bit fixed-point 5.1 conversion compares the scaled `float` sample with `INT_MAX`, which converts to 2^31, so 2^31 passes the guard and `static_cast<int>` overflows | a decoded sample of exactly 1.0 (scaled to 2^31) | saturate to `INT_MAX` for every sample at or above full scale | medium, assuming single-precision comparison; not executed | OpenAL.SaturateInt32AsWritten, OpenAL.FullScaleSampleOverflows | OpenAL.SaturateInt32, OpenAL.AsWrittenDiffersOnlyAtFullScale |
