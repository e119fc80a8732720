/**
  * One iteration of the OpenAL output thread (`OpenALStream::SoundLoop`,
  * Source/Core/AudioCommon/OpenALStream.cpp).
  *
  * The thread keeps, for each of its three sources (DMA, streaming, Wii Remote
  * speaker), the sample rate it was set up for, the number of frames per
  * OpenAL buffer, how many of its `OAL_BUFFERS` buffers are queued on the
  * device and which buffer is filled next.  Each iteration either feeds
  * source 0 with 5.1 surround audio or feeds all three sources with stereo
  * audio; a buffer-data error on the 5.1 format falls back to stereo for good.
  *
  * The device is not modelled: what the thread asks it (processed buffers,
  * play state, the error after `alBufferData`) and what the mixer hands it
  * (the rendered frames) are inputs of each tick, and what it gives the device
  * (pitch, the buffer contents and the buffer it fills) is state or output.
  * `OAL_BUFFERS` and `OAL_MAX_FRAMES` are parameters of the model.
  */
module OpenAL {
  import Mixer

  /** `OAL_NUM_SOURCES`. */
  const NUM_SOURCES: nat := 3
  /** The index of the Wii Remote speaker source. */
  const WIIMOTE: nat := 2
  /** Frames per buffer the surround decoder needs at least. */
  const SURROUND_MIN_FRAMES: nat := 240
  /** `SURROUND_CHANNELS`, and the position of the sub-woofer (LFE) channel in a decoded frame. */
  const SURROUND_CHANNELS: nat := 6
  const LFE: nat := 3
  /** Below this speed the pitch is left alone. */
  const PITCH_FLOOR: real := 0.10

  const INT_MAX: int := 0x7fff_ffff
  const INT_MIN: int := -0x8000_0000
  const SHRT_MAX: int := 0x7fff
  const SHRT_MIN: int := -0x8000
  /** `INT64_C(1) << 31` and `1 << 15`, the scales of the fixed-point conversions. */
  const FIXED32_SCALE: real := 2147483648.0
  const SHORT_SCALE: real := 32768.0
  /** `INT_MAX` converted to `float` for the comparison with a `float` sample: 2^31. */
  const INT_MAX_AS_FLOAT: real := 2147483648.0
  /**
    * `LONG_MAX / SHRT_MAX` for the Wii Remote 32-bit conversion.  The file is
    * built for Windows only, where `long` has 32 bits.
    */
  const WIIMOTE_RATIO: int := INT_MAX / SHRT_MAX

  // ---------------------------------------------------------------------------
  // Buffer sizing

  /**
    * `frequency / 1000 * latency / OAL_BUFFERS` in `u32` arithmetic: the frames
    * one buffer holds when the buffers together hold `latency` milliseconds.
    */
  function LatencyFrames(frequency: nat, latency: int, buffers: nat): (r: nat)
    requires buffers > 0 && latency > 0
    ensures r < Mixer.TWO32
    ensures (frequency / 1000) * latency < Mixer.TWO32 ==> r * buffers <= (frequency / 1000) * latency < (r + 1) * buffers
  {
    Mixer.Wrap32((frequency / 1000) * latency) / buffers
  }

  /**
    * The frames per buffer chosen when the thread starts: the configured
    * latency (1 ms when it is not positive), at most `maxFrames`, and at least
    * 240 for the surround-decoded sources 0 and 1.
    */
  function InitialFramesPerBuffer(frequency: nat, latency: int, buffers: nat, maxFrames: nat,
                                  surround: bool, i: nat): (r: nat)
    requires buffers > 0
    ensures surround && i != WIIMOTE ==> r >= SURROUND_MIN_FRAMES
    ensures r <= maxFrames || (surround && i != WIIMOTE && r == SURROUND_MIN_FRAMES)
    ensures var want := LatencyFrames(frequency, if latency > 0 then latency else 1, buffers);
            want <= maxFrames && (want >= SURROUND_MIN_FRAMES || !surround || i == WIIMOTE) ==> r == want
    ensures var want := LatencyFrames(frequency, if latency > 0 then latency else 1, buffers);
            want > maxFrames && (maxFrames >= SURROUND_MIN_FRAMES || !surround || i == WIIMOTE) ==> r == maxFrames
    ensures var want := LatencyFrames(frequency, if latency > 0 then latency else 1, buffers);
            surround && i != WIIMOTE && (want < SURROUND_MIN_FRAMES || maxFrames < SURROUND_MIN_FRAMES) ==> r == SURROUND_MIN_FRAMES
    ensures r < Mixer.TWO32
  {
    var want := LatencyFrames(frequency, if latency > 0 then latency else 1, buffers);
    var capped := if want > maxFrames then maxFrames else want;
    if surround && capped < SURROUND_MIN_FRAMES && i != WIIMOTE then SURROUND_MIN_FRAMES else capped
  }

  /**
    * The frames per buffer chosen after a source's sample rate changed: the
    * latency counts only above 10 ms, and there is neither the cap nor the
    * surround floor of `InitialFramesPerBuffer`.
    */
  function RecomputedFramesPerBuffer(frequency: nat, latency: int, buffers: nat): (r: nat)
    requires buffers > 0
    ensures r < Mixer.TWO32
    ensures latency <= 10 ==> r == LatencyFrames(frequency, 1, buffers)
    ensures latency > 10 ==> r == LatencyFrames(frequency, latency, buffers)
    ensures latency > 10 && (frequency / 1000) * latency < Mixer.TWO32 ==>
              r * buffers <= (frequency / 1000) * latency < (r + 1) * buffers
  {
    LatencyFrames(frequency, if latency > 10 then latency else 1, buffers)
  }

  /**
    * The two sizing rules disagree: with a 10 ms latency at 48 kHz and one
    * buffer, the start-up size is 480 frames and the size after a rate change
    * is 48 frames, and a 4096-frame cap only binds the former.
    */
  lemma RecomputeDiffersFromStartup()
    ensures InitialFramesPerBuffer(48000, 10, 1, 4096, false, 0) == 480
    ensures RecomputedFramesPerBuffer(48000, 10, 1) == 48
    ensures InitialFramesPerBuffer(48000, 100, 1, 4096, false, 0) == 4096
    ensures RecomputedFramesPerBuffer(48000, 100, 1) == 4800
  {
    Mixer.SmallMod(480, Mixer.TWO32);
    Mixer.SmallMod(48, Mixer.TWO32);
    Mixer.SmallMod(4800, Mixer.TWO32);
  }

  // ---------------------------------------------------------------------------
  // Pitch

  /**
    * The pitch a source plays at after a tick: 1.0 while the audio is
    * time-stretched, otherwise the emulation speed when it is above 10%, and
    * otherwise the pitch it had.
    */
  function PitchAfter(stretch: bool, rate: real, pitch: real): (p: real)
    ensures stretch ==> p == 1.0
    ensures !stretch && rate > PITCH_FLOOR ==> p == rate
    ensures !stretch && rate <= PITCH_FLOOR ==> p == pitch
  {
    if stretch then 1.0 else if rate > PITCH_FLOOR then rate else pitch
  }

  /** A pitch above 10% stays above 10%, and a pitch only ever moves to 1.0 or to the speed. */
  lemma PitchStaysAboveFloor(stretch: bool, rate: real, pitch: real)
    requires pitch > PITCH_FLOOR
    ensures PitchAfter(stretch, rate, pitch) > PITCH_FLOOR
    ensures PitchAfter(stretch, rate, pitch) in {1.0, rate, pitch}
  {
  }

  // ---------------------------------------------------------------------------
  // Saturating conversions

  /** `static_cast<int>` of a real value: rounding toward zero. */
  function Truncate(v: real): (r: int)
    ensures v >= 0.0 ==> r as real <= v < r as real + 1.0
    ensures v < 0.0 ==> r as real - 1.0 < v <= r as real
  {
    if v >= 0.0 then v.Floor else -((-v).Floor)
  }

  /** Rounding toward zero keeps the order of its arguments. */
  lemma TruncateMonotone(u: real, v: real)
    requires u <= v
    ensures Truncate(u) <= Truncate(v)
  {
  }

  /** A scaled sample as a saturated `int`: values beyond the range stick to its ends. */
  function SaturateInt32(v: real): (r: int)
    ensures INT_MIN <= r <= INT_MAX
    ensures v > INT_MAX as real ==> r == INT_MAX
    ensures v < INT_MIN as real ==> r == INT_MIN
    ensures INT_MIN as real <= v <= INT_MAX as real ==> r == Truncate(v)
  {
    if v > INT_MAX as real then INT_MAX else if v < INT_MIN as real then INT_MIN else Truncate(v)
  }

  /** A scaled sample as a saturated `short`. */
  function SaturateShort(v: real): (r: int)
    ensures SHRT_MIN <= r <= SHRT_MAX
    ensures v > SHRT_MAX as real ==> r == SHRT_MAX
    ensures v < SHRT_MIN as real ==> r == SHRT_MIN
    ensures SHRT_MIN as real <= v <= SHRT_MAX as real ==> r == Truncate(v)
  {
    if v > SHRT_MAX as real then SHRT_MAX else if v < SHRT_MIN as real then SHRT_MIN else Truncate(v)
  }

  /** Saturation keeps the order of the samples, so it never folds a peak over. */
  lemma {:induction false} SaturateMonotone(u: real, v: real)
    requires u <= v
    ensures SaturateInt32(u) <= SaturateInt32(v)
    ensures SaturateShort(u) <= SaturateShort(v)
  {
    TruncateMonotone(u, v);
    if INT_MIN as real <= u <= INT_MAX as real && v > INT_MAX as real {
      assert Truncate(u) <= INT_MAX;
    }
    if u < INT_MIN as real && INT_MIN as real <= v <= INT_MAX as real {
      assert Truncate(v) >= INT_MIN;
    }
  }

  /**
    * The fixed-point conversion as written: the upper guard compares the
    * `float` sample with `INT_MAX` converted to `float`, which is 2^31, so a
    * sample of exactly 2^31 reaches the cast although it does not fit an `int`.
    */
  function SaturateInt32AsWritten(v: real): (r: int)
    ensures INT_MIN <= r <= INT_MAX + 1
  {
    if v > INT_MAX_AS_FLOAT then INT_MAX else if v < INT_MIN as real then INT_MIN else Truncate(v)
  }

  /** A full-scale decoded sample (1.0, scaled to 2^31) leaves the `int` range as written. */
  lemma FullScaleSampleOverflows()
    ensures SaturateInt32AsWritten(1.0 * FIXED32_SCALE) == INT_MAX + 1
    ensures SaturateInt32(1.0 * FIXED32_SCALE) == INT_MAX
  {
  }

  /** That sample is the only one on which the conversion as written and the saturation differ. */
  lemma {:induction false} AsWrittenDiffersOnlyAtFullScale(v: real)
    ensures SaturateInt32AsWritten(v) == SaturateInt32(v) <==> v != INT_MAX_AS_FLOAT
  {
    if INT_MAX as real < v < INT_MAX_AS_FLOAT {
      assert Truncate(v) == INT_MAX;
    }
  }

  /** Every sample of a run, scaled to 32 bits and saturated. */
  function Int32Samples(s: seq<real>): (r: seq<int>)
    ensures |r| == |s|
    ensures forall i :: 0 <= i < |s| ==> INT_MIN <= r[i] <= INT_MAX && r[i] == SaturateInt32(s[i] * FIXED32_SCALE)
  {
    seq(|s|, i requires 0 <= i < |s| => SaturateInt32(s[i] * FIXED32_SCALE))
  }

  /** Every sample of a run, scaled to 16 bits and saturated. */
  function ShortSamples(s: seq<real>): (r: seq<int>)
    ensures |r| == |s|
    ensures forall i :: 0 <= i < |s| ==> SHRT_MIN <= r[i] <= SHRT_MAX && r[i] == SaturateShort(s[i] * SHORT_SCALE)
  {
    seq(|s|, i requires 0 <= i < |s| => SaturateShort(s[i] * SHORT_SCALE))
  }

  /** A value reduced to a signed 32-bit `long` (two's complement wrap-around). */
  function AsInt32(x: int): (r: int)
    ensures INT_MIN <= r <= INT_MAX
    ensures (r - x) % Mixer.TWO32 == 0
  {
    var w := Mixer.Wrap32(x);
    if w > INT_MAX then w - Mixer.TWO32 else w
  }

  /** The Wii Remote samples widened to 32 bits by multiplying with `WIIMOTE_RATIO`. */
  function WiimoteScaled(pcm: seq<Mixer.Short>): (r: seq<int>)
    ensures |r| == |pcm|
    ensures forall i :: 0 <= i < |pcm| ==> r[i] == AsInt32(pcm[i] * WIIMOTE_RATIO)
  {
    seq(|pcm|, i requires 0 <= i < |pcm| => AsInt32(pcm[i] * WIIMOTE_RATIO))
  }

  /**
    * The product fits a 32-bit `long` for every sample the mixer produces (it
    * clamps to +-32767), so the widening is exact; only -32768 would wrap.
    */
  lemma WiimoteScaleExact(x: Mixer.Short)
    ensures WIIMOTE_RATIO == 65538
    ensures -Mixer.SAMPLE_LIMIT <= x ==> AsInt32(x * WIIMOTE_RATIO) == x * WIIMOTE_RATIO
    ensures x == -0x8000 ==> AsInt32(x * WIIMOTE_RATIO) == x * WIIMOTE_RATIO + Mixer.TWO32
  {
    assert WIIMOTE_RATIO == 65538;
    var p := x * 65538;
    if -Mixer.SAMPLE_LIMIT <= x {
      assert -2147483646 <= p <= 2147483646;
      if p >= 0 {
        Mixer.SmallMod(p, Mixer.TWO32);
      } else {
        Mixer.AddMultipleMod(p + Mixer.TWO32, -1, Mixer.TWO32);
        Mixer.SmallMod(p + Mixer.TWO32, Mixer.TWO32);
      }
    } else if x == -0x8000 {
      assert p == -2147549184;
      Mixer.AddMultipleMod(p + Mixer.TWO32, -1, Mixer.TWO32);
      Mixer.SmallMod(p + Mixer.TWO32, Mixer.TWO32);
    }
  }

  /** A whole buffer of clamped mixer output is widened exactly. */
  lemma {:induction false} WiimoteScaledExact(pcm: seq<Mixer.Short>)
    requires forall i :: 0 <= i < |pcm| ==> -Mixer.SAMPLE_LIMIT <= pcm[i]
    ensures forall i :: 0 <= i < |pcm| ==> WiimoteScaled(pcm)[i] == (pcm[i] as int) * 65538
  {
    forall i | 0 <= i < |pcm|
      ensures WiimoteScaled(pcm)[i] == (pcm[i] as int) * 65538
    {
      WiimoteScaleExact(pcm[i]);
    }
  }

  // ---------------------------------------------------------------------------
  // The sub-woofer channel

  /** The decoded samples with the LFE sample of each of the first `frames` frames set to 0. */
  function WithoutLfe(s: seq<real>, frames: nat): (r: seq<real>)
    requires SURROUND_CHANNELS * frames <= |s|
    ensures |r| == |s|
  {
    if frames == 0 then s
    else WithoutLfe(s, frames - 1)[(frames - 1) * SURROUND_CHANNELS + LFE := 0.0]
  }

  /**
    * After zeroing, the LFE sample of every rendered frame is 0 and every other
    * sample is the decoder's.
    */
  lemma {:induction false} WithoutLfeAt(s: seq<real>, frames: nat, k: nat)
    requires SURROUND_CHANNELS * frames <= |s| && k < |s|
    ensures WithoutLfe(s, frames)[k] == if k % SURROUND_CHANNELS == LFE && k / SURROUND_CHANNELS < frames then 0.0 else s[k]
  {
    if frames > 0 {
      WithoutLfeAt(s, frames - 1, k);
      if k == (frames - 1) * 6 + 3 {
        assert k % 6 == 3 && k / 6 == frames - 1;
      } else if k % 6 == 3 && k / 6 < frames {
        assert k == (k / 6) * 6 + 3;
        assert k / 6 != frames - 1;
      }
    }
  }

  /** Zeroing the LFE channel twice is zeroing it once. */
  lemma WithoutLfeIdempotent(s: seq<real>, frames: nat)
    requires SURROUND_CHANNELS * frames <= |s|
    ensures WithoutLfe(WithoutLfe(s, frames), frames) == WithoutLfe(s, frames)
  {
    var once := WithoutLfe(s, frames);
    forall k | 0 <= k < |s|
      ensures WithoutLfe(once, frames)[k] == once[k]
    {
      WithoutLfeAt(once, frames, k);
      WithoutLfeAt(s, frames, k);
    }
  }

  // ---------------------------------------------------------------------------
  // What a tick gives the device

  /** The contents of one OpenAL buffer, by format. */
  datatype Payload =
    | Float51(samples: seq<real>)   // AL_FORMAT_51CHN32, float
    | Fixed51(samples32: seq<int>)  // AL_FORMAT_51CHN32, 32-bit integers
    | Short51(samples16: seq<int>)  // AL_FORMAT_51CHN16
    | Stereo16(pcm: seq<Mixer.Short>)  // AL_FORMAT_STEREO16
    | Stereo32(wide: seq<int>)     // AL_FORMAT_STEREO32

  /** How one source's turn in a tick ended. */
  datatype Tick =
    | Reset      // its sample rate changed: queue dropped and buffers resized
    | Busy       // every buffer queued and none played: back off
    | Starved    // the mixer rendered too little: nothing queued
    | Submitted(buffer: nat, payload: Payload, resumed: bool)  // filled and queued `buffer`

  /** What the device answers about a source. */
  datatype Device = Device(processed: nat, playing: bool)

  /**
    * The 5.1 buffer made from `rendered` decoded frames: the LFE channel is
    * silenced, and the frames are sent as `float` when the device takes it,
    * else as saturated 32-bit integers on an X-Fi, else as saturated `short`s.
    */
  function SurroundPayload(mixed: seq<real>, rendered: nat, float32: bool, fixed32: bool): (p: Payload)
    requires |mixed| == SURROUND_CHANNELS * rendered
    ensures float32 ==> p.Float51? && |p.samples| == |mixed|
    ensures !float32 && fixed32 ==> p.Fixed51? && |p.samples32| == |mixed|
    ensures !float32 && !fixed32 ==> p.Short51? && |p.samples16| == |mixed|
  {
    var s := WithoutLfe(mixed, rendered);
    if float32 then Float51(s) else if fixed32 then Fixed51(Int32Samples(s)) else Short51(ShortSamples(s))
  }

  /** In every format, the sub-woofer is silent and the other channels carry the decoder's output. */
  lemma SurroundPayloadAt(mixed: seq<real>, rendered: nat, float32: bool, fixed32: bool, f: nat, c: nat)
    requires |mixed| == SURROUND_CHANNELS * rendered && f < rendered && c < SURROUND_CHANNELS
    ensures var p := SurroundPayload(mixed, rendered, float32, fixed32);
            var x := if c == LFE then 0.0 else mixed[f * 6 + c];
            && (p.Float51? ==> p.samples[f * 6 + c] == x)
            && (p.Fixed51? ==> p.samples32[f * 6 + c] == SaturateInt32(x * FIXED32_SCALE))
            && (p.Short51? ==> p.samples16[f * 6 + c] == SaturateShort(x * SHORT_SCALE))
  {
    var k := f * 6 + c;
    assert k % 6 == c && k / 6 == f;
    WithoutLfeAt(mixed, rendered, k);
  }

  /** The stereo buffer of source `n`: the mixed samples, widened to 32 bits for the Wii Remote on an X-Fi. */
  function StereoPayload(n: nat, pcm: seq<Mixer.Short>, fixed32: bool): (p: Payload)
    ensures n == WIIMOTE && fixed32 ==> p == Stereo32(WiimoteScaled(pcm))
    ensures n != WIIMOTE || !fixed32 ==> p == Stereo16(pcm)
  {
    if n == WIIMOTE && fixed32 then Stereo32(WiimoteScaled(pcm)) else Stereo16(pcm)
  }

  // ---------------------------------------------------------------------------
  // One source's turn, as a function of its state and the answers

  /** The per-source state of the loop. */
  datatype Source = Source(frequency: nat, framesPerBuffer: nat, queued: nat, next: nat, pitch: real)

  /**
    * The invariant of a source: at most `buffers` buffers queued, the next one
    * to fill a valid index, a pitch above 10% and `u32` sizes.
    */
  predicate SourceOk(s: Source, buffers: nat)
  {
    && s.queued <= buffers && s.next < buffers
    && s.pitch > PITCH_FLOOR
    && s.frequency < Mixer.TWO32 && s.framesPerBuffer < Mixer.TWO32
  }

  /** A source's state after its turn, what the turn did, and whether surround mode goes on. */
  datatype Step = Step(source: Source, tick: Tick, surround: bool)

  /**
    * Source 0's turn in surround mode: set the pitch; back off when every buffer
    * is queued and none was played; reclaim the played buffers; give up if the
    * decoder rendered fewer frames than a buffer holds; otherwise fill and
    * queue the next buffer, leaving surround mode if the device rejected the
    * 5.1 format.
    */
  function SurroundStep(s: Source, buffers: nat, stretch: bool, rate: real, device: Device,
                        mixed: seq<real>, rendered: nat, invalidEnum: bool,
                        float32: bool, fixed32: bool): (r: Step)
    requires buffers > 0 && device.processed <= s.queued
    requires |mixed| == SURROUND_CHANNELS * rendered
    ensures r.source.frequency == s.frequency && r.source.framesPerBuffer == s.framesPerBuffer
    ensures r.source.pitch == PitchAfter(stretch, rate, s.pitch)
  {
    var tuned := s.(pitch := PitchAfter(stretch, rate, s.pitch));
    if s.queued == buffers && device.processed == 0 then Step(tuned, Busy, true)
    else
      var reclaimed := tuned.(queued := s.queued - device.processed);
      if rendered < s.framesPerBuffer then Step(reclaimed, Starved, true)
      else
        Step(reclaimed.(queued := reclaimed.queued + 1, next := (s.next + 1) % buffers),
             Submitted(s.next, SurroundPayload(mixed, rendered, float32, fixed32), !device.playing),
             !invalidEnum)
  }

  /**
    * Source `n`'s turn in stereo mode: on a new mixer rate, store it, resize the
    * buffers and drop the queue; otherwise as in surround mode, where the Wii
    * Remote source renders nothing unless the DSP is emulated at high level.
    */
  function StereoStep(s: Source, n: nat, buffers: nat, latency: int, mixerRate: nat,
                      stretch: bool, rate: real, device: Device, rendered: nat, pcm: seq<Mixer.Short>,
                      usingHLE: bool, fixed32: bool): (r: Step)
    requires buffers > 0 && |pcm| == 2 * rendered
    requires mixerRate == s.frequency ==> device.processed <= s.queued
    ensures !r.surround
    ensures r.tick == Reset <==> mixerRate != s.frequency
    ensures mixerRate == s.frequency ==>
              && r.source.frequency == s.frequency && r.source.framesPerBuffer == s.framesPerBuffer
              && r.source.pitch == PitchAfter(stretch, rate, s.pitch)
  {
    if s.frequency != mixerRate then
      Step(Source(mixerRate, RecomputedFramesPerBuffer(mixerRate, latency, buffers), 0, 0, s.pitch), Reset, false)
    else
      var tuned := s.(pitch := PitchAfter(stretch, rate, s.pitch));
      if s.queued == buffers && device.processed == 0 then Step(tuned, Busy, false)
      else
        var reclaimed := tuned.(queued := s.queued - device.processed);
        var frames := if n == WIIMOTE && !usingHLE then 0 else rendered;
        if frames == 0 then Step(reclaimed, Starved, false)
        else
          Step(reclaimed.(queued := reclaimed.queued + 1, next := (s.next + 1) % buffers),
               Submitted(s.next, StereoPayload(n, pcm, fixed32), !device.playing), false)
  }

  /** A surround turn keeps the source invariant, as long as the device played no more than was queued. */
  lemma SurroundStepKeepsSourceOk(s: Source, buffers: nat, stretch: bool, rate: real, device: Device,
                                  mixed: seq<real>, rendered: nat, invalidEnum: bool, float32: bool, fixed32: bool)
    requires buffers > 0 && SourceOk(s, buffers) && device.processed <= s.queued
    requires |mixed| == SURROUND_CHANNELS * rendered
    ensures SourceOk(SurroundStep(s, buffers, stretch, rate, device, mixed, rendered, invalidEnum, float32, fixed32).source, buffers)
  {
    PitchStaysAboveFloor(stretch, rate, s.pitch);
  }

  /** So does a stereo turn, whose new rate is a `u32`. */
  lemma StereoStepKeepsSourceOk(s: Source, n: nat, buffers: nat, latency: int, mixerRate: nat,
                                stretch: bool, rate: real, device: Device, rendered: nat,
                                pcm: seq<Mixer.Short>, usingHLE: bool, fixed32: bool)
    requires buffers > 0 && SourceOk(s, buffers) && mixerRate < Mixer.TWO32
    requires mixerRate == s.frequency ==> device.processed <= s.queued
    requires |pcm| == 2 * rendered
    ensures SourceOk(StereoStep(s, n, buffers, latency, mixerRate, stretch, rate, device, rendered, pcm, usingHLE, fixed32).source, buffers)
  {
    PitchStaysAboveFloor(stretch, rate, s.pitch);
  }

  /**
    * When every buffer is queued and none was played, a surround turn changes
    * no counter, queues nothing and stays in surround mode.
    */
  lemma SurroundBackOff(s: Source, buffers: nat, stretch: bool, rate: real, device: Device,
                        mixed: seq<real>, rendered: nat, invalidEnum: bool, float32: bool, fixed32: bool)
    requires buffers > 0 && s.queued == buffers && device.processed == 0
    requires |mixed| == SURROUND_CHANNELS * rendered
    ensures var r := SurroundStep(s, buffers, stretch, rate, device, mixed, rendered, invalidEnum, float32, fixed32);
            r.tick == Busy && r.surround && r.source == s.(pitch := r.source.pitch)
  {
  }

  /** The same holds for a stereo turn whose rate did not change. */
  lemma StereoBackOff(s: Source, n: nat, buffers: nat, latency: int, mixerRate: nat,
                      stretch: bool, rate: real, device: Device, rendered: nat,
                      pcm: seq<Mixer.Short>, usingHLE: bool, fixed32: bool)
    requires buffers > 0 && s.queued == buffers && device.processed == 0 && mixerRate == s.frequency
    requires |pcm| == 2 * rendered
    ensures var r := StereoStep(s, n, buffers, latency, mixerRate, stretch, rate, device, rendered, pcm, usingHLE, fixed32);
            r.tick == Busy && r.source == s.(pitch := r.source.pitch)
  {
  }

  /**
    * A surround turn queues a buffer exactly when it neither backs off nor
    * lacks frames; it then fills the next buffer in round-robin order, and
    * `queued - processed + 1` buffers are queued afterwards.
    */
  lemma SurroundSubmit(s: Source, buffers: nat, stretch: bool, rate: real, device: Device,
                       mixed: seq<real>, rendered: nat, invalidEnum: bool, float32: bool, fixed32: bool)
    requires buffers > 0 && device.processed <= s.queued
    requires |mixed| == SURROUND_CHANNELS * rendered
    ensures var r := SurroundStep(s, buffers, stretch, rate, device, mixed, rendered, invalidEnum, float32, fixed32);
            && (r.tick.Submitted? <==> rendered >= s.framesPerBuffer && !(s.queued == buffers && device.processed == 0))
            && (r.tick == Starved <==> rendered < s.framesPerBuffer && !(s.queued == buffers && device.processed == 0))
            && (r.tick == Starved ==> r.source.queued == s.queued - device.processed && r.source.next == s.next)
            && (r.tick.Submitted? ==>
                  && r.tick.buffer == s.next
                  && r.tick.payload == SurroundPayload(mixed, rendered, float32, fixed32)
                  && r.tick.resumed == !device.playing
                  && r.source.queued == s.queued - device.processed + 1
                  && r.source.next == (s.next + 1) % buffers)
  {
  }

  /**
    * A stereo turn with an unchanged rate queues a buffer exactly when it does
    * not back off and the mixer rendered frames (never for the Wii Remote
    * without high-level DSP emulation), with the same bookkeeping.
    */
  lemma StereoSubmit(s: Source, n: nat, buffers: nat, latency: int, mixerRate: nat,
                     stretch: bool, rate: real, device: Device, rendered: nat,
                     pcm: seq<Mixer.Short>, usingHLE: bool, fixed32: bool)
    requires buffers > 0 && mixerRate == s.frequency && device.processed <= s.queued
    requires |pcm| == 2 * rendered
    ensures var r := StereoStep(s, n, buffers, latency, mixerRate, stretch, rate, device, rendered, pcm, usingHLE, fixed32);
            var frames := if n == WIIMOTE && !usingHLE then 0 else rendered;
            && (r.tick == Busy <==> s.queued == buffers && device.processed == 0)
            && (r.tick.Submitted? <==> frames > 0 && !(s.queued == buffers && device.processed == 0))
            && (r.tick == Starved ==> r.source.queued == s.queued - device.processed && r.source.next == s.next)
            && (r.tick.Submitted? ==>
                  && r.tick.buffer == s.next
                  && r.tick.payload == StereoPayload(n, pcm, fixed32)
                  && r.source.queued == s.queued - device.processed + 1
                  && r.source.next == (s.next + 1) % buffers)
  {
  }

  /**
    * A new mixer rate drops the source's queue, starts again at buffer 0 and
    * sizes the buffers from the new rate, keeping the pitch.
    */
  lemma RateChangeResets(s: Source, n: nat, buffers: nat, latency: int, mixerRate: nat,
                         stretch: bool, rate: real, device: Device, rendered: nat,
                         pcm: seq<Mixer.Short>, usingHLE: bool, fixed32: bool)
    requires buffers > 0 && mixerRate != s.frequency && |pcm| == 2 * rendered
    ensures var r := StereoStep(s, n, buffers, latency, mixerRate, stretch, rate, device, rendered, pcm, usingHLE, fixed32);
            && r.tick == Reset
            && r.source == Source(mixerRate, RecomputedFramesPerBuffer(mixerRate, latency, buffers), 0, 0, s.pitch)
  {
  }

  /**
    * Surround mode ends exactly when a 5.1 buffer was queued that the device
    * rejected; a stereo turn never turns it back on.
    */
  lemma SurroundEndsOnlyOnRejectedFormat(s: Source, buffers: nat, stretch: bool, rate: real, device: Device,
                                         mixed: seq<real>, rendered: nat, invalidEnum: bool,
                                         float32: bool, fixed32: bool)
    requires buffers > 0 && device.processed <= s.queued
    requires |mixed| == SURROUND_CHANNELS * rendered
    ensures var r := SurroundStep(s, buffers, stretch, rate, device, mixed, rendered, invalidEnum, float32, fixed32);
            !r.surround <==> r.tick.Submitted? && invalidEnum
  {
  }

  // ---------------------------------------------------------------------------
  // The loop's state

  class SoundLoop {
    /** `OAL_BUFFERS` and `OAL_MAX_FRAMES`. */
    const buffers: nat
    const maxFrames: nat
    /** What the device and the configuration offer; fixed for the life of the thread. */
    const float32Capable: bool
    const fixed32Capable: bool
    const usingHLE: bool
    /** The per-source arrays of the loop, and the pitch each source is set to. */
    const frequency: array<nat>
    const framesPerBuffer: array<nat>
    const numBuffersQueued: array<nat>
    const nextBuffer: array<nat>
    const pitch: array<real>
    /** `use_surround`. */
    var useSurround: bool

    ghost predicate Shaped()
    {
      && buffers > 0
      && frequency.Length == NUM_SOURCES && framesPerBuffer.Length == NUM_SOURCES
      && numBuffersQueued.Length == NUM_SOURCES && nextBuffer.Length == NUM_SOURCES
      && pitch.Length == NUM_SOURCES
      && frequency != framesPerBuffer && frequency != numBuffersQueued && frequency != nextBuffer
      && framesPerBuffer != numBuffersQueued && framesPerBuffer != nextBuffer
      && numBuffersQueued != nextBuffer
    }

    /** The state of source `i`. */
    ghost function SourceAt(i: nat): Source
      reads frequency, framesPerBuffer, numBuffersQueued, nextBuffer, pitch
      requires Shaped() && i < NUM_SOURCES
    {
      Source(frequency[i], framesPerBuffer[i], numBuffersQueued[i], nextBuffer[i], pitch[i])
    }

    ghost predicate Valid()
      reads frequency, framesPerBuffer, numBuffersQueued, nextBuffer, pitch
    {
      && Shaped()
      && SourceOk(SourceAt(0), buffers) && SourceOk(SourceAt(1), buffers) && SourceOk(SourceAt(2), buffers)
    }

    /**
      * The set-up before the loop: each source at its mixer's rate with the
      * start-up buffer size, nothing queued, buffer 0 next and the device's
      * default pitch; surround mode if it is configured and available.
      */
    constructor(buffers: nat, maxFrames: nat, latency: int, rates: seq<nat>,
                float32Capable: bool, fixed32Capable: bool, surroundCapable: bool,
                dpl2Decoder: bool, usingHLE: bool)
      requires buffers > 0 && |rates| == NUM_SOURCES
      requires forall i :: 0 <= i < NUM_SOURCES ==> rates[i] < Mixer.TWO32
      ensures Valid() && fresh(frequency) && fresh(framesPerBuffer) && fresh(numBuffersQueued)
      ensures fresh(nextBuffer) && fresh(pitch)
      ensures this.buffers == buffers && this.maxFrames == maxFrames
      ensures this.float32Capable == float32Capable && this.fixed32Capable == fixed32Capable
      ensures this.usingHLE == usingHLE
      ensures useSurround == (dpl2Decoder && surroundCapable)
      ensures forall i :: 0 <= i < NUM_SOURCES ==>
                SourceAt(i) == Source(rates[i], InitialFramesPerBuffer(rates[i], latency, buffers, maxFrames, useSurround, i), 0, 0, 1.0)
    {
      this.buffers := buffers;
      this.maxFrames := maxFrames;
      this.float32Capable := float32Capable;
      this.fixed32Capable := fixed32Capable;
      this.usingHLE := usingHLE;
      useSurround := dpl2Decoder && surroundCapable;
      frequency := new nat[NUM_SOURCES](i requires 0 <= i < NUM_SOURCES => rates[i]);
      framesPerBuffer := new nat[NUM_SOURCES](i requires 0 <= i < NUM_SOURCES =>
                           InitialFramesPerBuffer(rates[i], latency, buffers, maxFrames, dpl2Decoder && surroundCapable, i));
      numBuffersQueued := new nat[NUM_SOURCES](_ => 0);
      nextBuffer := new nat[NUM_SOURCES](_ => 0);
      pitch := new real[NUM_SOURCES](_ => 1.0);
    }

    /** The loop that silences the sub-woofer sample of each of the first `frames` decoded frames. */
    static method ZeroLfe(dpl2: array<real>, frames: nat)
      requires SURROUND_CHANNELS * frames <= dpl2.Length
      modifies dpl2
      ensures dpl2[..] == WithoutLfe(old(dpl2[..]), frames)
    {
      for i := 0 to frames
        invariant dpl2[..] == WithoutLfe(old(dpl2[..]), i)
      {
        dpl2[i * SURROUND_CHANNELS + LFE] := 0.0;
      }
    }

    /**
      * The X-Fi conversion: scale each of the first `n` samples in place by
      * 2^31 and store it saturated to `int`.  The guard here compares with
      * `INT_MAX` itself, the corrected conversion; the source compares with
      * `INT_MAX` converted to `float` (2^31), which `SaturateInt32AsWritten`
      * models.
      */
    static method ConvertFixed32(dpl2: array<real>, n: nat) returns (out: array<int>)
      requires n <= dpl2.Length
      modifies dpl2
      ensures fresh(out) && out[..] == Int32Samples(old(dpl2[..n]))
      ensures forall j :: 0 <= j < n ==> dpl2[j] == old(dpl2[j]) * FIXED32_SCALE
      ensures dpl2[n..] == old(dpl2[n..])
    {
      out := new int[n];
      for i := 0 to n
        invariant forall j :: 0 <= j < i ==> dpl2[j] == old(dpl2[j]) * FIXED32_SCALE
        invariant forall j :: i <= j < dpl2.Length ==> dpl2[j] == old(dpl2[j])
        invariant forall j :: 0 <= j < i ==> out[j] == SaturateInt32(old(dpl2[j]) * FIXED32_SCALE)
      {
        dpl2[i] := dpl2[i] * FIXED32_SCALE;
        if dpl2[i] > INT_MAX as real {
          out[i] := INT_MAX;
        } else if dpl2[i] < INT_MIN as real {
          out[i] := INT_MIN;
        } else {
          out[i] := Truncate(dpl2[i]);
        }
      }
    }

    /** The 16-bit conversion: scale each of the first `n` samples in place by 2^15 and saturate it to `short`. */
    static method ConvertShort(dpl2: array<real>, n: nat) returns (out: array<int>)
      requires n <= dpl2.Length
      modifies dpl2
      ensures fresh(out) && out[..] == ShortSamples(old(dpl2[..n]))
      ensures forall j :: 0 <= j < n ==> dpl2[j] == old(dpl2[j]) * SHORT_SCALE
      ensures dpl2[n..] == old(dpl2[n..])
    {
      out := new int[n];
      for i := 0 to n
        invariant forall j :: 0 <= j < i ==> dpl2[j] == old(dpl2[j]) * SHORT_SCALE
        invariant forall j :: i <= j < dpl2.Length ==> dpl2[j] == old(dpl2[j])
        invariant forall j :: 0 <= j < i ==> out[j] == SaturateShort(old(dpl2[j]) * SHORT_SCALE)
      {
        dpl2[i] := dpl2[i] * SHORT_SCALE;
        if dpl2[i] > SHRT_MAX as real {
          out[i] := SHRT_MAX;
        } else if dpl2[i] < SHRT_MIN as real {
          out[i] := SHRT_MIN;
        } else {
          out[i] := Truncate(dpl2[i]);
        }
      }
    }

    /** The Wii Remote widening loop: each mixed sample times `WIIMOTE_RATIO`, as a 32-bit `long`. */
    static method Widen(pcm: seq<Mixer.Short>) returns (wide: array<int>)
      ensures fresh(wide) && wide[..] == WiimoteScaled(pcm)
    {
      wide := new int[|pcm|];
      var ratio := INT_MAX / SHRT_MAX;
      for i := 0 to |pcm|
        invariant forall j :: 0 <= j < i ==> wide[j] == AsInt32(pcm[j] * WIIMOTE_RATIO)
      {
        wide[i] := AsInt32(pcm[i] * ratio);
      }
    }

    /**
      * Fill a 5.1 buffer from the decoder's frames: copy them into the local
      * buffer, silence the sub-woofer and convert to the best format the
      * device takes.
      */
    method SurroundBuffer(mixed: seq<real>, rendered: nat) returns (payload: Payload)
      requires |mixed| == SURROUND_CHANNELS * rendered
      ensures payload == SurroundPayload(mixed, rendered, float32Capable, fixed32Capable)
    {
      var dpl2 := new real[|mixed|](i requires 0 <= i < |mixed| => mixed[i]);
      assert dpl2[..] == mixed;
      ZeroLfe(dpl2, rendered);
      ghost var silenced := dpl2[..];
      assert dpl2[..|mixed|] == silenced;
      if float32Capable {
        payload := Float51(dpl2[..]);
      } else if fixed32Capable {
        var out := ConvertFixed32(dpl2, |mixed|);
        payload := Fixed51(out[..]);
      } else {
        var out := ConvertShort(dpl2, |mixed|);
        payload := Short51(out[..]);
      }
    }

    /** `alSourcef(AL_PITCH)` on source `n`. */
    method SetPitch(n: nat, p: real)
      requires Valid() && n < NUM_SOURCES && p > PITCH_FLOOR
      modifies pitch
      ensures Valid() && SourceAt(n) == old(SourceAt(n)).(pitch := p)
      ensures forall i :: 0 <= i < NUM_SOURCES && i != n ==> SourceAt(i) == old(SourceAt(i))
    {
      pitch[n] := p;
    }

    /** Unqueue the `processed` buffers the device has played from source `n`. */
    method Reclaim(n: nat, processed: nat)
      requires Valid() && n < NUM_SOURCES && processed <= numBuffersQueued[n]
      modifies numBuffersQueued
      ensures Valid() && SourceAt(n) == old(SourceAt(n)).(queued := old(numBuffersQueued[n]) - processed)
      ensures forall i :: 0 <= i < NUM_SOURCES && i != n ==> SourceAt(i) == old(SourceAt(i))
    {
      if processed > 0 {
        numBuffersQueued[n] := numBuffersQueued[n] - processed;
      }
    }

    /** Queue source `n`'s next buffer and move on to the following one, round robin. */
    method Enqueue(n: nat) returns (filled: nat)
      requires Valid() && n < NUM_SOURCES && numBuffersQueued[n] < buffers
      modifies numBuffersQueued, nextBuffer
      ensures Valid() && filled == old(nextBuffer[n])
      ensures SourceAt(n) == old(SourceAt(n)).(queued := old(numBuffersQueued[n]) + 1,
                                               next := (old(nextBuffer[n]) + 1) % buffers)
      ensures forall i :: 0 <= i < NUM_SOURCES && i != n ==> SourceAt(i) == old(SourceAt(i))
    {
      filled := nextBuffer[n];
      numBuffersQueued[n] := numBuffersQueued[n] + 1;
      nextBuffer[n] := (nextBuffer[n] + 1) % buffers;
    }

    /** Source `n` after its rate changed: the new rate and size, an empty queue, buffer 0 next. */
    method Restart(n: nat, rate: nat, frames: nat)
      requires Valid() && n < NUM_SOURCES && rate < Mixer.TWO32 && frames < Mixer.TWO32
      modifies frequency, framesPerBuffer, numBuffersQueued, nextBuffer
      ensures Valid() && SourceAt(n) == Source(rate, frames, 0, 0, old(pitch[n]))
      ensures forall i :: 0 <= i < NUM_SOURCES && i != n ==> SourceAt(i) == old(SourceAt(i))
    {
      frequency[n] := rate;
      framesPerBuffer[n] := frames;
      numBuffersQueued[n] := 0;
      nextBuffer[n] := 0;
    }

    /**
      * Source 0's turn in surround mode (the tick of `SurroundStep`), given the
      * speed, the device's answers, the decoder's `rendered` frames and whether
      * the device rejected the 5.1 buffer.
      */
    method SurroundTick(stretch: bool, rate: real, device: Device, mixed: seq<real>, rendered: nat,
                        invalidEnum: bool) returns (tick: Tick)
      requires Valid() && device.processed <= numBuffersQueued[0]
      requires |mixed| == SURROUND_CHANNELS * rendered
      modifies this`useSurround, numBuffersQueued, nextBuffer, pitch
      ensures Valid()
      ensures var r := SurroundStep(old(SourceAt(0)), buffers, stretch, rate, device, mixed, rendered,
                                    invalidEnum, float32Capable, fixed32Capable);
              SourceAt(0) == r.source && tick == r.tick && useSurround == (old(useSurround) && r.surround)
      ensures forall i :: 1 <= i < NUM_SOURCES ==> SourceAt(i) == old(SourceAt(i))
    {
      ghost var before := SourceAt(0);
      SurroundStepKeepsSourceOk(before, buffers, stretch, rate, device, mixed, rendered, invalidEnum,
                                float32Capable, fixed32Capable);
      SurroundSubmit(before, buffers, stretch, rate, device, mixed, rendered, invalidEnum,
                     float32Capable, fixed32Capable);
      SurroundEndsOnlyOnRejectedFormat(before, buffers, stretch, rate, device, mixed, rendered, invalidEnum,
                                       float32Capable, fixed32Capable);
      assert SourceOk(before, buffers);
      hide SurroundStep, SurroundPayload, PitchAfter, Valid;
      PitchStaysAboveFloor(stretch, rate, pitch[0]);
      SetPitch(0, PitchAfter(stretch, rate, pitch[0]));
      if numBuffersQueued[0] == buffers && device.processed == 0 {
        SurroundBackOff(before, buffers, stretch, rate, device, mixed, rendered, invalidEnum,
                        float32Capable, fixed32Capable);
        return Busy;
      }
      Reclaim(0, device.processed);
      assert numBuffersQueued[0] < buffers && framesPerBuffer[0] == before.framesPerBuffer;
      if rendered < framesPerBuffer[0] {
        return Starved;
      }
      tick := QueueSurround(mixed, rendered, invalidEnum, device.playing);
    }

    /**
      * The end of a surround turn that has its frames: fill the next buffer of
      * source 0, leave surround mode if the device rejected the format, queue
      * the buffer and restart playback if it had stopped.
      */
    method QueueSurround(mixed: seq<real>, rendered: nat, invalidEnum: bool, playing: bool) returns (tick: Tick)
      requires Valid() && numBuffersQueued[0] < buffers
      requires |mixed| == SURROUND_CHANNELS * rendered
      modifies this`useSurround, numBuffersQueued, nextBuffer
      ensures Valid()
      ensures tick == Submitted(old(nextBuffer[0]), SurroundPayload(mixed, rendered, float32Capable, fixed32Capable), !playing)
      ensures SourceAt(0) == old(SourceAt(0)).(queued := old(numBuffersQueued[0]) + 1,
                                               next := (old(nextBuffer[0]) + 1) % buffers)
      ensures useSurround == (old(useSurround) && !invalidEnum)
      ensures forall i :: 1 <= i < NUM_SOURCES ==> SourceAt(i) == old(SourceAt(i))
    {
      var payload := SurroundBuffer(mixed, rendered);
      if invalidEnum {
        useSurround := false;
      }
      var filled := Enqueue(0);
      tick := Submitted(filled, payload, !playing);
    }

    /**
      * Source `n`'s turn in stereo mode (the tick of `StereoStep`), given the
      * mixer's current rate for it, the speed, the device's answers and the
      * mixer's `rendered` frames.
      */
    method StereoTick(n: nat, latency: int, mixerRate: nat, stretch: bool, rate: real, device: Device,
                      rendered: nat, pcm: seq<Mixer.Short>) returns (tick: Tick)
      requires Valid() && n < NUM_SOURCES && mixerRate < Mixer.TWO32
      requires mixerRate == frequency[n] ==> device.processed <= numBuffersQueued[n]
      requires |pcm| == 2 * rendered
      modifies frequency, framesPerBuffer, numBuffersQueued, nextBuffer, pitch
      ensures Valid()
      ensures var r := StereoStep(old(SourceAt(n)), n, buffers, latency, mixerRate, stretch, rate, device,
                                  rendered, pcm, usingHLE, fixed32Capable);
              SourceAt(n) == r.source && tick == r.tick
      ensures forall i :: 0 <= i < NUM_SOURCES && i != n ==> SourceAt(i) == old(SourceAt(i))
    {
      ghost var before := SourceAt(n);
      StereoStepKeepsSourceOk(before, n, buffers, latency, mixerRate, stretch, rate, device, rendered,
                              pcm, usingHLE, fixed32Capable);
      hide StereoStep, StereoPayload, WiimoteScaled, RecomputedFramesPerBuffer, PitchAfter;
      if frequency[n] != mixerRate {
        RateChangeResets(before, n, buffers, latency, mixerRate, stretch, rate, device, rendered, pcm,
                         usingHLE, fixed32Capable);
        Restart(n, mixerRate, RecomputedFramesPerBuffer(mixerRate, latency, buffers));
        return Reset;
      }
      StereoSubmit(before, n, buffers, latency, mixerRate, stretch, rate, device, rendered, pcm,
                   usingHLE, fixed32Capable);
      PitchStaysAboveFloor(stretch, rate, pitch[n]);
      SetPitch(n, PitchAfter(stretch, rate, pitch[n]));
      if numBuffersQueued[n] == buffers && device.processed == 0 {
        StereoBackOff(before, n, buffers, latency, mixerRate, stretch, rate, device, rendered, pcm,
                      usingHLE, fixed32Capable);
        return Busy;
      }
      Reclaim(n, device.processed);
      var frames := if n == WIIMOTE && !usingHLE then 0 else rendered;
      if frames == 0 {
        return Starved;
      }
      tick := QueueStereo(n, pcm, device.playing);
    }

    /**
      * The end of a stereo turn that has frames: fill source `n`'s next buffer
      * (widened to 32 bits for the Wii Remote on an X-Fi), queue it and restart
      * playback if it had stopped.
      */
    method QueueStereo(n: nat, pcm: seq<Mixer.Short>, playing: bool) returns (tick: Tick)
      requires Valid() && n < NUM_SOURCES && numBuffersQueued[n] < buffers
      modifies numBuffersQueued, nextBuffer
      ensures Valid()
      ensures tick == Submitted(old(nextBuffer[n]), StereoPayload(n, pcm, fixed32Capable), !playing)
      ensures SourceAt(n) == old(SourceAt(n)).(queued := old(numBuffersQueued[n]) + 1,
                                               next := (old(nextBuffer[n]) + 1) % buffers)
      ensures forall i :: 0 <= i < NUM_SOURCES && i != n ==> SourceAt(i) == old(SourceAt(i))
    {
      var payload: Payload;
      if n == WIIMOTE && fixed32Capable {
        var wide := Widen(pcm);
        payload := Stereo32(wide[..]);
      } else {
        payload := Stereo16(pcm);
      }
      var filled := Enqueue(n);
      tick := Submitted(filled, payload, !playing);
    }

    /** All three sources' turns in stereo mode, in order. */
    method StereoPass(latency: int, mixerRates: seq<nat>, stretch: bool, rates: seq<real>,
                      devices: seq<Device>, rendered: seq<nat>, pcm: seq<seq<Mixer.Short>>)
      returns (ticks: seq<Tick>)
      requires Valid()
      requires |mixerRates| == |rates| == |devices| == |rendered| == |pcm| == NUM_SOURCES
      requires forall i :: 0 <= i < NUM_SOURCES ==> mixerRates[i] < Mixer.TWO32 && |pcm[i]| == 2 * rendered[i]
      requires forall i :: 0 <= i < NUM_SOURCES && mixerRates[i] == frequency[i] ==> devices[i].processed <= numBuffersQueued[i]
      modifies frequency, framesPerBuffer, numBuffersQueued, nextBuffer, pitch
      ensures Valid() && |ticks| == NUM_SOURCES
      ensures forall i :: 0 <= i < NUM_SOURCES ==>
                var r := StereoStep(old(SourceAt(i)), i, buffers, latency, mixerRates[i], stretch, rates[i],
                                    devices[i], rendered[i], pcm[i], usingHLE, fixed32Capable);
                SourceAt(i) == r.source && ticks[i] == r.tick
    {
      ticks := [];
      for n := 0 to NUM_SOURCES
        invariant Valid() && |ticks| == n
        invariant forall i :: 0 <= i < n ==>
                    var r := StereoStep(old(SourceAt(i)), i, buffers, latency, mixerRates[i], stretch, rates[i],
                                        devices[i], rendered[i], pcm[i], usingHLE, fixed32Capable);
                    SourceAt(i) == r.source && ticks[i] == r.tick
        invariant forall i :: n <= i < NUM_SOURCES ==> SourceAt(i) == old(SourceAt(i))
      {
        assert SourceAt(n) == old(SourceAt(n));
        var t := StereoTick(n, latency, mixerRates[n], stretch, rates[n], devices[n], rendered[n], pcm[n]);
        ticks := ticks + [t];
      }
    }

    /**
      * One iteration of the loop: source 0's surround turn in surround mode,
      * otherwise the three stereo turns.  Surround mode is never entered.
      */
    method Iteration(latency: int, mixerRates: seq<nat>, stretch: bool, rates: seq<real>,
                     devices: seq<Device>, rendered: seq<nat>, pcm: seq<seq<Mixer.Short>>,
                     mixed: seq<real>, surroundFrames: nat, invalidEnum: bool)
      returns (ticks: seq<Tick>)
      requires Valid()
      requires |mixerRates| == |rates| == |devices| == |rendered| == |pcm| == NUM_SOURCES
      requires useSurround ==> devices[0].processed <= numBuffersQueued[0] && |mixed| == SURROUND_CHANNELS * surroundFrames
      requires !useSurround ==>
                 && (forall i :: 0 <= i < NUM_SOURCES ==> mixerRates[i] < Mixer.TWO32 && |pcm[i]| == 2 * rendered[i])
                 && (forall i :: 0 <= i < NUM_SOURCES && mixerRates[i] == frequency[i] ==> devices[i].processed <= numBuffersQueued[i])
      modifies this`useSurround, frequency, framesPerBuffer, numBuffersQueued, nextBuffer, pitch
      ensures Valid()
      ensures useSurround ==> old(useSurround)
      ensures |ticks| == if old(useSurround) then 1 else NUM_SOURCES
      ensures old(useSurround) ==> useSurround == !(ticks[0].Submitted? && invalidEnum)
      ensures old(useSurround) ==>
                && (var r := SurroundStep(old(SourceAt(0)), buffers, stretch, rates[0], devices[0], mixed,
                                          surroundFrames, invalidEnum, float32Capable, fixed32Capable);
                    SourceAt(0) == r.source && ticks == [r.tick])
                && forall i :: 1 <= i < NUM_SOURCES ==> SourceAt(i) == old(SourceAt(i))
      ensures !old(useSurround) ==>
                forall i :: 0 <= i < NUM_SOURCES ==>
                  var r := StereoStep(old(SourceAt(i)), i, buffers, latency, mixerRates[i], stretch, rates[i],
                                      devices[i], rendered[i], pcm[i], usingHLE, fixed32Capable);
                  SourceAt(i) == r.source && ticks[i] == r.tick
    {
      if useSurround {
        var t := SurroundTick(stretch, rates[0], devices[0], mixed, surroundFrames, invalidEnum);
        ticks := [t];
      } else {
        ticks := StereoPass(latency, mixerRates, stretch, rates, devices, rendered, pcm);
      }
    }
  }
}
