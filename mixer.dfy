/**
  * The sample FIFOs of the audio mixer (Source/Core/AudioCommon/Mixer.cpp).
  *
  * Each `MixerFifo` is a power-of-two ring of 16-bit words addressed by two
  * free-running unsigned 32-bit indices.  `PushSamples` appends stereo frames,
  * `Mix` resamples them with a 16.16 fixed-point step, applies an 8-bit volume,
  * adds them into an output buffer with saturation and pads the tail with the
  * last frame.  The `Mixer` class owns the three FIFOs (DMA, streaming and
  * Wii Remote speaker) and the per-FIFO entry points used by the output stream.
  *
  * `& INDEX_MASK` is written `% cap`, where `cap == INDEX_MASK + 1 ==
  * 2 * MAX_SAMPLES` is a power of two; the unsigned wrap-around of the indices
  * is modelled with `Wrap32`.
  */
module Mixer {

  /** 2^32, the modulus of the source's `u32` arithmetic. */
  const TWO32: int := 0x1_0000_0000
  /** 1.0 in the 16.16 fixed-point format of the resampler. */
  const ONE: int := 0x1_0000
  /** The saturation bound of every mixed output sample. */
  const SAMPLE_LIMIT: int := 32767

  /** One 16-bit word of a FIFO's ring, as the emulated machine stores it (big-endian). */
  type Word = x: int | 0 <= x < 0x1_0000
  /** A signed 16-bit sample (`short`, `s16`). */
  type Short = x: int | -0x8000 <= x < 0x8000

  function Min(a: int, b: int): int { if a <= b then a else b }
  function Max(a: int, b: int): int { if a <= b then b else a }

  // ---------------------------------------------------------------------------
  // Unsigned 32-bit indices and the ring mask

  /** The value of `x` as a `u32` (wrap-around). */
  function Wrap32(x: int): (r: nat)
    ensures r < TWO32
  {
    x % TWO32
  }

  /**
    * `a + b` on two `u32` values, wrapping once past `2^32`; the same value as
    * `Wrap32(a + b)` (`Add32IsWrap`) without the remainder.
    */
  function Add32(a: nat, b: nat): (r: nat)
    requires a < TWO32 && b < TWO32
    ensures r < TWO32
  {
    if a + b < TWO32 then a + b else a + b - TWO32
  }

  lemma Add32IsWrap(a: nat, b: nat)
    requires a < TWO32 && b < TWO32
    ensures Add32(a, b) == Wrap32(a + b)
  {
    if a + b >= TWO32 {
      AddMultipleMod(a + b - TWO32, 1, TWO32);
    }
  }

  /** `a - b` on two `u32` values, wrapping once below zero. */
  function Sub32(a: nat, b: nat): (r: nat)
    requires a < TWO32 && b < TWO32
    ensures r < TWO32
  {
    if b <= a then a - b else a - b + TWO32
  }

  lemma Sub32IsWrap(a: nat, b: nat)
    requires a < TWO32 && b < TWO32
    ensures Sub32(a, b) == Wrap32(a - b)
  {
    if b > a {
      AddMultipleMod(a - b + TWO32, -1, TWO32);
    }
  }

  /** `n` is a power of two (the ring size `INDEX_MASK + 1` must be one). */
  predicate IsPowerOfTwo(n: nat)
    decreases n
  {
    n == 1 || (n >= 2 && n % 2 == 0 && IsPowerOfTwo(n / 2))
  }

  lemma MulNonnegative(a: int, b: int)
    requires a >= 0 && b >= 0
    ensures a * b >= 0
  {
  }

  lemma MulAtLeast(a: int, m: int)
    requires a >= 1 && m > 0
    ensures a * m >= m
  {
    MulNonnegative(a - 1, m);
    assert a * m == (a - 1) * m + m;
  }

  /** Quotient and remainder are unique. */
  lemma DivModUnique(y: int, m: int, k: int, r: int)
    requires m > 0 && 0 <= r < m && y == k * m + r
    ensures y % m == r && y / m == k
  {
    var q := y / m;
    if k > q {
      MulAtLeast(k - q, m);
    } else if k < q {
      MulAtLeast(q - k, m);
    }
  }

  lemma AddMultipleMod(x: int, q: int, m: int)
    requires m > 0
    ensures (x + q * m) % m == x % m
  {
    assert x + q * m == (x / m + q) * m + x % m;
    DivModUnique(x + q * m, m, x / m + q, x % m);
  }

  lemma SmallMod(x: int, m: int)
    requires 0 <= x < m
    ensures x % m == x
  {
    DivModUnique(x, m, 0, x);
  }

  /** The quotient `x / d` of a non-negative `x`, with the bounds that characterise it. */
  function Quotient(x: nat, d: nat): (q: nat)
    requires d > 0
    ensures q * d <= x < (q + 1) * d
  {
    assert x == (x / d) * d + x % d;
    x / d
  }

  /**
    * How many frames at `outRate` the time of `frames` frames at `inRate`
    * covers, rounded down: the largest `r` with `r * inRate <= frames * outRate`.
    */
  function FramesAtRate(frames: nat, outRate: nat, inRate: nat): (r: nat)
    requires inRate > 0
    ensures r * inRate <= frames * outRate < (r + 1) * inRate
  {
    MulNonnegative(frames, outRate);
    Quotient(frames * outRate, inRate)
  }

  /** Two values congruent modulo `m` stay congruent after adding the same amount. */
  lemma CongruentAdd(a: int, b: int, x: int, m: int)
    requires m > 0 && a % m == b % m
    ensures (a + x) % m == (b + x) % m
  {
    var t := a / m - b / m;
    assert a + x == (b + x) + t * m;
    AddMultipleMod(b + x, t, m);
  }

  /** A power of two divides every larger power of two. */
  lemma {:induction false} PowerOfTwoDivides(c: nat, k: nat)
    requires IsPowerOfTwo(c) && IsPowerOfTwo(k) && c <= k
    ensures k % c == 0
    decreases c
  {
    if c != 1 {
      var h := c / 2;
      assert k != 1;
      PowerOfTwoDivides(h, k / 2);
      var j := (k / 2) / h;
      assert k == j * c by {
        assert k / 2 == j * h;
      }
      AddMultipleMod(0, j, c);
    }
  }

  /** `2^k`. */
  function Pow2(k: nat): (r: nat)
    ensures r >= 1
  {
    if k == 0 then 1 else 2 * Pow2(k - 1)
  }

  lemma {:induction false} Pow2IsPowerOfTwo(k: nat)
    ensures IsPowerOfTwo(Pow2(k))
  {
    if k > 0 {
      Pow2IsPowerOfTwo(k - 1);
      assert Pow2(k) / 2 == Pow2(k - 1);
    }
  }

  /** A power-of-two ring no larger than 2^32 divides 2^32 ... */
  lemma RingDividesTwo32(cap: nat)
    requires IsPowerOfTwo(cap) && cap <= TWO32
    ensures cap > 0 && TWO32 % cap == 0
  {
    Pow2IsPowerOfTwo(32);
    assert Pow2(8) == 0x100;
    assert Pow2(16) == 0x1_0000;
    assert Pow2(24) == 0x100_0000;
    assert Pow2(32) == TWO32;
    PowerOfTwoDivides(cap, TWO32);
  }

  /** ... so masking a wrapped `u32` gives the same slot as masking the exact value. */
  lemma MaskAbsorbsWrap(x: int, cap: nat)
    requires cap > 0 && TWO32 % cap == 0
    ensures Wrap32(x) % cap == x % cap
  {
    var q := x / TWO32;
    var j := TWO32 / cap;
    assert TWO32 == j * cap;
    assert x == Wrap32(x) + q * TWO32;
    assert q * TWO32 == (q * j) * cap;
    AddMultipleMod(Wrap32(x), q * j, cap);
  }

  /** `(indexW - indexR)` as the source computes it, before masking. */
  function Distance(r: int, w: int): nat
  {
    Wrap32(w - r)
  }

  /** `(indexW - indexR) & INDEX_MASK`: the number of words the ring holds. */
  function Fill(r: int, w: int, cap: nat): nat
    requires cap > 0
  {
    Distance(r, w) % cap
  }

  /**
    * The ring slot of a word index, `i & INDEX_MASK` with `cap == INDEX_MASK + 1`,
    * written as repeated subtraction so that reads from the ring stay in linear
    * arithmetic; `SlotIsMod` shows it is `i % cap`.
    */
  function Slot(i: nat, cap: nat): (r: nat)
    requires cap > 0
    ensures r < cap
    decreases i
  {
    if i < cap then i else Slot(i - cap, cap)
  }

  lemma {:induction false} SlotIsMod(i: nat, cap: nat)
    requires cap > 0
    ensures Slot(i, cap) == i % cap
    decreases i
  {
    if i < cap {
      SmallMod(i, cap);
    } else {
      SlotIsMod(i - cap, cap);
      AddMultipleMod(i - cap, 1, cap);
    }
  }

  /** The reader plus the distance is the writer, modulo the ring size. */
  lemma ReaderPlusDistance(r: int, w: int, cap: nat)
    requires cap > 0 && TWO32 % cap == 0
    ensures (r + Distance(r, w)) % cap == w % cap
  {
    var q := (w - r) / TWO32;
    var j := TWO32 / cap;
    assert TWO32 == j * cap;
    assert r + Distance(r, w) == w + (-q * j) * cap by {
      assert (w - r) == Distance(r, w) + q * TWO32;
      assert q * TWO32 == (q * j) * cap;
    }
    AddMultipleMod(w, -q * j, cap);
  }

  // ---------------------------------------------------------------------------
  // Sample words

  /** `Common::swap16`: exchange the two bytes of a 16-bit word. */
  function Swap16(w: Word): (r: Word)
  {
    (w % 256) * 256 + w / 256
  }

  lemma Swap16Involutive(w: Word)
    ensures Swap16(Swap16(w)) == w
  {
    var lo, hi := w % 256, w / 256;
    assert Swap16(w) == lo * 256 + hi;
    assert Swap16(w) % 256 == hi && Swap16(w) / 256 == lo;
  }

  /** A word read as a two's-complement `s16`. */
  function AsShort(w: Word): (r: Short)
    ensures r % 0x1_0000 == w
  {
    if w < 0x8000 then w else w - 0x1_0000
  }

  /** An `s16` reinterpreted as the `u16` word with the same bits. */
  function AsWord(s: Short): (r: Word)
    ensures AsShort(r) == s
  {
    if s < 0 then s + 0x1_0000 else s
  }

  /** A sample as `Mix` reads it from the ring: `Common::swap16(m_buffer[i])` as an `s16`. */
  function ReadSample(w: Word): Short
  {
    AsShort(Swap16(w))
  }

  /** `x` truncated to `short`, as an assignment to a `short` variable does. */
  function ToShort(x: int): (r: Short)
    ensures (r - x) % 0x1_0000 == 0
    ensures -0x8000 <= x < 0x8000 ==> r == x
  {
    var m := (x + 0x8000) % 0x1_0000;
    assert x + 0x8000 == m + ((x + 0x8000) / 0x1_0000) * 0x1_0000;
    AddMultipleMod(0, -((x + 0x8000) / 0x1_0000), 0x1_0000);
    m - 0x8000
  }

  // ---------------------------------------------------------------------------
  // Per-sample arithmetic of the resampler

  /**
    * The product `x * n`, written as `n` repeated additions so that code using it
    * stays in linear arithmetic; `ScaleIsProduct` shows it is the product.
    */
  function Scale(x: int, n: nat): int
  {
    if n == 0 then 0 else Scale(x, n - 1) + x
  }

  lemma {:induction false} ScaleIsProduct(x: int, n: nat)
    ensures Scale(x, n) == x * n
  {
    if n > 0 {
      ScaleIsProduct(x, n - 1);
    }
  }

  /**
    * Linear interpolation between the current sample `a` and the next sample `b`
    * at fraction `frac / 2^16`: `((a << 16) + (b - a) * frac) >> 16`.
    */
  function Interpolate(a: Short, b: Short, frac: nat): (r: int)
    requires frac < ONE
    ensures frac == 0 ==> r == a
    ensures Min(a, b) <= r <= Max(a, b)
  {
    InterpolateBetween(a, b, frac);
    ScaleIsProduct(b - a, frac);
    (a * ONE + Scale(b - a, frac)) / ONE
  }

  lemma InterpolateBetween(a: int, b: int, frac: nat)
    requires frac < ONE
    ensures frac == 0 ==> (a * ONE + (b - a) * frac) / ONE == a
    ensures Min(a, b) <= (a * ONE + (b - a) * frac) / ONE <= Max(a, b)
  {
    var d := b - a;
    if d >= 0 {
      MulNonnegative(d, frac);
      MulNonnegative(d, ONE - frac);
      assert d * (ONE - frac) == d * ONE - d * frac;
    } else {
      MulNonnegative(-d, frac);
      MulNonnegative(-d, ONE - frac);
      assert (-d) * (ONE - frac) == d * frac - d * ONE;
      assert (-d) * frac == -(d * frac);
    }
    assert frac == 0 ==> d * frac == 0;
    assert a * ONE / ONE == a;
    assert b * ONE / ONE == b;
  }

  /** `(x * volume) >> 8`: scale a sample by a volume whose unity is 256. */
  function ApplyVolume(x: int, volume: nat): int
  {
    Scale(x, volume) / 256
  }

  lemma ApplyVolumeIsProduct(x: int, volume: nat)
    ensures ApplyVolume(x, volume) == (x * volume) / 256
  {
    ScaleIsProduct(x, volume);
  }

  /** `SetVolume`'s encoding of an 8-bit volume: `v + (v >> 7)`. */
  function EncodeVolume(v: nat): (r: nat)
    ensures v == 0 <==> r == 0
    ensures v <= 255 ==> r <= 256
    ensures v == 255 ==> r == 256
    ensures v <= r <= 2 * v
  {
    v + v / 128
  }

  /** The encoding is strictly increasing, so distinct volumes stay distinct. */
  lemma EncodeVolumeStrictlyIncreasing(v: nat, u: nat)
    requires v < u
    ensures EncodeVolume(v) < EncodeVolume(u)
  {
    assert v / 128 <= u / 128;
  }

  /** Full volume (255) is unity: the sample passes unchanged. */
  lemma FullVolumeIsUnity(x: int)
    ensures ApplyVolume(x, EncodeVolume(255)) == x
  {
    ApplyVolumeIsProduct(x, 256);
    assert x * 256 / 256 == x;
  }

  /** Any encoded 8-bit volume moves a sample towards zero and never amplifies it. */
  lemma VolumeNeverAmplifies(x: int, v: nat)
    requires v <= 255
    ensures Min(0, x) <= ApplyVolume(x, EncodeVolume(v)) <= Max(0, x)
  {
    var vol := EncodeVolume(v);
    ApplyVolumeIsProduct(x, vol);
    if x >= 0 {
      MulNonnegative(x, vol);
      MulNonnegative(x, 256 - vol);
      assert x * 256 - x * vol == x * (256 - vol);
    } else {
      MulNonnegative(-x, vol);
      MulNonnegative(-x, 256 - vol);
      assert x * vol - x * 256 == (-x) * (256 - vol);
      assert -(x * vol) == (-x) * vol;
    }
  }

  /** `MathUtil::Clamp(x, -32767, 32767)`. */
  function Clamp(x: int): (r: Short)
    ensures -SAMPLE_LIMIT <= r <= SAMPLE_LIMIT
    ensures -SAMPLE_LIMIT <= x <= SAMPLE_LIMIT ==> r == x
    ensures x > SAMPLE_LIMIT ==> r == SAMPLE_LIMIT
    ensures x < -SAMPLE_LIMIT ==> r == -SAMPLE_LIMIT
  {
    if x < -SAMPLE_LIMIT then -SAMPLE_LIMIT else if x > SAMPLE_LIMIT then SAMPLE_LIMIT else x
  }

  // ---------------------------------------------------------------------------
  // The resampling cursor

  /** The read position of a FIFO: `indexR` (a `u32`) and the fraction `m_frac`. */
  datatype Cursor = Cursor(index: nat, frac: nat)

  predicate CursorOk(c: Cursor)
  {
    c.index < TWO32 && c.frac < ONE
  }

  /**
    * One resampler step: `m_frac += ratio; indexR += 2 * (u16)(m_frac >> 16);
    * m_frac &= 0xffff;`, all in `u32` arithmetic.  The `u16` cast keeps the
    * value, since the top half of a `u32` is below `2^16`.
    */
  function Step(c: Cursor, ratio: nat): (r: Cursor)
    requires CursorOk(c) && ratio < TWO32
    ensures CursorOk(r)
  {
    var f := Add32(c.frac, ratio);
    Cursor(Add32(c.index, 2 * (f / ONE)), f % ONE)
  }

  /** The number of frames one step moves the read index forward by. */
  function StepAdvance(c: Cursor, ratio: nat): (a: nat)
    requires CursorOk(c) && ratio < TWO32
    ensures a < ONE
  {
    Add32(c.frac, ratio) / ONE
  }

  /** The cursor after `k` steps. */
  function CursorAfter(c: Cursor, ratio: nat, k: nat): (r: Cursor)
    requires CursorOk(c) && ratio < TWO32
    ensures CursorOk(r)
    decreases k
  {
    if k == 0 then c else CursorAfter(Step(c, ratio), ratio, k - 1)
  }

  /** The sum of the advances of the first `k` steps. */
  function FramesAdvanced(c: Cursor, ratio: nat, k: nat): nat
    requires CursorOk(c) && ratio < TWO32
    decreases k
  {
    if k == 0 then 0 else StepAdvance(c, ratio) + FramesAdvanced(Step(c, ratio), ratio, k - 1)
  }

  /**
    * The resampler does not drift: while `frac + ratio` does not overflow a `u32`,
    * after `k` steps the whole frames advanced and the remaining fraction add up
    * to exactly `k * ratio`.
    */
  lemma {:induction false} ResamplerIsExact(c: Cursor, ratio: nat, k: nat)
    requires CursorOk(c) && ratio <= TWO32 - ONE
    ensures FramesAdvanced(c, ratio, k) * ONE + CursorAfter(c, ratio, k).frac == c.frac + k * ratio
    decreases k
  {
    if k > 0 {
      hide Step, StepAdvance;
      var s := Step(c, ratio);
      ResamplerIsExact(s, ratio, k - 1);
      ExactStep(c, ratio);
      assert FramesAdvanced(c, ratio, k) == StepAdvance(c, ratio) + FramesAdvanced(s, ratio, k - 1);
      assert CursorAfter(c, ratio, k) == CursorAfter(s, ratio, k - 1);
      assert k * ratio == (k - 1) * ratio + ratio;
    }
  }

  /** After `k` steps the read index has moved by twice the frames advanced, modulo `2^32`. */
  lemma {:induction false} ResamplerIndex(c: Cursor, ratio: nat, k: nat)
    requires CursorOk(c) && ratio <= TWO32 - ONE
    ensures CursorAfter(c, ratio, k).index == Wrap32(c.index + 2 * FramesAdvanced(c, ratio, k))
    decreases k
  {
    if k == 0 {
      SmallMod(c.index, TWO32);
    } else {
      hide Step, StepAdvance, Wrap32;
      var s := Step(c, ratio);
      ResamplerIndex(s, ratio, k - 1);
      ExactStep(c, ratio);
      var a := StepAdvance(c, ratio);
      var rest := FramesAdvanced(s, ratio, k - 1);
      assert FramesAdvanced(c, ratio, k) == a + rest;
      assert CursorAfter(c, ratio, k) == CursorAfter(s, ratio, k - 1);
      WrapAdd(c.index + 2 * a, 2 * rest);
      assert c.index + 2 * FramesAdvanced(c, ratio, k) == (c.index + 2 * a) + 2 * rest;
    }
  }

  /** Without `u32` overflow a step turns whole frames of `frac + ratio` into index advance. */
  lemma ExactStep(c: Cursor, ratio: nat)
    requires CursorOk(c) && ratio <= TWO32 - ONE
    ensures StepAdvance(c, ratio) * ONE + Step(c, ratio).frac == c.frac + ratio
    ensures Step(c, ratio).index == Wrap32(c.index + 2 * StepAdvance(c, ratio))
  {
    Add32IsWrap(c.index, 2 * StepAdvance(c, ratio));
  }

  /** Adding to a wrapped value and wrapping again is wrapping once. */
  lemma WrapAdd(x: int, y: int)
    ensures Wrap32(Wrap32(x) + y) == Wrap32(x + y)
  {
    AddMultipleMod(x + y, -(x / TWO32), TWO32);
    assert Wrap32(x) + y == (x + y) + -(x / TWO32) * TWO32;
  }

  /** Advancing the reader by at most the distance shrinks the distance by that much. */
  lemma DistanceAfterAdvance(r: int, w: int, a: nat)
    requires a <= Distance(r, w)
    ensures Distance(Wrap32(r + a), w) == Distance(r, w) - a
  {
    var t := (r + a) / TWO32;
    var s := (w - r) / TWO32;
    assert w - Wrap32(r + a) == (Distance(r, w) - a) + (s + t) * TWO32;
    AddMultipleMod(Distance(r, w) - a, s + t, TWO32);
  }

  // ---------------------------------------------------------------------------
  // What `MixerFifo::Mix` computes

  /**
    * The number of frames `Mix` interpolates: it steps while fewer than
    * `n` frames are done and the ring holds more than two words.
    */
  function FramesMixed(c: Cursor, w: nat, ratio: nat, cap: nat, n: nat): (count: nat)
    requires CursorOk(c) && ratio < TWO32 && cap > 0
    ensures count <= n
    decreases n
  {
    if n == 0 || Fill(c.index, w, cap) <= 2 then 0
    else 1 + FramesMixed(Step(c, ratio), w, ratio, cap, n - 1)
  }

  /** While frames are requested and more than two words are buffered, `Mix` steps once more. */
  lemma FramesMixedStep(c: Cursor, w: nat, ratio: nat, cap: nat, n: nat)
    requires CursorOk(c) && ratio < TWO32 && cap > 0 && n > 0 && Fill(c.index, w, cap) > 2
    ensures FramesMixed(c, w, ratio, cap, n) == 1 + FramesMixed(Step(c, ratio), w, ratio, cap, n - 1)
  {
  }

  /**
    * Every interpolated frame started with more than two words in the ring, and
    * `Mix` stops short of `n` frames only when at most two words are left.
    */
  lemma {:induction false} FramesMixedStopsOnlyWhenDrained(c: Cursor, w: nat, ratio: nat, cap: nat, n: nat)
    requires CursorOk(c) && ratio < TWO32 && cap > 0
    ensures var count := FramesMixed(c, w, ratio, cap, n);
      && (forall k :: 0 <= k < count ==> Fill(CursorAfter(c, ratio, k).index, w, cap) > 2)
      && (count < n ==> Fill(CursorAfter(c, ratio, count).index, w, cap) <= 2)
    decreases n
  {
    if n > 0 && Fill(c.index, w, cap) > 2 {
      var s := Step(c, ratio);
      var count := FramesMixed(c, w, ratio, cap, n);
      FramesMixedStopsOnlyWhenDrained(s, w, ratio, cap, n - 1);
      forall k | 0 <= k < count
        ensures Fill(CursorAfter(c, ratio, k).index, w, cap) > 2
      {
        if k > 0 {
          assert CursorAfter(c, ratio, k) == CursorAfter(s, ratio, k - 1);
        }
      }
      assert CursorAfter(c, ratio, count) == CursorAfter(s, ratio, count - 1);
    }
  }

  /**
    * One stereo frame as `Mix` adds it into the output: `right` goes to the
    * even position (`samples[currentSample]`), `left` to the odd one.
    */
  datatype Frame = Frame(right: int, left: int)

  /**
    * One channel of an interpolated frame before it meets the output: the
    * samples at word indices `current` and `next` interpolated at `frac`, then
    * scaled by the volume (`sampleL` or `sampleR` before `+= samples[...]`).
    */
  function ChannelSample(buf: seq<Word>, current: nat, next: nat, frac: nat, volume: nat): int
    requires |buf| > 0 && frac < ONE
  {
    ApplyVolume(Interpolate(ReadSample(buf[Slot(current, |buf|)]), ReadSample(buf[Slot(next, |buf|)]), frac), volume)
  }

  /**
    * The frame the interpolation loop produces at cursor `c`: the left channel
    * from words `indexR` and `indexR + 2`, the right one from `indexR + 1` and
    * `indexR + 3`, all `u32` sums.
    */
  function ResampledFrame(buf: seq<Word>, c: Cursor, lVolume: nat, rVolume: nat): Frame
    requires |buf| > 0 && CursorOk(c)
  {
    var index2 := Add32(c.index, 2);
    Frame(ChannelSample(buf, Add32(c.index, 1), Add32(index2, 1), c.frac, rVolume),
          ChannelSample(buf, c.index, index2, c.frac, lVolume))
  }

  /**
    * The padding frame of `Mix`: the last frame before the final read index
    * (`s[0]` from word `indexR - 1` at the right volume, `s[1]` from word
    * `indexR - 2` at the left volume), each truncated to `short`.
    */
  function PadFrame(buf: seq<Word>, index: nat, lVolume: nat, rVolume: nat): Frame
    requires |buf| > 0 && index < TWO32
  {
    Frame(ToShort(ApplyVolume(ReadSample(buf[Slot(Sub32(index, 1), |buf|)]), rVolume)),
          ToShort(ApplyVolume(ReadSample(buf[Slot(Sub32(index, 2), |buf|)]), lVolume)))
  }

  /**
    * `frames` added into the output `out` from frame `j` on, as both loops of
    * `Mix` do it: the right value plus the old even sample and the left value
    * plus the old odd sample, each clamped.  `AddFramesAt` and `AddFramesKeeps`
    * state the result position by position.
    */
  function AddFrames(frames: seq<Frame>, out: seq<Short>, j: nat): (r: seq<Short>)
    requires 2 * (j + |frames|) <= |out|
    ensures |r| == |out|
    decreases |frames|
  {
    if frames == [] then out
    else
      var f := frames[0];
      AddFrames(frames[1..], out[2 * j := Clamp(f.right + out[2 * j])][2 * j + 1 := Clamp(f.left + out[2 * j + 1])], j + 1)
  }

  /** Outside frames `j .. j + |frames| - 1` adding frames leaves the output alone. */
  lemma {:induction false} AddFramesKeeps(frames: seq<Frame>, out: seq<Short>, j: nat, i: nat)
    requires 2 * (j + |frames|) <= |out| && i < |out| && (i < 2 * j || 2 * (j + |frames|) <= i)
    ensures AddFrames(frames, out, j)[i] == out[i]
    decreases |frames|
  {
    hide Clamp;
    if frames != [] {
      var f := frames[0];
      AddFramesKeeps(frames[1..], out[2 * j := Clamp(f.right + out[2 * j])][2 * j + 1 := Clamp(f.left + out[2 * j + 1])], j + 1, i);
    }
  }

  /** Output frame `m` is frame `m - j` of `frames` added to the old frame, clamped per channel. */
  lemma {:induction false} AddFramesAt(frames: seq<Frame>, out: seq<Short>, j: nat, m: nat)
    requires 2 * (j + |frames|) <= |out| && j <= m < j + |frames|
    ensures AddFrames(frames, out, j)[2 * m] == Clamp(frames[m - j].right + out[2 * m])
    ensures AddFrames(frames, out, j)[2 * m + 1] == Clamp(frames[m - j].left + out[2 * m + 1])
    decreases |frames|
  {
    hide Clamp;
    var f := frames[0];
    var next := out[2 * j := Clamp(f.right + out[2 * j])][2 * j + 1 := Clamp(f.left + out[2 * j + 1])];
    if m == j {
      AddFramesKeeps(frames[1..], next, j + 1, 2 * j);
      AddFramesKeeps(frames[1..], next, j + 1, 2 * j + 1);
    } else {
      AddFramesAt(frames[1..], next, j + 1, m);
      assert frames[1..][m - (j + 1)] == frames[m - j];
    }
  }

  /** Adding `a` and then `b` right after it is adding `a + b`. */
  lemma {:induction false} AddFramesAppend(a: seq<Frame>, b: seq<Frame>, out: seq<Short>, j: nat)
    requires 2 * (j + |a| + |b|) <= |out|
    ensures AddFrames(b, AddFrames(a, out, j), j + |a|) == AddFrames(a + b, out, j)
    decreases |a|
  {
    hide Clamp;
    if a == [] {
      assert a + b == b;
    } else {
      var f := a[0];
      AddFramesAppend(a[1..], b, out[2 * j := Clamp(f.right + out[2 * j])][2 * j + 1 := Clamp(f.left + out[2 * j + 1])], j + 1);
      assert (a + b)[0] == f && (a + b)[1..] == a[1..] + b;
    }
  }

  /** The frames the interpolation loop produces in `k` passes from cursor `c`. */
  function Resampled(buf: seq<Word>, c: Cursor, ratio: nat, k: nat, lVolume: nat, rVolume: nat): (fs: seq<Frame>)
    requires |buf| > 0 && CursorOk(c) && ratio < TWO32
    ensures |fs| == k
    decreases k
  {
    if k == 0 then [] else [ResampledFrame(buf, c, lVolume, rVolume)] + Resampled(buf, Step(c, ratio), ratio, k - 1, lVolume, rVolume)
  }

  /** Pass `i` interpolates at the cursor after `i` steps. */
  lemma {:induction false} ResampledAt(buf: seq<Word>, c: Cursor, ratio: nat, k: nat, lVolume: nat, rVolume: nat, i: nat)
    requires |buf| > 0 && CursorOk(c) && ratio < TWO32 && i < k
    ensures Resampled(buf, c, ratio, k, lVolume, rVolume)[i] == ResampledFrame(buf, CursorAfter(c, ratio, i), lVolume, rVolume)
    decreases k
  {
    hide ResampledFrame, Step;
    if i > 0 {
      ResampledAt(buf, Step(c, ratio), ratio, k - 1, lVolume, rVolume, i - 1);
      assert CursorAfter(c, ratio, i) == CursorAfter(Step(c, ratio), ratio, i - 1);
    }
  }

  /** `k` copies of the frame `f`. */
  function Repeat(f: Frame, k: nat): (fs: seq<Frame>)
    ensures |fs| == k && forall i :: 0 <= i < k ==> fs[i] == f
  {
    if k == 0 then [] else [f] + Repeat(f, k - 1)
  }

  /**
    * All `n` frames `Mix` adds into the output from cursor `c` with write index
    * `w`: the frames interpolated while the ring lasts, then copies of the
    * padding frame read at the final cursor.
    */
  function MixedFrames(buf: seq<Word>, c: Cursor, w: nat, ratio: nat, n: nat, lVolume: nat, rVolume: nat): (fs: seq<Frame>)
    requires |buf| > 0 && CursorOk(c) && ratio < TWO32
    ensures |fs| == n
  {
    var count := FramesMixed(c, w, ratio, |buf|, n);
    Resampled(buf, c, ratio, count, lVolume, rVolume)
      + Repeat(PadFrame(buf, CursorAfter(c, ratio, count).index, lVolume, rVolume), n - count)
  }

  /**
    * Frame `m < n` of what `Mix` adds: while the ring lasted, the frame
    * interpolated at the cursor after `m` steps; after that, the padding frame.
    */
  lemma MixedFramesAt(buf: seq<Word>, c: Cursor, w: nat, ratio: nat, n: nat, lVolume: nat, rVolume: nat, m: nat)
    requires |buf| > 0 && CursorOk(c) && ratio < TWO32 && m < n
    ensures var count := FramesMixed(c, w, ratio, |buf|, n);
      MixedFrames(buf, c, w, ratio, n, lVolume, rVolume)[m]
      == if m < count then ResampledFrame(buf, CursorAfter(c, ratio, m), lVolume, rVolume)
         else PadFrame(buf, CursorAfter(c, ratio, count).index, lVolume, rVolume)
  {
    hide ResampledFrame, PadFrame, Step, Fill;
    var count := FramesMixed(c, w, ratio, |buf|, n);
    if m < count {
      ResampledAt(buf, c, ratio, count, lVolume, rVolume, m);
    }
  }

  /**
    * Where `Mix`'s interpolation loop ends up from the state it has at frame
    * `frame`, with cursor `c`, output `out` and `todo` frames still requested:
    * the final frame count, cursor and output.  Each pass of the loop keeps
    * this unchanged (`MixLoopStep`); when the loop stops it is the state itself
    * (`MixLoopEnd`).
    */
  ghost function MixLoopResult(buf: seq<Word>, c: Cursor, w: nat, ratio: nat, todo: nat,
                               lVolume: nat, rVolume: nat, out: seq<Short>, frame: nat): (r: (nat, Cursor, seq<Short>))
    requires |buf| > 0 && CursorOk(c) && ratio < TWO32 && 2 * (frame + todo) <= |out|
    ensures frame <= r.0 <= frame + todo && CursorOk(r.1) && |r.2| == |out|
  {
    var k := FramesMixed(c, w, ratio, |buf|, todo);
    (frame + k, CursorAfter(c, ratio, k), AddFrames(Resampled(buf, c, ratio, k, lVolume, rVolume), out, frame))
  }

  /** One pass of the interpolation loop keeps where the loop ends up. */
  lemma MixLoopStep(buf: seq<Word>, c: Cursor, w: nat, ratio: nat, n: nat,
                    lVolume: nat, rVolume: nat, out: seq<Short>, next: seq<Short>, frame: nat)
    requires |buf| > 0 && CursorOk(c) && ratio < TWO32 && 2 * n <= |out|
    requires frame < n && Fill(c.index, w, |buf|) > 2
    requires var f := ResampledFrame(buf, c, lVolume, rVolume);
      next == out[2 * frame := Clamp(f.right + out[2 * frame])][2 * frame + 1 := Clamp(f.left + out[2 * frame + 1])]
    ensures MixLoopResult(buf, Step(c, ratio), w, ratio, n - (frame + 1), lVolume, rVolume, next, frame + 1)
         == MixLoopResult(buf, c, w, ratio, n - frame, lVolume, rVolume, out, frame)
  {
    hide ResampledFrame, PadFrame, Step, Fill;
    var s := Step(c, ratio);
    FramesMixedStep(c, w, ratio, |buf|, n - frame);
    assert n - (frame + 1) == (n - frame) - 1;
    var k := FramesMixed(s, w, ratio, |buf|, n - (frame + 1));
    assert Resampled(buf, c, ratio, k + 1, lVolume, rVolume)[1..] == Resampled(buf, s, ratio, k, lVolume, rVolume);
  }

  /** When the interpolation loop stops, where it ends up is where it is. */
  lemma MixLoopEnd(buf: seq<Word>, c: Cursor, w: nat, ratio: nat, n: nat,
                   lVolume: nat, rVolume: nat, out: seq<Short>, frame: nat)
    requires |buf| > 0 && CursorOk(c) && ratio < TWO32 && 2 * n <= |out|
    requires frame <= n && !(frame < n && Fill(c.index, w, |buf|) > 2)
    ensures MixLoopResult(buf, c, w, ratio, n - frame, lVolume, rVolume, out, frame) == (frame, c, out)
  {
    hide ResampledFrame, PadFrame, Step;
  }

  /** One pass of the padding loop keeps the padded result. */
  lemma PadLoopStep(f: Frame, out: seq<Short>, n: nat, frame: nat)
    requires frame < n && 2 * n <= |out|
    ensures AddFrames(Repeat(f, n - (frame + 1)),
                      out[2 * frame := Clamp(f.right + out[2 * frame])][2 * frame + 1 := Clamp(f.left + out[2 * frame + 1])],
                      frame + 1)
         == AddFrames(Repeat(f, n - frame), out, frame)
  {
    assert Repeat(f, n - frame)[1..] == Repeat(f, n - (frame + 1));
  }

  /** `Mix`'s output is the padding loop run over the interpolation loop's output. */
  lemma MixedFramesSplit(buf: seq<Word>, c: Cursor, w: nat, ratio: nat, n: nat, lVolume: nat, rVolume: nat,
                         prev: seq<Short>, count: nat, last: Cursor, mixed: seq<Short>, padded: seq<Short>)
    requires |buf| > 0 && CursorOk(c) && ratio < TWO32 && 2 * n <= |prev|
    requires count == FramesMixed(c, w, ratio, |buf|, n) && last == CursorAfter(c, ratio, count)
    requires mixed == AddFrames(Resampled(buf, c, ratio, count, lVolume, rVolume), prev, 0)
    requires padded == AddFrames(Repeat(PadFrame(buf, last.index, lVolume, rVolume), n - count), mixed, count)
    ensures padded == AddFrames(MixedFrames(buf, c, w, ratio, n, lVolume, rVolume), prev, 0)
  {
    hide ResampledFrame, PadFrame, Step, Fill;
    AddFramesAppend(Resampled(buf, c, ratio, count, lVolume, rVolume),
                    Repeat(PadFrame(buf, last.index, lVolume, rVolume), n - count), prev, 0);
  }

  /**
    * Frame `m` of `Mix`'s output, for `m` below the number of frames the ring
    * lasted: the frame interpolated at the cursor after `m` steps, added to the
    * old frame and clamped.
    */
  lemma MixResultMixedFrame(buf: seq<Word>, c: Cursor, w: nat, ratio: nat, n: nat,
                            lVolume: nat, rVolume: nat, prev: seq<Short>, m: nat)
    requires |buf| > 0 && CursorOk(c) && ratio < TWO32 && 2 * n <= |prev|
    requires m < FramesMixed(c, w, ratio, |buf|, n)
    ensures var r := AddFrames(MixedFrames(buf, c, w, ratio, n, lVolume, rVolume), prev, 0);
      var f := ResampledFrame(buf, CursorAfter(c, ratio, m), lVolume, rVolume);
      r[2 * m] == Clamp(f.right + prev[2 * m]) && r[2 * m + 1] == Clamp(f.left + prev[2 * m + 1])
  {
    hide *;
    var fs := MixedFrames(buf, c, w, ratio, n, lVolume, rVolume);
    MixedFramesAt(buf, c, w, ratio, n, lVolume, rVolume, m);
    assert fs[m] == ResampledFrame(buf, CursorAfter(c, ratio, m), lVolume, rVolume);
    AddFramesAt(fs, prev, 0, m);
    assert m - 0 == m;
  }

  /**
    * Frame `m < n` of `Mix`'s output once the ring has run dry: the padding
    * frame read at the final cursor, added to the old frame and clamped.
    */
  lemma MixResultPaddedFrame(buf: seq<Word>, c: Cursor, w: nat, ratio: nat, n: nat,
                             lVolume: nat, rVolume: nat, prev: seq<Short>, m: nat)
    requires |buf| > 0 && CursorOk(c) && ratio < TWO32 && 2 * n <= |prev|
    requires FramesMixed(c, w, ratio, |buf|, n) <= m < n
    ensures var r := AddFrames(MixedFrames(buf, c, w, ratio, n, lVolume, rVolume), prev, 0);
      var f := PadFrame(buf, CursorAfter(c, ratio, FramesMixed(c, w, ratio, |buf|, n)).index, lVolume, rVolume);
      r[2 * m] == Clamp(f.right + prev[2 * m]) && r[2 * m + 1] == Clamp(f.left + prev[2 * m + 1])
  {
    hide ResampledFrame, PadFrame, Step, Fill, Clamp, MixedFrames, AddFrames, FramesMixed, CursorAfter, Resampled, Repeat;
    var fs := MixedFrames(buf, c, w, ratio, n, lVolume, rVolume);
    MixedFramesAt(buf, c, w, ratio, n, lVolume, rVolume, m);
    assert fs[m] == PadFrame(buf, CursorAfter(c, ratio, FramesMixed(c, w, ratio, |buf|, n)).index, lVolume, rVolume);
    AddFramesAt(fs, prev, 0, m);
    assert m - 0 == m;
  }

  /** `Mix` leaves the output past its `n` frames alone. */
  lemma MixResultKeeps(buf: seq<Word>, c: Cursor, w: nat, ratio: nat, n: nat,
                       lVolume: nat, rVolume: nat, prev: seq<Short>, i: nat)
    requires |buf| > 0 && CursorOk(c) && ratio < TWO32 && 2 * n <= |prev| && 2 * n <= i < |prev|
    ensures AddFrames(MixedFrames(buf, c, w, ratio, n, lVolume, rVolume), prev, 0)[i] == prev[i]
  {
    hide *;
    AddFramesKeeps(MixedFrames(buf, c, w, ratio, n, lVolume, rVolume), prev, 0, i);
  }

  /** Every sample `Mix` writes is clamped to `[-32767, 32767]`. */
  lemma MixResultClamped(buf: seq<Word>, c: Cursor, w: nat, ratio: nat, n: nat,
                         lVolume: nat, rVolume: nat, prev: seq<Short>, i: nat)
    requires |buf| > 0 && CursorOk(c) && ratio < TWO32 && 2 * n <= |prev| && i < 2 * n
    ensures -SAMPLE_LIMIT <= AddFrames(MixedFrames(buf, c, w, ratio, n, lVolume, rVolume), prev, 0)[i] <= SAMPLE_LIMIT
  {
    hide *;
    AddFramesAt(MixedFrames(buf, c, w, ratio, n, lVolume, rVolume), prev, 0, i / 2);
    assert i == 2 * (i / 2) || i == 2 * (i / 2) + 1;
  }

  /**
    * At unit ratio (input and output rates equal) every step moves exactly one
    * frame and keeps the fraction.
    */
  lemma UnitStep(c: Cursor)
    requires CursorOk(c)
    ensures Step(c, ONE) == Cursor(Wrap32(c.index + 2), c.frac)
  {
    assert (c.frac + ONE) / ONE == 1;
    Add32IsWrap(c.index, 2);
  }

  /**
    * At unit ratio, on a ring that has not overrun and holds whole frames, `Mix`
    * interpolates `min(n, frames - 1)` frames: it always keeps one frame back.
    */
  lemma {:induction false} UnitRatioKeepsOneFrame(c: Cursor, w: nat, cap: nat, n: nat)
    requires CursorOk(c) && w < TWO32 && cap > 0 && TWO32 % cap == 0
    requires Distance(c.index, w) < cap && Distance(c.index, w) % 2 == 0
    ensures FramesMixed(c, w, ONE, cap, n) == Min(n, Max(0, Distance(c.index, w) / 2 - 1))
    decreases n
  {
    hide Step, Distance, Wrap32;
    var d := Distance(c.index, w);
    SmallMod(d, cap);
    var h := d / 2;
    assert d == 2 * h;
    if n > 0 && d > 2 {
      UnitStep(c);
      var s := Step(c, ONE);
      DistanceAfterAdvance(c.index, w, 2);
      assert Distance(s.index, w) == 2 * (h - 1);
      assert (2 * (h - 1)) / 2 == h - 1 && (2 * (h - 1)) % 2 == 0;
      UnitRatioKeepsOneFrame(s, w, cap, n - 1);
    }
  }

  /**
    * With a ratio of at most 2.0 a step never moves the read index past the
    * write index: when more than two words (two frames) are buffered, the
    * distance shrinks by exactly the words consumed.
    */
  lemma StepStaysBehindWriter(c: Cursor, w: nat, ratio: nat, cap: nat)
    requires CursorOk(c) && w < TWO32 && cap > 0 && TWO32 % cap == 0
    requires ratio <= 2 * ONE
    requires Distance(c.index, w) < cap && Distance(c.index, w) % 2 == 0 && Fill(c.index, w, cap) > 2
    ensures StepAdvance(c, ratio) <= 2
    ensures Distance(Step(c, ratio).index, w) == Distance(c.index, w) - 2 * StepAdvance(c, ratio)
  {
    var a := StepAdvance(c, ratio);
    ExactStep(c, ratio);
    SmallMod(Distance(c.index, w), cap);
    DistanceAfterAdvance(c.index, w, 2 * a);
  }

  /**
    * With a ratio of at most 2.0, however many frames `Mix` interpolates, the
    * read index ends behind the write index by whole frames, so the FIFO stays
    * consistent.
    */
  lemma {:induction false} MixKeepsReaderBehind(c: Cursor, w: nat, ratio: nat, cap: nat, n: nat)
    requires CursorOk(c) && w < TWO32 && cap > 0 && TWO32 % cap == 0
    requires ratio <= 2 * ONE
    requires Distance(c.index, w) < cap && Distance(c.index, w) % 2 == 0
    ensures var e := CursorAfter(c, ratio, FramesMixed(c, w, ratio, cap, n));
      Distance(e.index, w) < cap && Distance(e.index, w) % 2 == 0
    decreases n
  {
    if n > 0 && Fill(c.index, w, cap) > 2 {
      var s := Step(c, ratio);
      StepStaysBehindWriter(c, w, ratio, cap);
      MixKeepsReaderBehind(s, w, ratio, cap, n - 1);
      var k := FramesMixed(s, w, ratio, cap, n - 1);
      assert FramesMixed(c, w, ratio, cap, n) == 1 + k;
      assert CursorAfter(c, ratio, 1 + k) == CursorAfter(s, ratio, k);
    }
  }

  /**
    * With a ratio of 3.0 and two frames buffered, one step jumps the read index
    * two words past the write index; the masked fill then wraps to almost the
    * whole ring and the next step would interpolate stale words.
    */
  lemma FastRatioOvertakesWriter()
    ensures Fill(0, 4, 8) == 4
    ensures Step(Cursor(0, 0), 3 * ONE) == Cursor(6, 0)
    ensures Fill(6, 4, 8) == 6
  {
  }

  // ---------------------------------------------------------------------------
  // Ring contents

  /** The words between read index `r` and write index `w`, oldest first. */
  function RingContents(buf: seq<Word>, r: nat, w: nat): (s: seq<Word>)
    requires |buf| > 0
    ensures |s| == Fill(r, w, |buf|)
  {
    seq(Fill(r, w, |buf|), i requires 0 <= i < Fill(r, w, |buf|) => buf[(r + i) % |buf|])
  }

  /** `buf` with `data` written circularly from slot `pos` on. */
  function RingWrite(buf: seq<Word>, pos: nat, data: seq<Word>): (r: seq<Word>)
    requires |buf| > 0 && |data| <= |buf|
    ensures |r| == |buf|
  {
    seq(|buf|, p requires 0 <= p < |buf| =>
      if (p - pos) % |buf| < |data| then data[(p - pos) % |buf|] else buf[p])
  }

  /** Each word written by `RingWrite` lands `k` slots after the start, wrapping to slot 0. */
  lemma RingWriteAt(buf: seq<Word>, pos: nat, data: seq<Word>, k: nat)
    requires |buf| > 0 && |data| <= |buf| && k < |data|
    ensures RingWrite(buf, pos, data)[(pos + k) % |buf|] == data[k]
  {
    var cap := |buf|;
    var p := (pos + k) % cap;
    assert p % cap == (pos + k) % cap;
    SmallMod(p, cap);
    CongruentAdd(p, pos + k, -(pos as int), cap);
    SmallMod(k, cap);
  }

  /** A slot that is `off` places before the write start, with `off` beyond the written span, keeps its word. */
  lemma RingWriteKeeps(buf: seq<Word>, pos: nat, data: seq<Word>, q: int)
    requires |buf| > 0 && |data| <= |buf|
    requires 0 < q && q + |data| <= |buf|
    ensures RingWrite(buf, pos, data)[(pos - q) % |buf|] == buf[(pos - q) % |buf|]
  {
    if |data| > 0 {
      OffsetBefore(pos, q, |buf|);
    }
  }

  /** A slot `q` places before `pos` (with `q` below the modulus) lies `m - q` places after it. */
  lemma OffsetBefore(pos: int, q: int, m: int)
    requires 0 < q < m
    ensures ((pos - q) % m - pos) % m == m - q
  {
    var p := (pos - q) % m;
    SmallMod(p, m);
    CongruentAdd(p, pos - q, -pos, m);
    AddMultipleMod(-q, 1, m);
    SmallMod(m - q, m);
  }

  /** Moving the writer forward by `n` words without overrunning grows the distance by `n`. */
  lemma DistanceAfterWrite(r: int, w: int, n: nat)
    requires Distance(r, w) + n < TWO32
    ensures Distance(r, Wrap32(w + n)) == Distance(r, w) + n
  {
    WrapAdd(w + n, -r);
    WrapAdd(w - r, n);
    SmallMod(Distance(r, w) + n, TWO32);
  }

  /** Slot `i` of the contents after a ring write: an old word before the old fill, a new one after. */
  lemma RingAppendAt(buf: seq<Word>, r: nat, w: nat, data: seq<Word>, i: nat)
    requires |buf| > 0 && TWO32 % |buf| == 0
    requires Distance(r, w) + |data| < |buf|
    requires i < Distance(r, w) + |data|
    ensures RingWrite(buf, w % |buf|, data)[(r + i) % |buf|]
            == if i < Distance(r, w) then buf[(r + i) % |buf|] else data[i - Distance(r, w)]
  {
    var cap, d, pos := |buf|, Distance(r, w), w % |buf|;
    ReaderPlusDistance(r, w, cap);
    SmallMod(pos, cap);
    if i < d {
      CongruentAdd(r + d, pos, -(d - i), cap);
      RingWriteKeeps(buf, pos, data, d - i);
    } else {
      CongruentAdd(r + d, pos, i - d, cap);
      RingWriteAt(buf, pos, data, i - d);
    }
  }

  /** Writing `data` circularly at the writer and moving the writer past it appends `data` to the contents. */
  lemma RingAppend(buf: seq<Word>, r: nat, w: nat, data: seq<Word>)
    requires |buf| > 0 && TWO32 % |buf| == 0
    requires Distance(r, w) + |data| < |buf|
    ensures Distance(r, Wrap32(w + |data|)) == Distance(r, w) + |data|
    ensures RingContents(RingWrite(buf, w % |buf|, data), r, Wrap32(w + |data|)) == RingContents(buf, r, w) + data
  {
    var cap, d := |buf|, Distance(r, w);
    DistanceAfterWrite(r, w, |data|);
    SmallMod(d, cap);
    SmallMod(d + |data|, cap);
    var after := RingContents(RingWrite(buf, w % cap, data), r, Wrap32(w + |data|));
    var expected := RingContents(buf, r, w) + data;
    assert |after| == |expected|;
    forall i | 0 <= i < |after|
      ensures after[i] == expected[i]
    {
      RingAppendAt(buf, r, w, data, i);
    }
  }

  /**
    * Appending whole frames that fit keeps the reader behind the writer by
    * fewer words than the ring holds and by whole frames, and the buffered
    * words grow by exactly the appended ones.
    */
  lemma AppendKeepsConsistent(buf: seq<Word>, r: nat, w: nat, data: seq<Word>)
    requires |buf| > 0 && TWO32 % |buf| == 0 && r < TWO32 && w < TWO32
    requires Distance(r, w) < |buf| && Distance(r, w) % 2 == 0 && |data| % 2 == 0
    requires |data| + Fill(r, w, |buf|) < |buf|
    ensures Distance(r, Wrap32(w + |data|)) < |buf| && Distance(r, Wrap32(w + |data|)) % 2 == 0
    ensures RingContents(RingWrite(buf, w % |buf|, data), r, Wrap32(w + |data|)) == RingContents(buf, r, w) + data
  {
    var d := Distance(r, w);
    SmallMod(d, |buf|);
    RingAppend(buf, r, w, data);
    AddMultipleMod(d, |data| / 2, 2);
    assert d + |data| == d + (|data| / 2) * 2;
  }

  /** `RingWrite` slot by slot: the part up to the end of the ring, then the part wrapped to slot 0. */
  lemma RingWriteSplit(buf: seq<Word>, pos: nat, data: seq<Word>, p: nat)
    requires |buf| > 0 && |data| <= |buf| && pos < |buf| && p < |buf|
    ensures RingWrite(buf, pos, data)[p]
            == if p >= pos && p - pos < |data| then data[p - pos]
               else if p < pos && p - pos + |buf| < |data| then data[p - pos + |buf|]
               else buf[p]
  {
    RingOffset(p, pos, |buf|);
  }

  /** The slot offset of `p` from `pos` in a ring of `cap` slots. */
  lemma RingOffset(p: int, pos: int, cap: int)
    requires 0 <= p < cap && 0 <= pos < cap
    ensures (p - pos) % cap == if p >= pos then p - pos else p - pos + cap
  {
    if p >= pos {
      SmallMod(p - pos, cap);
    } else {
      AddMultipleMod(p - pos, 1, cap);
      SmallMod(p - pos + cap, cap);
    }
  }

  /** `memset(samples, 0, len * sizeof(short))` on a copy of the buffer. */
  function Silenced(prev: seq<Short>, len: nat): (r: seq<Short>)
    requires len <= |prev|
    ensures |r| == |prev|
    ensures forall i :: 0 <= i < len ==> r[i] == 0
    ensures forall i :: len <= i < |r| ==> r[i] == prev[i]
  {
    seq(|prev|, i requires 0 <= i < |prev| => if i < len then 0 else prev[i])
  }

  /**
    * The stereo words `PushWiimoteSpeakerSamples` builds from mono samples: each
    * sample byte-swapped and duplicated into both channels.
    */
  function StereoFromMono(mono: seq<Short>): (r: seq<Word>)
    ensures |r| == 2 * |mono|
  {
    seq(2 * |mono|, i requires 0 <= i < 2 * |mono| => Swap16(AsWord(mono[i / 2])))
  }

  /** Mixing reads back each Wii Remote speaker sample unchanged, once per channel. */
  lemma StereoFromMonoReadsBack(mono: seq<Short>, i: nat)
    requires i < 2 * |mono|
    ensures ReadSample(StereoFromMono(mono)[i]) == mono[i / 2]
  {
    Swap16Involutive(AsWord(mono[i / 2]));
  }

  // ---------------------------------------------------------------------------
  // The FIFO object

  /** `Mixer::MixerFifo`: one input stream of the mixer. */
  class MixerFifo {
    /** `MAX_SAMPLES`: the ring holds `2 * maxSamples` words. */
    const maxSamples: nat
    /** `m_buffer`: `INDEX_MASK + 1 == 2 * MAX_SAMPLES` words. */
    const buffer: array<Word>
    /** `m_mixer->m_sampleRate`: the output rate of the owning mixer. */
    const mixerSampleRate: nat
    /** `m_indexR`, `m_indexW`: free-running `u32` word indices. */
    var indexR: nat
    var indexW: nat
    /** `m_frac`: the 16.16 fraction of the read position. */
    var frac: nat
    /** `m_LVolume`, `m_RVolume`: encoded volumes, 256 is unity. */
    var lVolume: nat
    var rVolume: nat
    /** `m_input_sample_rate`. */
    var inputSampleRate: nat

    ghost predicate Valid()
      reads this
    {
      && buffer.Length == 2 * maxSamples
      && IsPowerOfTwo(buffer.Length) && buffer.Length <= TWO32 && TWO32 % buffer.Length == 0
      && indexR < TWO32 && indexW < TWO32 && frac < ONE
    }

    /**
      * The reader is behind the writer by fewer words than the ring holds and by
      * whole frames, so the masked fill is the true number of buffered words.
      */
    ghost predicate Consistent()
      reads this
      requires Valid()
    {
      Distance(indexR, indexW) < buffer.Length && Distance(indexR, indexW) % 2 == 0
    }

    /** The buffered words, oldest first. */
    ghost function Contents(): seq<Word>
      reads this, buffer
      requires Valid()
    {
      RingContents(buffer[..], indexR, indexW)
    }

    /** An empty FIFO at unity volume (`Mixer.h` holds the real initialisers and is not part of this model). */
    constructor(maxSamples: nat, mixerSampleRate: nat, inputSampleRate: nat)
      requires IsPowerOfTwo(2 * maxSamples) && 2 * maxSamples <= TWO32
      ensures Valid() && Consistent() && Contents() == []
      ensures this.maxSamples == maxSamples && this.mixerSampleRate == mixerSampleRate
      ensures this.inputSampleRate == inputSampleRate && frac == 0
      ensures lVolume == EncodeVolume(255) && rVolume == EncodeVolume(255)
      ensures fresh(buffer)
    {
      hide IsPowerOfTwo, EncodeVolume;
      RingDividesTwo32(2 * maxSamples);
      this.maxSamples := maxSamples;
      this.mixerSampleRate := mixerSampleRate;
      this.inputSampleRate := inputSampleRate;
      buffer := new Word[2 * maxSamples];
      indexR, indexW, frac := 0, 0, 0;
      lVolume, rVolume := EncodeVolume(255), EncodeVolume(255);
    }

    /**
      * `PushSamples`: append `numSamples` stereo frames (`2 * numSamples` words)
      * unless they would fill the ring, copying across the wrap point.
      */
    method PushSamples(samples: seq<Word>, numSamples: nat)
      requires Valid() && |samples| == 2 * numSamples
      modifies this`indexW, buffer
      ensures Valid()
      ensures var accepted := 2 * numSamples + Fill(indexR, old(indexW), buffer.Length) < buffer.Length;
        if accepted then
          indexW == Wrap32(old(indexW) + 2 * numSamples)
          && buffer[..] == RingWrite(old(buffer[..]), old(indexW) % buffer.Length, samples)
        else
          indexW == old(indexW) && buffer[..] == old(buffer[..])
      ensures var accepted := 2 * numSamples + Fill(indexR, old(indexW), buffer.Length) < buffer.Length;
        old(Consistent()) ==> Consistent() && Contents() == old(Contents()) + (if accepted then samples else [])
    {
      hide Fill, Distance, RingWrite, RingContents;
      var w := indexW;
      var cap := buffer.Length;
      if 2 * numSamples + Fill(indexR, w, cap) >= maxSamples * 2 {
        return;
      }
      ghost var before := buffer[..];
      var pos := w % cap;
      CopyToRing(buffer, pos, samples, numSamples);
      indexW := Wrap32(w + 2 * numSamples);
      if old(Consistent()) {
        AppendKeepsConsistent(before, indexR, w, samples);
      }
    }

    /**
      * The copy of `PushSamples`: the words that fit before the end of the ring
      * from slot `pos` on, then the rest (`over_bytes` of them) from slot 0.
      */
    static method CopyToRing(buffer: array<Word>, pos: nat, samples: seq<Word>, numSamples: nat)
      requires |samples| == 2 * numSamples && |samples| < buffer.Length && pos < buffer.Length
      modifies buffer
      ensures buffer[..] == RingWrite(old(buffer[..]), pos, samples)
    {
      ghost var before := buffer[..];
      var cap := buffer.Length;
      var overBytes := numSamples * 4 - (cap - pos) * 2;
      if overBytes > 0 {
        var head := (numSamples * 4 - overBytes) / 2;
        forall k | 0 <= k < head {
          buffer[pos + k] := samples[k];
        }
        forall k | 0 <= k < overBytes / 2 {
          buffer[k] := samples[head + k];
        }
      } else {
        forall k | 0 <= k < 2 * numSamples {
          buffer[pos + k] := samples[k];
        }
      }
      forall p | 0 <= p < cap
        ensures buffer[p] == RingWrite(before, pos, samples)[p]
      {
        RingWriteSplit(before, pos, samples, p);
      }
    }

    /**
      * `Mix`: add up to `numSamples` resampled frames into `samples`, then pad
      * the rest of the `numSamples` frames with the last frame; the result is the
      * number of interpolated frames.  `ratio` is the 16.16 step the source
      * computes in floating point before the loop.
      */
    method Mix(samples: array<Short>, numSamples: nat, ratio: nat) returns (count: nat)
      requires Valid() && 2 * numSamples <= samples.Length && ratio < TWO32
      modifies this`indexR, this`frac, samples
      ensures Valid()
      ensures count == FramesMixed(old(Cursor(indexR, frac)), indexW, ratio, buffer.Length, numSamples)
      ensures Cursor(indexR, frac) == CursorAfter(old(Cursor(indexR, frac)), ratio, count)
      ensures samples[..] == AddFrames(MixedFrames(buffer[..], old(Cursor(indexR, frac)), indexW, ratio, numSamples,
                                                   lVolume, rVolume), old(samples[..]), 0)
      ensures old(Consistent()) && ratio <= 2 * ONE ==> Consistent()
    {
      hide ResampledFrame, PadFrame, Step, Fill;
      if Consistent() && ratio <= 2 * ONE {
        MixKeepsReaderBehind(Cursor(indexR, frac), indexW, ratio, buffer.Length, numSamples);
      }
      ghost var c0, prev := Cursor(indexR, frac), samples[..];
      var buf := buffer[..];
      var last;
      count, last := MixFrames(buf, Cursor(indexR, frac), indexW, lVolume, rVolume, samples, numSamples, ratio);
      ghost var mixed := samples[..];
      var pad := PadFrame(buf, last.index, lVolume, rVolume);
      PadFrames(samples, count, numSamples, pad);
      indexR, frac := last.index, last.frac;
      MixedFramesSplit(buf, c0, indexW, ratio, numSamples, lVolume, rVolume, prev, count, last, mixed, samples[..]);
      assert buffer[..] == buf;
    }

    /**
      * The interpolation loop of `Mix` over the ring words `buf` with write index
      * `w`: from cursor `c0`, mix frames into `samples` while fewer than
      * `numSamples` are done and more than two words are buffered; the result is
      * the frame count and the cursor reached, which `Mix` stores.
      */
    static method MixFrames(buf: seq<Word>, c0: Cursor, w: nat, lvolume: nat, rvolume: nat,
                            samples: array<Short>, numSamples: nat, ratio: nat) returns (count: nat, last: Cursor)
      requires |buf| > 0 && CursorOk(c0) && 2 * numSamples <= samples.Length && ratio < TWO32
      modifies samples
      ensures count == FramesMixed(c0, w, ratio, |buf|, numSamples)
      ensures CursorOk(last) && last == CursorAfter(c0, ratio, count)
      ensures samples[..] == AddFrames(Resampled(buf, c0, ratio, count, lvolume, rvolume), old(samples[..]), 0)
    {
      hide ResampledFrame, PadFrame, Step, Fill;
      ghost var prev := samples[..];
      var frame: nat := 0;
      var c := c0;
      while frame < numSamples && Fill(c.index, w, |buf|) > 2
        invariant frame <= numSamples && CursorOk(c) && samples.Length == |prev|
        invariant MixLoopResult(buf, c, w, ratio, numSamples - frame, lvolume, rvolume, samples[..], frame)
               == MixLoopResult(buf, c0, w, ratio, numSamples, lvolume, rvolume, prev, 0)
      {
        MixPass(buf, c, w, lvolume, rvolume, samples, numSamples, frame, ratio);
        c := Step(c, ratio);
        frame := frame + 1;
      }
      MixLoopEnd(buf, c, w, ratio, numSamples, lvolume, rvolume, samples[..], frame);
      count := frame;
      last := c;
    }

    /**
      * One pass of the interpolation loop: the frame resampled at cursor `c` is
      * added into output frame `frame`, left sample first; where the loop ends up
      * stays the same.
      */
    static method MixPass(buf: seq<Word>, c: Cursor, w: nat, lvolume: nat, rvolume: nat,
                          samples: array<Short>, numSamples: nat, frame: nat, ratio: nat)
      requires |buf| > 0 && CursorOk(c) && 2 * numSamples <= samples.Length && ratio < TWO32
      requires frame < numSamples && Fill(c.index, w, |buf|) > 2
      modifies samples
      ensures var f := ResampledFrame(buf, c, lvolume, rvolume);
        samples[..] == old(samples[..])[2 * frame := Clamp(f.right + old(samples[2 * frame]))]
                                       [2 * frame + 1 := Clamp(f.left + old(samples[2 * frame + 1]))]
      ensures MixLoopResult(buf, Step(c, ratio), w, ratio, numSamples - (frame + 1), lvolume, rvolume, samples[..], frame + 1)
           == MixLoopResult(buf, c, w, ratio, numSamples - frame, lvolume, rvolume, old(samples[..]), frame)
    {
      hide ResampledFrame, PadFrame, Step, Fill;
      ghost var out := samples[..];
      var currentSample := 2 * frame;
      var f := ResampledFrame(buf, c, lvolume, rvolume);
      var sampleL := Clamp(f.left + samples[currentSample + 1]);
      samples[currentSample + 1] := sampleL;
      var sampleR := Clamp(f.right + samples[currentSample]);
      samples[currentSample] := sampleR;
      assert samples[..] == out[2 * frame := sampleR][2 * frame + 1 := sampleL];
      MixLoopStep(buf, c, w, ratio, numSamples, lvolume, rvolume, out, samples[..], frame);
    }

    /**
      * The padding loop of `Mix`: every frame from `first` up to `numSamples`
      * gets the padding frame added, clamped per channel.
      */
    static method PadFrames(samples: array<Short>, first: nat, numSamples: nat, pad: Frame)
      requires first <= numSamples && 2 * numSamples <= samples.Length
      modifies samples
      ensures samples[..] == AddFrames(Repeat(pad, numSamples - first), old(samples[..]), first)
    {
      ghost var prev := samples[..];
      var frame := first;
      while frame < numSamples
        invariant first <= frame <= numSamples
        invariant AddFrames(Repeat(pad, numSamples - frame), samples[..], frame)
               == AddFrames(Repeat(pad, numSamples - first), prev, first)
      {
        ghost var out := samples[..];
        PadLoopStep(pad, out, numSamples, frame);
        var currentSample := 2 * frame;
        var sampleR := Clamp(pad.right + samples[currentSample]);
        var sampleL := Clamp(pad.left + samples[currentSample + 1]);
        samples[currentSample] := sampleR;
        samples[currentSample + 1] := sampleL;
        assert samples[..] == out[2 * frame := sampleR][2 * frame + 1 := sampleL];
        frame := frame + 1;
      }
    }

    /** `SetVolume`: store both 8-bit volumes in their encoded form. */
    method SetVolume(lvolume: nat, rvolume: nat)
      requires Valid()
      modifies this`lVolume, this`rVolume
      ensures Valid()
      ensures lVolume == EncodeVolume(lvolume) && rVolume == EncodeVolume(rvolume)
    {
      lVolume := lvolume + lvolume / 128;
      rVolume := rvolume + rvolume / 128;
    }

    /** `SetInputSampleRate`. */
    method SetInputSampleRate(rate: nat)
      requires Valid()
      modifies this`inputSampleRate
      ensures Valid() && inputSampleRate == rate
    {
      inputSampleRate := rate;
    }

    /** The number of buffered stereo frames: `((indexW - indexR) & INDEX_MASK) / 2`. */
    function Frames(): nat
      reads this
      requires Valid()
    {
      Fill(indexR, indexW, buffer.Length) / 2
    }

    /**
      * `AvailableSamples`: how many output frames the buffered input yields at the
      * mixer's rate, keeping one input frame back; the largest count whose input
      * need fits in the buffered frames minus one.
      */
    function AvailableSamples(): (r: nat)
      reads this
      requires Valid() && inputSampleRate > 0
      ensures Frames() <= 1 ==> r == 0
      ensures Frames() > 1 ==> r * inputSampleRate <= (Frames() - 1) * mixerSampleRate < (r + 1) * inputSampleRate
    {
      var samplesInFifo := Fill(indexR, indexW, buffer.Length) / 2;
      if samplesInFifo <= 1 then 0
      else FramesAtRate(samplesInFifo - 1, mixerSampleRate, inputSampleRate)
    }

    /**
      * When the input runs at the mixer's rate, `Mix` at unit ratio interpolates
      * exactly as many frames as `AvailableSamples` reports (capped by the
      * request), which is the buffered frames minus the one it keeps back.
      */
    lemma MixDeliversAvailableSamples(numSamples: nat)
      requires Valid() && Consistent() && inputSampleRate > 0 && inputSampleRate == mixerSampleRate
      ensures FramesMixed(Cursor(indexR, frac), indexW, ONE, buffer.Length, numSamples) == Min(numSamples, AvailableSamples())
      ensures AvailableSamples() == Max(0, Frames() - 1)
    {
      UnitRatioKeepsOneFrame(Cursor(indexR, frac), indexW, buffer.Length, numSamples);
      SmallMod(Distance(indexR, indexW), buffer.Length);
      var f := Frames();
      if f > 1 {
        assert (f - 1) * mixerSampleRate / inputSampleRate == f - 1 by {
          DivModUnique((f - 1) * mixerSampleRate, inputSampleRate, f - 1, 0);
        }
      }
    }
  }

  /**
    * The buffer `MixDMA`, `MixStreaming` and `MixWiiMote` hand back: the first
    * `n` frames of `prev` silenced, then the FIFO's `n` frames mixed into them.
    */
  function MixedIntoSilence(buf: seq<Word>, c: Cursor, w: nat, ratio: nat, n: nat,
                            lVolume: nat, rVolume: nat, prev: seq<Short>): (r: seq<Short>)
    requires |buf| > 0 && CursorOk(c) && ratio < TWO32 && 2 * n <= |prev|
    ensures |r| == |prev|
  {
    AddFrames(MixedFrames(buf, c, w, ratio, n, lVolume, rVolume), Silenced(prev, 2 * n), 0)
  }

  /**
    * Into a silenced buffer each mixed frame lands clamped on its own: frame
    * `m < n` is the FIFO's frame `m` clamped per channel, and the rest of the
    * buffer is left alone.
    */
  lemma MixedIntoSilenceAt(buf: seq<Word>, c: Cursor, w: nat, ratio: nat, n: nat,
                           lVolume: nat, rVolume: nat, prev: seq<Short>, m: nat)
    requires |buf| > 0 && CursorOk(c) && ratio < TWO32 && 2 * n <= |prev| && m < n
    ensures var f := MixedFrames(buf, c, w, ratio, n, lVolume, rVolume)[m];
      var r := MixedIntoSilence(buf, c, w, ratio, n, lVolume, rVolume, prev);
      r[2 * m] == Clamp(f.right) && r[2 * m + 1] == Clamp(f.left)
  {
    hide ResampledFrame, PadFrame, Step, Fill, MixedFrames, AddFrames, Clamp;
    var fs := MixedFrames(buf, c, w, ratio, n, lVolume, rVolume);
    AddFramesAt(fs, Silenced(prev, 2 * n), 0, m);
    assert m - 0 == m;
    assert fs[m].right + 0 == fs[m].right && fs[m].left + 0 == fs[m].left;
  }

  /** Mixing into a silenced buffer leaves everything past the `n` frames alone. */
  lemma MixedIntoSilenceKeeps(buf: seq<Word>, c: Cursor, w: nat, ratio: nat, n: nat,
                              lVolume: nat, rVolume: nat, prev: seq<Short>, i: nat)
    requires |buf| > 0 && CursorOk(c) && ratio < TWO32 && 2 * n <= i < |prev|
    ensures MixedIntoSilence(buf, c, w, ratio, n, lVolume, rVolume, prev)[i] == prev[i]
  {
    hide ResampledFrame, PadFrame, Step, Fill, MixedFrames, AddFrames, Clamp;
    AddFramesKeeps(MixedFrames(buf, c, w, ratio, n, lVolume, rVolume), Silenced(prev, 2 * n), 0, i);
  }

  // ---------------------------------------------------------------------------
  // The mixer object

  /**
    * `Mixer`: the output rate of the sound backend and the three input FIFOs,
    * DSP DMA audio, disc streaming audio and the Wii Remote speaker.
    */
  class Mixer {
    /** `m_sampleRate`. */
    const sampleRate: nat
    /** `m_dma_mixer`, `m_streaming_mixer`, `m_wiimote_speaker_mixer`. */
    const dma: MixerFifo
    const streaming: MixerFifo
    const wiimote: MixerFifo

    ghost predicate Valid()
      reads this, dma, streaming, wiimote
    {
      && dma != streaming && dma != wiimote && streaming != wiimote
      && dma.buffer != streaming.buffer && dma.buffer != wiimote.buffer && streaming.buffer != wiimote.buffer
      && dma.Valid() && streaming.Valid() && wiimote.Valid()
      && dma.mixerSampleRate == sampleRate && streaming.mixerSampleRate == sampleRate
      && wiimote.mixerSampleRate == sampleRate
    }

    /**
      * A mixer at the backend rate with three empty FIFOs of `maxSamples` frames
      * each (the FIFO sizes and their initial input rates live in `Mixer.h`,
      * which is not part of this model).
      */
    constructor(backendSampleRate: nat, maxSamples: nat, dmaRate: nat, streamingRate: nat, wiimoteRate: nat)
      requires IsPowerOfTwo(2 * maxSamples) && 2 * maxSamples <= TWO32
      ensures Valid() && sampleRate == backendSampleRate
      ensures dma.Consistent() && dma.Contents() == [] && dma.inputSampleRate == dmaRate
      ensures streaming.Consistent() && streaming.Contents() == [] && streaming.inputSampleRate == streamingRate
      ensures wiimote.Consistent() && wiimote.Contents() == [] && wiimote.inputSampleRate == wiimoteRate
    {
      sampleRate := backendSampleRate;
      dma := new MixerFifo(maxSamples, backendSampleRate, dmaRate);
      streaming := new MixerFifo(maxSamples, backendSampleRate, streamingRate);
      wiimote := new MixerFifo(maxSamples, backendSampleRate, wiimoteRate);
    }

    /**
      * The common body of `MixDMA`, `MixStreaming` and `MixWiiMote`: nothing for
      * a null buffer, otherwise silence the first `numSamples` frames, mix the
      * FIFO into them and report `numSamples`, however many frames the FIFO
      * actually had.
      */
    static method MixOne(fifo: MixerFifo, samples: array?<Short>, numSamples: nat, ratio: nat) returns (r: nat)
      requires fifo.Valid() && ratio < TWO32
      requires samples != null ==> 2 * numSamples <= samples.Length
      modifies fifo`indexR, fifo`frac, samples
      ensures fifo.Valid()
      ensures samples == null ==> r == 0 && fifo.indexR == old(fifo.indexR) && fifo.frac == old(fifo.frac)
      ensures samples != null ==> r == numSamples
      ensures samples != null ==>
        && Cursor(fifo.indexR, fifo.frac) == CursorAfter(old(Cursor(fifo.indexR, fifo.frac)), ratio,
             FramesMixed(old(Cursor(fifo.indexR, fifo.frac)), fifo.indexW, ratio, fifo.buffer.Length, numSamples))
        && samples[..] == MixedIntoSilence(fifo.buffer[..], old(Cursor(fifo.indexR, fifo.frac)), fifo.indexW, ratio,
                                           numSamples, fifo.lVolume, fifo.rVolume, old(samples[..]))
    {
      if samples == null {
        return 0;
      }
      forall i | 0 <= i < 2 * numSamples {
        samples[i] := 0;
      }
      assert samples[..] == Silenced(old(samples[..]), 2 * numSamples);
      var _ := fifo.Mix(samples, numSamples, ratio);
      r := numSamples;
    }

    /** `MixDMA`: mix the DSP DMA FIFO into a silenced buffer. */
    method MixDMA(samples: array?<Short>, numSamples: nat, ratio: nat) returns (r: nat)
      requires Valid() && ratio < TWO32
      requires samples != null ==> 2 * numSamples <= samples.Length
      modifies dma`indexR, dma`frac, samples
      ensures Valid()
      ensures r == if samples == null then 0 else numSamples
      ensures samples == null ==> dma.indexR == old(dma.indexR) && dma.frac == old(dma.frac)
      ensures samples != null ==>
        Cursor(dma.indexR, dma.frac) == CursorAfter(old(Cursor(dma.indexR, dma.frac)), ratio,
          FramesMixed(old(Cursor(dma.indexR, dma.frac)), dma.indexW, ratio, dma.buffer.Length, numSamples))
      ensures samples != null ==>
        samples[..] == MixedIntoSilence(dma.buffer[..], old(Cursor(dma.indexR, dma.frac)), dma.indexW, ratio,
                                        numSamples, dma.lVolume, dma.rVolume, old(samples[..]))
    {
      r := MixOne(dma, samples, numSamples, ratio);
    }

    /** `MixStreaming`: mix the streaming FIFO into a silenced buffer. */
    method MixStreaming(samples: array?<Short>, numSamples: nat, ratio: nat) returns (r: nat)
      requires Valid() && ratio < TWO32
      requires samples != null ==> 2 * numSamples <= samples.Length
      modifies streaming`indexR, streaming`frac, samples
      ensures Valid()
      ensures r == if samples == null then 0 else numSamples
      ensures samples == null ==> streaming.indexR == old(streaming.indexR) && streaming.frac == old(streaming.frac)
      ensures samples != null ==>
        Cursor(streaming.indexR, streaming.frac) == CursorAfter(old(Cursor(streaming.indexR, streaming.frac)), ratio,
          FramesMixed(old(Cursor(streaming.indexR, streaming.frac)), streaming.indexW, ratio, streaming.buffer.Length, numSamples))
      ensures samples != null ==>
        samples[..] == MixedIntoSilence(streaming.buffer[..], old(Cursor(streaming.indexR, streaming.frac)),
                                        streaming.indexW, ratio, numSamples, streaming.lVolume, streaming.rVolume,
                                        old(samples[..]))
    {
      r := MixOne(streaming, samples, numSamples, ratio);
    }

    /** `MixWiiMote`: mix the Wii Remote speaker FIFO into a silenced buffer. */
    method MixWiiMote(samples: array?<Short>, numSamples: nat, ratio: nat) returns (r: nat)
      requires Valid() && ratio < TWO32
      requires samples != null ==> 2 * numSamples <= samples.Length
      modifies wiimote`indexR, wiimote`frac, samples
      ensures Valid()
      ensures r == if samples == null then 0 else numSamples
      ensures samples == null ==> wiimote.indexR == old(wiimote.indexR) && wiimote.frac == old(wiimote.frac)
      ensures samples != null ==>
        Cursor(wiimote.indexR, wiimote.frac) == CursorAfter(old(Cursor(wiimote.indexR, wiimote.frac)), ratio,
          FramesMixed(old(Cursor(wiimote.indexR, wiimote.frac)), wiimote.indexW, ratio, wiimote.buffer.Length, numSamples))
      ensures samples != null ==>
        samples[..] == MixedIntoSilence(wiimote.buffer[..], old(Cursor(wiimote.indexR, wiimote.frac)),
                                        wiimote.indexW, ratio, numSamples, wiimote.lVolume, wiimote.rVolume,
                                        old(samples[..]))
    {
      r := MixOne(wiimote, samples, numSamples, ratio);
    }

    /**
      * `PushWiimoteSpeakerSamples`: for fewer than `MAX_SAMPLES` mono samples,
      * set the speaker FIFO's input rate and push each sample, byte-swapped, into
      * both channels; longer blocks are dropped.
      */
    method PushWiimoteSpeakerSamples(samples: seq<Short>, numSamples: nat, rate: nat)
      requires Valid() && |samples| == numSamples
      modifies wiimote`inputSampleRate, wiimote`indexW, wiimote.buffer
      ensures Valid()
      ensures numSamples >= wiimote.maxSamples ==>
        wiimote.inputSampleRate == old(wiimote.inputSampleRate) && wiimote.indexW == old(wiimote.indexW)
        && wiimote.buffer[..] == old(wiimote.buffer[..])
      ensures numSamples < wiimote.maxSamples ==> wiimote.inputSampleRate == rate
      ensures var accepted := numSamples < wiimote.maxSamples
                && 2 * numSamples + Fill(wiimote.indexR, old(wiimote.indexW), wiimote.buffer.Length) < wiimote.buffer.Length;
        old(wiimote.Consistent()) ==>
          wiimote.Consistent() && wiimote.Contents() == old(wiimote.Contents()) + (if accepted then StereoFromMono(samples) else [])
    {
      hide Fill, Distance, RingWrite, RingContents, StereoFromMono;
      if numSamples < wiimote.maxSamples {
        wiimote.SetInputSampleRate(rate);
        var stereo := StereoBuffer(samples);
        wiimote.PushSamples(stereo[..], numSamples);
      }
    }

    /** The `samples_stereo` loop: each mono sample byte-swapped into both channels of its frame. */
    static method StereoBuffer(samples: seq<Short>) returns (stereo: array<Word>)
      ensures fresh(stereo) && stereo[..] == StereoFromMono(samples)
    {
      stereo := new Word[2 * |samples|];
      var i := 0;
      while i < |samples|
        invariant i <= |samples|
        invariant forall j :: 0 <= j < 2 * i ==> stereo[j] == Swap16(AsWord(samples[j / 2]))
      {
        stereo[i * 2] := Swap16(AsWord(samples[i]));
        stereo[i * 2 + 1] := Swap16(AsWord(samples[i]));
        i := i + 1;
      }
    }
  }
}
