/**
  * The block-aligned 5.1 FIFO of `AudioCommon::SurroundDecoder`: requests for
  * any number of output frames are served from a queue of decoded six-channel
  * samples, topped up one 512-frame decoder block at a time, with every decoded
  * frame reordered from the decoder's channel layout to the backends' layout.
  *
  * The decoder (FreeSurround fed from `Mixer::Mix`) is an oracle here: the
  * `j`-th block it produces during one call is `decode(j)`.  Samples are only
  * moved, never computed, so they are modelled as `real`.
  */
module Surround {

  /** `SURROUND_FRAMES_PER_CALL`: frames per decoder block. */
  const BLOCK_FRAMES: nat := 512
  /** `SURROUND_CHANNELS`. */
  const CHANNELS: nat := 6
  /** Samples per decoder block. */
  const BLOCK_SAMPLES: nat := 3072
  /** The capacity of `m_decoded_fifo` (`FixedSizeQueue<float, 32768>`). */
  const CAPACITY: nat := 32768

  type Sample = real

  /** One block as the decoder returns it: 512 frames of six channels, FreeSurround order. */
  type Block = b: seq<Sample> | |b| == BLOCK_SAMPLES witness seq(3072, _ => 0.0)

  // ---------------------------------------------------------------------------
  // Channel order

  /**
    * Position `c` of a pushed frame takes decoder channel `REMAP[c]`: the decoder
    * emits FL | FC | FR | BL | BR | LFE, the backends expect FL | FR | FC | LFE | BL | BR.
    */
  const REMAP: seq<nat> := [0, 2, 1, 5, 3, 4]
  /** The inverse order: decoder channel `c` lands at position `UNMAP[c]`. */
  const UNMAP: seq<nat> := [0, 2, 1, 4, 5, 3]

  /** One decoded frame in the order the six `push` calls store it. */
  function RemapFrame(f: seq<Sample>): (r: seq<Sample>)
    requires |f| == CHANNELS
    ensures |r| == CHANNELS
  {
    [f[0], f[2], f[1], f[5], f[3], f[4]]
  }

  /** A backend-ordered frame put back into the decoder's order. */
  function UnmapFrame(f: seq<Sample>): (r: seq<Sample>)
    requires |f| == CHANNELS
    ensures |r| == CHANNELS
  {
    [f[0], f[2], f[1], f[4], f[5], f[3]]
  }

  /** The six pushes follow `REMAP`, and putting a frame back follows `UNMAP`. */
  lemma RemapFrameFollowsTable(f: seq<Sample>, c: nat)
    requires |f| == CHANNELS && c < CHANNELS
    ensures REMAP[c] < CHANNELS && RemapFrame(f)[c] == f[REMAP[c]]
    ensures UNMAP[c] < CHANNELS && UnmapFrame(f)[c] == f[UNMAP[c]]
  {
  }

  /** The channel order is a bijection on the six positions: each table undoes the other. */
  lemma RemapIsBijection(c: nat)
    requires c < CHANNELS
    ensures REMAP[c] < CHANNELS && UNMAP[REMAP[c]] == c
    ensures UNMAP[c] < CHANNELS && REMAP[UNMAP[c]] == c
  {
  }

  /** Reordering a frame loses and duplicates nothing: the inverse order recovers it. */
  lemma RemapFrameRoundTrip(f: seq<Sample>)
    requires |f| == CHANNELS
    ensures UnmapFrame(RemapFrame(f)) == f && RemapFrame(UnmapFrame(f)) == f
  {
    assert f == [f[0], f[1], f[2], f[3], f[4], f[5]];
  }

  /** A run of whole decoded frames, each reordered; the last frame is reordered last. */
  function Remapped(block: seq<Sample>): (r: seq<Sample>)
    requires |block| % CHANNELS == 0
    ensures |r| == |block|
    decreases |block|
  {
    if |block| == 0 then []
    else Remapped(block[..|block| - CHANNELS]) + RemapFrame(block[|block| - CHANNELS..])
  }

  /** Channel `c` of frame `i` of a reordered run is channel `REMAP[c]` of decoded frame `i`. */
  lemma {:induction false} RemappedAt(block: seq<Sample>, i: nat, c: nat)
    requires |block| % CHANNELS == 0 && CHANNELS * i < |block| && c < CHANNELS
    ensures REMAP[c] < CHANNELS && Remapped(block)[CHANNELS * i + c] == block[CHANNELS * i + REMAP[c]]
    decreases |block|
  {
    hide RemapFrame;
    var n := |block| - CHANNELS;
    var m := n / CHANNELS;
    LastFrameStart(|block|);
    assert Remapped(block) == Remapped(block[..n]) + RemapFrame(block[n..]);
    RemapFrameFollowsTable(block[n..], c);
    if i < m {
      RemappedAt(block[..n], i, c);
      assert CHANNELS * i + REMAP[c] < n;
    } else {
      assert CHANNELS * i == n;
    }
  }

  /** Reordering one more frame of a run appends that frame, reordered. */
  lemma RemappedSnoc(block: seq<Sample>, i: nat)
    requires CHANNELS * (i + 1) <= |block|
    ensures Remapped(block[..(i + 1) * CHANNELS])
         == Remapped(block[..i * CHANNELS]) + RemapFrame(block[i * CHANNELS..i * CHANNELS + CHANNELS])
  {
    hide RemapFrame;
    var p := block[..(i + 1) * CHANNELS];
    assert p[..|p| - CHANNELS] == block[..i * CHANNELS];
    assert p[|p| - CHANNELS..] == block[i * CHANNELS..i * CHANNELS + CHANNELS];
  }

  /** In a run of whole frames the last frame starts at a multiple of six. */
  lemma LastFrameStart(len: nat)
    requires len % CHANNELS == 0 && len > 0
    ensures (len - CHANNELS) % CHANNELS == 0 && len - CHANNELS == CHANNELS * ((len - CHANNELS) / CHANNELS)
  {
    assert len == CHANNELS * (len / CHANNELS);
    assert len - CHANNELS == CHANNELS * (len / CHANNELS - 1);
  }

  // ---------------------------------------------------------------------------
  // How many blocks a request needs

  /** `ceil(frames / 512)`: the number of decoder blocks that cover `frames` frames. */
  function BlocksFor(frames: nat): (blocks: nat)
    ensures blocks * BLOCK_FRAMES >= frames
    ensures blocks > 0 ==> (blocks - 1) * BLOCK_FRAMES < frames
  {
    (frames + BLOCK_FRAMES - 1) / BLOCK_FRAMES
  }

  /**
    * The number of decoder requests for `numOut` frames when the queue holds
    * `size` samples: none when it already holds `numOut * 6`, otherwise enough
    * blocks for the frames the queue's whole frames do not cover.
    */
  function Requests(numOut: nat, size: nat): nat
  {
    if size >= numOut * CHANNELS then 0 else BlocksFor(numOut - size / CHANNELS)
  }

  /** No block is decoded exactly when the queue already holds `numOut` frames. */
  lemma NoRequestsIffQueued(numOut: nat, size: nat)
    ensures Requests(numOut, size) == 0 <==> size >= numOut * CHANNELS
  {
    if size < numOut * CHANNELS {
      assert size / CHANNELS < numOut;
    }
  }

  /** After the requested blocks the queue holds at least `numOut` frames. */
  lemma RequestsSuffice(numOut: nat, size: nat)
    ensures size + Requests(numOut, size) * BLOCK_SAMPLES >= numOut * CHANNELS
  {
    if size < numOut * CHANNELS {
      var blocks := BlocksFor(numOut - size / CHANNELS);
      assert size >= (size / CHANNELS) * CHANNELS;
      assert blocks * BLOCK_SAMPLES == blocks * BLOCK_FRAMES * CHANNELS;
    }
  }

  /**
    * The requests are the fewest that suffice: on a queue of whole frames one
    * block fewer would leave it short, so after serving the request fewer than
    * 512 frames remain whenever a block was decoded.
    */
  lemma RequestsMinimal(numOut: nat, size: nat)
    requires size % CHANNELS == 0 && Requests(numOut, size) > 0
    ensures size + (Requests(numOut, size) - 1) * BLOCK_SAMPLES < numOut * CHANNELS
    ensures size + Requests(numOut, size) * BLOCK_SAMPLES - numOut * CHANNELS < BLOCK_SAMPLES
  {
    var blocks := Requests(numOut, size);
    assert size == (size / CHANNELS) * CHANNELS;
    assert (blocks - 1) * BLOCK_SAMPLES == (blocks - 1) * BLOCK_FRAMES * CHANNELS;
  }

  /** The samples of the first `n` decoder blocks of a call, each reordered, in order. */
  function Decoded(decode: nat -> Block, n: nat): (r: seq<Sample>)
    ensures |r| == n * BLOCK_SAMPLES
  {
    if n == 0 then [] else Decoded(decode, n - 1) + Remapped(decode(n - 1))
  }

  /**
    * Sample `j * 3072 + k` of the decoded run is sample `k` of block `j` after
    * reordering.
    */
  lemma {:induction false} DecodedAt(decode: nat -> Block, n: nat, j: nat, k: nat)
    requires j < n && k < BLOCK_SAMPLES
    ensures Decoded(decode, n)[j * BLOCK_SAMPLES + k] == Remapped(decode(j))[k]
  {
    if j < n - 1 {
      DecodedAt(decode, n - 1, j, k);
    }
  }

  // ---------------------------------------------------------------------------
  // The decoder object

  /** `AudioCommon::SurroundDecoder`: the queue of decoded, reordered samples. */
  class SurroundDecoder {
    /** `m_sample_rate`. */
    const sampleRate: nat
    /** `m_decoded_fifo`, front first. */
    var decodedFifo: seq<Sample>

    /** The queue holds whole frames and fits its fixed capacity. */
    ghost predicate Valid()
      reads this
    {
      |decodedFifo| % CHANNELS == 0 && |decodedFifo| <= CAPACITY
    }

    constructor(sampleRate: nat)
      ensures Valid() && decodedFifo == [] && this.sampleRate == sampleRate
    {
      this.sampleRate := sampleRate;
      decodedFifo := [];
    }

    /** `Clear`: drop every queued sample (the decoder flush is not modelled). */
    method Clear()
      modifies this
      ensures Valid() && decodedFifo == []
    {
      decodedFifo := [];
    }

    /**
      * `GetDecodedSamples`: write `numOut` frames into `out` in queue order,
      * first decoding as many blocks as the queue lacks; the result is the
      * number of decoder requests made.  The queue's fixed capacity must hold
      * what is pushed.
      */
    method GetDecodedSamples(out: array<Sample>, numOut: nat, decode: nat -> Block) returns (requests: nat)
      requires Valid() && numOut * CHANNELS <= out.Length
      requires |decodedFifo| + Requests(numOut, |decodedFifo|) * BLOCK_SAMPLES <= CAPACITY
      modifies this, out
      ensures Valid()
      ensures requests == Requests(numOut, old(|decodedFifo|))
      ensures var all := old(decodedFifo) + Decoded(decode, requests);
        && numOut * CHANNELS <= |all|
        && out[..numOut * CHANNELS] == all[..numOut * CHANNELS]
        && out[numOut * CHANNELS..] == old(out[numOut * CHANNELS..])
        && decodedFifo == all[numOut * CHANNELS..]
    {
      ghost var queued := decodedFifo;
      requests := RequestCount(numOut, |decodedFifo|);
      DecodeBlocks(requests, decode);
      RequestsSuffice(numOut, |queued|);
      ghost var all := decodedFifo;
      assert |all| == |queued| + CHANNELS * (BLOCK_FRAMES * requests);
      PopInto(out, numOut * CHANNELS);
      assert |decodedFifo| == |queued| + CHANNELS * (BLOCK_FRAMES * requests - numOut);
    }

    /** The decode loop: `requests` blocks from the decoder, each reordered onto the queue. */
    method DecodeBlocks(requests: nat, decode: nat -> Block)
      modifies this
      ensures decodedFifo == old(decodedFifo) + Decoded(decode, requests)
    {
      hide Remapped;
      var pending: nat := requests;
      while pending > 0
        invariant pending <= requests
        invariant decodedFifo == old(decodedFifo) + Decoded(decode, requests - pending)
      {
        PushRemapped(decode(requests - pending));
        pending := pending - 1;
      }
    }

    /** The copy loop: pop `count` samples from the front of the queue into `out`. */
    method PopInto(out: array<Sample>, count: nat)
      requires count <= out.Length && count <= |decodedFifo|
      modifies this, out
      ensures out[..count] == old(decodedFifo)[..count] && out[count..] == old(out[count..])
      ensures decodedFifo == old(decodedFifo)[count..]
    {
      var i := 0;
      while i < count
        invariant i <= count && decodedFifo == old(decodedFifo)[i..]
        invariant out[..i] == old(decodedFifo)[..i] && out[count..] == old(out[count..])
      {
        out[i] := decodedFifo[0];
        decodedFifo := decodedFifo[1..];
        i := i + 1;
      }
    }

    /**
      * The counting loop of `GetDecodedSamples`: one request per 512 frames the
      * queue's whole frames fall short of `numOut`, rounding up.
      */
    static method RequestCount(numOut: nat, size: nat) returns (requests: nat)
      ensures requests == Requests(numOut, size)
    {
      requests := 0;
      if size < numOut * CHANNELS {
        var missing := numOut - size / CHANNELS;
        var remaining: int := missing;
        while remaining > 0
          invariant remaining == missing - requests * BLOCK_FRAMES
          invariant requests <= BlocksFor(missing)
        {
          requests := requests + 1;
          remaining := remaining - BLOCK_FRAMES;
        }
      }
    }

    /** The push loop for one block: its 512 frames, each reordered, onto the queue. */
    method PushRemapped(block: Block)
      modifies this
      ensures decodedFifo == old(decodedFifo) + Remapped(block)
    {
      hide Remapped;
      var i := 0;
      while i < BLOCK_FRAMES
        invariant i <= BLOCK_FRAMES
        invariant decodedFifo == old(decodedFifo) + Remapped(block[..i * CHANNELS])
      {
        var f := i * CHANNELS;
        decodedFifo := decodedFifo + [block[f + 0], block[f + 2], block[f + 1], block[f + 5], block[f + 3], block[f + 4]];
        assert [block[f + 0], block[f + 2], block[f + 1], block[f + 5], block[f + 3], block[f + 4]]
            == RemapFrame(block[f..f + CHANNELS]);
        RemappedSnoc(block, i);
        i := i + 1;
      }
      assert block[..BLOCK_FRAMES * CHANNELS] == block;
    }
  }
}
