/** Block sizes and block counts of the FreeBSD channel buffers (sys/alsa/alsa_pcm_bsd.c). */
module BlockGeometry {
  import opened Options
  import opened RingMath

  const DMA_BUFSIZE := 256 * 1024

  /** A sample format: channels, and bytes per sample. */
  datatype Format = Format(channels: nat, bytes: nat)
  {
    /** Bytes of a frame; formats the bridge does not know count as 16-bit stereo. */
    function FrameSize(): (n: nat)
      ensures n > 0
    {
      var c := if channels == 0 then 2 else channels;
      if bytes == 4 then 4 * c else 2 * c
    }
  }

  /** The block lengths the double-buffering hardware knows. */
  predicate PowerLength(f: nat) { f in {64, 128, 256, 512, 1024, 2048, 4096, 8192} }

  /** f is the least such length for a wish, after it was brought into range. */
  ghost predicate RoundedUp(f: nat, wish: nat) {
    PowerLength(f) && (f >= wish || f == 8192) && (f == 64 || f / 2 < wish)
  }

  /** f is the wish rounded up, or if that does not fit the greatest length that does. */
  ghost predicate BestFit(f: nat, wish: nat, max: nat) {
    PowerLength(f) && f <= max && (RoundedUp(f, wish) || (2 * f > max && f < wish))
  }

  lemma FitsByDivision(a: nat, frame: nat, room: nat)
    requires 0 < frame
    ensures a <= room / frame <==> a * frame <= room
  {
    var q := room / frame;
    assert q * frame <= room < (q + 1) * frame;
    if a <= q { MulMono(frame, a, q); } else { MulMono(frame, q + 1, a); }
  }

  method RoundUp(wish: nat) returns (f: nat)
    ensures RoundedUp(f, wish)
  {
    var frames := wish;
    if frames < 64 { frames := 64; }
    if frames > 8192 { frames := 8192; }
    f := 64;
    while f < frames
      invariant PowerLength(f) && (f == 64 || f / 2 < frames)
      decreases 8192 - f
    {
      f := 2 * f;
    }
  }

  method CapDown(f: nat, max: nat, ghost wish: nat) returns (r: nat)
    requires RoundedUp(f, wish) && 64 <= max
    ensures BestFit(r, wish, max)
  {
    r := f;
    while r > max
      invariant PowerLength(r)
      invariant RoundedUp(r, wish) || (2 * r > max && r < wish)
    {
      r := r / 2;
    }
  }

  /** What a channel's buffer looks like after a resize; too big a one is refused. */
  datatype Buffer = Buffer(blkcnt: nat, blksz: nat, bufsize: nat)

  function Resized(b: Buffer, blkcnt: nat, blksz: nat): Buffer {
    if blkcnt * blksz <= DMA_BUFSIZE then Buffer(blkcnt, blksz, blkcnt * blksz) else b
  }

  class Channel {
    const hdsp: bool
    var format: Format
    var ossFormat: Option<Format>
    var blocksize: nat
    var periodBytes: nat
    var buffer: Buffer
    var dmaBytes: nat

    constructor (hdsp: bool, format: Format)
      ensures this.hdsp == hdsp && this.format == format && ossFormat == None && buffer.bufsize == DMA_BUFSIZE
    {
      this.hdsp, this.format, ossFormat := hdsp, format, None;
      blocksize, periodBytes, dmaBytes := 0, 0, 0;
      buffer := Buffer(2, DMA_BUFSIZE / 2, DMA_BUFSIZE);
    }

    /** The number of frames of a block for a wish. */
    method Frames(wish: nat, frame: nat) returns (frames: nat)
      requires 0 < frame
      ensures hdsp ==> BestFit(frames, wish, MaxFrames(frame))
      ensures !hdsp ==> frames == if wish < 64 then 64 else wish
    {
      FitsByDivision(64, frame, DMA_BUFSIZE / 2);
      frames := wish;
      if hdsp {
        frames := RoundUp(wish);
        var maxFrames := DMA_BUFSIZE / 2 / frame;
        if maxFrames < 64 { maxFrames := 64; }
        frames := CapDown(frames, maxFrames, wish);
      } else {
        if frames < 64 { frames := 64; }
      }
    }

    method BlockBytes(wish: nat, frame: nat) returns (blksz: nat, ghost frames: nat)
      requires 0 < frame
      ensures 0 < blksz == frames * frame && Chosen(hdsp, wish, frame, frames)
    {
      var n := Frames(wish / frame, frame);
      frames := n;
      MulMono(frame, 64, n);
      blksz := n * frame;
    }

    /**
      Sets the block size to a whole number of frames of the current format, and resizes the buffer to
      two such blocks or to as many as fit. The new size takes effect in the buffer exactly if there is
      room for two blocks of the wish.
     */
    method SetBlockSize(wish: nat) returns (blksz: nat, ghost frames: nat)
      modifies this
      ensures format == (if old(ossFormat).Some? then old(ossFormat).value else old(format))
      ensures blksz == blocksize == periodBytes == frames * format.FrameSize()
      ensures Chosen(hdsp, wish, format.FrameSize(), frames)
      ensures buffer == Resized(old(buffer), BlockCount(hdsp, blksz), blksz) && dmaBytes == buffer.bufsize
      ensures old(buffer).blksz != blksz ==> (buffer.blksz == blksz <==> Room(hdsp, wish, format.FrameSize()))
      ensures Room(hdsp, wish, format.FrameSize()) ==>
                && buffer.blksz == blksz && buffer.bufsize == buffer.blkcnt * blksz <= DMA_BUFSIZE && 2 <= buffer.blkcnt
                && if hdsp then buffer.blkcnt == 2 else DMA_BUFSIZE < (buffer.blkcnt + 1) * blksz
    {
      if ossFormat.Some? {
        format := ossFormat.value;
      }
      var frame := format.FrameSize();
      blksz, frames := BlockBytes(wish, frame);
      blocksize := blksz;
      periodBytes := blksz;
      TakesEffect(buffer, hdsp, wish, frame, frames, blksz);
      if Room(hdsp, wish, frame) { FillsBuffer(buffer, hdsp, wish, frame, frames, blksz); }
      ResizeBuffer(blksz);
    }

    /** Divides the buffer into blocks of a size. */
    method ResizeBuffer(blksz: nat)
      requires 0 < blksz
      modifies `buffer, `dmaBytes
      ensures buffer == Resized(old(buffer), BlockCount(hdsp, blksz), blksz) && dmaBytes == buffer.bufsize
    {
      var blkcnt := 2;
      if !hdsp {
        blkcnt := DMA_BUFSIZE / blksz;
        if blkcnt < 2 { blkcnt := 2; }
      }
      buffer := Resized(buffer, blkcnt, blksz);
      dmaBytes := buffer.bufsize;
    }
  }

  function MaxFrames(frame: nat): nat
    requires 0 < frame
  {
    if frame <= 2048 then DMA_BUFSIZE / 2 / frame else 64
  }

  /** The block length in frames for a wish in bytes. */
  ghost predicate Chosen(hdsp: bool, wish: nat, frame: nat, frames: nat)
    requires 0 < frame
  {
    && (hdsp ==> BestFit(frames, wish / frame, MaxFrames(frame)))
    && (!hdsp ==> frames == if wish / frame < 64 then 64 else wish / frame)
  }

  function BlockCount(hdsp: bool, blksz: nat): nat
    requires 0 < blksz
  {
    if hdsp || DMA_BUFSIZE / blksz < 2 then 2 else DMA_BUFSIZE / blksz
  }

  /** Two blocks of the double-buffering hardware fit exactly if a frame is at most 2048 bytes. */
  lemma HdspFits(wish: nat, frame: nat, frames: nat)
    requires 0 < frame && Chosen(true, wish, frame, frames)
    ensures PowerLength(frames) && (2 * (frames * frame) <= DMA_BUFSIZE <==> frame <= 2048)
  {
    if frame <= 2048 {
      FitsByDivision(frames, frame, DMA_BUFSIZE / 2);
    } else {
      MulMono(frame, 64, frames);
    }
  }

  /** Bytes of some frames. */
  ghost function Bytes(frames: nat, frame: nat): nat { frames * frame }

  /**
    Such a block is the wish rounded up, unless two of that do not fit: then it is less than was wished for, and two
    blocks of twice its length do not fit.
   */
  lemma HdspIsBest(wish: nat, frame: nat, frames: nat)
    requires 0 < frame <= 2048 && Chosen(true, wish, frame, frames)
    ensures RoundedUp(frames, wish / frame) || (frames < wish / frame && 2 * Bytes(2 * frames, frame) > DMA_BUFSIZE)
  {
    FitsByDivision(2 * frames, frame, DMA_BUFSIZE / 2);
  }

  /** Other blocks are the wish rounded down to whole frames, but at least 64 of them. */
  lemma OthersFit(wish: nat, frame: nat, frames: nat)
    requires 0 < frame && Chosen(false, wish, frame, frames)
    ensures 64 * frame <= frames * frame && wish < frames * frame + frame
    ensures frames * frame <= wish || frames == 64
  {
    var q := wish / frame;
    assert q * frame <= wish < q * frame + frame;
    MulMono(frame, 64, frames);
    MulMono(frame, q, frames);
  }

  /** Counting blocks by division leaves no room for another one. */
  lemma AsManyAsFit(blksz: nat)
    requires 0 < blksz <= DMA_BUFSIZE / 2
    ensures 2 <= DMA_BUFSIZE / blksz
    ensures DMA_BUFSIZE / blksz * blksz <= DMA_BUFSIZE < (DMA_BUFSIZE / blksz + 1) * blksz
  {
    FitsByDivision(2, blksz, DMA_BUFSIZE);
  }

  /** The new geometry takes effect exactly if two blocks fit; a bigger block leaves the old buffer in place. */
  lemma ResizeIff(was: Buffer, hdsp: bool, blksz: nat)
    requires 0 < blksz && was.blksz != blksz
    ensures Resized(was, BlockCount(hdsp, blksz), blksz).blksz == blksz <==> blksz <= DMA_BUFSIZE / 2
    ensures blksz <= DMA_BUFSIZE / 2 ==>
              && 2 <= BlockCount(hdsp, blksz)
              && Resized(was, BlockCount(hdsp, blksz), blksz).bufsize == BlockCount(hdsp, blksz) * blksz <= DMA_BUFSIZE
  {
    FitsByDivision(2, blksz, DMA_BUFSIZE);
    FitsByDivision(DMA_BUFSIZE / blksz, blksz, DMA_BUFSIZE);
  }

  /** There is room for two blocks of a wish: seen before anything is computed from it. */
  predicate Room(hdsp: bool, wish: nat, frame: nat)
    requires 0 < frame
  {
    if hdsp then frame <= 2048 else 64 <= DMA_BUFSIZE / 2 / frame && wish / frame <= DMA_BUFSIZE / 2 / frame
  }

  /** A changed block size takes effect exactly if there is room for the wish. */
  lemma TakesEffect(was: Buffer, hdsp: bool, wish: nat, frame: nat, frames: nat, blksz: nat)
    requires 0 < frame && Chosen(hdsp, wish, frame, frames) && 0 < blksz == frames * frame
    ensures was.blksz != blksz ==>
              (Resized(was, BlockCount(hdsp, blksz), blksz).blksz == blksz <==> Room(hdsp, wish, frame))
  {
    if was.blksz != blksz { ResizeIff(was, hdsp, blksz); }
    if hdsp { HdspFits(wish, frame, frames); } else { FitsByDivision(frames, frame, DMA_BUFSIZE / 2); }
  }

  /** With room for the wish the buffer holds two blocks, or where more are wanted as many as fit. */
  lemma FillsBuffer(was: Buffer, hdsp: bool, wish: nat, frame: nat, frames: nat, blksz: nat)
    requires 0 < frame && Chosen(hdsp, wish, frame, frames) && 0 < blksz == frames * frame && Room(hdsp, wish, frame)
    ensures var b := Resized(was, BlockCount(hdsp, blksz), blksz);
            && b.blksz == blksz && b.bufsize == b.blkcnt * blksz <= DMA_BUFSIZE && 2 <= b.blkcnt
            && if hdsp then b.blkcnt == 2 else DMA_BUFSIZE < (b.blkcnt + 1) * blksz
  {
    if hdsp { HdspFits(wish, frame, frames); } else { FitsByDivision(frames, frame, DMA_BUFSIZE / 2); }
    AsManyAsFit(blksz);
  }

  /** A frame has a sample for each channel; no channels count as two, samples of unknown size as two bytes. */
  lemma KnownFormats(f: Format)
    ensures f.bytes in {2, 4} && f.channels > 0 ==> f.FrameSize() == f.channels * f.bytes
    ensures f.bytes !in {2, 4} ==> f.FrameSize() == Format(f.channels, 2).FrameSize()
    ensures f.channels == 0 ==> f.FrameSize() == Format(2, f.bytes).FrameSize()
  {
  }

  /** A block of 50000 stereo frames is taken on as the block size, but the buffer keeps its old geometry. */
  method TooBigAWish(ch: Channel) returns (blksz: nat)
    requires !ch.hdsp && ch.ossFormat.None? && ch.format.FrameSize() == 4 && ch.buffer.blksz != 200000
    modifies ch
    ensures blksz == 200000 && ch.blocksize == 200000 && ch.buffer == old(ch.buffer)
  {
    ghost var frames;
    blksz, frames := ch.SetBlockSize(200000);
  }

  // ---------------------------------------------------------------- the two-block pointer

  /** The hardware pointer after k interrupts: it alternates between the two blocks. */
  function Pointer(k: nat, period: nat): nat { if k % 2 == 0 then 0 else period }

  /** What one update of the pointer credits, going round the buffer. */
  function Credit(from: nat, to: nat, bufsize: nat): int { if to >= from then to - from else to - from + bufsize }

  /** An update credits the way from one position to the next, going round the buffer at most once. */
  lemma CreditGoesRound(from: nat, to: nat, bufsize: nat)
    requires from < bufsize && to < bufsize
    ensures 0 <= Credit(from, to, bufsize) < bufsize && (from + Credit(from, to, bufsize)) % bufsize == to
  {
    if to >= from { EuclidUnique(to, bufsize, 0, to); } else { EuclidUnique(to + bufsize, bufsize, 1, to); }
  }

  function Credited(k: nat, period: nat, bufsize: nat): int {
    if k == 0 then 0 else Credited(k - 1, period, bufsize) + Credit(Pointer(k - 1, period), Pointer(k, period), bufsize)
  }

  lemma {:induction false} CreditedPairs(k: nat, period: nat, bufsize: nat)
    requires 0 < period
    ensures Credited(k, period, bufsize) == k / 2 * bufsize + Pointer(k, period)
  {
    if k > 0 {
      CreditedPairs(k - 1, period, bufsize);
      if k % 2 == 0 {
        assert k / 2 == (k - 1) / 2 + 1;
        assert k / 2 * bufsize == (k - 1) / 2 * bufsize + bufsize;
      } else {
        assert k / 2 == (k - 1) / 2;
      }
    }
  }

  lemma TwoBlocksCredit(k: nat, period: nat)
    requires 0 < period
    ensures Credited(k, period, 2 * period) == k * period
  {
    CreditedPairs(k, period, 2 * period);
    var h := k / 2;
    assert h * (2 * period) == (h * 2) * period by { MulAssoc(h, 2, period); }
    assert k * period == (h * 2) * period + (k % 2) * period by { Distribute(h * 2, k % 2, period); }
  }

  lemma Distribute(a: nat, b: nat, c: nat)
    ensures (a + b) * c == a * c + b * c
  {
  }

  /** After two interrupts the whole buffer has been credited. */
  lemma OtherBlocksMiscredit(period: nat, blkcnt: nat)
    requires 0 < period && blkcnt != 2
    ensures Credited(2, period, blkcnt * period) != 2 * period
  {
    CreditedPairs(2, period, blkcnt * period);
    if blkcnt < 2 { MulMono(period, blkcnt, 1); } else { MulMono(period, 3, blkcnt); }
  }

  /** Each interrupt is credited with one block exactly if the buffer has two of them. */
  lemma OneBlockPerInterrupt(period: nat, blkcnt: nat)
    requires 0 < period
    ensures (forall k: nat :: Credited(k, period, blkcnt * period) == k * period) <==> blkcnt == 2
  {
    if blkcnt == 2 {
      forall k: nat ensures Credited(k, period, 2 * period) == k * period { TwoBlocksCredit(k, period); }
    } else {
      OtherBlocksMiscredit(period, blkcnt);
    }
  }
}
