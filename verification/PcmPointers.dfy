/**
  Arithmetic of the two wrapping frame pointers (linux/sound/core/pcm_lib.c).

  Both pointers run modulo `boundary`, a multiple of the buffer size. The functions here are
  what the driver computes from them; the lemmas relate them to unbounded frame counts.
 */
module PcmPointers {
  import opened Words
  import opened RingMath

  /** Hardware and software parameters; a stream keeps those of its setup. */
  datatype Config = Config(
    bufferSize: nat,
    periodSize: nat,
    boundary: nat,
    minAlign: nat,
    rate: nat,
    hz: nat,
    noPeriodWakeup: bool,
    noRewinds: bool,
    availMin: nat,
    startThreshold: nat,
    stopThreshold: nat,
    silenceThreshold: nat,
    silenceSize: nat)
  {
    /** What parameter setup guarantees. */
    ghost predicate Valid() {
      && 0 < periodSize <= bufferSize
      && 0 < minAlign && 0 < rate
      && Multiple(boundary, bufferSize) && 3 * bufferSize <= boundary
      && (silenceSize < boundary ==> silenceSize <= silenceThreshold <= bufferSize)
    }

    /** Jiffies the whole buffer lasts. */
    function BufferJiffies(): nat
      requires 0 < rate
    {
      Turns(bufferSize * hz, rate)
    }

    /** The stream stops as soon as it is seen to have run dry. */
    predicate StopsWhenDry() { stopThreshold <= bufferSize }

    /** The silence mode that fills behind the hardware instead of ahead of the queue. */
    predicate FreeRunning() { silenceSize >= boundary }

    /** The silence mode that keeps a threshold of frames ahead of the hardware valid or silent. */
    predicate Threshold() { 0 < silenceSize < boundary }
  }

  /**
    Sets the boundary: the buffer size, doubled as long as that leaves room for a buffer below the
    largest signed word. At least three buffers always fit.
   */
  method SetBoundary(bufferSize: nat) returns (boundary: nat)
    requires 0 < bufferSize <= UINT_MAX
    ensures Multiple(boundary, bufferSize) && 3 * bufferSize <= boundary
    ensures boundary + bufferSize <= LONG_MAX < 2 * boundary + bufferSize
  {
    boundary := bufferSize;
    while 2 * boundary <= LONG_MAX - bufferSize
      invariant 0 < boundary && Multiple(boundary, bufferSize) && boundary + bufferSize <= LONG_MAX
      decreases LONG_MAX - boundary
    {
      MultipleSum(boundary, boundary, bufferSize);
      boundary := 2 * boundary;
    }
  }

  /** Free space seen through the wrapping pointers. */
  function PlaybackAvail(hwPtr: nat, applPtr: nat, c: Config): (avail: nat)
    requires hwPtr < c.boundary && applPtr < c.boundary && c.bufferSize <= c.boundary
  {
    var avail := hwPtr + c.bufferSize - applPtr;
    if avail < 0 then avail + c.boundary
    else if avail >= c.boundary then avail - c.boundary
    else avail
  }

  /** A frame count, split into whole turns of the boundary and the pointer. */
  ghost predicate Splits(total: nat, wrap: nat, ptr: nat, boundary: nat) {
    0 < boundary && total == wrap + ptr && Multiple(wrap, boundary) && ptr < boundary
  }

  /** Counts less than a turn apart have their turns equal or one apart. */
  lemma WrapsNear(x: nat, xw: nat, xp: nat, y: nat, yw: nat, yp: nat, b: nat)
    requires Splits(x, xw, xp, b) && Splits(y, yw, yp, b) && x < y + b && y < x + b
    ensures yw == xw || yw == xw + b || yw == xw - b
  {
    if yw >= xw {
      MultipleSum(yw, xw, b);
      SmallMultiple(yw - xw, b);
    } else {
      MultipleSum(xw, yw, b);
      SmallMultiple(xw - yw, b);
    }
  }

  /** The gap between two pointers is the distance of their counts, when below a turn. */
  lemma GapIsDistance(x: nat, xw: nat, xp: nat, y: nat, yw: nat, yp: nat, b: nat)
    requires Splits(x, xw, xp, b) && Splits(y, yw, yp, b) && x <= y < x + b
    ensures Gap(xp, yp, b) == y - x
  {
    WrapsNear(x, xw, xp, y, yw, yp, b);
  }

  /**
    What the wrapped free-space value is, for a hardware count up to a turn past the
    application's: the true free space, less one boundary once it reaches that.
   */
  lemma AvailIsSpace(h: nat, hw: nat, hp: nat, a: nat, aw: nat, ap: nat, c: Config)
    requires 0 < c.bufferSize && c.bufferSize <= c.boundary
    requires Splits(h, hw, hp, c.boundary) && Splits(a, aw, ap, c.boundary)
    requires a <= h + c.bufferSize && a < h + c.boundary && h < a + c.boundary
    ensures var space := c.bufferSize + h - a;
            PlaybackAvail(hp, ap, c) == if space < c.boundary then space else space - c.boundary
  {
    WrapsNear(h, hw, hp, a, aw, ap, c.boundary);
  }

  /**
    When the underrun test fires: exactly while the hardware is past the queue's end by less
    than boundary - bufferSize frames. Beyond that the free space wraps and the underrun is missed.
   */
  lemma UnderrunSeen(h: nat, hw: nat, hp: nat, a: nat, aw: nat, ap: nat, c: Config)
    requires 0 < c.bufferSize && c.bufferSize <= c.boundary
    requires Splits(h, hw, hp, c.boundary) && Splits(a, aw, ap, c.boundary)
    requires a <= h + c.bufferSize && a < h + c.boundary && h < a + c.boundary
    ensures PlaybackAvail(hp, ap, c) >= c.bufferSize <==> a <= h < a + (c.boundary - c.bufferSize)
  {
    AvailIsSpace(h, hw, hp, a, aw, ap, c);
  }

  /** An advance of less than boundary - bufferSize frames past a held queue never goes unseen. */
  lemma UnderrunStops(h0: nat, h: nat, hw: nat, hp: nat, a: nat, aw: nat, ap: nat, c: Config)
    requires c.Valid()
    requires Splits(h, hw, hp, c.boundary) && Splits(a, aw, ap, c.boundary)
    requires h0 <= a <= h0 + c.bufferSize && a < h < h0 + (c.boundary - c.bufferSize)
    ensures PlaybackAvail(hp, ap, c) >= c.bufferSize
  {
    UnderrunSeen(h, hw, hp, a, aw, ap, c);
  }

  // ---------------------------------------------------------------- reading the position

  /** The hardware side: position, start of its buffer turn, last interrupt, turns of the boundary. */
  datatype HwPtrs = HwPtrs(ptr: nat, base: nat, interrupt: nat, wrap: nat)
  {
    /** Frames consumed, without wrapping. */
    function Total(): nat { wrap + ptr }

    ghost predicate Valid(c: Config)
      requires 0 < c.bufferSize && 0 < c.boundary
    {
      && Multiple(base, c.bufferSize) && base < c.boundary
      && base <= ptr < base + c.bufferSize
      && ptr < c.boundary && interrupt < c.boundary && Multiple(wrap, c.boundary)
    }
  }

  /** A reported position, with nonsense read as zero, rounded down to whole frames groups. */
  function AlignedPos(pos: nat, c: Config): (p: nat)
    requires 0 < c.bufferSize && 0 < c.minAlign
    ensures p < c.bufferSize
  {
    var q := if pos >= c.bufferSize then 0 else pos;
    q - Slot(q, c.minAlign)
  }

  /** Whether counting off whole buffers ever explains the time: not if a buffer lasts less than a jiffy. */
  predicate Settles(hdelta: int, c: Config)
    requires 0 < c.rate
  {
    0 < c.BufferJiffies() || hdelta <= 1
  }

  /** Frames, in whole buffers, that must have passed for the elapsed time to be explained. */
  function LostFrames(hdelta: int, c: Config): nat
    requires 0 < c.rate && Settles(hdelta, c)
    decreases hdelta - c.BufferJiffies() / 2
  {
    if hdelta <= c.BufferJiffies() / 2 + 1 then 0
    else c.bufferSize + LostFrames(hdelta - c.BufferJiffies(), c)
  }

  /** The catch-up loop's guard after k turns. */
  predicate Overrun(hdelta: int, k: nat, c: Config)
    requires 0 < c.rate
  {
    hdelta - k * c.BufferJiffies() > c.BufferJiffies() / 2 + 1
  }

  /** The catch-up loop ends, that is its guard fails after some number of turns, exactly if the time settles. */
  lemma CatchUpEnds(hdelta: int, c: Config)
    requires 0 < c.rate
    ensures (exists k: nat :: !Overrun(hdelta, k, c)) <==> Settles(hdelta, c)
  {
    if 0 < c.BufferJiffies() {
      var k: nat := if hdelta < 0 then 0 else hdelta;
      if k > 0 { MulMono(k, 1, c.BufferJiffies()); }
      assert !Overrun(hdelta, k, c);
    } else {
      assert Overrun(hdelta, 0, c) <==> hdelta > 1;
    }
  }

  /** 32 frames at 48 kHz last less than a tick of 100 Hz: after two ticks without progress the loop never ends. */
  lemma CatchUpHangs(c: Config, k: nat)
    requires c.bufferSize == 32 && c.rate == 48000 && c.hz == 100
    ensures Overrun(Unexplained(2, 0, c), k, c)
  {
    assert c.BufferJiffies() == 0 && Turns(0, c.rate) == 0;
  }

  /** Time not explained by an advance of `delta` frames. */
  function Unexplained(jdelta: nat, delta: nat, c: Config): int
    requires 0 < c.rate
  {
    jdelta - Turns(delta * c.hz, c.rate)
  }

  /** The advance before lost interrupts are accounted: a whole extra turn when overdue. */
  function FirstStep(off: nat, p: nat, overdue: bool, jdelta: nat, c: Config): nat
    requires off < c.bufferSize && p < c.bufferSize && 0 < c.rate
  {
    if overdue && jdelta > c.BufferJiffies() / 2 + 1 then p + c.bufferSize - off else Gap(off, p, c.bufferSize)
  }

  /** Whether the accounting of lost interrupts, where it is done at all, comes to an end. */
  predicate CatchesUp(off: nat, p: nat, overdue: bool, jdelta: nat, c: Config)
    requires off < c.bufferSize && p < c.bufferSize && 0 < c.rate
  {
    c.noPeriodWakeup && jdelta >= c.BufferJiffies() / 2 ==>
      Settles(Unexplained(jdelta, FirstStep(off, p, overdue, jdelta, c), c), c)
  }

  /** Frames the hardware advances by a position report p at ring offset off. */
  function Advance(off: nat, p: nat, overdue: bool, jdelta: nat, c: Config): nat
    requires off < c.bufferSize && p < c.bufferSize && 0 < c.rate
    requires CatchesUp(off, p, overdue, jdelta, c)
  {
    var step := FirstStep(off, p, overdue, jdelta, c);
    if c.noPeriodWakeup && jdelta >= c.BufferJiffies() / 2 then step + LostFrames(Unexplained(jdelta, step, c), c)
    else step
  }

  /** What the driver's pointer callback says: an xrun, or a position and the jiffies elapsed. */
  datatype Report = XrunReport | At(pos: nat, jdelta: nat)

  /** An interrupt whose period end lies ahead of the reported position. */
  predicate Overdue(hw: HwPtrs, p: nat, inInterrupt: bool, c: Config) {
    inInterrupt && hw.interrupt + c.periodSize > hw.base + p
  }

  /** A report on which the pointer update returns. */
  predicate Returns(hw: HwPtrs, rep: Report, inInterrupt: bool, c: Config)
    requires c.Valid() && hw.base <= hw.ptr < hw.base + c.bufferSize
  {
    rep.At? ==>
      var p := AlignedPos(rep.pos, c);
      CatchesUp(hw.ptr - hw.base, p, Overdue(hw, p, inInterrupt, c), rep.jdelta, c)
  }

  /** The frames a report advances the hardware by. */
  function Step(hw: HwPtrs, rep: Report, inInterrupt: bool, c: Config): nat
    requires rep.At? && c.Valid() && hw.base <= hw.ptr < hw.base + c.bufferSize
    requires Returns(hw, rep, inInterrupt, c)
  {
    var p := AlignedPos(rep.pos, c);
    Advance(hw.ptr - hw.base, p, Overdue(hw, p, inInterrupt, c), rep.jdelta, c)
  }

  /** An advance too short to wrap the free space around: an underrun by it is noticed. */
  predicate Short(step: nat, c: Config) { step + c.bufferSize < c.boundary }

  /** A report that is sure to come in time: by regular interrupts, or before the boundary's worth of jiffies. */
  predicate InTime(rep: Report, c: Config) {
    rep.At? && c.noPeriodWakeup ==> (rep.jdelta + 3) * c.bufferSize <= c.boundary
  }

  /** Lost frames are at most one buffer for each jiffy. */
  lemma {:induction false} LostFramesBound(hdelta: int, n: nat, c: Config)
    requires 0 < c.rate && Settles(hdelta, c) && hdelta <= n
    ensures LostFrames(hdelta, c) <= n * c.bufferSize
    decreases n
  {
    if hdelta > c.BufferJiffies() / 2 + 1 {
      LostFramesBound(hdelta - c.BufferJiffies(), n - 1, c);
      assert (n - 1) * c.bufferSize + c.bufferSize == n * c.bufferSize;
    } else {
      assert 0 <= n * c.bufferSize;
    }
  }

  lemma AdvanceBound(off: nat, p: nat, overdue: bool, jdelta: nat, c: Config)
    requires off < c.bufferSize && p < c.bufferSize && 0 < c.rate && CatchesUp(off, p, overdue, jdelta, c)
    ensures Advance(off, p, overdue, jdelta, c) < jdelta * c.bufferSize + 2 * c.bufferSize
  {
    assert 0 <= jdelta * c.bufferSize;
    if c.noPeriodWakeup && jdelta >= c.BufferJiffies() / 2 {
      LostFramesBound(Unexplained(jdelta, FirstStep(off, p, overdue, jdelta, c), c), jdelta, c);
    }
  }

  /** So a report in time that is taken over is a short advance. */
  lemma InTimeIsShort(hw: HwPtrs, rep: Report, inInterrupt: bool, c: Config)
    requires rep.At? && c.Valid() && hw.base <= hw.ptr < hw.base + c.bufferSize && Returns(hw, rep, inInterrupt, c)
    requires InTime(rep, c) && Accepted(hw, Step(hw, rep, inInterrupt, c), c)
    ensures Short(Step(hw, rep, inInterrupt, c), c)
  {
    if c.noPeriodWakeup {
      var p := AlignedPos(rep.pos, c);
      AdvanceBound(hw.ptr - hw.base, p, Overdue(hw, p, inInterrupt, c), rep.jdelta, c);
      ThreeMore(rep.jdelta, c.bufferSize);
    }
  }

  lemma ThreeMore(n: nat, b: nat)
    ensures (n + 3) * b == n * b + 3 * b
  {
  }

  /** Whether an advance is taken over: plausible, and not to where the pointer is already. */
  predicate Accepted(hw: HwPtrs, step: nat, c: Config)
    requires 0 < c.boundary
  {
    (c.noPeriodWakeup || step < c.bufferSize + c.periodSize) && Slot(hw.ptr + step, c.boundary) != hw.ptr
  }

  // ---------------------------------------------------------------- how far a report moves the hardware

  /** Whole jiffies that some frames last. */
  ghost function Jiffies(frames: nat, c: Config): nat
    requires 0 < c.rate
  {
    frames * c.hz / c.rate
  }

  lemma JiffiesAre(frames: nat, c: Config)
    requires 0 < c.rate
    ensures Turns(frames * c.hz, c.rate) == Jiffies(frames, c)
  {
    TurnsIsQuotient(frames * c.hz, c.rate);
  }

  /** Whole buffers that must have been lost to leave of `unexplained` jiffies no more than half a buffer's and one. */
  ghost function Missed(unexplained: int, buffer: nat): nat
  {
    if unexplained <= buffer / 2 + 1 || buffer == 0 then 0 else (unexplained - buffer / 2 - 2) / buffer + 1
  }

  /** The frames in them. */
  ghost function MissedFrames(unexplained: int, c: Config): nat
    requires 0 < c.rate
  {
    Missed(unexplained, Jiffies(c.bufferSize, c)) * c.bufferSize
  }

  /** The catch-up loop counts the lost buffers. */
  lemma {:induction false} LostFramesAre(hdelta: int, c: Config)
    requires 0 < c.rate && Settles(hdelta, c)
    ensures LostFrames(hdelta, c) == Missed(hdelta, c.BufferJiffies()) * c.bufferSize
    decreases hdelta - c.BufferJiffies() / 2
  {
    var b := c.BufferJiffies();
    if hdelta > b / 2 + 1 {
      LostFramesAre(hdelta - b, c);
      var x := hdelta - b / 2 - 2;
      if hdelta - b > b / 2 + 1 {
        EuclidUnique(x, b, (x - b) / b + 1, (x - b) % b);
      } else {
        EuclidUnique(x, b, 0, x);
      }
      ThisMany(Missed(hdelta - b, b), c.bufferSize);
    }
  }

  lemma ThisMany(n: nat, b: nat)
    ensures (n + 1) * b == n * b + b
  {
  }

  /** An interrupt that comes before its period is over, and too late for that to be true. */
  ghost predicate Late(hw: HwPtrs, p: nat, jdelta: nat, inInterrupt: bool, c: Config)
    requires 0 < c.rate
  {
    inInterrupt && hw.base + p < hw.interrupt + c.periodSize && Jiffies(c.bufferSize, c) / 2 + 1 < jdelta
  }

  /**
    How far a report moves the hardware: on to the reported position, by a whole buffer more if the interrupt
    is late; and without regular interrupts by the buffers that time says were lost. With them, a move by
    a buffer and a period or more is not believed.
   */
  ghost function Moved(hw: HwPtrs, rep: Report, inInterrupt: bool, c: Config): nat
    requires rep.At? && c.Valid() && hw.base <= hw.ptr < hw.base + c.bufferSize
  {
    var p := if rep.pos < c.bufferSize then rep.pos - rep.pos % c.minAlign else 0;
    var off, buffer := hw.ptr - hw.base, Jiffies(c.bufferSize, c);
    var first := if Late(hw, p, rep.jdelta, inInterrupt, c) then c.bufferSize - off + p else (p - off) % c.bufferSize;
    if !c.noPeriodWakeup then if first < c.bufferSize + c.periodSize then first else 0
    else if rep.jdelta < buffer / 2 then first
    else first + MissedFrames(rep.jdelta - Jiffies(first, c), c)
  }

  /** The pieces of that are what the code computes. */
  lemma MovedDefined(hw: HwPtrs, rep: Report, inInterrupt: bool, c: Config)
    requires rep.At? && c.Valid() && hw.base <= hw.ptr < hw.base + c.bufferSize
    requires Returns(hw, rep, inInterrupt, c)
    ensures var p := AlignedPos(rep.pos, c);
            var off := hw.ptr - hw.base;
            var first := FirstStep(off, p, Overdue(hw, p, inInterrupt, c), rep.jdelta, c);
            && p == (if rep.pos < c.bufferSize then rep.pos - rep.pos % c.minAlign else 0)
            && c.BufferJiffies() == Jiffies(c.bufferSize, c)
            && first == (if Late(hw, p, rep.jdelta, inInterrupt, c) then c.bufferSize - off + p
                         else (p - off) % c.bufferSize)
            && Unexplained(rep.jdelta, first, c) == rep.jdelta - Jiffies(first, c)
  {
    hide Slot, Turns, Multiple, Jiffies, AlignedPos;
    var p, off := AlignedPos(rep.pos, c), hw.ptr - hw.base;
    var first := FirstStep(off, p, Overdue(hw, p, inInterrupt, c), rep.jdelta, c);
    AlignedIs(rep.pos, c);
    JiffiesAre(c.bufferSize, c);
    JiffiesAre(first, c);
    GapIsRemainder(off, p, c.bufferSize);
  }

  lemma AlignedIs(pos: nat, c: Config)
    requires 0 < c.bufferSize && 0 < c.minAlign
    ensures AlignedPos(pos, c) == if pos < c.bufferSize then pos - pos % c.minAlign else 0
  {
    if pos < c.bufferSize { SlotIsRemainder(pos, c.minAlign); } else { SlotIsRemainder(0, c.minAlign); }
  }

  lemma GapIsRemainder(off: nat, p: nat, size: nat)
    requires off < size && p < size
    ensures Gap(off, p, size) == (p - off) % size
  {
    if p >= off { EuclidUnique(p - off, size, 0, p - off); } else { EuclidUnique(p - off, size, -1, p - off + size); }
  }

  /**
    The update returns on every report of a stream with regular interrupts, or whose buffer lasts a jiffy; on one of
    another stream exactly if at most one jiffy is unexplained.
   */
  lemma ReturnsIff(hw: HwPtrs, rep: Report, inInterrupt: bool, c: Config)
    requires rep.At? && c.Valid() && hw.base <= hw.ptr < hw.base + c.bufferSize
    ensures !c.noPeriodWakeup || 1 <= Jiffies(c.bufferSize, c) ==> Returns(hw, rep, inInterrupt, c)
    ensures c.noPeriodWakeup && Jiffies(c.bufferSize, c) == 0 ==>
              var p := AlignedPos(rep.pos, c);
              var first := FirstStep(hw.ptr - hw.base, p, Overdue(hw, p, inInterrupt, c), rep.jdelta, c);
              Returns(hw, rep, inInterrupt, c) <==> rep.jdelta - Jiffies(first, c) <= 1
  {
    hide Slot, Turns, Multiple, Jiffies, AlignedPos, FirstStep;
    var p := AlignedPos(rep.pos, c);
    JiffiesAre(c.bufferSize, c);
    JiffiesAre(FirstStep(hw.ptr - hw.base, p, Overdue(hw, p, inInterrupt, c), rep.jdelta, c), c);
  }

  /** A report is taken over exactly if it moves the hardware, and by how much, below a turn of the boundary. */
  lemma MovedIsTaken(hw: HwPtrs, rep: Report, inInterrupt: bool, c: Config)
    requires rep.At? && c.Valid() && hw.Valid(c) && Returns(hw, rep, inInterrupt, c)
    requires Moved(hw, rep, inInterrupt, c) < c.boundary
    ensures Accepted(hw, Step(hw, rep, inInterrupt, c), c) <==> Moved(hw, rep, inInterrupt, c) > 0
    ensures Moved(hw, rep, inInterrupt, c) > 0 ==> Step(hw, rep, inInterrupt, c) == Moved(hw, rep, inInterrupt, c)
  {
    hide Slot, Turns, Multiple, LostFrames, Missed, Late, Overdue, AlignedPos, Jiffies;
    MovedDefined(hw, rep, inInterrupt, c);
    var p, off := AlignedPos(rep.pos, c), hw.ptr - hw.base;
    var first := FirstStep(off, p, Overdue(hw, p, inInterrupt, c), rep.jdelta, c);
    if c.noPeriodWakeup && rep.jdelta >= c.BufferJiffies() / 2 {
      LostFramesAre(Unexplained(rep.jdelta, first, c), c);
      JiffiesAre(c.bufferSize, c);
    }
    var step := Step(hw, rep, inInterrupt, c);
    if step < c.boundary { SlotMoves(hw.ptr, step, c.boundary); }
  }

  lemma SlotMoves(p: nat, step: nat, b: nat)
    requires p < b && step < b
    ensures Slot(p + step, b) == p <==> step == 0
  {
  }

  /** With regular interrupts, in time and in range, the hardware moves on to exactly the reported position. */
  lemma TimelyMoves(hw: HwPtrs, rep: Report, inInterrupt: bool, c: Config)
    requires rep.At? && c.Valid() && hw.Valid(c) && !c.noPeriodWakeup
    requires rep.pos < c.bufferSize && rep.pos % c.minAlign == 0 && rep.jdelta <= Jiffies(c.bufferSize, c) / 2 + 1
    ensures Returns(hw, rep, inInterrupt, c)
    ensures Moved(hw, rep, inInterrupt, c) == (rep.pos - (hw.ptr - hw.base)) % c.bufferSize < c.bufferSize
  {
  }

  // ---------------------------------------------------------------- silence

  /** Where the silence behind the queue starts, and how much of it there is. */
  datatype SilenceVars = SilenceVars(start: nat, filled: nat)

  /** Silence bookkeeping of one call: where it starts, what is kept of it, what is added. */
  datatype Fill = Fill(start: nat, kept: nat, frames: nat)

  /** What is left of `filled` silent frames when their start moves `delta` frames on. */
  function Residue(filled: nat, delta: nat): nat {
    if delta < filled then filled - delta else 0
  }

  /** The threshold mode tops the silence behind the queue up to the threshold. */
  function ThresholdFill(s: SilenceVars, newHwPtr: nat, applPtr: nat, c: Config): Fill
    requires s.start < c.boundary && newHwPtr < c.boundary && applPtr < c.boundary
  {
    var kept := Residue(s.filled, Gap(s.start, applPtr, c.boundary));
    var noise := Gap(newHwPtr, applPtr, c.boundary) + kept;
    var lack := if noise >= c.silenceThreshold then 0 else c.silenceThreshold - noise;
    Fill(applPtr, kept, if lack > c.silenceSize then c.silenceSize else lack)
  }

  /** The free-running mode silences whatever is not the last buffer's worth ahead of the hardware. */
  function FreeFill(filled: nat, hwPtr: nat, newHwPtr: nat, c: Config): Fill
    requires hwPtr < c.boundary && newHwPtr < c.boundary && filled <= c.bufferSize
  {
    var kept := Residue(filled, Gap(hwPtr, newHwPtr, c.boundary));
    Fill(newHwPtr, kept, c.bufferSize - kept)
  }

  function FreeInit(hwPtr: nat, applPtr: nat, c: Config): Fill
    requires hwPtr < c.boundary && applPtr < c.boundary
  {
    var queued := Gap(hwPtr, applPtr, c.boundary);
    var kept := if queued > c.bufferSize then 0 else queued;
    Fill(hwPtr, kept, c.bufferSize - kept)
  }
}
