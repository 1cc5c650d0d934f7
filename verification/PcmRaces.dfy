/**
  Runs in which silence gets into a chunk between its copy and its commit, and one in which what is on the
  books as silence is not (linux/sound/core/pcm_lib.c, linux/sound/core/pcm_native.c).
 */
module PcmRaces {
  import opened RingMath
  import opened PcmFifo
  import opened PcmPointers
  import opened PcmSilence
  import opened PcmRuntime

  // ---------------------------------------------------------------- the beginning of both

  ghost predicate Still(hw: HwPtrs) { hw.ptr + hw.base + hw.interrupt + hw.wrap == 0 }

  ghost predicate Blank(s: SilenceVars) { s.start + s.filled == 0 }

  /** What was handed in so far has got into the ring. */
  ghost predicate Queued(g: Stream, first: seq<Frame>) { g.sent == first && g.log == first && !g.unseen }

  /** A chunk is in flight, and this is what the ring holds of it. */
  ghost predicate Flying(g: Stream, packet: seq<Frame>, flight: seq<Frame>) { g.packet == packet && g.flight == flight }

  /** A stream that was prepared and got its first frames, and nothing else. */
  ghost predicate FirstPut(s: Substream, first: seq<Frame>)
    reads s
  {
    && Still(s.hw) && s.applPtr == |first| && Blank(s.silence)
    && s.state == Prepared && Queued(s.g, first) && |s.g.flight| + s.g.origin == 0
  }

  method PutFirst(s: Substream, first: seq<Frame>)
    requires s.Inv() && s.state == Prepared && s.Fresh() && 0 < |first| < s.c.bufferSize
    modifies s, s.area
    ensures s.Inv() && FirstPut(s, first)
  {
    assert s.g.sent + first == first && s.g.log + first == first;
    s.Put(first);
  }

  method Begin(s: Substream, first: seq<Frame>)
    requires s.c.Valid() && s.area.Length == s.c.bufferSize && s.state == Setup && 0 < |first| < s.c.bufferSize
    modifies s, s.area
    ensures s.Inv() && FirstPut(s, first)
  {
    var err := s.Prepare(0);
    PutFirst(s, first);
  }

  // ---------------------------------------------------------------- a start in the free-running mode

  method PutSecond(s: Substream, x: Frame, y: Frame)
    requires s.Inv() && FirstPut(s, [x]) && 2 <= s.c.bufferSize
    modifies s, s.area
    ensures s.Inv() && s.state == Prepared && s.hw.ptr == 0 && s.applPtr == 1 && Queued(s.g, [x])
        && Flying(s.g, [y], [y])
    ensures Still(s.hw) && s.g.origin == 0
  {
    s.CopyIn([y], 0);
  }

  method StartOver(s: Substream, x: Frame, y: Frame)
    requires s.Inv() && s.state == Prepared && s.hw.ptr == 0 && s.applPtr == 1 && Queued(s.g, [x])
        && Flying(s.g, [y], [y])
    requires s.c.FreeRunning() && 2 <= s.c.bufferSize
    modifies s, s.area
    ensures s.Inv() && s.state == Running && Queued(s.g, [x]) && Flying(s.g, [y], [SILENCE])
    ensures s.hw == old(s.hw) && s.applPtr == old(s.applPtr) && s.g.origin == old(s.g).origin
  {
    var err := s.Start(0);
    MutedAt([y], 0, s.c.bufferSize - 1, 0);
    assert s.g.flight == [SILENCE];
  }

  /** A start while a chunk is being copied: in the free-running mode its silence replaces the chunk. */
  method StartMutes(s: Substream, x: Frame, y: Frame)
    requires s.c.Valid() && s.c.FreeRunning() && 2 <= s.c.bufferSize && s.area.Length == s.c.bufferSize
    requires s.state == Setup
    modifies s, s.area
    ensures s.Inv() && s.state == Running && s.g.sent == [x, y] && s.g.log == [x, SILENCE]
  {
    Begin(s, [x]);
    PutSecond(s, x, y);
    StartOver(s, x, y);
    var err := s.CommitChunk(1, 0);
  }

  method AfterStart(s: Substream, x: Frame, y: Frame, z: Frame)
    requires s.Inv() && s.state == Running && s.hw.ptr == 0 && s.applPtr == 1 && Queued(s.g, [x])
        && Flying(s.g, [y], [SILENCE])
    requires Still(s.hw) && s.g.origin == 0 && 3 <= s.c.bufferSize
    modifies s, s.area
    ensures s.Inv() && s.state == Running && s.g.sent == [x, y, z] && s.g.log == [x, SILENCE, z]
  {
    s.CopyIn([z], 1);
    assert s.g.packet == [y, z] && s.g.flight == [SILENCE, z];
    var err := s.CommitChunk(2, 0);
  }

  /** A start in the middle of a copy: the part that was copied before it is played as silence, the rest as written. */
  method StartTears(s: Substream, x: Frame, y: Frame, z: Frame)
    requires s.c.Valid() && s.c.FreeRunning() && 3 <= s.c.bufferSize && s.area.Length == s.c.bufferSize
    requires s.state == Setup
    modifies s, s.area
    ensures s.Inv() && s.state == Running && s.g.sent == [x, y, z] && s.g.log == [x, SILENCE, z]
  {
    Begin(s, [x]);
    PutSecond(s, x, y);
    StartOver(s, x, y);
    AfterStart(s, x, y, z);
  }

  // ---------------------------------------------------------------- software parameters in the free-running mode

  /** A running stream with one frame queued, and another one in flight. */
  method PlayAndPut(s: Substream, x: Frame, y: Frame)
    requires s.Inv() && FirstPut(s, [x]) && 2 <= s.c.bufferSize
    modifies s, s.area
    ensures s.Inv() && s.state == Running && s.hw.ptr == 0 && s.applPtr == 1 && Queued(s.g, [x])
        && Flying(s.g, [y], [y])
  {
    var err := s.Start(0);
    assert s.g.flight == [];
    s.CopyIn([y], 0);
    assert [] + [y] == [y];
  }

  /** Setting the software parameters to what they are fills the free part of the ring, and with it the chunk. */
  method SetOver(s: Substream, x: Frame, y: Frame)
    requires s.Inv() && s.state == Running && s.hw.ptr == 0 && s.applPtr == 1 && Queued(s.g, [x])
        && Flying(s.g, [y], [y])
    requires s.c.FreeRunning() && s.Resettable() && 2 <= s.c.bufferSize <= s.c.stopThreshold
    modifies s, s.area
    ensures s.Inv() && s.state == Running && Queued(s.g, [x]) && Flying(s.g, [y], [SILENCE])
  {
    var r := s.SwParams();
    MutedAt([y], 0, s.c.bufferSize - 1, 0);
    assert s.g.flight == [SILENCE];
  }

  /** So it replaces a chunk that is being copied, with no interrupt, start or drain in between. */
  method ParamsMute(s: Substream, x: Frame, y: Frame)
    requires s.c.Valid() && s.c.FreeRunning() && s.area.Length == s.c.bufferSize && s.state == Setup
    requires s.Resettable() && 2 <= s.c.bufferSize <= s.c.stopThreshold
    modifies s, s.area
    ensures s.Inv() && s.state == Running && s.g.sent == [x, y] && s.g.log == [x, SILENCE]
  {
    Begin(s, [x]);
    PlayAndPut(s, x, y);
    SetOver(s, x, y);
    var err := s.CommitChunk(1, 0);
  }

  // ---------------------------------------------------------------- an interrupt in the threshold mode

  /** The settings of the second run: three frames are to be valid or silent, and four fit the ring. */
  predicate ThreeAhead(c: Config) {
    && 4 <= c.bufferSize == c.stopThreshold && c.minAlign == 1 && !c.noPeriodWakeup
    && c.silenceThreshold == 3 && 1 <= c.silenceSize < c.boundary
  }

  /** Two frames queued: the start silences one behind them. */
  lemma FillAtStart(c: Config, s: SilenceVars, hw: HwPtrs)
    requires c.Valid() && ThreeAhead(c) && Blank(s) && Still(hw)
    ensures s.start < c.boundary && hw.ptr < c.boundary && PlaybackAvail(hw.ptr, 2, c) < c.bufferSize
    ensures var f := ThresholdFill(s, hw.ptr, 2, c); f.start == 2 && f.kept + f.frames == 1
  {
  }

  /** When one of them was played, the next fill goes behind that. */
  lemma FillBehind(c: Config, s: SilenceVars)
    requires c.Valid() && ThreeAhead(c) && s.start == 2 && s.filled == 1
    ensures var f := ThresholdFill(s, 1, 2, c); f.start == 2 && f.kept == 1 && f.frames == 1
  {
  }

  predicate OneFrame(rep: Report) { rep.At? && rep.pos == 1 && rep.jdelta == 0 }

  /** A report of the first position is an advance of one frame. */
  lemma OneFrameOn(hw: HwPtrs, rep: Report, c: Config)
    requires c.Valid() && ThreeAhead(c) && Still(hw) && OneFrame(rep)
    ensures hw.Valid(c) && Returns(hw, rep, true, c) && AlignedPos(rep.pos, c) == 1
    ensures Step(hw, rep, true, c) == 1 && Accepted(hw, 1, c) && Slot(hw.ptr + 1, c.boundary) == 1
  {
  }

  /** Two frames queued on a running stream, and one silenced behind them. */
  ghost predicate TwoQueued(s: Substream, first: seq<Frame>)
    reads s
  {
    && ThreeAhead(s.c) && s.state == Running && |first| == 2 && s.applPtr == 2 && Still(s.hw)
    && s.silence.start == 2 && s.silence.filled == 1 && Queued(s.g, first)
  }

  method StartBehindTwo(s: Substream, first: seq<Frame>)
    requires s.Inv() && ThreeAhead(s.c) && FirstPut(s, first) && |first| == 2
    modifies s, s.area
    ensures s.Inv() && TwoQueued(s, first) && |s.g.flight| == 0
  {
    hide Promised, ThresholdFill, FreeFill, FreeInit, Silenced, Muted, Still, Blank;
    FillAtStart(s.c, s.silence, s.hw);
    var err := s.Start(0);
  }

  method PutTwoMore(s: Substream, first: seq<Frame>, next: seq<Frame>)
    requires s.Inv() && TwoQueued(s, first) && |s.g.flight| == 0 && |next| == 2
    modifies s, s.area
    ensures s.Inv() && TwoQueued(s, first) && Flying(s.g, next, next)
  {
    s.CopyIn(next, 0);
  }

  /** Of two frames in flight, a fill one frame behind the committed end mutes the second. */
  lemma SecondMuted(next: seq<Frame>)
    requires |next| == 2
    ensures Muted(next, 1, 1) == [next[0], SILENCE]
  {
    MutedAt(next, 1, 1, 0);
    MutedAt(next, 1, 1, 1);
  }

  method InterruptOver(s: Substream, rep: Report, first: seq<Frame>, next: seq<Frame>)
    requires s.Inv() && TwoQueued(s, first) && Flying(s.g, next, next) && |next| == 2 && OneFrame(rep)
    modifies s, s.area
    ensures s.Inv() && s.state == Running && Queued(s.g, first) && Flying(s.g, next, [next[0], SILENCE])
  {
    hide Promised, Silenced, Muted, Slot, Multiple;
    OneFrameOn(s.hw, rep, s.c);
    FillBehind(s.c, s.silence);
    ghost var step, now;
    var r;
    r, step, now := s.UpdateHwPtr0(rep, true);
    SecondMuted(next);
  }

  /** An interrupt while a chunk is being copied: a threshold fill behind the old silence replaces its end. */
  method InterruptMutes(s: Substream, rep: Report, first: seq<Frame>, next: seq<Frame>)
    requires s.c.Valid() && ThreeAhead(s.c) && s.area.Length == s.c.bufferSize && s.state == Setup
    requires |first| == |next| == 2 && OneFrame(rep)
    modifies s, s.area
    ensures s.Inv() && s.g.sent == first + next && s.g.log == first + [next[0], SILENCE]
  {
    Begin(s, first);
    StartBehindTwo(s, first);
    PutTwoMore(s, first, next);
    InterruptOver(s, rep, first, next);
    var err := s.CommitChunk(2, 0);
  }
  // ---------------------------------------------------------------- a fault in the threshold mode

  /** The first frame in flight is behind the committed end. */
  lemma InFlight(s: Substream)
    requires s.Inv() && Live(s.state) && !s.g.unseen && s.g.flight != []
    ensures FrameAt(s.area[..], s.applPtr) == s.g.flight[0]
  {
    var data := s.g.log + s.g.flight;
    PointerSlot(s.g.End(), s.g.applWrap, s.applPtr, 0, s.c);
    assert FrameAt(s.area[..], s.g.End()) == data[s.g.End() - s.g.origin];
  }

  /** The copy of a chunk faults, and it is given up: the slot behind the queue holds its first frame. */
  method DropTwo(s: Substream, first: seq<Frame>, next: seq<Frame>)
    requires s.Inv() && TwoQueued(s, first) && Flying(s.g, next, next) && |next| == 2
    modifies s`g
    ensures s.Inv() && TwoQueued(s, first) && s.area[2] == next[0]
  {
    InFlight(s);
    s.Drop();
  }

  /** On the books that slot is silent. */
  method FaultLeavesNoise(s: Substream, first: seq<Frame>, next: seq<Frame>)
    requires s.c.Valid() && ThreeAhead(s.c) && s.area.Length == s.c.bufferSize && s.state == Setup
    requires |first| == |next| == 2
    modifies s, s.area
    ensures s.Inv() && s.state == Running && s.g.sent == first && s.applPtr == 2
    ensures s.silence.start == 2 && s.silence.filled == 1 && s.area[2] == next[0]
  {
    Begin(s, first);
    StartBehindTwo(s, first);
    PutTwoMore(s, first, next);
    DropTwo(s, first, next);
  }
}
