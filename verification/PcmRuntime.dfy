/**
  The playback runtime (linux/sound/core/pcm_lib.c): hardware pointer updates, silence fill,
  application pointer, and the transfer loop, over one ring buffer.

  Ghost state records the unbounded stream: the frames handed in and what the ring got of them, and
  the same of a chunk that a writer has in flight outside the stream lock, where a silence fill can
  still reach it. One ghost flag marks an underrun that was let pass; it is set by the step that does.
 */
module PcmRuntime {
  import opened Errno
  import opened RingMath
  import opened PcmFifo
  import opened PcmPointers
  import opened PcmSilence

  datatype State = Open | Setup | Prepared | Running | Xrun | Draining | Paused | Suspended | Disconnected

  /** States in which the ring holds the queue. */
  predicate Live(s: State) { s in {Prepared, Running, Draining, Paused} }

  predicate Moving(s: State) { s in {Running, Draining} }

  /** States a started stream is in. */
  predicate Started(s: State) { s in {Running, Draining, Paused} }

  /** The stream behind the ring. */
  datatype Stream = Stream(
    life: nat,            // how often the stream has been prepared
    origin: nat,          // number of the first frame of log
    sent: seq<Frame>,     // frames handed in and committed since preparation
    log: seq<Frame>,      // what the ring got of them
    packet: seq<Frame>,   // frames copied but not yet committed
    flight: seq<Frame>,   // what the ring holds of them
    applWrap: nat,        // whole turns of the application pointer
    silenceWrap: nat,     // whole turns of the silence start
    stray: nat,           // up to where frames of dropped chunks may lie behind the queue
    unseen: bool)         // an update ran past the queue's end and was let pass
  {
    function End(): nat { origin + |log| }
  }

  /** The ring got every frame as it was handed in, or silence in its place. */
  ghost predicate Faithful(g: Stream) { Heard(g.sent, g.log) && Heard(g.packet, g.flight) }

  /** The application pointer counts the committed frames. */
  ghost predicate ApplOk(applPtr: nat, end: nat, applWrap: nat, c: Config) {
    Splits(end, applWrap, applPtr, c.boundary)
  }

  ghost predicate SilenceOk(s: SilenceVars, g: Stream, c: Config) {
    s.start < c.boundary && s.filled <= c.bufferSize && 0 < c.boundary && Multiple(g.silenceWrap, c.boundary)
  }

  ghost function QueueOf(ring: seq<Frame>, g: Stream): Queue {
    Queue(ring, g.origin, g.log, g.flight, g.stray)
  }

  /**
    The promises with the hardware at position h: the ring holds every frame committed and not
    consumed, with the chunk in flight behind them; and in the threshold mode what the silence
    variables claim is silent.
   */
  ghost predicate Promised(ring: seq<Frame>, g: Stream, s: SilenceVars, c: Config, h: nat)
    requires 0 < |ring|
  {
    !g.unseen ==>
      && QueueOf(ring, g).Kept(h)
      && (c.Threshold() ==> QueueOf(ring, g).Quiet(h, g.silenceWrap + s.start, s.filled))
  }

  /** An underrun that was let pass takes all promises away. */
  lemma NothingPromised(ring: seq<Frame>, g: Stream, s: SilenceVars, c: Config, h: nat)
    requires 0 < |ring| && g.unseen
    ensures Promised(ring, g, s, c, h)
  {
  }

  /** What may happen while the stream lock is free. */
  datatype Event =
    | Hw(rep: Report, inInterrupt: bool)
    | Begin(result: int)
    | DrainStart
    | SetSwParams
    | Reset(result: int)
    | Halt(target: State)
    | PausePush
    | PauseRelease

  /** An event whose silence fill, if it has one, keeps off a chunk in flight. */
  predicate Calm(e: Event, c: Config) {
    if c.FreeRunning() then !e.Begin? && !e.DrainStart? && !e.SetSwParams?
    else c.Threshold() ==> !e.Hw? && !e.Begin? && !e.DrainStart? && !e.SetSwParams?
  }

  /** An event after which an underrun is noticed. */
  predicate OnTime(e: Event, c: Config) { c.StopsWhenDry() && (e.Hw? ==> InTime(e.rep, c)) }

  predicate AllCalm(events: seq<Event>, c: Config) { forall e | e in events :: Calm(e, c) }

  predicate AllOnTime(events: seq<Event>, c: Config) { c.StopsWhenDry() && forall e | e in events :: OnTime(e, c) }

  /** One turn of waiting for space: a signal, or a sleep with its events. */
  datatype Round = Round(signal: bool, events: seq<Event>, timedOut: bool)

  /** Some frames of a copy, and what happens before the next ones are copied. */
  datatype Piece = Piece(frames: nat, events: seq<Event>)

  /** Frames copied in all the pieces. */
  function Frames(pieces: seq<Piece>): nat {
    if pieces == [] then 0 else Frames(pieces[..|pieces| - 1]) + pieces[|pieces| - 1].frames
  }

  lemma {:induction false} FramesOn(pieces: seq<Piece>, k: nat)
    requires k < |pieces|
    ensures Frames(pieces[..k + 1]) == Frames(pieces[..k]) + pieces[k].frames
  {
    assert pieces[..k + 1][..k] == pieces[..k];
  }

  /** An event that takes no stream out of the states in which it can be written to. */
  predicate Gentle(e: Event) {
    match e
    case PausePush | PauseRelease | Reset(_) => true
    case Begin(result) => result != -EPIPE
    case _ => false
  }

  predicate AllGentle(events: seq<Event>) { forall e | e in events :: Gentle(e) }

  /** What the environment does to one pass of the transfer loop. */
  datatype Pass = Pass(
    rounds: seq<Round>,      // while waiting for space
    busy: bool,              // the buffer is locked against access
    before: seq<Event>,      // outside the lock, before the copy
    pieces: seq<Piece>,      // the copy, as far as it gets
    ack: int,                // the driver's answer to the new pointer
    start: int)              // the driver's answer to a start

  /** A pass that lets a copy of n frames through: the driver consents, and nothing stops the stream. */
  predicate Smooth(pass: Pass, n: nat) {
    && !pass.busy && pass.ack >= 0 && Frames(pass.pieces) >= n
    && AllGentle(pass.before) && forall p | p in pass.pieces :: AllGentle(p.events)
  }

  /** An error that a pass can cause. */
  predicate Blamed(err: int, pass: Pass) {
    err in {-EBUSY, -EFAULT, -EPIPE, -ESTRPIPE, -EBADFD} || err == pass.ack || err == pass.start
  }

  predicate RoundsOnTime(rounds: seq<Round>, c: Config) {
    c.StopsWhenDry() && forall r | r in rounds :: AllOnTime(r.events, c)
  }

  predicate PiecesOnTime(pieces: seq<Piece>, c: Config) {
    c.StopsWhenDry() && forall p | p in pieces :: AllOnTime(p.events, c)
  }

  predicate PiecesCalm(pieces: seq<Piece>, c: Config) { forall p | p in pieces :: AllCalm(p.events, c) }

  predicate PassOnTime(pass: Pass, c: Config) {
    && AllOnTime(pass.before, c) && PiecesOnTime(pass.pieces, c)
    && RoundsOnTime(pass.rounds, c)
  }

  predicate EnvCalm(env: seq<Pass>, c: Config) { forall p | p in env :: PiecesCalm(p.pieces, c) }

  predicate EnvOnTime(env: seq<Pass>, c: Config) { c.StopsWhenDry() && forall p | p in env :: PassOnTime(p, c) }

  /** What an application, the device and the driver do to a stream, in any order. */
  datatype Command =
    | Write(data: seq<Frame>, nonblock: bool, first: Report, env: seq<Pass>)
    | Device(event: Event)

  /** No silence fill reaches a chunk between its copy and its commit. */
  predicate CommandCalm(m: Command, c: Config) { m.Write? ==> EnvCalm(m.env, c) }

  predicate CommandOnTime(m: Command, c: Config) {
    match m
    case Write(_, _, first, env) => InTime(first, c) && EnvOnTime(env, c)
    case Device(e) => OnTime(e, c)
  }

  /** What holds of all passes holds of each. */
  lemma EachPass(env: seq<Pass>, k: nat, c: Config)
    requires k < |env|
    ensures env[k] in env
    ensures (EnvCalm(env, c) ==> PiecesCalm(env[k].pieces, c)) && (EnvOnTime(env, c) ==> PassOnTime(env[k], c))
  {
  }

  function Most(a: int, b: int): int { if a < b then b else a }

  /** Appending the data piece by piece. */
  lemma LogGrows(log: seq<Frame>, data: seq<Frame>, from: nat, sent: nat, count: nat)
    requires from <= sent && sent + count <= |data|
    ensures log + data[from..sent] + data[sent..][..count] == log + data[from..sent + count]
  {
    assert data[from..sent] + data[sent..][..count] == data[from..sent + count];
  }

  class Substream {
    const c: Config
    const area: array<Frame>

    var state: State
    var hw: HwPtrs
    var applPtr: nat
    var availMax: nat
    var silence: SilenceVars
    ghost var g: Stream

    ghost predicate Valid()
      reads this
    {
      && c.Valid() && area.Length == c.bufferSize
      && hw.Valid(c) && ApplOk(applPtr, g.End(), g.applWrap, c) && SilenceOk(silence, g, c) && Faithful(g)
      && (Started(state) && c.FreeRunning() ==> silence.filled == c.bufferSize)
    }

    ghost predicate Inv()
      reads this, area
    {
      Valid() && (Live(state) ==> Promised(area[..], g, silence, c, hw.Total()))
    }

    // -------------------------------------------------------------- silence

    /** Silences an in-range stretch of the ring. */
    method FillFrames(ofs: nat, count: nat, ghost more: nat)
      requires ofs < area.Length && ofs + count <= area.Length
      modifies area
      ensures Silenced(area[..], if ofs + count == area.Length then 0 else ofs + count, more)
           == Silenced(old(area[..]), ofs, count + more)
    {
      ghost var next := ofs;
      for k := 0 to count
        invariant next == if ofs + k == area.Length then 0 else ofs + k
        invariant Silenced(area[..], next, count - k + more) == Silenced(old(area[..]), ofs, count + more)
      {
        ghost var before := area[..];
        area[ofs + k] := SILENCE;
        assert area[..] == before[ofs + k := SILENCE];
        next := if ofs + k + 1 == area.Length then 0 else ofs + k + 1;
      }
    }

    /** In-range chunks that make up `frames` slots going round from `start`: two if they wrap around. */
    ghost function Chunks(start: nat, frames: nat): nat {
      if frames == 0 then 0 else if start + frames <= c.bufferSize then 1 else 2
    }

    /** Silences `frames` slots going round from `start`, chunk by chunk. */
    method FillRing(start: nat, frames: nat) returns (chunks: nat)
      requires area.Length == c.bufferSize && start < c.bufferSize && frames <= c.bufferSize
      modifies area, `silence
      ensures silence == old(silence).(filled := old(silence).filled + frames)
      ensures area[..] == Silenced(old(area[..]), start, frames)
      ensures chunks == Chunks(start, frames)
    {
      var ofs, left := start, frames;
      chunks := 0;
      while left > 0
        invariant 0 <= left <= frames && silence == old(silence).(filled := old(silence).filled + frames - left)
        invariant 0 <= ofs < c.bufferSize
        invariant Silenced(area[..], ofs, left) == Silenced(old(area[..]), start, frames)
        invariant chunks + Chunks(ofs, left) == Chunks(start, frames) && (ofs == 0 || left == frames)
      {
        var transfer := if ofs + left > c.bufferSize then c.bufferSize - ofs else left;
        FillFrames(ofs, transfer, left - transfer);
        chunks := chunks + 1;
        silence := silence.(filled := silence.filled + transfer);
        left := left - transfer;
        ofs := 0;
      }
    }

    method UpdateSilenceVars(ptr: nat, newPtr: nat)
      requires ptr < c.boundary && newPtr < c.boundary
      modifies `silence
      ensures silence == SilenceVars(if newPtr == ptr then old(silence).start else newPtr,
                                     Residue(old(silence).filled, Gap(ptr, newPtr, c.boundary)))
    {
      var delta := newPtr - ptr;
      if delta == 0 { return; }
      if delta < 0 { delta := delta + c.boundary; }
      if delta < silence.filled { silence := silence.(filled := silence.filled - delta); }
      else { silence := silence.(filled := 0); }
      silence := silence.(start := newPtr);
    }

    /** The threshold mode's bookkeeping: the rest of the old silence, and what is lacking. */
    method ThresholdDemand(newHwPtr: nat) returns (frames: nat)
      requires newHwPtr < c.boundary && applPtr < c.boundary && silence.start < c.boundary
      modifies `silence
      ensures Fill(silence.start, silence.filled, frames) == ThresholdFill(old(silence), newHwPtr, applPtr, c)
    {
      UpdateSilenceVars(silence.start, applPtr);
      var noise := applPtr - newHwPtr;
      if noise < 0 { noise := noise + c.boundary; }
      noise := noise + silence.filled;
      if noise >= c.silenceThreshold { return 0; }
      frames := c.silenceThreshold - noise;
      if frames > c.silenceSize { frames := c.silenceSize; }
    }

    /** The free-running mode's bookkeeping. */
    method FreeDemand(init: bool, newHwPtr: nat) returns (frames: nat)
      requires newHwPtr < c.boundary && applPtr < c.boundary && hw.ptr < c.boundary && silence.filled <= c.bufferSize
      requires if init then newHwPtr == hw.ptr else newHwPtr != hw.ptr
      modifies `silence
      ensures Fill(silence.start, silence.filled, frames)
           == if init then FreeInit(hw.ptr, applPtr, c) else FreeFill(old(silence).filled, hw.ptr, newHwPtr, c)
    {
      if init {
        var avail := applPtr - hw.ptr;
        if avail < 0 { avail := avail + c.boundary; }
        silence := SilenceVars(hw.ptr, if avail > c.bufferSize then 0 else avail);
      } else {
        UpdateSilenceVars(hw.ptr, newHwPtr);
      }
      frames := c.bufferSize - silence.filled;
    }

    /** What a silence call decides, by mode. */
    function SilenceFill(init: bool, newHwPtr: nat): Fill
      reads `hw, `applPtr, `silence
      requires newHwPtr < c.boundary && hw.ptr < c.boundary && applPtr < c.boundary && silence.start < c.boundary
      requires silence.filled <= c.bufferSize
    {
      if !c.FreeRunning() then ThresholdFill(silence, newHwPtr, applPtr, c)
      else if init then FreeInit(hw.ptr, applPtr, c)
      else FreeFill(silence.filled, hw.ptr, newHwPtr, c)
    }

    /** What a fill leaves of the chunk in flight. */
    function AfterFill(init: bool, f: Fill, flight: seq<Frame>): seq<Frame> {
      if !c.FreeRunning() then Muted(flight, f.kept, f.frames)
      else if init then Muted(flight, 0, f.frames)
      else flight
    }

    /**
      Fills the ring with silence when the hardware gets to newHwPtr (or at a start, `init`).
      A fill that starts right behind the committed end can run into a chunk in flight.
     */
    method PlaybackSilence(init: bool, newHwPtr: nat, ghost newWrap: nat) returns (chunks: nat, ghost f: Fill)
      requires c.Valid() && area.Length == c.bufferSize && newHwPtr < c.boundary
      requires hw.ptr < c.boundary && applPtr < c.boundary
      requires silence.start < c.boundary && silence.filled <= c.bufferSize
      requires if init then newHwPtr == hw.ptr else newHwPtr != hw.ptr
      modifies area, `silence, `g
      ensures chunks <= 2
      ensures f == old(SilenceFill(init, newHwPtr))
      ensures silence == SilenceVars(f.start, f.kept + f.frames) && silence.start < c.boundary
          && silence.filled <= c.bufferSize
      ensures area[..] == RingAfter(old(area[..]), f)
      ensures g == old(g).(silenceWrap := if c.FreeRunning() then newWrap else old(g).applWrap,
                           flight := AfterFill(init, f, old(g).flight))
    {
      hide Silenced, Muted;
      f := SilenceFill(init, newHwPtr);
      var frames;
      if !c.FreeRunning() {
        frames := ThresholdDemand(newHwPtr);
      } else {
        frames := FreeDemand(init, newHwPtr);
      }
      g := g.(silenceWrap := if c.FreeRunning() then newWrap else g.applWrap, flight := AfterFill(init, f, g.flight));
      chunks := 0;
      if frames == 0 {
        SilencedNone(area[..], Slot(f.start + f.kept, c.bufferSize));
        return;
      }
      chunks := FillRing(Slot(silence.start + silence.filled, c.bufferSize), frames);
    }

    /** A fill was carried out: the slots it names are silent, the others as they were, and it is on the books. */
    ghost predicate Done(f: Fill, was: seq<Frame>)
      requires 0 < |was|
      reads area, `silence
    {
      silence == SilenceVars(f.start, f.kept + f.frames) && area[..] == RingAfter(was, f)
    }

    /** What the fill of a pointer update does to the stream. */
    ghost predicate FilledStream(was: Stream, now: Stream, f: Fill) {
      now == was.(silenceWrap := now.silenceWrap,
                  flight := if c.silenceSize > 0 then AfterFill(false, f, was.flight) else was.flight)
    }

    /** After a threshold fill the promises hold again, whatever was in flight. */
    static lemma ThresholdLands(c: Config, ring: seq<Frame>, g: Stream, s: SilenceVars, applPtr: nat,
                                was: nat, wrap: nat, ptr: nat, f: Fill, g': Stream)
      requires c.Valid() && c.Threshold() && |ring| == c.bufferSize
      requires ApplOk(applPtr, g.End(), g.applWrap, c) && SilenceOk(s, g, c)
      requires Promised(ring, g, s, c, was) && Splits(wrap + ptr, wrap, ptr, c.boundary) && was <= wrap + ptr <= g.End()
      requires f == ThresholdFill(s, ptr, applPtr, c)
      requires g' == g.(silenceWrap := g.applWrap, flight := Muted(g.flight, f.kept, f.frames))
      ensures Promised(RingAfter(ring, f), g', SilenceVars(f.start, f.kept + f.frames), c, wrap + ptr)
    {
      if !g.unseen {
        ThresholdOutcome(QueueOf(ring, g), was, wrap + ptr, wrap, ptr, g.applWrap, applPtr,
                         g.silenceWrap + s.start, g.silenceWrap, s, c, f);
      }
    }

    /** A threshold fill keeps the promises. */
    method ThresholdAhead(newHwPtr: nat, ghost newWrap: nat)
      requires Valid() && Promised(area[..], g, silence, c, hw.Total()) && c.Threshold() && newHwPtr != hw.ptr
      requires Splits(newWrap + newHwPtr, newWrap, newHwPtr, c.boundary) && hw.Total() <= newWrap + newHwPtr
      modifies area, `silence, `g
      ensures SilenceOk(silence, g, c)
      ensures newWrap + newHwPtr <= g.End() ==> Promised(area[..], g, silence, c, newWrap + newHwPtr)
      ensures FilledStream(old(g), g, old(SilenceFill(false, newHwPtr)))
      ensures Done(old(SilenceFill(false, newHwPtr)), old(area[..]))
    {
      ghost var ring, g0, s0 := area[..], g, silence;
      var chunks, f := PlaybackSilence(false, newHwPtr, newWrap);
      if newWrap + newHwPtr <= g.End() {
        ThresholdLands(c, ring, g0, s0, applPtr, hw.Total(), newWrap, newHwPtr, f, g);
      }
    }

    /** A free-running fill keeps the promises, whatever is in flight, and silences what was just played. */
    method FreeAhead(newHwPtr: nat, ghost newWrap: nat)
      requires Valid() && Promised(area[..], g, silence, c, hw.Total()) && newHwPtr != hw.ptr
      requires c.FreeRunning() && silence.filled == c.bufferSize
      requires Splits(newWrap + newHwPtr, newWrap, newHwPtr, c.boundary) && hw.Total() <= newWrap + newHwPtr
      modifies area, `silence, `g
      ensures SilenceOk(silence, g, c) && silence.filled == c.bufferSize
      ensures newWrap + newHwPtr <= g.End() ==> Promised(area[..], g, silence, c, newWrap + newHwPtr)
      ensures newWrap + newHwPtr <= g.End() && !g.unseen ==>
                Silent(area[..], hw.Total() + c.bufferSize, newWrap + newHwPtr + c.bufferSize)
      ensures FilledStream(old(g), g, old(SilenceFill(false, newHwPtr)))
      ensures Done(old(SilenceFill(false, newHwPtr)), old(area[..]))
    {
      ghost var h, q := newWrap + newHwPtr, QueueOf(area[..], g);
      ghost var f0 := FreeFill(silence.filled, hw.ptr, newHwPtr, c);
      ghost var safe := h <= g.End() && !g.unseen;
      assert safe ==> q.(ring := RingAfter(q.ring, f0)).Kept(h)
                      && Silent(RingAfter(q.ring, f0), hw.Total() + c.bufferSize, h + c.bufferSize) by {
        if safe { FreeStep(q, hw.Total(), hw.wrap, hw.ptr, h, newWrap, newHwPtr, c, f0); }
      }
      var chunks, f := PlaybackSilence(false, newHwPtr, newWrap);
      assert QueueOf(area[..], g) == q.(ring := RingAfter(q.ring, f0));
    }

    /** The silence step of a pointer update. */
    method SilenceAhead(newHwPtr: nat, ghost newWrap: nat)
      requires Valid() && Promised(area[..], g, silence, c, hw.Total()) && newHwPtr != hw.ptr && Started(state)
      requires Splits(newWrap + newHwPtr, newWrap, newHwPtr, c.boundary) && hw.Total() <= newWrap + newHwPtr
      modifies area, `silence, `g
      ensures SilenceOk(silence, g, c) && (c.FreeRunning() ==> silence.filled == c.bufferSize)
      ensures newWrap + newHwPtr <= g.End() ==> Promised(area[..], g, silence, c, newWrap + newHwPtr)
      ensures c.FreeRunning() && newWrap + newHwPtr <= g.End() && !g.unseen ==>
                Silent(area[..], hw.Total() + c.bufferSize, newWrap + newHwPtr + c.bufferSize)
      ensures FilledStream(old(g), g, old(SilenceFill(false, newHwPtr)))
      ensures c.silenceSize == 0 ==> area[..] == old(area[..])
      ensures c.silenceSize > 0 ==> Done(old(SilenceFill(false, newHwPtr)), old(area[..]))
    {
      if c.silenceSize > 0 {
        if c.FreeRunning() { FreeAhead(newHwPtr, newWrap); } else { ThresholdAhead(newHwPtr, newWrap); }
      } else {
        ghost var h, q := newWrap + newHwPtr, QueueOf(area[..], g);
        assert h <= g.End() && !g.unseen ==> q.Kept(h) by {
          if h <= g.End() && !g.unseen {
            HoldsLater(area[..], g.origin, g.log + g.flight, hw.Total(), h);
          }
        }
      }
    }

    // -------------------------------------------------------------- hardware pointer

    /** A candidate for the new position, `turns` whole boundaries on from the old one. */
    ghost predicate Spot(p: nat, base: nat, crossed: nat, turns: nat, delta: nat)
      requires c.Valid()
      reads `hw
    {
      && Multiple(base, c.bufferSize) && base < c.boundary && p < c.bufferSize
      && base + p + turns == hw.ptr + delta && Multiple(turns, c.boundary)
      && (crossed == 0 <==> turns == 0) && (crossed == 1 ==> turns == c.boundary)
          && (crossed > 1 ==> turns > c.boundary)
    }

    /** Moves the base on by one buffer, counting a crossing of the boundary. */
    method NextTurn(base0: nat, crossed0: nat, ghost turns0: nat) returns (base: nat, crossed: nat, ghost turns: nat)
      requires c.Valid() && Multiple(base0, c.bufferSize) && base0 < c.boundary && Multiple(turns0, c.boundary)
      ensures Multiple(base, c.bufferSize) && base < c.boundary && Multiple(turns, c.boundary)
      ensures base + turns == base0 + turns0 + c.bufferSize
      ensures (crossed, turns) == (crossed0, turns0) || (crossed, turns) == (crossed0 + 1, turns0 + c.boundary)
    {
      MultipleRoom(base0, c.boundary, c.bufferSize);
      base, crossed, turns := base0 + c.bufferSize, crossed0, turns0;
      if base >= c.boundary {
        base, crossed, turns := 0, crossed0 + 1, turns0 + c.boundary;
      }
    }

    /** The position as seen without looking at lost interrupts. */
    method LocateFirst(p: nat, jdelta: nat, inInterrupt: bool)
      returns (base: nat, crossed: nat, delta: nat, ghost turns: nat)
      requires c.Valid() && p < c.bufferSize && hw.Valid(c)
      ensures delta == FirstStep(hw.ptr - hw.base, p, Overdue(hw, p, inInterrupt, c), jdelta, c)
      ensures Spot(p, base, crossed, turns, delta)
    {
      base, crossed, turns := hw.base, 0, 0;
      MultipleRoom(hw.base, c.boundary, c.bufferSize);
      if Overdue(hw, p, inInterrupt, c) && jdelta > c.BufferJiffies() / 2 + 1 {
        base, crossed, turns := NextTurn(base, crossed, turns);
      } else if base + p < hw.ptr {
        base, crossed, turns := NextTurn(base, crossed, turns);
      }
      delta := if base + p < hw.ptr then base + p - hw.ptr + c.boundary else base + p - hw.ptr;
    }

    /** Adds whole buffers until the elapsed time is explained. */
    method CatchUp(p: nat, hdelta0: int, base0: nat, crossed0: nat, delta0: nat, ghost turns0: nat)
      returns (base: nat, crossed: nat, delta: nat, ghost turns: nat)
      requires c.Valid() && Settles(hdelta0, c) && Spot(p, base0, crossed0, turns0, delta0)
      ensures delta == delta0 + LostFrames(hdelta0, c)
      ensures Spot(p, base, crossed, turns, delta)
    {
      base, crossed, delta, turns := base0, crossed0, delta0, turns0;
      var hdelta, jiffies := hdelta0, c.BufferJiffies();
      while hdelta > jiffies / 2 + 1
        invariant Spot(p, base, crossed, turns, delta) && Settles(hdelta, c)
        invariant delta + LostFrames(hdelta, c) == delta0 + LostFrames(hdelta0, c)
        decreases hdelta
      {
        delta := delta + c.bufferSize;
        base, crossed, turns := NextTurn(base, crossed, turns);
        hdelta := hdelta - jiffies;
      }
    }

    /** Works out from a report where the hardware pointer has got to. */
    method Locate(rep: Report, inInterrupt: bool) returns (base: nat, crossed: nat, delta: nat, ghost turns: nat)
      requires rep.At? && c.Valid() && hw.Valid(c)
      requires Returns(hw, rep, inInterrupt, c)
      ensures delta == Step(hw, rep, inInterrupt, c)
      ensures Spot(AlignedPos(rep.pos, c), base, crossed, turns, delta)
    {
      var p := AlignedPos(rep.pos, c);
      base, crossed, delta, turns := LocateFirst(p, rep.jdelta, inInterrupt);
      if c.noPeriodWakeup && rep.jdelta >= c.BufferJiffies() / 2 {
        base, crossed, delta, turns := CatchUp(p, Unexplained(rep.jdelta, delta, c), base, crossed, delta, turns);
      }
    }

    /** How a spot follows from the old position: the turns crossed, and the slot it lies in. */
    lemma SpotWraps(p: nat, base: nat, crossed: nat, turns: nat, delta: nat)
      requires c.Valid() && hw.ptr < c.boundary && Spot(p, base, crossed, turns, delta)
      ensures base + p == Slot(hw.ptr + delta, c.boundary) && base + p < c.boundary
      ensures var wrapped := if crossed == 0 then 0 else c.boundary;
              && Multiple(wrapped, c.boundary)
              && (delta < c.boundary ==> wrapped + base + p == hw.ptr + delta)
              && (base + p != hw.ptr ==> hw.ptr < wrapped + base + p)
    {
      MultipleRoom(base, c.boundary, c.bufferSize);
      SlotOfRest(base + p, turns, hw.ptr + delta, c.boundary);
      if delta < c.boundary { SmallMultiple(turns, c.boundary); }
    }

    /** Where an accepted report takes the hardware pointers, apart from the interrupt pointer. */
    ghost predicate Reaches(was: HwPtrs, now: HwPtrs, p: nat, step: nat)
      requires c.Valid()
    {
      && now.ptr == Slot(was.ptr + step, c.boundary) && now.ptr < c.boundary
      && now.base + p == now.ptr && Multiple(now.base, c.bufferSize) && now.base < c.boundary
      && (now.wrap == was.wrap || now.wrap == was.wrap + c.boundary) && Multiple(now.wrap, c.boundary)
      && was.Total() < now.Total() && (step < c.boundary ==> now.Total() == was.Total() + step)
    }

    /** The unwrapped position never goes back, and with regular interrupts moves less than a buffer and a period. */
    ghost predicate Advances(was: HwPtrs, now: HwPtrs) {
      was.Total() <= now.Total() && (!c.noPeriodWakeup ==> now.Total() < was.Total() + c.bufferSize + c.periodSize)
    }

    /** Reads a report: the position it means, and whether it is taken over. */
    method Read(rep: Report, inInterrupt: bool) returns (ok: bool, now: HwPtrs, ghost step: nat)
      requires rep.At? && c.Valid() && hw.Valid(c)
      requires Returns(hw, rep, inInterrupt, c)
      ensures step == Step(hw, rep, inInterrupt, c) && ok == Accepted(hw, step, c)
      ensures ok ==> Reaches(hw, now, AlignedPos(rep.pos, c), step) && now.interrupt == hw.interrupt
      ensures ok ==> Advances(hw, now)
    {
      hide Multiple, Slot, Advance;
      var base, crossed, delta, turns := Locate(rep, inInterrupt);
      var p := AlignedPos(rep.pos, c);
      step := delta;
      SpotWraps(p, base, crossed, turns, delta);
      assert crossed > 0 ==> Multiple(hw.wrap + c.boundary, c.boundary) by {
        MultipleSum(hw.wrap, c.boundary, c.boundary);
      }
      now := HwPtrs(base + p, base, hw.interrupt, if crossed > 0 then hw.wrap + c.boundary else hw.wrap);
      ok := !(!c.noPeriodWakeup && delta >= c.bufferSize + c.periodSize) && hw.ptr != now.ptr;
    }

    /** Moves the interrupt pointer on by whole periods, to less than one period behind. */
    method MoveInterrupt(newHwPtr: nat)
      requires c.Valid() && hw.interrupt < c.boundary && newHwPtr < c.boundary
      modifies `hw
      ensures hw == old(hw).(interrupt := hw.interrupt) && hw.interrupt < c.boundary
      ensures Gap(hw.interrupt, newHwPtr, c.boundary)
          == Slot(Gap(old(hw).interrupt, newHwPtr, c.boundary), c.periodSize)
    {
      var delta := newHwPtr - hw.interrupt;
      if delta < 0 { delta := delta + c.boundary; }
      delta := delta - Slot(delta, c.periodSize);
      var interrupt := hw.interrupt + delta;
      if interrupt >= c.boundary { interrupt := interrupt - c.boundary; }
      hw := hw.(interrupt := interrupt);
    }

    /** Takes over an accepted position: silence first, then the pointers. */
    method Take(now: HwPtrs, inInterrupt: bool)
      requires Valid() && Promised(area[..], g, silence, c, hw.Total()) && Started(state)
      requires now.ptr != hw.ptr && Splits(now.Total(), now.wrap, now.ptr, c.boundary) && hw.Total() <= now.Total()
      modifies area, `silence, `g, `hw
      ensures hw == now.(interrupt := hw.interrupt)
      ensures if inInterrupt then hw.interrupt < c.boundary && Gap(hw.interrupt, hw.ptr, c.boundary) < c.periodSize
              else hw.interrupt == old(hw).interrupt
      ensures SilenceOk(silence, g, c) && (c.FreeRunning() ==> silence.filled == c.bufferSize)
      ensures now.Total() <= g.End() ==> Promised(area[..], g, silence, c, now.Total())
      ensures FilledStream(old(g), g, old(SilenceFill(false, now.ptr)))
      ensures c.silenceSize == 0 ==> area[..] == old(area[..])
      ensures c.silenceSize > 0 ==> Done(old(SilenceFill(false, now.ptr)), old(area[..]))
    {
      hide Promised;
      SilenceAhead(now.ptr, now.wrap);
      if inInterrupt { MoveInterrupt(now.ptr); }
      hw := now.(interrupt := hw.interrupt);
    }

    // -------------------------------------------------------------- the update

    /** Stops the stream; an unopened one stays as it is. */
    method Stop(target: State)
      modifies `state
      ensures state == if old(state) == Open then Open else target
    {
      if state == Open { return; }
      state := target;
    }

    /** Whether a free space ends the stream: the queue has run dry. */
    predicate Exhausted(s: State, avail: nat) {
      if s == Draining then avail >= c.bufferSize else avail >= c.stopThreshold
    }

    method UpdateState() returns (r: int)
      requires c.bufferSize <= c.boundary && hw.ptr < c.boundary && applPtr < c.boundary
      modifies `state, `availMax
      ensures r == if Exhausted(old(state), PlaybackAvail(hw.ptr, applPtr, c)) then -EPIPE else 0
      ensures state == if r == 0 || old(state) == Open then old(state)
                       else if old(state) == Draining then Setup else Xrun
      ensures var avail := PlaybackAvail(hw.ptr, applPtr, c);
              availMax == if avail > old(availMax) then avail else old(availMax)
    {
      var avail := PlaybackAvail(hw.ptr, applPtr, c);
      if avail > availMax { availMax := avail; }
      if state == Draining {
        if avail >= c.bufferSize {
          Stop(Setup);
          return -EPIPE;
        }
      } else {
        if avail >= c.stopThreshold {
          Stop(Xrun);
          return -EPIPE;
        }
      }
      return 0;
    }

    /** An underrun by a short advance stops the stream. */
    lemma NoticedUnderrun(was: HwPtrs, now: HwPtrs, step: nat, s: State)
      requires c.Valid() && ApplOk(applPtr, g.End(), g.applWrap, c)
      requires Splits(now.Total(), now.wrap, now.ptr, c.boundary)
      requires was.Total() <= g.End() <= was.Total() + c.bufferSize
      requires c.StopsWhenDry() && Short(step, c) && now.Total() == was.Total() + step && g.End() < now.Total()
      ensures Exhausted(s, PlaybackAvail(now.ptr, applPtr, c))
    {
      UnderrunStops(was.Total(), now.Total(), now.wrap, now.ptr, g.End(), g.applWrap, applPtr, c);
    }

    /** Too little of a queue is left to go on: nothing in a drain, otherwise a buffer less the stop threshold. */
    predicate RunDry(s: State, left: int) { left <= if s == Draining then 0 else c.bufferSize - c.stopThreshold }

    /** After a short advance the free space ends the stream exactly if the queue has run dry. */
    lemma RunDryIff(was: HwPtrs, now: HwPtrs, step: nat, s: State)
      requires c.Valid() && ApplOk(applPtr, g.End(), g.applWrap, c)
      requires Splits(now.Total(), now.wrap, now.ptr, c.boundary)
      requires was.Total() <= g.End() <= was.Total() + c.bufferSize
      requires Short(step, c) && now.Total() == was.Total() + step
      ensures Exhausted(s, PlaybackAvail(now.ptr, applPtr, c)) <==> RunDry(s, g.End() - now.Total())
    {
      AvailIsSpace(now.Total(), now.wrap, now.ptr, g.End(), g.applWrap, applPtr, c);
    }

    /** A report that moves the hardware by a short advance ends the stream exactly if the queue has run dry. */
    ghost predicate Ends(was: HwPtrs, s: State, rep: Report, inInterrupt: bool, r: int)
      requires rep.At? && c.Valid() && was.base <= was.ptr < was.base + c.bufferSize
      reads `hw, `state, `g
    {
      var moved := Moved(was, rep, inInterrupt, c);
      && (r == -EPIPE <==> moved > 0 && RunDry(s, g.End() - hw.Total()))
      && state == if r == 0 then s else if s == Draining then Setup else Xrun
    }

    /** What an accepted report does to pointers, state and stream. */
    ghost predicate Followed(was: HwPtrs, now: HwPtrs, st: State, g0: Stream, inInterrupt: bool, r: int, f: Fill)
      requires now.ptr < c.boundary && applPtr < c.boundary && c.bufferSize <= c.boundary
      requires hw.ptr < c.boundary && 0 < c.periodSize
      reads `hw, `applPtr, `state, `g
    {
      && hw == now.(interrupt := hw.interrupt)
      && (if inInterrupt then hw.interrupt < c.boundary && Gap(hw.interrupt, hw.ptr, c.boundary) < c.periodSize
          else hw.interrupt == was.interrupt)
      && r == (if Exhausted(st, PlaybackAvail(now.ptr, applPtr, c)) then -EPIPE else 0)
      && state == (if r == 0 then st else if st == Draining then Setup else Xrun)
      && FilledStream(g0, g.(unseen := g0.unseen), f)
      && (g.unseen <==> g0.unseen || (r == 0 && now.Total() > g.End()))
    }

    /** Looks at the free space that a taken position leaves; an underrun it lets pass is noted. */
    method Judge() returns (r: int)
      requires c.bufferSize <= c.boundary && hw.ptr < c.boundary && applPtr < c.boundary && Moving(state)
      modifies `state, `availMax, `g
      ensures r == if Exhausted(old(state), PlaybackAvail(hw.ptr, applPtr, c)) then -EPIPE else 0
      ensures state == if r == 0 then old(state) else if old(state) == Draining then Setup else Xrun
      ensures g == old(g).(unseen := old(g).unseen || (r == 0 && hw.Total() > old(g).End()))
    {
      r := UpdateState();
      if r == 0 && hw.Total() > g.End() { g := g.(unseen := true); }
    }

    /** Takes over a position and looks at the free space it leaves. */
    method Accept(now: HwPtrs, inInterrupt: bool) returns (r: int)
      requires Valid() && Promised(area[..], g, silence, c, hw.Total()) && Moving(state)
      requires now.ptr != hw.ptr && Splits(now.Total(), now.wrap, now.ptr, c.boundary) && hw.Total() <= now.Total()
      modifies area, `state, `availMax, `silence, `g, `hw
      ensures hw.ptr == now.ptr
          && Followed(old(hw), now, old(state), old(g), inInterrupt, r, old(SilenceFill(false, now.ptr)))
      ensures SilenceOk(silence, g, c) && (c.FreeRunning() ==> silence.filled == c.bufferSize)
      ensures r == 0 ==> Promised(area[..], g, silence, c, hw.Total())
    {
      hide Promised;
      Take(now, inInterrupt);
      r := Judge();
      if g.unseen { NothingPromised(area[..], g, silence, c, hw.Total()); }
    }

    /**
      What may happen to the stream while a writer is at work: silence can get into the chunk in
      flight, unless all is calm, and an underrun can be let pass, unless all is on time.
     */
    ghost predicate Disturbed(was: Stream, now: Stream, calm: bool, onTime: bool) {
      && now == was.(flight := now.flight, silenceWrap := now.silenceWrap, unseen := now.unseen)
      && (calm ==> now.flight == was.flight)
      && (was.unseen ==> now.unseen) && (onTime && now.unseen ==> was.unseen)
      && |now.flight| == |was.flight|
    }

    /** A fill leaves the stream faithful, and off a chunk in flight what the mode keeps off. */
    lemma FillDisturbs(was: Stream, now: Stream, f: Fill, onTime: bool)
      requires Faithful(was) && FilledStream(was, now.(unseen := was.unseen), f)
      requires (was.unseen ==> now.unseen) && (onTime && now.unseen ==> was.unseen)
      ensures Faithful(now) && Disturbed(was, now, !c.Threshold() || |was.flight| <= f.kept, onTime)
    {
      MutedHeard(was.packet, was.flight, f.kept, f.frames);
      if |was.flight| <= f.kept { MutedSame(was.flight, f.kept, f.frames); }
    }

    /** Takes over a position `step` frames on: an underrun by a short advance is not let pass. */
    method Adopt(now: HwPtrs, inInterrupt: bool, ghost step: nat) returns (r: int)
      requires Valid() && Promised(area[..], g, silence, c, hw.Total()) && Moving(state)
      requires now.ptr != hw.ptr && Splits(now.Total(), now.wrap, now.ptr, c.boundary) && hw.Total() <= now.Total()
      requires step < c.boundary ==> now.Total() == hw.Total() + step
      modifies area, `state, `availMax, `silence, `g, `hw
      ensures hw.ptr == now.ptr
          && Followed(old(hw), now, old(state), old(g), inInterrupt, r, old(SilenceFill(false, now.ptr)))
      ensures Faithful(g) && Disturbed(old(g), g, !c.Threshold(), c.StopsWhenDry() && Short(step, c))
      ensures !old(g).unseen && Short(step, c) ==> (r == -EPIPE <==> RunDry(old(state), g.End() - hw.Total()))
      ensures SilenceOk(silence, g, c) && (c.FreeRunning() ==> silence.filled == c.bufferSize)
      ensures r == 0 ==> Promised(area[..], g, silence, c, hw.Total())
    {
      ghost var onTime := c.StopsWhenDry() && Short(step, c);
      assert onTime && !g.unseen && now.Total() > g.End() ==> Exhausted(state, PlaybackAvail(now.ptr, applPtr, c)) by {
        if onTime && !g.unseen && now.Total() > g.End() { NoticedUnderrun(hw, now, step, state); }
      }
      if !g.unseen && Short(step, c) { RunDryIff(hw, now, step, state); }
      r := Accept(now, inInterrupt);
      FillDisturbs(old(g), g, old(SilenceFill(false, now.ptr)), onTime);
    }

    /** Reads a position and takes it over if accepted; otherwise nothing changes. */
    method Follow(rep: Report, inInterrupt: bool) returns (r: int, ghost step: nat, ghost now: HwPtrs)
      requires rep.At? && Valid() && Promised(area[..], g, silence, c, hw.Total()) && Moving(state)
      requires Returns(hw, rep, inInterrupt, c)
      modifies area, `state, `availMax, `silence, `g, `hw
      ensures step == Step(old(hw), rep, inInterrupt, c)
      ensures !Accepted(old(hw), step, c) ==> r == 0 && unchanged(this) && area[..] == old(area[..])
      ensures Accepted(old(hw), step, c) ==> Reaches(old(hw), now, AlignedPos(rep.pos, c), step)
      ensures hw.ptr < c.boundary
      ensures Accepted(old(hw), step, c) ==>
                Followed(old(hw), now, old(state), old(g), inInterrupt, r, old(SilenceFill(false, now.ptr)))
      ensures Moved(old(hw), rep, inInterrupt, c) < c.boundary ==>
                hw.Total() == old(hw).Total() + Moved(old(hw), rep, inInterrupt, c)
      ensures !old(g).unseen && Short(Moved(old(hw), rep, inInterrupt, c), c) ==>
                Ends(old(hw), old(state), rep, inInterrupt, r)
      ensures Advances(old(hw), hw)
      ensures Faithful(g) && Disturbed(old(g), g, !c.Threshold(), c.StopsWhenDry() && Short(step, c))
      ensures SilenceOk(silence, g, c) && (c.FreeRunning() ==> silence.filled == c.bufferSize)
      ensures r == 0 ==> Promised(area[..], g, silence, c, hw.Total())
    {
      hide Promised, Moved, RunDry, AlignedPos, Step, Overdue, FilledStream, Exhausted;
      if Moved(hw, rep, inInterrupt, c) < c.boundary { MovedIsTaken(hw, rep, inInterrupt, c); }
      var ok, to, s := Read(rep, inInterrupt);
      step, now, r := s, to, 0;
      if ok { r := Adopt(to, inInterrupt, s); }
    }

    /** An accepted position keeps the base at the start of its buffer turn. */
    lemma ReachesValid(was: HwPtrs, now: HwPtrs, interrupt: nat, p: nat, step: nat)
      requires c.Valid() && p < c.bufferSize && Reaches(was, now, p, step) && interrupt < c.boundary
      ensures now.(interrupt := interrupt).Valid(c)
    {
    }

    /**
      The pointer update. An xrun report stops the stream; an implausible advance, or none,
      changes nothing; an accepted one moves the pointers, and stops the stream if that has used
      up the queue as far as the wrapped free space shows it.
     */
    method UpdateHwPtr0(rep: Report, inInterrupt: bool) returns (r: int, ghost step: nat, ghost now: HwPtrs)
      requires Valid() && Promised(area[..], g, silence, c, hw.Total()) && Moving(state)
      requires Returns(hw, rep, inInterrupt, c)
      modifies area, `state, `availMax, `silence, `g, `hw
      ensures rep.XrunReport? ==> r == -EPIPE && state == Xrun && hw == old(hw) && g == old(g)
      ensures rep.At? ==> step == Step(old(hw), rep, inInterrupt, c)
      ensures rep.At? && Moved(old(hw), rep, inInterrupt, c) < c.boundary ==>
                hw.Total() == old(hw).Total() + Moved(old(hw), rep, inInterrupt, c)
      ensures rep.At? && !old(g).unseen && Short(Moved(old(hw), rep, inInterrupt, c), c) ==>
                Ends(old(hw), old(state), rep, inInterrupt, r)
      ensures rep.At? && !Accepted(old(hw), step, c) ==> r == 0 && unchanged(this) && area[..] == old(area[..])
      ensures rep.At? && Accepted(old(hw), step, c) ==> Reaches(old(hw), now, AlignedPos(rep.pos, c), step)
      ensures hw.Valid(c) && SilenceOk(silence, g, c) && (c.FreeRunning() ==> silence.filled == c.bufferSize)
      ensures rep.At? && Accepted(old(hw), step, c) ==>
                Followed(old(hw), now, old(state), old(g), inInterrupt, r, old(SilenceFill(false, now.ptr)))
      ensures Advances(old(hw), hw)
      ensures Faithful(g) && Disturbed(old(g), g, !c.Threshold(), c.StopsWhenDry() && (rep.At? ==> Short(step, c)))
      ensures r == 0 ==> Promised(area[..], g, silence, c, hw.Total())
    {
      hide Promised, Moved, RunDry, FilledStream, AlignedPos, Exhausted, Step, Overdue, Ends;
      now := hw;
      if rep.XrunReport? {
        Stop(Xrun);
        r, step := -EPIPE, 0;
      } else {
        r, step, now := Follow(rep, inInterrupt);
        assert hw.Valid(c) by {
          if Accepted(old(hw), step, c) {
            ReachesValid(old(hw), now, hw.interrupt, AlignedPos(rep.pos, c), step);
          }
        }
      }
    }

    /** A pointer update of a moving stream, seen from a writer. */
    method Update(rep: Report, inInterrupt: bool) returns (r: int)
      requires Valid() && Promised(area[..], g, silence, c, hw.Total()) && Moving(state)
      requires Returns(hw, rep, inInterrupt, c)
      modifies area, `state, `availMax, `silence, `g, `hw
      ensures Faithful(g) && Disturbed(old(g), g, !c.Threshold(), c.StopsWhenDry() && InTime(rep, c))
      ensures if r == 0 then state == old(state) else r == -EPIPE && !Live(state)
      ensures hw.Valid(c) && SilenceOk(silence, g, c) && (c.FreeRunning() ==> silence.filled == c.bufferSize)
      ensures Advances(old(hw), hw)
      ensures r == 0 ==> Promised(area[..], g, silence, c, hw.Total())
      ensures rep.At? && Moved(old(hw), rep, inInterrupt, c) < c.boundary ==>
                hw.Total() == old(hw).Total() + Moved(old(hw), rep, inInterrupt, c)
      ensures rep.At? && !old(g).unseen && Short(Moved(old(hw), rep, inInterrupt, c), c) ==>
                Ends(old(hw), old(state), rep, inInterrupt, r)
      ensures rep.XrunReport? ==> state == Xrun
    {
      hide Promised;
      ghost var step, now;
      r, step, now := UpdateHwPtr0(rep, inInterrupt);
      assert rep.At? && Accepted(old(hw), step, c) && InTime(rep, c) ==> Short(step, c) by {
        if rep.At? && Accepted(old(hw), step, c) && InTime(rep, c) { InTimeIsShort(old(hw), rep, inInterrupt, c); }
      }
    }

    /** A period interrupt, or a pointer query, on whatever state the stream is in. */
    method HwEvent(rep: Report, inInterrupt: bool) returns (r: int)
      requires Inv() && (Moving(state) ==> Returns(hw, rep, inInterrupt, c))
      modifies area, `state, `availMax, `silence, `g, `hw
      ensures Inv() && Disturbed(old(g), g, !c.Threshold(), c.StopsWhenDry() && InTime(rep, c))
      ensures r == 0 ==> state == old(state)
      ensures r != 0 ==> r == -EPIPE && !Live(state)
      ensures Advances(old(hw), hw)
      ensures !Moving(old(state)) ==> unchanged(this)
      ensures Moving(old(state)) && rep.XrunReport? ==> state == Xrun
      ensures Moving(old(state)) && rep.At? && Moved(old(hw), rep, inInterrupt, c) < c.boundary ==>
                hw.Total() == old(hw).Total() + Moved(old(hw), rep, inInterrupt, c)
      ensures Moving(old(state)) && rep.At? && !old(g).unseen && Short(Moved(old(hw), rep, inInterrupt, c), c) ==>
                Ends(old(hw), old(state), rep, inInterrupt, r)
    {
      hide Promised;
      if !Moving(state) { return 0; }
      r := Update(rep, inInterrupt);
    }

    // -------------------------------------------------------------- application pointer

    predicate Accessible(s: State) { s in {Prepared, Running, Paused} }

    method AccessibleState() returns (err: int)
      ensures err == (if Accessible(state) then 0 else if state == Xrun then -EPIPE
                      else if state == Suspended then -ESTRPIPE else -EBADFD)
    {
      match state
      case Prepared | Running | Paused => return 0;
      case Xrun => return -EPIPE;
      case Suspended => return -ESTRPIPE;
      case _ => return -EBADFD;
    }

    /**
      Sets the application pointer and tells the driver; `ack` is the driver's answer (0 without
      one). Any error leaves the pointer as it was.
     */
    method ApplyApplPtr(newPtr: nat, ack: int) returns (r: int)
      requires applPtr < c.boundary
      modifies `applPtr, `state
      ensures r <= 0 && applPtr == if r == 0 then newPtr else old(applPtr)
      ensures newPtr == old(applPtr) ==> r == 0
      ensures newPtr != old(applPtr) ==>
                r == if newPtr >= c.boundary then -EINVAL
                     else if c.noRewinds && Gap(old(applPtr), newPtr, c.boundary) > c.bufferSize then -EINVAL
                     else if ack < 0 then ack else 0
      ensures state == if r == -EPIPE && old(state) != Open then Xrun else old(state)
    {
      var oldPtr := applPtr;
      if oldPtr == newPtr { return 0; }
      if newPtr >= c.boundary { return -EINVAL; }
      if c.noRewinds {
        var diff := newPtr - oldPtr;
        if diff >= 0 {
          if diff > c.bufferSize { return -EINVAL; }
        } else {
          if c.boundary + diff > c.bufferSize { return -EINVAL; }
        }
      }
      applPtr := newPtr;
      if ack < 0 {
        applPtr := oldPtr;
        if ack == -EPIPE { Stop(Xrun); }
        return ack;
      }
      return 0;
    }

    /** A piece copied behind a kept queue and what is in flight, where it fits, is in flight behind them. */
    static lemma CopyLands(c: Config, ring: seq<Frame>, g: Stream, s: SilenceVars, applPtr: nat, h: nat,
                           piece: seq<Frame>)
      requires c.Valid() && |ring| == c.bufferSize && ApplOk(applPtr, g.End(), g.applWrap, c)
      requires Promised(ring, g, s, c, h) && Slot(applPtr, c.bufferSize) + |g.flight| + |piece| <= c.bufferSize
      requires !g.unseen ==> g.End() + |g.flight| + |piece| <= h + c.bufferSize
      ensures Promised(Copied(ring, Slot(applPtr, c.bufferSize) + |g.flight|, piece),
                       g.(packet := g.packet + piece, flight := g.flight + piece), s, c, h)
    {
      hide Holds, Silent, Copied;
      if !g.unseen {
        var q := QueueOf(ring, g);
        PointerSlot(g.End(), g.applWrap, applPtr, 0, c);
        CopyKeeps(q, h, piece);
        if c.Threshold() { CopyKeepsQuiet(q, h, g.silenceWrap + s.start, s.filled, piece); }
      }
    }

    method CopyFrames(ofs: nat, piece: seq<Frame>)
      requires ofs + |piece| <= area.Length
      modifies area
      ensures area[..] == Copied(old(area[..]), ofs, piece)
    {
      forall k | 0 <= k < |piece| { area[ofs + k] := piece[k]; }
    }

    /** Copies a piece of a chunk to the ring, `done` frames behind the application pointer. */
    method CopyIn(piece: seq<Frame>, done: nat)
      requires Inv() && done == |g.flight| && Slot(applPtr, c.bufferSize) + done + |piece| <= c.bufferSize
      requires Fits(done + |piece|)
      modifies area, `g
      ensures Inv() && g == old(g).(packet := old(g).packet + piece, flight := old(g).flight + piece)
    {
      hide Promised;
      var ofs := Slot(applPtr, c.bufferSize) + done;
      ghost var ring := area[..];
      if Live(state) { CopyLands(c, ring, g, silence, applPtr, hw.Total(), piece); }
      CopyFrames(ofs, piece);
      HeardMore(g.packet, g.flight, piece);
      g := g.(packet := g.packet + piece, flight := g.flight + piece);
    }

    /** Gives up the chunk in flight: its frames stay in the ring, uncounted. */
    ghost method Drop()
      requires Inv()
      modifies `g
      ensures Inv() && g == old(g).(packet := [], flight := [], stray := g.stray)
    {
      if Live(state) && !g.unseen { DropKeeps(QueueOf(area[..], g), hw.Total()); }
      g := g.(packet := [], flight := [], stray := QueueOf(area[..], g).Behind());
    }

    /** The stream with the chunk in flight committed. */
    static ghost function Landed(g: Stream): Stream {
      g.(sent := g.sent + g.packet, log := g.log + g.flight, packet := [], flight := [])
    }

    /** With the chunk in flight committed, the promises still hold. */
    lemma LandingKeeps(g': Stream)
      requires Inv() && Live(state) && g' == Landed(g).(applWrap := g'.applWrap)
      ensures Promised(area[..], g', silence, c, hw.Total())
    {
      var q, from := QueueOf(area[..], g), g.silenceWrap + silence.start;
      if !g.unseen {
        CommitKeeps(q, hw.Total());
        if c.Threshold() { CommitKeepsQuiet(q, hw.Total(), from, silence.filled); }
      }
    }

    /** Moves the application pointer over the chunk in flight, unless the driver refuses. */
    method CommitChunk(frames: nat, ack: int) returns (r: int)
      requires Inv() && 0 < frames == |g.flight| <= c.bufferSize
      modifies `applPtr, `state, `g
      ensures Inv() && r <= 0
      ensures g == if r == 0 then Landed(old(g)).(applWrap := g.applWrap)
                   else old(g).(packet := [], flight := [], stray := g.stray)
      ensures r < 0 ==> applPtr == old(applPtr)
      ensures r == if ack < 0 then ack else 0
      ensures state == old(state) || !Live(state)
      ensures r == 0 ==> state == old(state)
      ensures r == 0 && old(applPtr) + frames < c.boundary ==> applPtr == old(applPtr) + frames
    {
      hide Promised;
      var newPtr := applPtr + frames;
      ghost var landed := Landed(g);
      if newPtr >= c.boundary {
        newPtr := newPtr - c.boundary;
        MultipleSum(g.applWrap, c.boundary, c.boundary);
        landed := landed.(applWrap := g.applWrap + c.boundary);
      }
      assert ApplOk(newPtr, landed.End(), landed.applWrap, c);
      if Live(state) { LandingKeeps(landed); }
      r := ApplyApplPtr(newPtr, ack);
      if r < 0 { Drop(); } else { g := landed; }
    }

    // -------------------------------------------------------------- life of a stream

    /** Nothing written, nothing consumed, nothing silenced. */
    ghost predicate Fresh()
      reads `hw, `applPtr, `silence, `g
    {
      && hw.ptr + hw.base + hw.interrupt + hw.wrap + applPtr == 0
      && silence.start + silence.filled == 0
      && g.origin + g.applWrap + g.silenceWrap + g.stray == 0 && !g.unseen
      && |g.sent| + |g.log| + |g.packet| + |g.flight| == 0
    }

    constructor (c: Config)
      requires c.Valid()
      ensures this.c == c && fresh(area) && area.Length == c.bufferSize && state == Setup
    {
      this.c := c;
      area := new Frame[c.bufferSize];
      state := Setup;
      hw := HwPtrs(0, 0, 0, 0);
      applPtr, availMax, silence := 0, 0, SilenceVars(0, 0);
      g := Stream(0, 0, [], [], [], [], 0, 0, 0, false);
    }

    /** An empty stream promises nothing that does not hold. */
    lemma FreshHolds()
      requires c.Valid() && area.Length == c.bufferSize && Fresh() && state == Prepared
      ensures Inv()
    {
      assert Multiple(0, c.bufferSize) && Multiple(0, c.boundary);
      assert QueueOf(area[..], g).Kept(0);
      assert QueueOf(area[..], g).Quiet(0, 0, 0);
    }

    method ResetPointers()
      modifies `hw, `silence, `applPtr, `g
      ensures Fresh() && g.life == old(g).life + 1
    {
      hw := HwPtrs(0, 0, 0, 0);
      silence := SilenceVars(hw.ptr, 0);
      applPtr := hw.ptr;
      g := Stream(g.life + 1, 0, [], [], [], [], 0, 0, 0, false);
    }

    /** Resets both pointers: an empty queue, and nothing known to be silent; `result` is the driver's answer. */
    method Prepare(result: int) returns (err: int)
      requires c.Valid() && area.Length == c.bufferSize
      modifies `state, `hw, `silence, `applPtr, `g
      ensures err == if old(state) in {Open, Disconnected} then -EBADFD
                     else if Moving(old(state)) then -EBUSY
                     else if result < 0 then result else 0
      ensures err != 0 ==> unchanged(this)
      ensures err == 0 ==> Inv() && state == Prepared && Fresh() && g.life == old(g).life + 1
    {
      if state in {Open, Disconnected} { return -EBADFD; }
      if Moving(state) { return -EBUSY; }
      if result < 0 { return result; }
      ResetPointers();
      state := Prepared;
      FreshHolds();
      return 0;
    }

    /** What the fill of a start does to the stream. */
    ghost predicate StartedStream(was: Stream, now: Stream, f: Fill) {
      now == was.(silenceWrap := now.silenceWrap,
                  flight := if c.silenceSize > 0 then AfterFill(true, f, was.flight) else was.flight)
    }

    /** After the fill at a free-running start the promises hold again, with a chunk in flight muted. */
    static lemma FreeInitLands(c: Config, ring: seq<Frame>, g: Stream, s: SilenceVars, applPtr: nat, hw: HwPtrs,
                               g': Stream, s': SilenceVars)
      requires c.Valid() && c.FreeRunning() && |ring| == c.bufferSize
      requires hw.Valid(c) && ApplOk(applPtr, g.End(), g.applWrap, c)
      requires Promised(ring, g, s, c, hw.Total())
      requires g' == g.(silenceWrap := g'.silenceWrap,
                        flight := Muted(g.flight, 0, FreeInit(hw.ptr, applPtr, c).frames))
      ensures Promised(RingAfter(ring, FreeInit(hw.ptr, applPtr, c)), g', s', c, hw.Total())
    {
      if !g.unseen {
        FreeInitStep(QueueOf(ring, g), hw.Total(), hw.wrap, hw.ptr, g.applWrap, applPtr, c,
                     FreeInit(hw.ptr, applPtr, c));
      }
    }

    /** The silence step of a start; it can run into a chunk in flight. */
    method SilenceInit()
      requires c.silenceSize > 0 && c.Valid() && area.Length == c.bufferSize && hw.Valid(c)
      requires ApplOk(applPtr, g.End(), g.applWrap, c) && SilenceOk(silence, g, c)
      requires Promised(area[..], g, silence, c, hw.Total())
      modifies area, `silence, `g
      ensures SilenceOk(silence, g, c) && (c.FreeRunning() ==> silence.filled == c.bufferSize)
      ensures Promised(area[..], g, silence, c, hw.Total())
      ensures StartedStream(old(g), g, old(SilenceFill(true, hw.ptr)))
      ensures Done(old(SilenceFill(true, hw.ptr)), old(area[..]))
    {
      hide Silenced, Muted;
      ghost var ring, g0, s0 := area[..], g, silence;
      assert !g.unseen ==> hw.Total() <= g.End();
      var chunks, f := PlaybackSilence(true, hw.ptr, hw.wrap);
      if !g.unseen {
        if c.FreeRunning() {
          FreeInitLands(c, ring, g0, s0, applPtr, hw, g, silence);
        } else {
          ThresholdLands(c, ring, g0, s0, applPtr, hw.Total(), hw.wrap, hw.ptr, f, g);
        }
      }
    }

    /** The free space that the pointers show. */
    function Avail(): nat
      reads `hw, `applPtr
      requires hw.ptr < c.boundary && applPtr < c.boundary && c.bufferSize <= c.boundary
    {
      PlaybackAvail(hw.ptr, applPtr, c)
    }

    /** Whether there is anything to play, or underruns do not matter. */
    predicate HasData()
      reads `hw, `applPtr
      requires hw.ptr < c.boundary && applPtr < c.boundary && c.bufferSize <= c.boundary
    {
      c.stopThreshold >= c.boundary || PlaybackAvail(hw.ptr, applPtr, c) < c.bufferSize
    }

    /** There is something to play exactly if the queue is not empty, or underruns do not matter. */
    lemma DataIff()
      requires Inv() && Live(state) && !g.unseen
      ensures HasData() <==> hw.Total() < g.End() || c.boundary <= c.stopThreshold
    {
      FreeSpace();
    }

    /** A start leaves the stream faithful, and spares a chunk in flight only without a silence mode. */
    lemma StartDisturbs(was: Stream, now: Stream, f: Fill)
      requires Faithful(was) && StartedStream(was, now, f)
      ensures Faithful(now) && Disturbed(was, now, c.silenceSize == 0 || was.flight == [], true)
    {
      MutedHeard(was.packet, was.flight, f.kept, f.frames);
      MutedHeard(was.packet, was.flight, 0, f.frames);
    }

    /** The end of a start: the fill of the mode, in the new state. A moving stream can have it again. */
    method PostStart(to: State)
      requires Inv() && Live(state) && to in {Running, Draining}
      modifies area, `state, `silence, `g
      ensures Inv() && state == to
      ensures StartedStream(old(g), g, old(SilenceFill(true, hw.ptr)))
      ensures c.silenceSize > 0 ==> Done(old(SilenceFill(true, hw.ptr)), old(area[..]))
      ensures c.silenceSize == 0 ==> area[..] == old(area[..])
    {
      state := to;
      if c.silenceSize > 0 {
        SilenceInit();
        StartDisturbs(old(g), g, old(SilenceFill(true, hw.ptr)));
      }
    }

    /** Starts a prepared stream with something to play; `result` is the driver's answer. */
    method Start(result: int) returns (err: int)
      requires Inv() && state == Prepared
      modifies area, `state, `silence, `g
      ensures Inv()
      ensures err == if !old(HasData()) then -EPIPE else if result < 0 then result else 0
      ensures state == if err == 0 then Running else if old(HasData()) && result == -EPIPE then Xrun else Prepared
      ensures err != 0 ==> g == old(g)
      ensures err == 0 ==> StartedStream(old(g), g, old(SilenceFill(true, hw.ptr)))
      ensures if err == 0 && c.silenceSize > 0 then Done(old(SilenceFill(true, hw.ptr)), old(area[..]))
              else area[..] == old(area[..])
    {
      hide Promised;
      if !HasData() { return -EPIPE; }
      if result < 0 {
        if result == -EPIPE { state := Xrun; }
        return result;
      }
      PostStart(Running);
      return 0;
    }

    /** Begins a drain: a prepared stream with something queued is started for it. */
    method DrainInit()
      requires Inv()
      modifies area, `state, `silence, `g
      ensures Inv()
      ensures state == match old(state)
                       case Prepared => if PlaybackAvail(hw.ptr, applPtr, c) < c.bufferSize then Draining else Setup
                       case Running | Paused => Draining
                       case Xrun => Setup
                       case _ => old(state)
      ensures if old(state) == Prepared && state == Draining
              then StartedStream(old(g), g, old(SilenceFill(true, hw.ptr)))
                   && (c.silenceSize > 0 ==> Done(old(SilenceFill(true, hw.ptr)), old(area[..])))
              else g == old(g) && area[..] == old(area[..])
    {
      hide Promised;
      match state
      case Prepared =>
        if PlaybackAvail(hw.ptr, applPtr, c) < c.bufferSize {
          PostStart(Draining);
        } else {
          state := Setup;
        }
      case Running | Paused => state := Draining;
      case Xrun => state := Setup;
      case _ =>
    }

    /** The parameters, set again to what they are, pass the checks. */
    predicate Resettable() { 0 < c.availMin && (c.FreeRunning() ==> c.silenceThreshold == 0) }

    /** Sets the software parameters to what they are: a moving stream gets the fill of a start once more. */
    method SwParams() returns (r: int)
      requires Inv()
      modifies area, `state, `availMax, `silence, `g
      ensures Inv()
      ensures var dry := Moving(old(state)) && Exhausted(old(state), PlaybackAvail(hw.ptr, applPtr, c));
              && r == (if old(state) == Open then -EBADFD else if !Resettable() then -EINVAL
                       else if dry then -EPIPE else 0)
              && state == (if r != -EPIPE then old(state) else if old(state) == Draining then Setup else Xrun)
      ensures if Moving(old(state)) && Resettable()
              then StartedStream(old(g), g, old(SilenceFill(true, hw.ptr)))
                   && (c.silenceSize > 0 ==> Done(old(SilenceFill(true, hw.ptr)), old(area[..])))
              else g == old(g) && area[..] == old(area[..])
    {
      hide Promised, StartedStream, Done;
      if state == Open { return -EBADFD; }
      if c.availMin == 0 { return -EINVAL; }
      if c.silenceSize >= c.boundary {
        if c.silenceThreshold != 0 { return -EINVAL; }
      }
      r := 0;
      if Moving(state) {
        PostStart(state);
        r := UpdateState();
      }
    }

    // -------------------------------------------------------------- writing

    /**
      One event, while the buffer is locked against a preparation. A report on which the pointer update would
      never return is skipped.
     */
    method Happen(e: Event)
      requires Inv()
      modifies area, `state, `availMax, `silence, `g, `hw
      ensures Inv() && Disturbed(old(g), g, Calm(e, c) || old(g).flight == [], OnTime(e, c))
          && hw.Total() >= old(hw).Total()
      ensures Live(state) ==> Live(old(state))
      ensures Gentle(e) && Accessible(old(state)) ==> Accessible(state)
      ensures e.PausePush? ==> state == if old(state) == Running then Paused else old(state)
      ensures e.PauseRelease? ==> state == if old(state) == Paused then Running else old(state)
      ensures e.Halt? ==> state == if Live(e.target) || old(state) == Open then old(state) else e.target
      ensures e.Reset? ==> unchanged(this)
      ensures e.Begin? && old(state) == Prepared && old(HasData()) ==>
                state == if e.result >= 0 then Running else if e.result == -EPIPE then Xrun else Prepared
      ensures e.DrainStart? && old(state) in {Running, Paused} ==> state == Draining
      ensures e.Hw? && Moving(old(state)) && e.rep.At? && Returns(old(hw), e.rep, e.inInterrupt, c)
              && Moved(old(hw), e.rep, e.inInterrupt, c) < c.boundary ==>
                hw.Total() == old(hw).Total() + Moved(old(hw), e.rep, e.inInterrupt, c)
    {
      hide Promised;
      match e
      case Hw(rep, inInterrupt) =>
        if Returns(hw, rep, inInterrupt, c) { var r := HwEvent(rep, inInterrupt); }
      case Begin(result) =>
        if state == Prepared { var r := Start(result); }
      case DrainStart => DrainInit();
      case SetSwParams => var r := SwParams();
      case Reset(_) =>
      case Halt(target) => if !Live(target) { Stop(target); }
      case PausePush => if state == Running { state := Paused; }
      case PauseRelease => if state == Paused { state := Running; }
    }

    /** Whatever happens while the lock is free. */
    method Window(events: seq<Event>)
      requires Inv()
      modifies area, `state, `availMax, `silence, `g, `hw
      ensures Inv() && Disturbed(old(g), g, AllCalm(events, c) || old(g).flight == [], AllOnTime(events, c))
      ensures hw.Total() >= old(hw).Total()
      ensures Live(state) ==> Live(old(state))
      ensures AllGentle(events) && Accessible(old(state)) ==> Accessible(state)
    {
      hide Promised;
      for k := 0 to |events|
        invariant Inv() && Disturbed(old(g), g, AllCalm(events, c) || old(g).flight == [], AllOnTime(events, c))
        invariant hw.Total() >= old(hw).Total()
        invariant AllGentle(events) && Accessible(old(state)) ==> Accessible(state)
        invariant Live(state) ==> Live(old(state))
      {
        assert events[k] in events;
        Happen(events[k]);
      }
    }

    /** What a sleeper finds: an error of the state it wakes up in, or a sleep that was too long. */
    function WakeError(timedOut: bool): int
      reads `state
    {
      match state
      case Suspended => -ESTRPIPE
      case Xrun | Draining => -EPIPE
      case Open | Setup | Disconnected => -EBADFD
      case Paused => 0
      case Prepared | Running => if timedOut then -EIO else 0
    }

    /** What a pause in the work of a writer with nothing in flight may bring. */
    static ghost predicate Waited(was: Stream, now: Stream, onTime: bool) {
      now == was.(silenceWrap := now.silenceWrap, unseen := now.unseen)
      && (was.unseen ==> now.unseen) && (onTime && now.unseen ==> was.unseen)
    }

    /** Nothing, or a new life: what sleeping may bring to a writer with nothing in flight. */
    static ghost predicate Slept(was: Stream, now: Stream, onTime: bool) {
      if now.life == was.life then Waited(was, now, onTime)
      else now.life > was.life && Anew(now) && (onTime ==> !now.unseen)
    }

    /** Nothing was written since the last preparation. */
    static ghost predicate Anew(g: Stream) { |g.sent| + |g.log| + |g.packet| + |g.flight| + g.origin == 0 }

    /** One event while the buffer is not locked: a preparation is possible as well. */
    method HappenAsleep(e: Event)
      requires Inv() && g.flight == []
      modifies area, `state, `availMax, `silence, `g, `hw, `applPtr
      ensures Inv() && Slept(old(g), g, OnTime(e, c))
      ensures g.life == old(g).life ==> hw.Total() >= old(hw).Total() && applPtr == old(applPtr)
      ensures g.life == old(g).life && Live(state) ==> Live(old(state))
      ensures e.Reset? && e.result >= 0 && old(state) !in {Open, Disconnected, Running, Draining} ==>
                state == Prepared && Fresh() && g.life == old(g).life + 1
    {
      hide Promised;
      if e.Reset? {
        var err := Prepare(e.result);
      } else {
        Happen(e);
      }
    }

    /** Whatever happens while a writer sleeps. */
    method Sleep(events: seq<Event>)
      requires Inv() && g.flight == []
      modifies area, `state, `availMax, `silence, `g, `hw, `applPtr
      ensures Inv() && Slept(old(g), g, AllOnTime(events, c))
      ensures g.life == old(g).life ==> hw.Total() >= old(hw).Total() && applPtr == old(applPtr)
      ensures g.life == old(g).life && Live(state) ==> Live(old(state))
    {
      hide Promised;
      for k := 0 to |events|
        invariant Inv() && Slept(old(g), g, AllOnTime(events, c))
        invariant g.life == old(g).life ==> hw.Total() >= old(hw).Total() && applPtr == old(applPtr)
        invariant g.life == old(g).life && Live(state) ==> Live(old(state))
      {
        assert events[k] in events;
        HappenAsleep(events[k]);
      }
    }

    /** Sleeps until there is space for `twake` frames, or something goes wrong. */
    method WaitForAvail(twake: nat, rounds: seq<Round>) returns (err: int, avail: nat)
      requires Inv() && g.flight == []
      modifies area, `state, `availMax, `silence, `g, `hw, `applPtr
      ensures Inv() && g.flight == [] && Slept(old(g), g, RoundsOnTime(rounds, c))
      ensures g.life == old(g).life ==> hw.Total() >= old(hw).Total() && applPtr == old(applPtr)
      ensures err <= 0 && (err == 0 ==> avail == PlaybackAvail(hw.ptr, applPtr, c) && avail >= twake)
      ensures err in {0, -ERESTARTSYS, -ESTRPIPE, -EPIPE, -EBADFD, -EIO}
      ensures err !in {0, -ERESTARTSYS} ==>
                && (err == -ESTRPIPE <==> state == Suspended) && (err == -EPIPE <==> state in {Xrun, Draining})
                && (err == -EBADFD <==> state in {Open, Setup, Disconnected})
      ensures rounds != [] && (forall r | r in rounds :: r.timedOut && !r.signal) && state in {Prepared, Running} ==>
                err == 0 || err == -EIO
      ensures rounds != [] && !rounds[0].signal && old(PlaybackAvail(hw.ptr, applPtr, c)) >= twake ==>
                err == 0 && unchanged(this) && avail == PlaybackAvail(hw.ptr, applPtr, c)
      ensures rounds != [] && rounds[0].signal ==> err == -ERESTARTSYS && unchanged(this)
      ensures g.life == old(g).life && Live(state) ==> Live(old(state))
      ensures err == 0 ==> unchanged(this) || Accessible(state)
      ensures err == -EIO ==> exists r | r in rounds :: r.timedOut
    {
      hide Promised;
      avail := 0;
      for k := 0 to |rounds|
        invariant Inv() && Slept(old(g), g, RoundsOnTime(rounds, c))
        invariant g.life == old(g).life ==> hw.Total() >= old(hw).Total() && applPtr == old(applPtr)
        invariant g.life == old(g).life && Live(state) ==> Live(old(state))
        invariant k == 0 ==> unchanged(this)
        invariant k > 0 ==>
                    Accessible(state) && !rounds[0].signal && old(PlaybackAvail(hw.ptr, applPtr, c)) < twake
        invariant k > 0 && (forall r | r in rounds :: r.timedOut) ==> state == Paused
      {
        assert rounds[k] in rounds;
        if rounds[k].signal { return -ERESTARTSYS, avail; }
        avail := PlaybackAvail(hw.ptr, applPtr, c);
        if avail >= twake { return 0, avail; }
        assert RoundsOnTime(rounds, c) ==> AllOnTime(rounds[k].events, c);
        Sleep(rounds[k].events);
        var e := WakeError(rounds[k].timedOut);
        if e < 0 { return e, avail; }
      }
      return -ERESTARTSYS, avail;
    }

    /** A chunk fits: it ends within a buffer of the hardware, as long as the queue is kept. */
    ghost predicate Fits(count: nat)
      reads `state, `g, `hw
    {
      Live(state) && !g.unseen ==> g.End() + count <= hw.Total() + c.bufferSize
    }

    /** Free space never promises more than the ring has. */
    lemma AvailFits()
      requires Inv()
      ensures Fits(PlaybackAvail(hw.ptr, applPtr, c))
    {
      if Live(state) && !g.unseen {
        AvailIsSpace(hw.Total(), hw.wrap, hw.ptr, g.End(), g.applWrap, applPtr, c);
      }
    }

    /** While the queue is kept, the free space is what the queue leaves of the ring. */
    lemma FreeSpace()
      requires Inv() && Live(state) && !g.unseen
      ensures PlaybackAvail(hw.ptr, applPtr, c) == c.bufferSize - (g.End() - hw.Total())
    {
      AvailIsSpace(hw.Total(), hw.wrap, hw.ptr, g.End(), g.applWrap, applPtr, c);
    }

    /** A chunk may have got into flight, or strayed; what was committed is as it was. */
    static ghost predicate Kin(was: Stream, now: Stream, onTime: bool) {
      now == was.(packet := now.packet, flight := now.flight, silenceWrap := now.silenceWrap,
                  stray := now.stray, unseen := now.unseen)
      && (was.unseen ==> now.unseen) && (onTime && now.unseen ==> was.unseen)
    }

    /** What a copy under way may do to the stream. */
    static ghost predicate Copying(was: Stream, now: Stream, packet: seq<Frame>, calm: bool, onTime: bool) {
      && Kin(was, now, onTime) && now.stray == was.stray
      && now.packet == packet && |now.flight| == |packet| && (calm ==> now.flight == packet)
    }

    /** Copies a chunk in pieces, with anything happening between them; it may stop short of the end. */
    method CopyPieces(chunk: seq<Frame>, pieces: seq<Piece>) returns (done: nat)
      requires Inv() && |g.flight| == 0 && Slot(applPtr, c.bufferSize) + |chunk| <= c.bufferSize && Fits(|chunk|)
      modifies area, `state, `availMax, `silence, `g, `hw
      ensures Inv() && done <= |chunk| && hw.Total() >= old(hw).Total()
      ensures Live(state) ==> Live(old(state))
      ensures Copying(old(g), g, chunk[..done], PiecesCalm(pieces, c), PiecesOnTime(pieces, c))
      ensures done == if Frames(pieces) < |chunk| then Frames(pieces) else |chunk|
      ensures (forall p | p in pieces :: AllGentle(p.events)) && Accessible(old(state)) ==> Accessible(state)
    {
      hide Promised, Slot, Multiple;
      done := 0;
      for k := 0 to |pieces|
        invariant Inv() && done <= |chunk| && hw.Total() >= old(hw).Total()
        invariant Live(state) ==> Live(old(state))
        invariant Copying(old(g), g, chunk[..done], PiecesCalm(pieces, c), PiecesOnTime(pieces, c))
        invariant done == if Frames(pieces[..k]) < |chunk| then Frames(pieces[..k]) else |chunk|
        invariant (forall p | p in pieces :: AllGentle(p.events)) && Accessible(old(state)) ==> Accessible(state)
      {
        assert pieces[k] in pieces;
        var frames := if pieces[k].frames > |chunk| - done then |chunk| - done else pieces[k].frames;
        CopyIn(chunk[done..done + frames], done);
        assert chunk[..done] + chunk[done..done + frames] == chunk[..done + frames];
        done := done + frames;
        FramesOn(pieces, k);
        Window(pieces[k].events);
      }
      assert pieces[..|pieces|] == pieces;
    }

    /** Copies a chunk outside the lock, among whatever else happens there; an error drops it. */
    method CopyOutsideLock(chunk: seq<Frame>, pass: Pass) returns (err: int)
      requires Inv() && g.flight == [] && chunk != []
      requires Slot(applPtr, c.bufferSize) + |chunk| <= c.bufferSize && Fits(|chunk|)
      modifies area, `state, `availMax, `silence, `g, `hw
      ensures Inv() && hw.Total() >= old(hw).Total()
      ensures Live(state) ==> Live(old(state))
      ensures err <= 0 && g.packet == (if err == 0 then chunk else [])
      ensures PiecesCalm(pass.pieces, c) ==> g.flight == g.packet
      ensures Kin(old(g), g, PassOnTime(pass, c))
      ensures err == 0 ==> Accessible(state)
      ensures Frames(pass.pieces) < |chunk| ==> err == -EFAULT
      ensures err in {0, -EFAULT, -EPIPE, -ESTRPIPE, -EBADFD}
      ensures Smooth(pass, |chunk|) && Accessible(old(state)) ==> err == 0
    {
      hide Promised;
      Window(pass.before);
      var done := CopyPieces(chunk, pass.pieces);
      assert chunk[..|chunk|] == chunk;
      if done < |chunk| {
        Drop();
        return -EFAULT;
      }
      err := AccessibleState();
      if err < 0 { Drop(); }
    }

    /** Starts a prepared stream once enough is queued. */
    method MaybeStart(result: int) returns (err: int)
      requires Inv() && g.flight == []
      modifies area, `state, `silence, `g
      ensures Inv() && Waited(old(g), g, true)
      ensures Live(state) ==> Live(old(state))
      ensures var due := old(state) == Prepared && c.bufferSize - PlaybackAvail(hw.ptr, applPtr, c) >= c.startThreshold;
              && err == (if !due then 0 else if !HasData() then -EPIPE else if result < 0 then result else 0)
              && (if !due then state == old(state)
                  else if err == 0 then state == Running
                  else state in {Prepared, Xrun})
    {
      hide Promised;
      if state == Prepared && c.bufferSize - PlaybackAvail(hw.ptr, applPtr, c) >= c.startThreshold {
        err := Start(result);
      } else {
        err := 0;
      }
    }

    /** A prepared stream with enough queued has been started. */
    predicate WaitsForMore()
      reads `state, `hw, `applPtr
    {
      state == Prepared && hw.ptr < c.boundary && applPtr < c.boundary && c.bufferSize <= c.boundary ==>
        c.bufferSize - PlaybackAvail(hw.ptr, applPtr, c) < c.startThreshold
    }

    /** Copies a chunk and commits it, or neither. */
    method CopyAndCommit(chunk: seq<Frame>, pass: Pass) returns (err: int)
      requires Inv() && g.flight == [] && chunk != []
      requires Slot(applPtr, c.bufferSize) + |chunk| <= c.bufferSize && Fits(|chunk|)
      modifies area, `state, `availMax, `silence, `g, `hw, `applPtr
      ensures Inv() && g.flight == [] && g.life == old(g).life && hw.Total() >= old(hw).Total()
      ensures Live(state) ==> Live(old(state))
      ensures Grown(old(g), g, PiecesCalm(pass.pieces, c), PassOnTime(pass, c))
      ensures err <= 0 && g.sent == if err == 0 then old(g).sent + chunk else old(g).sent
      ensures err < 0 ==> g.log == old(g).log && applPtr == old(applPtr)
      ensures err == 0 || Blamed(err, pass)
      ensures Smooth(pass, |chunk|) && Accessible(old(state)) ==> err == 0
    {
      hide Promised;
      err := CopyOutsideLock(chunk, pass);
      if err < 0 { return; }
      ghost var g1 := g;
      err := CommitChunk(|chunk|, pass.ack);
      if err == 0 { GrowsBy(old(g), g1, g, chunk, PiecesCalm(pass.pieces, c), PassOnTime(pass, c)); }
    }

    /** One chunk: copy, commit, and perhaps a start. It is committed iff `done`. */
    method TransferChunk(chunk: seq<Frame>, pass: Pass) returns (err: int, done: bool)
      requires Inv() && g.flight == [] && chunk != []
      requires Slot(applPtr, c.bufferSize) + |chunk| <= c.bufferSize && Fits(|chunk|)
      modifies area, `state, `availMax, `silence, `g, `hw, `applPtr
      ensures Inv() && g.flight == [] && g.life == old(g).life && hw.Total() >= old(hw).Total()
      ensures Live(state) ==> Live(old(state))
      ensures err <= 0 && (err == 0 ==> done)
      ensures Grown(old(g), g, PiecesCalm(pass.pieces, c), PassOnTime(pass, c))
      ensures g.sent == if done then old(g).sent + chunk else old(g).sent
      ensures !done ==> g.log == old(g).log && applPtr == old(applPtr)
      ensures err == 0 ==> WaitsForMore()
      ensures pass.busy ==> err == -EBUSY && !done
      ensures err == 0 || Blamed(err, pass)
      ensures Smooth(pass, |chunk|) && Accessible(old(state)) ==> done
    {
      hide Promised;
      done := false;
      if pass.busy { return -EBUSY, false; }
      err := CopyAndCommit(chunk, pass);
      if err < 0 { return; }
      done := true;
      err := MaybeStart(pass.start);
    }

    /** Committing a chunk grows the stream by it. */
    static lemma GrowsBy(was: Stream, mid: Stream, now: Stream, chunk: seq<Frame>, calm: bool, onTime: bool)
      requires Kin(was, mid, onTime) && mid.packet == chunk && (calm ==> mid.flight == mid.packet)
      requires now == Landed(mid).(applWrap := now.applWrap)
      ensures Grown(was, now, calm, onTime) && now.sent == was.sent + chunk
    {
    }

    /**
      A stream between writes, later on: nothing that was committed since its preparation has changed; it is
      clean if it was and all was calm; and no underrun was let pass if all was on time.
     */
    static ghost predicate Grown(was: Stream, now: Stream, calm: bool, onTime: bool) {
      && now.life >= was.life
      && (now.life == was.life ==>
            now.origin == was.origin && was.log <= now.log && was.sent <= now.sent && (was.unseen ==> now.unseen))
      && (calm && (now.life == was.life ==> was.log == was.sent) ==> now.log == now.sent)
      && (onTime && now.unseen ==> was.unseen && now.life == was.life)
    }

    /** What of the frames committed before is not thrown away by a preparation. */
    static ghost function Lasting(was: Stream, now: Stream): seq<Frame> {
      if now.life == was.life then was.sent else []
    }

    /** The space a writer waits for: for all it has, or as much as it is to be woken up for. */
    function Wanted(size: nat): nat {
      if size <= c.availMin then size else if c.availMin == 0 && size > 0 then 1 else c.availMin
    }

    /** The space known at the top of a pass, waiting for some if there is none. */
    method Space(size: nat, avail0: nat, nonblock: bool, rounds: seq<Round>) returns (err: int, avail: nat)
      requires Inv() && g.flight == [] && 0 < size && Fits(avail0)
      modifies area, `state, `availMax, `silence, `g, `hw, `applPtr
      ensures Inv() && g.flight == [] && Slept(old(g), g, RoundsOnTime(rounds, c))
      ensures g.life == old(g).life ==> hw.Total() >= old(hw).Total() && applPtr == old(applPtr)
      ensures err <= 0 && (err == 0 ==> 0 < avail && Fits(avail))
      ensures avail0 > 0 ==> err == 0 && avail == avail0 && unchanged(this)
      ensures avail0 == 0 && nonblock ==> err == -EAGAIN && unchanged(this)
      ensures err == -EAGAIN ==> avail0 == 0 && nonblock
      ensures g.life == old(g).life && Live(state) ==> Live(old(state))
      ensures err == 0 && avail0 == 0 ==> avail >= Wanted(size) && (unchanged(this) || Accessible(state))
      ensures avail0 == 0 && !nonblock && rounds != [] && !rounds[0].signal && old(Avail()) >= Wanted(size) ==>
                err == 0 && unchanged(this)
    {
      hide Promised;
      if avail0 > 0 { return 0, avail0; }
      if nonblock { return -EAGAIN, 0; }
      var least := if c.availMin == 0 then 1 else c.availMin;
      err, avail := WaitForAvail(if size < least then size else least, rounds);
      if err == 0 { AvailFits(); }
    }

    /** As long as nothing happens nothing changes. */
    static lemma GrowsFirst(g: Stream, calm: bool, onTime: bool)
      ensures Grown(g, g, calm, onTime) && Lasting(g, g) == g.sent
    {
    }

    /** A pass that slept and then transferred: what it did to the stream. */
    static lemma TurnGrows(was: Stream, mid: Stream, now: Stream, slept: bool, calm: bool, onTime: bool)
      requires Slept(was, mid, slept) && Grown(mid, now, calm, onTime) && now.life == mid.life && (onTime ==> slept)
      ensures Grown(was, now, calm, onTime) && Lasting(was, now) == mid.sent
    {
    }

    /** What a pass can transfer: what there is, and fits, up to the end of the ring. */
    function Portion(size: nat, avail: nat, ptr: nat): nat
      requires 0 < c.bufferSize
    {
      var fits := if size > avail then avail else size;
      var rest := c.bufferSize - ptr % c.bufferSize;
      if fits > rest then rest else fits
    }

    /** Transfers what fits, up to the end of the ring. */
    method TransferSome(rest: seq<Frame>, avail0: nat, pass: Pass) returns (err: int, count: nat, avail: nat)
      requires Inv() && g.flight == [] && rest != [] && 0 < avail0 && Fits(avail0)
      modifies area, `state, `availMax, `silence, `g, `hw, `applPtr
      ensures Inv() && g.flight == [] && g.life == old(g).life && hw.Total() >= old(hw).Total()
      ensures count <= |rest| && g.sent == old(g).sent + rest[..count]
      ensures Grown(old(g), g, PiecesCalm(pass.pieces, c), PassOnTime(pass, c))
      ensures count == 0 ==> applPtr == old(applPtr)
      ensures err <= 0 && (err == 0 ==> 0 < count && Fits(avail))
      ensures err == 0 ==> WaitsForMore()
      ensures g.life == old(g).life && Live(state) ==> Live(old(state))
      ensures err == 0 || Blamed(err, pass)
      ensures count <= Portion(|rest|, avail0, old(applPtr))
      ensures Smooth(pass, |rest|) && Accessible(old(state)) ==> count == Portion(|rest|, avail0, old(applPtr))
    {
      hide Promised;
      count, avail := 0, avail0;
      var cont := c.bufferSize - Slot(applPtr, c.bufferSize);
      var frames := if |rest| > avail then avail else |rest|;
      if frames > cont { frames := cont; }
      SlotIsRemainder(applPtr, c.bufferSize);
      var done;
      assert rest[..0] == [] && old(g).sent + [] == old(g).sent;
      err, done := TransferChunk(rest[..frames], pass);
      if done { count, avail := frames, avail - frames; }
    }

    /**
      One pass of the transfer loop: waits for space if there is none, and transfers what fits. A preparation
      while it waits throws away what was committed before.
     */
    method Turn(rest: seq<Frame>, avail0: nat, nonblock: bool, pass: Pass) returns (err: int, count: nat, avail: nat)
      requires Inv() && g.flight == [] && rest != [] && Fits(avail0)
      modifies area, `state, `availMax, `silence, `g, `hw, `applPtr
      ensures Inv() && g.flight == []
      ensures count <= |rest| && g.sent == Lasting(old(g), g) + rest[..count]
      ensures Grown(old(g), g, PiecesCalm(pass.pieces, c), PassOnTime(pass, c))
      ensures g.life == old(g).life ==>
                hw.Total() >= old(hw).Total() && (count == 0 ==> applPtr == old(applPtr))
      ensures err <= 0 && (err == 0 ==> 0 < count && Fits(avail))
      ensures err == 0 ==> WaitsForMore()
      ensures nonblock ==> g.life == old(g).life
      ensures avail0 == 0 && nonblock ==> err == -EAGAIN && count == 0 && unchanged(this)
      ensures err == -EAGAIN ==> nonblock || Blamed(err, pass)
      ensures g.life == old(g).life && Live(state) ==> Live(old(state))
      ensures avail0 > 0 && Smooth(pass, |rest|) && Accessible(old(state)) ==>
                count == Portion(|rest|, avail0, old(applPtr))
    {
      hide Promised, Grown, Slept;
      count := 0;
      err, avail := Space(|rest|, avail0, nonblock, pass.rounds);
      ghost var g1 := g;
      GrowsFirst(g, PiecesCalm(pass.pieces, c), PassOnTime(pass, c));
      if err == 0 { err, count, avail := TransferSome(rest, avail, pass); } else { assert rest[..0] == []; }
      TurnGrows(old(g), g1, g, RoundsOnTime(pass.rounds, c), PiecesCalm(pass.pieces, c), PassOnTime(pass, c));
    }

    /** The wake-up check after a transfer, unless that ended with an error or moved nothing. */
    method WakeUp(xfer: nat, err: int)
      requires Inv()
      modifies `state, `availMax
      ensures Inv() && (state == old(state) || !Live(state))
      ensures xfer == 0 || err < 0 ==> unchanged(this)
      ensures xfer > 0 && err >= 0 && old(state) != Open ==>
                state == if !Exhausted(old(state), Avail()) then old(state)
                         else if old(state) == Draining then Setup else Xrun
    {
      hide Promised;
      if xfer > 0 && err >= 0 { var r := UpdateState(); }
    }

    /** The free space at the start of a transfer, after a look at a running device. */
    method Refresh(first: Report) returns (avail: nat)
      requires Inv() && g.flight == []
      modifies area, `state, `availMax, `silence, `g, `hw
      ensures Inv() && Waited(old(g), g, c.StopsWhenDry() && InTime(first, c))
      ensures hw.Total() >= old(hw).Total() && Fits(avail)
      ensures old(state) != Running ==> unchanged(this) && avail == PlaybackAvail(hw.ptr, applPtr, c)
      ensures Live(state) ==> Live(old(state))
      ensures old(state) == Running ==> state == Running || !Live(state)
      ensures state == Running && !g.unseen ==> avail >= old(PlaybackAvail(hw.ptr, applPtr, c))
      ensures old(state) == Running && first.At? && Returns(old(hw), first, false, c)
              && Moved(old(hw), first, false, c) < c.boundary ==>
                hw.Total() == old(hw).Total() + Moved(old(hw), first, false, c)
    {
      hide Promised;
      if Live(state) && !g.unseen { FreeSpace(); }
      if state == Running && Returns(hw, first, false, c) { var e := HwEvent(first, false); }
      avail := PlaybackAvail(hw.ptr, applPtr, c);
      AvailFits();
      if Live(state) && !g.unseen { FreeSpace(); }
    }

    /** Another pass: what was committed before it counts only if it did not see a preparation. */
    static lemma PassGrows(was: Stream, mid: Stream, now: Stream, calm: bool, onTime: bool, calm1: bool, onTime1: bool)
      requires Grown(was, mid, calm, onTime) && Grown(mid, now, calm1, onTime1)
      requires (calm ==> calm1) && (onTime ==> onTime1)
      ensures Grown(was, now, calm, onTime)
      ensures was.life <= mid.life <= now.life
    {
    }

    /**
      The loop over the passes. The frames counted are those committed, in order; the first `lost` of them were
      thrown away by preparations while the writer slept.
     */
    method TransferAll(data: seq<Frame>, avail0: nat, nonblock: bool, env: seq<Pass>)
      returns (err: int, xfer: nat, ghost lost: nat)
      requires Inv() && g.flight == [] && |data| <= |env| && Fits(avail0)
      modifies area, `state, `availMax, `silence, `g, `hw, `applPtr
      ensures Inv() && g.flight == []
      ensures err <= 0 && lost <= xfer <= |data| && g.sent == Lasting(old(g), g) + data[lost..xfer]
      ensures Grown(old(g), g, EnvCalm(env, c), EnvOnTime(env, c))
      ensures err == 0 ==> xfer == |data| && (data == [] || WaitsForMore())
      ensures g.life == old(g).life ==>
                lost == 0 && hw.Total() >= old(hw).Total() && (xfer == 0 ==> applPtr == old(applPtr))
      ensures nonblock ==> g.life == old(g).life
      ensures avail0 == 0 && nonblock && data != [] ==> err == -EAGAIN && xfer == 0 && unchanged(this)
      ensures err == -EAGAIN ==> nonblock || exists p | p in env :: Blamed(err, p)
      ensures g.life == old(g).life && Live(state) ==> Live(old(state))
      ensures data != [] && avail0 > 0 && Smooth(env[0], |data|) && Accessible(old(state)) ==>
                xfer >= Portion(|data|, avail0, old(applPtr))
    {
      hide Promised, Grown, Slot, PlaybackAvail, Smooth, Blamed, Portion;
      hide EnvCalm, EnvOnTime, PiecesCalm, PassOnTime, WaitsForMore, Accessible, Fits;
      var avail: nat, pass: nat := avail0, 0;
      err, xfer, lost := 0, 0, 0;
      GrowsFirst(g, EnvCalm(env, c), EnvOnTime(env, c));
      while xfer < |data| && err == 0
        invariant Inv() && g.flight == []
        invariant lost <= xfer <= |data| && (err == 0 ==> pass <= xfer)
        invariant g.sent == Lasting(old(g), g) + data[lost..xfer]
        invariant Grown(old(g), g, EnvCalm(env, c), EnvOnTime(env, c))
        invariant g.life == old(g).life ==>
                    lost == 0 && hw.Total() >= old(hw).Total() && (xfer == 0 ==> applPtr == old(applPtr))
        invariant err <= 0 && (err == 0 ==> Fits(avail) && (xfer == 0 || WaitsForMore()))
        invariant nonblock ==> g.life == old(g).life
        invariant pass == 0 ==> unchanged(this) && avail == avail0 && err == xfer == 0
        invariant avail0 == 0 && nonblock && data != [] && pass > 0 ==> err == -EAGAIN && xfer == 0 && unchanged(this)
        invariant err == -EAGAIN ==> nonblock || exists p | p in env :: Blamed(err, p)
        invariant g.life == old(g).life && Live(state) ==> Live(old(state))
        invariant data != [] && avail0 > 0 && Smooth(env[0], |data|) && Accessible(old(state)) && pass > 0 ==>
                    xfer >= Portion(|data|, avail0, old(applPtr))
        decreases if err == 0 then 1 + |data| - xfer else 0
      {
        EachPass(env, pass, c);
        ghost var g1 := g;
        var count;
        err, count, avail := Turn(data[xfer..], avail, nonblock, env[pass]);
        PassGrows(old(g), g1, g, EnvCalm(env, c), EnvOnTime(env, c), PiecesCalm(env[pass].pieces, c),
                  PassOnTime(env[pass], c));
        if g.life != g1.life { lost := xfer; }
        LogGrows(Lasting(old(g), g), data, lost, xfer, count);
        xfer, pass := xfer + count, pass + 1;
      }
    }

    /** With more space no less can be transferred. */
    lemma PortionGrows(size: nat, a: nat, b: nat, ptr: nat)
      requires 0 < c.bufferSize && a <= b
      ensures Portion(size, a, ptr) <= Portion(size, b, ptr)
      ensures 0 < size && 0 < a ==> 0 < Portion(size, a, ptr)
    {
    }

    /** A write to a stream that can be written to. */
    method XferNow(data: seq<Frame>, nonblock: bool, first: Report, env: seq<Pass>)
      returns (r: int, ghost lost: nat, ghost err: int)
      requires Inv() && g.flight == [] && 0 < |data| <= |env| && Accessible(state)
      modifies area, `state, `availMax, `silence, `g, `hw, `applPtr
      ensures Inv() && g.flight == [] && r != 0 && err <= 0
      ensures (r < 0 ==> r == err) && (err == 0 ==> r == |data| && WaitsForMore())
      ensures err == 0 && Live(state) ==> !Exhausted(state, Avail())
      ensures r <= |data| && lost <= Most(r, 0) && g.sent == Lasting(old(g), g) + data[lost..Most(r, 0)]
      ensures Grown(old(g), g, EnvCalm(env, c), InTime(first, c) && EnvOnTime(env, c))
      ensures g.life == old(g).life ==>
                lost == 0 && hw.Total() >= old(hw).Total() && (r <= 0 ==> applPtr == old(applPtr))
      ensures nonblock ==> g.life == old(g).life
      ensures r == -EAGAIN ==> nonblock || exists p | p in env :: Blamed(r, p)
      ensures nonblock && old(state) != Running && old(Avail()) == 0 ==> r == -EAGAIN && unchanged(this)
      ensures Smooth(env[0], |data|) && old(Avail()) > 0
              && (old(state) == Running ==> Accessible(state) && g.life == old(g).life && !g.unseen) ==>
                r >= Portion(|data|, old(Avail()), old(applPtr))
    {
      hide Promised, Smooth, Blamed, Portion, PlaybackAvail;
      var avail := Refresh(first);
      if old(Avail()) <= avail { PortionGrows(|data|, old(Avail()), avail, applPtr); }
      var e, xfer;
      e, xfer, lost := TransferAll(data, avail, nonblock, env);
      err := e;
      WakeUp(xfer, e);
      r := if xfer > 0 then xfer else e;
    }

    /**
      A write. A positive result is the number of frames committed, whatever error ended the loop, with those
      that a preparation has thrown away since; a negative one means that nothing was committed. Only a
      nonblocking write, or the driver, answers that there is no space; and what fits at once is written,
      unless something fails or stops the stream.
     */
    method Xfer(data: seq<Frame>, nonblock: bool, first: Report, env: seq<Pass>)
      returns (r: int, ghost lost: nat, ghost err: int)
      requires Inv() && g.flight == [] && |data| <= |env|
      modifies area, `state, `availMax, `silence, `g, `hw, `applPtr
      ensures Inv() && g.flight == []
      ensures r <= |data| && lost <= Most(r, 0) && g.sent == Lasting(old(g), g) + data[lost..Most(r, 0)]
      ensures Grown(old(g), g, EnvCalm(env, c), InTime(first, c) && EnvOnTime(env, c))
      ensures g.life == old(g).life ==>
                lost == 0 && hw.Total() >= old(hw).Total() && (r <= 0 ==> applPtr == old(applPtr))
      ensures r == 0 <==> data == []
      ensures err <= 0 && (r < 0 ==> r == err) && (err == 0 ==> r == |data|)
      ensures err == 0 && data != [] && Live(state) ==> WaitsForMore() && !Exhausted(state, Avail())
      ensures data != [] && !Accessible(old(state)) ==>
                && unchanged(this)
                && r == (if state == Xrun then -EPIPE else if state == Suspended then -ESTRPIPE else -EBADFD)
      ensures nonblock ==> g.life == old(g).life
      ensures r == -EAGAIN ==> nonblock || exists p | p in env :: Blamed(r, p)
      ensures nonblock && data != [] && old(state) in {Prepared, Paused} && old(Avail()) == 0 ==>
                r == -EAGAIN && unchanged(this)
      ensures data != [] && Accessible(old(state)) && Smooth(env[0], |data|) && old(Avail()) > 0
              && (old(state) == Running ==> Accessible(state) && g.life == old(g).life && !g.unseen) ==>
                r >= Portion(|data|, old(Avail()), old(applPtr))
    {
      hide Promised, Smooth, Blamed, Portion, PlaybackAvail;
      lost, err := 0, 0;
      if data == [] {
        GrowsFirst(g, EnvCalm(env, c), InTime(first, c) && EnvOnTime(env, c));
        return 0, 0, 0;
      }
      r := AccessibleState();
      err := r;
      if r < 0 {
        GrowsFirst(g, EnvCalm(env, c), InTime(first, c) && EnvOnTime(env, c));
        return;
      }
      r, lost, err := XferNow(data, nonblock, first, env);
    }

    /** Hands in a chunk with nothing happening in between. */
    method Put(chunk: seq<Frame>)
      requires Inv() && g.flight == [] && chunk != [] && Slot(applPtr, c.bufferSize) + |chunk| <= c.bufferSize
          && Fits(|chunk|)
      requires applPtr + |chunk| < c.boundary
      modifies area, `applPtr, `state, `g
      ensures Inv() && state == old(state) && g.flight == [] && applPtr == old(applPtr) + |chunk|
      ensures g.sent == old(g).sent + chunk && g.log == old(g).log + chunk && g.origin == old(g).origin
          && g.unseen == old(g).unseen
    {
      hide Promised;
      CopyIn(chunk, 0);
      var err := CommitChunk(|chunk|, 0);
    }

    // -------------------------------------------------------------- whole runs

    /**
      Any script of writes, device events, starts and preparations keeps the invariant. The ring gets
      exactly what was handed in if no silence fill comes between the copy of a chunk and its commit;
      and no underrun is let pass if the stream stops when dry and its reports come in time.
     */
    method Run(script: seq<Command>)
      requires Inv() && g.flight == []
      requires forall k | 0 <= k < |script| && script[k].Write? :: |script[k].data| <= |script[k].env|
      modifies this, area
      ensures Inv() && g.flight == []
      ensures old(g).log == old(g).sent && (forall m | m in script :: CommandCalm(m, c)) ==> g.log == g.sent
      ensures !old(g).unseen && c.StopsWhenDry() && (forall m | m in script :: CommandOnTime(m, c)) ==> !g.unseen
    {
      hide Promised;
      for k := 0 to |script|
        invariant Inv() && g.flight == []
        invariant old(g).log == old(g).sent && (forall m | m in script :: CommandCalm(m, c)) ==> g.log == g.sent
        invariant !old(g).unseen && c.StopsWhenDry() && (forall m | m in script :: CommandOnTime(m, c)) ==> !g.unseen
      {
        assert script[k] in script;
        Perform(script[k]);
      }
    }

    method Perform(command: Command)
      requires Inv() && g.flight == []
      requires command.Write? ==> |command.data| <= |command.env|
      modifies this, area
      ensures Inv() && g.flight == []
      ensures old(g).log == old(g).sent && CommandCalm(command, c) ==> g.log == g.sent
      ensures !old(g).unseen && CommandOnTime(command, c) ==> !g.unseen
    {
      hide Promised;
      match command
      case Write(data, nonblock, first, env) =>
        ghost var lost, err;
        var r;
        r, lost, err := Xfer(data, nonblock, first, env);
      case Device(event) => HappenAsleep(event);
    }

    /**
      The refinement: while the stream lives and no underrun was let pass, reading the ring from the
      hardware pointer up to the application pointer gives exactly the frames committed and not yet
      consumed, in order; each is the frame that was handed in, or silence that a fill put in its place
      before it was committed.
     */
    lemma RingIsFifo()
      requires Inv() && Live(state) && !g.unseen && g.flight == []
      ensures g.origin <= hw.Total() <= g.End() <= hw.Total() + c.bufferSize && |g.sent| == |g.log|
      ensures PlaybackAvail(hw.ptr, applPtr, c) == c.bufferSize - (g.End() - hw.Total())
      ensures RingContents(area[..], hw.ptr, g.End() - hw.Total()) == g.log[hw.Total() - g.origin..]
      ensures Heard(g.sent[hw.Total() - g.origin..], g.log[hw.Total() - g.origin..])
    {
      hide Multiple, Slot;
      var count := g.End() - hw.Total();
      assert g.log + g.flight == g.log;
      HoldsIsQueue(area[..], g.origin, g.log, hw.Total());
      AvailIsSpace(hw.Total(), hw.wrap, hw.ptr, g.End(), g.applWrap, applPtr, c);
      PointerContents(area[..], hw.Total(), hw.wrap, hw.ptr, count, c);
    }
  }

  /** Reading from a pointer is reading from the count it stands for. */
  lemma PointerContents(ring: seq<Frame>, total: nat, wrap: nat, ptr: nat, count: nat, c: Config)
    requires c.Valid() && |ring| == c.bufferSize && Splits(total, wrap, ptr, c.boundary)
    ensures RingContents(ring, ptr, count) == RingContents(ring, total, count)
  {
    var s, t := RingContents(ring, ptr, count), RingContents(ring, total, count);
    forall k | 0 <= k < count ensures s[k] == t[k] {
      PointerSlot(total, wrap, ptr, k, c);
      assert s[k] == FrameAt(ring, ptr + k) && t[k] == FrameAt(ring, total + k);
    }
  }
}
