/** Silence fills against the queue: what each mode may and may not overwrite. */
module PcmSilence {
  import opened RingMath
  import opened PcmFifo
  import opened PcmPointers

  /** Whole turns of the boundary do not change the ring slot of a pointer. */
  lemma PointerSlot(total: nat, wrap: nat, ptr: nat, k: nat, c: Config)
    requires c.Valid() && Splits(total, wrap, ptr, c.boundary)
    ensures Slot(ptr + k, c.bufferSize) == Slot(total + k, c.bufferSize)
  {
    MultipleTrans(wrap, c.boundary, c.bufferSize);
    SlotShift(wrap, ptr + k, c.bufferSize);
  }

  // ---------------------------------------------------------------- where the fills go

  /**
    A threshold fill starts behind the committed end and stops within a threshold of the hardware; it
    gets there, unless that is more than the size of one fill.
   */
  lemma ThresholdFillRegion(h: nat, hw: nat, hp: nat, a: nat, aw: nat, ap: nat, s: SilenceVars, c: Config)
    requires c.Valid() && !c.FreeRunning()
    requires Splits(h, hw, hp, c.boundary) && Splits(a, aw, ap, c.boundary) && s.start < c.boundary
    requires h <= a <= h + c.bufferSize
    ensures var f := ThresholdFill(s, hp, ap, c);
            && (f.frames > 0 ==> a + f.kept + f.frames <= h + c.silenceThreshold)
            && (a + f.kept + f.frames >= h + c.silenceThreshold || f.frames == c.silenceSize)
            && Slot(f.start + f.kept, c.bufferSize) == Slot(a + f.kept, c.bufferSize)
  {
    var f := ThresholdFill(s, hp, ap, c);
    assert Gap(hp, ap, c.boundary) == a - h by {
      GapIsDistance(h, hw, hp, a, aw, ap, c.boundary);
    }
    PointerSlot(a, aw, ap, f.kept, c);
  }

  /** A free-running fill covers exactly what the hardware has just left, one turn ahead. */
  lemma FreeFillRegion(h0: nat, hw0: nat, hp0: nat, h: nat, hw: nat, hp: nat, c: Config)
    requires c.Valid() && h0 <= h <= h0 + c.bufferSize
    requires Splits(h0, hw0, hp0, c.boundary) && Splits(h, hw, hp, c.boundary)
    ensures var f := FreeFill(c.bufferSize, hp0, hp, c);
            f.frames == h - h0 && Slot(f.start + f.kept, c.bufferSize) == Slot(h0 + c.bufferSize, c.bufferSize)
  {
    var f := FreeFill(c.bufferSize, hp0, hp, c);
    assert f.kept == h0 + c.bufferSize - h && f.frames == h - h0 by {
      GapIsDistance(h0, hw0, hp0, h, hw, hp, c.boundary);
    }
    PointerSlot(h, hw, hp, f.kept, c);
  }

  /** The fill at a free-running start covers the free part of the ring. */
  lemma FreeInitRegion(h: nat, hw: nat, hp: nat, a: nat, aw: nat, ap: nat, c: Config)
    requires c.Valid() && h <= a <= h + c.bufferSize
    requires Splits(h, hw, hp, c.boundary) && Splits(a, aw, ap, c.boundary)
    ensures var f := FreeInit(hp, ap, c);
            f.frames == h + c.bufferSize - a && Slot(f.start + f.kept, c.bufferSize) == Slot(a, c.bufferSize)
  {
    var f := FreeInit(hp, ap, c);
    assert f.kept == a - h by { GapIsDistance(h, hw, hp, a, aw, ap, c.boundary); }
    PointerSlot(h, hw, hp, f.kept, c);
  }

  // ---------------------------------------------------------------- what they leave

  /**
    The ring against the stream: frames committed since `origin`, a chunk in flight behind them, and
    `stray`, the position up to which frames of dropped chunks may lie about.
   */
  datatype Queue = Queue(ring: seq<Frame>, origin: nat, log: seq<Frame>, flight: seq<Frame>, stray: nat)
  {
    function End(): nat { origin + |log| }

    /** Where the frames that nobody counts begin. */
    function Behind(): nat { if stray < End() + |flight| then End() + |flight| else stray }

    /** From position h on, the ring holds every committed frame, and the chunk in flight. */
    ghost predicate Kept(h: nat) {
      Holds(ring, origin, log + flight, h) && h <= End()
    }

    /** The `filled` frames from position s are silent, behind what is queued, in flight or stray. */
    ghost predicate Quiet(h: nat, s: nat, filled: nat)
      requires 0 < |ring|
    {
      h <= s <= End() && s + filled <= h + |ring| && Silent(ring, Behind(), s + filled)
    }

    /** The queue after `count` slots were silenced from the k-th position behind the committed end on. */
    function Silenced(k: nat, count: nat): Queue
      requires 0 < |ring|
    {
      this.(ring := PcmFifo.Silenced(ring, Slot(End() + k, |ring|), count), flight := Muted(flight, k, count))
    }
  }

  /** A fill behind the committed end never touches a committed frame; it mutes what it hits of the chunk in flight. */
  lemma FillKeeps(q: Queue, h0: nat, h: nat, k: nat, count: nat)
    requires q.Kept(h0) && h0 <= h <= q.End()
    requires count > 0 ==> q.End() + k + count <= h + |q.ring|
    ensures q.Silenced(k, count).Kept(h)
  {
    HoldsLater(q.ring, q.origin, q.log + q.flight, h0, h);
    SilencingMutes(q.ring, q.origin, q.log, q.flight, h, k, count);
  }

  /** What was silent behind the chunk in flight, and what is added to it, is silent. */
  lemma FillIsQuiet(q: Queue, h0: nat, h: nat, from: nat, filled: nat, kept: nat, count: nat)
    requires 0 < |q.ring| && q.Quiet(h0, from, filled) && h0 <= h <= q.End() <= h0 + |q.ring|
    requires kept == Residue(filled, q.End() - from)
    requires count == 0 || q.End() + kept + count <= h + |q.ring|
    ensures q.Silenced(kept, count).Quiet(h, q.End(), kept + count)
  {
    if count > 0 { SilencingExtends(q.ring, q.Behind(), q.End() + kept, count, h); }
  }

  /** Only the chunk that a kept ring holds is kept by it. */
  lemma KeptFlight(q: Queue, flight: seq<Frame>, h: nat)
    requires q.Kept(h) && |flight| == |q.flight|
    ensures q.(flight := flight).Kept(h) <==> flight == q.flight
  {
    if q.(flight := flight).Kept(h) {
      forall i: nat | i < |flight| ensures flight[i] == q.flight[i] {
        assert FrameAt(q.ring, q.End() + i) == (q.log + q.flight)[q.End() + i - q.origin];
        assert FrameAt(q.ring, q.End() + i) == (q.log + flight)[q.End() + i - q.origin];
      }
    }
  }

  /** A fill over the chunk in flight leaves it as it was copied exactly if the frames it hits were silent anyway. */
  lemma FillOverFlight(q: Queue, h: nat, k: nat, count: nat)
    requires q.Kept(h) && q.End() + k + count <= h + |q.ring|
    ensures q.Silenced(k, count).(flight := q.flight).Kept(h)
       <==> forall i | k <= i < k + count && i < |q.flight| :: q.flight[i] == SILENCE
  {
    FillKeeps(q, h, h, k, count);
    KeptFlight(q.Silenced(k, count), q.flight, h);
    MutedSame(q.flight, k, count);
  }

  /** After a dropped chunk, the silence bookkeeping is right iff the chunk was silent where it counts. */
  lemma DropQuiet(q: Queue, h: nat, from: nat, filled: nat)
    requires q.Kept(h) && q.Quiet(h, from, filled) && q.stray <= q.End()
    ensures q.(flight := []).Quiet(h, from, filled)
       <==> forall k | 0 <= k < |q.flight| && q.End() + k < from + filled :: q.flight[k] == SILENCE
  {
    var data := q.log + q.flight;
    forall k | 0 <= k < |q.flight| ensures FrameAt(q.ring, q.End() + k) == q.flight[k] {
      assert FrameAt(q.ring, q.End() + k) == data[q.End() + k - q.origin];
    }
  }

  /** The slots just left are silent after a free-running fill: the last ones free ahead of the hardware. */
  lemma FillJustLeftIsSilent(ring: seq<Frame>, h0: nat, h: nat)
    requires 0 < |ring| && h0 <= h <= h0 + |ring|
    ensures Silent(Silenced(ring, Slot(h0 + |ring|, |ring|), h - h0), h0 + |ring|, h + |ring|)
  {
    SilencingExtends(ring, h0 + |ring|, h0 + |ring|, h - h0, h);
  }

  /** A commit moves the chunk from flight to the log. */
  lemma CommitKeeps(q: Queue, h: nat)
    requires q.Kept(h)
    ensures q.(log := q.log + q.flight, flight := []).Kept(h)
  {
    assert q.log + q.flight + [] == q.log + q.flight;
  }

  lemma CommitKeepsQuiet(q: Queue, h: nat, from: nat, filled: nat)
    requires 0 < |q.ring| && q.Quiet(h, from, filled)
    ensures q.(log := q.log + q.flight, flight := []).Quiet(h, from, filled)
  {
  }

  /** A dropped chunk leaves the committed queue; its frames stray. */
  lemma DropKeeps(q: Queue, h: nat)
    requires q.Kept(h)
    ensures q.(flight := [], stray := q.Behind()).Kept(h)
  {
    HoldsPrefix(q.ring, q.origin, q.log, q.flight, h);
    assert q.log + [] == q.log;
  }

  /** Copying a piece that fits the free space, behind what is in flight, puts it in flight. */
  lemma CopyKeeps(q: Queue, h: nat, piece: seq<Frame>)
    requires q.Kept(h) && q.End() + |q.flight| + |piece| <= h + |q.ring|
    requires Slot(q.End(), |q.ring|) + |q.flight| + |piece| <= |q.ring|
    ensures q.(ring := Copied(q.ring, Slot(q.End(), |q.ring|) + |q.flight|, piece), flight := q.flight + piece).Kept(h)
  {
    var ofs := Slot(q.End(), |q.ring|) + |q.flight|;
    assert q.log + q.flight + piece == q.log + (q.flight + piece);
    if piece == [] {
      assert Copied(q.ring, ofs, piece) == q.ring && q.flight + piece == q.flight;
    } else {
      SlotOn(q.End(), |q.flight|, |q.ring|);
      CopyExtends(q.ring, q.origin, q.log + q.flight, h, ofs, piece);
    }
  }

  lemma CopyKeepsQuiet(q: Queue, h: nat, from: nat, filled: nat, piece: seq<Frame>)
    requires 0 < |q.ring| && q.Quiet(h, from, filled)
    requires Slot(q.End(), |q.ring|) + |q.flight| + |piece| <= |q.ring|
    ensures q.(ring := Copied(q.ring, Slot(q.End(), |q.ring|) + |q.flight|, piece), flight := q.flight + piece)
            .Quiet(h, from, filled)
  {
    var ofs := Slot(q.End(), |q.ring|) + |q.flight|;
    if piece == [] {
      assert Copied(q.ring, ofs, piece) == q.ring && q.flight + piece == q.flight;
    } else {
      SlotOn(q.End(), |q.flight|, |q.ring|);
      CopyKeepsSilent(q.ring, q.End() + |q.flight|, piece, q.Behind(), from + filled);
    }
  }

  // ---------------------------------------------------------------- the fills of the modes

  /** The ring after a fill. */
  function RingAfter(ring: seq<Frame>, f: Fill): seq<Frame>
    requires 0 < |ring|
  {
    Silenced(ring, Slot(f.start + f.kept, |ring|), f.frames)
  }

  /** After a threshold fill the silence variables claim the rest of the old silence, and what was added to it. */
  lemma ThresholdQuiet(q: Queue, h0: nat, h: nat, hw: nat, hp: nat, aw: nat, ap: nat,
                       from: nat, sw: nat, s: SilenceVars, c: Config, f: Fill)
    requires c.Valid() && !c.FreeRunning() && |q.ring| == c.bufferSize
    requires Splits(h, hw, hp, c.boundary) && Splits(q.End(), aw, ap, c.boundary)
        && Splits(from, sw, s.start, c.boundary)
    requires q.Quiet(h0, from, s.filled) && h0 <= h <= q.End() <= h0 + c.bufferSize && f == ThresholdFill(s, hp, ap, c)
    ensures q.Silenced(f.kept, f.frames).Quiet(h, q.End(), f.kept + f.frames)
  {
    hide Silenced, Muted, Multiple, Holds;
    ThresholdFillRegion(h, hw, hp, q.End(), aw, ap, s, c);
    assert f.kept == Residue(s.filled, q.End() - from) by {
      GapIsDistance(from, sw, s.start, q.End(), aw, ap, c.boundary);
    }
    FillIsQuiet(q, h0, h, from, s.filled, f.kept, f.frames);
  }

  /**
    A threshold fill keeps every committed frame, whatever is in flight, and counts only silent frames
    as silent; of the chunk in flight it mutes what lies behind the old silence.
   */
  lemma ThresholdOutcome(q: Queue, h0: nat, h: nat, hw: nat, hp: nat, aw: nat, ap: nat,
                         from: nat, sw: nat, s: SilenceVars, c: Config, f: Fill)
    requires c.Valid() && !c.FreeRunning() && |q.ring| == c.bufferSize
    requires Splits(h, hw, hp, c.boundary) && Splits(q.End(), aw, ap, c.boundary)
        && Splits(from, sw, s.start, c.boundary)
    requires q.Kept(h0) && h0 <= h <= q.End() <= h0 + c.bufferSize && f == ThresholdFill(s, hp, ap, c)
    ensures q.Silenced(f.kept, f.frames).ring == RingAfter(q.ring, f) && q.Silenced(f.kept, f.frames).Kept(h)
    ensures q.Quiet(h0, from, s.filled) ==> q.Silenced(f.kept, f.frames).Quiet(h, q.End(), f.kept + f.frames)
  {
    hide Silenced, Muted, Multiple, Silent;
    ThresholdFillRegion(h, hw, hp, q.End(), aw, ap, s, c);
    FillKeeps(q, h0, h, f.kept, f.frames);
    if q.Quiet(h0, from, s.filled) { ThresholdQuiet(q, h0, h, hw, hp, aw, ap, from, sw, s, c, f); }
  }

  /** The slots between hardware and application pointer do not change in a threshold fill. */
  lemma ThresholdSparesQueue(ring: seq<Frame>, h: nat, hw: nat, hp: nat, a: nat, aw: nat, ap: nat, s: SilenceVars,
                             c: Config, n: nat)
    requires c.Valid() && !c.FreeRunning() && |ring| == c.bufferSize && s.start < c.boundary
    requires Splits(h, hw, hp, c.boundary) && Splits(a, aw, ap, c.boundary) && h <= n < a <= h + c.bufferSize
    ensures FrameAt(RingAfter(ring, ThresholdFill(s, hp, ap, c)), n) == FrameAt(ring, n)
  {
    hide Silenced, Multiple;
    var f := ThresholdFill(s, hp, ap, c);
    ThresholdFillRegion(h, hw, hp, a, aw, ap, s, c);
    SilencedSlot(ring, Slot(f.start + f.kept, |ring|), f.frames, Slot(n, |ring|));
    if f.frames > 0 { SlotGapBehind(a + f.kept, n, |ring|); }
  }

  /** A free-running fill keeps the queue and the chunk in flight, and silences what was just played. */
  lemma FreeStep(q: Queue, h0: nat, hw0: nat, hp0: nat, h: nat, hw: nat, hp: nat, c: Config, f: Fill)
    requires c.Valid() && |q.ring| == c.bufferSize
    requires Splits(h0, hw0, hp0, c.boundary) && Splits(h, hw, hp, c.boundary)
    requires q.Kept(h0) && h0 <= h <= q.End() && f == FreeFill(c.bufferSize, hp0, hp, c)
    ensures q.(ring := RingAfter(q.ring, f)).Kept(h)
    ensures Silent(RingAfter(q.ring, f), h0 + c.bufferSize, h + c.bufferSize)
  {
    FreeFillRegion(h0, hw0, hp0, h, hw, hp, c);
    FillJustLeftIsSilent(q.ring, h0, h);
    var k := h0 + c.bufferSize - q.End();
    FillKeeps(q, h0, h, k, h - h0);
    MutedSame(q.flight, k, h - h0);
  }

  /** The fill at a free-running start keeps the committed queue and mutes all of a chunk in flight. */
  lemma FreeInitStep(q: Queue, h: nat, hw: nat, hp: nat, aw: nat, ap: nat, c: Config, f: Fill)
    requires c.Valid() && |q.ring| == c.bufferSize
    requires Splits(h, hw, hp, c.boundary) && Splits(q.End(), aw, ap, c.boundary)
    requires q.Kept(h) && f == FreeInit(hp, ap, c)
    ensures q.Silenced(0, f.frames).ring == RingAfter(q.ring, f) && q.Silenced(0, f.frames).Kept(h)
    ensures q.Silenced(0, f.frames).flight == Muted(q.flight, 0, |q.flight|)
  {
    FreeInitRegion(h, hw, hp, q.End(), aw, ap, c);
    FillKeeps(q, h, h, 0, f.frames);
    MutedAll(q.flight, f.frames);
  }

  /** So a start in the free-running mode keeps a chunk in flight exactly if that is silent. */
  lemma StartOverFlight(q: Queue, h: nat, hw: nat, hp: nat, aw: nat, ap: nat, c: Config)
    requires c.Valid() && |q.ring| == c.bufferSize
    requires Splits(h, hw, hp, c.boundary) && Splits(q.End(), aw, ap, c.boundary) && q.Kept(h)
    ensures q.(ring := RingAfter(q.ring, FreeInit(hp, ap, c))).Kept(h)
        <==> forall i | 0 <= i < |q.flight| :: q.flight[i] == SILENCE
  {
    FreeInitRegion(h, hw, hp, q.End(), aw, ap, c);
    FillOverFlight(q, h, 0, FreeInit(hp, ap, c).frames);
  }
}
