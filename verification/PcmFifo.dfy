/**
  The unbounded queue that the playback ring stands for.

  Frame n of the stream is kept in slot n mod size. `Holds` says that a ring still holds all
  frames from position h up to the end of what was written; the lemmas say how each kind of
  write to the ring treats that, over all positions.
 */
module PcmFifo {
  import opened RingMath

  type Frame = int

  const SILENCE: Frame := 0

  /** The frame in the slot of an unbounded position. */
  function FrameAt(ring: seq<Frame>, n: nat): Frame
    requires 0 < |ring|
  {
    ring[Slot(n, |ring|)]
  }

  /** The ring holds data[h - origin..], where data[0] is frame number origin. */
  ghost predicate Holds(ring: seq<Frame>, origin: nat, data: seq<Frame>, h: nat) {
    && 0 < |ring|
    && origin <= h <= origin + |data| <= h + |ring|
    && forall n: nat | h <= n < origin + |data| :: FrameAt(ring, n) == data[n - origin]
  }

  /** The frames from position p up to position q are silent. */
  ghost predicate Silent(ring: seq<Frame>, p: nat, q: nat)
    requires 0 < |ring|
  {
    forall n: nat | p <= n < q :: FrameAt(ring, n) == SILENCE
  }

  /** Whether a slot is one of the `count` slots going round from `start`. */
  predicate InRegion(start: nat, count: nat, slot: nat, size: nat)
    requires start < size && slot < size
  {
    Gap(start, slot, size) < count
  }

  /** The ring with `count` slots going round from `start` silenced. */
  function Silenced(ring: seq<Frame>, start: nat, count: nat): (r: seq<Frame>)
    requires start < |ring|
    ensures |r| == |ring|
    decreases count
  {
    if count == 0 then ring
    else Silenced(ring[start := SILENCE], if start + 1 == |ring| then 0 else start + 1, count - 1)
  }

  lemma SilencedNone(ring: seq<Frame>, start: nat)
    requires start < |ring|
    ensures Silenced(ring, start, 0) == ring
  {
  }

  lemma {:induction false} SilencedSlot(ring: seq<Frame>, start: nat, count: nat, slot: nat)
    requires start < |ring| && count <= |ring| && slot < |ring|
    ensures Silenced(ring, start, count)[slot] == if InRegion(start, count, slot, |ring|) then SILENCE else ring[slot]
    decreases count
  {
    if count > 0 {
      SilencedSlot(ring[start := SILENCE], if start + 1 == |ring| then 0 else start + 1, count - 1, slot);
    }
  }

  /** A straight copy into the ring. */
  function Copied(ring: seq<Frame>, ofs: nat, chunk: seq<Frame>): (r: seq<Frame>)
    requires ofs + |chunk| <= |ring|
    ensures |r| == |ring|
  {
    ring[..ofs] + chunk + ring[ofs + |chunk|..]
  }

  /** Frames with n of them, from the k-th on, silenced. */
  function Muted(s: seq<Frame>, k: nat, n: nat): (r: seq<Frame>)
    ensures |r| == |s|
  {
    if s == [] then []
    else
      var i := |s| - 1;
      Muted(s[..i], k, n) + [if k <= i < k + n then SILENCE else s[i]]
  }

  lemma {:induction false} MutedAt(s: seq<Frame>, k: nat, n: nat, i: nat)
    requires i < |s|
    ensures Muted(s, k, n)[i] == if k <= i < k + n then SILENCE else s[i]
  {
    if i < |s| - 1 { MutedAt(s[..|s| - 1], k, n, i); }
  }

  /** What is heard of some frames: each as it was sent, or silence. */
  ghost predicate Heard(sent: seq<Frame>, heard: seq<Frame>) {
    |heard| == |sent| && forall i | 0 <= i < |sent| :: heard[i] == sent[i] || heard[i] == SILENCE
  }

  lemma HeardMore(sent: seq<Frame>, heard: seq<Frame>, more: seq<Frame>)
    requires Heard(sent, heard)
    ensures Heard(sent + more, heard + more)
  {
  }

  /** Muting leaves the frames as they were or silent. */
  lemma MutedHeard(sent: seq<Frame>, heard: seq<Frame>, k: nat, n: nat)
    requires Heard(sent, heard)
    ensures Heard(sent, Muted(heard, k, n))
  {
    forall i | 0 <= i < |heard| ensures Muted(heard, k, n)[i] == heard[i] || Muted(heard, k, n)[i] == SILENCE {
      MutedAt(heard, k, n, i);
    }
  }

  /** Muting nothing, or what is silent anyway, changes nothing; nothing else does. */
  lemma MutedSame(s: seq<Frame>, k: nat, n: nat)
    ensures Muted(s, k, n) == s <==> forall i | k <= i < k + n && i < |s| :: s[i] == SILENCE
  {
    forall i | 0 <= i < |s| ensures Muted(s, k, n)[i] == if k <= i < k + n then SILENCE else s[i] {
      MutedAt(s, k, n, i);
    }
  }

  /** Muting all that there is, or more. */
  lemma MutedAll(s: seq<Frame>, n: nat)
    requires |s| <= n
    ensures Muted(s, 0, n) == Muted(s, 0, |s|)
  {
    forall i | 0 <= i < |s| ensures Muted(s, 0, n)[i] == Muted(s, 0, |s|)[i] {
      MutedAt(s, 0, n, i);
      MutedAt(s, 0, |s|, i);
    }
  }

  /** What is consumed leaves; the rest is still held. */
  lemma HoldsLater(ring: seq<Frame>, origin: nat, data: seq<Frame>, h: nat, later: nat)
    requires Holds(ring, origin, data, h) && h <= later <= origin + |data|
    ensures Holds(ring, origin, data, later)
  {
  }

  /** Dropping frames from the end of the queue. */
  lemma HoldsPrefix(ring: seq<Frame>, origin: nat, data: seq<Frame>, chunk: seq<Frame>, h: nat)
    requires Holds(ring, origin, data + chunk, h) && h <= origin + |data|
    ensures Holds(ring, origin, data, h)
  {
    forall n: nat | h <= n < origin + |data| ensures FrameAt(ring, n) == data[n - origin] {
      assert (data + chunk)[n - origin] == data[n - origin];
    }
  }

  /** A chunk copied behind the queue's end extends the queue. */
  lemma CopyExtends(ring: seq<Frame>, origin: nat, data: seq<Frame>, h: nat, ofs: nat, chunk: seq<Frame>)
    requires Holds(ring, origin, data, h) && origin + |data| + |chunk| <= h + |ring|
    requires ofs == Slot(origin + |data|, |ring|) && ofs + |chunk| <= |ring|
    ensures Holds(Copied(ring, ofs, chunk), origin, data + chunk, h)
  {
    var size, end, ring', all := |ring|, origin + |data|, Copied(ring, ofs, chunk), data + chunk;
    forall n: nat | h <= n < end + |chunk| ensures FrameAt(ring', n) == all[n - origin] {
      if n < end {
        if chunk != [] { SlotGapBehind(end, n, size); }
        assert FrameAt(ring', n) == FrameAt(ring, n);
      } else {
        SlotGap(end, n, size);
        assert Slot(n, size) == ofs + (n - end);
        assert ring'[Slot(n, size)] == chunk[n - end];
      }
    }
  }

  /**
    Silencing slots from the k-th frame behind `end` on, up to a turn after h, silences whatever part
    of the data lies there and keeps the rest.
   */
  lemma SilencingMutes(ring: seq<Frame>, origin: nat, log: seq<Frame>, flight: seq<Frame>, h: nat, k: nat, count: nat)
    requires Holds(ring, origin, log + flight, h) && h <= origin + |log|
    requires count > 0 ==> origin + |log| + k + count <= h + |ring|
    ensures Holds(Silenced(ring, Slot(origin + |log| + k, |ring|), count), origin, log + Muted(flight, k, count), h)
  {
    var p, size := origin + |log| + k, |ring|;
    var now, data, data' := Silenced(ring, Slot(p, size), count), log + flight, log + Muted(flight, k, count);
    forall n: nat | h <= n < origin + |data'| ensures FrameAt(now, n) == data'[n - origin] {
      assert FrameAt(ring, n) == data[n - origin];
      if n >= origin + |log| { MutedAt(flight, k, count, n - origin - |log|); }
      if count > 0 {
        SilencedSlot(ring, Slot(p, size), count, Slot(n, size));
        if n < p { SlotGapBehind(p, n, size); } else { SlotGap(p, n, size); }
      }
    }
  }

  /** Silencing right behind a silent stretch, or over its beginning, makes it longer. */
  lemma SilencingExtends(ring: seq<Frame>, from: nat, p: nat, count: nat, h: nat)
    requires 0 < |ring| && h <= from && h <= p && p + count <= h + |ring|
    requires Silent(ring, from, p)
    ensures Silent(Silenced(ring, Slot(p, |ring|), count), from, p + count)
  {
    var now := Silenced(ring, Slot(p, |ring|), count);
    forall n: nat | from <= n < p + count ensures FrameAt(now, n) == SILENCE {
      assert n < p ==> FrameAt(ring, n) == SILENCE;
      SilencedSlot(ring, Slot(p, |ring|), count, Slot(n, |ring|));
      if n < p { if count > 0 { SlotGapBehind(p, n, |ring|); } } else { SlotGap(p, n, |ring|); }
    }
  }

  /** A copy in front of a silent stretch, or into it, leaves what is behind the copy silent. */
  lemma CopyKeepsSilent(ring: seq<Frame>, end: nat, chunk: seq<Frame>, from: nat, upto: nat)
    requires 0 < |ring| && Slot(end, |ring|) + |chunk| <= |ring| && upto <= end + |ring|
    requires Silent(ring, from, upto)
    ensures Silent(Copied(ring, Slot(end, |ring|), chunk), if from < end + |chunk| then end + |chunk| else from, upto)
  {
    var ring' := Copied(ring, Slot(end, |ring|), chunk);
    forall n: nat | end + |chunk| <= n < upto && from <= n ensures FrameAt(ring', n) == SILENCE {
      SlotGap(end, n, |ring|);
      assert FrameAt(ring', n) == FrameAt(ring, n);
    }
  }

  /** The queue read off the ring, oldest frame first. */
  function RingContents(ring: seq<Frame>, h: nat, count: nat): (s: seq<Frame>)
    requires 0 < |ring|
    ensures |s| == count
  {
    seq(count, k requires 0 <= k < count => FrameAt(ring, h + k))
  }

  /** Read from h, the ring gives exactly the frames written and not yet consumed, in order. */
  lemma HoldsIsQueue(ring: seq<Frame>, origin: nat, data: seq<Frame>, h: nat)
    requires Holds(ring, origin, data, h)
    ensures RingContents(ring, h, origin + |data| - h) == data[h - origin..]
  {
    var s, t := RingContents(ring, h, origin + |data| - h), data[h - origin..];
    forall k | 0 <= k < |s| ensures s[k] == t[k] {
      assert s[k] == FrameAt(ring, h + k);
    }
  }
}
