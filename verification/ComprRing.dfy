/**
  What becomes of a queue of bytes when the ring that holds it is replaced while it is in use
  (snd_compr_allocate_buffer in linux/sound/core/compress_offload.c).
 */
module ComprRing {
  import opened RingMath
  import opened PcmFifo

  /** The bytes from h up to end fit a ring of m slots, and lie in the same slots as in one of n. */
  ghost predicate SameSlots(h: nat, end: nat, n: nat, m: nat)
    requires 0 < n && 0 < m
  {
    end <= h + m && forall k: nat | h <= k < end :: Slot(k, n) == Slot(k, m)
  }

  /** Looking at the same memory as a ring of another size keeps a queue in its slots. */
  lemma SameAreaKeeps(area: seq<int>, data: seq<int>, h: nat, n: nat, m: nat)
    requires 0 < n <= |area| && 0 < m <= |area| && Holds(area[..n], 0, data, h) && SameSlots(h, |data|, n, m)
    ensures Holds(area[..m], 0, data, h)
  {
    forall k: nat | h <= k < |data| ensures FrameAt(area[..m], k) == data[k] {
      assert Slot(k, n) == Slot(k, m);
      assert FrameAt(area[..m], k) == area[Slot(k, m)];
      assert FrameAt(area[..n], k) == area[Slot(k, n)];
    }
  }

  /** What every ring of n slots at the beginning of a memory holds, one of m slots there holds as well. */
  ghost predicate AlwaysKeeps(h: nat, end: nat, n: nat, m: nat, room: nat) {
    forall area: seq<int>, data: seq<int>
      | |area| == room && |data| == end && n <= room && m <= room && Holds(area[..n], 0, data, h)
      :: Holds(area[..m], 0, data, h)
  }

  /** Whatever the bytes are, they outlive a change of the ring's size exactly if they stay in their slots. */
  lemma KeepsIff(h: nat, end: nat, n: nat, m: nat, room: nat)
    requires 0 < n <= room && 0 < m <= room && h <= end <= h + n
    ensures AlwaysKeeps(h, end, n, m, room) <==> SameSlots(h, end, n, m)
  {
    if SameSlots(h, end, n, m) {
      forall area: seq<int>, data: seq<int>
        | |area| == room && |data| == end && Holds(area[..n], 0, data, h)
        ensures Holds(area[..m], 0, data, h)
      {
        SameAreaKeeps(area, data, h, n, m);
      }
    } else {
      var area, data := Numbers(h, end, n, room);
      assert !Holds(area[..m], 0, data, h) by {
        if Holds(area[..m], 0, data, h) { NumbersTell(area, data, h, n, m); }
      }
    }
  }

  /** A memory in which each slot of a ring says which byte of the stream it holds. */
  ghost predicate Numbered(area: seq<int>, data: seq<int>, h: nat, n: nat) {
    && 0 < n <= |area| && Holds(area[..n], 0, data, h)
    && (forall k | 0 <= k < |data| :: data[k] == k)
    && (forall i: nat, k: nat | i < |area| && h <= k < |data| && area[i] == k :: i == Slot(k, n))
  }

  lemma Numbers(h: nat, end: nat, n: nat, room: nat) returns (area: seq<int>, data: seq<int>)
    requires 0 < n <= room && h <= end <= h + n
    ensures |area| == room && |data| == end && Numbered(area, data, h, n)
  {
    data := seq(end, k => k);
    area := seq(room, i requires 0 <= i < room => if i < n then Owner(h, end, n, i) else -1);
    forall k: nat | h <= k < end ensures FrameAt(area[..n], k) == data[k] {
      OwnerIs(h, end, n, k);
    }
    forall i: nat, k: nat | i < room && h <= k < end && area[i] == k ensures i == Slot(k, n) {
    }
  }

  /** The byte from h on whose slot this is, or -1. */
  function Owner(h: nat, end: nat, n: nat, i: nat): (k: int)
    requires 0 < n && i < n
    ensures k >= 0 ==> h <= k < end && Slot(k, n) == i
    decreases end - h
  {
    if h >= end then -1 else if Slot(h, n) == i then h else Owner(h + 1, end, n, i)
  }

  lemma {:induction false} OwnerIs(h: nat, end: nat, n: nat, k: nat)
    requires 0 < n && h <= k < end <= h + n
    ensures Owner(h, end, n, Slot(k, n)) == k
    decreases end - h
  {
    if h < k {
      SlotGap(h, k, n);
      OwnerIs(h + 1, end, n, k);
    }
  }

  lemma NumbersTell(area: seq<int>, data: seq<int>, h: nat, n: nat, m: nat)
    requires Numbered(area, data, h, n) && 0 < m <= |area| && Holds(area[..m], 0, data, h)
    ensures SameSlots(h, |data|, n, m)
  {
    forall k: nat | h <= k < |data| ensures Slot(k, n) == Slot(k, m) {
      assert FrameAt(area[..m], k) == k;
      assert area[Slot(k, m)] == k;
    }
  }

  /** New memory, whatever is in it, holds a queue exactly if there is nothing in the queue. */
  lemma FreshKeepsIff(data: seq<int>, h: nat, m: nat)
    requires 0 < m && h <= |data|
    ensures (forall ring: seq<int> | |ring| == m :: Holds(ring, 0, data, h)) <==> h == |data|
  {
    if h < |data| {
      var ring := seq(m, i => data[h] + 1);
      assert FrameAt(ring, h) != data[h];
    }
  }
}
