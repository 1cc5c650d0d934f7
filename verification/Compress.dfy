/**
  Compressed playback: the byte ring between the writer and the DSP, and the stream's states
  (linux/sound/core/compress_offload.c). Byte n of the stream lives in slot n mod size.
 */
module Compress {
  import opened Words
  import opened Errno
  import opened Options
  import opened RingMath
  import opened PcmFifo
  import opened ComprLife
  import opened ComprRing

  /** Beyond the largest 64-bit word. */
  const WORD := 0x1_0000_0000_0000_0000

  /** The checks on the buffer parameters. */
  predicate GoodBuffer(fragmentSize: nat, fragments: nat) {
    fragmentSize != 0 && fragments <= UINT_MAX / fragmentSize && fragments != 0
  }

  /** An accepted buffer is not empty and its size fits 32 bits. */
  lemma GoodBufferFits(fragmentSize: nat, fragments: nat)
    requires GoodBuffer(fragmentSize, fragments)
    ensures 0 < fragmentSize * fragments <= UINT_MAX
  {
    var q := UINT_MAX / fragmentSize;
    MulMono(fragmentSize, 1, fragments);
    MulMono(fragmentSize, fragments, q);
  }

  /** A report of the DSP's progress is believable: monotone, and not ahead of what was written. */
  predicate Believable(report: Option<nat>, transferred: nat, available: nat) {
    report.Some? ==> transferred <= report.value <= available
  }

  function After(report: Option<nat>, transferred: nat): nat {
    if report.Some? then report.value else transferred
  }

  function Least(a: nat, b: nat): (r: nat)
    ensures r <= a && r <= b && (r == a || r == b)
  {
    if a > b then b else a
  }

  function Most(a: int, b: int): (r: int)
    ensures r >= a && r >= b && (r == a || r == b)
  {
    if a < b then b else a
  }

  /** What the driver and the allocator make of new parameters. */
  datatype Setting = Setting(fragmentSize: nat, fragments: nat, codecOk: bool, noMem: bool, answer: int)
  {
    function Size(): nat { fragmentSize * fragments }
  }

  /** Copying one byte more. */
  lemma CopiedStep(ring: seq<int>, ofs: nat, chunk: seq<int>, i: nat)
    requires i < |chunk| && ofs + |chunk| <= |ring|
    ensures Copied(ring, ofs, chunk[..i])[ofs + i := chunk[i]] == Copied(ring, ofs, chunk[..i + 1])
  {
    assert chunk[..i + 1] == chunk[..i] + [chunk[i]];
  }

  class ComprStream {
    const usePauseInDraining: bool
    const area: Option<array<int>>   // memory that the driver brings along, if it does

    var buffer: array<int>
    var size: nat                    // of the ring, at the beginning of the buffer
    var fragment: nat
    var state: State
    var available: nat
    var transferred: nat
    var pauseInDraining: bool
    var partialDrain: bool
    var nextTrack: bool
    var metadataSet: bool
    ghost var written: seq<int>
    ghost var sound: nat             // the ring was replaced or overrun under the bytes before this one
    ghost var trace: seq<Happening>

    ghost function Ring(): seq<int>
      requires size <= buffer.Length
      reads this, buffer
    {
      buffer[..size]
    }

    /** The first byte that is neither consumed nor lost. */
    ghost function Low(): nat
      reads `transferred, `sound
    {
      if transferred < sound then sound else transferred
    }

    /** The unconsumed bytes that were not lost are in the ring, each in its slot. */
    ghost predicate Inv()
      reads this, buffer
    {
      && available == |written| && size <= buffer.Length && size <= UINT_MAX && transferred <= available
      && (area.Some? && size > 0 ==> buffer == area.value)
      && (if size == 0 then state.OPEN? else Holds(Ring(), 0, written, Low()))
      && (state.OPEN? ==> available + transferred + sound == 0 && !nextTrack)
      && Traced()
    }

    /** State and flags are what the stream's past says. */
    ghost predicate Traced()
      reads `state, `metadataSet, `nextTrack, `partialDrain, `trace
    {
      && Legal(trace) && PhaseOf(trace) == PhaseOfState(state)
      && metadataSet == Pending(trace) && nextTrack == Next(trace) && partialDrain == Tried(trace)
    }

    /** The memory a stream may write to. */
    ghost function Repr(): set<object>
      reads this
    {
      {this, buffer} + (if area.Some? then {area.value} else {})
    }

    /** Puts what happens on record. */
    ghost method Note(h: Happening)
      requires Legal(trace) && Allowed(trace, h)
      modifies `trace
      ensures trace == old(trace) + [h] && Legal(trace)
      ensures trace[..|trace| - 1] == old(trace) && trace[|trace| - 1] == h
    {
      LegalStep(trace, h);
      StepOn(trace, h);
      trace := trace + [h];
    }

    /** A stream that was just opened; the driver may bring along memory for its ring. */
    constructor (memory: Option<nat>, usePauseInDraining: bool)
      ensures Inv() && fresh(Repr()) && this.usePauseInDraining == usePauseInDraining
      ensures area.Some? == memory.Some? && (area.Some? ==> area.value.Length == memory.value)
      ensures state == OPEN && |trace| == 0 && size == 0
    {
      this.usePauseInDraining := usePauseInDraining;
      if memory.Some? {
        var a := new int[memory.value];
        area := Some(a);
      } else {
        area := None;
      }
      buffer := new int[0];
      size, fragment := 0, 0;
      state, available, transferred, written, sound, trace := OPEN, 0, 0, [], 0, [];
      pauseInDraining, partialDrain, nextTrack, metadataSet := false, false, false, false;
    }

    // -------------------------------------------------------------- parameters

    /** Parameters can be set on an open stream, and for a track that was announced. */
    predicate Settable()
      reads `state, `nextTrack
    {
      state.OPEN? || nextTrack
    }

    /** The ring is replaced: the parameters are in order, and there is memory. */
    predicate Replaces(p: Setting)
      reads `state, `nextTrack
    {
      && Settable() && GoodBuffer(p.fragmentSize, p.fragments) && p.codecOk
      && (if area.Some? then p.Size() <= area.value.Length else !p.noMem)
    }

    /**
      The unconsumed bytes outlive new parameters: there are none, or the ring stays in the driver's memory
      and they stay in their slots.
     */
    ghost predicate Outlives(p: Setting)
      requires GoodBuffer(p.fragmentSize, p.fragments)
      reads this
    {
      || Low() == available
      || (area.Some? && 0 < size && 0 < p.Size() && SameSlots(Low(), available, size, p.Size()))
    }

    /**
      Sets the parameters. The ring is replaced before the driver is asked, and whatever is in use in it:
      bytes that do not outlive that are lost, also if the driver then refuses.
     */
    method SetParams(p: Setting) returns (r: int)
      requires Inv()
      modifies this
      ensures Inv() && written == old(written) && transferred == old(transferred)
      ensures r == if !old(Settable()) then -EPERM
                   else if !GoodBuffer(p.fragmentSize, p.fragments) || !p.codecOk then -EINVAL
                   else if !old(Replaces(p)) then -ENOMEM
                   else p.answer
      ensures !old(Replaces(p)) ==> unchanged(this)
      ensures old(Replaces(p)) ==> size == p.Size() && fragment == p.fragmentSize
      ensures old(Replaces(p)) ==> sound == if old(Outlives(p)) then old(sound) else available
      ensures old(Replaces(p)) ==> if area.Some? then buffer == area.value else fresh(buffer)
      ensures state == if old(state).OPEN? && r == 0 && old(Replaces(p)) then SETUP else old(state)
      ensures trace == if old(state).OPEN? && state.SETUP? then old(trace) + [Settled] else old(trace)
    {
      if !Settable() { return -EPERM; }
      if p.fragmentSize == 0 || p.fragments > UINT_MAX / p.fragmentSize || p.fragments == 0 { return -EINVAL; }
      if !p.codecOk { return -EINVAL; }
      var ok := AllocateBuffer(p);
      if !ok { return -ENOMEM; }
      r := p.answer;
      if r != 0 || nextTrack { return; }
      Settle();
    }

    /** The parameters of an open stream have been accepted. */
    method Settle()
      requires Inv() && state.OPEN? && 0 < size
      modifies `state, `metadataSet, `nextTrack, `trace
      ensures Inv() && state.SETUP? && !nextTrack && trace == old(trace) + [Settled]
    {
      Note(Settled);
      metadataSet := false;
      nextTrack := false;
      state := SETUP;
    }

    /** Replaces the ring, if there is memory for another one. */
    method AllocateBuffer(p: Setting) returns (ok: bool)
      requires Inv() && Settable() && GoodBuffer(p.fragmentSize, p.fragments) && p.codecOk
      modifies `buffer, `size, `fragment, `sound
      ensures Inv() && ok == Replaces(p)
      ensures !ok ==> unchanged(this)
      ensures ok ==> size == p.Size() && fragment == p.fragmentSize
      ensures ok ==> sound == if old(Outlives(p)) then old(sound) else available
      ensures ok ==> if area.Some? then buffer == area.value else fresh(buffer)
    {
      GoodBufferFits(p.fragmentSize, p.fragments);
      var bufferSize := p.fragmentSize * p.fragments;
      ghost var kept := Outlives(p);
      if area.Some? {
        if bufferSize > area.value.Length { return false; }
        if kept && Low() < available {
          SameAreaKeeps(area.value[..], written, Low(), size, bufferSize);
          assert area.value[..][..size] == Ring() && area.value[..][..bufferSize] == area.value[..bufferSize];
        }
        buffer := area.value;
      } else {
        if p.noMem { return false; }
        buffer := new int[bufferSize];
      }
      size := bufferSize;
      fragment := p.fragmentSize;
      sound := if kept then sound else available;
      ok := true;
    }

    // -------------------------------------------------------------- the ring

    /**
      Free room in the ring; the three branches agree on what that is. More bytes than the ring can hold, as
      after it was replaced by a smaller one, make the unsigned difference wrap around.
     */
    method CalcAvail(report: Option<nat>) returns (avail: nat)
      requires Inv() && Believable(report, transferred, available)
      modifies `transferred
      ensures Inv() && transferred == After(report, old(transferred))
      ensures available - transferred <= size ==> avail == size - (available - transferred)
      ensures size < available - transferred < WORD ==> avail == WORD - (available - transferred - size) > size
    {
      if report.Some? {
        if size > 0 { HoldsLater(Ring(), 0, written, Low(), if report.value < Low() then Low() else report.value); }
        transferred := report.value;
      }
      if available == 0 && state.SETUP? { return size; }
      if available == transferred { return size; }
      avail := available - transferred;
      avail := (size - avail) % WORD;
    }

    /** Copies a chunk into the ring; a faulty copy stops after some of its bytes. */
    method CopyFromUser(ofs: nat, chunk: seq<int>, fault: Option<nat>) returns (ok: bool)
      requires ofs + |chunk| <= size <= buffer.Length
      modifies buffer
      ensures ok <==> fault.None? || fault.value >= |chunk|
      ensures Ring() == Copied(old(Ring()), ofs, if ok then chunk else chunk[..fault.value])
    {
      var n := if fault.Some? && fault.value < |chunk| then fault.value else |chunk|;
      var i := 0;
      while i < n
        invariant 0 <= i <= n
        invariant Ring() == Copied(old(Ring()), ofs, chunk[..i])
      {
        ghost var before := Ring();
        buffer[ofs + i] := chunk[i];
        assert Ring() == before[ofs + i := chunk[i]];
        CopiedStep(old(Ring()), ofs, chunk, i);
        i := i + 1;
      }
      ok := n == |chunk|;
      assert chunk[..|chunk|] == chunk;
    }

    /** Copies a chunk behind the queued bytes; on a fault the queue is what it was. */
    method CopyQueued(ofs: nat, chunk: seq<int>, fault: Option<nat>, ghost data: seq<int>, ghost low: nat)
      returns (ok: bool)
      requires size <= buffer.Length && Holds(Ring(), 0, data, low) && |data| + |chunk| <= low + size
      requires ofs == Slot(|data|, size) && ofs + |chunk| <= size
      modifies buffer
      ensures ok <==> fault.None? || fault.value >= |chunk|
      ensures Holds(Ring(), 0, if ok then data + chunk else data, low)
    {
      ghost var part := if fault.None? || fault.value >= |chunk| then chunk else chunk[..fault.value];
      CopyExtends(Ring(), 0, data, low, ofs, part);
      ok := CopyFromUser(ofs, chunk, fault);
      if !ok { HoldsPrefix(Ring(), 0, data, part, low); }
    }

    /** Writes behind the written bytes, in two parts if the ring ends in between. */
    method WriteData(buf: seq<int>, fault: Option<nat>, ghost low: nat) returns (r: int)
      requires size <= buffer.Length && available == |written| && Holds(Ring(), 0, written, low)
      requires |written| + |buf| <= low + size && |buf| <= size
      modifies buffer
      ensures r == if fault.None? || fault.value >= |buf| then |buf| else -EFAULT
      ensures Holds(Ring(), 0, if r >= 0 then written + buf else written, low)
    {
      var appPointer := available % size;
      SlotIsRemainder(available, size);
      if |buf| < size - appPointer {
        var ok := CopyQueued(appPointer, buf, fault, written, low);
        return if ok then |buf| else -EFAULT;
      }
      var copy := size - appPointer;
      var ok := CopyQueued(appPointer, buf[..copy], fault, written, low);
      if !ok { return -EFAULT; }
      RoundTheRing(available, size);
      ghost var first := written + buf[..copy];
      assert first + buf[copy..] == written + buf;
      ok := CopyQueued(0, buf[copy..], if fault.Some? then Some(fault.value - copy) else None, first, low);
      if !ok {
        HoldsPrefix(Ring(), 0, written, buf[..copy], low);
        return -EFAULT;
      }
      r := |buf|;
    }

    /** Writes bytes, and counts them; those that do not fit overrun the oldest ones. */
    method Append(buf: seq<int>, fault: Option<nat>) returns (r: int)
      requires Inv() && 0 < size && |buf| <= size && !state.OPEN?
      requires available - transferred <= size ==> available + |buf| <= transferred + size
      modifies `available, `written, `sound, buffer
      ensures Inv()
      ensures r == (if fault.None? || fault.value >= |buf| then |buf| else -EFAULT)
      ensures written == if r >= 0 then old(written) + buf else old(written)
      ensures sound == Overrun(old(sound), old(available), transferred, |buf|, size)
    {
      ghost var low := Most(Low(), available + |buf| - size);
      HoldsLater(Ring(), 0, written, Low(), low);
      r := WriteData(buf, fault, low);
      sound := Overrun(sound, available, transferred, |buf|, size);
      if r > 0 {
        available := available + r;
      }
      if r >= 0 { written := written + buf; }
    }

    /** A write is sure to stay in the buffer: there is room, or it is no longer than the ring. */
    predicate Safe(buf: seq<int>, report: Option<nat>)
      reads `available, `transferred, `size
    {
      || available - After(report, transferred) <= size
      || (available - After(report, transferred) < WORD && |buf| <= size)
    }

    /** A write is safe exactly if it takes no more bytes than the ring has. */
    lemma SafeIff(buf: seq<int>, report: Option<nat>)
      requires Inv() && Believable(report, transferred, available) && available - After(report, transferred) < WORD
      ensures Safe(buf, report) <==> Taken(|buf|, available - After(report, transferred), size) <= size
      ensures |buf| <= size ==> Safe(buf, report)
    {
    }

    /** Writes as much as there is room for; a stream that was only set up is prepared by this, come what may. */
    method Write(buf: seq<int>, report: Option<nat>, fault: Option<nat>) returns (r: int)
      requires Inv() && Believable(report, transferred, available)
      requires state in {SETUP, PREPARED, RUNNING} ==> Safe(buf, report)
      modifies this, buffer
      ensures Inv() && buffer == old(buffer) && size == old(size) && fragment == old(fragment)
      ensures old(state) !in {SETUP, PREPARED, RUNNING} ==> r == -EBADFD && unchanged(this) && unchanged(buffer)
      ensures old(state) in {SETUP, PREPARED, RUNNING} ==>
                && transferred == After(report, old(transferred))
                && state == (if old(state).SETUP? then PREPARED else old(state)) && trace == old(trace) + [Wrote]
                && (var n := Taken(|buf|, |old(written)| - transferred, size);
                    && r == (if fault.None? || fault.value >= n then n else -EFAULT)
                    && written == (if r >= 0 then old(written) + buf[..n] else old(written))
                    && sound == Overrun(old(sound), |old(written)|, transferred, n, size))
      ensures r >= 0 && |old(written)| - transferred <= size ==>
                |written| - transferred <= size && (r == |buf| || |written| - transferred == size)
    {
      if state !in {SETUP, PREPARED, RUNNING} { return -EBADFD; }
      r := WriteSome(buf, report, fault);
      MovePastSetup();
    }

    method WriteSome(buf: seq<int>, report: Option<nat>, fault: Option<nat>) returns (r: int)
      requires Inv() && Believable(report, transferred, available) && Safe(buf, report) && !state.OPEN?
      modifies `available, `transferred, `written, `sound, buffer
      ensures Inv() && transferred == After(report, old(transferred))
      ensures var n := Taken(|buf|, |old(written)| - transferred, size);
              && r == (if fault.None? || fault.value >= n then n else -EFAULT)
              && written == (if r >= 0 then old(written) + buf[..n] else old(written))
              && sound == Overrun(old(sound), |old(written)|, transferred, n, size)
    {
      var avail := CalcAvail(report);
      avail := Least(avail, |buf|);
      r := Append(buf[..avail], fault);
    }

    /** A write prepares a stream that was only set up. */
    method MovePastSetup()
      requires Inv() && state in {SETUP, PREPARED, RUNNING}
      modifies `state, `trace
      ensures Inv() && state == (if old(state).SETUP? then PREPARED else old(state)) && trace == old(trace) + [Wrote]
    {
      Note(Wrote);
      if state.SETUP? {
        state := PREPARED;
      }
    }

    /** A poll: whether a fragment fits. A drain is taken to be over when it is polled for. */
    method Poll(report: Option<nat>) returns (ready: bool, err: bool)
      requires Inv() && Believable(report, transferred, available)
      modifies `transferred, `state, `trace
      ensures Inv() && err == (old(state) !in {RUNNING, PREPARED, PAUSED, DRAINING})
      ensures transferred == if old(state) in {OPEN, XRUN} then old(transferred) else After(report, old(transferred))
      ensures state == if old(state).DRAINING? then SETUP else old(state)
      ensures trace == if old(state).DRAINING? then old(trace) + [Ended] else old(trace)
      ensures err || old(state).DRAINING? ==> ready
      ensures !err && !old(state).DRAINING? && available - transferred <= size ==>
                (ready <==> available - transferred + fragment <= size)
    {
      if state in {OPEN, XRUN} { return true, true; }
      var avail := CalcAvail(report);
      match state {
        case DRAINING =>
          EndDrain();
          return true, false;
        case RUNNING | PREPARED | PAUSED => return avail >= fragment, false;
        case _ => return true, true;
      }
    }

    method EndDrain()
      requires Inv() && !state.OPEN?
      modifies `state, `trace
      ensures Inv() && state.SETUP? && trace == old(trace) + [Ended]
    {
      Note(Ended);
      state := SETUP;
    }

    // -------------------------------------------------------------- the states

    /** Starts a stream that was written to. */
    method Start(trigger: int) returns (r: int)
      requires Inv()
      modifies `state, `trace
      ensures Inv()
      ensures r == (if old(state).PREPARED? then trigger else -EPERM)
      ensures state == if r == 0 then RUNNING else old(state)
      ensures trace == if r == 0 then old(trace) + [Started] else old(trace)
    {
      if !state.PREPARED? { return -EPERM; }
      r := trigger;
      if r == 0 {
        Note(Started);
        state := RUNNING;
      }
    }

    /** Stops a stream: it goes back to the start with nothing written. */
    method Stop(trigger: int) returns (r: int)
      requires Inv()
      modifies this
      ensures Inv() && buffer == old(buffer) && size == old(size)
      ensures old(state) in {OPEN, SETUP, PREPARED} ==> r == -EPERM && unchanged(this)
      ensures old(state) !in {OPEN, SETUP, PREPARED} ==> r == trigger
      ensures r != 0 ==> unchanged(this)
      ensures r == 0 ==> state == SETUP && |written| + transferred + sound == 0 && !pauseInDraining && !partialDrain
      ensures r == 0 ==> trace == old(trace) + [Stopped]
    {
      if state in {OPEN, SETUP, PREPARED} { return -EPERM; }
      r := trigger;
      if r == 0 {
        StopDrain();
        available := 0;
        transferred := 0;
        written, sound := [], 0;
      }
    }

    /** Clears the marks of a stopped stream, and ends any drain. */
    method StopDrain()
      requires Inv() && state !in {OPEN, SETUP, PREPARED}
      modifies `state, `partialDrain, `metadataSet, `pauseInDraining, `trace
      ensures Inv() && state.SETUP? && !pauseInDraining && !partialDrain && trace == old(trace) + [Stopped]
    {
      partialDrain := false;
      metadataSet := false;
      pauseInDraining := false;
      Note(Stopped);
      WakeDrain();
    }

    /** What the end of a drain does to the state: a partial one lets the stream run on. */
    method WakeDrain()
      modifies `state, `partialDrain
      ensures state == if old(partialDrain) then RUNNING else SETUP
      ensures !partialDrain
    {
      if partialDrain {
        state := RUNNING;
        partialDrain := false;
      } else {
        state := SETUP;
      }
    }

    /** The driver's report that a drain is complete, at any time. */
    method DrainNotify()
      requires Inv() && !state.OPEN?
      modifies `state, `partialDrain, `trace
      ensures Inv() && !partialDrain
      ensures state == if old(partialDrain) then RUNNING else SETUP
      ensures trace == old(trace) + [if old(partialDrain) then RanOn else Ended]
    {
      Note(if partialDrain then RanOn else Ended);
      WakeDrain();
    }

    /** The driver's report of an error, at any time. */
    method StopError(target: State)
      requires Inv() && !state.OPEN? && target in {XRUN, SUSPENDED, DISCONNECTED}
      modifies `state, `trace
      ensures Inv() && state == target
      ensures trace == if old(state) == target then old(trace) else old(trace) + [Failed]
    {
      if state == target { return; }
      Note(Failed);
      state := target;
    }

    method Pause(trigger: int) returns (r: int)
      requires Inv()
      modifies `state, `pauseInDraining
      ensures Inv()
      ensures r == (if old(state).RUNNING? || (old(state).DRAINING? && usePauseInDraining) then trigger else -EPERM)
      ensures state == if old(state).RUNNING? && trigger == 0 then PAUSED else old(state)
      ensures pauseInDraining == (old(pauseInDraining) || (old(state).DRAINING? && usePauseInDraining && trigger == 0))
    {
      match state {
        case RUNNING =>
          r := trigger;
          if r == 0 { state := PAUSED; }
        case DRAINING =>
          if !usePauseInDraining { return -EPERM; }
          r := trigger;
          if r == 0 { pauseInDraining := true; }
        case _ => r := -EPERM;
      }
    }

    method Resume(trigger: int) returns (r: int)
      requires Inv()
      modifies `state, `pauseInDraining
      ensures Inv()
      ensures r == (if old(state).PAUSED? || (old(state).DRAINING? && old(pauseInDraining)) then trigger else -EPERM)
      ensures state == if old(state).PAUSED? && trigger == 0 then RUNNING else old(state)
      ensures pauseInDraining == (old(pauseInDraining) && !(old(state).DRAINING? && trigger == 0))
    {
      match state {
        case PAUSED =>
          r := trigger;
          if r == 0 { state := RUNNING; }
        case DRAINING =>
          if !pauseInDraining { return -EPERM; }
          r := trigger;
          if r == 0 { pauseInDraining := false; }
        case _ => r := -EPERM;
      }
    }

    /** Waits for everything written to be played; the driver ends the wait with DrainNotify. */
    method Drain(trigger: int) returns (r: int)
      requires Inv()
      modifies `state
      ensures Inv()
      ensures state == if r == 0 then DRAINING else old(state)
      ensures r == if old(state) in {OPEN, SETUP, PREPARED, PAUSED} then -EPERM
                   else if old(state).XRUN? then -EPIPE
                   else trigger
    {
      if state in {OPEN, SETUP, PREPARED, PAUSED} { return -EPERM; }
      if state.XRUN? { return -EPIPE; }
      r := trigger;
      if r != 0 { return; }
      state := DRAINING;
    }

    /** Takes metadata; it counts as given even if the driver refuses it. */
    method SetMetadata(answer: int) returns (r: int)
      requires Inv()
      modifies `metadataSet, `trace
      ensures Inv() && metadataSet && r == answer && trace == old(trace) + [Described(answer == 0)]
    {
      r := answer;
      Note(Described(answer == 0));
      metadataSet := true;
    }

    /** Announces the next track of a running stream, whose metadata has been given. */
    method NextTrack(trigger: int) returns (r: int)
      requires Inv()
      modifies `metadataSet, `nextTrack, `trace
      ensures Inv()
      ensures r == (if state.RUNNING? && old(metadataSet) then trigger else -EPERM)
      ensures r == 0 ==> nextTrack && !metadataSet && trace == old(trace) + [Announced]
      ensures r != 0 ==> nextTrack == old(nextTrack) && metadataSet == old(metadataSet) && trace == old(trace)
    {
      if !state.RUNNING? { return -EPERM; }
      if !metadataSet { return -EPERM; }
      r := trigger;
      if r != 0 { return; }
      Note(Announced);
      metadataSet := false;
      nextTrack := true;
    }

    /** Drains a track in favour of the announced one; the mark is left even if the driver refuses. */
    method PartialDrain(trigger: int) returns (r: int)
      requires Inv()
      modifies `state, `partialDrain, `nextTrack, `trace
      ensures Inv()
      ensures r == if old(state).XRUN? then -EPIPE
                   else if old(state) in {OPEN, SETUP, PREPARED, PAUSED} || !old(nextTrack) then -EPERM
                   else trigger
      ensures if old(nextTrack) && old(state) in {RUNNING, DRAINING, SUSPENDED, DISCONNECTED}
              then partialDrain && nextTrack == (trigger != 0)
                   && state == (if trigger == 0 then DRAINING else old(state))
                   && trace == old(trace) + [Finishing(trigger == 0)]
              else unchanged(this)
    {
      if state in {OPEN, SETUP, PREPARED, PAUSED} { return -EPERM; }
      if state.XRUN? { return -EPIPE; }
      if !nextTrack { return -EPERM; }
      TryPartial(trigger);
      r := trigger;
    }

    method TryPartial(trigger: int)
      requires Inv() && nextTrack && state in {RUNNING, DRAINING, SUSPENDED, DISCONNECTED}
      modifies `state, `partialDrain, `nextTrack, `trace
      ensures Inv() && partialDrain && nextTrack == (trigger != 0)
      ensures state == if trigger == 0 then DRAINING else old(state)
      ensures trace == old(trace) + [Finishing(trigger == 0)]
    {
      partialDrain := true;
      Note(Finishing(trigger == 0));
      if trigger != 0 { return; }
      nextTrack := false;
      state := DRAINING;
    }

    // -------------------------------------------------------------- runs

    /** One call; writes that would leave the buffer are left out of runs. */
    method Perform(c: Command) returns (r: int)
      requires Inv()
      modifies Repr()
      ensures Inv() && fresh(Repr() - old(Repr()))
      ensures Harmless(c, area.Some?, old(size)) && old(size) > 0 && old(sound) == 0 ==> sound == 0 && size == old(size)
    {
      r := 0;
      match c {
        case DoSetParams(p) => r := SetParams(p);
        case DoWrite(buf, report, fault) =>
          if Believable(report, transferred, available) && Safe(buf, report) { r := Write(buf, report, fault); }
        case DoAvail(report) =>
          if Believable(report, transferred, available) { var n := CalcAvail(report); }
        case DoPoll(report) =>
          if Believable(report, transferred, available) { var ready, err := Poll(report); }
        case DoStop(t) => r := Stop(t);
        case _ => r := Switch(c);
      }
    }

    /** A call that only changes the state, or a report of the driver's. */
    method Switch(c: Command) returns (r: int)
      requires Inv()
      modifies `state, `pauseInDraining, `partialDrain, `nextTrack, `metadataSet, `trace
      ensures Inv()
    {
      r := 0;
      match c {
        case DoStart(t) => r := Start(t);
        case DoPause(t) => r := Pause(t);
        case DoResume(t) => r := Resume(t);
        case DoDrain(t) => r := Drain(t);
        case DoPartialDrain(t) => r := PartialDrain(t);
        case DoNextTrack(t) => r := NextTrack(t);
        case DoSetMetadata(t) => r := SetMetadata(t);
        case Drained => if !state.OPEN? { DrainNotify(); }
        case Erred(target) =>
          if !state.OPEN? && target in {XRUN, SUSPENDED, DISCONNECTED} { StopError(target); }
        case _ =>
      }
    }
  }

  /** The bytes a write takes: what there is room for, or all if the room has wrapped around. */
  function Taken(count: nat, unconsumed: int, size: nat): nat {
    if unconsumed <= size then Least(size - unconsumed, count) else count
  }

  /** From where on the ring is sound after a write of n bytes. */
  function Overrun(sound: nat, available: nat, transferred: nat, n: nat, size: nat): nat {
    if available - transferred <= size then sound else Most(sound, available + n - size)
  }

  // ---------------------------------------------------------------- what the marks do

  /**
    A partial drain that the driver refuses leaves its mark: the next full drain then ends in RUNNING
    instead of SETUP.
   */
  method RefusedPartialDrainSticks(s: ComprStream, error: int)
    requires s.Inv() && s.state.RUNNING? && s.nextTrack && error != 0
    modifies s
    ensures s.state.RUNNING?
  {
    var r := s.PartialDrain(error);
    r := s.Drain(0);
    assert s.state.DRAINING?;
    s.DrainNotify();
  }

  /** A full drain ends in SETUP exactly if no partial drain was started, or refused, before. */
  method FullDrain(s: ComprStream)
    requires s.Inv() && s.state.RUNNING?
    modifies s
    ensures s.state.SETUP? <==> !old(s.partialDrain)
  {
    var r := s.Drain(0);
    s.DrainNotify();
  }

  /** Resuming undoes a pause, in the middle of a drain as well; in between nothing can be written. */
  method PauseThenResume(s: ComprStream, buf: seq<int>) returns (paused: int, wrote: int, resumed: int)
    requires s.Inv() && !s.pauseInDraining
    modifies s, s.buffer
    ensures s.Inv() && (paused == 0 ==> resumed == 0)
    ensures s.state == old(s.state) && !s.pauseInDraining && s.written == old(s.written)
    ensures paused == 0 <==> old(s.state).RUNNING? || (old(s.state).DRAINING? && s.usePauseInDraining)
    ensures paused == 0 ==> wrote == -EBADFD
  {
    wrote, resumed := 0, 0;
    paused := s.Pause(0);
    if paused == 0 {
      wrote := s.Write(buf, None, None);
      resumed := s.Resume(0);
    }
  }

  /**
    A poll ends a drain with bytes still unconsumed; and after a partial one the driver's report restarts the
    stream.
   */
  method PollCutsDrain(s: ComprStream)
    requires s.Inv() && s.state.RUNNING? && s.nextTrack && s.transferred < s.available
    modifies s
    ensures s.Inv() && s.state.RUNNING? && s.trace == old(s.trace) + [Finishing(true)] + [Ended] + [RanOn]
    ensures s.transferred < s.available && s.Low() == old(s.Low())
  {
    var r := s.PartialDrain(0);
    var ready, err := s.Poll(None);
    assert s.state.SETUP?;
    s.DrainNotify();
  }

  /** Metadata that the driver refused is good enough to announce a track with. */
  method RefusedMetadataCounts(s: ComprStream, error: int) returns (r: int)
    requires s.Inv() && s.state.RUNNING? && error != 0
    modifies s
    ensures r == 0 && s.nextTrack && s.trace == old(s.trace) + [Described(false)] + [Announced]
  {
    r := s.SetMetadata(error);
    r := s.NextTrack(0);
  }

  // ---------------------------------------------------------------- what parameters do to a ring in use

  /** A stream with a ring of eight bytes in the driver's memory. */
  method Eight() returns (s: ComprStream)
    ensures s.Inv() && fresh(s.Repr()) && s.area.Some? && s.area.value.Length == 8 && s.size == 8
    ensures s.state.SETUP? && |s.written| + s.transferred + s.sound == 0
  {
    s := new ComprStream(Some(8), false);
    var r := s.SetParams(Setting(8, 1, true, false, 0));
  }

  /** Writes five bytes. */
  method WriteFive(s: ComprStream, data: seq<int>)
    requires s.Inv() && s.size == 8 && s.state.SETUP? && |s.written| + s.transferred + s.sound == 0 && |data| == 5
    modifies s, s.buffer
    ensures s.Inv() && s.state.PREPARED? && s.written == data && s.transferred + s.sound == 0
    ensures s.size == 8 && s.buffer == old(s.buffer)
  {
    assert s.written + data[..5] == data;
    var r := s.Write(data, None, None);
  }

  /** Starts a stream, and announces a track. */
  method StartAndNext(s: ComprStream)
    requires s.Inv() && s.state.PREPARED?
    modifies s`state, s`metadataSet, s`nextTrack, s`trace
    ensures s.Inv() && s.state.RUNNING? && s.nextTrack
  {
    var r := s.Start(0);
    r := s.SetMetadata(0);
    r := s.NextTrack(0);
  }

  /**
    New parameters for an announced track, with a ring of four bytes: the last of five unconsumed bytes is now
    looked for in a slot that holds the first. It is lost even if the driver refuses the parameters; and the
    free room has wrapped around.
   */
  method ParamsLose(data: seq<int>, error: int) returns (s: ComprStream, r: int, avail: nat)
    requires |data| == 5 && data[0] != data[4] && error < 0
    ensures fresh(s) && s.Inv() && r == error && s.state.RUNNING? && s.written == data && s.transferred == 0
    ensures s.size == 4 && s.buffer[4 % s.size] == data[0] && avail == WORD - 1
  {
    s := Eight();
    WriteFive(s, data);
    StartAndNext(s);
    assert FrameAt(s.Ring(), 0) == data[0];
    r := s.SetParams(Setting(4, 1, true, false, error));
    avail := s.CalcAvail(None);
  }

  // ---------------------------------------------------------------- runs

  /** A call on a stream, with the answers of the DSP and of the user-space copy; or a report of the driver's. */
  datatype Command =
    | DoSetParams(p: Setting)
    | DoWrite(buf: seq<int>, report: Option<nat>, fault: Option<nat>)
    | DoAvail(report: Option<nat>) | DoPoll(report: Option<nat>)
    | DoStart(trigger: int) | DoStop(trigger: int) | DoPause(trigger: int) | DoResume(trigger: int)
    | DoDrain(trigger: int) | DoPartialDrain(trigger: int) | DoNextTrack(trigger: int) | DoSetMetadata(answer: int)
    | Drained | Erred(target: State)

  /** Sets no parameters, or a ring of `size` bytes in the driver's memory. */
  predicate Harmless(c: Command, memory: bool, size: nat) { c.DoSetParams? ==> memory && c.p.Size() == size }

  /**
    After any run, what was written, not reported as consumed, and not lost with a replaced ring never exceeds
    the ring, and read off the ring it is exactly that, in order. Nothing is lost if parameters are set once,
    or never change the size of a ring in the driver's memory. Everything happened in its turn; what that
    means is said by GoingWasStarted, AnnouncedWasDescribed, FinishingWasAnnounced and RanOnWasTried.
   */
  method Run(memory: Option<nat>, usePauseInDraining: bool, p: Setting, commands: seq<Command>)
    returns (s: ComprStream, r: int)
    ensures fresh(s.Repr()) && s.Inv() && s.available == |s.written| && s.transferred <= s.available
    ensures s.size > 0 ==>
              && s.sound <= s.available && s.available - s.Low() <= s.size
              && RingContents(s.Ring(), s.Low(), s.available - s.Low()) == s.written[s.Low()..]
    ensures r == 0 && (forall c | c in commands :: Harmless(c, memory.Some?, p.Size())) ==>
              s.sound == 0 && s.size == p.Size() && s.available - s.transferred <= s.size
    ensures Legal(s.trace) && PhaseOf(s.trace) == PhaseOfState(s.state)
  {
    s, r := OpenAndSet(memory, usePauseInDraining, p);
    PerformAll(s, commands, p.Size());
    if s.size > 0 { ReadOff(s); }
  }

  /** Opens a stream and sets its parameters. */
  method OpenAndSet(memory: Option<nat>, usePauseInDraining: bool, p: Setting) returns (s: ComprStream, r: int)
    ensures s.Inv() && fresh(s.Repr()) && s.sound == 0 && s.area.Some? == memory.Some?
    ensures r == 0 ==> s.state.SETUP? && s.size == p.Size() > 0
  {
    s := new ComprStream(memory, usePauseInDraining);
    r := s.SetParams(p);
    if r == 0 { GoodBufferFits(p.fragmentSize, p.fragments); }
  }

  /** Read off the ring from the first sound unconsumed byte, the queue is what was written, in order. */
  lemma ReadOff(s: ComprStream)
    requires s.Inv() && s.size > 0
    ensures s.sound <= s.available && s.available - s.Low() <= s.size
    ensures RingContents(s.Ring(), s.Low(), s.available - s.Low()) == s.written[s.Low()..]
  {
    HoldsIsQueue(s.Ring(), 0, s.written, s.Low());
  }

  method PerformAll(s: ComprStream, commands: seq<Command>, ghost size: nat)
    requires s.Inv()
    modifies s.Repr()
    ensures s.Inv() && fresh(s.Repr() - old(s.Repr()))
    ensures (forall c | c in commands :: Harmless(c, s.area.Some?, size)) && old(s.sound) == 0 ==>
              old(s.size) == size > 0 ==> s.sound == 0 && s.size == size
  {
    var i := 0;
    while i < |commands|
      invariant 0 <= i <= |commands| && s.Inv() && fresh(s.Repr() - old(s.Repr()))
      invariant (forall c | c in commands :: Harmless(c, s.area.Some?, size)) && old(s.sound) == 0 ==>
                  old(s.size) == size > 0 ==> s.sound == 0 && s.size == size
    {
      assert commands[i] in commands;
      var e := s.Perform(commands[i]);
      i := i + 1;
    }
  }

  /** Byte n of the stream, while it is unconsumed and not lost, is at n modulo the ring's size. */
  lemma ByteAt(s: ComprStream, n: nat)
    requires s.Inv() && s.Low() <= n < s.available
    ensures s.buffer[n % s.size] == s.written[n]
  {
    SlotIsRemainder(n, s.size);
    assert FrameAt(s.Ring(), n) == s.written[n];
  }
}
