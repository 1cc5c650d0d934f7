/**
  The order in which the events of a compressed stream's life can come
  (linux/sound/core/compress_offload.c), and what its states and flags say about its past.
 */
module ComprLife {

  datatype State = OPEN | SETUP | PREPARED | RUNNING | XRUN | DRAINING | PAUSED | SUSPENDED | DISCONNECTED

  /** What happens to a stream. */
  datatype Happening =
    | Wrote
    | Started
    | Stopped
    | Ended                       // a drain is over: reported by the driver, or taken for over by a poll
    | RanOn                       // the driver reports the end of a drain for which a partial one was tried
    | Failed                      // the driver reports an error
    | Described(accepted: bool)   // metadata was given; whether the driver took it
    | Announced                   // a next track was announced
    | Finishing(accepted: bool)   // a partial drain was tried; whether the driver began it
    | Settled                     // the parameters of an open stream were set

  /** Set up, written to, or in need of a stop. */
  datatype Phase = Idle | Ready | Going

  function PhaseOf(trace: seq<Happening>): Phase {
    if trace == [] then Idle
    else
      var before := PhaseOf(trace[..|trace| - 1]);
      match trace[|trace| - 1]
      case Wrote => if before.Idle? then Ready else before
      case Started | RanOn | Failed => Going
      case Stopped | Ended => Idle
      case _ => before
  }

  function PhaseOfState(st: State): Phase {
    if st in {OPEN, SETUP} then Idle else if st == PREPARED then Ready else Going
  }

  /** There is metadata that no announcement has used up. */
  predicate Pending(trace: seq<Happening>) {
    trace != [] &&
    match trace[|trace| - 1]
    case Described(_) => true
    case Announced | Stopped | Settled => false
    case _ => Pending(trace[..|trace| - 1])
  }

  /** A next track was announced that no partial drain has led to. */
  predicate Next(trace: seq<Happening>) {
    trace != [] &&
    match trace[|trace| - 1]
    case Announced => true
    case Finishing(accepted) => !accepted && Next(trace[..|trace| - 1])
    case Settled => false
    case _ => Next(trace[..|trace| - 1])
  }

  /** A partial drain was tried, and no stop or end of a drain has cleared its mark. */
  predicate Tried(trace: seq<Happening>) {
    trace != [] &&
    match trace[|trace| - 1]
    case Finishing(_) => true
    case RanOn | Stopped => false
    case _ => Tried(trace[..|trace| - 1])
  }

  predicate Allowed(trace: seq<Happening>, h: Happening) {
    match h
    case Started => PhaseOf(trace).Ready?
    case Announced => PhaseOf(trace).Going? && Pending(trace)
    case Finishing(_) => PhaseOf(trace).Going? && Next(trace)
    case Stopped => PhaseOf(trace).Going?
    case RanOn => Tried(trace)
    case Settled => PhaseOf(trace).Idle?
    case _ => true
  }

  /** Everything happened when it was allowed to. */
  ghost predicate Legal(trace: seq<Happening>) { forall j | 0 <= j < |trace| :: Allowed(trace[..j], trace[j]) }

  lemma LegalStep(trace: seq<Happening>, h: Happening)
    requires Legal(trace) && Allowed(trace, h)
    ensures Legal(trace + [h])
  {
    var t := trace + [h];
    forall j | 0 <= j < |t| ensures Allowed(t[..j], t[j]) {
      assert t[..j] == trace[..j];
      assert trace[..|trace|] == trace;
    }
  }

  lemma StepOn(trace: seq<Happening>, h: Happening)
    ensures (trace + [h])[..|trace|] == trace && (trace + [h])[|trace|] == h
  {
  }

  lemma LegalPrefix(trace: seq<Happening>, n: nat)
    requires Legal(trace) && n <= |trace|
    ensures Legal(trace[..n])
  {
    forall j | 0 <= j < n ensures Allowed(trace[..n][..j], trace[..n][j]) {
      assert trace[..n][..j] == trace[..j];
    }
  }

  /** Nothing from position i on has ended the stream's work. */
  ghost predicate Unended(trace: seq<Happening>, i: nat) {
    forall j | i <= j < |trace| :: trace[j] != Stopped && trace[j] != Ended
  }

  /**
    Whatever has to be stopped was started after a write, unless the driver reported an error or the end
    of a tried partial drain; and it has not been stopped, or its drain ended, since.
   */
  lemma {:induction false} GoingWasStarted(trace: seq<Happening>) returns (w: nat, s: nat)
    requires Legal(trace) && PhaseOf(trace).Going?
    ensures w <= s < |trace| && trace[s] in {Started, Failed, RanOn} && Unended(trace, w)
    ensures trace[s] == Started ==> w < s && trace[w] == Wrote
  {
    var n := |trace| - 1;
    var before := trace[..n];
    LegalPrefix(trace, n);
    if trace[n] == Started {
      w := ReadyWasWritten(before);
      s := n;
    } else if trace[n] in {Failed, RanOn} {
      w, s := n, n;
    } else {
      w, s := GoingWasStarted(before);
    }
  }

  lemma {:induction false} ReadyWasWritten(trace: seq<Happening>) returns (w: nat)
    requires Legal(trace) && PhaseOf(trace).Ready?
    ensures w < |trace| && trace[w] == Wrote && Unended(trace, w)
  {
    var n := |trace| - 1;
    var before := trace[..n];
    LegalPrefix(trace, n);
    if PhaseOf(before).Ready? { w := ReadyWasWritten(before); } else { w := n; }
  }

  /** Metadata in store was given, and not used up or thrown away since. */
  lemma {:induction false} PendingWasDescribed(trace: seq<Happening>) returns (i: nat)
    requires Pending(trace)
    ensures i < |trace| && trace[i].Described?
    ensures forall j | i < j < |trace| :: trace[j] !in {Announced, Stopped, Settled} && !trace[j].Described?
  {
    var n := |trace| - 1;
    if trace[n].Described? { i := n; } else { i := PendingWasDescribed(trace[..n]); }
  }

  /**
    Every next track was announced with metadata of its own, given since the last announcement, stop and
    setting of parameters. Whether the driver accepted it makes no difference.
   */
  lemma AnnouncedWasDescribed(trace: seq<Happening>, j: nat) returns (i: nat)
    requires Legal(trace) && j < |trace| && trace[j] == Announced
    ensures i < j && trace[i].Described?
    ensures forall k | i < k < j :: trace[k] !in {Announced, Stopped, Settled} && !trace[k].Described?
  {
    i := PendingWasDescribed(trace[..j]);
  }

  /** Every partial drain, begun or refused, leads to a track announced since the last one begun. */
  lemma FinishingWasAnnounced(trace: seq<Happening>, j: nat) returns (i: nat)
    requires Legal(trace) && j < |trace| && trace[j].Finishing?
    ensures i < j && trace[i] == Announced && forall k | i < k < j :: trace[k] !in {Finishing(true), Settled}
  {
    i := NextWasAnnounced(trace[..j]);
  }

  lemma {:induction false} NextWasAnnounced(trace: seq<Happening>) returns (i: nat)
    requires Next(trace)
    ensures i < |trace| && trace[i] == Announced
    ensures forall j | i < j < |trace| :: trace[j] !in {Finishing(true), Settled}
  {
    var n := |trace| - 1;
    if trace[n] == Announced { i := n; } else { i := NextWasAnnounced(trace[..n]); }
  }

  /** A stream that runs on after a drain had a partial one tried since the last time, and since the last stop. */
  lemma RanOnWasTried(trace: seq<Happening>, j: nat) returns (i: nat)
    requires Legal(trace) && j < |trace| && trace[j] == RanOn
    ensures i < j && trace[i].Finishing? && forall k | i < k < j :: trace[k] !in {RanOn, Stopped}
  {
    i := TriedWasFinishing(trace[..j]);
  }

  lemma {:induction false} TriedWasFinishing(trace: seq<Happening>) returns (i: nat)
    requires Tried(trace)
    ensures i < |trace| && trace[i].Finishing? && forall j | i < j < |trace| :: trace[j] !in {RanOn, Stopped}
  {
    var n := |trace| - 1;
    if trace[n].Finishing? { i := n; } else { i := TriedWasFinishing(trace[..n]); }
  }
}
