/**
  Allocation of numids: the search for a hole between the numid ranges of the live controls
  (snd_ctl_remove_numid_conflict and snd_ctl_find_hole in linux/sound/core/control.c).
 */
module ControlNumid {
  import opened Words
  import opened ControlTypes

  /** A start value `last` is in reach of the search for `count` numids. */
  predicate InReach(last: int, count: nat) { 0 <= last < UINT_MAX - count }

  /** The range of k overlaps the `count` numids following `last`. */
  predicate Conflicts(k: Kctl, last: int, count: nat) {
    k.id.numid < last + 1 + count && k.id.numid + k.count > last + 1
  }

  ghost predicate Feasible(controls: seq<Kctl>, last: int, count: nat) {
    InReach(last, count) && forall i | 0 <= i < |controls| :: !Conflicts(controls[i], last, count)
  }

  /** Live ranges start at 1 or more and end below the 32-bit limit. */
  ghost predicate InRange(controls: seq<Kctl>) {
    forall k | k in controls :: k.Sized() && 1 <= k.id.numid && k.Last() < UINT_MAX
  }

  ghost predicate Disjoint(controls: seq<Kctl>) {
    forall x, y, n | x in controls && y in controls && x.Covers(n) && y.Covers(n) :: x == y
  }

  /** No start value from `from` up to `last` is feasible. */
  ghost predicate NoneBefore(controls: seq<Kctl>, from: int, last: int, count: nat) {
    forall l | from <= l < last :: !Feasible(controls, l, count)
  }

  /** Every start value up to the end of a conflicting range conflicts with it too. */
  lemma JumpSkipsNothing(controls: seq<Kctl>, i: nat, from: int, last: int, count: nat)
    requires i < |controls| && Conflicts(controls[i], last, count) && NoneBefore(controls, from, last, count)
    ensures last < controls[i].Last() && NoneBefore(controls, from, controls[i].Last(), count)
  {
    forall l | from <= l < controls[i].Last() ensures !Feasible(controls, l, count) {
      if l >= last { assert Conflicts(controls[i], l, count); }
    }
  }

  /** How many ranges end at or before l. */
  function EndedBy(controls: seq<Kctl>, l: int): (n: nat)
    ensures n <= |controls|
  {
    if controls == [] then 0
    else (if controls[0].Last() <= l then 1 else 0) + EndedBy(controls[1..], l)
  }

  lemma {:induction false} EndedByGrows(controls: seq<Kctl>, l: int, m: int)
    requires l <= m
    ensures EndedBy(controls, l) <= EndedBy(controls, m)
  {
    if controls != [] { EndedByGrows(controls[1..], l, m); }
  }

  /** Passing the end of one more range raises the count: no range conflicts twice in a pass. */
  lemma {:induction false} EndedByCounts(controls: seq<Kctl>, i: nat, l: int)
    requires i < |controls| && l < controls[i].Last()
    ensures EndedBy(controls, l) < EndedBy(controls, controls[i].Last())
  {
    if i == 0 {
      EndedByGrows(controls[1..], l, controls[0].Last());
    } else {
      EndedByCounts(controls[1..], i - 1, l);
    }
  }

  /** The first control in list order that conflicts, if any. */
  ghost predicate FirstConflict(controls: seq<Kctl>, i: nat, last: int, count: nat) {
    && i < |controls| && Conflicts(controls[i], last, count)
    && forall j | 0 <= j < i :: !Conflicts(controls[j], last, count)
  }

  /** The search restarts at 0 once it gets near the 32-bit limit. */
  function Start(last: u32, count: nat): u32 { if last >= UINT_MAX - count then 0 else last }

  /** Nothing but feasible values are passed over: up from `from`, or else past the top and up from 0. */
  ghost predicate FirstFit(controls: seq<Kctl>, from: int, last: int, count: nat) {
    Feasible(controls, last, count) &&
    ((from <= last && NoneBefore(controls, from, last, count)) ||
     (NoneBefore(controls, from, UINT_MAX, count) && NoneBefore(controls, 0, last, count)))
  }

  ghost predicate NoHole(controls: seq<Kctl>, count: nat) { forall l :: !Feasible(controls, l, count) }

  /** How far a search has come: before it wraps, after, or once it has seen every start value. */
  ghost predicate Progress(controls: seq<Kctl>, from: int, last: int, count: nat, pass: nat, steps: nat) {
    && (pass == 0 ==> from <= last && NoneBefore(controls, from, last, count) && steps <= EndedBy(controls, last))
    && (pass == 1 ==> NoneBefore(controls, from, UINT_MAX, count) && NoneBefore(controls, 0, last, count)
                      && steps <= |controls| + EndedBy(controls, last))
    && (pass >= 2 ==> NoHole(controls, count))
  }

  lemma Restart(controls: seq<Kctl>, from: int, last: u32, count: nat, pass: nat, steps: nat) returns (pass': nat)
    requires Progress(controls, from, last, count, pass, steps)
    ensures Progress(controls, from, Start(last, count), count, pass', steps)
  {
    pass' := if last >= UINT_MAX - count then pass + 1 else pass;
  }

  lemma Jump(controls: seq<Kctl>, i: nat, from: int, last: int, count: nat, pass: nat, steps: nat)
    requires i < |controls| && Conflicts(controls[i], last, count) && Progress(controls, from, last, count, pass, steps)
    ensures Progress(controls, from, controls[i].Last(), count, pass, steps + 1)
  {
    if pass == 0 { JumpSkipsNothing(controls, i, from, last, count); }
    if pass == 1 { JumpSkipsNothing(controls, i, 0, last, count); }
    EndedByCounts(controls, i, last);
  }

  /** A hole fits: the new range is in range and overlaps no live one. */
  lemma HoleFits(controls: seq<Kctl>, k: Kctl)
    requires k.Sized() && 1 <= k.id.numid && InRange(controls) && Disjoint(controls)
    requires Feasible(controls, k.id.numid - 1, k.count)
    ensures InRange(controls + [k]) && Disjoint(controls + [k])
  {
    var all := controls + [k];
    forall x | x in controls ensures !Conflicts(x, k.id.numid - 1, k.count) {
      var i :| 0 <= i < |controls| && controls[i] == x;
    }
    forall x, y, n | x in all && y in all && x.Covers(n) && y.Covers(n) ensures x == y {
    }
  }
}
