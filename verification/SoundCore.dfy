/**
  Minor numbers of the OSS sound core: sorted chains of units, sixteen minors apart
  (linux/sound/sound_core.c).
 */
module SoundCore {
  import opened Errno
  import opened Options

  const STEP := 16

  datatype Unit = Unit(minor: int, fops: int)

  ghost predicate Sorted(c: seq<Unit>) { forall i, j | 0 <= i < j < |c| :: c[i].minor < c[j].minor }

  /** A chain is strictly sorted, and its minors all have the remainder r. */
  ghost predicate Chain(c: seq<Unit>, r: int) {
    && Sorted(c)
    && (forall i | 0 <= i < |c| :: c[i].minor % STEP == r)
  }

  ghost predicate Has(c: seq<Unit>, n: int) { exists i :: 0 <= i < |c| && c[i].minor == n }

  /** The k-th minor a request may get. */
  function Minor(low: int, k: nat): int { low + k * STEP }

  /** n is the k-th minor, and the first that is neither in the chain nor claimed elsewhere. */
  ghost predicate FirstFree(c: seq<Unit>, busy: set<int>, low: int, k: nat) {
    && !Has(c, Minor(low, k)) && Minor(low, k) !in busy
    && forall j: nat | j < k :: Has(c, Minor(low, j)) || Minor(low, j) in busy
  }

  ghost predicate NoneFree(c: seq<Unit>, busy: set<int>, low: int, top: int) {
    forall j: nat | Minor(low, j) < top :: Has(c, Minor(low, j)) || Minor(low, j) in busy
  }

  /** c is was with one more unit. */
  ghost predicate Joined(was: seq<Unit>, c: seq<Unit>, u: Unit) {
    exists p :: 0 <= p <= |was| && c == was[..p] + [u] + was[p..]
  }

  /** A unit that fits between its neighbours keeps a chain sorted. */
  lemma JoinKeeps(c: seq<Unit>, p: nat, u: Unit, r: int)
    requires Chain(c, r) && p <= |c| && u.minor % STEP == r
    requires forall i | 0 <= i < p :: c[i].minor < u.minor
    requires forall i | p <= i < |c| :: u.minor < c[i].minor
    ensures Chain(c[..p] + [u] + c[p..], r) && Joined(c, c[..p] + [u] + c[p..], u)
  {
    var c' := c[..p] + [u] + c[p..];
    assert forall i | 0 <= i < |c'| :: c'[i] == if i < p then c[i] else if i == p then u else c[i - 1];
  }

  lemma Without(was: seq<Unit>, p: nat, u: Unit)
    requires p <= |was|
    ensures var c := was[..p] + [u] + was[p..]; c[p] == u && c[..p] + c[p + 1..] == was
  {
    var c := was[..p] + [u] + was[p..];
    assert c[..p] == was[..p];
    assert c[p + 1..] == was[p..];
  }

  /** Taking the joined unit out again restores the chain. */
  lemma LeaveUndoesJoin(was: seq<Unit>, c: seq<Unit>, u: Unit, i: nat)
    requires Joined(was, c, u) && Sorted(c) && i < |c| && c[i].minor == u.minor
    ensures c[..i] + c[i + 1..] == was
  {
    var p :| 0 <= p <= |was| && c == was[..p] + [u] + was[p..];
    Without(was, p, u);
    assert i == p;
  }

  /** Minors of a chain behind a given one are at least a step further on. */
  lemma NextStep(c: seq<Unit>, p: nat, n: int)
    requires p < |c| && c[p].minor == n && Chain(c, n % STEP)
    ensures forall i | p < i < |c| :: n + STEP <= c[i].minor
  {
    forall i | p < i < |c| ensures n + STEP <= c[i].minor {
      assert c[p].minor < c[i].minor && c[i].minor % STEP == n % STEP;
    }
  }

  class Units {
    var chain: seq<Unit>

    constructor ()
      ensures chain == []
    {
      chain := [];
    }

    /** Where the least free minor at or above low is, without looking at top. */
    method FindFree(low: int, top: int) returns (p: nat, n: int, ghost k: nat)
      requires Chain(chain, low % STEP)
      ensures p <= |chain| && n == Minor(low, k)
      ensures forall i | 0 <= i < p :: chain[i].minor < n
      ensures forall j: nat | j < k :: Has(chain, Minor(low, j))
      ensures n < top ==> forall i | p <= i < |chain| :: n < chain[i].minor
    {
      n, k, p := low, 0, 0;
      while p < |chain| && chain[p].minor < n
        invariant 0 <= p <= |chain| && n == low
        invariant forall i | 0 <= i < p :: chain[i].minor < n
      {
        p := p + 1;
      }
      while n < top
        invariant 0 <= p <= |chain| && n == Minor(low, k)
        invariant forall i | 0 <= i < p :: chain[i].minor < n
        invariant forall i | p <= i < |chain| :: n <= chain[i].minor
        invariant forall j: nat | j < k :: Has(chain, Minor(low, j))
      {
        if p == |chain| || chain[p].minor > n { break; }
        assert Has(chain, Minor(low, k));
        NextStep(chain, p, n);
        p, n, k := p + 1, n + STEP, k + 1;
      }
    }

    /** Where a minor belongs in the chain, or that it is taken. */
    method FindPlace(n: int) returns (p: nat, busy: bool)
      requires Sorted(chain)
      ensures busy <==> Has(chain, n)
      ensures p <= |chain| && forall i | 0 <= i < p :: chain[i].minor < n
      ensures !busy ==> forall i | p <= i < |chain| :: n < chain[i].minor
    {
      p := 0;
      while p < |chain|
        invariant 0 <= p <= |chain| && forall i | 0 <= i < p :: chain[i].minor < n
      {
        if chain[p].minor == n { return p, true; }
        if chain[p].minor > n { break; }
        p := p + 1;
      }
      busy := false;
    }

    /** Inserts a unit at the least free minor below top, or at the very one asked for. */
    method InsertUnit(fops: int, index: int, low: nat, top: int) returns (r: int, ghost k: nat)
      requires Chain(chain, low % STEP)
      modifies this
      ensures Chain(chain, low % STEP)
      ensures r < 0 ==> chain == old(chain)
      ensures r >= 0 ==> r == Minor(low, k) && Joined(old(chain), chain, Unit(r, fops))
      ensures index < 0 && r >= 0 ==> r < top && FirstFree(old(chain), {}, low, k)
      ensures index < 0 && r < 0 ==> r == -ENOENT && NoneFree(chain, {}, low, top)
      ensures index >= 0 ==> k == index && r == if Has(old(chain), Minor(low, index)) then -EBUSY else Minor(low, index)
    {
      var p: nat, n: int;
      if index < 0 {
        p, n, k := FindFree(low, top);
        if n >= top { return -ENOENT, k; }
      } else {
        n, k := low + index * 16, index;
        var busy;
        p, busy := FindPlace(n);
        if busy { return -EBUSY, k; }
      }
      JoinKeeps(chain, p, Unit(n, fops), low % STEP);
      chain := chain[..p] + [Unit(n, fops)] + chain[p..];
      r := n;
    }

    /** Takes the unit with a minor out of the chain. */
    method RemoveUnit(unit: int, ghost r: int) returns (found: Option<Unit>)
      requires Chain(chain, r)
      modifies this
      ensures Chain(chain, r)
      ensures found.None? <==> !Has(old(chain), unit)
      ensures found.None? ==> chain == old(chain)
      ensures found.Some? ==> found.value.minor == unit && !Has(chain, unit)
                              && exists i :: 0 <= i < |old(chain)| && old(chain)[i] == found.value
                                             && chain == old(chain)[..i] + old(chain)[i + 1..]
    {
      var i := 0;
      while i < |chain|
        invariant 0 <= i <= |chain| && chain == old(chain)
        invariant forall j | 0 <= j < i :: chain[j].minor != unit
      {
        if chain[i].minor == unit {
          found := Some(chain[i]);
          chain := chain[..i] + chain[i + 1..];
          assert forall j | 0 <= j < |chain| :: chain[j] == if j < i then old(chain)[j] else old(chain)[j + 1];
          return;
        }
        i := i + 1;
      }
      found := None;
    }

    /** One attempt at a registration; a unit whose minor is claimed elsewhere is taken out again. */
    method Attempt(fops: int, index: int, low: nat, top: int, busy: set<int>)
      returns (r: int, refused: bool, ghost k: nat)
      requires Chain(chain, low % STEP)
      modifies this
      ensures Chain(chain, low % STEP)
      ensures r < 0 || refused ==> chain == old(chain)
      ensures r >= 0 && !refused ==> Joined(old(chain), chain, Unit(r, fops))
      ensures r >= 0 ==> r == Minor(low, k) && (refused <==> r in busy)
      ensures index < 0 && r >= 0 ==> r < top && FirstFree(old(chain), {}, low, k)
      ensures index < 0 && r < 0 ==> r == -ENOENT && NoneFree(chain, {}, low, top) && !refused
      ensures index >= 0 ==> k == index && r == if Has(old(chain), Minor(low, index)) then -EBUSY else Minor(low, index)
    {
      r, k := InsertUnit(fops, index, low, top);
      refused := r >= 0 && r in busy;
      if refused {
        ghost var added := chain;
        assert Has(added, r) by {
          var p :| 0 <= p <= |old(chain)| && added == old(chain)[..p] + [Unit(r, fops)] + old(chain)[p..];
          assert added[p].minor == r;
        }
        var removed := RemoveUnit(r, low % STEP);
        ghost var i :| 0 <= i < |added| && added[i] == removed.value && chain == added[..i] + added[i + 1..];
        LeaveUndoesJoin(old(chain), added, Unit(r, fops), i);
      }
    }

    /**
      Registers a device. Unless all minors were claimed in advance, a minor may turn out to be claimed
      elsewhere (`busy`); then the unit is taken out again and the search goes on behind it.
     */
    method SoundInsert(fops: int, index: int, low: nat, top: int, noMem: bool, preclaim: bool, busy: set<int>)
      returns (r: int, ghost k: nat)
      requires Chain(chain, low % STEP)
      modifies this
      ensures Chain(chain, low % STEP)
      ensures r < 0 ==> chain == old(chain)
      ensures r >= 0 ==> r == Minor(low, k) && Joined(old(chain), chain, Unit(r, fops))
      ensures noMem ==> r == -ENOMEM
      ensures index < 0 && r >= 0 ==> r < top && FirstFree(old(chain), if preclaim then {} else busy, low, k)
      ensures index < 0 && r < 0 && !noMem ==> r == -ENOENT && NoneFree(chain, if preclaim then {} else busy, low, top)
      ensures index >= 0 && !noMem ==>
        r == if Has(old(chain), Minor(low, index)) || (!preclaim && Minor(low, index) in busy) then -EBUSY
             else Minor(low, index)
    {
      k := 0;
      if noMem { return -ENOMEM, k; }
      var taken := if preclaim then {} else busy;
      ghost var tries: nat := 0;
      var from := low;
      while true
        invariant chain == old(chain) && Chain(chain, low % STEP)
        invariant from == Minor(low, tries) && (index >= 0 ==> from == low)
        invariant forall j: nat | j < tries :: Has(chain, Minor(low, j)) || Minor(low, j) in taken
        decreases top - from
      {
        ghost var more;
        var refused;
        r, refused, more := Attempt(fops, index, from, top, taken);
        k := tries + more;
        if index < 0 { Behind(old(chain), taken, low, top, from, tries, more, r); }
        if r < 0 || !refused { return; }
        if index >= 0 { return -EBUSY, k; }
        from, tries := r + STEP, k + 1;
      }
    }

    /** The unit with a minor, found without walking past its place. */
    method LookForUnit(unit: int) returns (u: Option<Unit>)
      requires Sorted(chain)
      ensures u.Some? <==> Has(chain, unit)
      ensures u.Some? ==> u.value in chain && u.value.minor == unit
    {
      var i := 0;
      while i < |chain| && chain[i].minor <= unit
        invariant 0 <= i <= |chain| && forall j | 0 <= j < i :: chain[j].minor != unit
      {
        if chain[i].minor == unit { return Some(chain[i]); }
        i := i + 1;
      }
      u := None;
    }
  }

  /** What a later search finds out, seen from the start of the first one. */
  lemma Behind(c: seq<Unit>, busy: set<int>, low: int, top: int, from: int, tries: nat, more: nat, r: int)
    requires from == Minor(low, tries)
    requires forall j: nat | j < tries :: Has(c, Minor(low, j)) || Minor(low, j) in busy
    requires if r >= 0 then r == Minor(from, more) && FirstFree(c, {}, from, more) else NoneFree(c, {}, from, top)
    ensures r >= 0 ==> r == Minor(low, tries + more)
    ensures r >= 0 ==> forall j: nat | j < tries + more :: Has(c, Minor(low, j)) || Minor(low, j) in busy
    ensures r >= 0 && r !in busy ==> FirstFree(c, busy, low, tries + more)
    ensures r < 0 ==> NoneFree(c, busy, low, top)
  {
    forall j: nat | j >= tries && (if r >= 0 then j < tries + more else Minor(low, j) < top)
      ensures Has(c, Minor(low, j))
    {
      assert Minor(low, j) == Minor(from, j - tries);
    }
  }
}
