/**
  What refinements by lists and ranges leave, as sets of real numbers: the mask by its bits, the values and
  ranges by their members (snd_interval_list and snd_interval_ranges in linux/sound/core/pcm_lib.c).
 */
module PcmMasks {
  import opened Errno
  import opened Words
  import opened RingMath
  import opened PcmInterval

  // ---------------------------------------------------------------- masks

  /** The number with these bits, the lowest one first. */
  ghost function MaskOf(bits: seq<bool>): nat {
    if bits == [] then 0 else (if bits[0] then 1 else 0) + 2 * MaskOf(bits[1..])
  }

  /** Every number has bits. */
  lemma {:induction false} HasBits(mask: nat) returns (bits: seq<bool>)
    ensures MaskOf(bits) == mask
  {
    if mask == 0 {
      bits := [];
    } else {
      var rest := HasBits(mask / 2);
      bits := [mask % 2 == 1] + rest;
      assert bits[1..] == rest;
    }
  }

  lemma {:induction false} ZeroMask(bits: seq<bool>)
    ensures MaskOf(bits) == 0 <==> forall k | 0 <= k < |bits| :: !bits[k]
  {
    if bits != [] {
      ZeroMask(bits[1..]);
      if forall k | 0 <= k < |bits| :: !bits[k] {
        forall k | 0 <= k < |bits| - 1 ensures !bits[1..][k] { assert bits[1..][k] == bits[k + 1]; }
      } else {
        var k :| 0 <= k < |bits| && bits[k];
        if k > 0 { assert bits[1..][k - 1]; }
      }
    }
  }

  /** Dividing by twice as much is halving first. */
  lemma HalfFirst(m: nat, d: nat)
    requires 0 < d
    ensures m / (2 * d) == m / 2 / d
  {
    var h := m / 2;
    assert h == d * (h / d) + h % d;
    assert d * (h / d) * 2 == 2 * d * (h / d);
    EuclidUnique(m, 2 * d, h / d, 2 * (h % d) + m % 2);
  }

  /** The k-th bit is what division by the k-th power of two brings to the last place. */
  lemma {:induction false} BitAt(bits: seq<bool>, k: nat)
    ensures Pow2(k) > 0 && (MaskOf(bits) / Pow2(k) % 2 == 1 <==> k < |bits| && bits[k])
    decreases k
  {
    Pow2Positive(k);
    if bits == [] {
      EuclidUnique(0, Pow2(k), 0, 0);
    } else if k > 0 {
      BitAt(bits[1..], k - 1);
      HalfFirst(MaskOf(bits), Pow2(k - 1));
    }
  }

  /** Entry k is asked for: no bit is set, or its own is. */
  ghost predicate Picked(bits: seq<bool>, k: nat) {
    (forall j | 0 <= j < |bits| :: !bits[j]) || (k < |bits| && bits[k])
  }

  /** A mask selects exactly the entries of its bits, or all if it has none. */
  lemma SelectedIff(bits: seq<bool>, k: nat)
    requires MaskOf(bits) <= UINT_MAX
    ensures Selected(MaskOf(bits), k) <==> Picked(bits, k)
  {
    ZeroMask(bits);
    BitAt(bits, k);
  }

  /** A power of two selects exactly the entry of its exponent. */
  lemma PowerSelects(j: nat, k: nat)
    requires Pow2(j) <= UINT_MAX
    ensures Selected(Pow2(j), k) <==> k == j
  {
    hide Selected, Pow2, MaskOf;
    var bits := OneBit(j);
    SelectedIff(bits, k);
    assert bits[j];
    if k <= j { assert bits[k] == (k == j); }
  }

  lemma {:induction false} OneBit(j: nat) returns (bits: seq<bool>)
    ensures MaskOf(bits) == Pow2(j) && |bits| == j + 1 && forall k | 0 <= k <= j :: bits[k] == (k == j)
  {
    if j == 0 {
      bits := [true];
    } else {
      var rest := OneBit(j - 1);
      bits := [false] + rest;
      assert bits[1..] == rest;
    }
  }

  // ---------------------------------------------------------------- lists

  /** The test for a list value is membership, its integer flag aside, which every list value meets. */
  lemma PassesIff(i: Interval, x: u32)
    ensures Passes(i, x) <==> InBounds(i, x as real)
  {
    assert (x as real).Floor == x;
  }

  /** The k-th value is asked for and a member of i. */
  ghost predicate Offered(i: Interval, list: seq<u32>, bits: seq<bool>, k: nat) {
    k < |list| && Picked(bits, k) && InBounds(i, list[k] as real)
  }

  /** x lies between two offered values. */
  ghost predicate Spanned(i: Interval, list: seq<u32>, bits: seq<bool>, x: real) {
    exists j: nat, k: nat ::
      Offered(i, list, bits, j) && Offered(i, list, bits, k) && (list[j] as real) <= x <= (list[k] as real)
  }

  lemma OfferedIff(i: Interval, list: seq<u32>, bits: seq<bool>, k: nat)
    requires MaskOf(bits) <= UINT_MAX
    ensures Offered(i, list, bits, k) <==> ListHit(i, list, MaskOf(bits), k)
  {
    SelectedIff(bits, k);
    if k < |list| { PassesIff(i, list[k]); }
  }

  /**
    Refinement by a list fails exactly if none of the values asked for is a member, and leaves exactly what
    lies between two of those that are.
   */
  lemma ListExact(i: Interval, list: seq<u32>, bits: seq<bool>)
    requires !i.empty && Steppable(i) && MaskOf(bits) <= UINT_MAX
    ensures var (c, err) := ListRefined(i, list, MaskOf(bits));
            && (err == -EINVAL <==> forall k: nat :: !Offered(i, list, bits, k))
            && (forall x: real :: Contains(c, x) <==> Spanned(i, list, bits, x) && (i.integer ==> IsInteger(x)))
  {
    var mask := MaskOf(bits);
    var (c, err) := ListRefined(i, list, mask);
    ListTightest(i, list, mask);
    forall k: nat ensures Offered(i, list, bits, k) <==> ListHit(i, list, mask, k) { OfferedIff(i, list, bits, k); }
    forall x: real ensures Contains(c, x) <==> Spanned(i, list, bits, x) && (i.integer ==> IsInteger(x)) {
      ListMember(i, list, bits, mask, c, err, x);
    }
  }

  lemma ListMember(i: Interval, list: seq<u32>, bits: seq<bool>, mask: u32, c: Interval, err: int, x: real)
    requires forall k: nat :: Offered(i, list, bits, k) <==> ListHit(i, list, mask, k)
    requires err == -EINVAL ==> c.empty && forall k: nat :: !Offered(i, list, bits, k)
    requires err != -EINVAL ==>
               && !c.empty && !c.openmin && !c.openmax && c.integer == (i.integer || c.min == c.max)
               && (exists k :: ListHit(i, list, mask, k) && list[k] == c.min)
               && (exists k :: ListHit(i, list, mask, k) && list[k] == c.max)
               && (forall k | ListHit(i, list, mask, k) :: c.min <= list[k] <= c.max)
    ensures Contains(c, x) <==> Spanned(i, list, bits, x) && (i.integer ==> IsInteger(x))
  {
    if err != -EINVAL {
      var j :| ListHit(i, list, mask, j) && list[j] == c.min;
      var k :| ListHit(i, list, mask, k) && list[k] == c.max;
      assert Offered(i, list, bits, j) && Offered(i, list, bits, k);
      if c.min == c.max && (c.min as real) <= x <= (c.max as real) { assert x == c.min as real && x.Floor == c.min; }
    }
  }

  /** So a mask of one bit whose value is inside leaves exactly that value. */
  lemma OneLeft(i: Interval, list: seq<u32>, j: nat)
    requires !i.empty && Steppable(i) && j < |list| && Pow2(j) <= UINT_MAX && InBounds(i, list[j] as real)
    ensures ListRefined(i, list, Pow2(j)).1 != -EINVAL
    ensures forall x: real :: Contains(ListRefined(i, list, Pow2(j)).0, x) <==> x == list[j] as real
  {
    var bits := OneBit(j);
    ListExact(i, list, bits);
    assert Offered(i, list, bits, j) && (list[j] as real).Floor == list[j];
    forall k: nat | Offered(i, list, bits, k) ensures k == j { assert bits[j]; }
  }

  // ---------------------------------------------------------------- ranges

  /** x is a member of i and of a range that is asked for. */
  ghost predicate Shared(i: Interval, ranges: seq<Interval>, bits: seq<bool>, x: real) {
    Contains(i, x) && exists k: nat :: k < |ranges| && Picked(bits, k) && Contains(ranges[k], x)
  }

  /** x lies between two of those. */
  ghost predicate Enclosed(i: Interval, ranges: seq<Interval>, bits: seq<bool>, x: real) {
    exists y: real, z: real :: Shared(i, ranges, bits, y) && Shared(i, ranges, bits, z) && y <= x <= z
  }

  /** A cut holds the common members of a range and i. */
  lemma CutHolds(i: Interval, range: Interval)
    requires !i.empty && Steppable(i) && (range.empty || Steppable(range))
    ensures CutOf(i, range).Miss? ==> forall x: real :: !(Contains(range, x) && Contains(i, x))
    ensures CutOf(i, range).Hit? ==>
              && Normal(CutOf(i, range).c) && !CheckEmpty(CutOf(i, range).c)
              && forall x: real :: InBounds(CutOf(i, range).c, x) <==> Contains(range, x) && Contains(i, x)
  {
    if !range.empty {
      RefineExact(range, i);
      if CutOf(i, range).Hit? { CutInside(i, range); }
    }
  }

  /** A member of a cut at or below any given x above its lower end. */
  lemma MemberBelow(c: Interval, x: real) returns (y: real)
    requires Normal(c) && !CheckEmpty(c) && AboveLow(c.min, c.openmin, x)
    ensures InBounds(c, y) && y <= x
  {
    if !c.openmin {
      y := c.min as real;
      assert y.Floor == c.min;
    } else {
      var top := if x < (c.max as real) then x else c.max as real;
      y := ((c.min as real) + top) / 2.0;
    }
  }

  lemma MemberAbove(c: Interval, x: real) returns (z: real)
    requires Normal(c) && !CheckEmpty(c) && BelowHigh(c.max, c.openmax, x)
    ensures InBounds(c, z) && x <= z
  {
    if !c.openmax {
      z := c.max as real;
      assert z.Floor == c.max;
    } else {
      var bottom := if x > (c.min as real) then x else c.min as real;
      z := ((c.max as real) + bottom) / 2.0;
    }
  }

  /** What is shared is what the cuts hold. */
  lemma SharedIff(i: Interval, ranges: seq<Interval>, bits: seq<bool>, x: real)
    requires !i.empty && Steppable(i) && MaskOf(bits) <= UINT_MAX
    requires forall k | 0 <= k < |ranges| :: ranges[k].empty || Steppable(ranges[k])
    ensures var cuts := Cuts(i, ranges, MaskOf(bits));
            Shared(i, ranges, bits, x) <==> exists k: nat :: k < |cuts| && cuts[k].Hit? && InBounds(cuts[k].c, x)
  {
    var cuts := Cuts(i, ranges, MaskOf(bits));
    forall k: nat | k < |ranges|
      ensures cuts[k].Hit? && InBounds(cuts[k].c, x) <==> Picked(bits, k) && Contains(ranges[k], x) && Contains(i, x)
    {
      SelectedIff(bits, k);
      CutHolds(i, ranges[k]);
    }
  }

  /**
    Refinement by ranges fails exactly if the ranges asked for share nothing with the interval, and leaves
    exactly what lies between two of the shared members.
   */
  lemma RangesExact(i: Interval, ranges: seq<Interval>, bits: seq<bool>)
    requires !i.empty && Steppable(i) && MaskOf(bits) <= UINT_MAX
    requires forall k | 0 <= k < |ranges| :: ranges[k].empty || Steppable(ranges[k])
    ensures var (c, err) := RangesRefined(i, ranges, MaskOf(bits));
            && (err == -EINVAL <==> forall x: real :: !Shared(i, ranges, bits, x))
            && (forall x: real :: Contains(c, x) <==> Enclosed(i, ranges, bits, x) && (i.integer ==> IsInteger(x)))
  {
    hide Picked;
    var mask := MaskOf(bits);
    var cuts := Cuts(i, ranges, mask);
    var (c, err) := RangesRefined(i, ranges, mask);
    RangesHull(i, ranges, mask);
    if err == -EINVAL {
      forall x: real ensures !Shared(i, ranges, bits, x) { SharedIff(i, ranges, bits, x); }
    } else {
      var k := SomeHit(cuts);
      SelectedIff(bits, k);
      CutHolds(i, ranges[k]);
      NormalEmptiness(cuts[k].c);
      SharedIff(i, ranges, bits, Witness(cuts[k].c));
      forall x: real ensures Contains(c, x) <==> Enclosed(i, ranges, bits, x) && (i.integer ==> IsInteger(x)) {
        if Contains(c, x) { HullEnclosed(i, ranges, bits, c, x); }
        if Enclosed(i, ranges, bits, x) && (i.integer ==> IsInteger(x)) { EnclosedInHull(i, ranges, bits, c, x); }
      }
    }
  }

  lemma SomeHit(cuts: seq<Cut>) returns (k: nat)
    requires !AllMiss(cuts)
    ensures k < |cuts| && cuts[k].Hit?
  {
    k :| k < |cuts| && cuts[k].Hit?;
  }

  lemma HullEnclosed(i: Interval, ranges: seq<Interval>, bits: seq<bool>, c: Interval, x: real)
    requires !i.empty && Steppable(i) && MaskOf(bits) <= UINT_MAX
    requires forall k | 0 <= k < |ranges| :: ranges[k].empty || Steppable(ranges[k])
    requires Hull(Cuts(i, ranges, MaskOf(bits)), c) && Contains(c, x)
    ensures Enclosed(i, ranges, bits, x)
  {
    hide Picked;
    var cuts := Cuts(i, ranges, MaskOf(bits));
    var j :| 0 <= j < |cuts| && cuts[j].Hit? && cuts[j].c.min == c.min && cuts[j].c.openmin == c.openmin;
    var k :| 0 <= k < |cuts| && cuts[k].Hit? && cuts[k].c.max == c.max && cuts[k].c.openmax == c.openmax;
    CutHolds(i, ranges[j]);
    CutHolds(i, ranges[k]);
    var y := MemberBelow(cuts[j].c, x);
    var z := MemberAbove(cuts[k].c, x);
    SharedIff(i, ranges, bits, y);
    SharedIff(i, ranges, bits, z);
  }

  lemma HullAround(cuts: seq<Cut>, c: Interval, k: nat, x: real)
    requires Hull(cuts, c) && k < |cuts| && cuts[k].Hit? && InBounds(cuts[k].c, x)
    ensures AboveLow(c.min, c.openmin, x) && BelowHigh(c.max, c.openmax, x)
  {
  }

  lemma EnclosedInHull(i: Interval, ranges: seq<Interval>, bits: seq<bool>, c: Interval, x: real)
    requires !i.empty && Steppable(i) && MaskOf(bits) <= UINT_MAX
    requires forall k | 0 <= k < |ranges| :: ranges[k].empty || Steppable(ranges[k])
    requires Hull(Cuts(i, ranges, MaskOf(bits)), c) && !c.empty
    requires c.integer == (i.integer || (c.min == c.max && !c.openmin && !c.openmax))
    requires Enclosed(i, ranges, bits, x) && (i.integer ==> IsInteger(x))
    ensures Contains(c, x)
  {
    hide Picked, Hull, CutOf;
    var cuts := Cuts(i, ranges, MaskOf(bits));
    var y, z :| Shared(i, ranges, bits, y) && Shared(i, ranges, bits, z) && y <= x <= z;
    SharedIff(i, ranges, bits, y);
    SharedIff(i, ranges, bits, z);
    var j: nat :| j < |cuts| && cuts[j].Hit? && InBounds(cuts[j].c, y);
    var k: nat :| k < |cuts| && cuts[k].Hit? && InBounds(cuts[k].c, z);
    HullAround(cuts, c, j, y);
    HullAround(cuts, c, k, z);
    if c.min == c.max && !c.openmin && !c.openmax { assert x == c.min as real && x.Floor == c.min; }
  }
}
