/**
  Interval constraints of the PCM parameter space (linux/sound/core/pcm_lib.c).

  An interval has 32-bit ends, each closed or open, and an integer flag. It denotes a set
  of real numbers; a refinement step intersects two such sets, and the arithmetic steps
  bound the products and quotients of their members.
 */
module PcmInterval {
  import opened Errno
  import opened Words

  datatype Interval = Interval(min: u32, max: u32, openmin: bool, openmax: bool, integer: bool, empty: bool)

  // ---------------------------------------------------------------- what an interval means

  ghost predicate IsInteger(x: real) { x == x.Floor as real }

  /** x satisfies the lower end (m, open). */
  ghost predicate AboveLow(m: int, open: bool, x: real) {
    if open then (m as real) < x else (m as real) <= x
  }

  /** x satisfies the upper end (m, open). */
  ghost predicate BelowHigh(m: int, open: bool, x: real) {
    if open then x < (m as real) else x <= (m as real)
  }

  ghost predicate InBounds(i: Interval, x: real) {
    AboveLow(i.min, i.openmin, x) && BelowHigh(i.max, i.openmax, x) && (i.integer ==> IsInteger(x))
  }

  ghost predicate Contains(i: Interval, x: real) { !i.empty && InBounds(i, x) }

  predicate CheckEmpty(i: Interval) {
    i.min > i.max || (i.min == i.max && (i.openmin || i.openmax))
  }

  /** Stepping an open end inwards does not wrap around the 32-bit range. */
  predicate Steppable(i: Interval) {
    (i.openmin ==> i.min < UINT_MAX) && (i.openmax ==> i.max > 0)
  }

  predicate Normal(i: Interval) {
    && (i.integer ==> !i.openmin && !i.openmax)
    && (i.min == i.max && !i.openmin && !i.openmax ==> i.integer)
  }

  lemma NonemptyIsSteppable(i: Interval, x: real)
    requires InBounds(i, x)
    ensures Steppable(i) && !CheckEmpty(i)
  {
  }

  // ---------------------------------------------------------------- refinement

  /** The tighter of the two lower ends. */
  function TighterLow(i: Interval, v: Interval): (u32, bool) {
    if i.min < v.min then (v.min, v.openmin)
    else if i.min == v.min then (i.min, i.openmin || v.openmin)
    else (i.min, i.openmin)
  }

  /** The tighter of the two upper ends. */
  function TighterHigh(i: Interval, v: Interval): (u32, bool) {
    if i.max > v.max then (v.max, v.openmax)
    else if i.max == v.max then (i.max, i.openmax || v.openmax)
    else (i.max, i.openmax)
  }

  /** Normal form: an integer interval gets closed ends, a closed singleton is integer. */
  function ClosedForm(i: Interval): Interval {
    if i.integer then
      i.(min := if i.openmin then Inc32(i.min) else i.min, max := if i.openmax then Dec32(i.max) else i.max,
         openmin := false, openmax := false)
    else i.(integer := !i.openmin && !i.openmax && i.min == i.max)
  }

  /** The tighter ends of two intervals, in normal form. */
  function Meet(i: Interval, v: Interval): Interval {
    var lo, hi := TighterLow(i, v), TighterHigh(i, v);
    ClosedForm(Interval(lo.0, hi.0, lo.1, hi.1, i.integer || v.integer, i.empty))
  }

  /** Whether any of the five writes of a refinement happens. */
  predicate MeetChanges(i: Interval, v: Interval) {
    TighterLow(i, v) != (i.min, i.openmin) || TighterHigh(i, v) != (i.max, i.openmax) || (v.integer && !i.integer)
  }

  /** New interval value and return code of a refinement. */
  function Refined(i: Interval, v: Interval): (Interval, int) {
    if i.empty then (i, -EINVAL)
    else
      var m := Meet(i, v);
      if CheckEmpty(m) then (m.(empty := true), -EINVAL)
      else (m, if MeetChanges(i, v) then 1 else 0)
  }

  /** For an integer x, an open end is the closed end one step inwards. */
  lemma IntegerStep(m: int, x: real)
    requires IsInteger(x)
    ensures AboveLow(m, true, x) <==> AboveLow(m + 1, false, x)
    ensures BelowHigh(m, true, x) <==> BelowHigh(m - 1, false, x)
  {
    var n := x.Floor;
    assert x == n as real;
    assert (m as real) < (n as real) <==> m < n;
    assert (m + 1) as real <= (n as real) <==> m + 1 <= n;
    assert (n as real) < (m as real) <==> n < m;
    assert (n as real) <= (m - 1) as real <==> n <= m - 1;
  }

  lemma TighterEnds(i: Interval, v: Interval, x: real)
    ensures var lo := TighterLow(i, v);
            AboveLow(lo.0, lo.1, x) <==> AboveLow(i.min, i.openmin, x) && AboveLow(v.min, v.openmin, x)
    ensures var hi := TighterHigh(i, v);
            BelowHigh(hi.0, hi.1, x) <==> BelowHigh(i.max, i.openmax, x) && BelowHigh(v.max, v.openmax, x)
  {
  }

  /** Closing an open end by one step keeps the integers. */
  lemma SteppedEnds(lo: (u32, bool), hi: (u32, bool), x: real)
    requires IsInteger(x)
    requires (lo.1 ==> lo.0 < UINT_MAX) && (hi.1 ==> hi.0 > 0)
    ensures AboveLow(if lo.1 then Inc32(lo.0) else lo.0, false, x) <==> AboveLow(lo.0, lo.1, x)
    ensures BelowHigh(if hi.1 then Dec32(hi.0) else hi.0, false, x) <==> BelowHigh(hi.0, hi.1, x)
  {
    IntegerStep(lo.0, x);
    IntegerStep(hi.0, x);
  }

  /** The normalised bounds hold exactly the common members. */
  lemma MeetIsIntersection(i: Interval, v: Interval, x: real)
    requires Steppable(i) && Steppable(v)
    ensures InBounds(Meet(i, v), x) <==> InBounds(i, x) && InBounds(v, x)
  {
    TighterEnds(i, v, x);
    var m, lo, hi := Meet(i, v), TighterLow(i, v), TighterHigh(i, v);
    if !i.integer && !v.integer {
      SingletonIsInteger(m, x);
    } else if IsInteger(x) {
      SteppedEnds(lo, hi, x);
      assert AboveLow(m.min, m.openmin, x) <==> AboveLow(lo.0, lo.1, x);
      assert BelowHigh(m.max, m.openmax, x) <==> BelowHigh(hi.0, hi.1, x);
    }
  }

  /** Flagging a closed singleton as integer removes nothing. */
  lemma SingletonIsInteger(m: Interval, x: real)
    requires m.integer ==> m.min == m.max && !m.openmin && !m.openmax
    ensures InBounds(m, x) <==> AboveLow(m.min, m.openmin, x) && BelowHigh(m.max, m.openmax, x)
  {
    if m.integer && AboveLow(m.min, m.openmin, x) && BelowHigh(m.max, m.openmax, x) {
      assert x == m.min as real;
    }
  }

  /** Some member of an interval whose ends do not exclude each other. */
  ghost function Witness(i: Interval): real {
    if i.integer || i.min == i.max then i.min as real
    else (i.min as real + i.max as real) / 2.0
  }

  lemma NormalEmptiness(i: Interval)
    requires Normal(i)
    ensures !CheckEmpty(i) ==> InBounds(i, Witness(i))
    ensures CheckEmpty(i) ==> forall x: real :: !InBounds(i, x)
  {
  }

  /**
    Refinement is intersection: the result holds precisely the common members, the error is
    returned iff there is none, and normal form is established.
   */
  lemma RefineExact(i: Interval, v: Interval)
    requires !i.empty && Steppable(i) && Steppable(v)
    ensures Refined(i, v).1 in {-EINVAL, 0, 1}
    ensures forall x: real :: Contains(Refined(i, v).0, x) <==> InBounds(i, x) && InBounds(v, x)
    ensures Refined(i, v).1 == -EINVAL <==> forall x: real :: !(InBounds(i, x) && InBounds(v, x))
    ensures Refined(i, v).1 >= 0 ==> Normal(Refined(i, v).0) && !CheckEmpty(Refined(i, v).0)
  {
    var m := Meet(i, v);
    forall x: real ensures InBounds(m, x) <==> InBounds(i, x) && InBounds(v, x) {
      MeetIsIntersection(i, v, x);
    }
    NormalEmptiness(m);
  }

  /** A tightened lower end throws some member out. */
  lemma LowDrops(i: Interval, v: Interval)
    requires Normal(i) && !CheckEmpty(i) && TighterLow(i, v) != (i.min, i.openmin)
    ensures exists d: real :: InBounds(i, d) && !AboveLow(v.min, v.openmin, d)
  {
    var d := if !i.openmin then i.min as real
             else if v.min < i.max then (i.min as real + v.min as real) / 2.0
             else (i.min as real + i.max as real) / 2.0;
    assert InBounds(i, d) && !AboveLow(v.min, v.openmin, d);
  }

  lemma HighDrops(i: Interval, v: Interval)
    requires Normal(i) && !CheckEmpty(i) && TighterHigh(i, v) != (i.max, i.openmax)
    ensures exists d: real :: InBounds(i, d) && !BelowHigh(v.max, v.openmax, d)
  {
    var d := if !i.openmax then i.max as real
             else if v.max > i.min then (i.max as real + v.max as real) / 2.0
             else (i.min as real + i.max as real) / 2.0;
    assert InBounds(i, d) && !BelowHigh(v.max, v.openmax, d);
  }

  /** A new integer flag throws a fraction out. */
  lemma IntegerDrops(i: Interval)
    requires Normal(i) && !CheckEmpty(i) && !i.integer
    ensures exists d: real :: InBounds(i, d) && !IsInteger(d)
  {
    var d := i.min as real + 0.5;
    assert d.Floor == i.min;
    assert InBounds(i, d) && !IsInteger(d);
  }

  /** From normal form, the code 0 says exactly that the denoted set is unchanged. */
  lemma RefineReportsChange(i: Interval, v: Interval)
    requires !i.empty && Normal(i) && !CheckEmpty(i) && Steppable(v)
    ensures Refined(i, v).1 == 0 <==> forall x: real :: Contains(i, x) <==> Contains(Refined(i, v).0, x)
    ensures Refined(i, v).1 == 0 ==> Refined(i, v).0 == i
  {
    RefineExact(i, v);
    if MeetChanges(i, v) {
      if TighterLow(i, v) != (i.min, i.openmin) { LowDrops(i, v); }
      else if TighterHigh(i, v) != (i.max, i.openmax) { HighDrops(i, v); }
      else { IntegerDrops(i); }
      assert exists d: real :: InBounds(i, d) && !InBounds(v, d);
    } else {
      assert Meet(i, v) == i;
      NormalEmptiness(i);
    }
  }

  /** Nonemptiness is needed: an empty operand can wrap and come back to life. */
  lemma RefineNeedsNonempty()
    ensures var i := Interval(UINT_MAX, UINT_MAX, true, false, true, false);
            && (forall x: real :: !InBounds(i, x))
            && Refined(i, i).1 == 0 && Contains(Refined(i, i).0, 7.0)
  {
    var i := Interval(UINT_MAX, UINT_MAX, true, false, true, false);
    assert Meet(i, i) == Interval(0, UINT_MAX, false, false, true, false);
    assert 7.0.Floor == 7;
  }

  // ---------------------------------------------------------------- products and quotients

  /**
    (m, open) is the tightest lower end on a 32-bit integer for values at or above lo, or
    strictly above it when lo itself is not taken.
   */
  ghost predicate OutwardLow(lo: real, attained: bool, m: int, open: bool) {
    m == lo.Floor && (open <==> !(attained && IsInteger(lo)))
  }

  ghost predicate OutwardHigh(hi: real, attained: bool, m: int, open: bool) {
    m == Ceil(hi) && (open <==> !(attained && IsInteger(hi)))
  }

  ghost function Ceil(x: real): int { if IsInteger(x) then x.Floor else x.Floor + 1 }

  ghost predicate Reaches(lo: real, attained: bool, z: real) { if attained then lo <= z else lo < z }

  /** An outward lower end admits every value, and no tighter end does. */
  lemma OutwardLowIsTightest(lo: real, attained: bool, m: int, open: bool, L: int, lOpen: bool)
    requires OutwardLow(lo, attained, m, open)
    ensures forall z: real | Reaches(lo, attained, z) :: AboveLow(m, open, z)
    ensures (forall z: real | Reaches(lo, attained, z) :: AboveLow(L, lOpen, z)) ==>
      L < m || (L == m && (lOpen ==> open))
  {
    if m < L {
      var z := if attained then lo else if lo < (L as real) then (lo + (L as real)) / 2.0 else lo;
      assert lo < (L as real);
      assert Reaches(lo, attained, z) && !AboveLow(L, lOpen, z);
    } else if L == m && lOpen && !open {
      assert Reaches(lo, attained, lo) && !AboveLow(L, lOpen, lo);
    }
  }

  lemma OutwardHighIsTightest(hi: real, attained: bool, m: int, open: bool, U: int, uOpen: bool)
    requires OutwardHigh(hi, attained, m, open)
    ensures forall z: real | Reaches(-hi, attained, -z) :: BelowHigh(m, open, z)
    ensures (forall z: real | Reaches(-hi, attained, -z) :: BelowHigh(U, uOpen, z)) ==>
      m < U || (U == m && (uOpen ==> open))
  {
    if U < m {
      var z := if attained then hi else (hi + (U as real)) / 2.0;
      assert (U as real) < hi;
      assert Reaches(-hi, attained, -z) && !BelowHigh(U, uOpen, z);
    } else if U == m && uOpen && !open {
      assert Reaches(-hi, attained, -hi) && !BelowHigh(U, uOpen, hi);
    }
  }

  /** Quotient and remainder of a 32-bit division; division by zero saturates. */
  function Div32(a: u32, b: u32): (u32, u32) {
    if b == 0 then (UINT_MAX, 0) else (a / b, a % b)
  }

  /** Saturating product. */
  function Mul32(a: u32, b: u32): u32 {
    if a == 0 then 0
    else if UINT_MAX / a < b then UINT_MAX
    else Saturated(Times(a, b))
  }

  function Saturated(n: nat): u32 { if n > UINT_MAX then UINT_MAX else n }

  /** Quotient and remainder of a 64-bit dividend, saturating without a remainder. */
  function Div64(n: nat, c: u32): (u32, u32) {
    if c == 0 then (UINT_MAX, 0)
    else if n / c >= UINT_MAX then (UINT_MAX, 0)
    else (n / c, n % c)
  }

  /** a * b / c over a 64-bit product. */
  function MulDiv32(a: u32, b: u32, c: u32): (u32, u32) { Div64(Times(a, b), c) }

  function Times(a: nat, b: nat): nat { a * b }

  function MulOf(a: Interval, b: Interval): Interval {
    Interval(Mul32(a.min, b.min), Mul32(a.max, b.max),
             a.openmin || b.openmin, a.openmax || b.openmax, a.integer && b.integer, false)
  }

  /** A lower end that was divided with the given remainder. */
  function LowQuotient(q: (u32, u32), open: bool): (u32, bool) { (q.0, q.1 != 0 || open) }

  /** An upper end that was divided with the given remainder: rounded up and open if inexact. */
  function HighQuotient(q: (u32, u32), open: bool): (u32, bool) {
    if q.1 != 0 then (Inc32(q.0), true) else (q.0, open)
  }

  function Between(lo: (u32, bool), hi: (u32, bool)): Interval {
    Interval(lo.0, hi.0, lo.1, hi.1, false, false)
  }

  function DivOf(a: Interval, b: Interval): Interval {
    Between(LowQuotient(Div32(a.min, b.max), a.openmin || b.openmax),
            if b.min > 0 then HighQuotient(Div32(a.max, b.min), a.openmax || b.openmin) else (UINT_MAX, false))
  }

  function MulDivKOf(a: Interval, b: Interval, k: u32): Interval {
    Between(LowQuotient(MulDiv32(a.min, b.min, k), a.openmin || b.openmin),
            HighQuotient(MulDiv32(a.max, b.max, k), a.openmax || b.openmax))
  }

  function MulKDivOf(a: Interval, k: u32, b: Interval): Interval {
    Between(LowQuotient(MulDiv32(a.min, k, b.max), a.openmin || b.openmax),
            if b.min > 0 then HighQuotient(MulDiv32(a.max, k, b.min), a.openmax || b.openmin) else (UINT_MAX, false))
  }

  ghost function Frac(n: nat, d: nat): real requires d > 0 { n as real / d as real }

  lemma CancelFactor(x: real, y: real, d: real)
    requires 0.0 < d
    ensures x * d <= y * d <==> x <= y
    ensures x * d == y * d <==> x == y
  {
    assert (y - x) * d == y * d - x * d;
    if x < y { assert (y - x) * d > 0.0; }
    if y < x { assert (y - x) * d < 0.0; }
  }

  lemma FracParts(n: nat, d: nat)
    requires d > 0
    ensures Frac(n, d).Floor == n / d
    ensures IsInteger(Frac(n, d)) <==> n % d == 0
  {
    var t, q, r := Frac(n, d), n / d, n % d;
    assert t * d as real == n as real;
    assert n == q * d + r;
    assert (q as real) * (d as real) <= n as real < (q as real + 1.0) * (d as real);
    CancelFactor(q as real, t, d as real);
    CancelFactor(q as real + 1.0, t, d as real);
    assert t.Floor == q;
    if t == q as real { assert (q * d) as real == n as real; }
  }

  /** A lower end up to saturation: outward while it is below UINT_MAX. */
  ghost predicate LowEnd(lo: real, attained: bool, e: (int, bool)) {
    if lo.Floor < UINT_MAX then OutwardLow(lo, attained, e.0, e.1) else e.0 == UINT_MAX
  }

  ghost predicate HighEnd(hi: real, attained: bool, e: (int, bool)) {
    if hi.Floor < UINT_MAX then OutwardHigh(hi, attained, e.0, e.1) else e.0 == UINT_MAX
  }

  /** The 32-bit quotients are the outward-rounded exact fractions. */
  lemma QuotientEnds(n: nat, d: u32, open: bool)
    requires d > 0
    ensures LowEnd(Frac(n, d), !open, LowQuotient(Div64(n, d), open))
    ensures HighEnd(Frac(n, d), !open, HighQuotient(Div64(n, d), open))
  {
    FracParts(n, d);
  }

  lemma MulGrows(q: int, b: int)
    requires b >= 2
    ensures q >= 0 ==> 2 * q <= q * b
    ensures q < 0 ==> q * b < 0
  {
    assert q * b == 2 * q + q * (b - 2);
    if q >= 0 { assert q * (b - 2) >= 0; } else { assert q * (b - 2) <= 0; }
  }

  /** Only UINT_MAX / 1 reaches UINT_MAX, so a 32-bit division is the saturating one. */
  lemma Div32Saturates(a: u32, b: u32)
    ensures Div32(a, b) == Div64(a, b)
  {
    if b > 1 {
      var q, r := a / b, a % b;
      assert a == q * b + r;
      MulGrows(q, b);
    }
  }

  lemma TimesGrows(a: nat, b: nat, c: nat)
    requires b <= c
    ensures Times(a, b) <= Times(a, c)
  {
    assert a * (c - b) >= 0;
  }

  /** A quotient tells which products reach the dividend. */
  lemma QuotientTells(n: nat, a: nat)
    requires 0 < a
    ensures Times(a, n / a) <= n < Times(a, n / a + 1)
  {
    assert n == a * (n / a) + n % a;
  }

  lemma Mul32IsSaturatedProduct(a: u32, b: u32)
    ensures Mul32(a, b) == Saturated(Times(a, b))
  {
    hide Times;
    if a > 0 {
      var q := UINT_MAX / a;
      QuotientTells(UINT_MAX, a);
      if q < b { TimesGrows(a, q + 1, b); } else { TimesGrows(a, b, q); }
    } else {
      NothingTimes(b);
    }
  }

  lemma NothingTimes(b: nat)
    ensures Times(0, b) == 0
  {
  }

  /** Larger numerator, smaller denominator: larger fraction; strictly if either step is strict. */
  lemma FractionReaches(n: real, nAtt: bool, N: real, d: real, dAtt: bool, D: real)
    requires 0.0 <= n && Reaches(n, nAtt, N) && 0.0 < N
    requires 0.0 < D && (if dAtt then D <= d else D < d)
    ensures Reaches(n / d, nAtt && dAtt, N / D)
  {
    assert n * D <= n * d;
    assert n * D <= N * D;
    assert N * D <= N * d;
    var z, lo := N / D, n / d;
    assert z * D == N && lo * d == n;
    assert n * D <= N * d && ((nAtt && dAtt) || n * D < N * d);
    assert lo * d * D <= z * D * d;
    assert (z - lo) * (d * D) >= 0.0 && ((nAtt && dAtt) || (z - lo) * (d * D) > 0.0);
    assert d * D > 0.0;
  }

  lemma ProductReaches(p: real, pAtt: bool, x: real, q: real, qAtt: bool, y: real)
    requires 0.0 <= p && 0.0 <= q && 0.0 < x && 0.0 < y
    requires Reaches(p, pAtt, x) && Reaches(q, qAtt, y)
    ensures Reaches(p * q, pAtt && qAtt, x * y)
  {
    assert x * y - p * q == (x - p) * y + p * (y - q);
    assert x * y - p * q == (y - q) * x + q * (x - p);
    assert (x - p) * y >= 0.0 && p * (y - q) >= 0.0 && (y - q) * x >= 0.0 && q * (x - p) >= 0.0;
    if !pAtt { assert (x - p) * y > 0.0; }
    if !qAtt { assert (y - q) * x > 0.0; }
  }

  lemma LowProduct(p: nat, pAtt: bool, x: real, q: nat, qAtt: bool, y: real)
    requires 0.0 < x && 0.0 < y && Reaches(p as real, pAtt, x) && Reaches(q as real, qAtt, y)
    ensures 0.0 < x * y && Reaches(Times(p, q) as real, pAtt && qAtt, x * y)
  {
    ProductReaches(p as real, pAtt, x, q as real, qAtt, y);
  }

  lemma HighProduct(p: nat, pAtt: bool, x: real, q: nat, qAtt: bool, y: real)
    requires 0.0 < x && 0.0 < y && Reaches(x, pAtt, p as real) && Reaches(y, qAtt, q as real)
    ensures Reaches(x * y, pAtt && qAtt, Times(p, q) as real)
  {
    ProductReaches(x, pAtt, p as real, y, qAtt, q as real);
  }

  lemma IntegerProduct(x: real, y: real)
    requires IsInteger(x) && IsInteger(y)
    ensures IsInteger(x * y)
  {
    assert x * y == (x.Floor * y.Floor) as real;
  }

  /** Ends that are outward of the exact end fractions hold every value below UINT_MAX. */
  lemma EndsContain(lo: real, loAtt: bool, hi: real, hiAtt: bool, c: Interval, z: real)
    requires LowEnd(lo, loAtt, (c.min, c.openmin)) && Reaches(lo, loAtt, z)
    requires HighEnd(hi, hiAtt, (c.max, c.openmax)) && Reaches(z, hiAtt, hi)
    requires z < UINT_MAX as real && !c.empty && (c.integer ==> IsInteger(z))
    ensures Contains(c, z)
  {
  }

  lemma LowOnly(lo: real, loAtt: bool, c: Interval, z: real)
    requires LowEnd(lo, loAtt, (c.min, c.openmin)) && Reaches(lo, loAtt, z)
    requires z < UINT_MAX as real && !c.empty && !c.integer && c.max == UINT_MAX && !c.openmax
    ensures Contains(c, z)
  {
  }

  /** Every product of positive members is in the product interval. */
  lemma MulSound(a: Interval, b: Interval, x: real, y: real)
    requires Contains(a, x) && Contains(b, y) && 0.0 < x && 0.0 < y
    requires x * y < UINT_MAX as real
    ensures Contains(MulOf(a, b), x * y)
  {
    MulEndsExact(a, b);
    LowProduct(a.min, !a.openmin, x, b.min, !b.openmin, y);
    HighProduct(a.max, !a.openmax, x, b.max, !b.openmax, y);
    if a.integer && b.integer { IntegerProduct(x, y); }
    EndsContain(Times(a.min, b.min) as real, !a.openmin && !b.openmin,
                Times(a.max, b.max) as real, !a.openmax && !b.openmax, MulOf(a, b), x * y);
  }

  /** Each end of a product is the outward-rounded (here exact) product of the ends. */
  lemma MulEndsExact(a: Interval, b: Interval)
    ensures var c := MulOf(a, b);
            && LowEnd(Times(a.min, b.min) as real, !a.openmin && !b.openmin, (c.min, c.openmin))
            && HighEnd(Times(a.max, b.max) as real, !a.openmax && !b.openmax, (c.max, c.openmax))
  {
    Mul32IsSaturatedProduct(a.min, b.min);
    Mul32IsSaturatedProduct(a.max, b.max);
  }

  lemma DivEndsExact(a: Interval, b: Interval)
    requires b.max > 0
    ensures var c := DivOf(a, b);
            && LowEnd(Frac(a.min, b.max), !a.openmin && !b.openmax, (c.min, c.openmin))
            && (b.min > 0 ==> HighEnd(Frac(a.max, b.min), !a.openmax && !b.openmin, (c.max, c.openmax)))
  {
    Div32Saturates(a.min, b.max);
    QuotientEnds(a.min, b.max, a.openmin || b.openmax);
    if b.min > 0 {
      Div32Saturates(a.max, b.min);
      QuotientEnds(a.max, b.min, a.openmax || b.openmin);
    }
  }

  /** A numerator between its ends, over a positive member of b, lies between the quotient ends. */
  lemma RatioSound(c: Interval, n: nat, nAtt: bool, m: nat, mAtt: bool, N: real, b: Interval, y: real)
    requires 0.0 < N && Reaches(n as real, nAtt, N) && Reaches(N, mAtt, m as real)
    requires Contains(b, y) && 0.0 < y && N / y < UINT_MAX as real
    requires !c.empty && !c.integer
    requires LowEnd(Frac(n, b.max), nAtt && !b.openmax, (c.min, c.openmin))
    requires if b.min > 0 then HighEnd(Frac(m, b.min), mAtt && !b.openmin, (c.max, c.openmax))
             else c.max == UINT_MAX && !c.openmax
    ensures Contains(c, N / y)
  {
    FractionReaches(n as real, nAtt, N, b.max as real, !b.openmax, y);
    if b.min > 0 {
      FractionReaches(N, mAtt, m as real, y, !b.openmin, b.min as real);
      EndsContain(Frac(n, b.max), nAtt && !b.openmax, Frac(m, b.min), mAtt && !b.openmin, c, N / y);
    } else {
      LowOnly(Frac(n, b.max), nAtt && !b.openmax, c, N / y);
    }
  }

  /** Every quotient of positive members is in the quotient interval. */
  lemma DivSound(a: Interval, b: Interval, x: real, y: real)
    requires Contains(a, x) && Contains(b, y) && 0.0 < x && 0.0 < y
    requires x / y < UINT_MAX as real
    ensures Contains(DivOf(a, b), x / y)
  {
    DivEndsExact(a, b);
    RatioSound(DivOf(a, b), a.min, !a.openmin, a.max, !a.openmax, x, b, y);
  }

  lemma MulDivKEndsExact(a: Interval, b: Interval, k: u32)
    requires k > 0
    ensures var c := MulDivKOf(a, b, k);
            && LowEnd(Frac(Times(a.min, b.min), k), !a.openmin && !b.openmin, (c.min, c.openmin))
            && HighEnd(Frac(Times(a.max, b.max), k), !a.openmax && !b.openmax, (c.max, c.openmax))
  {
    QuotientEnds(Times(a.min, b.min), k, a.openmin || b.openmin);
    QuotientEnds(Times(a.max, b.max), k, a.openmax || b.openmax);
  }

  /** Every a*b/k of positive members is in the computed interval. */
  lemma MulDivKSound(a: Interval, b: Interval, k: u32, x: real, y: real)
    requires k > 0
    requires Contains(a, x) && Contains(b, y) && 0.0 < x && 0.0 < y
    requires x * y / k as real < UINT_MAX as real
    ensures Contains(MulDivKOf(a, b, k), x * y / k as real)
  {
    var kr := k as real;
    MulDivKEndsExact(a, b, k);
    LowProduct(a.min, !a.openmin, x, b.min, !b.openmin, y);
    HighProduct(a.max, !a.openmax, x, b.max, !b.openmax, y);
    FractionReaches(Times(a.min, b.min) as real, !a.openmin && !b.openmin, x * y, kr, true, kr);
    FractionReaches(x * y, !a.openmax && !b.openmax, Times(a.max, b.max) as real, kr, true, kr);
    EndsContain(Frac(Times(a.min, b.min), k), !a.openmin && !b.openmin,
                Frac(Times(a.max, b.max), k), !a.openmax && !b.openmax, MulDivKOf(a, b, k), x * y / kr);
  }

  lemma MulKDivEndsExact(a: Interval, k: u32, b: Interval)
    requires b.max > 0
    ensures var c := MulKDivOf(a, k, b);
            && LowEnd(Frac(Times(a.min, k), b.max), !a.openmin && !b.openmax, (c.min, c.openmin))
            && (b.min > 0 ==> HighEnd(Frac(Times(a.max, k), b.min), !a.openmax && !b.openmin, (c.max, c.openmax)))
  {
    QuotientEnds(Times(a.min, k), b.max, a.openmin || b.openmax);
    if b.min > 0 { QuotientEnds(Times(a.max, k), b.min, a.openmax || b.openmin); }
  }

  lemma ScaledRatio(a: Interval, k: u32, b: Interval, N: real, y: real)
    requires 0.0 < N && Reaches(Times(a.min, k) as real, !a.openmin, N)
        && Reaches(N, !a.openmax, Times(a.max, k) as real)
    requires Contains(b, y) && 0.0 < y && N / y < UINT_MAX as real
    ensures Contains(MulKDivOf(a, k, b), N / y)
  {
    MulKDivEndsExact(a, k, b);
    RatioSound(MulKDivOf(a, k, b), Times(a.min, k), !a.openmin, Times(a.max, k), !a.openmax, N, b, y);
  }

  /** Every a*k/b of positive members is in the computed interval; N is the scaled dividend. */
  lemma MulKDivSound(a: Interval, k: u32, b: Interval, x: real, y: real, N: real)
    requires k > 0 && N == x * (k as real)
    requires Contains(a, x) && Contains(b, y) && 0.0 < x && 0.0 < y
    requires N / y < UINT_MAX as real
    ensures Contains(MulKDivOf(a, k, b), N / y)
  {
    hide Times, MulKDivOf;
    LowProduct(a.min, !a.openmin, x, k, true, k as real);
    HighProduct(a.max, !a.openmax, x, k, true, k as real);
    ScaledRatio(a, k, b, N, y);
  }

  /** Positive members are needed: 1 * 0 = 0 falls out when the other lower end is open. */
  lemma MulNeedsPositive()
    ensures var a, b := Interval(0, 2, true, false, false, false), Interval(0, 2, false, false, false, false);
            Contains(a, 1.0) && Contains(b, 0.0) && !Contains(MulOf(a, b), 1.0 * 0.0)
  {
  }

  // ---------------------------------------------------------------- lists and ranges

  function Pow2(k: nat): nat { if k == 0 then 1 else 2 * Pow2(k - 1) }

  lemma Pow2Positive(k: nat)
    ensures Pow2(k) > 0
  {
  }

  /** A zero mask selects every entry, any other mask the entries of its one bits. */
  predicate Selected(mask: u32, k: nat) {
    mask == 0 || (Pow2Positive(k); (mask / Pow2(k)) % 2 == 1)
  }

  /** Whether an integer value passes the interval test. */
  predicate Passes(i: Interval, x: u32) {
    !(i.min > x || (i.min == x && i.openmin) || i.max < x || (i.max == x && i.openmax))
  }

  predicate ListHit(i: Interval, list: seq<u32>, mask: u32, k: int) {
    0 <= k < |list| && Selected(mask, k) && Passes(i, list[k])
  }

  /** Stretches a span over one list value. */
  function Stretch(span: (u32, u32), x: u32): (u32, u32) {
    (if x < span.0 then x else span.0, if x > span.1 then x else span.1)
  }

  /** The span of the hits among the first n list values; (UINT_MAX, 0) while there is none. */
  function ListSpan(i: Interval, list: seq<u32>, mask: u32, n: nat): (u32, u32)
    requires n <= |list|
  {
    if n == 0 then (UINT_MAX, 0)
    else
      var span := ListSpan(i, list, mask, n - 1);
      if ListHit(i, list, mask, n - 1) then Stretch(span, list[n - 1]) else span
  }

  function SpanInterval(span: (u32, u32)): Interval { Interval(span.0, span.1, false, false, false, false) }

  /** New interval value and return code of a refinement by a list. */
  function ListRefined(i: Interval, list: seq<u32>, mask: u32): (Interval, int) {
    if |list| == 0 then (i.(empty := true), -EINVAL)
    else Refined(i, SpanInterval(ListSpan(i, list, mask, |list|)))
  }

  lemma {:induction false} ListSpanIsTight(i: Interval, list: seq<u32>, mask: u32, n: nat)
    requires n <= |list|
    ensures var span := ListSpan(i, list, mask, n);
            && (forall k | 0 <= k < n && ListHit(i, list, mask, k) :: span.0 <= list[k] <= span.1)
            && ((forall k | 0 <= k < n :: !ListHit(i, list, mask, k)) ==> span == (UINT_MAX, 0))
            && ((exists k | 0 <= k < n :: ListHit(i, list, mask, k)) ==>
                  && (exists k | 0 <= k < n :: ListHit(i, list, mask, k) && list[k] == span.0)
                  && (exists k | 0 <= k < n :: ListHit(i, list, mask, k) && list[k] == span.1))
  {
    if n > 0 {
      ListSpanIsTight(i, list, mask, n - 1);
      if ListHit(i, list, mask, n - 1) && forall k | 0 <= k < n - 1 :: !ListHit(i, list, mask, k) {
        assert ListSpan(i, list, mask, n) == (list[n - 1], list[n - 1]);
      }
    }
  }

  /** A list refinement keeps exactly the least and greatest selected values inside, or fails. */
  lemma ListTightest(i: Interval, list: seq<u32>, mask: u32)
    requires !i.empty && Steppable(i)
    ensures var c := ListRefined(i, list, mask);
            && (c.1 == -EINVAL <==> forall k :: !ListHit(i, list, mask, k))
            && (c.1 == -EINVAL ==> c.0.empty)
            && (c.1 != -EINVAL ==>
                  && !c.0.empty && !c.0.openmin && !c.0.openmax
                  && c.0.integer == (i.integer || c.0.min == c.0.max)
                  && (exists k :: ListHit(i, list, mask, k) && list[k] == c.0.min)
                  && (exists k :: ListHit(i, list, mask, k) && list[k] == c.0.max)
                  && (forall k | ListHit(i, list, mask, k) :: c.0.min <= list[k] <= c.0.max))
  {
    ListSpanIsTight(i, list, mask, |list|);
    var span := ListSpan(i, list, mask, |list|);
    if exists k :: ListHit(i, list, mask, k) {
      SpanIsResult(i, span.0, span.1);
    } else if |list| > 0 {
      InvertedRefuses(i, SpanInterval(span));
    }
  }

  datatype Cut = Miss | Hit(c: Interval)

  /** What a range leaves inside i, if anything. */
  function CutOf(i: Interval, range: Interval): Cut {
    var (c, err) := Refined(range, i);
    if err < 0 then Miss else Hit(c)
  }

  /** The cut of every range, those that are not selected counting as misses. */
  function Cuts(i: Interval, ranges: seq<Interval>, mask: u32): (cuts: seq<Cut>)
    ensures |cuts| == |ranges|
    ensures forall k | 0 <= k < |ranges| :: cuts[k] == if Selected(mask, k) then CutOf(i, ranges[k]) else Miss
  {
    seq(|ranges|, k requires 0 <= k < |ranges| => if Selected(mask, k) then CutOf(i, ranges[k]) else Miss)
  }

  /** u is the hull of the hits among the cuts; an end is open iff every hit attaining it is. */
  ghost predicate Hull(cuts: seq<Cut>, u: Interval) {
    && (forall k | 0 <= k < |cuts| && cuts[k].Hit? ::
          && u.min <= cuts[k].c.min && (cuts[k].c.min == u.min && !cuts[k].c.openmin ==> !u.openmin)
          && cuts[k].c.max <= u.max && (cuts[k].c.max == u.max && !cuts[k].c.openmax ==> !u.openmax))
    && (exists k | 0 <= k < |cuts| ::
          cuts[k].Hit? && cuts[k].c.min == u.min && cuts[k].c.openmin == u.openmin)
    && (exists k | 0 <= k < |cuts| ::
          cuts[k].Hit? && cuts[k].c.max == u.max && cuts[k].c.openmax == u.openmax)
  }

  ghost predicate AllMiss(cuts: seq<Cut>) { forall k | 0 <= k < |cuts| :: cuts[k].Miss? }

  ghost predicate Inverted(u: Interval) {
    u.min == UINT_MAX && u.max == 0 && !u.openmin && !u.openmax
  }

  /** Cutting an inverted interval leaves nothing. */
  lemma InvertedRefuses(i: Interval, u: Interval)
    requires Steppable(i) && Inverted(u)
    ensures Refined(i, u).1 == -EINVAL && Refined(i, u).0.empty
  {
  }

  /** Bounds found inside i are what i is cut down to. */
  lemma SpanIsResult(i: Interval, lo: u32, hi: u32)
    requires !i.empty && Passes(i, lo) && Passes(i, hi) && lo <= hi
    ensures var c := Refined(i, Interval(lo, hi, false, false, false, false));
            c.1 >= 0 && c.0 == Interval(lo, hi, false, false, i.integer || lo == hi, false)
  {
  }

  /** A cut range stays inside i, and in i's normal form. */
  ghost predicate CutFits(i: Interval, c: Interval) {
    && i.min <= c.min && c.max <= i.max && !CheckEmpty(c) && !c.empty
    && (i.integer ==> !c.openmin && !c.openmax)
    && (c.min == i.min && i.openmin ==> c.openmin && !i.integer)
    && (c.max == i.max && i.openmax ==> c.openmax && !i.integer)
  }

  lemma CutInside(i: Interval, range: Interval)
    requires Steppable(i) && (range.empty || Steppable(range)) && CutOf(i, range).Hit?
    ensures CutFits(i, CutOf(i, range).c)
  {
  }

  /** Ends taken from cuts that fit i are what i is cut down to. */
  lemma EndsAreResult(i: Interval, u: Interval, a: Interval, b: Interval)
    requires !i.empty && CutFits(i, a) && CutFits(i, b) && !u.integer
    requires a.min == u.min && a.openmin == u.openmin && b.max == u.max && b.openmax == u.openmax
    requires u.min <= b.min && a.max <= u.max && (u.openmin && b.min == u.min ==> b.openmin)
        && (u.openmax && a.max == u.max ==> a.openmax)
    ensures Refined(i, u) == (u.(integer := i.integer || (u.min == u.max && !u.openmin && !u.openmax), empty := false),
                              if MeetChanges(i, u) then 1 else 0)
  {
  }

  /** Each end moves out to c's, or opens up to it where the two ends meet. */
  function Widened(u: Interval, c: Interval): Interval {
    u.(min := if c.min < u.min then c.min else u.min,
       openmin := if c.min < u.min then c.openmin else u.openmin && (c.min == u.min ==> c.openmin),
       max := if c.max > u.max then c.max else u.max,
       openmax := if c.max > u.max then c.openmax else u.openmax && (c.max == u.max ==> c.openmax))
  }

  /** The union of the hits; inverted while there is none. */
  function UnionOf(cuts: seq<Cut>): Interval {
    if |cuts| == 0 then SpanInterval((UINT_MAX, 0))
    else
      var last, u := cuts[|cuts| - 1], UnionOf(cuts[..|cuts| - 1]);
      if last.Hit? then Widened(u, last.c) else u
  }

  /** New interval value and return code of a refinement by ranges. */
  function RangesRefined(i: Interval, ranges: seq<Interval>, mask: u32): (Interval, int) {
    if |ranges| == 0 then (i.(empty := true), -EINVAL)
    else Refined(i, UnionOf(Cuts(i, ranges, mask)))
  }

  lemma FirstHull(cuts: seq<Cut>, c: Interval)
    requires AllMiss(cuts) && !CheckEmpty(c)
    ensures Hull(cuts + [Hit(c)], Widened(SpanInterval((UINT_MAX, 0)), c))
  {
    assert (cuts + [Hit(c)])[|cuts|] == Hit(c);
  }

  /** Widening a hull by one more cut range. */
  lemma NextHull(cuts: seq<Cut>, u: Interval, c: Interval)
    requires Hull(cuts, u)
    ensures Hull(cuts + [Hit(c)], Widened(u, c))
  {
    var more := cuts + [Hit(c)];
    assert more[|cuts|] == Hit(c);
    var j :| 0 <= j < |cuts| && cuts[j].Hit? && cuts[j].c.min == u.min && cuts[j].c.openmin == u.openmin;
    var k :| 0 <= k < |cuts| && cuts[k].Hit? && cuts[k].c.max == u.max && cuts[k].c.openmax == u.openmax;
    assert more[j] == cuts[j] && more[k] == cuts[k];
  }

  lemma {:induction false} UnionIsHull(cuts: seq<Cut>)
    requires forall k | 0 <= k < |cuts| && cuts[k].Hit? :: !CheckEmpty(cuts[k].c)
    ensures !UnionOf(cuts).integer
    ensures if AllMiss(cuts) then UnionOf(cuts) == SpanInterval((UINT_MAX, 0)) else Hull(cuts, UnionOf(cuts))
  {
    if |cuts| > 0 {
      var init, last := cuts[..|cuts| - 1], cuts[|cuts| - 1];
      UnionIsHull(init);
      assert cuts == init + [last];
      if last.Hit? {
        if AllMiss(init) { FirstHull(init, last.c); } else { NextHull(init, UnionOf(init), last.c); }
      } else if !AllMiss(init) {
        SameHull(init, UnionOf(init));
      }
    }
  }

  lemma SameHull(cuts: seq<Cut>, u: Interval)
    requires Hull(cuts, u)
    ensures Hull(cuts + [Miss], u)
  {
    var more := cuts + [Miss];
    var j :| 0 <= j < |cuts| && cuts[j].Hit? && cuts[j].c.min == u.min && cuts[j].c.openmin == u.openmin;
    var k :| 0 <= k < |cuts| && cuts[k].Hit? && cuts[k].c.max == u.max && cuts[k].c.openmax == u.openmax;
    assert more[j] == cuts[j] && more[k] == cuts[k];
  }

  /** A range refinement yields the hull of the selected ranges cut by the interval, or fails. */
  lemma RangesHull(i: Interval, ranges: seq<Interval>, mask: u32)
    requires !i.empty && Steppable(i)
    requires forall k | 0 <= k < |ranges| :: ranges[k].empty || Steppable(ranges[k])
    ensures var cuts, (c, err) := Cuts(i, ranges, mask), RangesRefined(i, ranges, mask);
            && (err == -EINVAL <==> AllMiss(cuts))
            && (err == -EINVAL ==> c.empty)
            && (err != -EINVAL ==>
                  && !c.empty && Hull(cuts, c)
                  && c.integer == (i.integer || (c.min == c.max && !c.openmin && !c.openmax)))
  {
    var cuts := Cuts(i, ranges, mask);
    var u := UnionOf(cuts);
    forall k | 0 <= k < |cuts| && cuts[k].Hit? ensures CutFits(i, cuts[k].c) { CutInside(i, ranges[k]); }
    UnionIsHull(cuts);
    if AllMiss(cuts) {
      InvertedRefuses(i, u);
    } else {
      var j :| 0 <= j < |cuts| && cuts[j].Hit? && cuts[j].c.min == u.min && cuts[j].c.openmin == u.openmin;
      var k :| 0 <= k < |cuts| && cuts[k].Hit? && cuts[k].c.max == u.max && cuts[k].c.openmax == u.openmax;
      EndsAreResult(i, u, cuts[j].c, cuts[k].c);
    }
  }

  /** The interval structure the constraint rules refine in place. */
  class SndInterval {
    var min: u32
    var max: u32
    var openmin: bool
    var openmax: bool
    var integer: bool
    var empty: bool

    constructor Copy(v: Interval)
      ensures Val() == v
    {
      min, max, openmin, openmax, integer, empty := v.min, v.max, v.openmin, v.openmax, v.integer, v.empty;
    }

    function Val(): Interval
      reads this
    {
      Interval(min, max, openmin, openmax, integer, empty)
    }

    /** First part of Refine: the lower end. */
    method TightenLow(v: SndInterval) returns (changed: bool)
      requires v != this
      modifies this`min, this`openmin
      ensures (min, openmin) == TighterLow(old(Val()), v.Val())
      ensures changed <==> (min, openmin) != old((min, openmin))
    {
      changed := false;
      if min < v.min {
        min, openmin, changed := v.min, v.openmin, true;
      } else if min == v.min && !openmin && v.openmin {
        openmin, changed := true, true;
      }
    }

    /** Second part of Refine: the upper end. */
    method TightenHigh(v: SndInterval) returns (changed: bool)
      requires v != this
      modifies this`max, this`openmax
      ensures (max, openmax) == TighterHigh(old(Val()), v.Val())
      ensures changed <==> (max, openmax) != old((max, openmax))
    {
      changed := false;
      if max > v.max {
        max, openmax, changed := v.max, v.openmax, true;
      } else if max == v.max && !openmax && v.openmax {
        openmax, changed := true, true;
      }
    }

    /** Last part of Refine: normal form. */
    method Close()
      modifies this`min, this`max, this`openmin, this`openmax, this`integer
      ensures Val() == ClosedForm(old(Val()))
    {
      if integer {
        if openmin { min, openmin := Inc32(min), false; }
        if openmax { max, openmax := Dec32(max), false; }
      } else if !openmin && !openmax && min == max {
        integer := true;
      }
    }

    method Refine(v: SndInterval) returns (r: int)
      requires v != this
      modifies this
      ensures (Val(), r) == Refined(old(Val()), v.Val())
    {
      if empty { return -EINVAL; }
      var low := TightenLow(v);
      var high := TightenHigh(v);
      var changed := low || high;
      if !integer && v.integer {
        integer, changed := true, true;
      }
      Close();
      if CheckEmpty(Val()) {
        empty := true;
        return -EINVAL;
      }
      return if changed then 1 else 0;
    }

    method Mul(a: SndInterval, b: SndInterval)
      requires a != this && b != this
      modifies this
      ensures if a.empty || b.empty then empty else Val() == MulOf(a.Val(), b.Val())
    {
      if a.empty || b.empty { empty := true; return; }
      empty := false;
      min, openmin := Mul32(a.min, b.min), a.openmin || b.openmin;
      max, openmax := Mul32(a.max, b.max), a.openmax || b.openmax;
      integer := a.integer && b.integer;
    }

    method Div(a: SndInterval, b: SndInterval)
      requires a != this && b != this
      modifies this
      ensures if a.empty || b.empty then empty else Val() == DivOf(a.Val(), b.Val())
    {
      if a.empty || b.empty { empty := true; return; }
      empty := false;
      var q := Div32(a.min, b.max);
      min, openmin := q.0, q.1 != 0 || a.openmin || b.openmax;
      if b.min > 0 {
        q := Div32(a.max, b.min);
        max := q.0;
        if q.1 != 0 {
          max, openmax := Inc32(max), true;
        } else {
          openmax := a.openmax || b.openmin;
        }
      } else {
        max, openmax := UINT_MAX, false;
      }
      integer := false;
    }

    method MulDivK(a: SndInterval, b: SndInterval, k: u32)
      requires a != this && b != this
      modifies this
      ensures if a.empty || b.empty then empty else Val() == MulDivKOf(a.Val(), b.Val(), k)
    {
      if a.empty || b.empty { empty := true; return; }
      empty := false;
      var q := MulDiv32(a.min, b.min, k);
      min, openmin := q.0, q.1 != 0 || a.openmin || b.openmin;
      q := MulDiv32(a.max, b.max, k);
      max := q.0;
      if q.1 != 0 {
        max, openmax := Inc32(max), true;
      } else {
        openmax := a.openmax || b.openmax;
      }
      integer := false;
    }

    method MulKDiv(a: SndInterval, k: u32, b: SndInterval)
      requires a != this && b != this
      modifies this
      ensures if a.empty || b.empty then empty else Val() == MulKDivOf(a.Val(), k, b.Val())
    {
      if a.empty || b.empty { empty := true; return; }
      empty := false;
      var q := MulDiv32(a.min, k, b.max);
      min, openmin := q.0, q.1 != 0 || a.openmin || b.openmax;
      if b.min > 0 {
        q := MulDiv32(a.max, k, b.min);
        max := q.0;
        if q.1 != 0 {
          max, openmax := Inc32(max), true;
        } else {
          openmax := a.openmax || b.openmin;
        }
      } else {
        max, openmax := UINT_MAX, false;
      }
      integer := false;
    }

    /** Cuts the interval down to the least and greatest selected list values inside it. */
    method List(list: seq<u32>, mask: u32) returns (r: int)
      requires mask != 0 ==> |list| <= 32
      modifies this
      ensures (Val(), r) == ListRefined(old(Val()), list, mask)
    {
      if |list| == 0 {
        empty := true;
        return -EINVAL;
      }
      ghost var i := Val();
      var listRange := new SndInterval.Copy(SpanInterval((UINT_MAX, 0)));
      for k := 0 to |list|
        invariant Val() == i
        invariant listRange.Val() == SpanInterval(ListSpan(i, list, mask, k))
      {
        if !Selected(mask, k) { continue; }
        if !Passes(Val(), list[k]) { continue; }
        listRange.min := if list[k] < listRange.min then list[k] else listRange.min;
        listRange.max := if list[k] > listRange.max then list[k] else listRange.max;
      }
      r := Refine(listRange);
    }

    /** The loop body of Ranges: stretches the union over one more range. */
    method Widen(range: SndInterval)
      requires range != this
      modifies this`min, this`max, this`openmin, this`openmax
      ensures Val() == Widened(old(Val()), range.Val())
    {
      if range.min < min {
        min, openmin := range.min, true;
      }
      if range.min == min && !range.openmin { openmin := false; }
      if range.max > max {
        max, openmax := range.max, true;
      }
      if range.max == max && !range.openmax { openmax := false; }
    }

    /** Cuts the interval down to the hull of the selected ranges inside it. */
    method Ranges(ranges: seq<Interval>, mask: u32) returns (r: int)
      requires mask != 0 ==> |ranges| <= 32
      modifies this
      ensures (Val(), r) == RangesRefined(old(Val()), ranges, mask)
    {
      if |ranges| == 0 {
        empty := true;
        return -EINVAL;
      }
      ghost var i := Val();
      ghost var cuts := Cuts(i, ranges, mask);
      var rangeUnion := new SndInterval.Copy(SpanInterval((UINT_MAX, 0)));
      for k := 0 to |ranges|
        invariant Val() == i
        invariant rangeUnion.Val() == UnionOf(cuts[..k])
      {
        assert cuts[..k + 1][..k] == cuts[..k];
        if !Selected(mask, k) { continue; }
        var range := new SndInterval.Copy(ranges[k]);
        var err := range.Refine(this);
        if err < 0 { continue; }
        if range.empty { continue; }
        rangeUnion.Widen(range);
      }
      assert cuts[..|ranges|] == cuts;
      r := Refine(rangeUnion);
    }
  }
}
