/** Remainders and ring slots: the arithmetic shared by the wrapping rings. */
module RingMath {

  /** n is a whole number of d's. */
  predicate Multiple(n: nat, d: nat)
    requires d > 0
  {
    if n < d then n == 0 else Multiple(n - d, d)
  }

  lemma {:induction false} MultipleIsRemainder(n: nat, d: nat)
    requires d > 0
    ensures Multiple(n, d) <==> n % d == 0
  {
    if n < d {
      EuclidUnique(n, d, 0, n);
    } else {
      MultipleIsRemainder(n - d, d);
      EuclidUnique(n, d, (n - d) / d + 1, (n - d) % d);
    }
  }

  /** Ring slot of an unbounded position. */
  function Slot(n: nat, size: nat): (s: nat)
    requires size > 0
    ensures s < size && s <= n
  {
    if n < size then n else Slot(n - size, size)
  }

  /** Whole turns in an unbounded position: integer division. */
  function Turns(n: nat, size: nat): nat
    requires size > 0
  {
    if n < size then 0 else 1 + Turns(n - size, size)
  }

  lemma {:induction false} TurnsIsQuotient(n: nat, size: nat)
    requires size > 0
    ensures Turns(n, size) == n / size
  {
    if n < size {
      EuclidUnique(n, size, 0, n);
    } else {
      TurnsIsQuotient(n - size, size);
      EuclidUnique(n, size, (n - size) / size + 1, (n - size) % size);
    }
  }

  lemma {:induction false} SlotIsRemainder(n: nat, size: nat)
    requires size > 0
    ensures Slot(n, size) == n % size
  {
    if n < size {
      EuclidUnique(n, size, 0, n);
    } else {
      SlotIsRemainder(n - size, size);
      EuclidUnique(n, size, (n - size) / size + 1, (n - size) % size);
    }
  }

  /** How far slot lies ahead of start, going round. */
  function Gap(start: nat, slot: nat, size: nat): nat
    requires start < size && slot < size
  {
    if slot >= start then slot - start else slot - start + size
  }

  lemma EuclidUnique(x: int, d: int, k: int, r: int)
    requires 0 < d && 0 <= r < d && x == d * k + r
    ensures x % d == r && x / d == k
  {
    var q, m := x / d, x % d;
    assert x == d * q + m;
    assert d * (k - q) == m - r;
    if k - q >= 1 { MulMono(d, 1, k - q); }
    if k - q <= -1 { MulMono(d, k - q, -1); }
  }

  lemma MulMono(d: int, a: int, b: int)
    requires 0 < d && a <= b
    ensures d * a <= d * b
  {
    assert d * (b - a) >= 0;
  }

  /** A multiple drops out of a remainder. */
  lemma ModAdd(w: int, p: int, d: int)
    requires 0 < d && w % d == 0
    ensures (w + p) % d == p % d
  {
    var a, q, r := w / d, p / d, p % d;
    assert w == d * a && p == d * q + r;
    assert w + p == d * (a + q) + r;
    EuclidUnique(w + p, d, a + q, r);
  }

  lemma MultipleSum(v: nat, w: nat, d: nat)
    requires 0 < d && Multiple(v, d) && Multiple(w, d)
    ensures Multiple(v + w, d) && (w <= v ==> Multiple(v - w, d))
  {
    MultipleIsRemainder(v, d);
    MultipleIsRemainder(w, d);
    MultipleIsRemainder(v + w, d);
    ModAdd(v, w, d);
    if w <= v {
      MultipleIsRemainder(v - w, d);
      ModAdd(w, v - w, d);
    }
  }

  lemma MultipleTrans(w: nat, b: nat, d: nat)
    requires 0 < d && 0 < b && Multiple(b, d) && Multiple(w, b)
    ensures Multiple(w, d)
  {
    MultipleIsRemainder(b, d);
    MultipleIsRemainder(w, b);
    MultipleIsRemainder(w, d);
    var k, m := w / b, b / d;
    assert b == d * m;
    assert w == b * k;
    assert w == d * (m * k) by { MulAssoc(d, m, k); }
    EuclidUnique(w, d, m * k, 0);
  }

  lemma MulAssoc(a: int, b: int, c: int)
    ensures (a * b) * c == a * (b * c)
  {
  }

  /** Below two steps there are only two multiples. */
  lemma SmallMultiple(x: nat, b: nat)
    requires 0 < b && Multiple(x, b) && x < 2 * b
    ensures x == 0 || x == b
  {
  }

  /** Two multiples are at least one step apart. */
  lemma MultipleRoom(x: nat, y: nat, d: nat)
    requires 0 < d && Multiple(x, d) && Multiple(y, d) && x < y
    ensures x + d <= y
  {
    MultipleSum(y, x, d);
  }

  /** Within one turn of the ring, the gap between slots is the distance of the positions. */
  lemma {:induction false} SlotGap(p: nat, n: nat, size: nat)
    requires 0 < size && p <= n < p + size
    ensures Gap(Slot(p, size), Slot(n, size), size) == n - p
  {
    if p >= size { SlotGap(p - size, n - size, size); }
  }

  /** The same for a position one turn behind. */
  lemma SlotGapBehind(p: nat, n: nat, size: nat)
    requires 0 < size && n <= p < n + size
    ensures n == p || Gap(Slot(p, size), Slot(n, size), size) == n + size - p
  {
    if n < p { SlotGap(p, n + size, size); }
  }

  /** Inside a turn the slots follow each other. */
  lemma {:induction false} SlotOn(p: nat, n: nat, size: nat)
    requires 0 < size && Slot(p, size) + n < size
    ensures Slot(p + n, size) == Slot(p, size) + n
  {
    if p >= size { SlotOn(p - size, n, size); }
  }

  /** Whole turns do not change the slot. */
  lemma SlotShift(w: nat, n: nat, size: nat)
    requires 0 < size && Multiple(w, size)
    ensures Slot(w + n, size) == Slot(n, size)
  {
    SlotIsRemainder(w + n, size);
    SlotIsRemainder(n, size);
    MultipleIsRemainder(w, size);
    ModAdd(w, n, size);
  }

  /** What is left after whole turns is the slot. */
  lemma SlotOfRest(rest: nat, turns: nat, total: nat, size: nat)
    requires 0 < size && Multiple(turns, size) && rest < size && rest + turns == total
    ensures Slot(total, size) == rest
  {
    SlotShift(turns, rest, size);
  }

  /** Going on to the end of the ring lands on slot 0. */
  lemma {:induction false} RoundTheRing(n: nat, size: nat)
    requires 0 < size
    ensures Slot(n + (size - Slot(n, size)), size) == 0
  {
    if n >= size { RoundTheRing(n - size, size); }
  }
}
