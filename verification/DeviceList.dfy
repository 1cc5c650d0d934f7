/** The devices of a card: their order and the life of each one (linux/sound/core/device.c). */
module DeviceList {
  import opened Errno

  datatype State = BUILD | REGISTERED | DISCONNECTED

  /** A device; serial numbers tell the order of creation, the data pointer is the driver's handle. */
  datatype Device = Device(serial: nat, kind: nat, data: nat, state: State)

  // ---------------------------------------------------------------- what happens to a device

  datatype Op = Created | RegisterFailed | Registered | Disconnected | Freed

  datatype Event = Event(serial: nat, op: Op)

  /** Where a device's life stands; Broken once an event came out of turn. */
  datatype Life = Unborn | Alive(state: State) | Dead | Broken

  function Step(l: Life, op: Op): Life {
    match op
    case Created => if l.Unborn? then Alive(BUILD) else Broken
    case RegisterFailed => if l == Alive(BUILD) then l else Broken
    case Registered => if l == Alive(BUILD) then Alive(REGISTERED) else Broken
    case Disconnected => if l == Alive(REGISTERED) then Alive(DISCONNECTED) else Broken
    case Freed => if l == Alive(BUILD) || l == Alive(DISCONNECTED) then Dead else Broken
  }

  function LifeOf(trace: seq<Event>, s: nat): Life {
    if trace == [] then Unborn
    else
      var e := trace[|trace| - 1];
      var l := LifeOf(trace[..|trace| - 1], s);
      if e.serial == s then Step(l, e.op) else l
  }

  /** How often an event happened to a device. */
  function Count(trace: seq<Event>, s: nat, op: Op): nat {
    if trace == [] then 0
    else Count(trace[..|trace| - 1], s, op) + if trace[|trace| - 1] == Event(s, op) then 1 else 0
  }

  /** In an unbroken life nothing happens twice, and disconnection only to what was registered. */
  lemma {:induction false} LifeCounts(trace: seq<Event>, s: nat)
    requires LifeOf(trace, s) != Broken
    ensures Count(trace, s, Created) == if LifeOf(trace, s).Unborn? then 0 else 1
    ensures Count(trace, s, Disconnected) <= Count(trace, s, Registered) <= 1
    ensures Count(trace, s, Freed) == if LifeOf(trace, s).Dead? then 1 else 0
    ensures LifeOf(trace, s) == Alive(BUILD) || LifeOf(trace, s).Unborn? ==> Count(trace, s, Registered) == 0
    ensures LifeOf(trace, s) == Alive(REGISTERED) ==>
      Count(trace, s, Registered) == 1 && Count(trace, s, Disconnected) == 0
    ensures LifeOf(trace, s) == Alive(DISCONNECTED) || LifeOf(trace, s).Dead? ==>
      Count(trace, s, Disconnected) == Count(trace, s, Registered)
  {
    if trace != [] { LifeCounts(trace[..|trace| - 1], s); }
  }

  /** A life that is broken stays broken. */
  lemma {:induction false} BrokenStays(trace: seq<Event>, s: nat, n: nat)
    requires n <= |trace| && LifeOf(trace[..n], s) == Broken
    ensures LifeOf(trace, s) == Broken
    decreases |trace| - n
  {
    if n == |trace| {
      assert trace[..n] == trace;
    } else {
      assert trace[..n + 1][..n] == trace[..n];
      BrokenStays(trace, s, n + 1);
    }
  }

  /** Nothing happens to a device once it is freed. */
  lemma {:induction false} FreedIsLast(trace: seq<Event>, s: nat, i: nat, j: nat)
    requires i < j < |trace| && trace[i] == Event(s, Freed) && trace[j].serial == s
    ensures LifeOf(trace, s) == Broken
  {
    assert trace[..i + 1][..i] == trace[..i];
    assert !LifeOf(trace[..i + 1], s).Alive? && !LifeOf(trace[..i + 1], s).Unborn?;
    DeadUntil(trace, s, i + 1, j);
    assert trace[..j + 1][..j] == trace[..j];
    BrokenStays(trace, s, j + 1);
  }

  lemma {:induction false} DeadUntil(trace: seq<Event>, s: nat, i: nat, j: nat)
    requires i <= j <= |trace| && (LifeOf(trace[..i], s).Dead? || LifeOf(trace[..i], s).Broken?)
    ensures LifeOf(trace[..j], s).Dead? || LifeOf(trace[..j], s).Broken?
    decreases j - i
  {
    if i < j {
      assert trace[..i + 1][..i] == trace[..i];
      DeadUntil(trace, s, i + 1, j);
    }
  }

  // ---------------------------------------------------------------- the list

  predicate Before(a: Device, b: Device) { a.kind < b.kind || (a.kind == b.kind && a.serial < b.serial) }

  /** Sorted by kind, devices of one kind in order of creation. */
  ghost predicate Ordered(d: seq<Device>) { forall i, j | 0 <= i < j < |d| :: Before(d[i], d[j]) }

  ghost predicate Distinct(d: seq<Device>) {
    forall i, j | 0 <= i < |d| && 0 <= j < |d| && d[i].serial == d[j].serial :: i == j
  }

  ghost predicate Listed(d: seq<Device>, s: nat) { exists i :: 0 <= i < |d| && d[i].serial == s }

  /** Every listed device's life stands at its state; the others are dead, or not created yet. */
  ghost predicate Tracked(d: seq<Device>, next: nat, trace: seq<Event>) {
    && (forall i | 0 <= i < |d| :: d[i].serial < next && LifeOf(trace, d[i].serial) == Alive(d[i].state))
    && (forall s: nat | s < next && !Listed(d, s) :: LifeOf(trace, s).Dead?)
    && (forall s: nat | next <= s :: LifeOf(trace, s).Unborn?)
  }

  ghost predicate Sound(d: seq<Device>, next: nat, trace: seq<Event>) {
    Ordered(d) && Distinct(d) && Tracked(d, next, trace)
  }

  lemma Append(trace: seq<Event>, e: Event, s: nat)
    ensures LifeOf(trace + [e], s) == if e.serial == s then Step(LifeOf(trace, s), e.op) else LifeOf(trace, s)
  {
    assert (trace + [e])[..|trace|] == trace;
  }

  lemma AppendAll(trace: seq<Event>, e: Event)
    ensures forall s: nat ::
              LifeOf(trace + [e], s) == if e.serial == s then Step(LifeOf(trace, s), e.op) else LifeOf(trace, s)
  {
    forall s: nat
      ensures LifeOf(trace + [e], s) == if e.serial == s then Step(LifeOf(trace, s), e.op) else LifeOf(trace, s)
    {
      Append(trace, e, s);
    }
  }

  /** A list with one more device: what is where. */
  lemma InsertedAt(d: seq<Device>, p: nat, x: Device)
    requires p <= |d|
    ensures forall i | 0 <= i < |d| + 1 ::
              (d[..p] + [x] + d[p..])[i] == if i < p then d[i] else if i == p then x else d[i - 1]
    ensures forall s: nat :: Listed(d[..p] + [x] + d[p..], s) <==> Listed(d, s) || s == x.serial
  {
    var d' := d[..p] + [x] + d[p..];
    forall s: nat | Listed(d, s) ensures Listed(d', s) {
      var i :| 0 <= i < |d| && d[i].serial == s;
      assert d'[if i < p then i else i + 1] == d[i];
    }
    assert d'[p] == x;
  }

  lemma NewTracked(d: seq<Device>, next: nat, trace: seq<Event>, p: nat, x: Device)
    requires Tracked(d, next, trace) && p <= |d| && x.serial == next && x.state.BUILD?
    ensures Tracked(d[..p] + [x] + d[p..], next + 1, trace + [Event(next, Created)])
  {
    AppendAll(trace, Event(next, Created));
    InsertedAt(d, p, x);
  }

  lemma NewOrdered(d: seq<Device>, p: nat, x: Device)
    requires Ordered(d) && p <= |d|
    requires forall i | 0 <= i < p :: Before(d[i], x)
    requires forall i | p <= i < |d| :: Before(x, d[i])
    ensures Ordered(d[..p] + [x] + d[p..])
  {
    var d' := d[..p] + [x] + d[p..];
    forall i, j | 0 <= i < j < |d'| ensures Before(d'[i], d'[j]) {
    }
  }

  lemma NewDistinct(d: seq<Device>, p: nat, x: Device)
    requires Distinct(d) && p <= |d| && forall i | 0 <= i < |d| :: d[i].serial != x.serial
    ensures Distinct(d[..p] + [x] + d[p..])
  {
    var d' := d[..p] + [x] + d[p..];
    forall i, j | 0 <= i < |d'| && 0 <= j < |d'| && d'[i].serial == d'[j].serial ensures i == j {
      InsertedAt(d, p, x);
    }
  }

  lemma NewKeeps(d: seq<Device>, next: nat, trace: seq<Event>, p: nat, x: Device)
    requires Sound(d, next, trace) && p <= |d| && x.serial == next && x.state.BUILD?
    requires forall i | 0 <= i < p :: d[i].kind <= x.kind
    requires forall i | p <= i < |d| :: x.kind < d[i].kind
    ensures Sound(d[..p] + [x] + d[p..], next + 1, trace + [Event(next, Created)])
  {
    NewTracked(d, next, trace, p, x);
    NewOrdered(d, p, x);
    NewDistinct(d, p, x);
  }

  /** A device takes the next step of its life in place. */
  lemma StepKeeps(d: seq<Device>, next: nat, trace: seq<Event>, i: nat, op: Op, st: State)
    requires Sound(d, next, trace) && i < |d| && Step(Alive(d[i].state), op) == Alive(st)
    ensures Sound(d[i := d[i].(state := st)], next, trace + [Event(d[i].serial, op)])
  {
    var d' := d[i := d[i].(state := st)];
    AppendAll(trace, Event(d[i].serial, op));
    forall s: nat | s < next && !Listed(d', s) ensures !Listed(d, s) {
      forall j | 0 <= j < |d| ensures d[j].serial != s { assert d'[j].serial == d[j].serial; }
    }
  }

  lemma FreeKeeps(d: seq<Device>, next: nat, trace: seq<Event>, i: nat)
    requires Sound(d, next, trace) && i < |d| && !d[i].state.REGISTERED?
    ensures Sound(d[..i] + d[i + 1..], next, trace + [Event(d[i].serial, Freed)])
  {
    var d' := d[..i] + d[i + 1..];
    AppendAll(trace, Event(d[i].serial, Freed));
    assert forall j | 0 <= j < |d'| :: d'[j] == d[if j < i then j else j + 1];
    forall s: nat | s < next && !Listed(d', s) && s != d[i].serial ensures !Listed(d, s) {
      forall j | 0 <= j < |d| ensures d[j].serial != s {
        if j != i { assert d'[if j < i then j else j - 1] == d[j]; }
      }
    }
  }

  /** The disconnections of the registered devices, last one first. */
  ghost function Disconnections(d: seq<Device>): seq<Event> {
    if d == [] then []
    else Disconnections(d[1..]) + if d[0].state.REGISTERED? then [Event(d[0].serial, Disconnected)] else []
  }

  /** The registrations of the new devices, first one first. */
  ghost function Registrations(d: seq<Device>): seq<Event> {
    if d == [] then []
    else
      var last := d[|d| - 1];
      Registrations(d[..|d| - 1]) + if last.state.BUILD? then [Event(last.serial, Registered)] else []
  }

  lemma NothingYet(d: seq<Device>)
    ensures Registrations(d[..0]) == [] && Disconnections(d[|d|..]) == []
  {
  }

  lemma RegistrationsOn(d: seq<Device>, i: nat)
    requires i < |d|
    ensures Registrations(d[..i + 1])
         == Registrations(d[..i]) + if d[i].state.BUILD? then [Event(d[i].serial, Registered)] else []
  {
    assert d[..i + 1][..i] == d[..i];
  }

  lemma DisconnectionsOn(d: seq<Device>, i: nat)
    requires i < |d|
    ensures Disconnections(d[i..])
         == Disconnections(d[i + 1..]) + if d[i].state.REGISTERED? then [Event(d[i].serial, Disconnected)] else []
  {
    assert d[i..][1..] == d[i + 1..];
  }

  /** Serial numbers of the selected devices, last one first. */
  function Backwards(d: seq<Device>, kinds: set<nat>, selected: bool): seq<nat> {
    if d == [] then []
    else Backwards(d[1..], kinds, selected) + if (d[0].kind in kinds) == selected then [d[0].serial] else []
  }

  function Kept(d: seq<Device>, kinds: set<nat>): seq<Device> {
    if d == [] then [] else (if d[0].kind in kinds then [d[0]] else []) + Kept(d[1..], kinds)
  }

  /** One serial comes before another one. */
  ghost predicate Precedes(s: seq<nat>, a: nat, b: nat) { exists p, q :: 0 <= p < q < |s| && s[p] == a && s[q] == b }

  lemma {:induction false} BackwardsHas(d: seq<Device>, kinds: set<nat>, selected: bool, i: nat) returns (p: nat)
    requires i < |d| && (d[i].kind in kinds) == selected
    ensures p < |Backwards(d, kinds, selected)| && Backwards(d, kinds, selected)[p] == d[i].serial
  {
    if i == 0 { p := |Backwards(d[1..], kinds, selected)|; } else { p := BackwardsHas(d[1..], kinds, selected, i - 1); }
  }

  /** Of two devices of the same group the later one in the list comes first. */
  lemma {:induction false} BackwardsOrder(d: seq<Device>, kinds: set<nat>, selected: bool, i: nat, j: nat)
    requires i < j < |d| && (d[i].kind in kinds) == (d[j].kind in kinds) == selected
    ensures Precedes(Backwards(d, kinds, selected), d[j].serial, d[i].serial)
  {
    var rest, all := Backwards(d[1..], kinds, selected), Backwards(d, kinds, selected);
    if i == 0 {
      var p := BackwardsHas(d[1..], kinds, selected, j - 1);
      assert all[p] == d[j].serial && all[|rest|] == d[0].serial;
    } else {
      BackwardsOrder(d[1..], kinds, selected, i - 1, j - 1);
      var p, q :| 0 <= p < q < |rest| && rest[p] == d[j].serial && rest[q] == d[i].serial;
      assert all[p] == rest[p] && all[q] == rest[q];
    }
  }

  lemma {:induction false} BackwardsCount(d: seq<Device>, kinds: set<nat>)
    ensures |Backwards(d, kinds, false)| + |Backwards(d, kinds, true)| == |d|
  {
    if d != [] { BackwardsCount(d[1..], kinds); }
  }

  lemma PrecedesMore(a: seq<nat>, b: seq<nat>, x: nat, y: nat)
    ensures Precedes(a, x, y) ==> Precedes(a + b, x, y)
    ensures Precedes(b, x, y) ==> Precedes(a + b, x, y)
    ensures forall p, q | 0 <= p < |a| && 0 <= q < |b| && a[p] == x && b[q] == y :: Precedes(a + b, x, y)
  {
    var s := a + b;
    if Precedes(a, x, y) {
      var p, q :| 0 <= p < q < |a| && a[p] == x && a[q] == y;
      assert s[p] == x && s[q] == y;
    }
    if Precedes(b, x, y) {
      var p, q :| 0 <= p < q < |b| && b[p] == x && b[q] == y;
      assert s[|a| + p] == x && s[|a| + q] == y;
    }
    forall p, q | 0 <= p < |a| && 0 <= q < |b| && a[p] == x && b[q] == y ensures Precedes(s, x, y) {
      assert s[p] == x && s[|a| + q] == y;
    }
  }

  ghost predicate GoesLast(x: Device, control: nat, lowlevel: nat) { x.kind == control || x.kind == lowlevel }

  /** Controls and low-level devices go after all others, and of two of a group the later one goes first. */
  ghost predicate InOrder(d: seq<Device>, s: seq<nat>, control: nat, lowlevel: nat) {
    && |s| == |d| && (forall i | 0 <= i < |d| :: d[i].serial in s)
    && (forall i, j | 0 <= i < |d| && 0 <= j < |d| && !GoesLast(d[i], control, lowlevel)
                      && GoesLast(d[j], control, lowlevel) :: Precedes(s, d[i].serial, d[j].serial))
    && (forall i, j | 0 <= i < j < |d| && GoesLast(d[i], control, lowlevel) == GoesLast(d[j], control, lowlevel)
          :: Precedes(s, d[j].serial, d[i].serial))
  }

  lemma PassedOne(d: seq<Device>, control: nat, lowlevel: nat, i: nat)
    requires i < |d|
    ensures var last := {control, lowlevel}; d[i].serial in Backwards(d, last, false) + Backwards(d, last, true)
  {
    var p := BackwardsHas(d, {control, lowlevel}, GoesLast(d[i], control, lowlevel), i);
  }

  lemma PassedTwo(d: seq<Device>, control: nat, lowlevel: nat, i: nat, j: nat)
    requires i < |d| && j < |d|
    requires if GoesLast(d[i], control, lowlevel) == GoesLast(d[j], control, lowlevel) then j < i
             else GoesLast(d[j], control, lowlevel)
    ensures var last := {control, lowlevel};
            Precedes(Backwards(d, last, false) + Backwards(d, last, true), d[i].serial, d[j].serial)
  {
    var last := {control, lowlevel};
    PrecedesMore(Backwards(d, last, false), Backwards(d, last, true), d[i].serial, d[j].serial);
    if GoesLast(d[i], control, lowlevel) == GoesLast(d[j], control, lowlevel) {
      BackwardsOrder(d, last, GoesLast(d[i], control, lowlevel), j, i);
    } else {
      var p := BackwardsHas(d, last, false, i);
      var q := BackwardsHas(d, last, true, j);
    }
  }

  /** Two passes over a list, the second for the controls and low-level devices, go in order. */
  lemma TwoPasses(d: seq<Device>, control: nat, lowlevel: nat)
    ensures var last := {control, lowlevel};
            InOrder(d, Backwards(d, last, false) + Backwards(d, last, true), control, lowlevel)
  {
    hide Backwards, GoesLast, Precedes;
    var last := {control, lowlevel};
    var s := Backwards(d, last, false) + Backwards(d, last, true);
    BackwardsCount(d, last);
    forall i | 0 <= i < |d| ensures d[i].serial in s { PassedOne(d, control, lowlevel, i); }
    forall i, j | 0 <= i < |d| && 0 <= j < |d| && !GoesLast(d[i], control, lowlevel)
                  && GoesLast(d[j], control, lowlevel)
      ensures Precedes(s, d[i].serial, d[j].serial)
    {
      PassedTwo(d, control, lowlevel, i, j);
    }
    forall i, j | 0 <= i < j < |d| && GoesLast(d[i], control, lowlevel) == GoesLast(d[j], control, lowlevel)
      ensures Precedes(s, d[j].serial, d[i].serial)
    {
      PassedTwo(d, control, lowlevel, j, i);
    }
  }

  lemma {:induction false} KeptOnly(d: seq<Device>, kinds: set<nat>)
    ensures Backwards(Kept(d, kinds), kinds, true) == Backwards(d, kinds, true)
    ensures forall x | x in Kept(d, kinds) :: x.kind in kinds && x in d
  {
    if d != [] {
      KeptOnly(d[1..], kinds);
      var rest := Kept(d[1..], kinds);
      if d[0].kind in kinds {
        assert Kept(d, kinds) == [d[0]] + rest && ([d[0]] + rest)[1..] == rest;
      } else {
        assert Kept(d, kinds) == rest;
      }
    }
  }

  /** One step of a pass from the end: the device at i is kept, or freed. */
  lemma PassStep(all: seq<Device>, i: nat, kinds: set<nat>)
    requires i < |all|
    ensures var now := all[..i + 1] + Kept(all[i + 1..], kinds);
            var x := all[i];
            && now[i] == x
            && all[..i] + Kept(all[i..], kinds) == (if x.kind in kinds then now else now[..i] + now[i + 1..])
            && Backwards(all[i..], kinds, false)
                == Backwards(all[i + 1..], kinds, false) + (if x.kind in kinds then [] else [x.serial])
  {
    assert all[i..][1..] == all[i + 1..];
  }

  /** The device a data pointer stands for: the first with it, if any. */
  function IndexOf(d: seq<Device>, data: nat): (i: nat)
    ensures i <= |d| && (i < |d| ==> d[i].data == data) && forall j | 0 <= j < i :: d[j].data != data
  {
    if d == [] || d[0].data == data then 0 else 1 + IndexOf(d[1..], data)
  }

  /** A device's state moved on in place. */
  function Moved(d: seq<Device>, i: nat, st: State): seq<Device>
    requires i < |d|
  {
    d[i := d[i].(state := st)]
  }

  class Card {
    const lowlevel: nat
    const control: nat
    var devices: seq<Device>
    var next: nat
    ghost var trace: seq<Event>
    ghost var freed: seq<nat>

    ghost predicate Inv()
      reads this
    {
      Sound(devices, next, trace)
    }

    /** The kinds that are freed last. */
    function Exempt(): set<nat> { {control, lowlevel} }

    constructor (lowlevel: nat, control: nat)
      ensures Inv() && devices == [] && trace == [] && freed == []
      ensures this.lowlevel == lowlevel && this.control == control
    {
      this.lowlevel, this.control := lowlevel, control;
      devices, next, trace, freed := [], 0, [], [];
    }

    /** Adds a device behind all of the same or a lower kind. */
    method New(kind: nat, data: nat, noMem: bool) returns (err: int)
      requires Inv()
      modifies this
      ensures Inv() && freed == old(freed)
      ensures noMem ==> err == -ENOMEM && unchanged(this)
      ensures !noMem ==> err == 0 && next == old(next) + 1 && trace == old(trace) + [Event(old(next), Created)]
                         && exists p :: 0 <= p <= |old(devices)|
                              && devices == old(devices)[..p] + [Device(old(next), kind, data, BUILD)]
                                            + old(devices)[p..]
                              && (forall i | 0 <= i < p :: old(devices)[i].kind <= kind)
                              && (forall i | p <= i < |old(devices)| :: kind < old(devices)[i].kind)
    {
      if noMem { return -ENOMEM; }
      var p := |devices|;
      while p > 0
        invariant 0 <= p <= |devices|
        invariant forall i | p <= i < |devices| :: kind < devices[i].kind
      {
        if devices[p - 1].kind <= kind { break; }
        p := p - 1;
      }
      assert forall i | 0 <= i < p :: i == p - 1 || Before(devices[i], devices[p - 1]);
      var x := Device(next, kind, data, BUILD);
      NewKeeps(devices, next, trace, p, x);
      devices := devices[..p] + [x] + devices[p..];
      trace := trace + [Event(next, Created)];
      next := next + 1;
      err := 0;
    }

    /** The device with a data pointer, first in the list. */
    method LookFor(data: nat) returns (i: nat)
      ensures i == IndexOf(devices, data)
    {
      i := 0;
      while i < |devices| && devices[i].data != data
        invariant 0 <= i <= |devices| && forall j | 0 <= j < i :: devices[j].data != data
      {
        i := i + 1;
      }
    }

    /** Calls the register callback, which answers with `answer`, unless the device is past that. */
    method RegisterAt(i: nat, answer: int) returns (err: int)
      requires Inv() && i < |devices|
      modifies `devices, `trace
      ensures Inv()
      ensures err == if old(devices)[i].state.BUILD? && answer < 0 then answer else 0
      ensures devices == if old(devices)[i].state.BUILD? && answer >= 0 then Moved(old(devices), i, REGISTERED)
                         else old(devices)
      ensures trace == old(trace) + (if !old(devices)[i].state.BUILD? then []
                                     else [Event(devices[i].serial, if answer < 0 then RegisterFailed else Registered)])
    {
      var d := devices[i];
      err := 0;
      if d.state.BUILD? {
        StepKeeps(devices, next, trace, i, if answer < 0 then RegisterFailed else Registered,
                  if answer < 0 then BUILD else REGISTERED);
        assert devices[i := d.(state := BUILD)] == devices;
        trace := trace + [Event(d.serial, if answer < 0 then RegisterFailed else Registered)];
        if answer < 0 { return answer; }
        devices := devices[i := d.(state := REGISTERED)];
      }
    }

    method DisconnectAt(i: nat)
      requires Inv() && i < |devices|
      modifies `devices, `trace
      ensures Inv()
      ensures devices ==
        if old(devices)[i].state.REGISTERED? then Moved(old(devices), i, DISCONNECTED) else old(devices)
      ensures trace == old(trace)
                       + if old(devices)[i].state.REGISTERED? then [Event(devices[i].serial, Disconnected)] else []
    {
      var d := devices[i];
      if d.state.REGISTERED? {
        StepKeeps(devices, next, trace, i, Disconnected, DISCONNECTED);
        trace := trace + [Event(d.serial, Disconnected)];
        devices := devices[i := d.(state := DISCONNECTED)];
      }
    }

    /** Disconnects a device if need be, and frees it. */
    method FreeAt(i: nat)
      requires Inv() && i < |devices|
      modifies `devices, `trace, `freed
      ensures Inv()
      ensures devices == old(devices)[..i] + old(devices)[i + 1..]
      ensures freed == old(freed) + [old(devices)[i].serial]
      ensures trace == old(trace)
                       + (if old(devices)[i].state.REGISTERED?
                          then [Event(old(devices)[i].serial, Disconnected)] else [])
                       + [Event(old(devices)[i].serial, Freed)]
    {
      DisconnectAt(i);
      FreeKeeps(devices, next, trace, i);
      trace := trace + [Event(devices[i].serial, Freed)];
      freed := freed + [devices[i].serial];
      devices := devices[..i] + devices[i + 1..];
    }

    method Register(data: nat, answer: int) returns (err: int)
      requires Inv()
      modifies `devices, `trace
      ensures Inv()
      ensures var i := IndexOf(old(devices), data);
              if i == |old(devices)| then err == -ENXIO && unchanged(this)
              else
                && err == (if old(devices)[i].state.BUILD? && answer < 0 then answer else 0)
                && devices == if old(devices)[i].state.BUILD? && answer >= 0 then Moved(old(devices), i, REGISTERED)
                              else old(devices)
    {
      var i := LookFor(data);
      if i == |devices| { return -ENXIO; }
      err := RegisterAt(i, answer);
    }

    method Disconnect(data: nat)
      requires Inv()
      modifies `devices, `trace
      ensures Inv()
      ensures var i := IndexOf(old(devices), data);
              devices == if i < |old(devices)| && old(devices)[i].state.REGISTERED?
                         then Moved(old(devices), i, DISCONNECTED) else old(devices)
    {
      var i := LookFor(data);
      if i < |devices| { DisconnectAt(i); }
    }

    method Free(data: nat)
      requires Inv()
      modifies `devices, `trace, `freed
      ensures Inv()
      ensures var i := IndexOf(old(devices), data);
              if i == |old(devices)| then unchanged(this)
              else
                && devices == old(devices)[..i] + old(devices)[i + 1..]
                && freed == old(freed) + [old(devices)[i].serial]
    {
      var i := LookFor(data);
      if i < |devices| { FreeAt(i); }
    }

    /** Registers the devices in order, up to the first one that fails. */
    method RegisterAll(answers: seq<int>) returns (err: int)
      requires Inv() && |answers| == |devices|
      modifies `devices, `trace
      ensures Inv() && |devices| == |old(devices)|
      ensures err <= 0
      ensures err == 0 ==>
                && (forall i | 0 <= i < |devices| :: !devices[i].state.BUILD?)
                && trace == old(trace) + Registrations(old(devices))
      ensures err < 0 ==> exists n :: 0 <= n < |devices| && devices[n].state.BUILD? && answers[n] == err
                            && (forall i | 0 <= i < n :: !devices[i].state.BUILD?) && devices[n..] == old(devices)[n..]
                            && trace == old(trace) + Registrations(old(devices)[..n])
                                        + [Event(devices[n].serial, RegisterFailed)]
    {
      hide Sound, Registrations;
      NothingYet(devices);
      var i := 0;
      while i < |devices|
        invariant 0 <= i <= |devices| == |old(devices)| && Inv()
        invariant forall j | 0 <= j < i :: !devices[j].state.BUILD?
        invariant devices[i..] == old(devices)[i..]
        invariant trace == old(trace) + Registrations(old(devices)[..i])
      {
        assert devices[i] == devices[i..][0] == old(devices)[i];
        RegistrationsOn(old(devices), i);
        err := RegisterAt(i, answers[i]);
        if err < 0 { return; }
        i := i + 1;
      }
      assert old(devices)[..|devices|] == old(devices);
      err := 0;
    }

    /** Disconnects the devices, last one first. */
    method DisconnectAll()
      requires Inv()
      modifies `devices, `trace
      ensures Inv() && |devices| == |old(devices)|
      ensures forall i | 0 <= i < |devices| :: !devices[i].state.REGISTERED?
      ensures trace == old(trace) + Disconnections(old(devices))
    {
      hide Sound, Disconnections;
      NothingYet(devices);
      var i := |devices|;
      while i > 0
        invariant 0 <= i <= |devices| == |old(devices)| && Inv()
        invariant forall j | i <= j < |devices| :: !devices[j].state.REGISTERED?
        invariant devices[..i] == old(devices)[..i] && trace == old(trace) + Disconnections(old(devices)[i..])
      {
        i := i - 1;
        assert devices[i] == old(devices)[..i + 1][i] == old(devices)[i];
        DisconnectionsOn(old(devices), i);
        DisconnectAt(i);
        assert devices[..i] == old(devices)[..i + 1][..i];
      }
      assert old(devices)[0..] == old(devices);
    }

    /** Frees all devices, last one first, except those of the given kinds. */
    method FreePass(kinds: set<nat>)
      requires Inv()
      modifies `devices, `trace, `freed
      ensures Inv()
      ensures devices == Kept(old(devices), kinds)
      ensures freed == old(freed) + Backwards(old(devices), kinds, false)
    {
      ghost var all := devices;
      var i := |devices|;
      assert all[|all|..] == [];
      while i > 0
        invariant 0 <= i <= |all| && Inv()
        invariant devices == all[..i] + Kept(all[i..], kinds)
        invariant freed == old(freed) + Backwards(all[i..], kinds, false)
      {
        i := i - 1;
        PassStep(all, i, kinds);
        if devices[i].kind !in kinds {
          FreeAt(i);
        }
      }
      assert all[0..] == all;
    }

    /** Frees every device; the controls and the low-level ones come after all others. */
    method FreeAll()
      requires Inv()
      modifies `devices, `trace, `freed
      ensures Inv() && devices == []
      ensures old(freed) <= freed && InOrder(old(devices), freed[|old(freed)|..], control, lowlevel)
      ensures forall s: nat | s < next :: LifeOf(trace, s).Dead?
    {
      hide InOrder, Backwards, Kept, Sound, LifeOf;
      ghost var all, before := devices, freed;
      FreePass(Exempt());
      KeptOnly(all, Exempt());
      KeptNone(devices, Exempt());
      FreePass({});
      TwoPasses(all, control, lowlevel);
      assert freed[|before|..] == Backwards(all, Exempt(), false) + Backwards(all, Exempt(), true);
      NoneLeft(next, trace);
    }
  }

  /** Once no device is left, all of them are dead. */
  lemma NoneLeft(next: nat, trace: seq<Event>)
    requires Sound([], next, trace)
    ensures forall s: nat | s < next :: LifeOf(trace, s).Dead?
  {
    assert forall s: nat | s < next :: !Listed([], s);
  }

  /** Freeing without exception frees the kept ones, in their order. */
  lemma {:induction false} KeptNone(d: seq<Device>, kinds: set<nat>)
    requires forall x | x in d :: x.kind in kinds
    ensures Kept(d, {}) == [] && Backwards(d, {}, false) == Backwards(d, kinds, true)
  {
    if d != [] {
      assert d[0] in d;
      KeptNone(d[1..], kinds);
    }
  }

  // ---------------------------------------------------------------- runs

  datatype Call =
    | CallNew(kind: nat, data: nat, noMem: bool) | CallRegister(data: nat, answer: int)
    | CallDisconnect(data: nat) | CallFree(data: nat)
    | CallRegisterAll(answers: seq<int>) | CallDisconnectAll | CallFreeAll

  /** In every run of calls that ends with the card's release each device lived one whole life. */
  method Run(lowlevel: nat, control: nat, calls: seq<Call>) returns (card: Card)
    ensures fresh(card) && card.devices == []
    ensures forall s: nat | s < card.next ::
              && Count(card.trace, s, Created) == Count(card.trace, s, Freed) == 1
              && Count(card.trace, s, Disconnected) == Count(card.trace, s, Registered) <= 1
  {
    card := new Card(lowlevel, control);
    var i := 0;
    while i < |calls|
      invariant 0 <= i <= |calls| && fresh(card) && card.Inv()
    {
      match calls[i] {
        case CallNew(kind, data, noMem) => var e := card.New(kind, data, noMem);
        case CallRegister(data, answer) => var e := card.Register(data, answer);
        case CallDisconnect(data) => card.Disconnect(data);
        case CallFree(data) => card.Free(data);
        case CallRegisterAll(answers) =>
          if |answers| == |card.devices| { var e := card.RegisterAll(answers); }
        case CallDisconnectAll => card.DisconnectAll();
        case CallFreeAll => card.FreeAll();
      }
      i := i + 1;
    }
    card.FreeAll();
    forall s: nat | s < card.next
      ensures Count(card.trace, s, Created) == Count(card.trace, s, Freed) == 1
      ensures Count(card.trace, s, Disconnected) == Count(card.trace, s, Registered) <= 1
    {
      LifeCounts(card.trace, s);
    }
  }
}
