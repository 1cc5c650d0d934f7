/**
  Event queues of the open control files: records of one element are merged while they wait to be
  read (snd_ctl_notify, snd_ctl_read and snd_ctl_subscribe_events in linux/sound/core/control.c).
 */
module ControlEvents {
  import opened Words
  import opened Errno
  import opened ControlTypes

  /** An event mask, as the set of its bits; or-ing masks is union. */
  type Flags = set<nat>

  /** A change notice, or a queued record of one. */
  datatype Event = Event(id: ElemId, mask: Flags)

  /** A notice and whether memory for a new record would be found. */
  datatype Notice = Notice(event: Event, alloc: bool)

  function Bits(e: Event, n: u32): Flags { if e.id.numid == n then e.mask else {} }

  /** All masks of one numid in a list of events, or-ed together. */
  function Mask(s: seq<Event>, n: u32): Flags {
    if s == [] then {} else Mask(s[..|s| - 1], n) + Bits(s[|s| - 1], n)
  }

  ghost predicate OnePerNumid(q: seq<Event>) {
    forall i, j | 0 <= i < |q| && 0 <= j < |q| && q[i].id.numid == q[j].id.numid :: i == j
  }

  lemma MaskSnoc(s: seq<Event>, e: Event, n: u32)
    ensures Mask(s + [e], n) == Mask(s, n) + Bits(e, n)
  {
    assert (s + [e])[..|s|] == s;
  }

  lemma {:induction false} MaskFront(s: seq<Event>, n: u32)
    requires s != []
    ensures Mask(s, n) == Bits(s[0], n) + Mask(s[1..], n)
  {
    if |s| == 1 {
    } else {
      var t, e := s[..|s| - 1], s[|s| - 1];
      MaskFront(t, n);
      assert s[1..][..|s| - 2] == t[1..];
    }
  }

  /** Merging a mask into a record adds exactly that mask to its numid. */
  lemma {:induction false} MaskMerge(q: seq<Event>, i: nat, mask: Flags, n: u32)
    requires i < |q|
    ensures Mask(q[i := q[i].(mask := q[i].mask + mask)], n) == Mask(q, n) + Bits(q[i].(mask := mask), n)
  {
    var q' := q[i := q[i].(mask := q[i].mask + mask)];
    var t, e := q[..|q| - 1], q[|q| - 1];
    if i == |q| - 1 {
      assert q'[..|q| - 1] == t;
    } else {
      MaskMerge(t, i, mask, n);
      assert q'[..|q| - 1] == t[i := t[i].(mask := t[i].mask + mask)];
    }
  }

  /**
    What happened to a file's events since it was last subscribed, or its queue emptied; and the stale
    records that were pending then.
   */
  datatype Logs = Logs(stale: seq<Event>, notified: seq<Event>, delivered: seq<Event>, lost: seq<Event>)

  /** Nothing gets lost unseen or is made up: the masks read, pending and lost are the stale and notified ones. */
  ghost predicate Conserved(g: Logs, q: seq<Event>) {
    forall n: u32 :: Balanced(g, q, n)
  }

  ghost predicate Balanced(g: Logs, q: seq<Event>, n: u32) {
    Mask(g.delivered, n) + Mask(q, n) + Mask(g.lost, n) == Mask(g.stale, n) + Mask(g.notified, n)
  }

  /** The queue after a notice: merged into the pending record, queued, or lost for want of memory. */
  function Find(q: seq<Event>, n: u32): (i: nat)
    ensures i <= |q| && (i < |q| ==> q[i].id.numid == n)
    ensures forall j | 0 <= j < i :: q[j].id.numid != n
  {
    if q == [] then 0 else if q[0].id.numid == n then 0 else 1 + Find(q[1..], n)
  }

  function Queued(q: seq<Event>, e: Event, alloc: bool): seq<Event> {
    var i := Find(q, e.id.numid);
    if i < |q| then q[i := q[i].(mask := q[i].mask + e.mask)]
    else if alloc then q + [e] else q
  }

  function Noted(g: Logs, q: seq<Event>, e: Event, alloc: bool): Logs {
    var lost := if Find(q, e.id.numid) == |q| && !alloc then g.lost + [e] else g.lost;
    g.(notified := g.notified + [e], lost := lost)
  }

  lemma QueuedKeeps(g: Logs, q: seq<Event>, e: Event, alloc: bool)
    requires OnePerNumid(q) && Conserved(g, q)
    ensures OnePerNumid(Queued(q, e, alloc)) && Conserved(Noted(g, q, e, alloc), Queued(q, e, alloc))
  {
    forall n: u32 ensures Balanced(Noted(g, q, e, alloc), Queued(q, e, alloc), n) {
      assert Balanced(g, q, n);
      QueuedBalances(g, q, e, alloc, n);
    }
  }

  /** The same bits on both sides of the books. */
  lemma BothSides(d: Flags, q: Flags, l: Flags, s: Flags, m: Flags, x: Flags)
    requires d + q + l == s + m
    ensures d + (q + x) + l == s + (m + x) && d + q + (l + x) == s + (m + x)
  {
    assert d + (q + x) + l == (d + q + l) + x;
    assert d + q + (l + x) == (d + q + l) + x;
    assert s + (m + x) == (s + m) + x;
  }

  lemma QueuedBalances(g: Logs, q: seq<Event>, e: Event, alloc: bool, n: u32)
    requires Balanced(g, q, n)
    ensures Balanced(Noted(g, q, e, alloc), Queued(q, e, alloc), n)
  {
    var i := Find(q, e.id.numid);
    MaskSnoc(g.notified, e, n);
    BothSides(Mask(g.delivered, n), Mask(q, n), Mask(g.lost, n), Mask(g.stale, n), Mask(g.notified, n), Bits(e, n));
    if i < |q| {
      MaskMerge(q, i, e.mask, n);
    } else if alloc {
      MaskSnoc(q, e, n);
    } else {
      MaskSnoc(g.lost, e, n);
    }
  }

  /** Taking the first record out moves its mask to the delivered, or to the lost, ones. */
  lemma TakenKeeps(g: Logs, q: seq<Event>, ok: bool)
    requires q != [] && OnePerNumid(q) && Conserved(g, q)
    ensures OnePerNumid(q[1..])
    ensures Conserved(if ok then g.(delivered := g.delivered + [q[0]]) else g.(lost := g.lost + [q[0]]), q[1..])
  {
    var g' := if ok then g.(delivered := g.delivered + [q[0]]) else g.(lost := g.lost + [q[0]]);
    forall n: u32 ensures Balanced(g', q[1..], n) {
      assert Balanced(g, q, n);
      MaskFront(q, n);
      MaskSnoc(g.delivered, q[0], n);
      MaskSnoc(g.lost, q[0], n);
    }
  }

  /** A new account of a queue starts with what is pending. */
  function Opened(q: seq<Event>): Logs { Logs(q, [], [], []) }

  lemma StartsConserved(q: seq<Event>)
    ensures Conserved(Opened(q), q)
  {
    forall n: u32 ensures Balanced(Opened(q), q, n) {}
  }

  /** If nothing was lost, what was read and what is pending is everything notified, and the stale records. */
  lemma NothingMissed(g: Logs, q: seq<Event>, n: u32)
    requires Conserved(g, q) && g.lost == []
    ensures Mask(g.delivered, n) + Mask(q, n) == Mask(g.stale, n) + Mask(g.notified, n)
  {
    assert Balanced(g, q, n);
  }

  /** The numids of pending records, first one first. */
  function Numids(q: seq<Event>): seq<u32> { seq(|q|, i requires 0 <= i < |q| => q[i].id.numid) }

  /** The order in which numids are waiting: each at the place of its first notice for which there was memory. */
  function Awaiting(waiting: seq<u32>, notices: seq<Notice>): seq<u32> {
    if notices == [] then waiting
    else
      var before, x := Awaiting(waiting, notices[..|notices| - 1]), notices[|notices| - 1];
      if x.event.id.numid in before || !x.alloc then before else before + [x.event.id.numid]
  }

  /** A notice leaves the order of the waiting numids alone; a new one goes to the end. */
  lemma QueuedOrder(q: seq<Event>, e: Event, alloc: bool)
    ensures Numids(Queued(q, e, alloc)) ==
      if e.id.numid in Numids(q) || !alloc then Numids(q) else Numids(q) + [e.id.numid]
  {
    var i := Find(q, e.id.numid);
    if i < |q| { assert Numids(q)[i] == e.id.numid; }
  }

  lemma NoneAwaiting(waiting: seq<u32>, notices: seq<Notice>)
    ensures Awaiting(waiting, notices[..0]) == waiting
  {
  }

  lemma OneNotice(waiting: seq<u32>, e: Event, alloc: bool)
    ensures Awaiting(waiting, [Notice(e, alloc)]) ==
      if e.id.numid in waiting || !alloc then waiting else waiting + [e.id.numid]
  {
    assert [Notice(e, alloc)][..0] == [];
    assert Awaiting(waiting, []) == waiting;
  }

  lemma AwaitingOn(waiting: seq<u32>, notices: seq<Notice>, k: nat)
    requires k < |notices|
    ensures var before, x := Awaiting(waiting, notices[..k]), notices[k];
            Awaiting(waiting, notices[..k + 1]) ==
            if x.event.id.numid in before || !x.alloc then before else before + [x.event.id.numid]
  {
    assert notices[..k + 1][..k] == notices[..k];
  }

  /** What goes on while a reader does not hold the queue's lock. */
  datatype Gap = Gap(notices: seq<Notice>, copied: bool, shutdown: bool, signal: bool)

  /** Memory was found for every new record, and every record reached user space. */
  predicate Kind(notices: seq<Notice>) { forall x | x in notices :: x.alloc }

  /** Memory was found for no new record, or nothing came. */
  predicate Barren(notices: seq<Notice>) { forall x | x in notices :: !x.alloc }

  predicate Lossless(gap: Gap) { gap.copied && Kind(gap.notices) }

  predicate AllLossless(gaps: seq<Gap>) { forall gap | gap in gaps :: Lossless(gap) }

  /** All notices of some gaps. */
  function AllEvents(gaps: seq<Gap>): seq<Event> {
    if gaps == [] then [] else AllEvents(gaps[..|gaps| - 1]) + Events(gaps[|gaps| - 1].notices)
  }

  lemma {:induction false} AllEventsOn(gaps: seq<Gap>, k: nat)
    requires k < |gaps|
    ensures AllEvents(gaps[..k + 1]) == AllEvents(gaps[..k]) + Events(gaps[k].notices)
  {
    assert gaps[..k + 1][..k] == gaps[..k];
  }

  /** A first gap that brings a reader who waits something to read, and lets it be read. */
  predicate Wakes(gaps: seq<Gap>) {
    && gaps != [] && !gaps[0].shutdown && !gaps[0].signal && !Barren(gaps[0].notices)
    && (|gaps| > 1 ==> gaps[1].copied)
  }

  function Least(a: nat, b: nat): nat { if a < b then a else b }

  lemma NothingYet(gaps: seq<Gap>)
    ensures AllEvents(gaps[..0]) == [] && Events([]) == [] && Kind([])
  {
  }

  const EVENT_SIZE := 72
  const ENODEV := 19

  class EventFile {
    var subscribed: bool
    var queue: seq<Event>
    ghost var g: Logs

    constructor ()
      ensures Inv() && !subscribed && queue == [] && g == Opened([])
    {
      subscribed, queue := false, [];
      g := Opened([]);
      new;
      StartsConserved([]);
    }

    ghost predicate Inv()
      reads this
    {
      OnePerNumid(queue) && Conserved(g, queue)
    }

    /** Queues a notice for this file. */
    method Post(e: Event, alloc: bool)
      requires Inv()
      modifies `queue, `g
      ensures Inv()
      ensures queue == Queued(old(queue), e, alloc) && g == Noted(old(g), old(queue), e, alloc)
      ensures |queue| >= |old(queue)| && (queue == [] <==> old(queue) == [] && !alloc)
      ensures Numids(queue) == Awaiting(Numids(old(queue)), [Notice(e, alloc)])
      ensures g.notified == old(g.notified) + [e] && g.delivered == old(g.delivered) && g.stale == old(g.stale)
      ensures alloc ==> g.lost == old(g.lost)
    {
      QueuedOrder(queue, e, alloc);
      OneNotice(Numids(queue), e, alloc);
      QueuedKeeps(g, queue, e, alloc);
      g := Noted(g, queue, e, alloc);
      var i := 0;
      while i < |queue|
        invariant 0 <= i <= |queue| && queue == old(queue)
        invariant i <= Find(queue, e.id.numid)
      {
        if queue[i].id.numid == e.id.numid {
          queue := queue[i := queue[i].(mask := queue[i].mask + e.mask)];
          return;
        }
        i := i + 1;
      }
      if alloc {
        queue := queue + [e];
      }
    }

    method PostAll(notices: seq<Notice>)
      requires Inv()
      modifies `queue, `g
      ensures Inv()
      ensures g.notified == old(g.notified) + Events(notices) && g.delivered == old(g.delivered)
      ensures g.stale == old(g.stale)
      ensures notices == [] ==> unchanged(this)
      ensures Kind(notices) ==> g.lost == old(g.lost)
      ensures |queue| >= |old(queue)| && Numids(queue) == Awaiting(Numids(old(queue)), notices)
      ensures old(queue) == [] ==> (queue == [] <==> Barren(notices))
    {
      hide Queued, Noted, Numids, Awaiting, Conserved, OnePerNumid;
      var i := 0;
      assert Events(notices[..0]) == [];
      NoneAwaiting(Numids(queue), notices);
      while i < |notices|
        invariant 0 <= i <= |notices| && Inv()
        invariant g.notified == old(g.notified) + Events(notices[..i]) && g.delivered == old(g.delivered)
        invariant g.stale == old(g.stale)
        invariant |queue| >= |old(queue)| && Numids(queue) == Awaiting(Numids(old(queue)), notices[..i])
        invariant old(queue) == [] ==> (queue == [] <==> Barren(notices[..i]))
        invariant i == 0 ==> unchanged(this)
        invariant Kind(notices) ==> g.lost == old(g.lost)
      {
        OneNotice(Numids(queue), notices[i].event, notices[i].alloc);
        AwaitingOn(Numids(old(queue)), notices, i);
        Post(notices[i].event, notices[i].alloc);
        assert notices[..i + 1][..i] == notices[..i];
        i := i + 1;
      }
      assert notices[..|notices|] == notices;
    }

    /** Takes the first record and copies it out; a failed copy loses it. */
    method TakeOne(gap: Gap)
      requires Inv() && queue != []
      modifies `queue, `g
      ensures Inv()
      ensures g.delivered == old(g.delivered) + (if gap.copied then [old(queue)[0]] else [])
      ensures g.stale == old(g.stale)
      ensures g.notified == old(g.notified) + Events(gap.notices)
      ensures Lossless(gap) ==> g.lost == old(g.lost)
      ensures |queue| >= |old(queue)| - 1 && Numids(queue) == Awaiting(Numids(old(queue)[1..]), gap.notices)
    {
      TakenKeeps(g, queue, gap.copied);
      g := if gap.copied then g.(delivered := g.delivered + [queue[0]]) else g.(lost := g.lost + [queue[0]]);
      queue := queue[1..];
      PostAll(gap.notices);
    }

    /**
      The first record is taken out, or lost by a failed copy. Without one a reader who may not wait, or has
      read something, is done; another one waits for what comes next.
     */
    method Next(gap: Gap, nonblock: bool, some: bool) returns (e: int)
      requires Inv()
      modifies `queue, `g
      ensures Inv() && g.stale == old(g.stale)
      ensures e == if old(queue) != [] then if gap.copied then 1 else -EFAULT
                   else if nonblock || some then -EAGAIN
                   else if gap.shutdown then -ENODEV
                   else if gap.signal then -ERESTARTSYS else 0
      ensures g.delivered == old(g.delivered) + (if e == 1 then [old(queue)[0]] else [])
      ensures if e == -EAGAIN then unchanged(this) else g.notified == old(g.notified) + Events(gap.notices)
      ensures |queue| + 1 >= |old(queue)|
      ensures old(queue) == [] && e != -EAGAIN ==> (queue == [] <==> Barren(gap.notices))
      ensures Lossless(gap) ==> g.lost == old(g.lost)
    {
      if queue == [] {
        if nonblock || some { return -EAGAIN; }
        PostAll(gap.notices);
        return if gap.shutdown then -ENODEV else if gap.signal then -ERESTARTSYS else 0;
      }
      TakeOne(gap);
      return if gap.copied then 1 else -EFAULT;
    }

    /**
      Reads events; notices keep arriving whenever the lock is dropped, in the first `used` gaps. What is
      there is read as far as it fits; a reader waits only if there is nothing to read, and only if it may.
     */
    method Read(count: nat, nonblock: bool, gaps: seq<Gap>) returns (r: int, used: nat)
      requires Inv()
      modifies `queue, `g
      ensures Inv()
      ensures !subscribed ==> r == -EBADFD && unchanged(this)
      ensures subscribed && count < EVENT_SIZE ==> r == -EINVAL && unchanged(this)
      ensures r > 0 ==> r <= count && |g.delivered| * EVENT_SIZE == |old(g.delivered)| * EVENT_SIZE + r
      ensures r <= 0 ==> g.delivered == old(g.delivered) && r < 0
      ensures old(g.delivered) <= g.delivered && g.stale == old(g.stale)
      ensures used <= |gaps| && g.notified == old(g.notified) + AllEvents(gaps[..used])
      ensures r > 0 && old(queue) != [] ==> g.delivered[|old(g.delivered)|] == old(queue)[0]
      ensures AllLossless(gaps) ==> g.lost == old(g.lost)
      ensures Ready(count) && (forall gap | gap in gaps :: gap.copied) && old(queue) != [] ==>
                r >= EVENT_SIZE * Least(count / EVENT_SIZE, |old(queue)|)
      ensures Ready(count) && old(queue) != [] && gaps != [] ==> if gaps[0].copied then r > 0 else r == -EFAULT
      ensures Ready(count) && old(queue) == [] && nonblock ==> r == -EAGAIN && unchanged(this)
      ensures Ready(count) && old(queue) == [] && !nonblock && gaps != [] ==>
                && (gaps[0].shutdown ==> r == -ENODEV)
                && (gaps[0].signal && !gaps[0].shutdown ==> r == -ERESTARTSYS)
                && (Wakes(gaps) ==> r > 0)
      ensures r == -EAGAIN ==> nonblock
    {
      hide Inv, Conserved, OnePerNumid, Mask, AllEvents, Events, Barren, Kind;
      used := 0;
      NothingYet(gaps);
      if !subscribed { return -EBADFD, 0; }
      if count < EVENT_SIZE { return -EINVAL, 0; }
      var room, result := count, 0;
      ghost var n := 0;
      while room >= EVENT_SIZE
        invariant Inv() && 0 <= room && result == EVENT_SIZE * n && room + result == count && used <= |gaps|
        invariant |g.delivered| == |old(g.delivered)| + n && old(g.delivered) <= g.delivered && g.stale == old(g.stale)
        invariant g.notified == old(g.notified) + AllEvents(gaps[..used])
        invariant AllLossless(gaps) ==> g.lost == old(g.lost)
        invariant n + |queue| >= |old(queue)|
        invariant used == 0 ==> (n == 0 || gaps == []) && (n == 0 ==> unchanged(this))
        invariant old(queue) != [] ==> n >= used && (n > 0 ==> g.delivered[|old(g.delivered)|] == old(queue)[0])
        invariant old(queue) != [] && n > 0 && gaps != [] ==> gaps[0].copied
        invariant old(queue) == [] && nonblock ==> n == 0 && used == 0
        invariant old(queue) == [] && n == 0 && used > 0 && Wakes(gaps) ==> used == 1 && queue != []
        invariant old(queue) == [] && used > 0 ==> !gaps[0].shutdown && !gaps[0].signal
        decreases room, |gaps| - used
      {
        var gap := if used == |gaps| then Gap([], true, false, true) else gaps[used];
        assert AllLossless(gaps) ==> Lossless(gap);
        var e := Next(gap, nonblock, result > 0);
        if e != -EAGAIN && used < |gaps| {
          AllEventsOn(gaps, used);
          used := used + 1;
        }
        if e < 0 { return if result > 0 then result else e, used; }
        if e > 0 { room, result, n := room - EVENT_SIZE, result + EVENT_SIZE, n + 1; }
      }
      r := result;
    }

    /** A subscriber asks for at least one record. */
    predicate Ready(count: nat)
      reads `subscribed
    {
      subscribed && EVENT_SIZE <= count
    }

    /**
      Switches the subscription. Notices that arrive after the queue was emptied and before the file
      counts as unsubscribed stay queued, and are pending at the next subscription: nothing is stale then
      exactly if no record was made of any of them.
     */
    method Subscribe(value: int, window: seq<Notice>) returns (r: int)
      requires Inv()
      modifies this
      ensures Inv()
      ensures value < 0 ==> unchanged(this) && r == if subscribed then 1 else 0
      ensures value > 0 ==> subscribed && queue == old(queue) && r == 0
      ensures value > 0 ==> g == if old(subscribed) then old(g) else Opened(queue)
      ensures value == 0 ==> !subscribed && r == 0
      ensures value == 0 && !old(subscribed) ==> unchanged(this)
      ensures value == 0 && old(subscribed) ==> g.notified == Events(window) && g.delivered == [] && g.stale == []
      ensures value == 0 && old(subscribed) ==> (queue == [] <==> Barren(window))
      ensures value == 0 && old(subscribed) && Kind(window) ==> g.lost == []
    {
      if value < 0 { return if subscribed then 1 else 0; }
      if value > 0 {
        if !subscribed {
          g := Opened(queue);
          StartsConserved(queue);
        }
        subscribed := true;
        return 0;
      }
      if subscribed {
        EmptyQueue();
        PostAll(window);
        subscribed := false;
      }
      r := 0;
    }

    method EmptyQueue()
      modifies `queue, `g
      ensures Inv() && queue == [] && g == Opened([])
    {
      while queue != []
        decreases |queue|
      {
        queue := queue[1..];
      }
      g := Opened([]);
      StartsConserved([]);
    }
  }

  function Events(notices: seq<Notice>): seq<Event> {
    if notices == [] then [] else Events(notices[..|notices| - 1]) + [notices[|notices| - 1].event]
  }

  /** Posts a notice to every subscribed file of a card. */
  method Notify(files: seq<EventFile>, shutdown: bool, e: Event, allocs: seq<bool>)
    requires |allocs| == |files| && forall f | f in files :: f.Inv()
    requires forall i, j | 0 <= i < |files| && 0 <= j < |files| && files[i] == files[j] :: i == j
    modifies files
    ensures forall f | f in files :: f.Inv()
    ensures forall i | 0 <= i < |files| ::
              Told(old(files[i].queue), old(files[i].g), files[i].queue, files[i].g,
                   !shutdown && files[i].subscribed, e, allocs[i])
    ensures forall f | f in files :: f.subscribed == old(f.subscribed)
  {
    if shutdown { return; }
    var i := 0;
    while i < |files|
      invariant 0 <= i <= |files|
      invariant forall f | f in files :: f.Inv() && f.subscribed == old(f.subscribed)
      invariant forall j | i <= j < |files| :: files[j].queue == old(files[j].queue) && files[j].g == old(files[j].g)
      invariant forall j | 0 <= j < i ::
                  Told(old(files[j].queue), old(files[j].g), files[j].queue, files[j].g,
                       files[j].subscribed, e, allocs[j])
    {
      if files[i].subscribed {
        files[i].Post(e, allocs[i]);
      }
      i := i + 1;
    }
  }

  /** What happens around one file: notices, reads, and switching the subscription. */
  datatype Act =
    | Tell(notice: Notice)
    | DoRead(count: nat, nonblock: bool, gaps: seq<Gap>)
    | DoSubscribe(value: int, window: seq<Notice>)

  /** Nothing gets lost in it. */
  predicate Harmless(a: Act) {
    match a
    case Tell(notice) => notice.alloc
    case DoRead(_, _, gaps) => AllLossless(gaps)
    case DoSubscribe(_, window) => Kind(window)
  }

  /** Nothing gets lost to a subscriber in it, and no record is made while a subscription is switched off. */
  predicate Neat(a: Act) {
    match a
    case Tell(notice) => notice.alloc
    case DoRead(_, _, gaps) => AllLossless(gaps)
    case DoSubscribe(_, window) => Barren(window)
  }

  /** A subscriber has missed nothing, and nothing stale is or was pending. */
  ghost predicate UpToDate(f: EventFile)
    reads f
  {
    f.g.stale == [] && if f.subscribed then f.g.lost == [] else f.queue == []
  }

  method Perform(f: EventFile, a: Act)
    requires f.Inv()
    modifies f
    ensures f.Inv() && (Harmless(a) && old(f.g).lost == [] ==> f.g.lost == [])
    ensures Neat(a) && old(UpToDate(f)) ==> UpToDate(f)
    ensures a.Tell? ==> f.g.notified == if f.subscribed then old(f.g).notified + [a.notice.event] else old(f.g).notified
  {
    match a {
      case Tell(notice) =>
        if f.subscribed { f.Post(notice.event, notice.alloc); }
      case DoRead(count, nonblock, gaps) =>
        ghost var used;
        var r;
        r, used := f.Read(count, nonblock, gaps);
      case DoSubscribe(value, window) => var r := f.Subscribe(value, window);
    }
  }

  /**
    After any run there is at most one record of each numid pending, and what was read, is pending or got
    lost of it is what the file was notified of since its subscription, with what was stale then. If
    nothing gets lost to a subscriber, and no record is made while a subscription is switched off, then
    what a subscriber has read and has pending is exactly what it was notified of since it subscribed.
   */
  method Run(acts: seq<Act>) returns (f: EventFile)
    ensures fresh(f) && OnePerNumid(f.queue)
    ensures forall n: u32 :: Balanced(f.g, f.queue, n)
    ensures (forall a | a in acts :: Harmless(a)) ==>
              forall n: u32 :: Mask(f.g.delivered, n) + Mask(f.queue, n) == Mask(f.g.stale, n) + Mask(f.g.notified, n)
    ensures (forall a | a in acts :: Neat(a)) && f.subscribed ==>
              forall n: u32 :: Mask(f.g.delivered, n) + Mask(f.queue, n) == Mask(f.g.notified, n)
  {
    f := new EventFile();
    var i := 0;
    while i < |acts|
      invariant 0 <= i <= |acts| && fresh(f) && f.Inv()
      invariant (forall a | a in acts :: Harmless(a)) ==> f.g.lost == []
      invariant (forall a | a in acts :: Neat(a)) ==> UpToDate(f)
    {
      assert acts[i] in acts;
      Perform(f, acts[i]);
      i := i + 1;
    }
    if f.g.lost == [] {
      forall n: u32
        ensures Mask(f.g.delivered, n) + Mask(f.queue, n) == Mask(f.g.stale, n) + Mask(f.g.notified, n)
      {
        NothingMissed(f.g, f.queue, n);
      }
    }
  }

  /** A notice that comes while the file is unsubscribed is read by the next subscriber, who was notified of nothing. */
  method StaleDelivery(e: Event) returns (f: EventFile, r: int)
    ensures fresh(f) && f.subscribed && r > 0
    ensures f.g.notified == [] && Mask(f.g.stale, e.id.numid) == e.mask
    ensures f.g.stale != [] && f.g.delivered != [] && f.g.delivered[0] == f.g.stale[0]
  {
    f := new EventFile();
    r := f.Subscribe(1, []);
    r := f.Subscribe(0, [Notice(e, true)]);
    assert Mask(f.queue, e.id.numid) == e.mask by {
      var n := [Notice(e, true)];
      assert n[0] in n && n[..0] == [];
      assert f.g.notified == [e] && [e][..0] == [];
      NothingMissed(f.g, f.queue, e.id.numid);
    }
    r := f.Subscribe(1, []);
    ghost var used;
    r, used := f.Read(EVENT_SIZE, true, [Gap([], true, false, false)]);
    assert Events([]) == [];
  }

  ghost predicate Told(q: seq<Event>, g: Logs, q': seq<Event>, g': Logs, told: bool, e: Event, alloc: bool) {
    if told then q' == Queued(q, e, alloc) && g' == Noted(g, q, e, alloc) else q' == q && g' == g
  }
}
