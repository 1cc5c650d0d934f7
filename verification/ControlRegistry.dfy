/**
  What holds of a card's control list and its lookup tables between calls, and that adding,
  removing and renaming a control keep it (linux/sound/core/control.c).
 */
module ControlRegistry {
  import opened Words
  import opened Options
  import opened ControlTypes
  import opened ControlNumid
  import opened ControlIndex
  import opened ControlUsers

  ghost predicate Sound(controls: seq<Kctl>, numids: map<int, Kctl>, hash: HashTable) {
    && InRange(controls) && Disjoint(controls) && Identified(controls)
    && NumidsAgree(controls, numids) && EntriesLive(controls, hash) && AllFiled(controls, hash)
  }

  /** The control asked for: by numid if one is given, by the rest of the id otherwise. */
  predicate Hit(k: Kctl, id: ElemId) { if id.numid != 0 then k.Covers(id.numid) else Matches(k, id) }

  /** The first control in list order that matches an id. */
  function Scan(controls: seq<Kctl>, id: ElemId): (r: Option<Kctl>)
    ensures r.Some? ==> r.value in controls && Matches(r.value, id)
    ensures r.None? ==> forall k | k in controls :: !Matches(k, id)
  {
    if controls == [] then None
    else if Matches(controls[0], id) then Some(controls[0])
    else Scan(controls[1..], id)
  }

  /** Which control a lookup finds: by numid, or by hash, or, where hash slots have collided, by the scan. */
  function Lookup(controls: seq<Kctl>, numids: map<int, Kctl>, hash: HashTable, id: ElemId): Option<Kctl> {
    if id.numid != 0 then
      if id.numid in numids then Some(numids[id.numid]) else None
    else if HashFind(hash, id).Some? then HashFind(hash, id)
    else if !hash.collision then None
    else Scan(controls, id)
  }

  predicate Live(controls: seq<Kctl>, addr: nat) { exists k :: k in controls && k.addr == addr }

  /** The list without the control at an address. */
  function Without(controls: seq<Kctl>, addr: nat): seq<Kctl> {
    if controls == [] then []
    else if controls[0].addr == addr then controls[1..]
    else [controls[0]] + Without(controls[1..], addr)
  }

  lemma {:induction false} WithoutMembers(controls: seq<Kctl>, addr: nat)
    ensures forall x | x in Without(controls, addr) :: x in controls
  {
    if controls != [] { WithoutMembers(controls[1..], addr); }
  }

  lemma {:induction false} WithoutAt(controls: seq<Kctl>, i: nat)
    requires i < |controls| && Identified(controls)
    ensures Without(controls, controls[i].addr) == controls[..i] + controls[i + 1..]
  {
    var rest := controls[1..];
    if i > 0 {
      assert controls[0].addr != controls[i].addr;
      forall x, y | 0 <= x < |rest| && 0 <= y < |rest| && rest[x].addr == rest[y].addr ensures x == y {
        assert controls[x + 1].addr == controls[y + 1].addr;
      }
      WithoutAt(rest, i - 1);
      assert [controls[0]] + (rest[..i - 1] + rest[i..]) == controls[..i] + controls[i + 1..];
    }
  }

  /** The list with the control at k's address changed to k, in the same place. */
  function Replaced(controls: seq<Kctl>, k: Kctl): seq<Kctl> {
    if controls == [] then []
    else if controls[0].addr == k.addr then [k] + controls[1..]
    else [controls[0]] + Replaced(controls[1..], k)
  }

  lemma {:induction false} ReplacedAt(controls: seq<Kctl>, i: nat, k: Kctl)
    requires i < |controls| && Identified(controls) && controls[i].addr == k.addr
    ensures Replaced(controls, k) == controls[..i] + [k] + controls[i + 1..]
  {
    var rest := controls[1..];
    if i > 0 {
      assert controls[0].addr != controls[i].addr;
      forall x, y | 0 <= x < |rest| && 0 <= y < |rest| && rest[x].addr == rest[y].addr ensures x == y {
        assert controls[x + 1].addr == controls[y + 1].addr;
      }
      ReplacedAt(rest, i - 1, k);
      assert [controls[0]] + (rest[..i - 1] + [k] + rest[i..]) == controls[..i] + [k] + controls[i + 1..];
    }
  }

  /** Number of elements of all controls. */
  function Elements(controls: seq<Kctl>): nat {
    if controls == [] then 0 else controls[0].count + Elements(controls[1..])
  }

  lemma {:induction false} ElementsSplit(a: seq<Kctl>, b: seq<Kctl>)
    ensures Elements(a + b) == Elements(a) + Elements(b)
  {
    if a == [] {
      assert a + b == b;
    } else {
      assert (a + b)[1..] == a[1..] + b;
      ElementsSplit(a[1..], b);
    }
  }

  /** Rewrites a list around one of its controls. */
  lemma Around(controls: seq<Kctl>, k: Kctl) returns (a: seq<Kctl>, b: seq<Kctl>)
    requires k in controls && Identified(controls)
    ensures controls == a + [k] + b && Without(controls, k.addr) == a + b
    ensures forall k': Kctl | k'.addr == k.addr :: Replaced(controls, k') == a + [k'] + b
    ensures forall x | x in a + b :: x.addr != k.addr
  {
    var i :| 0 <= i < |controls| && controls[i] == k;
    WithoutAt(controls, i);
    a, b := controls[..i], controls[i + 1..];
    forall k': Kctl | k'.addr == k.addr ensures Replaced(controls, k') == a + [k'] + b { ReplacedAt(controls, i, k'); }
    forall x | x in a + b ensures x.addr != k.addr {
      var j := RestIndex(controls, i, x);
    }
  }

  lemma SoundAdd(controls: seq<Kctl>, numids: map<int, Kctl>, hash: HashTable, k: Kctl)
    requires Sound(controls, numids, hash) && !Live(controls, k.addr)
    requires k.Sized() && 1 <= k.id.numid && Feasible(controls, k.id.numid - 1, k.count)
    ensures Sound(controls + [k], StoreNumids(numids, k, k.count), InsertElems(hash, k, k.count))
  {
    HoleFits(controls, k);
    StoreKeepsNumids(controls, numids, k);
    InsertKeepsHash(controls, hash, k);
    AddIdentified(controls, k);
  }

  lemma AddIdentified(controls: seq<Kctl>, k: Kctl)
    requires Identified(controls) && !Live(controls, k.addr)
    ensures Identified(controls + [k])
  {
    forall i | 0 <= i < |controls| ensures controls[i].addr != k.addr { assert controls[i] in controls; }
  }

  lemma SoundRemove(controls: seq<Kctl>, numids: map<int, Kctl>, hash: HashTable, k: Kctl)
    requires Sound(controls, numids, hash) && k in controls
    ensures Sound(Without(controls, k.addr), EraseNumids(numids, k, k.count), EraseElems(hash, k, k.count))
    ensures !Live(Without(controls, k.addr), k.addr)
    ensures forall x | x in Without(controls, k.addr) :: x in controls
  {
    var i :| 0 <= i < |controls| && controls[i] == k;
    WithoutAt(controls, i);
    var rest := controls[..i] + controls[i + 1..];
    forall x | x in rest ensures x in controls && x.addr != k.addr { var j := RestIndex(controls, i, x); }
    EraseKeepsNumids(controls, numids, i);
    EraseKeepsHash(controls, hash, i);
    RestIdentified(controls, i);
  }

  lemma RestIdentified(controls: seq<Kctl>, i: nat)
    requires i < |controls| && Identified(controls)
    ensures Identified(controls[..i] + controls[i + 1..])
  {
    var rest := controls[..i] + controls[i + 1..];
    forall x, y | 0 <= x < |rest| && 0 <= y < |rest| && rest[x].addr == rest[y].addr ensures x == y {
      assert rest[x] == controls[if x < i then x else x + 1];
      assert rest[y] == controls[if y < i then y else y + 1];
    }
  }

  /** Renaming takes a control out of the tables and files it again under its new id and old numid. */
  lemma SoundRename(controls: seq<Kctl>, numids: map<int, Kctl>, hash: HashTable, k: Kctl, k': Kctl)
    requires Sound(controls, numids, hash) && k in controls
    requires k'.addr == k.addr && k'.count == k.count && k'.id.numid == k.id.numid
    ensures Sound(Replaced(controls, k'), StoreNumids(EraseNumids(numids, k, k.count), k', k.count),
                  InsertElems(EraseElems(hash, k, k.count), k', k.count))
  {
    SoundRemove(controls, numids, hash, k);
    var rest := Without(controls, k.addr);
    var a, b := Around(controls, k);
    RenamedDisjoint(controls, k, k', rest);
    StoreKeepsNumids(rest, EraseNumids(numids, k, k.count), k');
    InsertKeepsHash(rest, EraseElems(hash, k, k.count), k');
    RenamedIdentified(a, k, k', b);
    SameMembers(a, k', b, StoreNumids(EraseNumids(numids, k, k.count), k', k.count),
                InsertElems(EraseElems(hash, k, k.count), k', k.count));
  }

  lemma RenamedDisjoint(controls: seq<Kctl>, k: Kctl, k': Kctl, rest: seq<Kctl>)
    requires InRange(controls) && Disjoint(controls) && k in controls && !Live(rest, k.addr)
    requires forall x | x in rest :: x in controls
    requires k'.count == k.count && k'.id.numid == k.id.numid
    ensures InRange(rest + [k']) && Disjoint(rest + [k'])
  {
    var all := rest + [k'];
    forall n ensures k'.Covers(n) == k.Covers(n) {}
    forall x | x in rest ensures x != k {}
    forall x, y, n | x in all && y in all && x.Covers(n) && y.Covers(n) ensures x == y {
    }
  }

  lemma RenamedIdentified(a: seq<Kctl>, k: Kctl, k': Kctl, b: seq<Kctl>)
    requires Identified(a + [k] + b) && k'.addr == k.addr
    ensures Identified(a + [k'] + b)
  {
    var was, now := a + [k] + b, a + [k'] + b;
    assert forall i | 0 <= i < |now| :: now[i].addr == was[i].addr;
  }

  /** The tables' promises depend on which controls are live, not on their order. */
  lemma SameMembers(a: seq<Kctl>, k: Kctl, b: seq<Kctl>, numids: map<int, Kctl>, hash: HashTable)
    requires InRange(a + b + [k]) && Disjoint(a + b + [k]) && Identified(a + [k] + b)
    requires NumidsAgree(a + b + [k], numids) && EntriesLive(a + b + [k], hash) && AllFiled(a + b + [k], hash)
    ensures Sound(a + [k] + b, numids, hash)
  {
    assert forall x :: x in a + [k] + b <==> x in a + b + [k];
  }

  /** With sound tables the fast lookup by numid is the scan of the ranges. */
  lemma NumidLookup(controls: seq<Kctl>, numids: map<int, Kctl>, n: int)
    requires NumidsAgree(controls, numids)
    ensures n in numids <==> exists k :: k in controls && k.Covers(n)
    ensures n in numids ==> numids[n] in controls && numids[n].Covers(n)
  {
  }

  /** A control can be found by an id without numid exactly if its indices do not wrap around. */
  lemma FindableIff(k: Kctl)
    requires k.Sized()
    ensures (exists id :: Matches(k, id)) <==> k.id.index <= UINT_MAX - k.count
  {
    if k.id.index <= UINT_MAX - k.count { assert Matches(k, k.id); }
  }

  /** A lookup finds something exactly if a live control is asked for, and then such a one. */
  lemma LookupExact(controls: seq<Kctl>, numids: map<int, Kctl>, hash: HashTable, id: ElemId)
    requires Sound(controls, numids, hash)
    ensures var r := Lookup(controls, numids, hash, id);
            && (r.Some? ==> r.value in controls && Hit(r.value, id))
            && (r.None? ==> forall k | k in controls :: !Hit(k, id))
  {
    if id.numid != 0 {
      NumidLookup(controls, numids, id.numid);
    } else if HashFind(hash, id).Some? {
      assert HashId(id) in hash.entries;
    } else if !hash.collision {
      MissMeansNone(controls, hash, id);
    }
  }

  // ---------------------------------------------------------------- ids kept apart

  /** No id, its numid aside, is an element of two controls. */
  ghost predicate IdsApart(controls: seq<Kctl>) {
    forall x, y, id | x in controls && y in controls && Matches(x, id) && Matches(y, id) :: x == y
  }

  /** None of a control's elements belongs to a listed control. */
  ghost predicate NoneShared(controls: seq<Kctl>, k: Kctl) {
    forall x, e: nat | x in controls && e < k.count :: !Matches(x, k.Elem(e))
  }

  /** Adding a control keeps ids apart exactly if none of its elements is taken. */
  lemma AddApart(controls: seq<Kctl>, k: Kctl, k': Kctl)
    requires IdsApart(controls) && !Live(controls, k.addr) && k.id.index <= UINT_MAX - k.count
    requires k' == k.(id := k'.id) && k'.id == k.id.(numid := k'.id.numid)
    ensures IdsApart(controls + [k']) <==> NoneShared(controls, k)
  {
    var all := controls + [k'];
    assert all[|controls|] == k';
    if IdsApart(all) {
      forall x, e: nat | x in controls && e < k.count ensures !Matches(x, k.Elem(e)) {
        assert Matches(k', k.Elem(e)) && x in all && k' in all;
      }
    }
    if NoneShared(controls, k) {
      forall x, y, id | x in all && y in all && Matches(x, id) && Matches(y, id) ensures x == y {
        if x != y { NotShared(controls, k, k', if x == k' then y else x, id); }
      }
    }
  }

  lemma NotShared(controls: seq<Kctl>, k: Kctl, k': Kctl, x: Kctl, id: ElemId)
    requires NoneShared(controls, k) && k.id.index <= UINT_MAX - k.count
    requires k' == k.(id := k'.id) && k'.id == k.id.(numid := k'.id.numid)
    requires x in controls && Matches(k', id)
    ensures !Matches(x, id)
  {
    var e := id.index - k.id.index;
    assert k.Elem(e).index == id.index && !Matches(x, k.Elem(e));
  }

  /** Removing a control leaves the others apart. */
  lemma RemoveApart(controls: seq<Kctl>, addr: nat)
    requires IdsApart(controls)
    ensures IdsApart(Without(controls, addr))
  {
    WithoutMembers(controls, addr);
  }

  // ---------------------------------------------------------------- accounting

  /** Every user element belongs to a live control. */
  ghost predicate UsersLive(controls: seq<Kctl>, users: map<nat, UserElem>) {
    forall a | a in users :: Live(controls, a)
  }

  /** The accounted bytes are those of the live user controls, within the limit. */
  ghost predicate Accounted(header: nat, max: nat, controls: seq<Kctl>, users: map<nat, UserElem>, size: int) {
    UsersLive(controls, users) && size == Bytes(header, controls, users) && size <= max
  }

  lemma ElementsRemove(controls: seq<Kctl>, k: Kctl)
    requires k in controls && Identified(controls)
    ensures Elements(Without(controls, k.addr)) == Elements(controls) - k.count
  {
    var a, b := Around(controls, k);
    ElementsSplit(a + [k], b);
    ElementsSplit(a, [k]);
    ElementsSplit(a, b);
  }

  lemma AccountRemove(header: nat, max: nat, controls: seq<Kctl>, users: map<nat, UserElem>, size: int, k: Kctl)
    requires Accounted(header, max, controls, users, size) && k in controls && Identified(controls)
    ensures Accounted(header, max, Without(controls, k.addr), users - {k.addr}, size - BytesOf(header, k, users))
  {
    var a, b := Around(controls, k);
    var users' := users - {k.addr};
    BytesAt(header, a, k, k, b, users, users');
    forall u | u in users' ensures Live(a + b, u) {
      var x :| x in controls && x.addr == u;
      assert x in a + b;
    }
  }

  lemma AccountAdd(header: nat, max: nat, controls: seq<Kctl>, users: map<nat, UserElem>, users': map<nat, UserElem>,
                   size: int, k: Kctl)
    requires Accounted(header, max, controls, users, size) && !Live(controls, k.addr)
    requires users' - {k.addr} == users && size + BytesOf(header, k, users') <= max
    ensures Accounted(header, max, controls + [k], users', size + BytesOf(header, k, users'))
  {
    var all := controls + [k];
    BytesElsewhere(header, controls, users, users');
    BytesSplit(header, controls, [k], users');
    assert all[|controls|] == k;
    forall u | u in users' ensures Live(all, u) {
      if u != k.addr {
        assert u in users;
        var x :| x in controls && x.addr == u;
        assert x in all;
      }
    }
  }

  lemma ElementsReplace(controls: seq<Kctl>, k: Kctl, k': Kctl)
    requires k in controls && Identified(controls) && k'.addr == k.addr && k'.count == k.count
    ensures Elements(Replaced(controls, k')) == Elements(controls)
  {
    var a, b := Around(controls, k);
    ElementsSplit(a + [k], b);
    ElementsSplit(a, [k]);
    ElementsSplit(a + [k'], b);
    ElementsSplit(a, [k']);
  }

  /** A changed id or changed user data of one control. */
  lemma AccountChange(header: nat, max: nat, controls: seq<Kctl>, users: map<nat, UserElem>, users': map<nat, UserElem>,
                      size: int, k: Kctl, k': Kctl)
    requires Accounted(header, max, controls, users, size) && k in controls && Identified(controls)
    requires k'.addr == k.addr && k'.count == k.count
    requires users'.Keys == users.Keys && users' - {k.addr} == users - {k.addr}
    requires size - BytesOf(header, k, users) + BytesOf(header, k', users') <= max
    ensures Accounted(header, max, Replaced(controls, k'), users',
                      size - BytesOf(header, k, users) + BytesOf(header, k', users'))
  {
    var a, b := Around(controls, k);
    forall x: Kctl | x in a + b && x.addr in users ensures users[x.addr] == users'[x.addr] {
      assert x.addr in users - {k.addr};
    }
    BytesAt(header, a, k, k', b, users, users');
    var all := a + [k'] + b;
    forall u | u in users' ensures Live(all, u) {
      var x :| x in controls && x.addr == u;
      assert (if x.addr == k.addr then k' else x) in all;
    }
  }
}
