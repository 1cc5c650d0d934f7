/** The controls of a card: adding, replacing, removing, renaming and finding them (linux/sound/core/control.c). */
module ControlCard {
  import opened Words
  import opened Errno
  import opened Options
  import opened ControlTypes
  import opened ControlNumid
  import opened ControlIndex
  import opened ControlUsers
  import opened ControlRegistry

  datatype AddMode = Exclusive | Replace | AddOnReplace

  const MAX_SEARCH := 100000
  const NAME_SIZE := 44

  class Card {
    const header: nat
    const maxAlloc: nat
    var controls: seq<Kctl>
    var lastNumid: u32
    var controlsCount: int
    var numids: map<int, Kctl>
    var hash: HashTable
    var users: map<nat, UserElem>
    var allocSize: int

    constructor (header: nat, maxAlloc: nat)
      ensures Inv() && controls == [] && this.header == header && this.maxAlloc == maxAlloc
    {
      this.header, this.maxAlloc := header, maxAlloc;
      controls, lastNumid, controlsCount := [], 0, 0;
      numids, hash, users, allocSize := map[], HashTable(map[], false), map[], 0;
    }

    ghost predicate Inv()
      reads this
    {
      Kept() && Accounted(header, maxAlloc, controls, users, allocSize)
    }

    // -------------------------------------------------------------- numids

    method RemoveNumidConflict(count: nat) returns (hit: bool, ghost at: nat)
      requires 1 <= count <= MAX_CONTROL_COUNT && InRange(controls)
      modifies `lastNumid
      ensures hit ==>
                && FirstConflict(controls, at, Start(old(lastNumid), count), count)
                && lastNumid == controls[at].Last()
      ensures !hit ==> lastNumid == Start(old(lastNumid), count) && Feasible(controls, lastNumid, count)
    {
      if lastNumid >= UINT_MAX - count { lastNumid := 0; }
      var i := 0;
      while i < |controls|
        invariant 0 <= i <= |controls| && lastNumid == Start(old(lastNumid), count)
        invariant forall j | 0 <= j < i :: !Conflicts(controls[j], lastNumid, count)
      {
        var k := controls[i];
        if k.id.numid < lastNumid + 1 + count && k.id.numid + k.count > lastNumid + 1 {
          assert k in controls;
          lastNumid := k.id.numid + k.count - 1;
          return true, i;
        }
        i := i + 1;
      }
      hit, at := false, 0;
    }

    /** Finds the next hole; with fewer than 50000 controls it fails only if there is none at all. */
    method FindHole(count: nat) returns (err: int)
      requires 1 <= count <= MAX_CONTROL_COUNT && InRange(controls)
      modifies `lastNumid
      ensures err == 0 || err == -ENOMEM
      ensures err == 0 ==> FirstFit(controls, Start(old(lastNumid), count), lastNumid, count)
      ensures err != 0 ==> MAX_SEARCH / 2 <= |controls| || NoHole(controls, count)
    {
      var iter := MAX_SEARCH;
      ghost var from, pass := Start(lastNumid, count), 0;
      ghost var before := from;
      var hit, at := RemoveNumidConflict(count);
      while hit
        invariant 1 <= iter
        invariant hit ==>
                    && 0 <= at < |controls| && Conflicts(controls[at], before, count)
                    && lastNumid == controls[at].Last()
        invariant !hit ==> lastNumid == before && Feasible(controls, lastNumid, count)
        invariant Progress(controls, from, before, count, pass, MAX_SEARCH - iter)
        decreases iter
      {
        iter := iter - 1;
        Jump(controls, at, from, before, count, pass, MAX_SEARCH - iter - 1);
        if iter == 0 { return -ENOMEM; }
        pass := Restart(controls, from, lastNumid, count, pass, MAX_SEARCH - iter);
        before := Start(lastNumid, count);
        hit, at := RemoveNumidConflict(count);
      }
      err := 0;
    }

    // -------------------------------------------------------------- lookup tables

    method AddHashEntries(k: Kctl)
      modifies `numids, `hash
      ensures numids == StoreNumids(old(numids), k, k.count)
      ensures hash == InsertElems(old(hash), k, k.count)
    {
      numids := StoreNumids(numids, k, k.count);
      var i := 0;
      while i < k.count
        invariant 0 <= i <= k.count
        invariant hash == InsertElems(old(hash), k, i)
        invariant numids == StoreNumids(old(numids), k, k.count)
      {
        var h := HashId(k.Elem(i));
        if h in hash.entries {
          hash := hash.(collision := true);
        } else {
          hash := hash.(entries := hash.entries[h := k]);
        }
        i := i + 1;
      }
    }

    method RemoveHashEntries(k: Kctl)
      modifies `numids, `hash
      ensures numids == EraseNumids(old(numids), k, k.count)
      ensures hash == EraseElems(old(hash), k, k.count)
    {
      var i := 0;
      while i < k.count
        invariant 0 <= i <= k.count
        invariant numids == EraseNumids(old(numids), k, i)
        invariant hash == EraseElems(old(hash), k, i)
      {
        numids := numids - {k.id.numid + i};
        var h := HashId(k.Elem(i));
        if h in hash.entries && (hash.entries[h].addr == k.addr || Matches(hash.entries[h], k.Elem(i))) {
          hash := hash.(entries := hash.entries - {h});
        }
        i := i + 1;
      }
    }

    method FindNumid(numid: u32) returns (r: Option<Kctl>)
      requires NumidsAgree(controls, numids) && InRange(controls)
      ensures numid != 0 ==> r == if numid in numids then Some(numids[numid]) else None
      ensures r.Some? ==> r.value in controls && r.value.Covers(numid)
      ensures r.None? ==> forall k | k in controls :: !k.Covers(numid)
    {
      if numid == 0 { return None; }
      r := if numid in numids then Some(numids[numid]) else None;
    }

    /** What a lookup finds. */
    ghost function Found(id: ElemId): Option<Kctl>
      reads this
    {
      Lookup(controls, numids, hash, id)
    }

    /** Finds a control exactly if a live one matches, whether or not hash slots collided. */
    method FindId(id: ElemId) returns (r: Option<Kctl>)
      requires Sound(controls, numids, hash)
      ensures r == Found(id)
      ensures r.Some? ==> r.value in controls && Hit(r.value, id)
      ensures r.None? ==> forall k | k in controls :: !Hit(k, id)
    {
      LookupExact(controls, numids, hash, id);
      if id.numid != 0 {
        r := FindNumid(id.numid);
        return;
      }
      r := HashFind(hash, id);
      if r.Some? { return; }
      if !hash.collision { return; }
      var i := 0;
      while i < |controls|
        invariant 0 <= i <= |controls|
        invariant Scan(controls, id) == Scan(controls[i..], id)
      {
        if Matches(controls[i], id) { return Some(controls[i]); }
        i := i + 1;
      }
    }

    // -------------------------------------------------------------- adding and removing

    /** Gives the bytes of a user control back; the control itself may already be gone from the list. */
    method FreeOne(k: Kctl)
      modifies `users, `allocSize
      ensures users == old(users) - {k.addr}
      ensures allocSize == old(allocSize) - BytesOf(header, k, old(users))
    {
      if k.addr in users {
        var u := users[k.addr];
        allocSize := allocSize - ElemSize(header, u.dataSize, k.count);
        allocSize := allocSize - TlvSize(u);
        match u.names {
          case Some(b) => allocSize := allocSize - |b|;
          case None =>
        }
      }
      users := users - {k.addr};
    }

    ghost predicate Kept()
      reads this
    {
      Sound(controls, numids, hash) && controlsCount == Elements(controls)
    }

    method RemoveLocked(k: Kctl)
      requires Kept() && k in controls
      modifies this
      ensures Kept() && lastNumid == old(lastNumid)
      ensures controls == Without(old(controls), k.addr)
      ensures users == old(users) - {k.addr}
      ensures allocSize == old(allocSize) - BytesOf(header, k, old(users))
    {
      SoundRemove(controls, numids, hash, k);
      ElementsRemove(controls, k);
      RemoveHashEntries(k);
      controls := Without(controls, k.addr);
      controlsCount := controlsCount - k.count;
      FreeOne(k);
    }

    /** The accounting while a control's user data is charged but the control is not listed yet. */
    ghost predicate Pending(k: Kctl)
      reads this
    {
      && allocSize <= maxAlloc && !Live(controls, k.addr)
      && Accounted(header, maxAlloc, controls, users - {k.addr}, allocSize - BytesOf(header, k, users))
    }

    method Remove(k: Kctl)
      requires Inv() && k in controls
      modifies this
      ensures Inv() && lastNumid == old(lastNumid)
      ensures controls == Without(old(controls), k.addr) && users == old(users) - {k.addr}
      ensures allocSize == old(allocSize) - BytesOf(header, k, old(users))
    {
      AccountRemove(header, maxAlloc, controls, users, allocSize, k);
      RemoveLocked(k);
    }

    method RemoveId(id: ElemId) returns (err: int, ghost victim: Option<Kctl>)
      requires Inv()
      modifies this
      ensures Inv()
      ensures victim == old(Found(id)) && err == (if victim.Some? then 0 else -ENOENT)
      ensures victim.None? ==> unchanged(this) && forall k | k in controls :: !Hit(k, id)
      ensures victim.Some? ==> victim.value in old(controls) && Hit(victim.value, id)
                               && controls == Without(old(controls), victim.value.addr)
                               && allocSize == old(allocSize) - BytesOf(header, victim.value, old(users))
    {
      var k := FindId(id);
      victim := k;
      if k.None? { return -ENOENT, victim; }
      Remove(k.value);
      err := 0;
    }

    /** Removes the control that is in the way of a new one; the removed control's bytes go with it. */
    method Evict(v: Kctl, ghost k: Kctl)
      requires Kept() && v in controls && Pending(k)
      modifies this
      ensures Kept() && Pending(k) && lastNumid == old(lastNumid)
      ensures controls == Without(old(controls), v.addr)
      ensures users == old(users) - {v.addr}
      ensures allocSize == old(allocSize) - BytesOf(header, v, old(users))
    {
      AccountRemove(header, maxAlloc, controls, users - {k.addr}, allocSize - BytesOf(header, k, users), v);
      assert users - {k.addr} - {v.addr} == users - {v.addr} - {k.addr};
      SoundRemove(controls, numids, hash, v);
      RemoveLocked(v);
    }

    /** Gives a control the numids of the next hole and lists it. */
    method Place(k: Kctl) returns (err: int)
      requires Kept() && k.Sized() && Pending(k)
      modifies this
      ensures Kept() && users == old(users) && allocSize == old(allocSize)
      ensures err == 0 || err == -ENOMEM
      ensures err != 0 ==>
        Pending(k) && controls == old(controls) && (MAX_SEARCH / 2 <= |controls| || NoHole(controls, k.count))
      ensures err == 0 ==> Inv() && Placed(old(controls), old(lastNumid), k)
    {
      err := FindHole(k.count);
      if err < 0 { return -ENOMEM; }
      Link(k);
    }

    lemma PendingAdded(k: Kctl, k': Kctl)
      requires Kept() && k.Sized() && Pending(k) && Feasible(controls, lastNumid, k.count)
      requires k' == k.(id := k.id.(numid := lastNumid + 1))
      ensures Sound(controls + [k'], StoreNumids(numids, k', k.count), InsertElems(hash, k', k.count))
      ensures Accounted(header, maxAlloc, controls + [k'], users, allocSize)
      ensures Elements(controls + [k']) == controlsCount + k.count
    {
      SoundAdd(controls, numids, hash, k');
      AccountAdd(header, maxAlloc, controls, users - {k.addr}, users, allocSize - BytesOf(header, k, users), k');
      ElementsSplit(controls, [k']);
    }

    /** Lists k under the numids that follow the last one. */
    method Link(k: Kctl)
      requires Kept() && k.Sized() && Pending(k) && Feasible(controls, lastNumid, k.count)
      modifies this
      ensures Inv() && users == old(users) && allocSize == old(allocSize)
      ensures lastNumid == old(lastNumid) + k.count && controls == old(controls) + [Numbered(k, old(lastNumid) + 1)]
    {
      var k' := k.(id := k.id.(numid := lastNumid + 1));
      PendingAdded(k, k');
      var all := controls + [k'];
      controls := all;
      controlsCount := controlsCount + k.count;
      lastNumid := lastNumid + k.count;
      AddHashEntries(k');
    }

    /** The list got k at its end, under the first numids that fit. */
    ghost predicate Placed(before: seq<Kctl>, last: u32, k: Kctl)
      reads this
    {
      && controls == before + [Numbered(k, lastNumid - k.count + 1)]
      && FirstFit(before, Start(last, k.count), lastNumid - k.count, k.count)
    }

    /** The control in the way of a new one, if the checks get as far as to look for it. */
    ghost function InTheWay(k: Kctl): Option<Kctl>
      reads this
    {
      if k.id.index > UINT_MAX - k.count then None else Found(k.id)
    }

    /**
      Adds a control, or puts it in the place of the one with the same id, as the mode allows. Ids stay
      apart exactly if none of the new elements is taken; only the first of them is looked up.
     */
    method AddReplace(k: Kctl, mode: AddMode) returns (err: int, ghost victim: Option<Kctl>)
      requires Kept() && k.Sized() && Pending(k)
      modifies this
      ensures victim == old(InTheWay(k)) && Looked(old(controls), k, victim)
      ensures Refusal(k, mode, victim.Some?) != 0 ==> err == Refusal(k, mode, victim.Some?) && unchanged(this)
      ensures Refusal(k, mode, victim.Some?) == 0 ==>
                && (err == 0 || err == -ENOMEM)
                && (err == 0 ==> Placed(Left(old(controls), victim), old(lastNumid), k))
                && (err != 0 ==> controls == Left(old(controls), victim)
                                 && (MAX_SEARCH / 2 <= |controls| || NoHole(controls, k.count)))
                && allocSize == old(allocSize) - Lost(header, victim, old(users))
                && users == old(users) - Address(victim)
      ensures err == 0 && old(IdsApart(controls)) ==>
                (IdsApart(controls) <==> NoneShared(Left(old(controls), victim), k))
      ensures err == 0 ==> Inv()
      ensures err != 0 ==> Kept() && Pending(k)
    {
      if k.id.index > UINT_MAX - k.count { return -EINVAL, None; }
      var v := FindId(k.id);
      victim := v;
      if v.None? {
        if mode.Replace? { return -EINVAL, victim; }
      } else {
        if mode.Exclusive? { return -EBUSY, victim; }
        Evict(v.value, k);
      }
      ghost var rest := controls;
      err := Place(k);
      if err == 0 && old(IdsApart(controls)) { PlacedApart(old(controls), rest, victim, k); }
    }

    lemma PlacedApart(before: seq<Kctl>, rest: seq<Kctl>, victim: Option<Kctl>, k: Kctl)
      requires IdsApart(before) && rest == Left(before, victim) && !Live(rest, k.addr)
      requires k.id.index <= UINT_MAX - k.count && 0 <= lastNumid - k.count < UINT_MAX
      requires controls == rest + [Numbered(k, lastNumid - k.count + 1)]
      ensures IdsApart(controls) <==> NoneShared(rest, k)
    {
      if victim.Some? { RemoveApart(before, victim.value.addr); }
      AddApart(rest, k, Numbered(k, lastNumid - k.count + 1));
    }

    /** A driver control never has user data, so nothing was charged for it. */
    lemma NotPending(k: Kctl)
      requires Kept() && Pending(k) && k.addr !in users
      ensures Inv()
    {
      assert users - {k.addr} == users;
    }

    // -------------------------------------------------------------- renaming

    method RenameLocked(k: Kctl, id: ElemId)
      requires Inv() && k in controls && id.numid == k.id.numid
      modifies this
      ensures Inv() && users == old(users) && allocSize == old(allocSize) && lastNumid == old(lastNumid)
      ensures controls == Replaced(old(controls), k.(id := id))
    {
      var k' := k.(id := id);
      SoundRename(controls, numids, hash, k, k');
      AccountChange(header, maxAlloc, controls, users, users, allocSize, k, k');
      ElementsReplace(controls, k, k');
      RemoveHashEntries(k);
      controls := Replaced(controls, k');
      AddHashEntries(k');
    }

    /** Gives a control a new id; it keeps its numid and its place in the list. */
    method RenameId(src: ElemId, dst: ElemId) returns (err: int, ghost which: Option<Kctl>)
      requires Inv()
      modifies this
      ensures Inv() && allocSize == old(allocSize)
      ensures which == old(Found(src)) && err == (if which.Some? then 0 else -ENOENT)
      ensures which.None? ==> unchanged(this) && forall k | k in controls :: !Hit(k, src)
      ensures which.Some? ==>
                && which.value in old(controls) && Hit(which.value, src)
                && controls == Replaced(old(controls), which.value.(id := dst.(numid := which.value.id.numid)))
    {
      var k := FindId(src);
      which := k;
      if k.None? { return -ENOENT, which; }
      RenameLocked(k.value, dst.(numid := k.value.id.numid));
      err := 0;
    }

    /** Gives a control a new name, cut to what fits. */
    method Rename(k: Kctl, name: seq<char>)
      requires Inv() && k in controls
      modifies this
      ensures Inv() && allocSize == old(allocSize)
      ensures controls == Replaced(old(controls), k.(id := k.id.(name := Fitting(name))))
    {
      RenameLocked(k, k.id.(name := Fitting(name)));
    }

    // -------------------------------------------------------------- user controls

    /** The control with an id can be removed by user space. */
    ghost predicate Removable(id: ElemId, held: bool)
      reads this
    {
      Found(id).Some? && Found(id).value.addr in users && !held
    }

    /** Removes a control for user space: it has to be a user control that nobody else holds. */
    method RemoveUser(id: ElemId, held: bool) returns (err: int, ghost victim: Option<Kctl>)
      requires Inv()
      modifies this
      ensures Inv() && lastNumid == old(lastNumid)
      ensures victim == if old(Removable(id, held)) then old(Found(id)) else None
      ensures victim.None? ==> unchanged(this)
      ensures victim.Some? ==> err == 0 && Evicted(old(controls), old(users), old(allocSize), victim.value, id)
      ensures victim.None? ==> err == if Found(id).None? then -ENOENT
                                      else if Found(id).value.addr !in users then -EINVAL
                                      else -EBUSY
    {
      var k := FindId(id);
      if k.None? { return -ENOENT, None; }
      if k.value.addr !in users { return -EINVAL, None; }
      if held { return -EBUSY, None; }
      Remove(k.value);
      err, victim := 0, k;
    }

    /** A user control with the given id is gone, and its bytes with it. */
    ghost predicate Evicted(before: seq<Kctl>, had: map<nat, UserElem>, size: int, v: Kctl, id: ElemId)
      reads this
    {
      && v in before && Hit(v, id) && v.addr in had
      && controls == Without(before, v.addr) && users == had - {v.addr}
      && allocSize == size - UserSize(header, had[v.addr], v.count)
    }

    /** Charges the header and the values of a new user control. */
    method Charge(k: Kctl, dataSize: nat)
      requires Inv() && !Live(controls, k.addr) && allocSize + ElemSize(header, dataSize, k.count) <= maxAlloc
      modifies `users, `allocSize
      ensures Pending(k) && users == old(users)[k.addr := UserElem(dataSize, None, None)] && k.addr !in old(users)
      ensures allocSize == old(allocSize) + ElemSize(header, dataSize, k.count)
    {
      users := users[k.addr := UserElem(dataSize, None, None)];
      assert users - {k.addr} == old(users);
      allocSize := allocSize + ElemSize(header, dataSize, k.count);
    }

    /** Takes over the names of an enumerated control, if they are in order. */
    method InitEnumNames(k: Kctl, items: nat, length: nat, names: UserCopy<char>) returns (err: int)
      requires Pending(k) && k.addr in users && users[k.addr].names == None && names.Fits(length)
      modifies `users, `allocSize
      ensures Pending(k)
      ensures err != 0 ==> unchanged(this)
      ensures err == 0 <==>
                && length <= MAX_NAMES && old(allocSize) + length <= maxAlloc
                && names.Copied? && Parses(names.data, items)
      ensures length <= MAX_NAMES && old(allocSize) + length > maxAlloc ==> err == -ENOMEM
      ensures length > MAX_NAMES ==> err == -EINVAL
      ensures err != 0 && old(allocSize) + length <= maxAlloc && names.Copied? ==> err == -EINVAL
      ensures length <= MAX_NAMES && old(allocSize) + length <= maxAlloc && names.Failed? ==> err == names.err
      ensures err == 0 ==> users == old(users)[k.addr := old(users)[k.addr].(names := Some(names.data))]
                           && allocSize == old(allocSize) + length
    {
      if length > MAX_NAMES { return -EINVAL; }
      if allocSize + length > maxAlloc { return -ENOMEM; }
      match names {
        case Failed(e) => return e;
        case Copied(data) =>
          var ok := CheckNames(data, items);
          if !ok { return -EINVAL; }
          users := users[k.addr := users[k.addr].(names := Some(data))];
          assert users - {k.addr} == old(users) - {k.addr};
          allocSize := allocSize + length;
          err := 0;
      }
    }

    /** A call from user space gets as far as to remove the control that it is to replace. */
    ghost predicate Destroys(id: ElemId, replace: bool, held: bool)
      reads this
    {
      replace && NameOk(id) && Removable(id.(numid := 0), held)
    }

    /**
      A new control finds its id free: nothing has it; or it replaces what has it, where ids are kept apart.
     */
    ghost predicate Opens(id: ElemId, info: ElemInfo, replace: bool, held: bool)
      reads this
    {
      && NameOk(id) && id.index + info.Elements() <= UINT_MAX
      && if replace then Destroys(id, true, held) && IdsApart(controls) else Found(id).None?
    }

    /**
      Adds a control from user space. With `replace` the old one is removed before anything else is
      checked, and stays removed if the addition then fails.
     */
    method ElemAdd(id: ElemId, addr: nat, info: ElemInfo, replace: bool, held: bool, noMem: bool, names: UserCopy<char>)
      returns (err: int, ghost victim: Option<Kctl>)
      requires Inv() && !Live(controls, addr) && names.Fits(info.namesLength)
      modifies this
      ensures Inv()
      ensures victim == if old(Destroys(id, replace, held)) then old(Found(id.(numid := 0))) else None
      ensures err == 0 && replace ==> victim.Some?
      ensures err != 0 ==> controls == Left(old(controls), victim) && users == old(users) - Address(victim)
                           && allocSize == old(allocSize) - Lost(header, victim, old(users))
      ensures err != 0 && 0 < header ==> (allocSize != old(allocSize) <==> old(Destroys(id, replace, held)))
      ensures err == 0 ==>
                && info.Error() == 0
                && Placed(Left(old(controls), victim), old(lastNumid), NewKctl(id, addr, info, replace))
                && addr in users && Holds(users[addr], info)
                && allocSize == old(allocSize) - Lost(header, victim, old(users))
                                + UserSize(header, users[addr], info.Elements())
      ensures NameOk(id) && (replace ==> victim.Some?) && info.Error() != 0 ==> err == info.Error()
      ensures err == 0 ==>
                && NameOk(id) && (replace ==> victim.Some?) && !noMem && NamesInOrder(info, names)
                && Affordable(info, old(allocSize) - Lost(header, victim, old(users)))
                && !NoHole(Left(old(controls), victim), info.Elements())
      ensures !NameOk(id) ==> err == -EINVAL
      ensures NameOk(id) && replace && victim.None? ==>
                err == old(if Found(id.(numid := 0)).None? then -ENOENT
                           else if Found(id.(numid := 0)).value.addr !in users then -EINVAL else -EBUSY)
      ensures old(Opens(id, info, replace, held)) && info.Error() == 0 && !noMem && NamesInOrder(info, names)
              && Affordable(info, old(allocSize) - Lost(header, victim, old(users))) ==>
                err == 0 || (err == -ENOMEM && (MAX_SEARCH / 2 <= |controls| || NoHole(controls, info.Elements())))
    {
      hide Placed, FirstFit, NoHole, Holds, NamesInOrder, Affordable, Accounted;
      victim := None;
      if !NameOk(id) { return -EINVAL, victim; }
      if replace {
        err, victim := RemoveUser(id.(numid := 0), held);
        if err != 0 { return; }
        WithoutMembers(old(controls), victim.value.addr);
        LostBytes(header, victim, old(users));
        if old(IdsApart(controls)) { GoneIsFree(old(controls), victim.value, id.(numid := 0)); }
      }
      err := info.Error();
      if err != 0 { return; }
      err := AddUser(NewKctl(id, addr, info, replace), info, noMem, names);
    }

    /** Where ids are kept apart, removing the control that an id finds leaves nothing that it finds. */
    lemma GoneIsFree(before: seq<Kctl>, v: Kctl, id: ElemId)
      requires Sound(controls, numids, hash) && IdsApart(before) && Identified(before) && id.numid == 0
      requires v in before && Matches(v, id) && controls == Without(before, v.addr)
      ensures Found(id).None?
    {
      LookupExact(controls, numids, hash, id);
      var a, b := Around(before, v);
      WithoutMembers(before, v.addr);
    }

    /** The whole call: if the new id cannot be copied out, the control goes again. */
    method ElemAddUser(id: ElemId, addr: nat, info: ElemInfo, replace: bool, held: bool, noMem: bool,
                       names: UserCopy<char>, copyOut: bool)
      returns (err: int, ghost victim: Option<Kctl>)
      requires Inv() && !Live(controls, addr) && names.Fits(info.namesLength)
      modifies this
      ensures Inv()
      ensures victim == if old(Destroys(id, replace, held)) then old(Found(id.(numid := 0))) else None
      ensures err == 0 ==>
        copyOut && Placed(Left(old(controls), victim), old(lastNumid), NewKctl(id, addr, info, replace))
      ensures err != 0 ==> controls == Left(old(controls), victim)
                           && allocSize == old(allocSize) - Lost(header, victim, old(users))
      ensures err == 0 ==> NameOk(id) && info.Error() == 0 && !noMem && NamesInOrder(info, names)
      ensures old(Opens(id, info, replace, held)) && info.Error() == 0 && !noMem && NamesInOrder(info, names)
              && Affordable(info, old(allocSize) - Lost(header, victim, old(users))) ==>
                err == (if copyOut then 0 else -EFAULT)
                || (err == -ENOMEM && (MAX_SEARCH / 2 <= |controls| || NoHole(controls, info.Elements())))
    {
      err, victim := ElemAdd(id, addr, info, replace, held, noMem, names);
      if err == 0 && !copyOut {
        var k := controls[|controls| - 1];
        if victim.Some? { WithoutMembers(old(controls), victim.value.addr); }
        Latest(Left(old(controls), victim), k);
        ghost var gone;
        err, gone := RemoveUser(k.id, false);
        err := -EFAULT;
      }
    }

    /** The control that was added last is what its numid finds, and removing it restores the list. */
    lemma Latest(rest: seq<Kctl>, k: Kctl)
      requires Kept() && controls == rest + [k] && !Live(rest, k.addr)
      ensures Found(k.id) == Some(k) && Without(controls, k.addr) == rest
    {
      assert controls[|rest|] == k;
      assert k in controls && k.Covers(k.id.numid);
      WithoutAt(controls, |rest|);
      assert controls[..|rest|] + controls[|rest| + 1..] == rest;
    }

    /** There is room for a control's header, values and names. */
    ghost predicate Affordable(info: ElemInfo, had: int) {
      var names := if info.kind == ENUMERATED then info.namesLength else 0;
      had + header + ValueSize(info.kind) * info.count * info.Elements() + names <= maxAlloc
    }

    /** The id of a new control is free. */
    ghost predicate Unclaimed(k: Kctl)
      reads this
    {
      k.id.index + k.count <= UINT_MAX && Found(k.id).None?
    }

    /**
      The part of an addition that takes place under the lock. It succeeds exactly if there is memory, within
      the limit, the names are in order, the id is free, and numids are left, as far as the search for them goes.
     */
    method AddUser(k: Kctl, info: ElemInfo, noMem: bool, names: UserCopy<char>) returns (err: int)
      requires Inv() && k.Sized() && !Live(controls, k.addr)
      requires info.Error() == 0 && k.count == info.Elements() && names.Fits(info.namesLength)
      modifies this
      ensures Inv()
      ensures err != 0 ==> controls == old(controls) && users == old(users) && allocSize == old(allocSize)
      ensures err == 0 ==> && Placed(old(controls), old(lastNumid), k)
                           && k.addr in users && Holds(users[k.addr], info)
                           && allocSize == old(allocSize) + UserSize(header, users[k.addr], k.count)
      ensures err == 0 ==>
                && !noMem && Affordable(info, old(allocSize)) && NamesInOrder(info, names)
                && old(Unclaimed(k)) && !NoHole(old(controls), k.count)
      ensures !noMem && Affordable(info, old(allocSize)) && NamesInOrder(info, names) && old(Unclaimed(k)) ==>
                err == 0 || (err == -ENOMEM && (MAX_SEARCH / 2 <= |controls| || NoHole(controls, k.count)))
      ensures !noMem && Affordable(info, old(allocSize)) && NamesInOrder(info, names) && !old(Unclaimed(k)) ==>
                err == if k.id.index + k.count > UINT_MAX then -EINVAL else -EBUSY
      ensures noMem ==> err == -ENOMEM
    {
      var dataSize := ValueSize(info.kind) * info.count;
      if allocSize + ElemSize(header, dataSize, k.count) > maxAlloc { return -ENOMEM; }
      if noMem { return -ENOMEM; }
      assert k.addr !in users;
      Charge(k, dataSize);
      if info.kind == ENUMERATED {
        if names.Copied? { ParsesIff(names.data, info.items); }
        err := InitEnumNames(k, info.items, info.namesLength, names);
        if err != 0 {
          FreeOne(k);
          return;
        }
      }
      err := Enlist(k);
    }

    /** Adds a charged user control to the list, or gives its bytes back. */
    method Enlist(k: Kctl) returns (err: int)
      requires Kept() && k.Sized() && Pending(k)
      modifies this
      ensures Inv()
      ensures err == 0 ==>
        Placed(old(controls), old(lastNumid), k) && users == old(users) && allocSize == old(allocSize)
      ensures err != 0 ==> controls == old(controls) && users == old(users) - {k.addr}
                           && allocSize == old(allocSize) - BytesOf(header, k, old(users))
      ensures err == 0 ==> old(Unclaimed(k)) && !NoHole(old(controls), k.count)
      ensures old(Unclaimed(k)) ==>
                err == 0 || (err == -ENOMEM && (MAX_SEARCH / 2 <= |controls| || NoHole(controls, k.count)))
      ensures !old(Unclaimed(k)) ==> err == if k.id.index + k.count > UINT_MAX then -EINVAL else -EBUSY
    {
      ghost var victim;
      err, victim := AddReplace(k, Exclusive);
      if err != 0 {
        FreeOne(k);
      }
    }

    /** Replaces a user control's TLV bytes. */
    method ReplaceTlv(k: Kctl, size: nat, buf: UserCopy<nat>) returns (r: int)
      requires Inv() && k in controls && k.addr in users && buf.Fits(size)
      modifies `users, `allocSize
      ensures Inv()
      ensures r <= 0 ==> unchanged(this)
      ensures r == 0 ==> buf.Copied? && TlvBytes(users[k.addr]) == buf.data
      ensures r > 0 ==> buf.Copied? && TlvBytes(old(users)[k.addr]) != buf.data
                        && users == old(users)[k.addr := old(users)[k.addr].(tlv := Some(buf.data))]
                        && allocSize == old(allocSize) - TlvSize(old(users)[k.addr]) + size
      ensures r >= 0 <==>
                && size <= MAX_TLV && buf.Copied?
                && old(allocSize) + size - TlvSize(old(users)[k.addr]) <= maxAlloc
      ensures r > 0 ==> r == 1
      ensures size > MAX_TLV ==> r == -EINVAL
      ensures size <= MAX_TLV && old(allocSize) + size - TlvSize(old(users)[k.addr]) > maxAlloc ==> r == -ENOMEM
      ensures size <= MAX_TLV && old(allocSize) + size - TlvSize(old(users)[k.addr]) <= maxAlloc && buf.Failed? ==>
                r == buf.err
    {
      var u := users[k.addr];
      if size > MAX_TLV { return -EINVAL; }
      if allocSize + (size - TlvSize(u)) > maxAlloc { return -ENOMEM; }
      match buf {
        case Failed(e) => return e;
        case Copied(data) =>
          var change := TlvSize(u) != size;
          if !change { change := TlvBytes(u) != data; }
          if !change { return 0; }
          TlvAccounted(k, u.(tlv := Some(data)));
          if u.tlv.Some? {
            allocSize := allocSize - TlvSize(u);
          }
          users := users[k.addr := u.(tlv := Some(data))];
          allocSize := allocSize + size;
          r := 1;
      }
    }

    lemma TlvAccounted(k: Kctl, u: UserElem)
      requires Inv() && k in controls && k.addr in users
      requires u.dataSize == users[k.addr].dataSize && u.names == users[k.addr].names
      requires allocSize - TlvSize(users[k.addr]) + TlvSize(u) <= maxAlloc
      ensures Accounted(header, maxAlloc, controls, users[k.addr := u], allocSize - TlvSize(users[k.addr]) + TlvSize(u))
    {
      var users' := users[k.addr := u];
      var a, b := Around(controls, k);
      assert users' - {k.addr} == users - {k.addr};
      AccountChange(header, maxAlloc, controls, users, users', allocSize, k, k);
    }
  }

  /** What fits of a name. */
  function Fitting(name: seq<char>): seq<char> { if |name| < NAME_SIZE then name else name[..NAME_SIZE - 1] }

  function Numbered(k: Kctl, numid: int): Kctl
  {
    if 0 <= numid <= UINT_MAX then k.(id := k.id.(numid := numid)) else k
  }

  /** The lookup before an addition: the control in the way, or nothing is. */
  ghost predicate Looked(controls: seq<Kctl>, k: Kctl, victim: Option<Kctl>) {
    && (victim.Some? ==> victim.value in controls && Hit(victim.value, k.id))
    && (k.id.index <= UINT_MAX - k.count && victim.None? ==> forall x | x in controls :: !Hit(x, k.id))
  }

  /** What the checks of an addition answer, given whether the id is taken. */
  function Refusal(k: Kctl, mode: AddMode, taken: bool): int {
    if k.id.index > UINT_MAX - k.count then -EINVAL
    else if !taken && mode.Replace? then -EINVAL
    else if taken && mode.Exclusive? then -EBUSY
    else 0
  }

  function Left(controls: seq<Kctl>, victim: Option<Kctl>): seq<Kctl> {
    match victim case None => controls case Some(v) => Without(controls, v.addr)
  }

  function Lost(header: nat, victim: Option<Kctl>, users: map<nat, UserElem>): nat {
    match victim case None => 0 case Some(v) => BytesOf(header, v, users)
  }

  function Address(victim: Option<Kctl>): set<nat> {
    match victim case None => {} case Some(v) => {v.addr}
  }

  // ---------------------------------------------------------------- what user space describes

  const MAX_NAMES := 64 * 1024
  const MAX_TLV := 128 * 1024

  /** A buffer copied from user space, or the error that came instead. */
  datatype UserCopy<T> = Copied(data: seq<T>) | Failed(err: int)
  {
    predicate Fits(length: nat) { match this case Copied(d) => |d| == length case Failed(e) => e < 0 }
  }

  const BOOLEAN := 1
  const INTEGER := 2
  const ENUMERATED := 3
  const BYTES := 4
  const IEC958 := 5
  const INTEGER64 := 6

  function MaxValues(kind: int): nat {
    if kind == BYTES then 512 else if kind == IEC958 then 1 else if kind == INTEGER64 then 64 else 128
  }

  /** Bytes of one value on a 64-bit machine. */
  function ValueSize(kind: int): nat {
    if kind == ENUMERATED then 4 else if kind == BYTES then 1 else if kind == IEC958 then 176 else 8
  }

  datatype ElemInfo = ElemInfo(kind: int, count: nat, owner: nat, items: nat, namesLength: nat)
  {
    function Elements(): (n: nat)
      ensures 1 <= n
    {
      if owner == 0 then 1 else owner
    }

    function Error(): int {
      if Elements() > MAX_CONTROL_COUNT then -EINVAL
      else if kind < BOOLEAN || kind > INTEGER64 then -EINVAL
      else if kind == ENUMERATED && items == 0 then -EINVAL
      else if count > MaxValues(kind) then -EINVAL
      else if count < 1 then -EINVAL
      else 0
    }
  }

  /** The names of an enumerated control are not too long, and begin with a proper name for each item. */
  ghost predicate NamesInOrder(info: ElemInfo, names: UserCopy<char>) {
    info.kind == ENUMERATED ==>
      && info.namesLength <= MAX_NAMES && names.Copied?
      && exists all: seq<seq<char>> :: |all| == info.items && HoldsNames(names.data, all)
  }

  predicate NameOk(id: ElemId) { |id.name| != 0 && |id.name| < NAME_SIZE }

  /**
    A description is accepted exactly if it asks for at most 1028 elements of a known type, an enumerated one with
    items, and for values that fit their part of an element's value: 1024 bytes for the types of a machine word,
    one record for IEC958, and 512 bytes for the others.
   */
  lemma AcceptedIff(info: ElemInfo)
    ensures info.Elements() == if info.owner == 0 then 1 else info.owner
    ensures info.Error() == 0 || info.Error() == -EINVAL
    ensures info.Error() == 0 <==>
              && info.owner <= 1028 && 1 <= info.kind <= 6 && (info.kind == ENUMERATED ==> 0 < info.items)
              && 0 < info.count
              && var room := if info.kind in {BOOLEAN, INTEGER} then 1024
                             else if info.kind == IEC958 then ValueSize(IEC958) else 512;
                 ValueSize(info.kind) * info.count <= room
  {
  }

  /** A name can be given to a control exactly if there is one, and storing it would not cut it. */
  lemma NameOkIff(id: ElemId)
    ensures NameOk(id) <==> id.name != [] && Fitting(id.name) == id.name
    ensures Fitting(id.name) <= id.name && |Fitting(id.name)| == if |id.name| < 44 then |id.name| else 43
  {
  }

  function NewKctl(id: ElemId, addr: nat, info: ElemInfo, replace: bool): Kctl {
    Kctl(addr, if replace then id.(numid := 0) else id, info.Elements())
  }

  /** The user data is what the description asks for. */
  predicate Holds(u: UserElem, info: ElemInfo) {
    && u.dataSize == ValueSize(info.kind) * info.count && u.tlv.None?
    && if info.kind == ENUMERATED
       then u.names.Some? && |u.names.value| == info.namesLength && Parses(u.names.value, info.items)
       else u.names.None?
  }

  /** A control that goes takes at least its header along. */
  lemma LostBytes(header: nat, victim: Option<Kctl>, users: map<nat, UserElem>)
    requires victim.Some? && victim.value.addr in users
    ensures Lost(header, victim, users) >= header
  {
  }

  /**
    A failed replacement does lose bytes: with an oversized element count the old control is gone
    although the call is refused.
   */
  method ReplaceLoses(card: Card, id: ElemId, addr: nat) returns (err: int)
    requires card.Inv() && card.header > 0 && !Live(card.controls, addr) && card.Destroys(id, true, false)
    modifies card
    ensures err == -EINVAL && card.allocSize < old(card.allocSize)
  {
    var info := ElemInfo(INTEGER, 1, MAX_CONTROL_COUNT + 1, 0, 0);
    assert info.Error() == -EINVAL;
    ghost var had, victim := card.users, None;
    err, victim := card.ElemAdd(id, addr, info, true, false, false, Copied([]));
    LostBytes(card.header, victim, had);
  }

  /** Any control that is found can be renamed so that no id without numid finds it any more. */
  method RenameHides(card: Card, src: ElemId) returns (err: int, ghost k: Kctl)
    requires card.Inv() && card.Found(src).Some?
    modifies card
    ensures card.Inv() && err == 0 && k in card.controls && forall id :: !Matches(k, id)
  {
    ghost var was, which := card.controls, None;
    err, which := card.RenameId(src, src.(index := UINT_MAX));
    k := which.value.(id := src.(index := UINT_MAX, numid := which.value.id.numid));
    var a, b := Around(was, which.value);
    assert (a + [k] + b)[|a|] == k;
    FindableIff(k);
  }

  // ---------------------------------------------------------------- what keeps ids apart

  /** The lookup of the first element is enough for a control of one element that brings no numid. */
  lemma CheckSuffices(controls: seq<Kctl>, k: Kctl, victim: Option<Kctl>)
    requires Looked(controls, k, victim) && IdsApart(controls) && Identified(controls)
    requires k.id.numid == 0 && k.count == 1 && k.id.index < UINT_MAX
    ensures NoneShared(Left(controls, victim), k)
  {
    assert k.Elem(0) == k.id;
    if victim.Some? {
      var a, b := Around(controls, victim.value);
      WithoutMembers(controls, victim.value.addr);
    }
    forall x, e: nat | x in Left(controls, victim) && e < k.count ensures !Matches(x, k.Elem(e)) {
      assert e == 0 && !Hit(x, k.id);
    }
  }

  /** With at most one live control there is always a hole. */
  lemma SomeHole(controls: seq<Kctl>, count: nat)
    requires InRange(controls) && |controls| <= 1 && 1 <= count <= MAX_CONTROL_COUNT
    ensures !NoHole(controls, count)
  {
    var l := if |controls| == 0 || controls[0].id.numid > count then 0 else controls[0].Last();
    assert |controls| == 1 ==> controls[0] in controls;
    assert Feasible(controls, l, count);
  }

  /** Two controls of the same name whose elements are next to each other or the same. */
  predicate Namesakes(x: Kctl, k: Kctl) {
    && x.Sized() && k.Sized() && x.addr != k.addr && x.count == 1 && x.id.numid == 0
    && k.id == x.id.(index := k.id.index, numid := k.id.numid)
    && x.id.index < UINT_MAX && k.id.index <= UINT_MAX - k.count && k.id.index <= x.id.index < k.id.index + k.count
  }

  /** Adds the first of two namesakes to an empty card. */
  method AddFirst(card: Card, x: Kctl, k: Kctl)
    requires card.Inv() && card.controls == [] && Namesakes(x, k)
    modifies card
    ensures card.Inv() && |card.controls| == 1 && card.controls[0] == x.(id := card.controls[0].id)
    ensures card.controls[0].id == x.id.(numid := card.controls[0].id.numid) && !Live(card.controls, k.addr)
  {
    assert card.users - {x.addr} == card.users;
    SomeHole([], 1);
    ghost var victim;
    var err;
    err, victim := card.AddReplace(x, Exclusive);
  }

  /** Adds the second; nothing of it is found, so it is let in, and an id belongs to both. */
  method AddTwin(card: Card, k: Kctl, id: ElemId) returns (err: int)
    requires card.Inv() && |card.controls| == 1 && k.Sized() && !Live(card.controls, k.addr)
    requires k.id.index <= UINT_MAX - k.count && !Hit(card.controls[0], k.id)
    requires Matches(card.controls[0], id) && Matches(k, id)
    modifies card
    ensures card.Inv() && err == 0 && !IdsApart(card.controls)
  {
    LookupExact(card.controls, card.numids, card.hash, k.id);
    assert card.users - {k.addr} == card.users;
    SomeHole(card.controls, k.count);
    ghost var x, victim := card.controls[0], None;
    err, victim := card.AddReplace(k, Exclusive);
    assert x in card.controls && Matches(card.controls[1], id) && card.controls[1] in card.controls;
  }

  /** A numid that no control has hides a control of the same id. */
  method TwinByNumid(card: Card, x: Kctl, k: Kctl) returns (err: int)
    requires card.Inv() && card.controls == [] && Namesakes(x, k) && k.count == 1 && k.id.numid == UINT_MAX
    modifies card
    ensures card.Inv() && err == 0 && !IdsApart(card.controls)
  {
    AddFirst(card, x, k);
    assert card.controls[0] in card.controls;
    err := AddTwin(card, k, k.id);
  }

  /** A control of two elements is added beside a live one that has the second of them. */
  method TwinByCount(card: Card, x: Kctl, k: Kctl) returns (err: int)
    requires card.Inv() && card.controls == [] && Namesakes(x, k) && k.id.numid == 0
    requires k.count == 2 && x.id.index == k.id.index + 1
    modifies card
    ensures card.Inv() && err == 0 && !IdsApart(card.controls)
  {
    AddFirst(card, x, k);
    err := AddTwin(card, k, x.id);
  }

  // ---------------------------------------------------------------- runs

  /** A request to the card, with what its environment answers. */
  datatype Request =
    | AddControl(k: Kctl, mode: AddMode)
    | RemoveControl(id: ElemId)
    | RenameControl(src: ElemId, dst: ElemId)
    | RenameTo(id: ElemId, name: seq<char>)
    | AddUserControl(id: ElemId, addr: nat, info: ElemInfo, replace: bool, held: bool, noMem: bool,
                     names: UserCopy<char>, copyOut: bool)
    | RemoveUserControl(id: ElemId, held: bool)
    | WriteTlv(id: ElemId, size: nat, buf: UserCopy<nat>)

  /** A request that can come: a new control lives at an address that is not in use, and buffers have their size. */
  ghost predicate Possible(card: Card, q: Request)
    reads card
  {
    match q
    case AddControl(k, _) => k.Sized() && !Live(card.controls, k.addr)
    case AddUserControl(_, addr, info, _, _, _, names, _) => !Live(card.controls, addr) && names.Fits(info.namesLength)
    case WriteTlv(id, size, buf) =>
      card.Found(id).Some? && card.Found(id).value.addr in card.users && buf.Fits(size)
    case _ => true
  }

  /** The search for numids can fail: there are many controls, or no hole. */
  ghost predicate Crowded(controls: seq<Kctl>, count: nat) { MAX_SEARCH / 2 <= |controls| || NoHole(controls, count) }

  /**
    Serves one request. A control is found, or the answer says that there is none; what is removed or renamed
    is what was found, and what is added is listed last.
   */
  method Serve(card: Card, q: Request) returns (r: int)
    requires card.Inv()
    modifies card
    ensures card.Inv()
    ensures !old(Possible(card, q)) ==> unchanged(card)
    ensures q.RemoveControl? ==>
              && r == (if old(card.Found(q.id)).Some? then 0 else -ENOENT)
              && card.controls == Left(old(card.controls), old(card.Found(q.id)))
    ensures q.RenameControl? || q.RenameTo? ==>
              var found := old(card.Found(if q.RenameTo? then q.id else q.src));
              && r == (if found.Some? then 0 else -ENOENT)
              && card.controls == if found.None? then old(card.controls)
                                  else Replaced(old(card.controls), found.value.(id := NewId(q, found.value.id)))
    ensures q.RemoveUserControl? ==>
              && (r == 0 <==> old(card.Removable(q.id, q.held)))
              && card.controls == Left(old(card.controls), if r == 0 then old(card.Found(q.id)) else None)
    ensures q.AddControl? && old(Possible(card, q)) ==>
              var taken := old(card.InTheWay(q.k)).Some?;
              && (r == 0 ==> Refusal(q.k, q.mode, taken) == 0 && |card.controls| > 0
                             && card.controls[|card.controls| - 1].addr == q.k.addr)
              && (Refusal(q.k, q.mode, taken) != 0 ==> r == Refusal(q.k, q.mode, taken) && unchanged(card))
              && (Refusal(q.k, q.mode, taken) == 0 ==> r == 0 || (r == -ENOMEM && Crowded(card.controls, q.k.count)))
    ensures q.AddUserControl? && r == 0 ==>
              |card.controls| > 0 && card.controls[|card.controls| - 1].addr == q.addr
    ensures q.AddUserControl? && !q.replace && old(Possible(card, q))
            && q.info.Error() == 0 && !q.noMem && NamesInOrder(q.info, q.names) && q.copyOut
            && old(card.Opens(q.id, q.info, false, q.held)) && old(card.Affordable(q.info, card.allocSize)) ==>
              r == 0 || (r == -ENOMEM && Crowded(card.controls, q.info.Elements()))
    ensures q.WriteTlv? && old(Possible(card, q)) ==>
              var addr := old(card.Found(q.id)).value.addr;
              && addr in card.users
              && (r >= 0 ==> q.buf.Copied? && TlvBytes(card.users[addr]) == q.buf.data)
              && (r >= 0 <==> q.size <= MAX_TLV && q.buf.Copied?
                              && old(card.allocSize) + q.size <= card.maxAlloc + TlvSize(old(card.users)[addr]))
  {
    r := -EINVAL;
    ghost var victim;
    match q {
      case AddControl(k, mode) =>
        if k.Sized() && !Live(card.controls, k.addr) {
          assert card.users - {k.addr} == card.users;
          r, victim := card.AddReplace(k, mode);
          if r != 0 { card.NotPending(k); }
        }
      case RemoveControl(id) => r, victim := card.RemoveId(id);
      case RenameControl(src, dst) => r, victim := card.RenameId(src, dst);
      case RenameTo(id, name) =>
        r := -ENOENT;
        var k := card.FindId(id);
        if k.Some? {
          card.Rename(k.value, name);
          r := 0;
        }
      case AddUserControl(id, addr, info, replace, held, noMem, names, copyOut) =>
        if !Live(card.controls, addr) && names.Fits(info.namesLength) {
          r, victim := card.ElemAddUser(id, addr, info, replace, held, noMem, names, copyOut);
        }
      case RemoveUserControl(id, held) => r, victim := card.RemoveUser(id, held);
      case WriteTlv(id, size, buf) =>
        var k := card.FindId(id);
        if k.Some? && k.value.addr in card.users && buf.Fits(size) {
          r := card.ReplaceTlv(k.value, size, buf);
        }
    }
  }

  /** The id that a renaming gives. */
  function NewId(q: Request, was: ElemId): ElemId
    requires q.RenameControl? || q.RenameTo?
  {
    if q.RenameTo? then was.(name := Fitting(q.name)) else q.dst.(numid := was.numid)
  }

  /** After any run the tables still agree with the list and every byte is accounted for. */
  method Run(requests: seq<Request>, header: nat, maxAlloc: nat, id: ElemId) returns (card: Card, r: Option<Kctl>)
    ensures fresh(card) && card.Inv() && card.allocSize == Bytes(header, card.controls, card.users) <= maxAlloc
    ensures r.Some? ==> r.value in card.controls && Hit(r.value, id)
    ensures r.None? ==> forall k | k in card.controls :: !Hit(k, id)
  {
    card := new Card(header, maxAlloc);
    var i := 0;
    while i < |requests|
      invariant 0 <= i <= |requests| && fresh(card) && card.Inv() && card.header == header && card.maxAlloc == maxAlloc
    {
      var x := Serve(card, requests[i]);
      i := i + 1;
    }
    r := card.FindId(id);
  }
}
