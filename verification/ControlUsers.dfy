/**
  Byte accounting of user-space controls, and the names of their enumerated items
  (linux/sound/core/control.c).
 */
module ControlUsers {
  import opened Options
  import opened ControlTypes

  /** Private data of a user control: the value size, the TLV bytes and the enum names, if any. */
  datatype UserElem = UserElem(dataSize: nat, tlv: Option<seq<nat>>, names: Option<seq<char>>)

  function TlvSize(u: UserElem): nat { match u.tlv case None => 0 case Some(b) => |b| }

  function TlvBytes(u: UserElem): seq<nat> { match u.tlv case None => [] case Some(b) => b }

  function NamesSize(u: UserElem): nat { match u.names case None => 0 case Some(b) => |b| }

  function ElemSize(header: nat, dataSize: nat, count: nat): nat { header + dataSize * count }

  function UserSize(header: nat, u: UserElem, count: nat): nat {
    ElemSize(header, u.dataSize, count) + TlvSize(u) + NamesSize(u)
  }

  /** Bytes of the user data of one control; driver controls have none. */
  function BytesOf(header: nat, k: Kctl, users: map<nat, UserElem>): nat {
    if k.addr in users then UserSize(header, users[k.addr], k.count) else 0
  }

  /** Bytes of the user data of all live controls. */
  function Bytes(header: nat, controls: seq<Kctl>, users: map<nat, UserElem>): nat {
    if controls == [] then 0 else BytesOf(header, controls[0], users) + Bytes(header, controls[1..], users)
  }

  lemma {:induction false} BytesSplit(header: nat, a: seq<Kctl>, b: seq<Kctl>, users: map<nat, UserElem>)
    ensures Bytes(header, a + b, users) == Bytes(header, a, users) + Bytes(header, b, users)
  {
    if a == [] {
      assert a + b == b;
    } else {
      assert (a + b)[1..] == a[1..] + b;
      BytesSplit(header, a[1..], b, users);
    }
  }

  /** Only the user data of the listed addresses is counted. */
  lemma {:induction false} BytesElsewhere(header: nat, controls: seq<Kctl>, users: map<nat, UserElem>,
                                          others: map<nat, UserElem>)
    requires forall k | k in controls :: k.addr in users <==> k.addr in others
    requires forall k | k in controls && k.addr in users :: users[k.addr] == others[k.addr]
    ensures Bytes(header, controls, users) == Bytes(header, controls, others)
  {
    if controls != [] {
      assert controls[0] in controls;
      BytesElsewhere(header, controls[1..], users, others);
    }
  }

  /** Changing one control, or its user data, changes the sum by the difference of that control's bytes. */
  lemma BytesAt(header: nat, a: seq<Kctl>, k: Kctl, k': Kctl, b: seq<Kctl>, users: map<nat, UserElem>,
                others: map<nat, UserElem>)
    requires forall x | x in a + b :: x.addr in users <==> x.addr in others
    requires forall x | x in a + b && x.addr in users :: users[x.addr] == others[x.addr]
    ensures Bytes(header, a + [k'] + b, others)
        == Bytes(header, a + [k] + b, users) - BytesOf(header, k, users) + BytesOf(header, k', others)
    ensures Bytes(header, a + b, others) == Bytes(header, a + [k] + b, users) - BytesOf(header, k, users)
  {
    BytesElsewhere(header, a, users, others);
    BytesElsewhere(header, b, users, others);
    BytesSplit(header, a + [k'], b, others);
    BytesSplit(header, a, [k'], others);
    BytesSplit(header, a + [k], b, users);
    BytesSplit(header, a, [k], users);
    BytesSplit(header, a, b, others);
  }

  // ---------------------------------------------------------------- names of enumerated items

  const NUL := '\0'
  const MAX_NAME := 64

  /** Length of the text before the first NUL, or of the whole buffer. */
  function NameLen(s: seq<char>): (n: nat)
    ensures n <= |s| && (n < |s| ==> s[n] == NUL) && NUL !in s[..n]
  {
    if s == [] || s[0] == NUL then 0
    else
      assert s[..1 + NameLen(s[1..])] == [s[0]] + s[1..][..NameLen(s[1..])];
      1 + NameLen(s[1..])
  }

  predicate Proper(n: seq<char>) { 1 <= |n| < MAX_NAME && NUL !in n }

  /** The names one after another, each ended by a NUL. */
  function Join(names: seq<seq<char>>): seq<char> {
    if names == [] then [] else names[0] + [NUL] + Join(names[1..])
  }

  /** The buffer starts with the given names. */
  ghost predicate HoldsNames(buf: seq<char>, names: seq<seq<char>>) {
    (forall n | n in names :: Proper(n)) && Join(names) <= buf
  }

  /** What the validation loop accepts. */
  predicate Parses(s: seq<char>, items: nat) {
    items == 0 || (var n := NameLen(s); n != 0 && n < MAX_NAME && n != |s| && Parses(s[n + 1..], items - 1))
  }

  lemma NameLenOf(s: seq<char>, n: seq<char>, rest: seq<char>)
    requires s == n + [NUL] + rest && NUL !in n
    ensures NameLen(s) == |n| && s[|n| + 1..] == rest
  {
    var l := NameLen(s);
    assert s[|n|] == NUL;
    assert forall i | 0 <= i < |n| :: s[i] == n[i];
    assert forall i | 0 <= i < l :: s[i] == s[..l][i];
  }

  lemma {:induction false} ParsedNames(s: seq<char>, items: nat) returns (names: seq<seq<char>>)
    requires Parses(s, items)
    ensures |names| == items && HoldsNames(s, names)
  {
    if items == 0 {
      names := [];
    } else {
      var n := NameLen(s);
      var rest := ParsedNames(s[n + 1..], items - 1);
      names := [s[..n]] + rest;
      assert names[1..] == rest;
      assert s == s[..n] + [NUL] + s[n + 1..];
    }
  }

  lemma {:induction false} NamesParse(s: seq<char>, names: seq<seq<char>>)
    requires HoldsNames(s, names)
    ensures Parses(s, |names|)
  {
    if names != [] {
      var rest := s[|names[0]| + 1..];
      assert names[0] in names;
      Prefixed(s, names);
      NameLenOf(s, names[0], rest);
      NamesParse(rest, names[1..]);
    }
  }

  lemma Prefixed(s: seq<char>, names: seq<seq<char>>)
    requires names != [] && Join(names) <= s
    ensures |names[0]| < |s|
    ensures s == names[0] + [NUL] + s[|names[0]| + 1..] && Join(names[1..]) <= s[|names[0]| + 1..]
  {
    assert Join(names) == names[0] + [NUL] + Join(names[1..]);
    assert s[..|Join(names)|] == Join(names);
    assert s[|names[0]| + 1..|Join(names)|] == Join(names)[|names[0]| + 1..];
  }

  /** The loop accepts exactly the buffers that start with enough proper names. */
  lemma ParsesIff(s: seq<char>, items: nat)
    ensures Parses(s, items) <==> exists names: seq<seq<char>> :: |names| == items && HoldsNames(s, names)
  {
    if Parses(s, items) { var names := ParsedNames(s, items); }
    forall names: seq<seq<char>> | |names| == items && HoldsNames(s, names) ensures Parses(s, items) {
      NamesParse(s, names);
    }
  }

  /** Validates the names of a new enumerated control. */
  method CheckNames(buf: seq<char>, items: nat) returns (ok: bool)
    ensures ok <==> Parses(buf, items)
  {
    var p, i := buf, 0;
    while i < items
      invariant 0 <= i <= items
      invariant Parses(buf, items) <==> Parses(p, items - i)
    {
      var n := NameLen(p);
      if n == 0 || n >= MAX_NAME || n == |p| { return false; }
      p := p[n + 1..];
      i := i + 1;
    }
    ok := true;
  }

  /** Reads an item's name back; every step finds its NUL inside the buffer. */
  method ItemName(buf: seq<char>, items: nat, item: nat, ghost names: seq<seq<char>>) returns (name: seq<char>)
    requires 1 <= items == |names| && HoldsNames(buf, names)
    ensures name == names[if item < items then item else items - 1]
  {
    var p, i := buf, if item < items - 1 then item else items - 1;
    ghost var at := 0;
    while i > 0
      invariant 0 <= i && at + i == if item < items - 1 then item else items - 1
      invariant Join(names[at..]) <= p
    {
      Prefixed(p, names[at..]);
      assert names[at..][0] in names;
      NameLenOf(p, names[at], p[|names[at]| + 1..]);
      assert NameLen(p) < |p| && names[at..][1..] == names[at + 1..];
      p := p[NameLen(p) + 1..];
      i, at := i - 1, at + 1;
    }
    Prefixed(p, names[at..]);
    assert names[at..][0] in names;
    NameLenOf(p, names[at], p[|names[at]| + 1..]);
    name := p[..NameLen(p)];
  }
}
