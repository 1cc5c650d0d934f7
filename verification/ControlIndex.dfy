/**
  The lookup tables of a card: the numid table, and the hash table by id with its sticky
  collision flag (add_hash_entries and remove_hash_entries in linux/sound/core/control.c).
 */
module ControlIndex {
  import opened Options
  import opened ControlTypes
  import opened ControlNumid

  // ---------------------------------------------------------------- table updates

  /** Stores a control under its first n numids. */
  function StoreNumids(t: map<int, Kctl>, k: Kctl, n: nat): map<int, Kctl> {
    if n == 0 then t else StoreNumids(t, k, n - 1)[k.id.numid + n - 1 := k]
  }

  /** Erases the first n numids of a control. */
  function EraseNumids(t: map<int, Kctl>, k: Kctl, n: nat): map<int, Kctl> {
    if n == 0 then t else EraseNumids(t, k, n - 1) - {k.id.numid + n - 1}
  }

  datatype HashTable = HashTable(entries: map<nat, Kctl>, collision: bool)

  /** Inserts one element; an occupied slot is left alone and noted. */
  function InsertElem(t: HashTable, k: Kctl, e: nat): HashTable {
    var h := HashId(k.Elem(e));
    if h in t.entries then t.(collision := true) else t.(entries := t.entries[h := k])
  }

  function InsertElems(t: HashTable, k: Kctl, n: nat): HashTable {
    if n == 0 then t else InsertElem(InsertElems(t, k, n - 1), k, n - 1)
  }

  /** Erases one element's slot, if it holds the control itself or one that matches the element. */
  function EraseElem(t: HashTable, k: Kctl, e: nat): HashTable {
    var h := HashId(k.Elem(e));
    if h in t.entries && (t.entries[h].addr == k.addr || Matches(t.entries[h], k.Elem(e)))
    then t.(entries := t.entries - {h}) else t
  }

  function EraseElems(t: HashTable, k: Kctl, n: nat): HashTable {
    if n == 0 then t else EraseElem(EraseElems(t, k, n - 1), k, n - 1)
  }

  // ---------------------------------------------------------------- what the tables promise

  /** Addresses identify controls. */
  ghost predicate Identified(controls: seq<Kctl>) {
    forall i, j | 0 <= i < |controls| && 0 <= j < |controls| && controls[i].addr == controls[j].addr :: i == j
  }

  /** The numid table is the range scan. */
  ghost predicate NumidsAgree(controls: seq<Kctl>, t: map<int, Kctl>) {
    && (forall n | n in t :: t[n] in controls && t[n].Covers(n))
    && (forall k, n | k in controls && k.Covers(n) :: n in t && t[n] == k)
  }

  /** No hash entry outlives its control, and each is filed under one of its elements. */
  ghost predicate EntriesLive(controls: seq<Kctl>, t: HashTable) {
    forall h | h in t.entries :: t.entries[h] in controls && HasHash(t.entries[h], h)
  }

  ghost predicate HasHash(k: Kctl, h: nat) { exists e: nat :: e < k.count && HashId(k.Elem(e)) == h }

  /** Without the collision flag every element of every control is filed. */
  ghost predicate AllFiled(controls: seq<Kctl>, t: HashTable) {
    !t.collision ==> forall k | k in controls :: Filed(k, k.count, t)
  }

  ghost predicate Filed(k: Kctl, n: nat, t: HashTable) {
    forall e: nat | e < n :: HashId(k.Elem(e)) in t.entries && t.entries[HashId(k.Elem(e))] == k
  }

  // ---------------------------------------------------------------- storing and erasing numids

  lemma {:induction false} StoredNumids(t: map<int, Kctl>, k: Kctl, n: nat)
    ensures forall m :: m in StoreNumids(t, k, n) <==> m in t || k.id.numid <= m < k.id.numid + n
    ensures forall m | m in StoreNumids(t, k, n) ::
              StoreNumids(t, k, n)[m] == if k.id.numid <= m < k.id.numid + n then k else t[m]
  {
    if n > 0 { StoredNumids(t, k, n - 1); }
  }

  lemma {:induction false} ErasedNumids(t: map<int, Kctl>, k: Kctl, n: nat)
    ensures forall m :: m in EraseNumids(t, k, n) <==> m in t && !(k.id.numid <= m < k.id.numid + n)
    ensures forall m | m in EraseNumids(t, k, n) :: EraseNumids(t, k, n)[m] == t[m]
  {
    if n > 0 { ErasedNumids(t, k, n - 1); }
  }

  lemma StoreKeepsNumids(controls: seq<Kctl>, t: map<int, Kctl>, k: Kctl)
    requires NumidsAgree(controls, t) && Disjoint(controls + [k])
    ensures NumidsAgree(controls + [k], StoreNumids(t, k, k.count))
  {
    var all, t' := controls + [k], StoreNumids(t, k, k.count);
    StoredNumids(t, k, k.count);
    assert all[|controls|] == k;
    forall n | n in t' ensures t'[n] in all && t'[n].Covers(n) {
    }
    forall x, n | x in all && x.Covers(n) ensures n in t' && t'[n] == x {
      assert k in all;
    }
  }

  lemma EraseKeepsNumids(controls: seq<Kctl>, t: map<int, Kctl>, i: nat)
    requires i < |controls| && NumidsAgree(controls, t) && Disjoint(controls) && Identified(controls)
    ensures NumidsAgree(controls[..i] + controls[i + 1..], EraseNumids(t, controls[i], controls[i].count))
  {
    var k, rest := controls[i], controls[..i] + controls[i + 1..];
    var t' := EraseNumids(t, k, k.count);
    ErasedNumids(t, k, k.count);
    forall n | n in t' ensures t'[n] in rest && t'[n].Covers(n) {
      var j :| 0 <= j < |controls| && controls[j] == t[n];
      assert j != i;
      InRest(controls, i, j);
    }
    forall x, n | x in rest && x.Covers(n) ensures n in t' && t'[n] == x {
      var j := RestIndex(controls, i, x);
      assert x != k && x in controls && k in controls;
    }
  }

  lemma InRest(controls: seq<Kctl>, i: nat, j: nat)
    requires i < |controls| && j < |controls| && i != j
    ensures controls[j] in controls[..i] + controls[i + 1..]
  {
    var rest := controls[..i] + controls[i + 1..];
    assert rest[if j < i then j else j - 1] == controls[j];
  }

  lemma RestIndex(controls: seq<Kctl>, i: nat, x: Kctl) returns (j: nat)
    requires i < |controls| && x in controls[..i] + controls[i + 1..]
    ensures j < |controls| && j != i && controls[j] == x
  {
    var rest := controls[..i] + controls[i + 1..];
    var r :| 0 <= r < |rest| && rest[r] == x;
    j := if r < i then r else r + 1;
  }

  // ---------------------------------------------------------------- filing and erasing elements

  /** Insertion leaves present entries alone; without a collision the new elements are all filed. */
  lemma {:induction false} Inserted(t: HashTable, k: Kctl, n: nat)
    ensures var t' := InsertElems(t, k, n);
            && (t.collision ==> t'.collision)
            && (forall h | h in t.entries :: h in t'.entries && t'.entries[h] == t.entries[h])
            && (forall h | h in t'.entries && h !in t.entries ::
                  t'.entries[h] == k && exists e: nat :: e < n && HashId(k.Elem(e)) == h)
            && (!t'.collision ==> Filed(k, n, t'))
  {
    hide HashId;
    if n > 0 {
      Inserted(t, k, n - 1);
      var t', h := InsertElems(t, k, n - 1), HashId(k.Elem(n - 1));
      assert n - 1 < n;
    }
  }

  lemma InsertKeepsHash(controls: seq<Kctl>, t: HashTable, k: Kctl)
    requires EntriesLive(controls, t) && AllFiled(controls, t)
    ensures EntriesLive(controls + [k], InsertElems(t, k, k.count))
        && AllFiled(controls + [k], InsertElems(t, k, k.count))
  {
    var all, t' := controls + [k], InsertElems(t, k, k.count);
    Inserted(t, k, k.count);
    assert all[|controls|] == k;
    forall h | h in t'.entries ensures t'.entries[h] in all && HasHash(t'.entries[h], h) {
    }
    if !t'.collision {
      forall x | x in all ensures Filed(x, x.count, t') {
        if x in controls { assert Filed(x, x.count, t); }
      }
    }
  }

  /** Erasure removes slots of the control's own elements only, and among them all that hold it. */
  lemma {:induction false} Erased(t: HashTable, k: Kctl, n: nat)
    ensures var t' := EraseElems(t, k, n);
            && t'.collision == t.collision
            && (forall h | h in t'.entries :: h in t.entries && t'.entries[h] == t.entries[h])
            && (forall h | h in t.entries && h !in t'.entries :: exists e: nat :: e < n && HashId(k.Elem(e)) == h)
            && (forall h, e: nat | h in t'.entries && e < n && HashId(k.Elem(e)) == h :: t'.entries[h].addr != k.addr)
  {
    if n > 0 { Erased(t, k, n - 1); }
  }

  lemma EraseKeepsHash(controls: seq<Kctl>, t: HashTable, i: nat)
    requires i < |controls| && Identified(controls) && EntriesLive(controls, t) && AllFiled(controls, t)
    ensures EntriesLive(controls[..i] + controls[i + 1..], EraseElems(t, controls[i], controls[i].count))
    ensures AllFiled(controls[..i] + controls[i + 1..], EraseElems(t, controls[i], controls[i].count))
  {
    var k, rest := controls[i], controls[..i] + controls[i + 1..];
    var t' := EraseElems(t, k, k.count);
    Erased(t, k, k.count);
    forall h | h in t'.entries ensures t'.entries[h] in rest && HasHash(t'.entries[h], h) {
      var j :| 0 <= j < |controls| && controls[j] == t.entries[h];
      assert HasHash(t.entries[h], h);
      if j != i { InRest(controls, i, j); }
    }
    if !t'.collision {
      forall x | x in rest ensures Filed(x, x.count, t') {
        var j := RestIndex(controls, i, x);
        FiledSurvives(t, t', k, x);
      }
    }
  }

  /** Another control's slots hold that control, so they are not slots of k's elements. */
  lemma FiledSurvives(t: HashTable, t': HashTable, k: Kctl, x: Kctl)
    requires Filed(k, k.count, t) && Filed(x, x.count, t) && k != x
    requires forall h | h in t'.entries :: h in t.entries && t'.entries[h] == t.entries[h]
    requires forall h | h in t.entries && h !in t'.entries :: exists e: nat :: e < k.count && HashId(k.Elem(e)) == h
    ensures Filed(x, x.count, t')
  {
    forall e: nat | e < x.count ensures HashId(x.Elem(e)) in t'.entries {
      var h := HashId(x.Elem(e));
      assert t.entries[h] == x;
      assert forall f: nat | f < k.count && HashId(k.Elem(f)) == h :: t.entries[h] == k;
    }
  }

  // ---------------------------------------------------------------- lookup

  /** The fast lookup by id: a hit that matches, or nothing if the table can be relied on. */
  function HashFind(t: HashTable, id: ElemId): Option<Kctl> {
    var h := HashId(id);
    if h in t.entries && Matches(t.entries[h], id) then Some(t.entries[h]) else None
  }

  /** Without the collision flag a miss in the table means that no live control matches. */
  lemma MissMeansNone(controls: seq<Kctl>, t: HashTable, id: ElemId)
    requires AllFiled(controls, t) && !t.collision && HashFind(t, id).None?
    requires InRange(controls)
    ensures forall k | k in controls :: !Matches(k, id)
  {
    forall k | k in controls ensures !Matches(k, id) {
      assert Filed(k, k.count, t);
      if Matches(k, id) { MatchIsElement(k, id); }
    }
  }
}
