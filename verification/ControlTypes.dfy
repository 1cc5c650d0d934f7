/** Control elements and their identifiers (linux/sound/core/control.c). */
module ControlTypes {
  import opened Words

  const MAX_CONTROL_COUNT := 1028

  /** An element id; the name is the text that a bounded string comparison sees. */
  datatype ElemId = ElemId(numid: u32, iface: u32, device: u32, subdevice: u32, name: seq<char>, index: u32)

  /** A control, identified by its address, with `count` consecutive elements. */
  datatype Kctl = Kctl(addr: nat, id: ElemId, count: nat)
  {
    predicate Sized() { 1 <= count <= MAX_CONTROL_COUNT }

    /** The id of the e-th element; its index wraps around like any 32-bit sum. */
    function Elem(e: nat): ElemId { id.(index := Wrap32(id.index + e)) }

    /** The numid of its last element. */
    function Last(): int { id.numid + count - 1 }

    predicate Covers(n: int) { id.numid <= n <= Last() }
  }

  /** Whether a given id is one of a control's elements. */
  predicate Matches(k: Kctl, id: ElemId) {
    && k.id.iface == id.iface
    && k.id.device == id.device
    && k.id.subdevice == id.subdevice
    && k.id.name == id.name
    && k.id.index <= id.index
    && Wrap32(k.id.index + k.count) > id.index
  }

  const MULTIPLIER := 37

  function HashStep(h: nat, x: nat): nat { (MULTIPLIER * h + x) % 0x1_0000_0000_0000_0000 }

  function HashName(h: nat, name: seq<char>): nat
    decreases name
  {
    if name == [] then h else HashName(HashStep(h, name[0] as nat), name[1..])
  }

  /** Hash of an id, without its numid. */
  function HashId(id: ElemId): nat {
    HashStep(HashName(HashStep(HashStep(id.iface, id.device), id.subdevice), id.name), id.index) % 0x8000_0000_0000_0000
  }

  /** A matching id has the hash of some element of the control. */
  lemma MatchIsElement(k: Kctl, id: ElemId)
    requires k.Sized() && Matches(k, id)
    ensures 0 <= id.index - k.id.index < k.count
    ensures HashId(k.Elem(id.index - k.id.index)) == HashId(id)
  {
    var e := id.index - k.id.index;
    assert k.Elem(e).index == id.index;
  }
}
