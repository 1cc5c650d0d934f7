/** Page allocation in chunks, with smaller and smaller ones when memory is short (linux/sound/core/memalloc.c). */
module SgFallback {
  import opened Errno
  import opened Options

  const PAGE_SIZE := 4096

  /** The least whole number of pages, in bytes, that holds n bytes. */
  function PageAlign(n: nat): (r: nat)
    ensures n <= r < n + PAGE_SIZE && r % PAGE_SIZE == 0
  {
    (n + PAGE_SIZE - 1) / PAGE_SIZE * PAGE_SIZE
  }

  lemma AlignMono(a: nat, b: nat)
    requires a <= b
    ensures a <= PageAlign(a) <= PageAlign(b)
  {
  }

  function Shl(n: nat, k: nat): nat { if k == 0 then n else 2 * Shl(n, k - 1) }

  /** The least order k at or above `from` whose block holds n bytes. */
  function OrderFrom(n: nat, from: nat): (k: nat)
    requires from == 0 || Shl(PAGE_SIZE, from - 1) < n
    ensures Shl(PAGE_SIZE, k) >= n && (k == 0 || Shl(PAGE_SIZE, k - 1) < n)
    decreases n - Shl(PAGE_SIZE, from)
  {
    if Shl(PAGE_SIZE, from) >= n then from
    else
      ShlPositive(from);
      OrderFrom(n, from + 1)
  }

  lemma {:induction false} ShlPositive(k: nat)
    ensures PAGE_SIZE <= Shl(PAGE_SIZE, k) < Shl(PAGE_SIZE, k + 1)
    ensures Shl(PAGE_SIZE, k) % PAGE_SIZE == 0
  {
    if k > 0 { ShlPositive(k - 1); }
  }

  function GetOrder(n: nat): nat { OrderFrom(n, 0) }

  /** Half the chunk, rounded up to a power of two of pages. */
  function Smaller(chunk: nat): nat { Shl(PAGE_SIZE, GetOrder(chunk / 2)) }

  /** The next size is the least power of two of pages that holds half the chunk; it is less than the chunk. */
  lemma SmallerShrinks(chunk: nat)
    requires chunk > PAGE_SIZE
    ensures PAGE_SIZE <= Smaller(chunk) < chunk && Smaller(chunk) % PAGE_SIZE == 0
    ensures chunk / 2 <= Smaller(chunk) && exists k :: Smaller(chunk) == Shl(PAGE_SIZE, k)
    ensures forall k: nat | chunk / 2 <= Shl(PAGE_SIZE, k) :: Smaller(chunk) <= Shl(PAGE_SIZE, k)
  {
    var k := GetOrder(chunk / 2);
    ShlPositive(k);
    forall j: nat | chunk / 2 <= Shl(PAGE_SIZE, j) ensures Smaller(chunk) <= Shl(PAGE_SIZE, j) {
      if j < k { ShlGrows(j, k - 1); } else { ShlGrows(k, j); }
    }
  }

  lemma {:induction false} ShlGrows(j: nat, k: nat)
    requires j <= k
    ensures Shl(PAGE_SIZE, j) <= Shl(PAGE_SIZE, k)
  {
    if j < k {
      ShlPositive(k - 1);
      ShlGrows(j, k - 1);
    }
  }

  // ---------------------------------------------------------------- one buffer, as large as possible

  /** The sizes that are tried: each is the half of the one before, rounded up. */
  function Tried(size: nat, k: nat): nat { if k == 0 then size else Smaller(Tried(size, k - 1)) }

  /**
    Allocates a buffer of the given size or of the first smaller one that succeeds. `answers` are the
    results of the single allocations; when they run out, memory is short.
   */
  method AllocFallback(size: nat, answers: seq<int>) returns (err: int, got: nat, k: nat)
    requires forall a | a in answers :: a <= 0
    ensures err == 0 ==>
      k < |answers| && answers[k] == 0 && got == PageAlign(Tried(size, k)) && 0 < got <= PageAlign(size)
    ensures err != 0 && err != -ENOMEM ==>
      err == if Tried(size, k) == 0 then -ENXIO else if k < |answers| then answers[k] else -ENOMEM
    ensures err == -ENOMEM ==> Tried(size, k) <= PAGE_SIZE
    ensures forall j: nat | j < k && j < |answers| :: answers[j] == -ENOMEM
  {
    var s := size;
    k := 0;
    while true
      invariant s == Tried(size, k) && s <= size
      invariant forall j: nat | j < k && j < |answers| :: answers[j] == -ENOMEM
      decreases s
    {
      err := if s == 0 then -ENXIO else if k < |answers| then answers[k] else -ENOMEM;
      if err == 0 {
        AlignMono(s, size);
        return 0, PageAlign(s), k;
      }
      if err != -ENOMEM { return err, 0, k; }
      if s <= PAGE_SIZE { return -ENOMEM, 0, k; }
      SmallerShrinks(s);
      s, k := Smaller(s), k + 1;
    }
  }

  // ---------------------------------------------------------------- many chunks

  /** A run of pages that was handed out, by its first page and its length. */
  datatype Block = Block(base: int, n: nat)

  /** The recorded blocks lie one behind the other, from page `at` up to page `end`. */
  ghost predicate Tiles(pages: seq<int>, npages: seq<nat>, at: nat, blocks: seq<Block>, end: nat)
    decreases |blocks|
  {
    if blocks == [] then at == end
    else
      var b := blocks[0];
      && 0 < b.n && at + b.n <= |pages| == |npages|
      && npages[at] == b.n
      && (forall i | at <= i < at + b.n :: pages[i] == b.base + (i - at))
      && Tiles(pages, npages, at + b.n, blocks[1..], end)
  }

  lemma {:induction false} TilesEnd(pages: seq<int>, npages: seq<nat>, at: nat, blocks: seq<Block>, end: nat)
    requires Tiles(pages, npages, at, blocks, end)
    ensures at <= end && (blocks != [] ==> at < end <= |pages| == |npages|)
    decreases |blocks|
  {
    if blocks != [] { TilesEnd(pages, npages, at + blocks[0].n, blocks[1..], end); }
  }

  /** Recording one more block behind the others. */
  lemma {:induction false} TilesGrow(pages: seq<int>, npages: seq<nat>, pages': seq<int>, npages': seq<nat>,
                                     at: nat, blocks: seq<Block>, end: nat, b: Block)
    requires Tiles(pages, npages, at, blocks, end) && at <= end
    requires 0 < b.n && end + b.n <= |pages'| == |npages'| == |pages| == |npages|
    requires pages'[..end] == pages[..end] && npages'[..end] == npages[..end]
    requires npages'[end] == b.n && forall i | end <= i < end + b.n :: pages'[i] == b.base + (i - end)
    ensures Tiles(pages', npages', at, blocks + [b], end + b.n)
    decreases |blocks|
  {
    if blocks == [] {
      assert Tiles(pages', npages', at + b.n, [], end + b.n);
      assert (blocks + [b])[1..] == [];
    } else {
      var f := blocks[0];
      TilesEnd(pages, npages, at + f.n, blocks[1..], end);
      TilesGrow(pages, npages, pages', npages', at + f.n, blocks[1..], end, b);
      assert (blocks + [b])[1..] == blocks[1..] + [b];
      assert npages'[..end][at] == npages[..end][at];
      forall i | at <= i < at + f.n ensures pages'[i] == f.base + (i - at) {
        assert pages'[..end][i] == pages[..end][i];
      }
    }
  }

  function Total(blocks: seq<Block>): nat { if blocks == [] then 0 else blocks[0].n + Total(blocks[1..]) }

  /** Tiling blocks hold exactly as many pages as they span. */
  lemma {:induction false} TilesTotal(pages: seq<int>, npages: seq<nat>, at: nat, blocks: seq<Block>, end: nat)
    requires Tiles(pages, npages, at, blocks, end)
    ensures at + Total(blocks) == end
    decreases |blocks|
  {
    if blocks != [] { TilesTotal(pages, npages, at + blocks[0].n, blocks[1..], end); }
  }

  /** Every page of the table belongs to the block recorded over it. */
  lemma {:induction false} TilesCover(pages: seq<int>, npages: seq<nat>, at: nat, blocks: seq<Block>, end: nat, i: nat)
    returns (j: nat)
    requires Tiles(pages, npages, at, blocks, end) && at <= i < end
    ensures j < |blocks| && i < |pages| && blocks[j].base <= pages[i] < blocks[j].base + blocks[j].n
    decreases |blocks|
  {
    if i < at + blocks[0].n {
      j := 0;
    } else {
      j := TilesCover(pages, npages, at + blocks[0].n, blocks[1..], end, i);
      j := j + 1;
    }
  }

  /** A scatter/gather buffer, and the blocks that were handed out for it. */
  class SgBuf {
    const pages: array<int>
    const npages: array<nat>
    ghost var blocks: seq<Block>

    constructor (count: nat)
      ensures fresh(pages) && fresh(npages) && pages.Length == npages.Length == count
      ensures blocks == [] && forall i | 0 <= i < count :: npages[i] == 0
    {
      pages := new int[count];
      npages := new nat[count](_ => 0);
      blocks := [];
    }

    /** The first `idx` pages are recorded, and nothing behind them. */
    ghost predicate Recorded(idx: nat)
      reads this, pages, npages
    {
      && idx <= pages.Length == npages.Length
      && Tiles(pages[..], npages[..], 0, blocks, idx)
      && forall i | idx <= i < npages.Length :: npages[i] == 0
    }
  }

  /** The page allocator, by what it has handed out. */
  class PageAllocator {
    ghost var live: multiset<Block>
    ghost var refused: nat // pages asked for when memory was last short

    method Alloc(base: Option<int>, n: nat)
      modifies this
      ensures live == if base.Some? then old(live) + multiset{Block(base.value, n)} else old(live)
      ensures refused == if base.Some? then old(refused) else n
    {
      if base.None? { refused := n; }
      if base.Some? {
        live := live + multiset{Block(base.value, n)};
      }
    }

    /** Only a block that is handed out, with its own size, may be given back. */
    method Free(base: int, n: nat)
      requires Block(base, n) in live
      modifies `live
      ensures live == old(live) - multiset{Block(base, n)}
    {
      live := live - multiset{Block(base, n)};
    }

    /** Writes the pages of a new block into the table. */
    method Record(sg: SgBuf, idx: nat, base: int, n: nat)
      requires sg.Recorded(idx) && 0 < n && idx + n <= sg.pages.Length
      modifies sg, sg.pages, sg.npages
      ensures sg.Recorded(idx + n) && sg.blocks == old(sg.blocks) + [Block(base, n)]
    {
      ghost var pages, npages := sg.pages[..], sg.npages[..];
      sg.npages[idx] := n;
      var k := 0;
      while k < n
        invariant 0 <= k <= n
        invariant sg.pages[..idx] == pages[..idx] && sg.npages[..] == npages[idx := n]
        invariant forall i | idx <= i < idx + k :: sg.pages[i] == base + (i - idx)
        modifies sg.pages
      {
        sg.pages[idx + k] := base + k;
        k := k + 1;
      }
      TilesGrow(pages, npages, sg.pages[..], sg.npages[..], 0, sg.blocks, idx, Block(base, n));
      sg.blocks := sg.blocks + [Block(base, n)];
    }

    method AllocChunk(sg: SgBuf, idx: nat, n: nat, base: Option<int>) returns (ok: bool)
      requires sg.Recorded(idx) && 0 < n && idx + n <= sg.pages.Length
      modifies this, sg, sg.pages, sg.npages
      ensures ok == base.Some?
      ensures !ok ==> live == old(live) && sg.blocks == old(sg.blocks) && sg.Recorded(idx) && refused == n
      ensures ok ==> sg.Recorded(idx + n) && sg.blocks == old(sg.blocks) + [Block(base.value, n)]
                     && live == old(live) + multiset{Block(base.value, n)}
    {
      Alloc(base, n);
      ok := base.Some?;
      if ok { Record(sg, idx, base.value, n); }
    }

    /** Gives every recorded block back, each once and with its own size. */
    method FreeAll(sg: SgBuf, ghost idx: nat, ghost others: multiset<Block>)
      requires sg.Recorded(idx) && live == others + multiset(sg.blocks)
      modifies `live
      ensures live == others
    {
      var i := 0;
      ghost var left := sg.blocks;
      while i < sg.npages.Length
        invariant 0 <= i <= idx && Tiles(sg.pages[..], sg.npages[..], i, left, idx)
        invariant live == others + multiset(left)
        decreases sg.npages.Length - i
      {
        var size := sg.npages[i];
        if size == 0 { break; }
        ghost var b := left[0];
        assert left == [b] + left[1..];
        TilesEnd(sg.pages[..], sg.npages[..], i + b.n, left[1..], idx);
        Free(sg.pages[i], size);
        left := left[1..];
        i := i + size;
      }
    }

    /**
      Fills a table with pages. `bases` are the answers of the single allocations; when they run out,
      memory is short.
     */
    method Fill(sg: SgBuf, bases: seq<Option<int>>) returns (ok: bool, ghost idx: nat)
      requires sg.Recorded(0)
      modifies this, sg, sg.pages, sg.npages
      ensures sg.Recorded(idx) && live == old(live) + multiset(sg.blocks)
      ensures ok ==> idx == sg.pages.Length
      ensures !ok ==> refused == 1
    {
      var size := sg.pages.Length * PAGE_SIZE;
      var chunk, at, step := size, 0, 0;
      assert sg.blocks == [];
      while size > 0
        invariant 0 <= at && sg.Recorded(at) && at * PAGE_SIZE + size == sg.pages.Length * PAGE_SIZE
        invariant chunk % PAGE_SIZE == 0 && (size > 0 ==> chunk > 0)
        invariant live == old(live) + multiset(sg.blocks)
        decreases size, chunk
      {
        chunk := if size < chunk then size else chunk;
        var base := if step < |bases| then bases[step] else None;
        step := step + 1;
        var got := AllocChunk(sg, at, chunk / PAGE_SIZE, base);
        if !got {
          if chunk <= PAGE_SIZE { return false, at; }
          SmallerShrinks(chunk);
          chunk := Smaller(chunk);
          continue;
        }
        size := size - chunk;
        at := at + chunk / PAGE_SIZE;
      }
      ok, idx := true, at;
    }

    /**
      Allocates a scatter/gather buffer: on success its table is tiled by the blocks handed out, after
      any failure nothing is left handed out. `late` stands for a failure of one of the later steps.
     */
    method SgAlloc(size: nat, bases: seq<Option<int>>, noMem: bool, late: bool) returns (r: Option<SgBuf>)
      modifies this
      ensures r.None? ==> live == old(live) && (noMem || late || refused == 1)
      ensures noMem || late ==> r.None?
      ensures r.Some? ==>
                && fresh(r.value) && fresh(r.value.pages) && fresh(r.value.npages)
                && r.value.pages.Length == PageAlign(size) / PAGE_SIZE
      ensures r.Some? ==> r.value.Recorded(r.value.pages.Length) && live == old(live) + multiset(r.value.blocks)
    {
      if noMem { return None; }
      var sg := new SgBuf(PageAlign(size) / PAGE_SIZE);
      var ok, idx := Fill(sg, bases);
      if !ok || late {
        FreeAll(sg, idx, old(live));
        return None;
      }
      r := Some(sg);
    }
  }

  // ---------------------------------------------------------------- contiguous pieces

  /** Physical address of the page that byte `ofs` of a buffer lies in. */
  function PageAddr(phys: seq<int>, ofs: nat): int
    requires ofs / PAGE_SIZE < |phys|
  {
    phys[ofs / PAGE_SIZE]
  }

  ghost predicate Contiguous(phys: seq<int>, first: nat, last: nat)
    requires first <= last < |phys|
  {
    forall i | first < i <= last :: phys[i] == phys[i - 1] + PAGE_SIZE
  }

  /** The longest piece from `ofs` that is contiguous in memory, up to the size asked for. */
  method VmallocChunkSize(phys: seq<int>, ofs: nat, size: nat) returns (r: nat)
    requires 1 <= size && (ofs + size - 1) / PAGE_SIZE < |phys|
    ensures 1 <= r <= size && Contiguous(phys, ofs / PAGE_SIZE, (ofs + r - 1) / PAGE_SIZE)
    ensures r < size ==>
      (ofs + r) % PAGE_SIZE == 0 && PageAddr(phys, ofs + r) != PageAddr(phys, ofs + r - 1) + PAGE_SIZE
  {
    var start, end := ofs / PAGE_SIZE * PAGE_SIZE, ofs + size - 1;
    var addr := PageAddr(phys, start);
    while true
      invariant start % PAGE_SIZE == 0 && ofs / PAGE_SIZE <= start / PAGE_SIZE && start <= end
      invariant addr == phys[start / PAGE_SIZE]
      invariant Contiguous(phys, ofs / PAGE_SIZE, start / PAGE_SIZE)
      decreases end - start
    {
      start := start + PAGE_SIZE;
      if start > end { break; }
      addr := addr + PAGE_SIZE;
      if PageAddr(phys, start) != addr { return start - ofs; }
    }
    r := size;
  }
}
