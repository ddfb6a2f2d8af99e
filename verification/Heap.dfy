/** The kernel heap: first fit over a list of blocks that tile the mapped range, grown by pages on demand. */
module Heap {
  import opened Bytes
  import Pmm
  import opened PageTables
  import opened Vmm
  import opened HeapPages
  import opened HeapBlocks
  import opened HeapLinks

  /** align_up_size in 64-bit arithmetic, to the payload unit and to the unit the heap grows by. */
  function Rounded(value: nat): nat {
    (value + ALIGN - 1) % TWO_64 / ALIGN * ALIGN
  }

  function Chunked(value: nat): nat {
    (value + CHUNK_SIZE - 1) % TWO_64 / CHUNK_SIZE * CHUNK_SIZE
  }

  /** A request whose rounding wraps around nowhere. */
  predicate NoWrap(size: nat) {
    size + ALIGN - 1 < TWO_64 && Rounded(size) + OVERHEAD + CHUNK_SIZE - 1 < TWO_64
  }

  lemma RoundedSize(size: nat)
    requires NoWrap(size)
    ensures var n := Rounded(size); size <= n < size + ALIGN && n % ALIGN == 0 && (size != 0 ==> n >= ALIGN)
    ensures var n := Rounded(size);
            var b := Chunked((n + OVERHEAD) % TWO_64);
            n + OVERHEAD <= b && b % CHUNK_SIZE == 0 && b < TWO_64
  {
  }

  /** Near the top of the address range the rounding wraps: the request is granted 0 bytes. */
  lemma RoundingWraps(size: nat)
    requires size < TWO_64
    ensures Rounded(size) >= size <==> size + ALIGN - 1 < TWO_64
    ensures size + ALIGN - 1 >= TWO_64 ==> Rounded(size) == 0
  {
  }

  /** The guard is exact: without it a request is rounded down, or the heap grows by less than it needs. */
  lemma NoWrapExact(size: nat)
    requires size < TWO_64
    ensures var n := Rounded(size);
            NoWrap(size) <==> size <= n && n + OVERHEAD <= Chunked((n + OVERHEAD) % TWO_64)
  {
  }

  /** What happens then: for the greatest request the payload is empty; and for one a page below the limit the heap,
      wherever it ends, grows by nothing, which passes the check against its limit, and a header goes behind it. */
  lemma GrowsByNothing(end: nat)
    requires BASE <= end <= BASE + MAX_SIZE
    ensures Rounded(TWO_64 - 1) == 0
    ensures var n := Rounded(TWO_64 - PAGE_SIZE);
            n == TWO_64 - PAGE_SIZE && Chunked((n + OVERHEAD) % TWO_64) == 0 && !Exceeds(end, 0)
  {
  }

  /** Every page of the heap has a frame of its own, which is neither free nor a table. */
  ghost predicate Backs(w: World, root: nat, tracked: set<nat>, frames: seq<nat>, mapped: nat) {
    && PAGE_SIZE * |frames| == mapped && Pmm.NoRepeats(frames)
    && (forall p :: p in frames ==> p in tracked && p !in w.list && p !in w.home)
    && forall k :: 0 <= k < |frames| ==> LeafOf(w.memory, root, 4, BASE + PAGE_SIZE * k) == Leaf(PageEntry(frames[k]), 1)
  }

  lemma BackedSame(w0: World, w: World, root: nat, tracked: set<nat>, frames: seq<nat>, mapped: nat)
    requires Backs(w0, root, tracked, frames, mapped) && Ledger(w0, w, []) && SameLeaves(w0.memory, w0.home, w.memory)
    requires IsRoot(w0.home, root)
    ensures Backs(w, root, tracked, frames, mapped)
  {
    hide LeafOf, Pmm.NoRepeats, RootsKept;
    forall p | p in frames ensures p !in w.list && p !in w.home {
      NotTaken(w0, w, [], p);
    }
  }

  lemma NotTaken(w0: World, w: World, pages: seq<nat>, p: nat)
    requires Ledger(w0, w, pages) && p !in w0.list && p !in w0.home
    ensures p !in w.list && p !in w.home && p !in pages
  {
    hide RootsKept, Pmm.NoRepeats;
    assert p in w.list <==> p in Pmm.Set(w.list);
    assert p in pages <==> p in Pmm.Set(pages);
    assert p !in Pmm.Set(w0.list);
  }

  lemma BackedMore(w0: World, w: World, root: nat, tracked: set<nat>, frames: seq<nat>, mapped: nat, pages: seq<nat>, bytes: nat)
    requires Backs(w0, root, tracked, frames, mapped) && Ledger(w0, w, pages) && IsRoot(w0.home, root)
    requires bytes == PAGE_SIZE * |pages| && mapped + bytes <= MAX_SIZE
    requires Mapped(w0, w.memory, root, Slot(BASE + mapped, 1), 0, pages)
    requires forall p :: p in pages ==> p in w0.list && p in tracked
    ensures Backs(w, root, tracked, frames + pages, mapped + bytes)
  {
    hide LeafOf, Pmm.NoRepeats, RootsKept, Slot, Index, Mapped;
    forall p | p in frames ensures p !in w.list && p !in w.home && p !in pages {
      NotTaken(w0, w, pages, p);
    }
    forall k | 0 <= k < |frames + pages|
      ensures LeafOf(w.memory, root, 4, BASE + PAGE_SIZE * k) == Leaf(PageEntry((frames + pages)[k]), 1)
    {
      if k < |frames| {
        MappedElsewhere(w0, w, root, frames, pages, mapped, k);
      } else {
        MappedHere(w0, w, root, frames, pages, mapped, k - |frames|);
      }
    }
    Joined(frames, pages);
  }

  lemma MappedElsewhere(w0: World, w: World, root: nat, frames: seq<nat>, pages: seq<nat>, mapped: nat, k: nat)
    requires mapped == PAGE_SIZE * |frames| <= MAX_SIZE && k < |frames| && IsRoot(w0.home, root)
    requires Mapped(w0, w.memory, root, Slot(BASE + mapped, 1), 0, pages)
    ensures LeafOf(w.memory, root, 4, BASE + PAGE_SIZE * k) == LeafOf(w0.memory, root, 4, BASE + PAGE_SIZE * k)
  {
    hide LeafOf, Index, Slot;
    PageSlot(BASE, k);
    PageSlot(BASE, |frames|);
  }

  lemma MappedHere(w0: World, w: World, root: nat, frames: seq<nat>, pages: seq<nat>, mapped: nat, k: nat)
    requires mapped == PAGE_SIZE * |frames| && mapped + PAGE_SIZE * |pages| <= MAX_SIZE && k < |pages| && IsRoot(w0.home, root)
    requires Mapped(w0, w.memory, root, Slot(BASE + mapped, 1), 0, pages)
    ensures LeafOf(w.memory, root, 4, BASE + PAGE_SIZE * (|frames| + k)) == Leaf(PageEntry(pages[k]), 1)
  {
    hide LeafOf, Index, Slot;
    PageSlot(BASE, |frames| + k);
    PageSlot(BASE, |frames|);
  }

  lemma Joined(a: seq<nat>, b: seq<nat>)
    requires Pmm.NoRepeats(a) && Pmm.NoRepeats(b) && forall p :: p in a ==> p !in b
    ensures Pmm.NoRepeats(a + b)
  {
    forall i, j | 0 <= i < j < |a + b| ensures (a + b)[i] != (a + b)[j] {
      if i < |a| { assert a[i] in a; }
      if j >= |a| { assert b[j - |a|] in b; }
    }
  }

  /** No free block has room. */
  ghost predicate NoFit(bs: seq<Chunk>, size: nat) {
    forall i :: 0 <= i < |bs| ==> !(bs[i].free && bs[i].size >= size)
  }

  /** The test of expand_heap, in 64-bit arithmetic. */
  predicate Exceeds(end: nat, grow: nat) {
    (end + grow) % TWO_64 < end || (end + grow) % TWO_64 > BASE + MAX_SIZE
  }

  lemma GrownSize(mapped: nat, grow: nat)
    requires mapped % CHUNK_SIZE == 0 && grow % CHUNK_SIZE == 0 && grow >= CHUNK_SIZE
    ensures (mapped + grow) % CHUNK_SIZE == 0 && (grow - OVERHEAD) % ALIGN == 0
  {
  }

  lemma WithinLimit(end: nat, grow: nat)
    requires BASE <= end <= BASE + MAX_SIZE && (end - BASE) % CHUNK_SIZE == 0 && grow % CHUNK_SIZE == 0 && grow < TWO_64
    ensures Exceeds(end, grow) <==> end - BASE + grow > MAX_SIZE
    ensures !Exceeds(end, grow) ==>
              && end % PAGE_SIZE == 0 && grow % PAGE_SIZE == 0
              && end % 0x1_0000_0000_0000 + grow <= 0x1_0000_0000_0000
  {
  }

  /** Why a request fails: no free block has room, and the heap is at its limit or there is no room for its pages. */
  ghost predicate OutOfMemory(bs: seq<Chunk>, end: nat, m: Pmm.Memory, root: nat, free: nat, size: nat) {
    var grow := Chunked((Rounded(size) + OVERHEAD) % TWO_64);
    NoFit(bs, Rounded(size)) && (Exceeds(end, grow) || NoRoom(m, root, end, grow / PAGE_SIZE, free))
  }

  class KernelHeap {
    const vmm: AddressSpaces
    var headers: Headers
    /** What the heap's memory holds, from its start. */
    var bytes: Block
    var first: nat
    var last: nat
    var heapEnd: nat
    var mappedBytes: nat
    var allocatedBytes: nat
    var initialized: bool
    /** The blocks in address order. */
    ghost var blocks: seq<Chunk>
    /** The frames behind the heap, page by page. */
    ghost var frames: seq<nat>

    /** The list of headers represents the blocks, and they tile the heap. */
    ghost predicate Core()
      reads this
    {
      && Tiles(blocks, BASE, heapEnd) && Linked(headers, blocks, first, last)
      && BASE <= heapEnd && mappedBytes == heapEnd - BASE == |bytes| && mappedBytes <= MAX_SIZE
      && mappedBytes % CHUNK_SIZE == 0
    }

    ghost predicate Backed()
      reads this, vmm, vmm.pmm
    {
      && vmm.Valid() && vmm.pmm.initialized
      && Backs(WorldOf(vmm), vmm.active, vmm.pmm.tracked, frames, mappedBytes)
    }

    ghost predicate Valid()
      reads this, vmm, vmm.pmm
    {
      Core() && NoFreeNeighbours(blocks) && allocatedBytes == LiveBytes(blocks) && Backed()
    }

    /** kheap_init. */
    constructor (vmm: AddressSpaces)
      requires vmm.Valid() && vmm.pmm.initialized
      ensures Valid() && this.vmm == vmm && blocks == [] && frames == [] && initialized && Live(blocks) == map[]
    {
      this.vmm := vmm;
      headers, bytes, first, last, heapEnd, mappedBytes, allocatedBytes := map[], [], 0, 0, BASE, 0, 0;
      initialized, blocks, frames := true, [], [];
    }

    /** Stores a header; how its 32 bytes look is left open. */
    method WriteHeader(a: nat, h: Header)
      requires BASE <= a && a - BASE + OVERHEAD <= |bytes|
      modifies `headers, `bytes
      ensures headers == old(headers)[a := h] && HeaderWritten(a, old(bytes), bytes)
    {
      var raw := new byte[OVERHEAD];
      headers := headers[a := h];
      bytes := Splice(bytes, a - BASE, raw[..]);
    }

    method SplitBlock(ghost i: nat, block: nat, size: nat)
      requires Core() && i < |blocks| && blocks[i].addr == block && size % ALIGN == 0 && size >= ALIGN
      modifies `headers, `bytes, `last, `blocks
      ensures Core() && blocks == Split(old(blocks), i, size) && PayloadsKept(blocks, old(bytes), bytes)
    {
      hide Tiles, Linked, Split, HeaderWritten, PayloadsKept;
      ghost var bs, h0, b0 := blocks, headers, bytes;
      HeaderAt(headers, bs, BASE, heapEnd, first, last, i);
      PayloadsSame(bs, bytes);
      if headers[block].size < size + OVERHEAD + ALIGN {
        SplitNot(bs, i, size);
        return;
      }
      SplitTiles(bs, BASE, heapEnd, i, size);
      SplitLinks(headers, bs, BASE, heapEnd, first, last, i, size);
      blocks := Split(bs, i, size);
      SplitPlaces(bs, BASE, heapEnd, i, size);
      PayloadsSame(blocks, bytes);
      var b, split := headers[block], block + OVERHEAD + size;
      HeaderNext(h0, bs, BASE, heapEnd, first, last, i);
      WriteHeader(split, Header(MAGIC, true, b.size - size - OVERHEAD, block, b.next));
      HeaderApart(blocks, heapEnd, i + 1, b0, bytes);
      if b.next != 0 {
        ghost var b1 := bytes;
        WriteHeader(b.next, headers[b.next].(prev := split));
        HeaderApart(blocks, heapEnd, i + 2, b1, bytes);
        PayloadsKeptTransitive(blocks, b0, b1, bytes);
      } else {
        last := split;
      }
      ghost var b2 := bytes;
      WriteHeader(block, headers[block].(size := size, next := split));
      HeaderApart(blocks, heapEnd, i, b2, bytes);
      PayloadsKeptTransitive(blocks, b0, b2, bytes);
    }

    method CoalesceWithNext(ghost i: nat, block: nat)
      requires Core() && i < |blocks| && blocks[i].addr == block
      modifies `headers, `bytes, `last, `blocks
      ensures Core() && blocks == Merge(old(blocks), i) && PayloadsKept(blocks, old(bytes), bytes)
    {
      hide Tiles, Linked, Merge, HeaderWritten, PayloadsKept;
      ghost var bs, h0, b0 := blocks, headers, bytes;
      HeaderAt(headers, bs, BASE, heapEnd, first, last, i);
      HeaderNext(headers, bs, BASE, heapEnd, first, last, i);
      PayloadsSame(bs, bytes);
      var next := headers[block].next;
      if next == 0 || !headers[next].free {
        MergeNot(bs, i);
        return;
      }
      MergeTiles(bs, BASE, heapEnd, i);
      MergeLinks(headers, bs, BASE, heapEnd, first, last, i);
      HeaderNext(headers, bs, BASE, heapEnd, first, last, i + 1);
      blocks := Merge(bs, i);
      MergePlaces(bs, BASE, heapEnd, i);
      var behind := headers[next].next;
      WriteHeader(block, headers[block].(size := headers[block].size + OVERHEAD + headers[next].size, next := behind));
      HeaderApart(blocks, heapEnd, i, b0, bytes);
      if behind != 0 {
        ghost var b1 := bytes;
        WriteHeader(behind, headers[behind].(prev := block));
        HeaderApart(blocks, heapEnd, i + 1, b1, bytes);
        PayloadsKeptTransitive(blocks, b0, b1, bytes);
      } else {
        last := block;
      }
    }

    /** The first free block with room, or 0. */
    method FindFreeBlock(size: nat) returns (block: nat, ghost i: nat)
      requires Core()
      ensures block == 0 <==> NoFit(blocks, size)
      ensures block != 0 ==>
                && i < |blocks| && blocks[i].addr == block && blocks[i].free && blocks[i].size >= size
                && NoFit(blocks[..i], size)
    {
      hide Tiles, Linked;
      block, i := first, 0;
      FirstBlock(headers, blocks, BASE, heapEnd, first, last);
      while block != 0
        invariant i <= |blocks| && block == if i < |blocks| then blocks[i].addr else 0
        invariant i < |blocks| ==> block != 0
        invariant NoFit(blocks[..i], size)
        decreases |blocks| - i
      {
        HeaderAt(headers, blocks, BASE, heapEnd, first, last, i);
        HeaderNext(headers, blocks, BASE, heapEnd, first, last, i);
        if headers[block].free && headers[block].size >= size {
          return;
        }
        assert blocks[..i + 1] == blocks[..i] + [blocks[i]];
        block, i := headers[block].next, i + 1;
      }
      assert blocks[..i] == blocks;
    }

    /** append_block for the block that fills the new end of the heap. */
    method AppendBlock(size: nat)
      requires BASE + OVERHEAD + size <= heapEnd == BASE + |bytes| && size % ALIGN == 0 && size >= ALIGN
      requires Tiles(blocks, BASE, heapEnd - OVERHEAD - size) && Linked(headers, blocks, first, last)
      modifies `headers, `bytes, `first, `last, `blocks
      ensures Tiles(blocks, BASE, heapEnd) && Linked(headers, blocks, first, last)
      ensures blocks == old(blocks) + [Chunk(heapEnd - OVERHEAD - size, true, size)]
      ensures PayloadsKept(blocks, old(bytes), bytes) && |bytes| == old(|bytes|)
    {
      hide Tiles, Linked, PayloadsKept;
      ghost var bs, h0, b0, end := blocks, headers, bytes, heapEnd - OVERHEAD - size;
      var block := heapEnd - OVERHEAD - size;
      AppendTiles(bs, BASE, end, size);
      AppendLinks(headers, bs, BASE, end, first, last, size);
      FirstBlock(headers, bs, BASE, end, first, last);
      blocks := bs + [Chunk(end, true, size)];
      if bs != [] { LastFits(blocks, BASE, heapEnd); }
      WriteHeader(block, Header(MAGIC, true, size, last, 0));
      HeaderApart(blocks, heapEnd, |bs|, b0, bytes);
      if last != 0 {
        ghost var b1 := bytes;
        WriteHeader(last, headers[last].(next := block));
        HeaderApart(blocks, heapEnd, |bs| - 1, b1, bytes);
        PayloadsKeptTransitive(blocks, b0, b1, bytes);
      } else {
        first := block;
      }
      last := block;
    }

    /** The part of expand_heap behind the mapping: the new range becomes a free block, or part of the last one. */
    method GrowBlocks(ghost size: nat, grow: nat)
      requires Core() && NoFreeNeighbours(blocks) && mappedBytes + grow <= MAX_SIZE && grow % CHUNK_SIZE == 0 && grow >= CHUNK_SIZE
      requires size + OVERHEAD <= grow
      modifies `headers, `bytes, `first, `last, `blocks, `heapEnd, `mappedBytes
      ensures Core() && NoFreeNeighbours(blocks) && mappedBytes == old(mappedBytes) + grow
      ensures Live(blocks) == old(Live(blocks)) && LiveBytes(blocks) == old(LiveBytes(blocks))
      ensures LiveKept(Live(blocks), old(bytes), bytes) && !NoFit(blocks, size)
    {
      hide Tiles, Linked, PayloadsKept, Live, LiveBytes, LiveKept, Merge, NoFit, NoFreeNeighbours;
      ghost var bs, b0, live := blocks, bytes, Live(blocks);
      GrownSize(mappedBytes, grow);
      var mapped := new byte[grow];
      bytes := bytes + mapped[..];
      ghost var b1 := bytes;
      BytesAppended(live, b0, mapped[..]);
      heapEnd := heapEnd + grow;
      mappedBytes := mappedBytes + grow;
      FirstBlock(headers, bs, BASE, BASE + |b0|, first, last);
      var prev := last;
      AppendBlock(grow - OVERHEAD);
      AppendLive(bs, blocks[|bs|]);
      PayloadsLive(blocks, BASE, heapEnd, b1, bytes);
      LiveKeptTransitive(live, b0, b1, bytes);
      AppendNeat(bs, blocks[|bs|], size);
      if bs != [] { HeaderAt(headers, blocks, BASE, heapEnd, first, last, |bs| - 1); }
      if prev != 0 && headers[prev].free {
        ghost var bs2, b2 := blocks, bytes;
        CoalesceWithNext(|bs| - 1, prev);
        MergeLive(bs2, |bs| - 1);
        PayloadsLive(blocks, BASE, heapEnd, b2, bytes);
        LiveKeptTransitive(live, b0, b2, bytes);
      }
    }

    /** expand_heap: maps pages for at least `size` bytes and a header, or leaves the heap and every translation as
        they were, with every data frame back on the free list. */
    method ExpandHeap(size: nat) returns (ok: bool)
      requires Valid() && NoWrap(size) && size == Rounded(size)
      modifies this, vmm, vmm.pmm
      ensures Valid() && vmm.active == old(vmm.active) && vmm.kernelRoot == old(vmm.kernelRoot)
      ensures initialized == old(initialized) && Live(blocks) == old(Live(blocks))
      ensures LiveKept(Live(blocks), old(bytes), bytes)
      ensures Books(old(WorldOf(vmm)), WorldOf(vmm), old(frames), frames)
      ensures ok ==> !NoFit(blocks, size)
      ensures !ok ==>
                var grow := Chunked((size + OVERHEAD) % TWO_64);
                Exceeds(heapEnd, grow) || NoRoom(old(vmm.pmm.memory), vmm.active, heapEnd, grow / PAGE_SIZE, |vmm.pmm.list|)
      ensures !ok ==>
                && heapEnd == old(heapEnd) && blocks == old(blocks) && headers == old(headers) && bytes == old(bytes) && frames == old(frames)
                && SameLeaves(old(vmm.pmm.memory), old(vmm.home), vmm.pmm.memory)
    {
      hide Tiles, Linked, PayloadsKept, Backs, Ledger, SameLeaves, Mapped, NoFreeNeighbours, Live, LiveBytes, LiveKept, NoFit;
      ghost var w0, fs, bs, b0, tracked := WorldOf(vmm), frames, blocks, bytes, vmm.pmm.tracked;
      RoundedSize(size);
      NothingMapped(w0, vmm.active, 0);
      NothingMoved(w0, Live(blocks), bytes);
      var total := (size + OVERHEAD) % TWO_64;
      var grow := Chunked(total);
      WithinLimit(heapEnd, grow);
      hide Rounded, Chunked, NoWrap, Exceeds, Books, NoRoom;
      if Exceeds(heapEnd, grow) {
        BooksClosed(w0, w0, fs, []);
        return false;
      }
      ghost var pages;
      ok, pages := MapPages(vmm, heapEnd, grow);
      BooksClosed(w0, WorldOf(vmm), fs, pages);
      if !ok {
        BackedSame(w0, WorldOf(vmm), vmm.active, tracked, fs, mappedBytes);
        return;
      }
      BackedMore(w0, WorldOf(vmm), vmm.active, tracked, fs, mappedBytes, pages, grow);
      frames := frames + pages;
      GrowBlocks(size, grow);
    }

    /** Sets the `free` flag of a header. */
    method MarkBlock(ghost i: nat, block: nat, free: bool)
      requires Core() && i < |blocks| && blocks[i].addr == block && blocks[i].free != free
      modifies `headers, `bytes, `blocks
      ensures Core() && blocks == old(blocks)[i := old(blocks[i]).(free := free)]
      ensures PayloadsKept(blocks, old(bytes), bytes)
    {
      hide Tiles, Linked, PayloadsKept, Live, LiveBytes;
      HeaderAt(headers, blocks, BASE, heapEnd, first, last, i);
      MarkLive(blocks, BASE, heapEnd, i, free);
      MarkLinks(headers, blocks, BASE, heapEnd, first, last, i, free);
      ghost var b0 := bytes;
      blocks := blocks[i := blocks[i].(free := free)];
      WriteHeader(block, headers[block].(free := free));
      HeaderApart(blocks, heapEnd, i, b0, bytes);
    }

    /** The part of kmalloc that hands out a free block with room. */
    method TakeBlock(ghost i: nat, block: nat, size: nat)
      requires Valid() && i < |blocks| && blocks[i].addr == block && blocks[i].free && blocks[i].size >= size
      requires size % ALIGN == 0 && size >= ALIGN
      modifies `headers, `bytes, `last, `blocks, `allocatedBytes
      ensures Valid()
      ensures Allocated(old(Live(blocks)), Live(blocks), block + OVERHEAD, size, OVERHEAD + ALIGN)
      ensures LiveKept(old(Live(blocks)), old(bytes), bytes)
    {
      hide Tiles, Linked, PayloadsKept, Live, LiveBytes, LiveKept, Backs, Split, SplitEffect, MarkEffect;
      ghost var bs, b0, live := blocks, bytes, Live(blocks);
      SplitLive(bs, BASE, heapEnd, i, size);
      AlignedBlocks(bs, BASE, heapEnd, i);
      SplitBlock(i, block, size);
      ghost var bs1, b1 := blocks, bytes;
      PayloadsLive(bs1, BASE, heapEnd, b0, b1);
      SplitTaken(bs, bs1, i, size);
      MarkLive(bs1, BASE, heapEnd, i, false);
      MarkBlock(i, block, false);
      PayloadsLive(blocks, BASE, heapEnd, b1, bytes);
      HeaderAt(headers, blocks, BASE, heapEnd, first, last, i);
      allocatedBytes := allocatedBytes + headers[block].size;
      TakenEffect(bs, bs1, blocks, i, size, b0, b1, bytes);
    }

    /** kmalloc. A result of 0 means that nothing was handed out; the block behind any other result holds at least `size`
        bytes, and is new. */
    method Kmalloc(size: nat) returns (p: nat)
      requires Valid() && NoWrap(size)
      modifies this, vmm, vmm.pmm
      ensures Valid() && vmm.active == old(vmm.active) && vmm.kernelRoot == old(vmm.kernelRoot)
      ensures initialized == old(initialized) && LiveKept(old(Live(blocks)), old(bytes), bytes)
      ensures Books(old(WorldOf(vmm)), WorldOf(vmm), old(frames), frames)
      ensures p == 0 ==> blocks == old(blocks) && bytes == old(bytes) && frames == old(frames)
      ensures p == 0 ==> !initialized || size == 0 || OutOfMemory(old(blocks), old(heapEnd), old(vmm.pmm.memory), vmm.active, |vmm.pmm.list|, size)
      ensures size == 0 || !initialized ==> p == 0
      ensures p != 0 ==> Allocated(old(Live(blocks)), Live(blocks), p, size, ALIGN + OVERHEAD + ALIGN)
    {
      hide Tiles, Linked, PayloadsKept, Backs, Ledger, SameLeaves, NoFreeNeighbours, Live, LiveBytes, LiveKept, NoFit, Books;
      ghost var w0, fs, live, b0 := WorldOf(vmm), frames, Live(blocks), bytes;
      NothingMapped(w0, vmm.active, 0);
      NothingMoved(w0, live, bytes);
      BooksClosed(w0, w0, fs, []);
      if !initialized || size == 0 {
        return 0;
      }
      RoundedSize(size);
      var rounded := Rounded(size);
      RoundedTwice(size);
      hide Rounded, Chunked;
      var block;
      ghost var i;
      block, i := FindFreeBlock(rounded);
      if block == 0 {
        var ok := ExpandHeap(rounded);
        if !ok {
          return 0;
        }
        block, i := FindFreeBlock(rounded);
      }
      ghost var b1 := bytes;
      HeaderAt(headers, blocks, BASE, heapEnd, first, last, i);
      TakeBlock(i, block, rounded);
      LiveKeptTransitive(live, b0, b1, bytes);
      p := block + OVERHEAD;
    }

    /** kfree. */
    method Kfree(p: nat)
      requires Valid() && (p == 0 || p in Live(blocks))
      modifies this
      ensures Valid() && initialized == old(initialized) && frames == old(frames) && heapEnd == old(heapEnd)
      ensures Live(blocks) == old(Live(blocks)) - {p}
      ensures LiveKept(Live(blocks), old(bytes), bytes)
    {
      hide Tiles, Linked, PayloadsKept, Live, LiveBytes, LiveKept, Backs, Merge, MarkEffect;
      ghost var bs, b0 := blocks, bytes;
      if p == 0 {
        NullIsNotLive(bs, heapEnd);
        NothingMoved(WorldOf(vmm), Live(bs), b0);
        return;
      }
      ghost var i := LiveIndex(bs, BASE, heapEnd, p);
      var block := p - OVERHEAD;
      HeaderAt(headers, bs, BASE, heapEnd, first, last, i);
      SizeCounted(bs, BASE, heapEnd, i);
      allocatedBytes := allocatedBytes - headers[block].size;
      MarkLive(bs, BASE, heapEnd, i, true);
      MarkBlock(i, block, true);
      ghost var bs1, b1 := blocks, bytes;
      PayloadsLive(bs1, BASE, heapEnd, b0, b1);
      MergeLive(bs1, i);
      CoalesceWithNext(i, block);
      ghost var bs2, b2 := blocks, bytes;
      PayloadsLive(bs2, BASE, heapEnd, b1, b2);
      FreedNeat(bs, bs1, i);
      FreedEffect(bs, bs1, bs2, i, b0, b1, b2);
      HeaderAt(headers, bs2, BASE, heapEnd, first, last, i);
      if i > 0 { HeaderAt(headers, bs2, BASE, heapEnd, first, last, i - 1); }
      if headers[block].prev != 0 && headers[headers[block].prev].free {
        MergeLive(bs2, i - 1);
        CoalesceWithNext(i - 1, headers[block].prev);
        PayloadsLive(blocks, BASE, heapEnd, b2, bytes);
        LiveKeptTransitive(Live(blocks), b0, b2, bytes);
      }
    }

    /** The part of krealloc that keeps the block and gives back what is not needed. */
    method Shrink(ghost i: nat, block: nat, size: nat)
      requires Valid() && i < |blocks| && blocks[i].addr == block && !blocks[i].free && blocks[i].size >= size
      requires size % ALIGN == 0 && size >= ALIGN
      modifies `headers, `bytes, `last, `blocks, `allocatedBytes
      ensures Valid()
      ensures Resized(old(Live(blocks)), Live(blocks), block + OVERHEAD, size)
      ensures LiveKept(Live(blocks), old(bytes), bytes)
    {
      hide Tiles, Linked, PayloadsKept, Live, LiveBytes, LiveKept, Backs, Split, Merge, SplitEffect;
      ghost var bs, b0 := blocks, bytes;
      HeaderAt(headers, bs, BASE, heapEnd, first, last, i);
      var oldSize := headers[block].size;
      SplitLive(bs, BASE, heapEnd, i, size);
      AlignedBlocks(bs, BASE, heapEnd, i);
      SplitMerge(bs, i, size);
      LiveIs(bs, BASE, heapEnd, bs[i].Payload());
      SplitBlock(i, block, size);
      ghost var bs1, b1 := blocks, bytes;
      SplitShrinks(bs, bs1, i, size);
      PayloadsLive(bs1, BASE, heapEnd, b0, b1);
      HeaderAt(headers, bs1, BASE, heapEnd, first, last, i);
      HeaderNext(headers, bs1, BASE, heapEnd, first, last, i);
      var next := headers[block].next;
      if next != 0 && headers[next].free {
        MergeLive(bs1, i + 1);
        KeepsBefore(bs1, i);
        CoalesceWithNext(i + 1, next);
        PayloadsLive(blocks, BASE, heapEnd, b1, bytes);
        LiveKeptTransitive(Live(blocks), b0, b1, bytes);
      }
      HeaderAt(headers, blocks, BASE, heapEnd, first, last, i);
      allocatedBytes := allocatedBytes - (oldSize - headers[block].size);
    }

    /** memcpy between two live payloads. */
    method Copy(to: nat, from: nat, n: nat)
      requires Valid() && to in Live(blocks) && from in Live(blocks) && to != from
      requires n <= Live(blocks)[to] && n <= Live(blocks)[from]
      modifies `bytes
      ensures Valid() && LiveKept(Live(blocks) - {to}, old(bytes), bytes)
      ensures Copied(old(bytes), from, bytes, to, n)
    {
      hide Tiles, Linked, Live, LiveBytes, Backs, RangeKept;
      InsideHeap(blocks, heapEnd, to);
      InsideHeap(blocks, heapEnd, from);
      OneSpliced(blocks, heapEnd, to, bytes, PayloadAt(bytes, from, n));
      CopiedBy(bytes, from, to, n);
      bytes := Splice(bytes, to - BASE, PayloadAt(bytes, from, n));
    }

    /** krealloc: shrinks in place, or moves the payload; either way its bytes survive. */
    method Krealloc(p: nat, size: nat) returns (r: nat)
      requires Valid() && NoWrap(size) && initialized && (p == 0 || p in Live(blocks))
      modifies this, vmm, vmm.pmm
      ensures Valid() && vmm.active == old(vmm.active) && vmm.kernelRoot == old(vmm.kernelRoot) && initialized
      ensures Books(old(WorldOf(vmm)), WorldOf(vmm), old(frames), frames)
      ensures LiveKept(old(Live(blocks)) - {p, r}, old(bytes), bytes)
      ensures p != 0 && size == 0 ==> r == 0 && Live(blocks) == old(Live(blocks)) - {p}
      ensures size != 0 && r == 0 ==> blocks == old(blocks) && bytes == old(bytes)
      ensures size != 0 && r == 0 ==> OutOfMemory(old(blocks), old(heapEnd), old(vmm.pmm.memory), vmm.active, |vmm.pmm.list|, size)
      ensures size != 0 && r != 0 ==> Reallocated(old(Live(blocks)), Live(blocks), p, r, size)
      ensures p != 0 && size != 0 && r != 0 ==> Copied(old(bytes), p, bytes, r, Min(old(Live(blocks)[p]), size))
    {
      hide Tiles, Linked, Live, LiveBytes, LiveKept, Backs, Books, NoFreeNeighbours, Copied, Ledger, NoFit, NoWrap, SameLeaves,
        OutOfMemory;
      ghost var w0, fs, live, b0 := WorldOf(vmm), frames, Live(blocks), bytes;
      NothingMapped(w0, vmm.active, 0);
      BooksClosed(w0, w0, fs, []);
      if p == 0 {
        NullIsNotLive(blocks, heapEnd);
        r := Kmalloc(size);
        WithoutKept(live, {p, r}, b0, bytes);
        return;
      }
      if size == 0 {
        Kfree(p);
        WithoutKept(Live(blocks), {p, 0}, b0, bytes);
        SameLive(live - {p, 0}, Live(blocks) - {p, 0});
        return 0;
      }
      ghost var i := LiveIndex(blocks, BASE, heapEnd, p);
      var block := p - OVERHEAD;
      HeaderAt(headers, blocks, BASE, heapEnd, first, last, i);
      RoundedSize(size);
      var oldSize, rounded := headers[block].size, Rounded(size);
      InsideHeap(blocks, heapEnd, p);
      hide Rounded, Chunked;
      if oldSize >= rounded {
        AlignedBlocks(blocks, BASE, heapEnd, i);
        Shrink(i, block, rounded);
        ShrunkContent(live, Live(blocks), p, size, rounded, b0, bytes);
        return p;
      }
      SmallerBlock(blocks, BASE, heapEnd, i, rounded, size);
      r := Kmalloc(size);
      if r == 0 {
        NothingMoved(w0, live - {p, r}, b0);
        return;
      }
      ghost var live1, b1 := Live(blocks), bytes;
      MovedApart(live, live1, p, r, size);
      Copy(r, p, oldSize);
      ghost var b2 := bytes;
      Kfree(p);
      MovedContent(live, live1, p, r, size, oldSize, b0, b1, b2, bytes);
    }

    /** kcalloc: an overflowing product is refused, and what is handed out reads as zeros. */
    method Kcalloc(count: nat, size: nat) returns (p: nat)
      requires Valid() && (count * size < TWO_64 ==> NoWrap(count * size))
      modifies this, vmm, vmm.pmm
      ensures Valid() && vmm.active == old(vmm.active) && vmm.kernelRoot == old(vmm.kernelRoot)
      ensures initialized == old(initialized) && LiveKept(old(Live(blocks)), old(bytes), bytes)
      ensures Books(old(WorldOf(vmm)), WorldOf(vmm), old(frames), frames)
      ensures count * size >= TWO_64 || count * size == 0 ==> p == 0
      ensures p == 0 ==> blocks == old(blocks) && bytes == old(bytes)
      ensures p == 0 ==>
                || !initialized || count * size == 0 || count * size >= TWO_64
                || OutOfMemory(old(blocks), old(heapEnd), old(vmm.pmm.memory), vmm.active, |vmm.pmm.list|, count * size)
      ensures p != 0 ==> Allocated(old(Live(blocks)), Live(blocks), p, count * size, ALIGN + OVERHEAD + ALIGN)
      ensures p != 0 ==> ReadsZero(bytes, p, count * size)
    {
      hide Tiles, Linked, Live, LiveBytes, LiveKept, Backs, Books, NoFreeNeighbours, Ledger, NoFit, NoWrap, SameLeaves, Rounded,
        Allocated, ReadsZero, OutOfMemory;
      ghost var w0, fs, live, b0 := WorldOf(vmm), frames, Live(blocks), bytes;
      ProductFits(count, size);
      if size != 0 && count > (TWO_64 - 1) / size {
        NothingMapped(w0, vmm.active, 0);
        NothingMoved(w0, live, b0);
        BooksClosed(w0, w0, fs, []);
        return 0;
      }
      var total := count * size % TWO_64;
      p := Kmalloc(total);
      if p != 0 {
        ghost var b1, live1 := bytes, Live(blocks);
        AllocatedIs(live, live1, p, total);
        InsideHeap(blocks, heapEnd, p);
        OneSpliced(blocks, heapEnd, p, b1, Zeros(total));
        bytes := Splice(bytes, p - BASE, Zeros(total));
        ZerosRead(b1, p, total);
        SubsetKept(live1 - {p}, live, b1, bytes);
        LiveKeptTransitive(live, b0, b1, bytes);
      }
    }

    /** kheap_get_stats: headers, live and free bytes make up what is mapped. */
    method GetStats() returns (mapped: nat, used: nat, free: nat)
      requires Valid()
      ensures mapped == mappedBytes && used == LiveBytes(blocks) && free == FreeBytes(blocks)
      ensures mapped == |blocks| * OVERHEAD + used + free
    {
      hide Tiles, Linked, Backs;
      free := 0;
      var block := first;
      ghost var i := 0;
      FirstBlock(headers, blocks, BASE, heapEnd, first, last);
      assert blocks[0..] == blocks;
      while block != 0
        invariant i <= |blocks| && block == (if i < |blocks| then blocks[i].addr else 0) && (i < |blocks| ==> block != 0)
        invariant free + FreeBytes(blocks[i..]) == FreeBytes(blocks)
        decreases |blocks| - i
      {
        HeaderAt(headers, blocks, BASE, heapEnd, first, last, i);
        HeaderNext(headers, blocks, BASE, heapEnd, first, last, i);
        assert blocks[i..][1..] == blocks[i + 1..];
        if headers[block].free {
          free := free + headers[block].size;
        }
        block, i := headers[block].next, i + 1;
      }
      AddsUp(blocks, BASE, heapEnd);
      mapped, used := mappedBytes, allocatedBytes;
    }

    /** kheap_validate: none of its checks ever fails. */
    method Validate() returns (ok: bool)
      requires Valid()
      ensures ok == initialized
    {
      hide Tiles, Linked, Backs;
      if !initialized {
        return false;
      }
      var calculated: nat, previous: nat, block: nat := 0, 0, first;
      ghost var i := 0;
      FirstBlock(headers, blocks, BASE, heapEnd, first, last);
      while block != 0
        invariant i <= |blocks| && block == (if i < |blocks| then blocks[i].addr else 0) && (i < |blocks| ==> block != 0)
        invariant previous == if i == 0 then 0 else blocks[i - 1].addr
        invariant calculated == LiveBytes(blocks[..i])
        decreases |blocks| - i
      {
        HeaderAt(headers, blocks, BASE, heapEnd, first, last, i);
        HeaderNext(headers, blocks, BASE, heapEnd, first, last, i);
        AlignedSize(blocks, BASE, heapEnd, i);
        var h := headers[block];
        InsideRange(block, h.size, heapEnd);
        var payload := (block + OVERHEAD) % TWO_64;
        var end := (payload + h.size) % TWO_64;
        if h.magic != MAGIC || h.prev != previous || block < BASE || block >= heapEnd || payload < block || end < payload
           || end > heapEnd || h.size % ALIGN != 0 {
          return false;
        }
        if h.free && h.next != 0 && headers[h.next].free {
          return false;
        }
        assert blocks[..i + 1] == blocks[..i] + [blocks[i]];
        BytesConcat(blocks[..i], [blocks[i]]);
        LiveOne(blocks[i]);
        if !h.free {
          calculated := calculated + h.size;
        }
        previous, block, i := block, h.next, i + 1;
      }
      assert blocks[..i] == blocks;
      return previous == last && calculated == allocatedBytes;
    }
  }

  lemma AlignedSize(bs: seq<Chunk>, start: nat, end: nat, i: nat)
    requires Tiles(bs, start, end) && i < |bs|
    ensures bs[i].size % ALIGN == 0
  {
  }

  /** The address arithmetic of the check does not wrap. */
  lemma InsideRange(block: nat, size: nat, end: nat)
    requires BASE <= block && block + OVERHEAD + size <= end <= BASE + MAX_SIZE
    ensures (block + OVERHEAD) % TWO_64 == block + OVERHEAD && (block + OVERHEAD + size) % TWO_64 == block + OVERHEAD + size
  {
  }

  /** The overflow test of kcalloc is exact. */
  lemma ProductFits(count: nat, size: nat)
    ensures size != 0 && count > (TWO_64 - 1) / size <==> count * size >= TWO_64
  {
    if size != 0 {
      var q := (TWO_64 - 1) / size;
      assert q * size <= TWO_64 - 1 < (q + 1) * size;
      if count > q { assert (q + 1) * size <= count * size; } else { assert count * size <= q * size; }
    }
  }

  lemma AllocatedIs(live: map<nat, nat>, live': map<nat, nat>, p: nat, size: nat)
    requires Allocated(live, live', p, size, ALIGN + OVERHEAD + ALIGN)
    ensures p in live' && size <= live'[p] && p !in live
    ensures forall q :: q in live ==> q in live' - {p} && (live' - {p})[q] == live[q]
  {
  }

  ghost predicate ReadsZero(bytes: Block, p: nat, n: nat) {
    BASE <= p && p - BASE + n <= |bytes| && PayloadAt(bytes, p, n) == Zeros(n)
  }

  lemma ZerosRead(bytes: Block, p: nat, n: nat)
    requires BASE <= p && p - BASE + n <= |bytes|
    ensures ReadsZero(Splice(bytes, p - BASE, Zeros(n)), p, n)
  {
  }

  /** After the last kfree the heap is one free block. */
  lemma NothingLive(h: KernelHeap)
    requires h.Valid() && Live(h.blocks) == map[]
    ensures h.mappedBytes > 0 ==>
              h.mappedBytes > OVERHEAD && h.blocks == [Chunk(BASE, true, h.mappedBytes - OVERHEAD)]
    ensures h.allocatedBytes == 0
  {
    AllFree(h.blocks, BASE, h.heapEnd);
    if h.blocks != [] { LiveOne(h.blocks[0]); }
  }

  /** Two live payloads never overlap, and every one is aligned and inside the heap. */
  lemma LiveSeparate(h: KernelHeap, p: nat, q: nat)
    requires h.Valid() && p in Live(h.blocks) && q in Live(h.blocks) && p != q
    ensures var live := Live(h.blocks);
            && p % ALIGN == 0 && BASE + OVERHEAD <= p && p + live[p] <= h.heapEnd
            && (p + live[p] + OVERHEAD <= q || q + live[q] + OVERHEAD <= p)
  {
    InsideHeap(h.blocks, h.heapEnd, p);
    AlignedBlocks(h.blocks, BASE, h.heapEnd, LiveIndex(h.blocks, BASE, h.heapEnd, p));
    if p < q { LiveApart(h.blocks, BASE, h.heapEnd, p, q); } else { LiveApart(h.blocks, BASE, h.heapEnd, q, p); }
  }

  /** Live allocation `p` has at least `size` bytes of what it had. */
  ghost predicate Resized(live: map<nat, nat>, live': map<nat, nat>, p: nat, size: nat) {
    && p in live && p in live' && live' == live[p := live'[p]] && p % ALIGN == 0
    && size <= live'[p] <= live[p] && live'[p] < size + OVERHEAD + ALIGN
  }

  /** `r` replaces `p`: the same address or a new one, aligned, large enough, and not much larger. */
  ghost predicate Reallocated(live: map<nat, nat>, live': map<nat, nat>, p: nat, r: nat, size: nat) {
    && r in live' && size <= live'[r] < size + ALIGN + OVERHEAD + ALIGN && r % ALIGN == 0 && (r == p || r !in live)
    && live' == (live - {p})[r := live'[r]]
  }

  /** The `n` bytes at `from` are now at `to`. */
  ghost predicate Copied(bytes: Block, from: nat, bytes': Block, to: nat, n: nat) {
    && BASE <= from && from - BASE + n <= |bytes| && BASE <= to && to - BASE + n <= |bytes'|
    && PayloadAt(bytes', to, n) == PayloadAt(bytes, from, n)
  }

  lemma SplitShrinks(bs: seq<Chunk>, bs1: seq<Chunk>, i: nat, size: nat)
    requires i < |bs| && !bs[i].free && bs[i].size >= size && SplitEffect(bs, bs1, i, size) && bs[i].Payload() % ALIGN == 0
    requires bs[i].Payload() in Live(bs) && Live(bs)[bs[i].Payload()] == bs[i].size
    ensures i < |bs1| && !bs1[i].free && bs1[i].addr == bs[i].addr && bs1[i].size <= bs[i].size
    ensures Resized(Live(bs), Live(bs1), bs[i].Payload(), size) && LiveBytes(bs1) + (bs[i].size - bs1[i].size) == LiveBytes(bs)
  {
    hide Live, LiveBytes;
  }

  /** A block too small for the rounded request is smaller than the request. */
  lemma SmallerBlock(bs: seq<Chunk>, start: nat, end: nat, i: nat, rounded: nat, size: nat)
    requires Tiles(bs, start, end) && i < |bs| && bs[i].size < rounded && rounded % ALIGN == 0 && rounded < size + ALIGN
    ensures bs[i].size < size
  {
  }

  lemma KeepsBefore(bs: seq<Chunk>, i: nat)
    requires i + 1 < |bs|
    ensures i < |Merge(bs, i + 1)| && Merge(bs, i + 1)[i] == bs[i]
  {
  }

  lemma InsideHeap(bs: seq<Chunk>, end: nat, p: nat)
    requires Tiles(bs, BASE, end) && p in Live(bs)
    ensures BASE + OVERHEAD <= p && p + Live(bs)[p] <= end
  {
    LiveIs(bs, BASE, end, p);
    AllOrdered(bs, BASE, end);
  }

  /** Writing inside one live payload changes no other. */
  lemma OneSpliced(bs: seq<Chunk>, end: nat, p: nat, bytes: Block, what: Block)
    requires Tiles(bs, BASE, end) && BASE <= end == BASE + |bytes| && p in Live(bs) && |what| <= Live(bs)[p]
    ensures BASE <= p && p - BASE + |what| <= |bytes|
    ensures LiveKept(Live(bs) - {p}, bytes, Splice(bytes, p - BASE, what))
  {
    InsideHeap(bs, end, p);
    var live := Live(bs) - {p};
    forall q | q in live ensures RangeKept(q, q + live[q], bytes, Splice(bytes, p - BASE, what)) {
      if p < q { LiveApart(bs, BASE, end, p, q); } else { LiveApart(bs, BASE, end, q, p); }
    }
  }

  lemma CopiedBy(bytes: Block, from: nat, to: nat, n: nat)
    requires BASE <= from && from - BASE + n <= |bytes| && BASE <= to && to - BASE + n <= |bytes|
    ensures Copied(bytes, from, Splice(bytes, to - BASE, PayloadAt(bytes, from, n)), to, n)
  {
    assert PayloadAt(Splice(bytes, to - BASE, PayloadAt(bytes, from, n)), to, n) == PayloadAt(bytes, from, n);
  }

  lemma KeptIsCopied(bytes: Block, bytes': Block, p: nat, size: nat, n: nat)
    requires RangeKept(p, p + size, bytes, bytes') && n <= size && BASE <= p && p - BASE + size <= |bytes|
    ensures Copied(bytes, p, bytes', p, n)
  {
  }

  lemma ShrunkContent(live: map<nat, nat>, live': map<nat, nat>, p: nat, size: nat, rounded: nat, b0: Block, b1: Block)
    requires Resized(live, live', p, rounded) && size <= rounded < size + ALIGN && LiveKept(live', b0, b1)
    requires BASE <= p && p - BASE + live[p] <= |b0|
    ensures Reallocated(live, live', p, p, size) && LiveKept(live - {p, p}, b0, b1)
    ensures Copied(b0, p, b1, p, Min(live[p], size))
  {
    SubsetKept(live', live - {p, p}, b0, b1);
    assert RangeKept(p, p + live'[p], b0, b1);
    KeptIsCopied(b0, b1, p, live'[p], Min(live[p], size));
    hide RangeKept, Copied;
  }

  lemma MovedApart(live: map<nat, nat>, live1: map<nat, nat>, p: nat, r: nat, size: nat)
    requires p in live && Allocated(live, live1, r, size, ALIGN + OVERHEAD + ALIGN)
    ensures p in live1 && live1[p] == live[p] && r in live1 && r != p && size <= live1[r]
  {
  }

  lemma CopiedThrough(b0: Block, p: nat, b1: Block, b2: Block, r: nat, b3: Block, n: nat, m: nat, size: nat)
    requires RangeKept(p, p + n, b0, b1) && BASE <= p && p - BASE + n <= |b0| && Copied(b1, p, b2, r, n)
    requires RangeKept(r, r + size, b2, b3) && n <= size && m <= n
    ensures Copied(b0, p, b3, r, m)
  {
    assert |b2| <= |b3| && |b0| <= |b1|;
    forall k | 0 <= k < m ensures PayloadAt(b3, r, m)[k] == PayloadAt(b0, p, m)[k] {
      assert b3[r - BASE + k] == b2[r - BASE + k];
      assert b2[r - BASE + k] == PayloadAt(b2, r, n)[k] == PayloadAt(b1, p, n)[k] == b1[p - BASE + k];
      assert b1[p - BASE + k] == b0[p - BASE + k];
    }
  }

  lemma MovedContent(live: map<nat, nat>, live1: map<nat, nat>, p: nat, r: nat, size: nat, n: nat,
                     b0: Block, b1: Block, b2: Block, b3: Block)
    requires p in live && n == live[p] && n <= size && Allocated(live, live1, r, size, ALIGN + OVERHEAD + ALIGN)
    requires LiveKept(live, b0, b1) && LiveKept(live1 - {r}, b1, b2) && LiveKept(live1 - {p}, b2, b3)
    requires Copied(b1, p, b2, r, n) && BASE <= p && p - BASE + n <= |b0|
    ensures Reallocated(live, live1 - {p}, p, r, size) && LiveKept(live - {p, r}, b0, b3)
    ensures Copied(b0, p, b3, r, Min(n, size))
  {
    assert RangeKept(p, p + live[p], b0, b1) && r in live1 - {p} && RangeKept(r, r + (live1 - {p})[r], b2, b3);
    CopiedThrough(b0, p, b1, b2, r, b3, n, Min(n, size), live1[r]);
    hide RangeKept, Copied;
    SubsetKept(live, live - {p, r}, b0, b1);
    SubsetKept(live1 - {r}, live - {p, r}, b1, b2);
    SubsetKept(live1 - {p}, live - {p, r}, b2, b3);
    LiveKeptTransitive(live - {p, r}, b0, b1, b2);
    LiveKeptTransitive(live - {p, r}, b0, b2, b3);
    assert live1 - {p} == (live - {p})[r := live1[r]];
  }

  lemma WithoutKept(live: map<nat, nat>, who: set<nat>, bytes: Block, bytes': Block)
    requires LiveKept(live, bytes, bytes')
    ensures LiveKept(live - who, bytes, bytes')
  {
    SubsetKept(live, live - who, bytes, bytes');
  }

  lemma SameLive(a: map<nat, nat>, b: map<nat, nat>)
    requires a == b
    ensures forall bytes, bytes' :: LiveKept(a, bytes, bytes') <==> LiveKept(b, bytes, bytes')
  {
  }

  lemma SizeCounted(bs: seq<Chunk>, start: nat, end: nat, i: nat)
    requires Tiles(bs, start, end) && i < |bs| && !bs[i].free
    ensures bs[i].size <= LiveBytes(bs)
  {
    MarkLive(bs, start, end, i, true);
  }

  lemma NullIsNotLive(bs: seq<Chunk>, end: nat)
    requires Tiles(bs, BASE, end)
    ensures Live(bs) - {0} == Live(bs)
  {
    LiveIs(bs, BASE, end, 0);
    AllOrdered(bs, BASE, end);
  }

  /** The block of a live payload. */
  ghost function LiveIndex(bs: seq<Chunk>, start: nat, end: nat, p: nat): (i: nat)
    requires Tiles(bs, start, end) && p in Live(bs)
    ensures i < |bs| && !bs[i].free && bs[i].Payload() == p && bs[i].size == Live(bs)[p]
  {
    LiveIs(bs, start, end, p);
    var i :| 0 <= i < |bs| && !bs[i].free && bs[i].Payload() == p;
    i
  }

  /** Freeing a block and merging it both ways leaves no free neighbours. */
  lemma FreedNeat(bs: seq<Chunk>, bs1: seq<Chunk>, i: nat)
    requires NoFreeNeighbours(bs) && i < |bs| && !bs[i].free && bs1 == bs[i := bs[i].(free := true)]
    ensures var bs2 := Merge(bs1, i);
            && i < |bs2| && bs2[i].free && bs2[i].addr == bs[i].addr && (i > 0 ==> bs2[i - 1] == bs[i - 1])
            && NoFreeNeighbours(if i > 0 && bs2[i - 1].free then Merge(bs2, i - 1) else bs2)
  {
  }

  lemma FreedEffect(bs: seq<Chunk>, bs1: seq<Chunk>, bs2: seq<Chunk>, i: nat, b0: Block, b1: Block, b2: Block)
    requires i < |bs| && !bs[i].free && MarkEffect(bs, bs1, i, true)
    requires Live(bs2) == Live(bs1) && LiveBytes(bs2) == LiveBytes(bs1)
    requires LiveKept(Live(bs1), b0, b1) && LiveKept(Live(bs2), b1, b2)
    ensures Live(bs2) == Live(bs) - {bs[i].Payload()} && LiveBytes(bs2) + bs[i].size == LiveBytes(bs)
    ensures LiveKept(Live(bs2), b0, b2)
  {
    hide Live, LiveBytes, RangeKept;
    LiveKeptTransitive(Live(bs2), b0, b1, b2);
  }

  /** Rounding is idempotent, so the request that expand_heap sees does not wrap either. */
  lemma RoundedTwice(size: nat)
    requires NoWrap(size)
    ensures Rounded(Rounded(size)) == Rounded(size) && NoWrap(Rounded(size))
  {
  }

  /** A new live allocation at `p`, aligned, of at least `size` bytes and less than `waste` more. */
  ghost predicate Allocated(live: map<nat, nat>, live': map<nat, nat>, p: nat, size: nat, waste: nat) {
    && p % ALIGN == 0 && p !in live && p in live' && live' == live[p := live'[p]]
    && size <= live'[p] < size + waste
  }

  lemma SplitTaken(bs: seq<Chunk>, bs1: seq<Chunk>, i: nat, size: nat)
    requires i < |bs| && bs[i].free && bs1 == Split(bs, i, size) && SplitEffect(bs, bs1, i, size) && NoFreeNeighbours(bs)
    ensures i < |bs1| && bs1[i].free && bs1[i].addr == bs[i].addr && Live(bs1) == Live(bs) && LiveBytes(bs1) == LiveBytes(bs)
    ensures NoFreeNeighbours(bs1[i := bs1[i].(free := false)])
  {
    hide Live, LiveBytes;
  }

  lemma SubsetKept(live: map<nat, nat>, live': map<nat, nat>, bytes: Block, bytes': Block)
    requires LiveKept(live, bytes, bytes') && forall q :: q in live' ==> q in live && live[q] == live'[q]
    ensures LiveKept(live', bytes, bytes')
  {
    hide RangeKept;
    forall q | q in live' ensures RangeKept(q, q + live'[q], bytes, bytes') {
      assert RangeKept(q, q + live[q], bytes, bytes');
    }
  }

  lemma TakenEffect(bs: seq<Chunk>, bs1: seq<Chunk>, bs2: seq<Chunk>, i: nat, size: nat, b0: Block, b1: Block, b2: Block)
    requires i < |bs| && i < |bs1| && bs[i].free && bs1[i].free && bs[i].size >= size && SplitEffect(bs, bs1, i, size)
    requires MarkEffect(bs1, bs2, i, false) && bs[i].Payload() % ALIGN == 0
    requires LiveKept(Live(bs1), b0, b1) && LiveKept(Live(bs2), b1, b2)
    ensures Allocated(Live(bs), Live(bs2), bs[i].Payload(), size, OVERHEAD + ALIGN) && LiveBytes(bs2) == LiveBytes(bs1) + bs1[i].size
    ensures LiveKept(Live(bs), b0, b2)
  {
    hide Live, LiveBytes, RangeKept;
    SubsetKept(Live(bs2), Live(bs), b1, b2);
    LiveKeptTransitive(Live(bs), b0, b1, b2);
  }

  /** Nothing happened at all. */
  lemma NothingMoved(w: World, live: map<nat, nat>, bytes: Block)
    ensures SameLeaves(w.memory, w.home, w.memory) && LiveKept(live, bytes, bytes)
  {
  }

  /** The heap's frames only ever grow, by frames from the free list. */
  ghost predicate Books(w0: World, w: World, frames0: seq<nat>, frames: seq<nat>) {
    |frames0| <= |frames| && frames[..|frames0|] == frames0 && Ledger(w0, w, frames[|frames0|..])
  }

  lemma BooksClosed(w0: World, w: World, frames: seq<nat>, pages: seq<nat>)
    requires Ledger(w0, w, pages)
    ensures Books(w0, w, frames, frames + pages)
    ensures pages == [] ==> Books(w0, w, frames, frames)
  {
    assert (frames + pages)[|frames|..] == pages;
    assert frames[|frames|..] == [];
  }

  lemma AppendTiles(bs: seq<Chunk>, start: nat, end: nat, size: nat)
    requires Tiles(bs, start, end) && size % ALIGN == 0 && size >= ALIGN
    ensures Tiles(bs + [Chunk(end, true, size)], start, end + OVERHEAD + size)
  {
  }

  lemma AppendLive(bs: seq<Chunk>, c: Chunk)
    requires c.free
    ensures Live(bs + [c]) == Live(bs) && LiveBytes(bs + [c]) == LiveBytes(bs)
  {
    LiveConcat(bs, [c]);
    BytesConcat(bs, [c]);
    LiveOne(c);
  }

  /** A free block behind the last one, merged with it if that is free too, leaves no free neighbours and has room. */
  lemma AppendNeat(bs: seq<Chunk>, c: Chunk, size: nat)
    requires NoFreeNeighbours(bs) && c.free && c.size >= size
    ensures bs == [] || !bs[|bs| - 1].free ==> NoFreeNeighbours(bs + [c]) && !NoFit(bs + [c], size)
    ensures bs != [] && bs[|bs| - 1].free ==>
              NoFreeNeighbours(Merge(bs + [c], |bs| - 1)) && !NoFit(Merge(bs + [c], |bs| - 1), size)
  {
    if bs == [] || !bs[|bs| - 1].free {
      assert (bs + [c])[|bs|] == c;
    } else {
      var m := Merge(bs + [c], |bs| - 1);
      assert m[|bs| - 1].free && m[|bs| - 1].size >= size;
    }
  }

  lemma BytesAppended(live: map<nat, nat>, bytes: Block, more: Block)
    ensures LiveKept(live, bytes, bytes + more)
  {
  }

  lemma LastFits(bs: seq<Chunk>, start: nat, end: nat)
    requires Tiles(bs, start, end) && |bs| >= 2
    ensures start <= bs[|bs| - 2].addr && bs[|bs| - 2].End() <= end && bs[|bs| - 2].addr != bs[|bs| - 1].addr
  {
    AllOrdered(bs, start, end);
  }

  lemma FirstBlock(h: Headers, bs: seq<Chunk>, start: nat, end: nat, first: nat, last: nat)
    requires Tiles(bs, start, end) && 0 < start && Linked(h, bs, first, last)
    ensures first == (if bs == [] then 0 else bs[0].addr) && (bs != [] ==> first != 0)
    ensures last == (if bs == [] then 0 else bs[|bs| - 1].addr) && (bs != [] ==> last != 0 && last in h)
  {
    AllOrdered(bs, start, end);
    if bs != [] { assert LinkedAt(h, bs, |bs| - 1); }
  }

  lemma MergeNot(bs: seq<Chunk>, i: nat)
    requires i < |bs| && (i + 1 == |bs| || !bs[i + 1].free)
    ensures Merge(bs, i) == bs
  {
  }

  lemma MergePlaces(bs: seq<Chunk>, start: nat, end: nat, i: nat)
    requires Tiles(bs, start, end) && i + 1 < |bs| && bs[i + 1].free
    ensures |Merge(bs, i)| == |bs| - 1 && Merge(bs, i)[i].addr == bs[i].addr
    ensures i + 2 < |bs| ==> Merge(bs, i)[i + 1].addr == bs[i + 2].addr && bs[i + 2].addr != bs[i].addr
                             && bs[i + 2].addr != bs[i + 1].addr
  {
    AllOrdered(bs, start, end);
    MergeAt(bs, i, i);
    if i + 2 < |bs| { MergeAt(bs, i, i + 1); }
  }

  /** What the header of block `i` says. */
  lemma HeaderAt(h: Headers, bs: seq<Chunk>, start: nat, end: nat, first: nat, last: nat, i: nat)
    requires Tiles(bs, start, end) && Linked(h, bs, first, last) && i < |bs|
    ensures bs[i].addr in h && h[bs[i].addr] == HeaderOf(bs, i)
    ensures start <= bs[i].addr && bs[i].End() <= end
  {
    assert LinkedAt(h, bs, i);
    AllOrdered(bs, start, end);
  }

  lemma HeaderNext(h: Headers, bs: seq<Chunk>, start: nat, end: nat, first: nat, last: nat, i: nat)
    requires Tiles(bs, start, end) && 0 < start && Linked(h, bs, first, last) && i < |bs|
    ensures i + 1 < |bs| ==> bs[i + 1].addr in h && h[bs[i + 1].addr] == HeaderOf(bs, i + 1) && bs[i + 1].addr != bs[i].addr
                             && start <= bs[i + 1].addr && bs[i + 1].End() <= end
    ensures bs[i].addr in h && (h[bs[i].addr].next == 0 <==> i + 1 == |bs|)
    ensures i + 1 < |bs| ==> h[bs[i].addr].next == bs[i + 1].addr
  {
    assert LinkedAt(h, bs, i);
    AllOrdered(bs, start, end);
    if i + 1 < |bs| { assert LinkedAt(h, bs, i + 1); }
  }

  lemma PayloadsSame(bs: seq<Chunk>, bytes: Block)
    ensures PayloadsKept(bs, bytes, bytes)
  {
  }

  lemma SplitNot(bs: seq<Chunk>, i: nat, size: nat)
    requires i < |bs| && bs[i].size < size + OVERHEAD + ALIGN
    ensures Split(bs, i, size) == bs
  {
  }

  /** Where the blocks of a split lie. */
  lemma SplitPlaces(bs: seq<Chunk>, start: nat, end: nat, i: nat, size: nat)
    requires Tiles(bs, start, end) && i < |bs| && bs[i].size >= size + OVERHEAD + ALIGN && size >= ALIGN
    ensures var bs' := Split(bs, i, size);
            && |bs'| == |bs| + 1 && bs'[i].addr == bs[i].addr && bs'[i + 1].addr == bs[i].Payload() + size
            && bs'[i + 1].addr + OVERHEAD <= end && bs'[i + 1].addr != bs[i].addr
            && (i + 1 < |bs| ==> bs'[i + 2].addr == bs[i + 1].addr && bs[i + 1].addr > bs'[i + 1].addr)
  {
    AllOrdered(bs, start, end);
    SplitAt(bs, i, size, i);
    SplitAt(bs, i, size, i + 1);
    if i + 1 < |bs| { SplitAt(bs, i, size, i + 2); }
  }
}
