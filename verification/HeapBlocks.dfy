/** The kernel heap's block list as a value: how blocks tile the heap, how they are split and merged, and what that
    does to the live allocations. */
module HeapBlocks {
  import opened Bytes

  const BASE: nat := 0xffffc00000000000
  const MAX_SIZE: nat := 64 * 1024 * 1024
  const CHUNK_SIZE: nat := 64 * 1024
  const ALIGN: nat := 16
  const OVERHEAD: nat := 32
  const MAGIC: nat := 0x48454150

  /** The header in front of each block; 0 is the null pointer. */
  datatype Header = Header(magic: nat, free: bool, size: nat, prev: nat, next: nat)

  /** A block: the address of its header, and its payload. */
  datatype Chunk = Chunk(addr: nat, free: bool, size: nat)
  {
    function Payload(): nat { addr + OVERHEAD }
    function End(): nat { addr + OVERHEAD + size }
  }

  /** The blocks lie back to back from `start` to `end`. */
  ghost predicate Tiles(bs: seq<Chunk>, start: nat, end: nat) {
    && (forall i :: 0 <= i < |bs| ==> bs[i].size % ALIGN == 0 && bs[i].size >= ALIGN)
    && (forall i, j :: 0 <= i < |bs| && j == i + 1 && j < |bs| ==> bs[j].addr == bs[i].End())
    && if bs == [] then start == end else bs[0].addr == start && bs[|bs| - 1].End() == end
  }

  ghost predicate NoFreeNeighbours(bs: seq<Chunk>) {
    forall i, j :: 0 <= i < |bs| && j == i + 1 && j < |bs| ==> !(bs[i].free && bs[j].free)
  }

  /** Where block `i` lies, relative to the others. */
  lemma {:induction false} Ordered(bs: seq<Chunk>, start: nat, end: nat, i: nat, j: nat)
    requires Tiles(bs, start, end) && i < j < |bs|
    ensures bs[i].End() <= bs[j].addr
    decreases j
  {
    if i + 1 < j {
      Ordered(bs, start, end, i, j - 1);
    }
  }

  lemma AllOrdered(bs: seq<Chunk>, start: nat, end: nat)
    requires Tiles(bs, start, end)
    ensures forall i, j :: 0 <= i < j < |bs| ==> bs[i].End() <= bs[j].addr
    ensures forall i :: 0 <= i < |bs| ==> start <= bs[i].addr && bs[i].End() <= end
  {
    forall i, j | 0 <= i < j < |bs| ensures bs[i].End() <= bs[j].addr {
      Ordered(bs, start, end, i, j);
    }
  }

  lemma {:induction false} AlignedBlocks(bs: seq<Chunk>, start: nat, end: nat, i: nat)
    requires Tiles(bs, start, end) && i < |bs| && start % ALIGN == 0
    ensures bs[i].addr % ALIGN == 0 && bs[i].Payload() % ALIGN == 0
    decreases i
  {
    if i > 0 {
      AlignedBlocks(bs, start, end, i - 1);
      assert bs[i].addr == bs[i - 1].End();
    }
  }

  // ---------- splitting and merging ----------

  /** split_block: cuts block `i` to `size` bytes when the rest holds a header and at least one unit. */
  function Split(bs: seq<Chunk>, i: nat, size: nat): (r: seq<Chunk>)
    requires i < |bs|
  {
    var c := bs[i];
    if c.size < size + OVERHEAD + ALIGN then bs
    else bs[..i] + [c.(size := size), Chunk(c.Payload() + size, true, c.size - size - OVERHEAD)] + bs[i + 1..]
  }

  /** coalesce_with_next: block `i` absorbs the next one if that is free. */
  function Merge(bs: seq<Chunk>, i: nat): (r: seq<Chunk>)
    requires i < |bs|
  {
    if i + 1 >= |bs| || !bs[i + 1].free then bs
    else bs[..i] + [bs[i].(size := bs[i].size + OVERHEAD + bs[i + 1].size)] + bs[i + 2..]
  }

  /** Tilings can be cut at a block and put together. */
  lemma TilesCut(bs: seq<Chunk>, start: nat, end: nat, i: nat)
    requires Tiles(bs, start, end) && i < |bs|
    ensures Tiles(bs[..i], start, bs[i].addr) && Tiles(bs[i..], bs[i].addr, end) && Tiles(bs[i + 1..], bs[i].End(), end)
    ensures bs[i].size % ALIGN == 0 && bs[i].size >= ALIGN && (i + 1 < |bs| ==> bs[i + 1].addr == bs[i].End())
  {
    TilesPrefix(bs, start, end, i);
    TilesSuffix(bs, start, end, i);
  }

  lemma TilesPrefix(bs: seq<Chunk>, start: nat, end: nat, i: nat)
    requires Tiles(bs, start, end) && i < |bs|
    ensures Tiles(bs[..i], start, bs[i].addr)
  {
    if i > 0 { assert bs[i].addr == bs[i - 1].End(); }
  }

  lemma TilesSuffix(bs: seq<Chunk>, start: nat, end: nat, i: nat)
    requires Tiles(bs, start, end) && i < |bs|
    ensures Tiles(bs[i..], bs[i].addr, end) && Tiles(bs[i + 1..], bs[i].End(), end)
  {
    if i + 1 < |bs| { assert bs[i + 1].addr == bs[i].End(); }
  }

  lemma TilesJoin(a: seq<Chunk>, b: seq<Chunk>, start: nat, mid: nat, end: nat)
    requires Tiles(a, start, mid) && Tiles(b, mid, end)
    ensures Tiles(a + b, start, end)
  {
    var s := a + b;
    assert forall k :: 0 <= k < |a| ==> s[k] == a[k];
    assert forall k :: 0 <= k < |b| ==> s[|a| + k] == b[k];
    forall i, j | 0 <= i < |s| && j == i + 1 && j < |s| ensures s[j].addr == s[i].End() {
      if j < |a| {
        assert a[j].addr == a[i].End();
      } else if i >= |a| {
        assert b[j - |a|].addr == b[i - |a|].End();
      }
    }
  }

  lemma OneTile(c: Chunk)
    requires c.size % ALIGN == 0 && c.size >= ALIGN
    ensures Tiles([c], c.addr, c.End())
  {
  }

  lemma RestAligned(a: nat, b: nat)
    requires a % ALIGN == 0 && b % ALIGN == 0 && a >= b + OVERHEAD
    ensures (a - b - OVERHEAD) % ALIGN == 0
  {
  }

  lemma TwoTiles(c: Chunk, size: nat)
    requires c.size % ALIGN == 0 && size % ALIGN == 0 && size >= ALIGN && c.size >= size + OVERHEAD + ALIGN
    ensures Tiles([c.(size := size), Chunk(c.Payload() + size, true, c.size - size - OVERHEAD)], c.addr, c.End())
  {
    RestAligned(c.size, size);
  }

  lemma SplitTiles(bs: seq<Chunk>, start: nat, end: nat, i: nat, size: nat)
    requires Tiles(bs, start, end) && i < |bs| && size % ALIGN == 0 && size >= ALIGN
    ensures Tiles(Split(bs, i, size), start, end)
  {
    hide Tiles;
    var c := bs[i];
    if c.size >= size + OVERHEAD + ALIGN {
      TilesCut(bs, start, end, i);
      TwoTiles(c, size);
      var mid := [c.(size := size), Chunk(c.Payload() + size, true, c.size - size - OVERHEAD)];
      TilesJoin(bs[..i], mid, start, c.addr, c.End());
      TilesJoin(bs[..i] + mid, bs[i + 1..], start, c.End(), end);
      assert Split(bs, i, size) == bs[..i] + mid + bs[i + 1..];
    }
  }

  lemma JoinedTile(c: Chunk, d: Chunk)
    requires c.size % ALIGN == 0 && d.size % ALIGN == 0 && c.size >= ALIGN && d.addr == c.End()
    ensures Tiles([c.(size := c.size + OVERHEAD + d.size)], c.addr, d.End())
  {
    OneTile(c.(size := c.size + OVERHEAD + d.size));
    hide Tiles;
  }

  lemma MergeTiles(bs: seq<Chunk>, start: nat, end: nat, i: nat)
    requires Tiles(bs, start, end) && i < |bs|
    ensures Tiles(Merge(bs, i), start, end)
  {
    if i + 1 < |bs| && bs[i + 1].free {
      hide Tiles;
      TilesCut(bs, start, end, i);
      TilesCut(bs, start, end, i + 1);
      var c, d := bs[i], bs[i + 1];
      var mid := [c.(size := c.size + OVERHEAD + d.size)];
      JoinedTile(c, d);
      TilesJoin(bs[..i], mid, start, c.addr, d.End());
      TilesJoin(bs[..i] + mid, bs[i + 2..], start, d.End(), end);
    }
  }

  /** Splitting gives neighbours apart from the one behind the new block, which merging then repairs. */
  lemma SplitMerge(bs: seq<Chunk>, i: nat, size: nat)
    requires NoFreeNeighbours(bs) && i < |bs| && !bs[i].free
    ensures NoFreeNeighbours(if i + 1 < |Split(bs, i, size)| && Split(bs, i, size)[i + 1].free then Merge(Split(bs, i, size), i + 1)
                             else Split(bs, i, size))
  {
  }

  // ---------- live allocations ----------

  /** The live allocations: payload address to size. */
  function Live(bs: seq<Chunk>): map<nat, nat> {
    if bs == [] then map[]
    else (if bs[0].free then map[] else map[bs[0].Payload() := bs[0].size]) + Live(bs[1..])
  }

  function LiveBytes(bs: seq<Chunk>): nat {
    if bs == [] then 0 else (if bs[0].free then 0 else bs[0].size) + LiveBytes(bs[1..])
  }

  function FreeBytes(bs: seq<Chunk>): nat {
    if bs == [] then 0 else (if bs[0].free then bs[0].size else 0) + FreeBytes(bs[1..])
  }

  lemma {:induction false} BytesConcat(a: seq<Chunk>, b: seq<Chunk>)
    ensures LiveBytes(a + b) == LiveBytes(a) + LiveBytes(b) && FreeBytes(a + b) == FreeBytes(a) + FreeBytes(b)
    decreases |a|
  {
    if a == [] {
      assert a + b == b;
    } else {
      assert (a + b)[1..] == a[1..] + b;
      BytesConcat(a[1..], b);
    }
  }

  lemma {:induction false} LiveConcat(a: seq<Chunk>, b: seq<Chunk>)
    ensures Live(a + b) == Live(a) + Live(b)
    decreases |a|
  {
    if a == [] {
      assert a + b == b;
    } else {
      assert (a + b)[1..] == a[1..] + b && (a + b)[0] == a[0];
      LiveConcat(a[1..], b);
    }
  }

  lemma LiveOne(c: Chunk)
    ensures Live([c]) == if c.free then map[] else map[c.Payload() := c.size]
    ensures LiveBytes([c]) == (if c.free then 0 else c.size) && FreeBytes([c]) == if c.free then c.size else 0
  {
    assert [c][1..] == [];
  }

  /** Payload address `p` is live exactly when a block in use has it. */
  lemma {:induction false} LiveIs(bs: seq<Chunk>, start: nat, end: nat, p: nat)
    requires Tiles(bs, start, end)
    ensures p in Live(bs) <==> exists i :: 0 <= i < |bs| && !bs[i].free && bs[i].Payload() == p
    ensures forall i :: 0 <= i < |bs| && !bs[i].free && bs[i].Payload() == p ==> Live(bs)[p] == bs[i].size
    decreases |bs|
  {
    if bs != [] {
      AllOrdered(bs, start, end);
      LiveIs(bs[1..], bs[0].End(), end, p);
      assert forall i :: 1 <= i < |bs| ==> bs[i] == bs[1..][i - 1];
    }
  }

  /** The block's payload belongs to no other block. */
  lemma OwnPayload(bs: seq<Chunk>, start: nat, end: nat, i: nat)
    requires Tiles(bs, start, end) && i < |bs|
    ensures bs[i].Payload() !in Live(bs[..i]) && bs[i].Payload() !in Live(bs[i + 1..])
  {
    AllOrdered(bs, start, end);
    LiveIs(bs[..i], start, bs[i].addr, bs[i].Payload());
    LiveIs(bs[i + 1..], bs[i].End(), end, bs[i].Payload());
    hide Live;
  }

  lemma LiveConcat3(a: seq<Chunk>, b: seq<Chunk>, c: seq<Chunk>)
    ensures Live(a + b + c) == Live(a) + Live(b) + Live(c)
    ensures LiveBytes(a + b + c) == LiveBytes(a) + LiveBytes(b) + LiveBytes(c)
  {
    hide Live, LiveBytes;
    LiveConcat(a + b, c);
    LiveConcat(a, b);
    BytesConcat(a + b, c);
    BytesConcat(a, b);
  }

  /** Exchanging the middle of a list for one with the same live allocations. */
  lemma SameMiddle(a: seq<Chunk>, mid: seq<Chunk>, mid': seq<Chunk>, z: seq<Chunk>)
    requires Live(mid') == Live(mid) && LiveBytes(mid') == LiveBytes(mid)
    ensures Live(a + mid' + z) == Live(a + mid + z) && LiveBytes(a + mid' + z) == LiveBytes(a + mid + z)
  {
    LiveConcat3(a, mid, z);
    LiveConcat3(a, mid', z);
  }

  /** Exchanging one block for another at the same address. */
  lemma OtherMiddle(a: seq<Chunk>, c: Chunk, d: Chunk, z: seq<Chunk>)
    requires d.addr == c.addr && c.Payload() !in Live(a) && c.Payload() !in Live(z)
    ensures c.free && !d.free ==> Live(a + [d] + z) == Live(a + [c] + z)[c.Payload() := d.size]
    ensures !c.free && !d.free ==> Live(a + [d] + z) == Live(a + [c] + z)[c.Payload() := d.size]
    ensures !c.free && d.free ==> Live(a + [d] + z) == Live(a + [c] + z) - {c.Payload()}
    ensures c.Payload() in Live(a + [c] + z) <==> !c.free
    ensures LiveBytes(a + [d] + z) + (if c.free then 0 else c.size) == LiveBytes(a + [c] + z) + (if d.free then 0 else d.size)
  {
    LiveConcat3(a, [c], z);
    LiveConcat3(a, [d], z);
    LiveOne(c);
    LiveOne(d);
    hide Live, LiveBytes;
  }

  lemma LivePair(x: Chunk, y: Chunk)
    requires y.free
    ensures Live([x, y]) == Live([x]) && LiveBytes([x, y]) == LiveBytes([x])
  {
    LiveConcat([x], [y]);
    BytesConcat([x], [y]);
    LiveOne(y);
    hide Live, LiveBytes;
    assert [x, y] == [x] + [y];
  }

  lemma Parts(bs: seq<Chunk>, i: nat)
    requires i < |bs|
    ensures bs == bs[..i] + [bs[i]] + bs[i + 1..]
    ensures forall c: Chunk :: bs[i := c] == bs[..i] + [c] + bs[i + 1..]
  {
  }

  lemma PairParts(bs: seq<Chunk>, i: nat)
    requires i + 1 < |bs|
    ensures bs == bs[..i] + [bs[i], bs[i + 1]] + bs[i + 2..]
  {
  }

  /** Splitting a free block changes no live allocation; splitting a live one shrinks it. */
  lemma SplitLive(bs: seq<Chunk>, start: nat, end: nat, i: nat, size: nat)
    requires Tiles(bs, start, end) && i < |bs|
    ensures SplitEffect(bs, Split(bs, i, size), i, size)
  {
    var c := bs[i];
    if c.size >= size + OVERHEAD + ALIGN {
      SplitOff(bs, start, end, i, size);
    } else if !c.free {
      hide Live, LiveBytes;
      OwnPayload(bs, start, end, i);
      Parts(bs, i);
      hide Tiles;
      OtherMiddle(bs[..i], c, c, bs[i + 1..]);
    }
  }

  lemma SplitOff(bs: seq<Chunk>, start: nat, end: nat, i: nat, size: nat)
    requires Tiles(bs, start, end) && i < |bs| && bs[i].size >= size + OVERHEAD + ALIGN
    ensures SplitEffect(bs, Split(bs, i, size), i, size)
  {
    hide Live, LiveBytes;
    var c := bs[i];
    var x, y := c.(size := size), Chunk(c.Payload() + size, true, c.size - size - OVERHEAD);
    OwnPayload(bs, start, end, i);
    hide Tiles;
    Parts(bs, i);
    assert Split(bs, i, size) == bs[..i] + [x, y] + bs[i + 1..];
    hide Split;
    LivePair(x, y);
    SameMiddle(bs[..i], [x], [x, y], bs[i + 1..]);
    if c.free {
      LiveOne(c);
      LiveOne(x);
      SameMiddle(bs[..i], [c], [x], bs[i + 1..]);
    } else {
      OtherMiddle(bs[..i], c, x, bs[i + 1..]);
    }
  }

  ghost predicate SplitEffect(bs: seq<Chunk>, bs': seq<Chunk>, i: nat, size: nat)
    requires i < |bs|
  {
    && i < |bs'| && bs'[i].addr == bs[i].addr && bs'[i].free == bs[i].free
    && bs'[i].size == (if bs[i].size < size + OVERHEAD + ALIGN then bs[i].size else size)
    && Live(bs') == (if bs[i].free then Live(bs) else Live(bs)[bs[i].Payload() := bs'[i].size])
    && LiveBytes(bs') + (if bs[i].free then 0 else bs[i].size - bs'[i].size) == LiveBytes(bs)
  }

  /** Merging two free blocks changes no live allocation. */
  lemma MergeLive(bs: seq<Chunk>, i: nat)
    requires i < |bs| && bs[i].free
    ensures Live(Merge(bs, i)) == Live(bs) && LiveBytes(Merge(bs, i)) == LiveBytes(bs)
  {
    hide Live, LiveBytes;
    if i + 1 < |bs| && bs[i + 1].free {
      var c, d := bs[i], bs[i + 1];
      var m := c.(size := c.size + OVERHEAD + d.size);
      PairParts(bs, i);
      LivePair(c, d);
      LiveOne(c);
      LiveOne(m);
      SameMiddle(bs[..i], [c, d], [m], bs[i + 2..]);
    }
  }

  /** Taking a free block adds its payload; freeing one takes it away. */
  lemma MarkLive(bs: seq<Chunk>, start: nat, end: nat, i: nat, free: bool)
    requires Tiles(bs, start, end) && i < |bs| && bs[i].free != free
    ensures Tiles(bs[i := bs[i].(free := free)], start, end)
    ensures MarkEffect(bs, bs[i := bs[i].(free := free)], i, free)
  {
    hide Live, LiveBytes;
    OwnPayload(bs, start, end, i);
    Parts(bs, i);
    OtherMiddle(bs[..i], bs[i], bs[i].(free := free), bs[i + 1..]);
  }

  ghost predicate MarkEffect(bs: seq<Chunk>, bs': seq<Chunk>, i: nat, free: bool)
    requires i < |bs|
  {
    var p := bs[i].Payload();
    && (p in Live(bs) <==> free)
    && Live(bs') == (if free then Live(bs) - {p} else Live(bs)[p := bs[i].size])
    && LiveBytes(bs') + (if free then bs[i].size else 0) == LiveBytes(bs) + (if free then 0 else bs[i].size)
  }

  /** The whole heap is headers, live bytes and free bytes. */
  lemma {:induction false} AddsUp(bs: seq<Chunk>, start: nat, end: nat)
    requires Tiles(bs, start, end)
    ensures end - start == |bs| * OVERHEAD + LiveBytes(bs) + FreeBytes(bs)
    decreases |bs|
  {
    if bs != [] {
      AddsUp(bs[1..], bs[0].End(), end);
    }
  }

  /** When nothing is live, the heap is one free block. */
  lemma AllFree(bs: seq<Chunk>, start: nat, end: nat)
    requires Tiles(bs, start, end) && NoFreeNeighbours(bs) && Live(bs) == map[]
    ensures start < end ==> start + OVERHEAD < end && bs == [Chunk(start, true, end - start - OVERHEAD)]
    ensures start == end ==> bs == []
  {
    forall i | 0 <= i < |bs| ensures bs[i].free {
      LiveIs(bs, start, end, bs[i].Payload());
    }
    AllOrdered(bs, start, end);
    assert |bs| <= 1;
  }

  /** Live payloads lie inside the heap, apart from each other and from every header. */
  lemma LiveApart(bs: seq<Chunk>, start: nat, end: nat, p: nat, q: nat)
    requires Tiles(bs, start, end) && p in Live(bs) && q in Live(bs) && p < q
    ensures start + OVERHEAD <= p && p + Live(bs)[p] + OVERHEAD <= q && q + Live(bs)[q] <= end
  {
    LiveIs(bs, start, end, p);
    LiveIs(bs, start, end, q);
    AllOrdered(bs, start, end);
  }
}
