/** The doubly linked headers that represent the block list, and what writing a header leaves alone. */
module HeapLinks {
  import opened Bytes
  import opened HeapBlocks

  type Headers = map<nat, Header>

  /** The header block `i` must have. */
  function HeaderOf(bs: seq<Chunk>, i: nat): Header
    requires i < |bs|
  {
    Header(MAGIC, bs[i].free, bs[i].size, if i == 0 then 0 else bs[i - 1].addr, if i + 1 == |bs| then 0 else bs[i + 1].addr)
  }

  ghost predicate LinkedAt(h: Headers, bs: seq<Chunk>, i: nat)
    requires i < |bs|
  {
    bs[i].addr in h && h[bs[i].addr] == HeaderOf(bs, i)
  }

  ghost predicate Linked(h: Headers, bs: seq<Chunk>, first: nat, last: nat) {
    && (forall i {:trigger LinkedAt(h, bs, i)} :: 0 <= i < |bs| ==> LinkedAt(h, bs, i))
    && first == (if bs == [] then 0 else bs[0].addr) && last == (if bs == [] then 0 else bs[|bs| - 1].addr)
  }

  /** What split_block writes. */
  function SplitHeaders(h: Headers, block: nat, size: nat): Headers
    requires block in h && h[block].size >= size + OVERHEAD && (h[block].next != 0 ==> h[block].next in h)
  {
    var b, split := h[block], block + OVERHEAD + size;
    var h1 := h[split := Header(MAGIC, true, b.size - size - OVERHEAD, block, b.next)];
    var h2 := if b.next == 0 then h1 else h1[b.next := h1[b.next].(prev := split)];
    h2[block := h2[block].(size := size, next := split)]
  }

  lemma SplitLookup(h: Headers, block: nat, size: nat, a: nat)
    requires block in h && h[block].size >= size + OVERHEAD && (h[block].next != 0 ==> h[block].next in h)
    requires h[block].next != block && h[block].next != block + OVERHEAD + size
    ensures var h', b, split := SplitHeaders(h, block, size), h[block], block + OVERHEAD + size;
            && (a in h' <==> a in h || a == split)
            && (a in h' ==> h'[a] == if a == split then Header(MAGIC, true, b.size - size - OVERHEAD, block, b.next)
                                     else if a == block then b.(size := size, next := split)
                                     else if a != 0 && a == b.next then h[a].(prev := split) else h[a])
  {
  }

  /** The blocks after a split, one by one. */
  lemma SplitAt(bs: seq<Chunk>, i: nat, size: nat, k: nat)
    requires i < |bs| && bs[i].size >= size + OVERHEAD + ALIGN && k <= |bs|
    ensures |Split(bs, i, size)| == |bs| + 1
    ensures Split(bs, i, size)[k] ==
            if k < i then bs[k] else if k == i then bs[i].(size := size)
            else if k == i + 1 then Chunk(bs[i].Payload() + size, true, bs[i].size - size - OVERHEAD) else bs[k - 1]
  {
  }

  lemma SplitLinkAt(h: Headers, bs: seq<Chunk>, start: nat, end: nat, i: nat, size: nat, k: nat)
    requires Tiles(bs, start, end) && 0 < start && i < |bs| && bs[i].size >= size + OVERHEAD + ALIGN
    requires forall j {:trigger LinkedAt(h, bs, j)} :: 0 <= j < |bs| ==> LinkedAt(h, bs, j)
    requires bs[i].addr in h && h[bs[i].addr].size == bs[i].size && (h[bs[i].addr].next != 0 ==> h[bs[i].addr].next in h)
    requires k <= |bs| && k < |Split(bs, i, size)|
    ensures LinkedAt(SplitHeaders(h, bs[i].addr, size), Split(bs, i, size), k)
  {
    var bs' := Split(bs, i, size);
    SplitAt(bs, i, size, k);
    if k > 0 { SplitAt(bs, i, size, k - 1); }
    if k < |bs| { SplitAt(bs, i, size, k + 1); }
    Above(bs, start, end, i);
    assert LinkedAt(h, bs, i);
    hide Split, Tiles;
    if i + 1 < |bs| { Ordered(bs, start, end, i, i + 1); assert LinkedAt(h, bs, i + 1); }
    if k < i {
      Ordered(bs, start, end, k, i);
      if i + 1 < |bs| { Ordered(bs, start, end, k, i + 1); }
      assert LinkedAt(h, bs, k);
    } else if k > i + 1 {
      Ordered(bs, start, end, i, k - 1);
      if i + 1 < k - 1 { Ordered(bs, start, end, i + 1, k - 1); }
      assert LinkedAt(h, bs, k - 1);
    }
    assert |bs'| == |bs| + 1;
    SplitLookup(h, bs[i].addr, size, bs'[k].addr);
    hide SplitHeaders;
  }

  lemma Above(bs: seq<Chunk>, start: nat, end: nat, i: nat)
    requires Tiles(bs, start, end) && i < |bs|
    ensures start <= bs[i].addr
    ensures i + 1 < |bs| ==> start <= bs[i + 1].addr
  {
    AllOrdered(bs, start, end);
  }

  lemma SplitLinks(h: Headers, bs: seq<Chunk>, start: nat, end: nat, first: nat, last: nat, i: nat, size: nat)
    requires Tiles(bs, start, end) && 0 < start && Linked(h, bs, first, last) && i < |bs|
    requires bs[i].size >= size + OVERHEAD + ALIGN
    ensures bs[i].addr in h && h[bs[i].addr].size == bs[i].size && (h[bs[i].addr].next != 0 ==> h[bs[i].addr].next in h)
    ensures Linked(SplitHeaders(h, bs[i].addr, size), Split(bs, i, size), first,
                   if h[bs[i].addr].next == 0 then bs[i].Payload() + size else last)
  {
    assert LinkedAt(h, bs, i);
    if i + 1 < |bs| { AllOrdered(bs, start, end); assert LinkedAt(h, bs, i + 1); }
    SplitAt(bs, i, size, 0);
    SplitAt(bs, i, size, |bs|);
    hide Split, LinkedAt;
    forall k | 0 <= k < |Split(bs, i, size)| ensures LinkedAt(SplitHeaders(h, bs[i].addr, size), Split(bs, i, size), k) {
      SplitLinkAt(h, bs, start, end, i, size, k);
    }
    hide SplitHeaders, Tiles;
  }

  /** What coalesce_with_next writes. */
  function MergeHeaders(h: Headers, block: nat): Headers
    requires block in h && h[block].next in h && (h[h[block].next].next != 0 ==> h[h[block].next].next in h)
  {
    var b := h[block];
    var n := h[b.next];
    var h1 := h[block := b.(size := b.size + OVERHEAD + n.size, next := n.next)];
    if n.next == 0 then h1 else if n.next in h1 then h1[n.next := h1[n.next].(prev := block)] else h1
  }

  lemma MergeLookup(h: Headers, block: nat, a: nat)
    requires block in h && h[block].next in h && (h[h[block].next].next != 0 ==> h[h[block].next].next in h)
    requires h[block].next != block && h[h[block].next].next != block
    ensures var h', b, n := MergeHeaders(h, block), h[block], h[h[block].next];
            && (a in h' <==> a in h)
            && (a in h' ==> h'[a] == if a == block then b.(size := b.size + OVERHEAD + n.size, next := n.next)
                                     else if a != 0 && a == n.next then h[a].(prev := block) else h[a])
  {
  }

  lemma MergeAt(bs: seq<Chunk>, i: nat, k: nat)
    requires i + 1 < |bs| && bs[i + 1].free && k < |bs| - 1
    ensures |Merge(bs, i)| == |bs| - 1
    ensures Merge(bs, i)[k] ==
            if k < i then bs[k] else if k == i then bs[i].(size := bs[i].size + OVERHEAD + bs[i + 1].size) else bs[k + 1]
  {
  }

  /** Block `i` and its free neighbour are headers of the list, and so is the block behind them. */
  ghost predicate Neighbours(h: Headers, bs: seq<Chunk>, i: nat)
    requires i + 1 < |bs|
  {
    var b := bs[i].addr;
    && b in h && h[b].next == bs[i + 1].addr && h[b].next in h && h[h[b].next].free == bs[i + 1].free
    && (h[h[b].next].next == if i + 2 < |bs| then bs[i + 2].addr else 0)
    && (h[h[b].next].next != 0 ==> h[h[b].next].next in h)
  }

  lemma MergeLinkAt(h: Headers, bs: seq<Chunk>, start: nat, end: nat, i: nat, k: nat)
    requires Tiles(bs, start, end) && 0 < start && i + 1 < |bs| && bs[i + 1].free
    requires forall j {:trigger LinkedAt(h, bs, j)} :: 0 <= j < |bs| ==> LinkedAt(h, bs, j)
    requires Neighbours(h, bs, i) && k < |bs| - 1 && k < |Merge(bs, i)|
    ensures LinkedAt(MergeHeaders(h, bs[i].addr), Merge(bs, i), k)
  {
    var bs' := Merge(bs, i);
    MergeAt(bs, i, k);
    if k > 0 { MergeAt(bs, i, k - 1); }
    if k < |bs| - 2 { MergeAt(bs, i, k + 1); }
    Above(bs, start, end, i);
    Ordered(bs, start, end, i, i + 1);
    assert LinkedAt(h, bs, i) && LinkedAt(h, bs, i + 1);
    if i + 2 < |bs| { Ordered(bs, start, end, i, i + 2); Ordered(bs, start, end, i + 1, i + 2); assert LinkedAt(h, bs, i + 2); }
    if k < i {
      Ordered(bs, start, end, k, i);
      Ordered(bs, start, end, k, i + 1);
      if i + 2 < |bs| { Ordered(bs, start, end, k, i + 2); }
      assert LinkedAt(h, bs, k);
    } else if k > i {
      Ordered(bs, start, end, i, k + 1);
      if i + 2 < k + 1 { Ordered(bs, start, end, i + 2, k + 1); }
      assert LinkedAt(h, bs, k + 1);
    }
    hide Merge, Tiles;
    assert |bs'| == |bs| - 1;
    MergeLookup(h, bs[i].addr, bs'[k].addr);
    hide MergeHeaders;
  }

  lemma NeighboursLinked(h: Headers, bs: seq<Chunk>, start: nat, end: nat, first: nat, last: nat, i: nat)
    requires Tiles(bs, start, end) && 0 < start && Linked(h, bs, first, last) && i + 1 < |bs|
    ensures Neighbours(h, bs, i)
  {
    Above(bs, start, end, i);
    assert LinkedAt(h, bs, i) && LinkedAt(h, bs, i + 1);
    if i + 2 < |bs| { Above(bs, start, end, i + 1); assert LinkedAt(h, bs, i + 2); }
  }

  lemma MergeLinks(h: Headers, bs: seq<Chunk>, start: nat, end: nat, first: nat, last: nat, i: nat)
    requires Tiles(bs, start, end) && 0 < start && Linked(h, bs, first, last) && i + 1 < |bs|
    ensures Neighbours(h, bs, i)
    ensures bs[i + 1].free ==>
              var b := bs[i].addr;
              Linked(MergeHeaders(h, b), Merge(bs, i), first, if h[h[b].next].next == 0 then b else last)
  {
    NeighboursLinked(h, bs, start, end, first, last, i);
    if i + 2 < |bs| { Above(bs, start, end, i + 1); }
    hide LinkedAt;
    if bs[i + 1].free {
      MergeAt(bs, i, 0);
      MergeAt(bs, i, |bs| - 2);
      hide Merge;
      forall k | 0 <= k < |Merge(bs, i)| ensures LinkedAt(MergeHeaders(h, bs[i].addr), Merge(bs, i), k) {
        MergeLinkAt(h, bs, start, end, i, k);
      }
      hide MergeHeaders, Tiles;
    }
  }

  lemma MarkLinks(h: Headers, bs: seq<Chunk>, start: nat, end: nat, first: nat, last: nat, i: nat, free: bool)
    requires Tiles(bs, start, end) && Linked(h, bs, first, last) && i < |bs|
    ensures bs[i].addr in h
    ensures Linked(h[bs[i].addr := h[bs[i].addr].(free := free)], bs[i := bs[i].(free := free)], first, last)
  {
    AllOrdered(bs, start, end);
    assert LinkedAt(h, bs, i);
    var h', bs' := h[bs[i].addr := h[bs[i].addr].(free := free)], bs[i := bs[i].(free := free)];
    forall k | 0 <= k < |bs'| ensures LinkedAt(h', bs', k) {
      assert LinkedAt(h, bs, k);
    }
  }

  /** What append_block writes. */
  function AppendHeaders(h: Headers, block: nat, size: nat, last: nat): Headers
    requires last != 0 ==> last in h
  {
    var h1 := h[block := Header(MAGIC, true, size, last, 0)];
    if last != 0 then h1[last := h1[last].(next := block)] else h1
  }

  lemma AppendLinks(h: Headers, bs: seq<Chunk>, start: nat, end: nat, first: nat, last: nat, size: nat)
    requires Tiles(bs, start, end) && 0 < start && Linked(h, bs, first, last)
    ensures last != 0 ==> last in h
    ensures Linked(AppendHeaders(h, end, size, last), bs + [Chunk(end, true, size)], if last == 0 then end else first, end)
  {
    AllOrdered(bs, start, end);
    if bs != [] { assert LinkedAt(h, bs, |bs| - 1); }
    var h', bs' := AppendHeaders(h, end, size, last), bs + [Chunk(end, true, size)];
    forall k | 0 <= k < |bs'| ensures LinkedAt(h', bs', k) {
      if k < |bs| { assert LinkedAt(h, bs, k); }
    }
  }

  // ---------- bytes ----------

  /** The bytes at these addresses read as before. */
  ghost predicate RangeKept(from: nat, to: nat, bytes: Block, bytes': Block) {
    |bytes| <= |bytes'| && forall k :: 0 <= k < |bytes| && from <= BASE + k < to ==> bytes'[k] == bytes[k]
  }

  /** The payloads of these blocks read as before. */
  ghost predicate PayloadsKept(bs: seq<Chunk>, bytes: Block, bytes': Block) {
    forall i :: 0 <= i < |bs| ==> RangeKept(bs[i].Payload(), bs[i].End(), bytes, bytes')
  }

  /** Only the 32 bytes of the header at `a` may differ. */
  ghost predicate HeaderWritten(a: nat, bytes: Block, bytes': Block) {
    && |bytes'| == |bytes|
    && forall k :: 0 <= k < |bytes| && !(a <= BASE + k < a + OVERHEAD) ==> bytes'[k] == bytes[k]
  }

  /** The bytes of a payload. */
  function PayloadAt(bytes: Block, p: nat, size: nat): Block
    requires BASE <= p && p - BASE + size <= |bytes|
  {
    bytes[p - BASE..p - BASE + size]
  }

  /** Writing a header changes nobody's payload. */
  lemma HeaderApart(bs: seq<Chunk>, end: nat, i: nat, bytes: Block, bytes': Block)
    requires Tiles(bs, BASE, end) && i < |bs| && HeaderWritten(bs[i].addr, bytes, bytes')
    ensures PayloadsKept(bs, bytes, bytes')
  {
    AllOrdered(bs, BASE, end);
    forall j | 0 <= j < |bs| ensures RangeKept(bs[j].Payload(), bs[j].End(), bytes, bytes') {
      if j < i { assert bs[j].End() <= bs[i].addr; } else if i < j { assert bs[i].End() <= bs[j].addr; }
    }
  }

  lemma RangeKeptTransitive(from: nat, to: nat, b0: Block, b1: Block, b2: Block)
    requires RangeKept(from, to, b0, b1) && RangeKept(from, to, b1, b2)
    ensures RangeKept(from, to, b0, b2)
  {
    forall k | 0 <= k < |b0| && from <= BASE + k < to ensures b2[k] == b0[k] {
      assert b1[k] == b0[k];
    }
  }

  lemma PayloadsKeptTransitive(bs: seq<Chunk>, b0: Block, b1: Block, b2: Block)
    requires PayloadsKept(bs, b0, b1) && PayloadsKept(bs, b1, b2)
    ensures PayloadsKept(bs, b0, b2)
  {
    forall i | 0 <= i < |bs| ensures RangeKept(bs[i].Payload(), bs[i].End(), b0, b2) {
      RangeKeptTransitive(bs[i].Payload(), bs[i].End(), b0, b1, b2);
    }
  }

  /** Every live allocation has its bytes. */
  ghost predicate LiveKept(live: map<nat, nat>, bytes: Block, bytes': Block) {
    forall p :: p in live ==> RangeKept(p, p + live[p], bytes, bytes')
  }

  lemma PayloadsLive(bs: seq<Chunk>, start: nat, end: nat, bytes: Block, bytes': Block)
    requires Tiles(bs, start, end) && PayloadsKept(bs, bytes, bytes')
    ensures LiveKept(Live(bs), bytes, bytes')
  {
    forall p | p in Live(bs) ensures RangeKept(p, p + Live(bs)[p], bytes, bytes') {
      LiveIs(bs, start, end, p);
      var i :| 0 <= i < |bs| && !bs[i].free && bs[i].Payload() == p;
      hide RangeKept, Live;
      assert RangeKept(bs[i].Payload(), bs[i].End(), bytes, bytes');
    }
  }

  lemma LiveKeptTransitive(live: map<nat, nat>, b0: Block, b1: Block, b2: Block)
    requires LiveKept(live, b0, b1) && LiveKept(live, b1, b2)
    ensures LiveKept(live, b0, b2)
  {
    forall p | p in live ensures RangeKept(p, p + live[p], b0, b2) {
      RangeKeptTransitive(p, p + live[p], b0, b1, b2);
    }
  }
}
