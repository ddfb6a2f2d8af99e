/** The frames behind the kernel heap: mapping a run of pages, and taking it back when memory runs out. */
module HeapPages {
  import opened Bytes
  import opened Pmm
  import opened PageTables
  import opened Vmm

  function PageEntry(frame: nat): Entry { Entry(true, false, false, frame) }

  /** The frames that were free in `w0` are free in `w`, or hold `pages`, or became tables: none is lost, and none is used
      twice. What was neither free nor a table is untouched. */
  ghost predicate Ledger(w0: World, w: World, pages: seq<nat>) {
    && Set(w0.list) == Set(w.list) + Set(pages) + (w.home.Keys - w0.home.Keys)
    && w0.home.Keys <= w.home.Keys && (forall t :: t in w0.home ==> w.home[t] == w0.home[t])
    && NoRepeats(pages) && (forall p :: p in pages ==> p !in w.list && p !in w.home)
    && RootsKept(w0.memory, w0.home, w.memory)
    && forall f :: f !in w.home && f !in w0.list ==> (f in w.memory <==> f in w0.memory) && (f in w0.memory ==> w.memory[f] == w0.memory[f])
  }

  /** In memory `m`, `pages` from the `lo`-th on are mapped from page slot `s0 + lo` on, in `root` and the spaces that
      share it; all else is as in `w0`. */
  ghost predicate Mapped(w0: World, m: Memory, root: nat, s0: nat, lo: nat, pages: seq<nat>) {
    forall r, a: nat :: IsRoot(w0.home, r) ==>
      LeafOf(m, r, 4, a) ==
      if s0 + lo <= Slot(a, 1) < s0 + |pages| && Shares(m, r, root, Index(a, 4))
      then Leaf(PageEntry(pages[Slot(a, 1) - s0]), 1) else LeafOf(w0.memory, r, 4, a)
  }

  /** The slots were unmapped before. */
  ghost predicate WasVacant(w0: World, root: nat, s0: nat, n: nat) {
    forall r, a: nat :: IsRoot(w0.home, r) && s0 <= Slot(a, 1) < s0 + n && Shares(w0.memory, r, root, Index(a, 4)) ==>
      LeafOf(w0.memory, r, 4, a) == Unmapped
  }

  /** Entries that stay keep what is shared shared. */
  lemma SharesKept(w0: World, w: World, r: nat, root: nat, i: nat)
    requires RootsKept(w0.memory, w0.home, w.memory) && IsRoot(w0.home, r) && IsRoot(w0.home, root)
    ensures Shares(w.memory, r, root, i) <==> Shares(w0.memory, r, root, i)
  {
  }

  lemma MapStep(w0: World, w: World, w1: World, root: nat, s0: nat, pages: seq<nat>, p: nat, va: nat)
    requires Ledger(w0, w, pages + [p]) && Mapped(w0, w.memory, root, s0, 0, pages) && WasVacant(w0, root, s0, |pages|)
    requires IsRoot(w0.home, root) && Slot(va, 1) == s0 + |pages| && Vacant(w.memory, root, va, 1)
    requires SlotChanged(w.memory, w.home, w.list, w1.memory, w1.home, w1.list, root, va, 1, PageEntry(p))
    ensures Mapped(w0, w1.memory, root, s0, 0, pages + [p]) && WasVacant(w0, root, s0, |pages| + 1)
  {
    hide Slot, Index, LeafOf, EntryAt, OnlyTables, Took;
    forall r, a: nat | IsRoot(w0.home, r)
      ensures LeafOf(w1.memory, r, 4, a) ==
              if s0 <= Slot(a, 1) < s0 + |pages + [p]| && Shares(w1.memory, r, root, Index(a, 4))
              then Leaf(PageEntry((pages + [p])[Slot(a, 1) - s0]), 1) else LeafOf(w0.memory, r, 4, a)
      ensures Slot(a, 1) == Slot(va, 1) && Shares(w0.memory, r, root, Index(a, 4)) ==> LeafOf(w0.memory, r, 4, a) == Unmapped
    {
      assert IsRoot(w.home, r) && IsRoot(w.home, root);
      SharesKept(w0, w, r, root, Index(a, 4));
      SharesKept(w, w1, r, root, Index(a, 4));
      if Slot(a, 1) == Slot(va, 1) {
        SlotsAbove(a, va, 1, 4);
        if Shares(w.memory, r, root, Index(a, 4)) {
          SharedAlike(w.memory, r, root, a);
        }
      }
    }
  }

  /** Free frames that became tables are still in the books. */
  lemma LedgerMap(w0: World, w: World, w1: World, pages: seq<nat>)
    requires Ledger(w0, w, pages) && Took(w.home, w.list, w1.home, w1.list) && NoRepeats(w.list)
    requires OnlyTables(w.memory, w1.memory, w1.home) && RootsKept(w.memory, w.home, w1.memory)
    requires forall p :: p in w.list ==> p !in w.home
    ensures Ledger(w0, w1, pages)
  {
    hide EntryAt, Shares;
    RootsKeptTransitive(w0, w, w1.memory);
    hide RootsKept;
    var n := |w.list| - |w1.list|;
    TakenApart(w.list, n);
    hide NoRepeats;
    assert w1.home.Keys - w0.home.Keys == (w.home.Keys - w0.home.Keys) + Set(w.list[..n]);
    assert Set(w0.list) == Set(w1.list) + Set(pages) + (w1.home.Keys - w0.home.Keys);
    forall p | p in w.list[..n] ensures p in w.list {
    }
  }

  lemma TakenApart(list: seq<nat>, n: nat)
    requires n <= |list| && NoRepeats(list)
    ensures Set(list) == Set(list[..n]) + Set(list[n..]) && Set(list[..n]) !! Set(list[n..])
  {
    assert list == list[..n] + list[n..];
  }

  lemma RootsKeptTransitive(w0: World, w: World, m: Memory)
    requires RootsKept(w0.memory, w0.home, w.memory) && RootsKept(w.memory, w.home, m)
    requires w0.home.Keys <= w.home.Keys && forall t :: t in w0.home ==> w.home[t] == w0.home[t]
    ensures RootsKept(w0.memory, w0.home, m)
  {
    hide EntryAt, Shares;
    assert forall r :: IsRoot(w0.home, r) ==> IsRoot(w.home, r);
  }

  lemma LedgerAlloc(w0: World, w: World, pages: seq<nat>)
    requires Ledger(w0, w, pages) && w.list != [] && NoRepeats(w.list) && w.list[0] !in w.home
    ensures Ledger(w0, w.(list := w.list[1..]), pages + [w.list[0]])
  {
    hide EntryAt, Shares, RootsKept;
    var p := w.list[0];
    assert Set(w.list) == {p} + Set(w.list[1..]);
    assert Set(pages + [p]) == Set(pages) + {p};
    assert forall q :: q in w.list[1..] ==> q in w.list && q != p;
  }

  /** Giving the frame back: the last one taken, or the first one mapped. */
  lemma LedgerFree(w0: World, w: World, pages: seq<nat>, k: nat, m: Memory)
    requires Ledger(w0, w, pages) && k < |pages| && (k == 0 || k == |pages| - 1)
    requires forall f :: f != pages[k] ==> (f in m <==> f in w.memory) && (f in m ==> m[f] == w.memory[f])
    requires pages[k] in w0.list && RootsKept(w0.memory, w0.home, m)
    ensures Ledger(w0, World(m, w.home, [pages[k]] + w.list), if k == 0 then pages[1..] else pages[..k])
  {
    hide EntryAt, Shares, RootsKept;
    var p, rest := pages[k], if k == 0 then pages[1..] else pages[..k];
    assert Set([p] + w.list) == {p} + Set(w.list);
    assert Set(pages) == {p} + Set(rest);
    assert forall q :: q in rest ==> q in pages && q != p;
  }

  /** The `k`-th page behind an aligned address has the `k`-th slot. */
  lemma PageSlot(start: nat, k: nat)
    requires start % PAGE_SIZE == 0 && start % 0x1_0000_0000_0000 + PAGE_SIZE * k < 0x1_0000_0000_0000
    ensures Slot(start + PAGE_SIZE * k, 1) == Slot(start, 1) + k && AlignedTo(start + PAGE_SIZE * k, 1)
  {
    var x := start % 0x1_0000_0000_0000;
    assert (start + PAGE_SIZE * k) % 0x1_0000_0000_0000 == x + PAGE_SIZE * k;
    assert x % PAGE_SIZE == 0;
  }

  /** Unmapping the first page still mapped. */
  lemma UnmapStep(w0: World, w: World, m: Memory, root: nat, s0: nat, lo: nat, pages: seq<nat>, va: nat)
    requires lo < |pages| && Ledger(w0, w, pages[lo..]) && Mapped(w0, w.memory, root, s0, lo, pages)
    requires WasVacant(w0, root, s0, |pages|) && IsRoot(w0.home, root) && Slot(va, 1) == s0 + lo
    requires ChangesSlot(w.memory, w.home, m, root, va, 1, NO_ENTRY) && SameRoots(w.memory, w.home, m)
    ensures Mapped(w0, m, root, s0, lo + 1, pages) && RootsKept(w0.memory, w0.home, m)
  {
    hide Slot, Index, LeafOf, EntryAt;
    var w1 := w.(memory := m);
    forall r, i: nat | IsRoot(w0.home, r) ensures EntryAt(m, r, i) == EntryAt(w.memory, r, i) {
      assert IsRoot(w.home, r);
    }
    forall r, a: nat | IsRoot(w0.home, r)
      ensures LeafOf(m, r, 4, a) ==
              if s0 + lo + 1 <= Slot(a, 1) < s0 + |pages| && Shares(m, r, root, Index(a, 4))
              then Leaf(PageEntry(pages[Slot(a, 1) - s0]), 1) else LeafOf(w0.memory, r, 4, a)
    {
      assert IsRoot(w.home, r) && IsRoot(w.home, root);
      SharesKept(w0, w, r, root, Index(a, 4));
      assert Shares(m, r, root, Index(a, 4)) == Shares(w.memory, r, root, Index(a, 4));
      if Slot(a, 1) == Slot(va, 1) {
        SlotsAbove(a, va, 1, 4);
      }
    }
  }

  lemma LedgerUnmap(w0: World, w: World, m: Memory, pages: seq<nat>)
    requires Ledger(w0, w, pages) && OnlyTables(w.memory, m, w.home) && RootsKept(w0.memory, w0.home, m)
    ensures Ledger(w0, w.(memory := m), pages)
  {
    hide RootsKept;
  }

  lemma LedgerAt(w0: World, w: World, pages: seq<nat>, p: nat)
    requires Ledger(w0, w, pages) && p in pages
    ensures p !in w.list && p !in w.home && RootsKept(w0.memory, w0.home, w.memory)
    ensures w0.home.Keys <= w.home.Keys && (forall t :: t in w0.home ==> w.home[t] == w0.home[t])
  {
  }

  /** A write to a frame that is no table changes no translation. */
  lemma MappedFrame(w0: World, w: World, root: nat, s0: nat, lo: nat, pages: seq<nat>, f: nat, frame: Frame)
    requires TablesOk(w.memory, w.home) && Mapped(w0, w.memory, root, s0, lo, pages) && f !in w.home
    requires w0.home.Keys <= w.home.Keys && forall t :: t in w0.home ==> w.home[t] == w0.home[t]
    requires IsRoot(w0.home, root) && RootsKept(w0.memory, w0.home, w.memory)
    ensures Mapped(w0, w.memory[f := frame], root, s0, lo, pages)
    ensures RootsKept(w0.memory, w0.home, w.memory[f := frame]) && TablesOk(w.memory[f := frame], w.home)
  {
    hide Slot, Index, LeafOf;
    OtherFrameKeepsTables(w.memory, w.home, f, frame);
    forall r, a: nat | IsRoot(w0.home, r)
      ensures LeafOf(w.memory[f := frame], r, 4, a) == LeafOf(w.memory, r, 4, a)
      ensures EntryAt(w.memory[f := frame], r, a) == EntryAt(w.memory, r, a)
    {
      assert IsRoot(w.home, r) && TableOk(w.memory, w.home, r);
      OtherFrame(w.memory, w.home, f, frame, r, a);
    }
    forall r, i: nat | IsRoot(w0.home, r) && IsRoot(w0.home, root)
      ensures Shares(w.memory[f := frame], r, root, i) == Shares(w.memory, r, root, i)
    {
    }
  }

  /** Frames the heap may hold: from the free list of `w0`. */
  ghost predicate FromList(v: AddressSpaces, w0: World, pages: seq<nat>)
    reads v, v.pmm
  {
    forall p :: p in pages ==> p in w0.list && p in v.pmm.tracked
  }

  lemma TranslatesTo(w0: World, w: World, root: nat, s0: nat, lo: nat, pages: seq<nat>, va: nat, k: nat)
    requires Mapped(w0, w.memory, root, s0, lo, pages) && IsRoot(w0.home, root) && lo <= k < |pages| && Slot(va, 1) == s0 + k
    requires AlignedTo(va, 1) && Aligned(pages[k])
    ensures LeafOf(w.memory, root, 4, va) == Leaf(PageEntry(pages[k]), 1)
    ensures Translate(w.memory, root, va) == Some(pages[k])
  {
    assert LeafOf(w.memory, root, 4, va) == Leaf(PageEntry(pages[k]), 1);
  }

  lemma AllRolledBack(w0: World, w: World, root: nat, s0: nat, pages: seq<nat>)
    requires Mapped(w0, w.memory, root, s0, |pages|, pages)
    ensures SameLeaves(w0.memory, w0.home, w.memory)
  {
    hide LeafOf, Slot, Index, Shares;
  }

  /** rollback_heap_mapping: unmaps the pages again and frees their frames. */
  method Rollback(v: AddressSpaces, start: nat, bytes: nat, ghost w0: World, ghost pages: seq<nat>)
    requires v.Valid() && v.pmm.initialized && IsRoot(w0.home, v.active)
    requires start % PAGE_SIZE == 0 && bytes == PAGE_SIZE * |pages|
    requires start % 0x1_0000_0000_0000 + bytes <= 0x1_0000_0000_0000
    requires Mapped(w0, v.pmm.memory, v.active, Slot(start, 1), 0, pages) && WasVacant(w0, v.active, Slot(start, 1), |pages|)
    requires Ledger(w0, WorldOf(v), pages) && FromList(v, w0, pages)
    modifies v, v.pmm
    ensures v.Valid() && v.active == old(v.active) && v.kernelRoot == old(v.kernelRoot)
    ensures v.pmm.tracked == old(v.pmm.tracked) && v.pmm.initialized
    ensures Ledger(w0, WorldOf(v), []) && SameLeaves(w0.memory, w0.home, v.pmm.memory)
    ensures |v.pmm.list| == |old(v.pmm.list)| + |pages|
  {
    hide Slot, Index, LeafOf, Mapped, WasVacant, Ledger, TablesOk, NoRepeats, Chain, RootsKept, ChangesSlot, OnlyTables,
      SameRoots, AlignedTo, SameLeaves, Translate;
    var offset := 0;
    ghost var k, s0, root := 0, Slot(start, 1), v.active;
    assert pages[0..] == pages;
    while offset < bytes
      invariant offset == PAGE_SIZE * k && k <= |pages| && v.active == root && v.kernelRoot == old(v.kernelRoot)
      invariant v.Valid() && v.pmm.initialized && v.pmm.tracked == old(v.pmm.tracked)
      invariant Mapped(w0, v.pmm.memory, root, s0, k, pages) && Ledger(w0, WorldOf(v), pages[k..])
      invariant |v.pmm.list| == |old(v.pmm.list)| + k
    {
      PageSlot(start, k);
      RollbackPage(v, start + offset, w0, s0, k, pages);
      offset, k := offset + PAGE_SIZE, k + 1;
    }
    assert pages[|pages|..] == [];
    AllRolledBack(w0, WorldOf(v), root, s0, pages);
  }

  method RollbackPage(v: AddressSpaces, va: nat, ghost w0: World, ghost s0: nat, ghost k: nat, ghost pages: seq<nat>)
    requires v.Valid() && v.pmm.initialized && IsRoot(w0.home, v.active) && k < |pages|
    requires Slot(va, 1) == s0 + k && AlignedTo(va, 1)
    requires Mapped(w0, v.pmm.memory, v.active, s0, k, pages) && WasVacant(w0, v.active, s0, |pages|)
    requires Ledger(w0, WorldOf(v), pages[k..]) && FromList(v, w0, pages)
    modifies v, v.pmm
    ensures v.Valid() && v.active == old(v.active) && v.kernelRoot == old(v.kernelRoot)
    ensures v.pmm.tracked == old(v.pmm.tracked) && v.pmm.initialized
    ensures Mapped(w0, v.pmm.memory, v.active, s0, k + 1, pages) && Ledger(w0, WorldOf(v), pages[k + 1..])
    ensures |v.pmm.list| == |old(v.pmm.list)| + 1
  {
    hide Slot, Index, LeafOf, Mapped, WasVacant, TablesOk, NoRepeats, Chain, RootsKept, ChangesSlot, OnlyTables, Ledger,
      SameRoots, AlignedTo;
    ghost var w, p := WorldOf(v), pages[k];
    LedgerAt(w0, w, pages[k..], p);
    TranslatesTo(w0, w, v.active, s0, k, pages, va, k);
    var mapped, physical := v.VirtToPhys(va);
    if mapped {
      var ok := v.UnmapPage(va);
      ghost var w1 := WorldOf(v);
      UnmapStep(w0, w, w1.memory, v.active, s0, k, pages, va);
      LedgerUnmap(w0, w, w1.memory, pages[k..]);
      MappedFrame(w0, w1, v.active, s0, k + 1, pages, p, FreePage(v.pmm.freeList));
      v.pmm.FreePageAt(physical);
      LedgerFree(w0, w1, pages[k..], 0, v.pmm.memory);
      assert pages[k..][1..] == pages[k + 1..];
    }
  }

  lemma InvisibleKeepsMapped(w0: World, w: World, m: Memory, root: nat, s0: nat, pages: seq<nat>)
    requires Mapped(w0, w.memory, root, s0, 0, pages) && SameLeaves(w.memory, w.home, m) && IsRoot(w0.home, root)
    requires w0.home.Keys <= w.home.Keys && forall t :: t in w0.home ==> w.home[t] == w0.home[t]
    requires RootsKept(w.memory, w.home, m)
    ensures Mapped(w0, m, root, s0, 0, pages)
  {
    hide LeafOf, Slot, Index, EntryAt;
    forall r, a: nat | IsRoot(w0.home, r)
      ensures LeafOf(m, r, 4, a) == LeafOf(w.memory, r, 4, a)
      ensures Shares(m, r, root, Index(a, 4)) <==> Shares(w.memory, r, root, Index(a, 4))
    {
      assert IsRoot(w.home, r) && IsRoot(w.home, root);
      SharesKept(w, World(m, w.home, []), r, root, Index(a, 4));
    }
  }

  /** Behind the pages mapped so far everything is as it was. */
  lemma StillUnmapped(w0: World, m: Memory, root: nat, s0: nat, pages: seq<nat>, va: nat)
    requires Mapped(w0, m, root, s0, 0, pages) && IsRoot(w0.home, root) && Slot(va, 1) == s0 + |pages|
    ensures LeafOf(m, root, 4, va) == LeafOf(w0.memory, root, 4, va)
  {
  }

  /** Why mapping `count` pages from `start` on fails: one of them is mapped already, or there are too few frames, which
      shows in how few are `free` afterwards. */
  ghost predicate NoRoom(m: Memory, root: nat, start: nat, count: nat, free: nat) {
    free <= count || exists k: nat :: k < count && LeafOf(m, root, 4, start + PAGE_SIZE * k).Leaf?
  }

  /** One turn of the loop of expand_heap. */
  method MapOne(v: AddressSpaces, va: nat, ghost w0: World, ghost s0: nat, ghost pages: seq<nat>)
    returns (ok: bool, ghost pages': seq<nat>)
    requires v.Valid() && v.pmm.initialized && IsRoot(w0.home, v.active)
    requires Slot(va, 1) == s0 + |pages| && AlignedTo(va, 1)
    requires Mapped(w0, v.pmm.memory, v.active, s0, 0, pages) && WasVacant(w0, v.active, s0, |pages|)
    requires Ledger(w0, WorldOf(v), pages) && FromList(v, w0, pages)
    modifies v, v.pmm
    ensures v.Valid() && v.active == old(v.active) && v.kernelRoot == old(v.kernelRoot)
    ensures v.pmm.tracked == old(v.pmm.tracked) && v.pmm.initialized
    ensures |pages'| == |pages| + if ok then 1 else 0
    ensures Mapped(w0, v.pmm.memory, v.active, s0, 0, pages') && WasVacant(w0, v.active, s0, |pages'|)
    ensures Ledger(w0, WorldOf(v), pages') && FromList(v, w0, pages')
    ensures !ok ==> |v.pmm.list| <= 1 || LeafOf(w0.memory, v.active, 4, va).Leaf?
  {
    hide Slot, Index, LeafOf, Mapped, WasVacant, TablesOk, NoRepeats, Chain, RootsKept, ChangesSlot, OnlyTables, Ledger,
      SameRoots, SlotChanged, Took, SameLeaves;
    ghost var w, head := WorldOf(v), v.pmm.freeList;
    pages' := pages;
    StillUnmapped(w0, w.memory, v.active, s0, pages, va);
    var physical := v.pmm.AllocPage();
    if physical == 0 {
      return false, pages;
    }
    ghost var w1 := WorldOf(v);
    NoTables(w.memory, head, w.list, w.home);
    LedgerAlloc(w0, w, pages);
    LedgerAt(w0, w1, pages + [physical], physical);
    InList(w0, w, pages, physical);
    AlignedFrame(physical);
    ok := v.MapPage(va, physical, 1, false, false);
    LedgerMapped(w0, w1, WorldOf(v), pages + [physical], v.active, va, physical, head, ok);
    if ok {
      MapStep(w0, w1, WorldOf(v), v.active, s0, pages, physical, va);
      pages' := pages + [physical];
    } else {
      InvisibleKeepsMapped(w0, w1, v.pmm.memory, v.active, s0, pages);
      ghost var w2 := WorldOf(v);
      LedgerAt(w0, w2, pages + [physical], physical);
      MappedFrame(w0, w2, v.active, s0, 0, pages, physical, FreePage(v.pmm.freeList));
      v.pmm.FreePageAt(physical);
      LedgerFree(w0, w2, pages + [physical], |pages|, v.pmm.memory);
      assert (pages + [physical])[..|pages|] == pages;
      assert pages == [] ==> (pages + [physical])[1..] == pages;
    }
  }

  lemma NoTables(m: Memory, head: nat, list: seq<nat>, home: Home)
    requires Chain(m, head, list) && TablesOk(m, home)
    ensures forall p :: p in list ==> p !in home
  {
    forall p | p in list ensures p !in home {
      FreeIsNoTable(m, head, list, home, p);
    }
  }

  lemma InList(w0: World, w: World, pages: seq<nat>, p: nat)
    requires Ledger(w0, w, pages) && p in w.list
    ensures p in w0.list
  {
    assert p in Set(w.list);
  }

  lemma LedgerMapped(w0: World, w1: World, w2: World, pages: seq<nat>, root: nat, va: nat, p: nat, head: nat, ok: bool)
    requires Ledger(w0, w1, pages) && NoRepeats(w1.list) && TablesOk(w1.memory, w1.home)
    requires forall p :: p in w1.list ==> p !in w1.home
    requires ok ==> SlotChanged(w1.memory, w1.home, w1.list, w2.memory, w2.home, w2.list, root, va, 1, PageEntry(p))
    requires !ok ==> Invisible(w1.memory, w1.home, w1.list, w2.memory, w2.home, w2.list)
    ensures Ledger(w0, w2, pages)
  {
    hide Ledger, NoRepeats, TablesOk, Took, OnlyTables, RootsKept, SameLeaves, ChangesSlot;
    LedgerMap(w0, w1, w2, pages);
  }

  /** The mapping loop of expand_heap with its rollback: all the pages, or no trace but empty tables. */
  method MapPages(v: AddressSpaces, start: nat, bytes: nat) returns (ok: bool, ghost pages: seq<nat>)
    requires v.Valid() && v.pmm.initialized && start % PAGE_SIZE == 0 && bytes % PAGE_SIZE == 0
    requires start % 0x1_0000_0000_0000 + bytes <= 0x1_0000_0000_0000
    modifies v, v.pmm
    ensures v.Valid() && v.active == old(v.active) && v.kernelRoot == old(v.kernelRoot)
    ensures v.pmm.tracked == old(v.pmm.tracked) && v.pmm.initialized
    ensures ok ==>
              && bytes == PAGE_SIZE * |pages| && FromList(v, old(WorldOf(v)), pages)
              && Mapped(old(WorldOf(v)), v.pmm.memory, v.active, Slot(start, 1), 0, pages)
    ensures !ok ==> pages == [] && SameLeaves(old(v.pmm.memory), old(v.home), v.pmm.memory)
    ensures !ok ==> NoRoom(old(v.pmm.memory), v.active, start, bytes / PAGE_SIZE, |v.pmm.list|)
    ensures Ledger(old(WorldOf(v)), WorldOf(v), pages)
  {
    hide Slot, Index, LeafOf, Mapped, WasVacant, TablesOk, NoRepeats, Chain, RootsKept, Ledger, SameLeaves, AlignedTo;
    ghost var w0, s0, root := WorldOf(v), Slot(start, 1), v.active;
    NothingMapped(w0, root, s0);
    pages := [];
    ok := true;
    var offset := 0;
    while offset < bytes
      invariant offset == PAGE_SIZE * |pages| && offset <= bytes && ok && v.active == root
      invariant v.Valid() && v.pmm.initialized && v.pmm.tracked == old(v.pmm.tracked) && v.kernelRoot == old(v.kernelRoot)
      invariant Mapped(w0, v.pmm.memory, root, s0, 0, pages) && WasVacant(w0, root, s0, |pages|)
      invariant Ledger(w0, WorldOf(v), pages) && FromList(v, w0, pages)
    {
      PageSlot(start, |pages|);
      ok, pages := MapOne(v, start + offset, w0, s0, pages);
      if !ok {
        Rollback(v, start, offset, w0, pages);
        OneMissing(offset, bytes, |pages|);
        return false, [];
      }
      offset := offset + PAGE_SIZE;
    }
  }

  lemma OneMissing(offset: nat, bytes: nat, k: nat)
    requires offset == PAGE_SIZE * k && offset < bytes && bytes % PAGE_SIZE == 0
    ensures k + 1 <= bytes / PAGE_SIZE
  {
  }

  lemma NothingMapped(w: World, root: nat, s0: nat)
    ensures Mapped(w, w.memory, root, s0, 0, []) && WasVacant(w, root, s0, 0) && Ledger(w, w, [])
  {
  }
}
