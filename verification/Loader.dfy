/** Loading a program: the pages of each segment, copied one by one, make up the simple picture of the segment. */
module Loader {
  import opened Bytes
  import Pmm
  import opened PageTables
  import opened Vmm
  import opened Elf

  const STACK_TOP: nat := 0x7fff_fff0_0000

  /** The byte of the segment at user address `a`: from the file below `filesz`, zero elsewhere. */
  function SegmentByte(image: Block, ph: ProgramHeader, a: nat): byte
    requires ph.filesz == 0 || ph.offset + ph.filesz <= |image|
  {
    if ph.vaddr <= a < ph.vaddr + ph.filesz then image[ph.offset + (a - ph.vaddr)] else 0
  }

  /** What the page at `va` must hold for the segment. */
  function SegmentPage(image: Block, ph: ProgramHeader, va: nat): (r: Block)
    requires ph.filesz == 0 || ph.offset + ph.filesz <= |image|
    ensures |r| == PAGE_SIZE
  {
    seq<byte>(PAGE_SIZE, k requires 0 <= k => SegmentByte(image, ph, va + k))
  }

  /** The byte a program in address space `root` sees at address `a`: only where the tables let user code through. */
  function UserByte(m: Pmm.Memory, root: nat, a: nat): Option<byte> {
    var leaf := UserLeaf(m, root, 4, a);
    if leaf.Leaf? && leaf.level == 1 && leaf.entry.addr in m && m[leaf.entry.addr].Page?
       && a % PAGE_SIZE < |m[leaf.entry.addr].bytes|
    then Some(m[leaf.entry.addr].bytes[a % PAGE_SIZE]) else None
  }

  /** The file bytes of the segment lie in the image, and end below the top of the address range. */
  predicate FileInside(imageSize: nat, ph: ProgramHeader) {
    (ph.filesz == 0 || ph.offset + ph.filesz <= imageSize) && ph.vaddr + ph.filesz < TWO_64
  }

  /** The addresses whose bytes load_segment_page copies into the page at `va`. */
  function CopyFrom(ph: ProgramHeader, va: nat): nat {
    if va > ph.vaddr then va else ph.vaddr
  }

  function CopyTo(ph: ProgramHeader, va: nat): nat {
    var pageEnd, fileEnd := (va + PAGE_SIZE) % TWO_64, (ph.vaddr + ph.filesz) % TWO_64;
    if pageEnd < fileEnd then pageEnd else fileEnd
  }

  /** That copy reads behind the end of the image. */
  predicate ReadsOutside(imageSize: nat, ph: ProgramHeader, va: nat) {
    var from, to := CopyFrom(ph, va), CopyTo(ph, va);
    from < to && ph.offset + (from - ph.vaddr) + (to - from) > imageSize
  }

  /** The copy arithmetic of load_segment_page fills the zeroed page with exactly the segment's bytes. */
  lemma PageCopied(image: Block, ph: ProgramHeader, va: nat)
    requires va + PAGE_SIZE < TWO_64 && !ReadsOutside(|image|, ph, va)
    ensures var from, to := CopyFrom(ph, va), CopyTo(ph, va);
            && va <= from && (from < to ==> from - va + (to - from) <= PAGE_SIZE)
            && (FileInside(|image|, ph) ==>
                  SegmentPage(image, ph, va) ==
                  if from >= to then Zeros(PAGE_SIZE)
                  else Splice(Zeros(PAGE_SIZE), from - va, image[ph.offset + (from - ph.vaddr)..][..to - from]))
  {
    var from, to := CopyFrom(ph, va), CopyTo(ph, va);
    if FileInside(|image|, ph) {
      CopiedBytes(image, ph, va, from, to);
    }
  }

  lemma CopiedBytes(image: Block, ph: ProgramHeader, va: nat, from: nat, to: nat)
    requires ph.filesz == 0 || ph.offset + ph.filesz <= |image|
    requires from == (if va > ph.vaddr then va else ph.vaddr)
    requires to == (if va + PAGE_SIZE < ph.vaddr + ph.filesz then va + PAGE_SIZE else ph.vaddr + ph.filesz)
    ensures from < to ==>
              && from - va + (to - from) <= PAGE_SIZE && va <= from && ph.offset + (from - ph.vaddr) + (to - from) <= |image|
              && Splice(Zeros(PAGE_SIZE), from - va, image[ph.offset + (from - ph.vaddr)..][..to - from])
                 == SegmentPage(image, ph, va)
    ensures from >= to ==> Zeros(PAGE_SIZE) == SegmentPage(image, ph, va)
  {
    var page := SegmentPage(image, ph, va);
    assert forall k :: 0 <= k < PAGE_SIZE ==> page[k] == SegmentByte(image, ph, va + k);
    if from < to {
      var part := image[ph.offset + (from - ph.vaddr)..][..to - from];
      var copy := Splice(Zeros(PAGE_SIZE), from - va, part);
      hide Splice;
      assert forall k :: 0 <= k < to - from ==> part[k] == image[ph.offset + (from - ph.vaddr) + k];
      forall k | 0 <= k < PAGE_SIZE ensures copy[k] == page[k] {
        assert copy[k] == if from - va <= k < to - va then part[k - (from - va)] else 0;
      }
      assert copy == page;
    } else {
      assert Zeros(PAGE_SIZE) == page;
    }
  }

  // ---------- pages in place ----------

  /** Page number `pg` of `root` is mapped to a frame of its own that holds `pages[pg]`. */
  ghost predicate PlacedAt(w: World, root: nat, pages: map<nat, Block>, pg: nat)
    requires pg in pages
  {
    var leaf := LeafOf(w.memory, root, 4, pg * PAGE_SIZE);
    && leaf.Leaf? && leaf.level == 1 && leaf.entry.addr in w.memory && w.memory[leaf.entry.addr] == Pmm.Page(pages[pg])
    && leaf.entry.addr !in w.home && leaf.entry.addr !in w.list && |pages[pg]| == PAGE_SIZE && pg * PAGE_SIZE < USER_MAX
  }

  ghost predicate Placed(w: World, root: nat, pages: map<nat, Block>) {
    forall pg :: pg in pages ==> PlacedAt(w, root, pages, pg)
  }

  /** Every other address space, and the kernel half of this one, translates as before; frames that were neither free nor
      tables keep what they hold. */
  ghost predicate Isolated(w0: World, w: World, root: nat) {
    && w0.home.Keys <= w.home.Keys && (forall t :: t in w0.home ==> w.home[t] == w0.home[t])
    && (forall r, a: nat :: IsRoot(w0.home, r) && (r != root || Index(a, 4) >= 256) ==> LeafOf(w.memory, r, 4, a) == LeafOf(w0.memory, r, 4, a))
    && forall f :: f !in w0.home && f !in w0.list ==>
         f !in w.home && f !in w.list && (f in w.memory <==> f in w0.memory) && (f in w0.memory ==> w.memory[f] == w0.memory[f])
  }

  /** In the user half of `root` exactly the pages with the numbers in `more` were mapped since. */
  ghost predicate MapsOnly(m: Pmm.Memory, m': Pmm.Memory, root: nat, more: set<nat>) {
    forall a: nat :: Index(a, 4) < 256 ==>
      (LeafOf(m', root, 4, a).Leaf? <==> LeafOf(m, root, 4, a).Leaf? || Slot(a, 1) in more)
  }

  lemma MapsOnlyTransitive(m0: Pmm.Memory, m1: Pmm.Memory, m2: Pmm.Memory, root: nat, s: set<nat>, t: set<nat>)
    requires MapsOnly(m0, m1, root, s) && MapsOnly(m1, m2, root, t)
    ensures MapsOnly(m0, m2, root, s + t)
  {
    hide LeafOf, Index, Slot;
  }

  lemma IsolatedTransitive(w0: World, w1: World, w2: World, root: nat)
    requires Isolated(w0, w1, root) && Isolated(w1, w2, root)
    ensures Isolated(w0, w2, root)
  {
    hide LeafOf, Index;
    assert forall r :: IsRoot(w0.home, r) ==> IsRoot(w1.home, r);
  }

  /** The addresses of a page have its slot. */
  lemma PageOf(a: nat)
    requires a <= USER_MAX
    ensures Slot(a, 1) == a / PAGE_SIZE && Slot(a / PAGE_SIZE * PAGE_SIZE, 1) == a / PAGE_SIZE && Index(a, 4) < 256
    ensures AlignedTo(a / PAGE_SIZE * PAGE_SIZE, 1)
  {
  }

  /** The tables are in order, and in the user half of `root` open to user code. */
  ghost predicate Ready(w: World, root: nat) {
    TablesOk(w.memory, w.home) && IsRoot(w.home, root) && UserBits(w.memory, w.home, root)
  }

  /** A byte of a page in place is what the program sees. */
  lemma SeenByte(w: World, root: nat, pages: map<nat, Block>, a: nat)
    requires Placed(w, root, pages) && a <= USER_MAX && a / PAGE_SIZE in pages && Ready(w, root)
    ensures |pages[a / PAGE_SIZE]| == PAGE_SIZE && UserByte(w.memory, root, a) == Some(pages[a / PAGE_SIZE][a % PAGE_SIZE])
  {
    var pg := a / PAGE_SIZE;
    assert PlacedAt(w, root, pages, pg);
    PageOf(a);
    SameLeafInPage(w.memory, root, 4, pg * PAGE_SIZE, a);
    assert TableOk(w.memory, w.home, root);
    UserLeafIs(w.memory, w.home, root, root, a);
  }

  lemma PlacedIsMapped(w: World, root: nat, pages: map<nat, Block>, pg: nat)
    requires Placed(w, root, pages) && pg in pages
    ensures LeafOf(w.memory, root, 4, pg * PAGE_SIZE).Leaf?
  {
    assert PlacedAt(w, root, pages, pg);
  }

  /** Mapping one more page keeps the others in place. */
  lemma PlaceOne(w: World, w1: World, root: nat, pages: map<nat, Block>, pg: nat, f: nat, page: Block)
    requires Placed(w, root, pages) && IsRoot(w.home, root) && pg * PAGE_SIZE < USER_MAX && |page| == PAGE_SIZE
    requires f in w.memory && w.memory[f] == Pmm.Page(page) && f !in w.home && f !in w.list
    requires SlotChanged(w.memory, w.home, w.list, w1.memory, w1.home, w1.list, root, pg * PAGE_SIZE, 1, Pmm.Entry(true, false, true, f))
    requires LeafOf(w.memory, root, 4, pg * PAGE_SIZE) == Unmapped
    ensures pg !in pages && Placed(w1, root, pages[pg := page]) && Isolated(w, w1, root)
    ensures MapsOnly(w.memory, w1.memory, root, {pg})
  {
    hide Slot, Index, LeafOf;
    PageStart(pg);
    if pg in pages { PlacedIsMapped(w, root, pages, pg); }
    forall q | q in pages ensures PlacedAt(w1, root, pages[pg := page], q) {
      assert PlacedAt(w, root, pages, q);
      PageStart(q);
      StillNoTable(w, w1, LeafOf(w.memory, root, 4, q * PAGE_SIZE).entry.addr);
    }
    StillNoTable(w, w1, f);
    assert LeafOf(w1.memory, root, 4, pg * PAGE_SIZE) == Leaf(Pmm.Entry(true, false, true, f), 1);
    MappedIsolated(w, w1, root, pg, Pmm.Entry(true, false, true, f));
  }

  lemma MappedIsolated(w: World, w1: World, root: nat, pg: nat, e: Pmm.Entry)
    requires IsRoot(w.home, root) && pg * PAGE_SIZE < USER_MAX
    requires SlotChanged(w.memory, w.home, w.list, w1.memory, w1.home, w1.list, root, pg * PAGE_SIZE, 1, e)
    ensures Isolated(w, w1, root)
  {
    hide Slot, Index, LeafOf;
    PageStart(pg);
    forall r, a: nat | IsRoot(w.home, r) && (r != root || Index(a, 4) >= 256)
      ensures LeafOf(w1.memory, r, 4, a) == LeafOf(w.memory, r, 4, a)
    {
      if Slot(a, 1) == Slot(pg * PAGE_SIZE, 1) { SlotsAbove(a, pg * PAGE_SIZE, 1, 4); }
    }
    forall f | f !in w.home && f !in w.list ensures f !in w1.home && f !in w1.list {
      StillNoTable(w, w1, f);
    }
  }

  lemma PageStart(pg: nat)
    requires pg * PAGE_SIZE < USER_MAX
    ensures Slot(pg * PAGE_SIZE, 1) == pg && Index(pg * PAGE_SIZE, 4) < 256 && AlignedTo(pg * PAGE_SIZE, 1)
  {
    PageOf(pg * PAGE_SIZE);
  }

  lemma StillNoTable(w: World, w1: World, f: nat)
    requires Took(w.home, w.list, w1.home, w1.list) && f !in w.home && f !in w.list
    ensures f !in w1.home && f !in w1.list
  {
    var n := |w.list| - |w1.list|;
    assert f !in Pmm.Set(w.list[..n]);
  }

  /** Filling a frame fresh from the free list disturbs no page in place. */
  lemma FillFrame(w: World, root: nat, pages: map<nat, Block>, page: Block)
    requires Placed(w, root, pages) && TablesOk(w.memory, w.home) && IsRoot(w.home, root)
    requires w.list != [] && w.list[0] !in w.home
    ensures var w1 := World(w.memory[w.list[0] := Pmm.Page(page)], w.home, w.list[1..]);
            && Placed(w1, root, pages) && Isolated(w, w1, root) && TablesOk(w1.memory, w1.home)
            && SameLeaves(w.memory, w.home, w1.memory) && KeepsUserBits(w.memory, w.home, w1.memory, w1.home)
  {
    var f := w.list[0];
    var w1 := World(w.memory[f := Pmm.Page(page)], w.home, w.list[1..]);
    OtherFrameKeepsTables(w.memory, w.home, f, Pmm.Page(page));
    forall r, a: nat | IsRoot(w.home, r) ensures LeafOf(w1.memory, r, 4, a) == LeafOf(w.memory, r, 4, a) {
      assert TableOk(w.memory, w.home, r);
      OtherFrame(w.memory, w.home, f, Pmm.Page(page), r, a);
    }
    hide LeafOf, TablesOk;
    forall pg | pg in pages ensures PlacedAt(w1, root, pages, pg) {
      assert PlacedAt(w, root, pages, pg);
    }
    forall r, t, i: nat | UserBits(w.memory, w.home, r) && t in w.home && EntryAt(w1.memory, t, i).present
      ensures EntryAt(w1.memory, t, i) == EntryAt(w.memory, t, i)
    {
    }
  }

  lemma UnseenIsolated(w: World, w1: World, root: nat, pages: map<nat, Block>)
    requires Invisible(w.memory, w.home, w.list, w1.memory, w1.home, w1.list) && IsRoot(w.home, root)
    ensures Isolated(w, w1, root) && MapsOnly(w.memory, w1.memory, root, {})
    ensures Placed(w, root, pages) ==> Placed(w1, root, pages)
  {
    hide LeafOf, Index, Slot;
    forall pg | pg in pages && Placed(w, root, pages) ensures PlacedAt(w1, root, pages, pg) {
      assert PlacedAt(w, root, pages, pg);
      StillNoTable(w, w1, LeafOf(w.memory, root, 4, pg * PAGE_SIZE).entry.addr);
    }
    forall f | f !in w.home && f !in w.list ensures f !in w1.home && f !in w1.list {
      StillNoTable(w, w1, f);
    }
  }

  lemma NothingIsolated(w: World, root: nat)
    ensures Isolated(w, w, root) && MapsOnly(w.memory, w.memory, root, {})
  {
  }

  /** The page load_segment_page prepares: zeroed, then overlaid with the part of the file that falls into it. */
  method BuildPage(image: Block, ph: ProgramHeader, va: nat) returns (page: Block)
    requires va + PAGE_SIZE < TWO_64 && !ReadsOutside(|image|, ph, va)
    ensures |page| == PAGE_SIZE && (FileInside(|image|, ph) ==> page == SegmentPage(image, ph, va))
  {
    page := Zeros(PAGE_SIZE);
    var from, to := CopyFrom(ph, va), CopyTo(ph, va);
    PageCopied(image, ph, va);
    if from < to {
      page := Splice(page, from - va, image[ph.offset + (from - ph.vaddr)..][..to - from]);
    }
  }

  /** load_segment_page. */
  method LoadSegmentPage(v: AddressSpaces, root: nat, image: Block, ph: ProgramHeader, va: nat,
                         ghost pg: nat, ghost pages: map<nat, Block>)
    returns (ok: bool, ghost pages': map<nat, Block>)
    requires v.Valid() && root != 0 && Ready(WorldOf(v), root) && Placed(WorldOf(v), root, pages)
    requires va == pg * PAGE_SIZE && va < USER_MAX && !ReadsOutside(|image|, ph, va)
    modifies v, v.pmm
    ensures v.Valid() && v.active == old(v.active) && v.kernelRoot == old(v.kernelRoot) && Ready(WorldOf(v), root)
    ensures Isolated(old(WorldOf(v)), WorldOf(v), root) && Placed(WorldOf(v), root, pages')
    ensures MapsOnly(old(v.pmm.memory), v.pmm.memory, root, if ok then {pg} else {})
    ensures ok ==>
              && pg !in pages && pages'.Keys == pages.Keys + {pg} && Extends(pages, pages')
              && (FileInside(|image|, ph) ==> pages'[pg] == SegmentPage(image, ph, va))
    ensures !ok ==> pages' == pages && (v.pmm.list == [] || LeafOf(old(v.pmm.memory), root, 4, va).Leaf?)
  {
    hide Slot, Index, LeafOf, TablesOk, Pmm.Chain, Pmm.NoRepeats, Isolated, Placed, Pmm.Set, AlignedTo, SegmentPage,
      Invisible, SlotChanged, Vacant, MapsOnly, UserBits, Spaces, ReadsOutside, FileInside, Mappable, KeepsUserBits, SameLeaves;
    ghost var w, head := WorldOf(v), v.pmm.freeList;
    NothingIsolated(w, root);
    pages' := pages;
    var f := v.pmm.AllocPage();
    if f == 0 {
      return false, pages;
    }
    FreeIsNoTable(w.memory, head, w.list, w.home, f);
    var page := BuildPage(image, ph, va);
    FillFrame(w, root, pages, page);
    Pmm.ChainFrame(v.pmm.memory, v.pmm.freeList, v.pmm.list, f, Pmm.Page(page));
    v.pmm.memory := v.pmm.memory[f := Pmm.Page(page)];
    ghost var w1 := WorldOf(v);
    FilledAlike(w, w1.memory, root, va);
    PageStart(pg);
    AlignedFrame(f);
    ok := v.MapPageInSpace(root, va, f, true, false);
    if ok {
      PlaceOne(w1, WorldOf(v), root, pages, pg, f, page);
      pages' := pages[pg := page];
    } else {
      UnseenIsolated(w1, WorldOf(v), root, pages);
    }
    IsolatedTransitive(w, w1, WorldOf(v), root);
    MapsOnlyTransitive(w.memory, w1.memory, v.pmm.memory, root, {}, if ok then {pg} else {});
    assert {} + (if ok then {pg} else {}) == if ok then {pg} else {};
    RootKept(w, WorldOf(v), root, root);
    StillOpen(w, w1, root);
    StillOpen(w1, WorldOf(v), root);
  }

  lemma StillOpen(w: World, w1: World, root: nat)
    requires KeepsUserBits(w.memory, w.home, w1.memory, w1.home) && UserBits(w.memory, w.home, root)
    ensures UserBits(w1.memory, w1.home, root)
  {
    hide UserBits;
  }

  lemma FilledAlike(w: World, m: Pmm.Memory, root: nat, va: nat)
    requires SameLeaves(w.memory, w.home, m) && IsRoot(w.home, root)
    ensures MapsOnly(w.memory, m, root, {}) && LeafOf(m, root, 4, va) == LeafOf(w.memory, root, 4, va)
  {
    hide LeafOf, Index, Slot;
  }

  lemma RootKept(w: World, w1: World, root: nat, r: nat)
    requires Isolated(w, w1, root) && IsRoot(w.home, r)
    ensures IsRoot(w1.home, r)
  {
  }

  ghost predicate Extends(pages: map<nat, Block>, pages': map<nat, Block>) {
    forall pg :: pg in pages ==> pg in pages' && pages'[pg] == pages[pg]
  }

  /** Pages [lo, hi) are those of the segment. */
  ghost predicate HasPages(pages: map<nat, Block>, image: Block, ph: ProgramHeader, lo: nat, hi: nat)
    requires ph.filesz == 0 || ph.offset + ph.filesz <= |image|
  {
    forall pg :: lo <= pg < hi ==> pg in pages && pages[pg] == SegmentPage(image, ph, pg * PAGE_SIZE)
  }

  /** 64-bit addition, and align_down and align_up to a page. */
  function Add64(a: nat, b: nat): nat { (a + b) % TWO_64 }

  function PageDown(a: nat): nat { a / PAGE_SIZE * PAGE_SIZE }

  function PageUp(a: nat): nat { Add64(a, PAGE_SIZE - 1) / PAGE_SIZE * PAGE_SIZE }

  /** The pages load_user_segment visits, by number. */
  function FirstPage(ph: ProgramHeader): nat { ph.vaddr / PAGE_SIZE }

  function EndPage(ph: ProgramHeader): nat { Add64(Add64(ph.vaddr, ph.memsz), PAGE_SIZE - 1) / PAGE_SIZE }

  lemma PageBounds(ph: ProgramHeader)
    ensures PageDown(ph.vaddr) == FirstPage(ph) * PAGE_SIZE && PageUp(Add64(ph.vaddr, ph.memsz)) == EndPage(ph) * PAGE_SIZE
    ensures ph.vaddr + ph.memsz < TWO_64 ==> Add64(ph.vaddr, ph.memsz) >= ph.vaddr
  {
  }

  predicate Visits(ph: ProgramHeader, pg: nat) {
    ph.kind == PT_LOAD && FirstPage(ph) <= pg < EndPage(ph)
  }

  predicate FieldsFit(ph: ProgramHeader) {
    ph.offset < TWO_64 && ph.vaddr < TWO_64 && ph.filesz < TWO_64 && ph.memsz < TWO_64
  }

  /** Every page loaded for the segment lies in user memory, and its bytes come from the image. */
  ghost predicate Confined(imageSize: nat, ph: ProgramHeader) {
    forall pg: nat :: Visits(ph, pg) ==> pg * PAGE_SIZE < USER_MAX && !ReadsOutside(imageSize, ph, pg * PAGE_SIZE)
  }

  /** The page loop of a segment without memory does not run. */
  predicate LoadsNothing(ph: ProgramHeader) {
    (ph.vaddr + PAGE_SIZE - 1) % TWO_64 / PAGE_SIZE * PAGE_SIZE <= ph.vaddr / PAGE_SIZE * PAGE_SIZE
  }

  /** That is so when it starts on a page boundary. */
  lemma AlignedLoadsNothing(ph: ProgramHeader)
    requires ph.vaddr < TWO_64
    ensures LoadsNothing(ph) <==> ph.vaddr % PAGE_SIZE == 0 || ph.vaddr + PAGE_SIZE - 1 >= TWO_64
  {
  }

  /** A segment without memory does no harm: it loads no page, or a page of user memory whose bytes the image has. */
  predicate EmptySegmentOk(imageSize: nat, ph: ProgramHeader) {
    var pageEnd, fileEnd := ph.vaddr / PAGE_SIZE * PAGE_SIZE + PAGE_SIZE, (ph.vaddr + ph.filesz) % TWO_64;
    var to := if pageEnd < fileEnd then pageEnd else fileEnd;
    LoadsNothing(ph) || (ph.vaddr <= USER_MAX && (to <= ph.vaddr || ph.offset + (to - ph.vaddr) <= imageSize))
  }

  /** The validation skips segments without memory. Of these, exactly the ones that pass this test stay confined. */
  lemma EmptySegmentExact(imageSize: nat, ph: ProgramHeader)
    requires ph.kind == PT_LOAD && ph.memsz == 0 && FieldsFit(ph)
    ensures Confined(imageSize, ph) <==> EmptySegmentOk(imageSize, ph)
  {
    var pg := FirstPage(ph);
    OnlyPage(ph);
    if !LoadsNothing(ph) {
      hide LoadsNothing, FirstPage, EndPage;
      assert Visits(ph, pg);
    }
  }

  lemma OnlyPage(ph: ProgramHeader)
    requires ph.memsz == 0 && ph.vaddr < TWO_64
    ensures LoadsNothing(ph) ==> EndPage(ph) <= FirstPage(ph)
    ensures var pg := FirstPage(ph);
            !LoadsNothing(ph) ==>
              && EndPage(ph) == pg + 1 && pg * PAGE_SIZE + PAGE_SIZE < TWO_64 && pg * PAGE_SIZE == ph.vaddr / PAGE_SIZE * PAGE_SIZE
              && (pg * PAGE_SIZE < USER_MAX <==> ph.vaddr <= USER_MAX) && CopyFrom(ph, pg * PAGE_SIZE) == ph.vaddr
  {
  }

  /** The segments the validation looks at always do. */
  lemma SegmentConfined(imageSize: nat, ph: ProgramHeader)
    requires SegmentOk(imageSize, ph) && FieldsFit(ph) && imageSize < TWO_64 && ph.memsz != 0
    ensures Confined(imageSize, ph) && FileInside(imageSize, ph)
    ensures forall a: nat :: Contains(ph, a) ==> FirstPage(ph) <= a / PAGE_SIZE < EndPage(ph)
  {
    SegmentPages(ph);
    hide FirstPage, EndPage;
  }

  lemma SegmentPages(ph: ProgramHeader)
    requires ph.memsz != 0 && ph.vaddr + ph.memsz <= USER_MAX + 1
    ensures forall pg: nat :: FirstPage(ph) <= pg < EndPage(ph) ==> pg * PAGE_SIZE < ph.vaddr + ph.memsz && pg * PAGE_SIZE < USER_MAX
    ensures forall a: nat :: Contains(ph, a) ==> FirstPage(ph) <= a / PAGE_SIZE < EndPage(ph)
  {
    assert EndPage(ph) == (ph.vaddr + ph.memsz + PAGE_SIZE - 1) / PAGE_SIZE;
  }

  /** Little-endian 32-bit words as bytes. */
  function Words(ws: seq<nat>): (r: Block)
    ensures |r| == 4 * |ws|
  {
    seq<byte>(4 * |ws|, k requires 0 <= k < 4 * |ws| => WordByte(ws[k / 4], k % 4))
  }

  function WordByte(w: nat, k: nat): byte {
    if k == 0 then w % 0x100 else if k == 1 then w / 0x100 % 0x100 else if k == 2 then w / 0x1_0000 % 0x100
    else w / 0x100_0000 % 0x100
  }

  lemma WordAt(ws: seq<nat>, i: nat)
    requires i < |ws| && ws[i] < TWO_32
    ensures var s := Words(ws);
            && s[4 * i] == ws[i] % 0x100 && s[4 * i + 1] == ws[i] / 0x100 % 0x100
            && s[4 * i + 2] == ws[i] / 0x1_0000 % 0x100 && s[4 * i + 3] == ws[i] / 0x100_0000
            && Read32(s, 4 * i) == ws[i]
  {
    Digits(ws[i]);
    assert (4 * i + 1) / 4 == i && (4 * i + 2) / 4 == i && (4 * i + 3) / 4 == i;
  }

  lemma LongAt(ws: seq<nat>, i: nat)
    requires i + 1 < |ws| && ws[i] < TWO_32 && ws[i + 1] == 0
    ensures Read64(Words(ws), 4 * i) == ws[i]
  {
    LowWord(ws, i);
    LowWord(ws, i + 1);
    hide Words, Read32;
    assert 4 * (i + 1) == 4 * i + 4;
  }

  lemma LowWord(ws: seq<nat>, i: nat)
    requires i < |ws| && ws[i] < TWO_32
    ensures Read32(Words(ws), 4 * i) == ws[i]
  {
    WordAt(ws, i);
  }

  /** The words of a program header whose wide fields are small. */
  ghost predicate SmallHeader(ws: seq<nat>, i: nat) {
    && i + 14 <= |ws| && (forall k :: i <= k < i + 14 ==> ws[k] < TWO_32)
    && ws[i + 3] == 0 && ws[i + 5] == 0 && ws[i + 9] == 0 && ws[i + 11] == 0 && ws[i + 13] == 0
  }

  lemma HeaderWords(ws: seq<nat>, i: nat)
    requires SmallHeader(ws, i)
    ensures HeaderAt(Words(ws), 4 * i) == ProgramHeader(ws[i], ws[i + 1], ws[i + 2], ws[i + 4], ws[i + 8], ws[i + 10], ws[i + 12])
  {
    hide Words, Read32, Read64;
    LowWord(ws, i);
    LowWord(ws, i + 1);
    LongAt(ws, i + 2);
    LongAt(ws, i + 4);
    LongAt(ws, i + 8);
    LongAt(ws, i + 10);
    LongAt(ws, i + 12);
  }

  /** A valid one-byte segment, and a segment without memory behind it that asks for the byte behind the end of the file. */
  ghost predicate EscapingWords(ws: seq<nat>) {
    && |ws| == 44 && ws[0] == 0x464c_457f && ws[1] == 0x0001_0102 && ws[4] == 0x003e_0002 && ws[5] == 1 && ws[6] == 0x1000
    && ws[8] == EHDR_SIZE && ws[13] == 0x0038_0040 && ws[14] == 2
    && ws[16] == PT_LOAD && ws[20] == 0x1000 && ws[26] == 1
    && ws[30] == PT_LOAD && ws[32] == 176 && ws[34] == 0x1001 && ws[38] == 1
    && forall k :: 0 <= k < 44 && k !in {0, 1, 4, 5, 6, 8, 13, 14, 16, 20, 26, 30, 32, 34, 38} ==> ws[k] == 0
  }

  lemma EscapingHead(ws: seq<nat>)
    requires EscapingWords(ws)
    ensures var image := Words(ws);
            IdentOk(image) && EhdrOk(image) && Phoff(image) == EHDR_SIZE && Phnum(image) == 2 && Entry(image) == 0x1000
  {
    hide Words;
    WordAt(ws, 0);
    WordAt(ws, 1);
    WordAt(ws, 4);
    WordAt(ws, 5);
    LongAt(ws, 6);
    LongAt(ws, 8);
    WordAt(ws, 13);
    WordAt(ws, 14);
    hide Read32, Read64;
  }

  lemma EscapingTable(ws: seq<nat>)
    requires EscapingWords(ws)
    ensures HeaderAt(Words(ws), EHDR_SIZE) == ProgramHeader(PT_LOAD, 0, 0, 0x1000, 0, 1, 0)
    ensures HeaderAt(Words(ws), EHDR_SIZE + PHDR_SIZE) == ProgramHeader(PT_LOAD, 0, 176, 0x1001, 1, 0, 0)
  {
    hide Words, HeaderAt;
    HeaderWords(ws, 16);
    HeaderWords(ws, 30);
  }

  function EscapingWord(k: nat): nat {
    if k == 0 then 0x464c_457f else if k == 1 then 0x0001_0102 else if k == 4 then 0x003e_0002 else if k == 6 then 0x1000
    else if k == 8 then EHDR_SIZE else if k == 13 then 0x0038_0040 else if k == 14 then 2
    else if k == 20 then 0x1000 else if k == 32 then 176 else if k == 34 then 0x1001
    else if k == 5 || k == 16 || k == 26 || k == 30 || k == 38 then 1 else 0
  }

  lemma EscapingExists() returns (ws: seq<nat>)
    ensures EscapingWords(ws)
  {
    ws := seq<nat>(44, k requires 0 <= k => EscapingWord(k));
    forall k: nat | k < 44 ensures ws[k] == EscapingWord(k) {
    }
  }

  lemma EscapingOk(image: Block)
    requires |image| == 176 && IdentOk(image) && EhdrOk(image) && Phoff(image) == EHDR_SIZE && Phnum(image) == 2
    requires Entry(image) == 0x1000
    requires HeaderAt(image, EHDR_SIZE) == ProgramHeader(PT_LOAD, 0, 0, 0x1000, 0, 1, 0)
    requires HeaderAt(image, EHDR_SIZE + PHDR_SIZE) == ProgramHeader(PT_LOAD, 0, 176, 0x1001, 1, 0, 0)
    ensures ImageOk(image) && Header(image, 1) == HeaderAt(image, EHDR_SIZE + PHDR_SIZE)
  {
    hide HeaderAt, IdentOk, EhdrOk, HeaderBytesOk, Phoff, Phnum, Entry;
    HeaderBytes(image);
    assert TableInside(image) && Header(image, 0) == HeaderAt(image, EHDR_SIZE);
    assert Header(image, 1) == HeaderAt(image, EHDR_SIZE + PHDR_SIZE);
    hide Header;
    assert IsLoad(Header(image, 0)) && Contains(Header(image, 0), Entry(image));
    assert forall i :: 0 <= i < Phnum(image) && IsLoad(Header(image, i)) ==> i == 0;
  }

  /** An image that the validation accepts, and outside of which the loader reads. */
  lemma EmptySegmentEscapes() returns (image: Block)
    ensures |image| == 176 && ImageOk(image) && Phnum(image) == 2
    ensures Header(image, 1) == ProgramHeader(PT_LOAD, 0, |image|, 0x1001, 1, 0, 0)
    ensures Visits(Header(image, 1), 1) && ReadsOutside(|image|, Header(image, 1), PAGE_SIZE)
  {
    hide EscapingWords, HeaderAt, IdentOk, EhdrOk, Phoff, Phnum, Entry, Words, ImageOk, Header;
    var ws := EscapingExists();
    EscapingHead(ws);
    EscapingTable(ws);
    image := Words(ws);
    assert |image| == 176 by { EscapingSize(ws); }
    EscapingOk(image);
  }

  lemma EscapingSize(ws: seq<nat>)
    requires EscapingWords(ws)
    ensures |Words(ws)| == 176
  {
  }

  /** And one whose page is in the kernel half: mapping it there breaks the isolation of the kernel. */
  lemma EmptySegmentInKernel(w: World, w1: World, root: nat, f: nat)
    requires IsRoot(w.home, root)
    requires var va := 0xffff_8000_0000_1000;
             && LeafOf(w.memory, root, 4, va) == Unmapped
             && SlotChanged(w.memory, w.home, w.list, w1.memory, w1.home, w1.list, root, va, 1, Pmm.Entry(true, false, true, f))
    ensures var ph := ProgramHeader(PT_LOAD, 0, 0, 0xffff_8000_0000_1001, 0, 0, 0);
            Visits(ph, 0xffff_8000_0000_1000 / PAGE_SIZE) && !Isolated(w, w1, root)
  {
    var va := 0xffff_8000_0000_1000;
    assert Index(va, 4) == 256;
    hide LeafOf, Slot, Index;
    assert LeafOf(w1.memory, root, 4, va) != LeafOf(w.memory, root, 4, va);
  }

  /** Numbers from `lo` up to `hi`. */
  function Range(lo: nat, hi: nat): set<nat> {
    if hi <= lo then {} else Range(lo, hi - 1) + {hi - 1}
  }

  lemma {:induction false} InRange(lo: nat, hi: nat, x: nat)
    ensures x in Range(lo, hi) <==> lo <= x < hi
    decreases hi
  {
    if lo < hi { InRange(lo, hi - 1, x); }
  }

  /** What the loader relies on for one header. */
  ghost predicate Loadable(imageSize: nat, ph: ProgramHeader) {
    FieldsFit(ph) && if ph.memsz == 0 then EmptySegmentOk(imageSize, ph) else SegmentOk(imageSize, ph)
  }

  lemma LoadableConfined(imageSize: nat, ph: ProgramHeader)
    requires ph.kind == PT_LOAD && Loadable(imageSize, ph) && imageSize < TWO_64
    ensures Confined(imageSize, ph) && ph.vaddr + ph.memsz < TWO_64
    ensures ph.memsz != 0 ==> FileInside(imageSize, ph)
  {
    if ph.memsz == 0 { EmptySegmentExact(imageSize, ph); } else { SegmentConfined(imageSize, ph); }
  }

  lemma ConfinedAt(imageSize: nat, ph: ProgramHeader, pg: nat)
    requires Confined(imageSize, ph) && Visits(ph, pg)
    ensures pg * PAGE_SIZE < USER_MAX && !ReadsOutside(imageSize, ph, pg * PAGE_SIZE)
  {
  }

  /** A page the segment visits was mapped before. */
  ghost predicate MeetsPage(m: Pmm.Memory, root: nat, ph: ProgramHeader) {
    exists pg: nat :: Visits(ph, pg) && LeafOf(m, root, 4, pg * PAGE_SIZE).Leaf?
  }

  /** load_user_segment. */
  method LoadSegment(v: AddressSpaces, root: nat, image: Block, ph: ProgramHeader, ghost pages: map<nat, Block>)
    returns (ok: bool, ghost pages': map<nat, Block>)
    requires v.Valid() && root != 0 && Ready(WorldOf(v), root) && Placed(WorldOf(v), root, pages) && |image| < TWO_64
    requires ph.kind == PT_LOAD ==> Loadable(|image|, ph)
    modifies v, v.pmm
    ensures v.Valid() && v.active == old(v.active) && v.kernelRoot == old(v.kernelRoot) && Ready(WorldOf(v), root)
    ensures Isolated(old(WorldOf(v)), WorldOf(v), root)
    ensures ok ==>
              && Placed(WorldOf(v), root, pages') && Extends(pages, pages')
              && (forall pg :: pg in pages' <==> pg in pages || Visits(ph, pg)) && (forall pg :: Visits(ph, pg) ==> pg !in pages)
              && MapsOnly(old(v.pmm.memory), v.pmm.memory, root, pages'.Keys - pages.Keys)
              && (IsLoad(ph) ==> HasPages(pages', image, ph, FirstPage(ph), EndPage(ph)))
    ensures !ok ==> v.pmm.list == [] || MeetsPage(old(v.pmm.memory), root, ph)
  {
    hide Slot, Index, LeafOf, TablesOk, Pmm.Chain, Pmm.NoRepeats, Isolated, Placed, SegmentPage, Contains, MapsOnly, Ready,
      SegmentOk, EmptySegmentOk, Loadable, ReadsOutside, Confined, Visits, MeetsPage, Spaces,
      FirstPage, EndPage, FileInside, Range, Grew, HasPages, Extends, AddressSpaces.Valid, Add64, PageDown, PageUp;
    ghost var w := WorldOf(v);
    NothingIsolated(w, root);
    pages' := pages;
    if ph.kind != PT_LOAD {
      NotVisited(ph);
      NoKeys(pages);
      return true, pages;
    }
    LoadableConfined(|image|, ph);
    PageBounds(ph);
    var end := Add64(ph.vaddr, ph.memsz);
    if end < ph.vaddr {
      return false, pages;
    }
    var va, endPage := PageDown(ph.vaddr), PageUp(end);
    ghost var lo, hi, pg := FirstPage(ph), EndPage(ph), FirstPage(ph);
    GrewNone(pages, image, ph, lo);
    while va < endPage
      invariant lo <= pg && (pg <= hi || pg == lo) && va == pg * PAGE_SIZE && endPage == hi * PAGE_SIZE
      invariant v.Valid() && v.active == old(v.active) && v.kernelRoot == old(v.kernelRoot) && Ready(WorldOf(v), root)
      invariant Isolated(w, WorldOf(v), root) && Placed(WorldOf(v), root, pages')
      invariant Grew(pages, pages', lo, pg) && MapsOnly(w.memory, v.pmm.memory, root, Range(lo, pg))
      invariant ph.memsz != 0 ==> HasPages(pages', image, ph, lo, pg)
    {
      ghost var w1, pages1 := WorldOf(v), pages';
      VisitsIs(ph, pg);
      ConfinedAt(|image|, ph, pg);
      ok, pages' := LoadSegmentPage(v, root, image, ph, va, pg, pages');
      IsolatedTransitive(w, w1, WorldOf(v), root);
      if !ok {
        NotYet(w.memory, w1.memory, root, lo, pg, ph);
        return;
      }
      MapsOnlyTransitive(w.memory, w1.memory, v.pmm.memory, root, Range(lo, pg), {pg});
      GrewOne(pages, pages1, pages', lo, pg);
      if ph.memsz != 0 { HasOneMore(pages1, pages', image, ph, lo, pg); }
      va, pg := va + PAGE_SIZE, pg + 1;
    }
    AllVisited(ph, pages, pages', pg);
    if ph.memsz != 0 { HasThem(pages', image, ph, lo, pg, hi); }
    return true, pages';
  }

  lemma HasThem(pages: map<nat, Block>, image: Block, ph: ProgramHeader, lo: nat, pg: nat, hi: nat)
    requires ph.filesz == 0 || ph.offset + ph.filesz <= |image|
    requires HasPages(pages, image, ph, lo, pg) && hi <= pg
    ensures HasPages(pages, image, ph, lo, hi)
  {
    hide SegmentPage;
  }

  /** The pages with the numbers [lo, hi) came in, and were not there before. */
  ghost predicate Grew(pages: map<nat, Block>, pages': map<nat, Block>, lo: nat, hi: nat) {
    Extends(pages, pages') && pages'.Keys == pages.Keys + Range(lo, hi) && pages.Keys !! Range(lo, hi)
  }

  lemma GrewNone(pages: map<nat, Block>, image: Block, ph: ProgramHeader, lo: nat)
    ensures Grew(pages, pages, lo, lo) && Range(lo, lo) == {}
    ensures ph.filesz == 0 || ph.offset + ph.filesz <= |image| ==> HasPages(pages, image, ph, lo, lo)
  {
  }

  lemma GrewOne(pages: map<nat, Block>, pages1: map<nat, Block>, pages2: map<nat, Block>, lo: nat, pg: nat)
    requires Grew(pages, pages1, lo, pg) && lo <= pg && pg !in pages1 && Extends(pages1, pages2)
    requires pages2.Keys == pages1.Keys + {pg}
    ensures Grew(pages, pages2, lo, pg + 1) && Range(lo, pg + 1) == Range(lo, pg) + {pg}
  {
    RangeNext(lo, pg);
    hide Range;
  }

  lemma HasOneMore(pages: map<nat, Block>, pages': map<nat, Block>, image: Block, ph: ProgramHeader, lo: nat, pg: nat)
    requires ph.filesz == 0 || ph.offset + ph.filesz <= |image|
    requires HasPages(pages, image, ph, lo, pg) && Extends(pages, pages')
    requires pg in pages' && pages'[pg] == SegmentPage(image, ph, pg * PAGE_SIZE)
    ensures HasPages(pages', image, ph, lo, pg + 1)
  {
    hide SegmentPage;
  }

  lemma RangeNext(lo: nat, hi: nat)
    requires lo <= hi
    ensures Range(lo, hi + 1) == Range(lo, hi) + {hi} && hi !in Range(lo, hi)
  {
    InRange(lo, hi, hi);
  }

  lemma NoKeys(pages: map<nat, Block>)
    ensures pages.Keys - pages.Keys == {} && Extends(pages, pages)
  {
  }

  lemma NotVisited(ph: ProgramHeader)
    requires ph.kind != PT_LOAD
    ensures forall pg :: !Visits(ph, pg)
  {
  }

  lemma VisitsIs(ph: ProgramHeader, pg: nat)
    ensures Visits(ph, pg) <==> ph.kind == PT_LOAD && FirstPage(ph) <= pg < EndPage(ph)
  {
  }

  lemma AllVisited(ph: ProgramHeader, pages: map<nat, Block>, pages': map<nat, Block>, pg: nat)
    requires ph.kind == PT_LOAD && (pg == EndPage(ph) || pg == FirstPage(ph) >= EndPage(ph))
    requires Grew(pages, pages', FirstPage(ph), pg)
    ensures Extends(pages, pages')
    ensures forall q :: q in pages' <==> q in pages || Visits(ph, q)
    ensures forall q :: Visits(ph, q) ==> q !in pages
    ensures pages'.Keys - pages.Keys == Range(FirstPage(ph), pg)
  {
    hide EndPage, FirstPage, Range;
    forall q: nat ensures q in Range(FirstPage(ph), pg) <==> Visits(ph, q) {
      VisitsIs(ph, q);
      InRange(FirstPage(ph), pg, q);
    }
  }

  /** A page found mapped in the middle of a segment was mapped before it. */
  lemma NotYet(m: Pmm.Memory, m1: Pmm.Memory, root: nat, lo: nat, pg: nat, ph: ProgramHeader)
    requires MapsOnly(m, m1, root, Range(lo, pg)) && pg * PAGE_SIZE < USER_MAX && Visits(ph, pg)
    ensures LeafOf(m1, root, 4, pg * PAGE_SIZE).Leaf? ==> MeetsPage(m, root, ph)
  {
    hide LeafOf, Visits, Range;
    PageStart(pg);
    InRange(lo, pg, pg);
  }

  /** Every loadable segment is in place. */
  ghost predicate AllLoaded(pages: map<nat, Block>, image: Block, n: nat)
    requires ImageOk(image) && n <= Phnum(image)
  {
    forall i :: 0 <= i < n && IsLoad(Header(image, i)) ==>
      HasPages(pages, image, Header(image, i), FirstPage(Header(image, i)), EndPage(Header(image, i)))
  }

  /** The segments without memory do no harm. */
  ghost predicate EmptySegmentsOk(image: Block)
    requires ImageOk(image)
  {
    forall i :: 0 <= i < Phnum(image) ==>
      Header(image, i).kind == PT_LOAD && Header(image, i).memsz == 0 ==> EmptySegmentOk(|image|, Header(image, i))
  }

  /** One of the first `n` segments visits the page. */
  ghost predicate Visited(image: Block, n: nat, pg: nat)
    requires ImageOk(image) && n <= Phnum(image)
  {
    exists i :: 0 <= i < n && Visits(Header(image, i), pg)
  }

  /** Two of the first `n` segments visit the same page. */
  ghost predicate Overlapping(image: Block, n: nat)
    requires ImageOk(image) && n <= Phnum(image)
  {
    exists i, pg: nat :: 0 <= i < n && Visits(Header(image, i), pg) && Visited(image, i, pg)
  }

  lemma StillLoaded(pages: map<nat, Block>, pages': map<nat, Block>, image: Block, n: nat)
    requires ImageOk(image) && n < Phnum(image) && AllLoaded(pages, image, n) && Extends(pages, pages')
    requires var ph := Header(image, n);
             IsLoad(ph) ==> HasPages(pages', image, ph, FirstPage(ph), EndPage(ph))
    ensures AllLoaded(pages', image, n + 1)
  {
    hide SegmentPage, Header, FirstPage, EndPage;
  }

  lemma OneMoreVisited(image: Block, n: nat, pages: map<nat, Block>, pages': map<nat, Block>)
    requires ImageOk(image) && n < Phnum(image) && !Overlapping(image, n)
    requires forall pg :: pg in pages <==> Visited(image, n, pg)
    requires forall pg :: pg in pages' <==> pg in pages || Visits(Header(image, n), pg)
    requires forall pg :: Visits(Header(image, n), pg) ==> pg !in pages
    ensures !Overlapping(image, n + 1) && forall pg :: pg in pages' <==> Visited(image, n + 1, pg)
  {
    hide Visits, Header, HeaderBytesOk, SegmentOk;
    forall i, pg: nat | 0 <= i < n + 1 && Visits(Header(image, i), pg) ensures !Visited(image, i, pg) {
      assert i == n ==> pg !in pages;
    }
  }

  lemma MeetsOverlap(m0: Pmm.Memory, m: Pmm.Memory, root: nat, image: Block, n: nat, pages: map<nat, Block>)
    requires ImageOk(image) && n < Phnum(image) && MapsOnly(m0, m, root, pages.Keys)
    requires forall pg :: pg in pages <==> Visited(image, n, pg)
    requires MeetsPage(m, root, Header(image, n)) && Header(image, n).kind == PT_LOAD && Confined(|image|, Header(image, n))
    ensures MeetsPage(m0, root, Header(image, n)) || Overlapping(image, Phnum(image))
  {
    hide LeafOf, Header, Visits, ReadsOutside, HeaderBytesOk, SegmentOk;
    var ph := Header(image, n);
    var pg: nat :| Visits(ph, pg) && LeafOf(m, root, 4, pg * PAGE_SIZE).Leaf?;
    PageStart(pg);
  }

  /** load_user_image_segments. */
  method LoadSegments(v: AddressSpaces, root: nat, image: Block) returns (ok: bool, ghost pages: map<nat, Block>)
    requires v.Valid() && root != 0 && Ready(WorldOf(v), root) && |image| < TWO_64 && ImageOk(image) && EmptySegmentsOk(image)
    modifies v, v.pmm
    ensures v.Valid() && v.active == old(v.active) && v.kernelRoot == old(v.kernelRoot) && Ready(WorldOf(v), root)
    ensures Isolated(old(WorldOf(v)), WorldOf(v), root)
    ensures ok ==>
              && Placed(WorldOf(v), root, pages) && AllLoaded(pages, image, Phnum(image))
              && !Overlapping(image, Phnum(image)) && (forall pg :: pg in pages <==> Visited(image, Phnum(image), pg))
              && MapsOnly(old(v.pmm.memory), v.pmm.memory, root, pages.Keys)
    ensures !ok ==>
              || v.pmm.list == [] || Overlapping(image, Phnum(image))
              || exists i :: 0 <= i < Phnum(image) && MeetsPage(old(v.pmm.memory), root, Header(image, i))
  {
    hide Slot, Index, LeafOf, TablesOk, Pmm.Chain, Pmm.NoRepeats, Isolated, SegmentPage, HeaderBytesOk, SegmentOk,
      HasPages, HeaderAt, Read16, Read32, Read64, Placed, Ready, Visits, Visited, Overlapping, MapsOnly, MeetsPage, Confined,
      EmptySegmentOk, FieldsFit, FirstPage, EndPage, AllLoaded, Spaces;
    ghost var w := WorldOf(v);
    NothingIsolated(w, root);
    pages := map[];
    StartOfTable(image, w, root);
    for i := 0 to Phnum(image)
      invariant v.Valid() && v.active == old(v.active) && v.kernelRoot == old(v.kernelRoot) && Ready(WorldOf(v), root)
      invariant Isolated(w, WorldOf(v), root) && Placed(WorldOf(v), root, pages) && AllLoaded(pages, image, i)
      invariant !Overlapping(image, i) && (forall pg :: pg in pages <==> Visited(image, i, pg))
      invariant MapsOnly(w.memory, v.pmm.memory, root, pages.Keys)
    {
      var ph := HeaderAt(image, Phoff(image) + PHDR_SIZE * i);
      assert ph == Header(image, i);
      HeaderLoadable(image, i);
      ghost var w1, pages1 := WorldOf(v), pages;
      ok, pages := LoadSegment(v, root, image, ph, pages);
      IsolatedTransitive(w, w1, WorldOf(v), root);
      if !ok {
        if MeetsPage(w1.memory, root, ph) {
          MeetsLoad(w1.memory, root, ph);
          LoadableConfined(|image|, ph);
          MeetsOverlap(w.memory, w1.memory, root, image, i, pages1);
        }
        return;
      }
      StillLoaded(pages1, pages, image, i);
      OneMoreVisited(image, i, pages1, pages);
      MapsOnlyTransitive(w.memory, w1.memory, v.pmm.memory, root, pages1.Keys, pages.Keys - pages1.Keys);
      assert pages1.Keys + (pages.Keys - pages1.Keys) == pages.Keys;
    }
    return true, pages;
  }

  lemma MeetsLoad(m: Pmm.Memory, root: nat, ph: ProgramHeader)
    requires MeetsPage(m, root, ph)
    ensures ph.kind == PT_LOAD
  {
  }

  lemma StartOfTable(image: Block, w: World, root: nat)
    requires ImageOk(image)
    ensures Placed(w, root, map[]) && AllLoaded(map[], image, 0) && !Overlapping(image, 0)
    ensures forall pg :: !Visited(image, 0, pg)
    ensures var none: map<nat, Block> := map[]; none.Keys == {}
  {
  }

  lemma FieldsInside(image: Block, i: nat)
    requires TableInside(image) && i < Phnum(image)
    ensures FieldsFit(Header(image, i))
  {
    hide HeaderAt, Read16, Read32, Read64;
    FieldBounds(image, Phoff(image) + PHDR_SIZE * i);
  }

  lemma HeaderLoadable(image: Block, i: nat)
    requires ImageOk(image) && EmptySegmentsOk(image) && i < Phnum(image) && |image| < TWO_64
    ensures Header(image, i).kind == PT_LOAD ==> Loadable(|image|, Header(image, i))
  {
    hide HeaderAt, EmptySegmentOk, SegmentOk, HeaderBytesOk, Read16, Read32, Read64;
    FieldsInside(image, i);
  }

  /** What the program sees of its segments: the file's bytes and then zeros. */
  ghost predicate SeesSegments(m: Pmm.Memory, root: nat, image: Block)
    requires ImageOk(image) && |image| < TWO_64
  {
    forall i, a: nat :: 0 <= i < Phnum(image) && IsLoad(Header(image, i)) && Contains(Header(image, i), a) ==>
      UserByte(m, root, a) == Some(SegmentByte(image, Header(image, i), a))
  }

  lemma LoadedByte(w: World, root: nat, pages: map<nat, Block>, image: Block, ph: ProgramHeader, a: nat)
    requires FieldsFit(ph) && SegmentOk(|image|, ph) && IsLoad(ph) && Placed(w, root, pages) && |image| < TWO_64 && Contains(ph, a)
    requires HasPages(pages, image, ph, FirstPage(ph), EndPage(ph))
    requires Ready(w, root)
    ensures UserByte(w.memory, root, a) == Some(SegmentByte(image, ph, a))
  {
    hide Placed, UserByte, Ready;
    SegmentConfined(|image|, ph);
    SeenByte(w, root, pages, a);
    var pg: nat := a / PAGE_SIZE;
    assert pages[pg] == SegmentPage(image, ph, pg * PAGE_SIZE);
    assert pg * PAGE_SIZE + a % PAGE_SIZE == a;
  }

  /** The program sees the simple picture: in every loadable segment, the file's bytes and then zeros. */
  lemma LoadedBytes(w: World, root: nat, pages: map<nat, Block>, image: Block)
    requires ImageOk(image) && Placed(w, root, pages) && AllLoaded(pages, image, Phnum(image))
    requires Ready(w, root) && |image| < TWO_64
    ensures SeesSegments(w.memory, root, image)
  {
    hide Placed, UserByte, Ready, HasPages, SegmentByte, Header, HeaderBytesOk;
    forall i, a: nat | 0 <= i < Phnum(image) && IsLoad(Header(image, i)) && Contains(Header(image, i), a)
      ensures UserByte(w.memory, root, a) == Some(SegmentByte(image, Header(image, i), a))
    {
      FieldsInside(image, i);
      LoadedByte(w, root, pages, image, Header(image, i), a);
    }
  }

  lemma CreatedIsolated(w: World, w1: World, root: nat)
    requires w.list != [] && root == w.list[0] && w1.list == w.list[1..] && w1.home == w.home[root := Place(root, 4, 0)]
    requires root !in w.home && OnlyTables(w.memory, w1.memory, w1.home) && SameLeaves(w.memory, w.home, w1.memory)
    ensures Isolated(w, w1, root)
  {
    hide LeafOf, Index;
  }

  /** The page below the stack top, by number. */
  const STACK_PAGE: nat := 0x7_ffff_feff

  ghost predicate StackIsZero(m: Pmm.Memory, root: nat) {
    forall a: nat :: STACK_TOP - PAGE_SIZE <= a < STACK_TOP ==> UserByte(m, root, a) == Some(0)
  }

  lemma StackBytes(w: World, root: nat, pages: map<nat, Block>)
    requires Placed(w, root, pages) && STACK_PAGE in pages && pages[STACK_PAGE] == Zeros(PAGE_SIZE)
    requires Ready(w, root)
    ensures StackIsZero(w.memory, root)
  {
    forall a: nat | STACK_TOP - PAGE_SIZE <= a < STACK_TOP ensures UserByte(w.memory, root, a) == Some(0) {
      hide UserByte, Placed, Ready;
      assert a / PAGE_SIZE == STACK_PAGE;
      SeenByte(w, root, pages, a);
    }
  }

  /** The kernel half reads as in the space it was copied from. */
  ghost predicate KernelHalfShared(m: Pmm.Memory, root: nat, active: nat) {
    forall a: nat :: Index(a, 4) >= 256 ==> LeafOf(m, root, 4, a) == LeafOf(m, active, 4, a)
  }

  /** Two segments visit the same page, or one visits the page of the stack. */
  ghost predicate Collides(image: Block)
    requires ImageOk(image)
  {
    Overlapping(image, Phnum(image)) || Visited(image, Phnum(image), STACK_PAGE)
  }

  /** Nothing is mapped in the user half. */
  ghost predicate UserHalfEmpty(m: Pmm.Memory, root: nat) {
    forall a: nat :: Index(a, 4) < 256 ==> LeafOf(m, root, 4, a) == Unmapped
  }

  /** The part of process_load_user_image_bytes that builds the address space. */
  method LoadProgram(v: AddressSpaces, image: Block) returns (ok: bool, root: nat)
    requires v.Valid() && |image| < TWO_64 && (ImageOk(image) ==> EmptySegmentsOk(image))
    modifies v, v.pmm
    ensures v.Valid() && v.active == old(v.active) && v.kernelRoot == old(v.kernelRoot)
    ensures Isolated(old(WorldOf(v)), WorldOf(v), root)
    ensures ok ==> ImageOk(image) && !Collides(image) && root !in old(v.home) && IsRoot(v.home, root)
    ensures ok ==> SeesSegments(v.pmm.memory, root, image) && StackIsZero(v.pmm.memory, root)
    ensures ok ==> KernelHalfShared(v.pmm.memory, root, v.active)
    ensures !ok ==> v.pmm.list == [] || !ImageOk(image) || Collides(image)
  {
    hide Slot, Index, LeafOf, TablesOk, Pmm.Chain, Pmm.NoRepeats, Isolated, Placed, AllLoaded, HeaderBytesOk, ImageOk,
      SegmentOk, UserByte, SameLeaves, OnlyTables, Invisible, SlotChanged, AlignedTo, Pmm.Set, EmptySegmentsOk, Vacant,
      KernelHalfShared, SeesSegments, StackIsZero, Zeros, MapsOnly, MeetsPage, Visited, Overlapping, UserBits, Spaces, KeepsUserBits, Mappable, UserHalfEmpty, NewSpace;
    ghost var w, active := WorldOf(v), v.active;
    root := v.CreateAddressSpace();
    NothingIsolated(w, root);
    if root != 0 { CreatedIsolated(w, WorldOf(v), root); }
    ghost var w1, head := WorldOf(v), v.pmm.freeList;
    var stack := v.pmm.AllocPage();
    if stack != 0 { TakenIsolated(w1, root); }
    ghost var w2 := WorldOf(v);
    NothingIsolated(w1, root);
    IsolatedTransitive(w, w1, w2, root);
    if root == 0 || stack == 0 {
      return false, root;
    }
    FreeIsNoTable(w1.memory, head, w1.list, w1.home, stack);
    var valid := Validate(image);
    if !valid {
      return false, root;
    }
    FillFrame(w1, root, map[], Zeros(PAGE_SIZE)) by { NonePlaced(w1, root); }
    Pmm.ChainFrame(v.pmm.memory, v.pmm.freeList, v.pmm.list, stack, Pmm.Page(Zeros(PAGE_SIZE)));
    v.pmm.memory := v.pmm.memory[stack := Pmm.Page(Zeros(PAGE_SIZE))];
    ghost var w3 := WorldOf(v);
    IsolatedTransitive(w, w1, w3, root);
    StillOpen(w1, w3, root);
    StillEmpty(w1, w3.memory, active, root);
    ghost var pages;
    ok, pages := LoadSegments(v, root, image);
    ghost var w4 := WorldOf(v);
    IsolatedTransitive(w, w3, w4, root);
    if !ok {
      MeetsNothing(w3.memory, root, image);
      return;
    }
    FrameStays(w3, w4, root, stack);
    AlignedFrame(stack);
    assert STACK_TOP - PAGE_SIZE == STACK_PAGE * PAGE_SIZE;
    StackVisited(w3.memory, w4.memory, root, image, pages);
    ok := v.MapPageInSpace(root, STACK_TOP - PAGE_SIZE, stack, true, false);
    ghost var w5 := WorldOf(v);
    if ok {
      PlaceOne(w4, w5, root, pages, STACK_PAGE, stack, Zeros(PAGE_SIZE));
      ghost var pages' := pages[STACK_PAGE := Zeros(PAGE_SIZE)];
      StillAllLoaded(pages, pages', image);
      RootKept(w4, w5, root, root);
      StillOpen(w4, w5, root);
      LoadedBytes(w5, root, pages', image);
      StackBytes(w5, root, pages');
      IsolatedTransitive(w3, w4, w5, root);
      IsolatedTransitive(w1, w3, w5, root);
      KernelHalfStays(w1, w5, root, active);
    } else {
      UnseenIsolated(w4, w5, root, pages);
    }
    IsolatedTransitive(w, w4, w5, root);
  }

  lemma StillEmpty(w: World, m: Pmm.Memory, active: nat, root: nat)
    requires NewSpace(w.memory, active, root) && SameLeaves(w.memory, w.home, m) && IsRoot(w.home, root)
    ensures UserHalfEmpty(m, root)
  {
    hide LeafOf, Index;
  }

  /** In an empty user half a segment can only meet another segment. */
  lemma MeetsNothing(m: Pmm.Memory, root: nat, image: Block)
    requires UserHalfEmpty(m, root) && ImageOk(image) && EmptySegmentsOk(image) && |image| < TWO_64
    ensures !exists i :: 0 <= i < Phnum(image) && MeetsPage(m, root, Header(image, i))
  {
    hide LeafOf, Index, Header, Visits, HeaderBytesOk, SegmentOk, EmptySegmentsOk, Confined, Loadable;
    forall i | 0 <= i < Phnum(image) ensures !MeetsPage(m, root, Header(image, i)) {
      if MeetsPage(m, root, Header(image, i)) {
        MeetsLoad(m, root, Header(image, i));
        HeaderLoadable(image, i);
        LoadableConfined(|image|, Header(image, i));
        var pg: nat :| Visits(Header(image, i), pg) && LeafOf(m, root, 4, pg * PAGE_SIZE).Leaf?;
        ConfinedAt(|image|, Header(image, i), pg);
        PageStart(pg);
      }
    }
  }

  /** The page of the stack is taken exactly if a segment visits it. */
  lemma StackVisited(m: Pmm.Memory, m1: Pmm.Memory, root: nat, image: Block, pages: map<nat, Block>)
    requires UserHalfEmpty(m, root) && MapsOnly(m, m1, root, pages.Keys) && ImageOk(image)
    requires forall pg :: pg in pages <==> Visited(image, Phnum(image), pg)
    ensures LeafOf(m1, root, 4, STACK_PAGE * PAGE_SIZE).Leaf? <==> Visited(image, Phnum(image), STACK_PAGE)
    ensures AlignedTo(STACK_PAGE * PAGE_SIZE, 1)
  {
    hide LeafOf, Visited, ImageOk;
    PageStart(STACK_PAGE);
  }

  lemma NonePlaced(w: World, root: nat)
    ensures Placed(w, root, map[])
  {
  }

  /** A frame leaves the free list. */
  lemma TakenIsolated(w: World, root: nat)
    requires w.list != []
    ensures Isolated(w, w.(list := w.list[1..]), root)
  {
  }

  lemma FrameStays(w: World, w1: World, root: nat, f: nat)
    requires Isolated(w, w1, root) && f !in w.home && f !in w.list && f in w.memory
    ensures f !in w1.home && f !in w1.list && f in w1.memory && w1.memory[f] == w.memory[f]
  {
  }

  lemma StillAllLoaded(pages: map<nat, Block>, pages': map<nat, Block>, image: Block)
    requires ImageOk(image) && AllLoaded(pages, image, Phnum(image)) && Extends(pages, pages')
    ensures AllLoaded(pages', image, Phnum(image))
  {
    hide SegmentPage, Header;
  }

  lemma KernelHalfStays(w: World, w1: World, root: nat, active: nat)
    requires Isolated(w, w1, root) && IsRoot(w.home, root) && IsRoot(w.home, active) && active != root && NewSpace(w.memory, active, root)
    ensures KernelHalfShared(w1.memory, root, active)
  {
    hide LeafOf, Index, Shares;
  }

  // ---------- the heap of a process ----------

  const NO_FILE: ProgramHeader := ProgramHeader(PT_LOAD, 0, 0, 0, 0, 0, 0)

  /** Pages [lo, hi) are zero. */
  ghost predicate ZeroPages(pages: map<nat, Block>, lo: nat, hi: nat) {
    forall pg :: lo <= pg < hi ==> pg in pages && pages[pg] == Zeros(PAGE_SIZE)
  }

  lemma NoFilePage(va: nat)
    ensures !ReadsOutside(0, NO_FILE, va) && FileInside(0, NO_FILE) && SegmentPage([], NO_FILE, va) == Zeros(PAGE_SIZE)
  {
    var page := SegmentPage([], NO_FILE, va);
    forall k | 0 <= k < PAGE_SIZE ensures page[k] == 0 {
      assert page[k] == SegmentByte([], NO_FILE, va + k);
    }
    assert page == Zeros(PAGE_SIZE);
  }

  /** The number of the page that starts at or behind `a`. */
  function PagesBelow(a: nat): nat { (a + PAGE_SIZE - 1) / PAGE_SIZE }

  /** align_up, on an address of the user half. */
  lemma PagesUp(a: nat)
    requires a <= USER_MAX
    ensures PageUp(a) == PagesBelow(a) * PAGE_SIZE && a <= PageUp(a) < a + PAGE_SIZE
  {
  }

  lemma SmallerPage(pg: nat, hi: nat, a: nat)
    requires pg < hi && hi * PAGE_SIZE < a + PAGE_SIZE && a <= USER_MAX
    ensures pg * PAGE_SIZE < USER_MAX && pg * PAGE_SIZE < a
  {
  }

  /** One of the pages [lo, hi) is mapped. */
  ghost predicate PageMapped(m: Pmm.Memory, root: nat, lo: nat, hi: int) {
    exists pg: nat :: lo <= pg < hi && LeafOf(m, root, 4, pg * PAGE_SIZE).Leaf?
  }

  /** process_sbrk: moves the break by `increment` bytes, never down and never past the limit, and backs it with zeroed pages
      that no other space sees; when that fails the break stays where it was, and the first pages stay mapped. */
  method Sbrk(v: AddressSpaces, root: nat, current: nat, limit: nat, increment: int, ghost pages: map<nat, Block>)
    returns (ok: bool, current': nat, ghost pages': map<nat, Block>, ghost reached: nat)
    requires v.Valid() && root != 0 && Ready(WorldOf(v), root) && Placed(WorldOf(v), root, pages)
    requires current <= limit <= USER_MAX && -0x8000_0000_0000_0000 <= increment < 0x8000_0000_0000_0000
    modifies v, v.pmm
    ensures v.Valid() && v.active == old(v.active) && v.kernelRoot == old(v.kernelRoot) && Ready(WorldOf(v), root)
    ensures Isolated(old(WorldOf(v)), WorldOf(v), root)
    ensures current' == if ok then current + increment else current
    ensures ok ==> 0 <= increment && current + increment <= limit
    ensures Placed(WorldOf(v), root, pages') && Extends(pages, pages')
    ensures var lo := PagesBelow(current);
            && ZeroPages(pages', lo, reached) && MapsOnly(old(v.pmm.memory), v.pmm.memory, root, Range(lo, reached))
            && (ok ==> reached == PagesBelow(current + increment))
            && (!ok ==>
                  || increment < 0 || current + increment > limit || v.pmm.list == []
                  || PageMapped(old(v.pmm.memory), root, lo, PagesBelow(current + increment)))
    ensures increment == 0 ==> ok
  {
    hide Slot, Index, LeafOf, TablesOk, Pmm.Chain, Pmm.NoRepeats, Isolated, Placed, SegmentPage, Ready, MapsOnly, Spaces,
      ReadsOutside, FileInside, PageMapped, Add64, PageUp, PagesBelow, Range, ZeroPages, Extends, AddressSpaces.Valid;
    ghost var w := WorldOf(v);
    NothingIsolated(w, root);
    ghost var lo: nat := PagesBelow(current);
    NoZeroPages(pages, lo);
    pages', current', reached := pages, current, lo;
    if increment == 0 {
      return true, current, pages, lo;
    }
    if increment < 0 {
      return false, current, pages, lo;
    }
    SumFits(current, increment);
    var newBreak := Add64(current, increment);
    if newBreak < current || newBreak > limit {
      return false, current, pages, lo;
    }
    PagesUp(current);
    PagesUp(newBreak);
    var va, end := PageUp(current), PageUp(newBreak);
    ghost var hi := PagesBelow(newBreak);
    while va < end
      invariant lo <= reached <= hi && va == reached * PAGE_SIZE && end == hi * PAGE_SIZE
      invariant v.Valid() && v.active == old(v.active) && v.kernelRoot == old(v.kernelRoot) && Ready(WorldOf(v), root)
      invariant Isolated(w, WorldOf(v), root) && Placed(WorldOf(v), root, pages')
      invariant Extends(pages, pages') && ZeroPages(pages', lo, reached)
      invariant MapsOnly(w.memory, v.pmm.memory, root, Range(lo, reached))
    {
      ghost var w1, pages1 := WorldOf(v), pages';
      SmallerPage(reached, hi, newBreak);
      NoFilePage(va);
      StillFree(w.memory, w1.memory, root, lo, reached, hi);
      ok, pages' := LoadSegmentPage(v, root, [], NO_FILE, va, reached, pages');
      IsolatedTransitive(w, w1, WorldOf(v), root);
      MapsOnlyTransitive(w.memory, w1.memory, v.pmm.memory, root, Range(lo, reached), if ok then {reached} else {});
      if !ok {
        assert Range(lo, reached) + {} == Range(lo, reached);
        return false, current, pages', reached;
      }
      OneMoreZero(pages, pages1, pages', lo, reached);
      va, reached := va + PAGE_SIZE, reached + 1;
    }
    return true, newBreak, pages', reached;
  }

  lemma SumFits(a: nat, b: nat)
    requires a <= USER_MAX && b < 0x8000_0000_0000_0000
    ensures Add64(a, b) == a + b
  {
  }

  lemma NoZeroPages(pages: map<nat, Block>, lo: nat)
    ensures ZeroPages(pages, lo, lo) && Extends(pages, pages) && Range(lo, lo) == {}
  {
  }

  lemma OneMoreZero(pages: map<nat, Block>, pages1: map<nat, Block>, pages2: map<nat, Block>, lo: nat, pg: nat)
    requires Extends(pages, pages1) && Extends(pages1, pages2) && ZeroPages(pages1, lo, pg) && lo <= pg
    requires pg in pages2 && pages2[pg] == Zeros(PAGE_SIZE)
    ensures Extends(pages, pages2) && ZeroPages(pages2, lo, pg + 1) && Range(lo, pg + 1) == Range(lo, pg) + {pg}
  {
    RangeNext(lo, pg);
    hide Range, Zeros;
  }

  /** The page behind those just mapped is mapped only if it was before. */
  lemma StillFree(m: Pmm.Memory, m1: Pmm.Memory, root: nat, lo: nat, pg: nat, hi: nat)
    requires MapsOnly(m, m1, root, Range(lo, pg)) && pg * PAGE_SIZE < USER_MAX && lo <= pg < hi
    ensures LeafOf(m1, root, 4, pg * PAGE_SIZE).Leaf? ==> PageMapped(m, root, lo, hi)
  {
    hide LeafOf, Range;
    PageStart(pg);
    InRange(lo, pg, pg);
  }

  /** The process reads zeros from its new heap. */
  lemma HeapReadsZero(w: World, root: nat, pages: map<nat, Block>, lo: nat, hi: nat, a: nat)
    requires Placed(w, root, pages) && ZeroPages(pages, lo, hi) && Ready(w, root)
    requires a <= USER_MAX && lo <= a / PAGE_SIZE < hi
    ensures UserByte(w.memory, root, a) == Some(0)
  {
    SeenByte(w, root, pages, a);
  }
}
