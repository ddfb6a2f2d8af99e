/** The physical page allocator: a list of free frames threaded through the frames themselves. */
module Pmm {
  import opened Bytes

  /** A page-table entry; `addr` is the frame or table it refers to. */
  datatype Entry = Entry(present: bool, huge: bool, user: bool, addr: nat)

  const NO_ENTRY: Entry := Entry(false, false, false, 0)

  /** What a frame of physical memory holds. */
  datatype Frame = FreePage(next: nat) | Table(entries: seq<Entry>) | Page(bytes: Block)

  type Memory = map<nat, Frame>

  /** A memory range of the boot loader's map. */
  datatype Range = Range(base: nat, length: nat, usable: bool)

  datatype Stats = Stats(totalPages: nat, freePages: nat, usedPages: nat, totalBytes: nat, freeBytes: nat, usedBytes: nat)

  predicate Aligned(p: nat) { p % PAGE_SIZE == 0 }

  /** The free list that starts at `head` runs through exactly `list` and ends in the null pointer. */
  ghost predicate Chain(m: Memory, head: nat, list: seq<nat>)
    decreases |list|
  {
    if list == [] then head == 0
    else
      && head == list[0] && head != 0 && head in m && m[head].FreePage?
      && Chain(m, m[head].next, list[1..])
  }

  /** Some list hangs off `head`. */
  ghost predicate Proper(m: Memory, head: nat) {
    exists list :: Chain(m, head, list)
  }

  ghost predicate NoRepeats(s: seq<nat>) {
    forall i, j :: 0 <= i < j < |s| ==> s[i] != s[j]
  }

  /** The list does not see a write to a frame that is not on it. */
  lemma {:induction false} ChainFrame(m: Memory, head: nat, list: seq<nat>, p: nat, f: Frame)
    requires Chain(m, head, list) && p !in list
    ensures Chain(m[p := f], head, list)
    decreases |list|
  {
    if list != [] {
      ChainFrame(m, m[head].next, list[1..], p, f);
    }
  }

  lemma {:induction false} ChainAt(m: Memory, head: nat, list: seq<nat>, i: nat)
    requires Chain(m, head, list) && i < |list|
    ensures list[i] != 0 && list[i] in m && m[list[i]].FreePage?
    ensures m[list[i]].next == if i + 1 < |list| then list[i + 1] else 0
    decreases |list|
  {
    if i > 0 {
      ChainAt(m, m[head].next, list[1..], i - 1);
    } else if |list| > 1 {
      assert m[head].next == list[1..][0];
    }
  }

  lemma PushChain(m: Memory, head: nat, list: seq<nat>, p: nat)
    requires Chain(m, head, list) && p !in list && p != 0
    ensures Chain(m[p := FreePage(head)], p, [p] + list)
  {
    ChainFrame(m, head, list, p, FreePage(head));
    assert ([p] + list)[1..] == list;
  }

  // ---------- freeing twice ----------

  /** A frame that is freed while it is already free closes a cycle: no list, however long, describes what hangs
      off the new head. */
  lemma {:induction false} DoubleFreeCycle(m: Memory, head: nat, list: seq<nat>, k: nat, i: nat, l: seq<nat>)
    requires Chain(m, head, list) && k < |list| && i <= k
    requires forall j :: 0 <= j < k ==> list[j] != list[k]
    ensures !Chain(m[list[k] := FreePage(head)], list[i], l)
    decreases |l|
  {
    var m' := m[list[k] := FreePage(head)];
    if Chain(m', list[i], l) {
      ChainAt(m, head, list, i);
      if i < k {
        ChainAt(m, head, list, i + 1);
        DoubleFreeCycle(m, head, list, k, i + 1, l[1..]);
      } else {
        DoubleFreeCycle(m, head, list, k, 0, l[1..]);
      }
    }
  }

  ghost function FirstIn(list: seq<nat>, p: nat): (k: nat)
    requires p in list
    ensures k < |list| && list[k] == p && forall j :: 0 <= j < k ==> list[j] != p
  {
    if list[0] == p then 0 else 1 + FirstIn(list[1..], p)
  }

  /** Freeing leaves a proper list if and only if the frame was not free already. */
  lemma FreeKeepsList(m: Memory, head: nat, list: seq<nat>, p: nat)
    requires Chain(m, head, list) && p != 0
    ensures p !in list <==> Proper(m[p := FreePage(head)], p)
  {
    if p !in list {
      PushChain(m, head, list, p);
      assert Chain(m[p := FreePage(head)], p, [p] + list);
    } else {
      var k := FirstIn(list, p);
      var m' := m[p := FreePage(head)];
      forall l ensures !Chain(m', p, l) {
        DoubleFreeCycle(m, head, list, k, k, l);
      }
    }
  }

  // ---------- ranges ----------

  /** Frame `p` lies wholly inside a usable range. */
  predicate InRange(r: Range, p: nat) {
    r.usable && Aligned(p) && p != 0 && r.base <= p && p + PAGE_SIZE <= r.base + r.length
  }

  ghost predicate RangesOk(ranges: seq<Range>) {
    && (forall i :: 0 <= i < |ranges| ==> ranges[i].base + ranges[i].length + PAGE_SIZE < TWO_64)
    && (forall i, j :: 0 <= i < j < |ranges| && ranges[i].usable && ranges[j].usable ==>
          ranges[i].base + ranges[i].length <= ranges[j].base || ranges[j].base + ranges[j].length <= ranges[i].base)
  }

  ghost predicate InRanges(ranges: seq<Range>, n: nat, p: nat)
    requires n <= |ranges|
  {
    exists i :: 0 <= i < n && InRange(ranges[i], p)
  }

  function AlignUp(v: nat): nat {
    (v + PAGE_SIZE - 1) % TWO_64 / PAGE_SIZE * PAGE_SIZE
  }

  function AlignDown(v: nat): nat {
    v / PAGE_SIZE * PAGE_SIZE
  }

  /** The frames of a range are the aligned addresses from its rounded-up start to its rounded-down end. */
  lemma RangeFrames(r: Range, p: nat)
    requires r.usable && r.base + r.length + PAGE_SIZE < TWO_64
    ensures InRange(r, p) <==> Aligned(p) && p != 0 && AlignUp(r.base) <= p < AlignDown(r.base + r.length)
  {
  }

  /** Ranges do not overlap, so a frame of range `i` is in no earlier one. */
  lemma EarlierRanges(ranges: seq<Range>, i: nat, p: nat)
    requires RangesOk(ranges) && i < |ranges| && InRange(ranges[i], p)
    ensures !InRanges(ranges, i, p)
  {
  }

  function Set(s: seq<nat>): set<nat> { set p | p in s }

  /** The two memories differ in frames of `list` only. */
  ghost predicate Elsewhere(m: Memory, m': Memory, list: seq<nat>) {
    forall p :: p !in list ==> (p in m' <==> p in m) && (p in m ==> m'[p] == m[p])
  }

  lemma Multiple(k: nat)
    ensures Aligned(k * PAGE_SIZE)
  {
  }

  lemma NextAligned(page: nat)
    ensures Aligned(page) ==> Aligned(page + PAGE_SIZE)
  {
  }

  lemma RoundedIsAligned(page: nat)
    ensures Aligned(AlignUp(page))
  {
    Multiple((page + PAGE_SIZE - 1) % TWO_64 / PAGE_SIZE);
  }

  lemma InUsable(ranges: seq<Range>, i: nat, p: nat)
    requires RangesOk(ranges) && i < |ranges| && ranges[i].usable
    ensures InRange(ranges[i], p) <==>
            Aligned(p) && p != 0 && AlignUp(ranges[i].base) <= p < AlignDown(ranges[i].base + ranges[i].length)
  {
    RangeFrames(ranges[i], p);
  }

  lemma ElsewhereReflexive(m: Memory, list: seq<nat>)
    ensures Elsewhere(m, m, list)
  {
  }

  lemma ElsewhereTransitive(m0: Memory, m1: Memory, l1: seq<nat>, m2: Memory, l2: seq<nat>)
    requires Elsewhere(m0, m1, l1) && Elsewhere(m1, m2, l2) && forall p :: p in l1 ==> p in l2
    ensures Elsewhere(m0, m2, l2)
  {
  }

  lemma NextPage(page: nat, p: nat)
    requires Aligned(page) && Aligned(p)
    ensures p < page + PAGE_SIZE <==> p < page || p == page
  {
  }

  /** The frames of ranges before `i`, and those of range `i` below `page`, are in `list`. */
  ghost predicate Taken(ranges: seq<Range>, i: nat, page: nat, list: seq<nat>)
    requires i < |ranges|
  {
    forall p: nat :: p in list <==> InRanges(ranges, i, p) || (InRange(ranges[i], p) && p < page)
  }

  lemma TakenStep(ranges: seq<Range>, i: nat, page: nat, list: seq<nat>)
    requires i < |ranges| && Taken(ranges, i, page, list) && Aligned(page) && RangesOk(ranges)
    ensures InRange(ranges[i], page) ==> page !in list
    ensures InRange(ranges[i], page) ==> Taken(ranges, i, page + PAGE_SIZE, [page] + list)
    ensures !InRange(ranges[i], page) ==> Taken(ranges, i, page + PAGE_SIZE, list)
  {
    forall p: nat | Aligned(p) ensures p < page + PAGE_SIZE <==> p < page || p == page {
      NextPage(page, p);
    }
    if InRange(ranges[i], page) {
      EarlierRanges(ranges, i, page);
    }
    hide InRanges;
  }

  lemma TakenStarts(ranges: seq<Range>, i: nat, list: seq<nat>)
    requires i < |ranges| && ranges[i].usable && RangesOk(ranges) && Covers(ranges, i, list)
    ensures Taken(ranges, i, AlignUp(ranges[i].base), list)
  {
    forall p: nat | InRange(ranges[i], p) ensures AlignUp(ranges[i].base) <= p {
      RangeFrames(ranges[i], p);
    }
  }

  lemma TakenEnds(ranges: seq<Range>, i: nat, page: nat, list: seq<nat>)
    requires i < |ranges| && ranges[i].usable && RangesOk(ranges) && Taken(ranges, i, page, list)
    requires page >= AlignDown(ranges[i].base + ranges[i].length)
    ensures Covers(ranges, i + 1, list)
  {
    forall p: nat ensures InRange(ranges[i], p) ==> p < AlignDown(ranges[i].base + ranges[i].length) {
      RangeFrames(ranges[i], p);
    }
  }

  /** `list` holds exactly the frames of the first `n` ranges. */
  ghost predicate Covers(ranges: seq<Range>, n: nat, list: seq<nat>)
    requires n <= |ranges|
  {
    forall p: nat :: p in list <==> InRanges(ranges, n, p)
  }

  class Allocator {
    var memory: Memory
    var freeList: nat
    var totalPages: nat
    var freePages: nat
    var initialized: bool
    /** The free frames in list order. */
    ghost var list: seq<nat>
    /** The frames the allocator was given. */
    ghost var tracked: set<nat>

    ghost predicate Valid()
      reads this
    {
      && Chain(memory, freeList, list) && NoRepeats(list) && freePages == |list|
      && (forall p :: p in list ==> p in tracked)
      && (forall p :: p in tracked ==> p != 0 && Aligned(p))
      && totalPages == |tracked| && (!initialized ==> list == [])
    }

    constructor (memory: Memory)
      ensures Valid() && !initialized && this.memory == memory && list == [] && tracked == {}
    {
      this.memory := memory;
      freeList, totalPages, freePages, initialized := 0, 0, 0, false;
      list, tracked := [], {};
    }

    /** push_page: writes the link into the frame and makes it the head. */
    method PushPage(p: nat)
      requires Valid() && initialized && p !in list && p in tracked
      modifies this
      ensures Valid() && initialized && list == [p] + old(list) && memory == old(memory)[p := FreePage(old(freeList))]
      ensures tracked == old(tracked)
    {
      PushChain(memory, freeList, list, p);
      memory := memory[p := FreePage(freeList)];
      freeList := p;
      freePages := freePages + 1;
      list := [p] + list;
    }

    /** pmm_init. Without a memory map nothing is initialized; with one, exactly the frames that lie wholly in a usable
        range, except frame 0, become free. */
    method Init(present: bool, ranges: seq<Range>)
      requires RangesOk(ranges)
      modifies this
      ensures Valid() && initialized == present
      ensures !present ==> list == [] && tracked == {} && memory == old(memory)
      ensures present ==> Covers(ranges, |ranges|, list)
      ensures tracked == Set(list)
      ensures Elsewhere(old(memory), memory, list)
    {
      freeList, totalPages, freePages, initialized := 0, 0, 0, false;
      list, tracked := [], {};
      if !present {
        return;
      }
      initialized := true;
      for i := 0 to |ranges|
        invariant Valid() && initialized
        invariant Covers(ranges, i, list)
        invariant tracked == Set(list)
        invariant Elsewhere(old(memory), memory, list)
      {
        if ranges[i].usable {
          AddRange(ranges, i, ranges[i].base, ranges[i].length);
        }
      }
    }

    /** The inner loop of pmm_init. */
    method AddRange(ghost ranges: seq<Range>, ghost i: nat, base: nat, length: nat)
      requires Valid() && initialized && RangesOk(ranges) && i < |ranges| && ranges[i] == Range(base, length, true)
      requires Covers(ranges, i, list)
      requires tracked == Set(list)
      modifies this
      ensures Valid() && initialized
      ensures Covers(ranges, i + 1, list)
      ensures tracked == Set(list)
      ensures Elsewhere(old(memory), memory, list)
    {
      hide Chain, NoRepeats, RangesOk, InRanges, Taken, Elsewhere, Aligned, InRange, AlignUp, AlignDown;
      var page, end := AlignUp(base), AlignDown(base + length);
      RoundedIsAligned(base);
      ElsewhereReflexive(memory, list);
      TakenStarts(ranges, i, list);
      while page < end
        invariant Valid() && initialized && Aligned(page) && AlignUp(base) <= page
        invariant Taken(ranges, i, page, list) && tracked == Set(list) && Elsewhere(old(memory), memory, list)
        decreases end - page
      {
        InUsable(ranges, i, page);
        ghost var m1, l1 := memory, list;
        AddPage(ranges, i, page);
        ElsewhereTransitive(old(memory), m1, l1, memory, list);
        NextAligned(page);
        page := page + PAGE_SIZE;
      }
      TakenEnds(ranges, i, page, list);
    }

    method AddPage(ghost ranges: seq<Range>, ghost i: nat, page: nat)
      requires Valid() && initialized && i < |ranges| && Aligned(page) && RangesOk(ranges)
      requires Taken(ranges, i, page, list) && tracked == Set(list) && (page != 0 ==> InRange(ranges[i], page))
      modifies this
      ensures Valid() && initialized && Taken(ranges, i, page + PAGE_SIZE, list) && tracked == Set(list)
      ensures Elsewhere(old(memory), memory, list)
      ensures forall p :: p in old(list) ==> p in list
    {
      TakenStep(ranges, i, page, list);
      if page != 0 {
        tracked := tracked + {page};
        totalPages := totalPages + 1;
        PushPage(page);
      }
    }

    method AllocPage() returns (p: nat)
      requires Valid()
      modifies this
      ensures Valid() && memory == old(memory) && tracked == old(tracked) && initialized == old(initialized)
      ensures p == 0 <==> old(list) == []
      ensures if p == 0 then list == old(list) else p == old(list)[0] && list == old(list)[1..] && p !in list && p in tracked
    {
      if !initialized || freeList == 0 {
        return 0;
      }
      p := freeList;
      freeList := memory[p].next;
      freePages := freePages - 1;
      list := list[1..];
    }

    /** pmm_free_page. Ignored for the null frame and misaligned addresses; anything else must be allocated. */
    method FreePageAt(p: nat)
      requires Valid() && (initialized && p != 0 && Aligned(p) ==> p in tracked && p !in list)
      modifies this
      ensures Valid() && tracked == old(tracked) && initialized == old(initialized)
      ensures if initialized && p != 0 && Aligned(p)
              then list == [p] + old(list) && memory == old(memory)[p := FreePage(old(freeList))]
              else list == old(list) && memory == old(memory)
    {
      if !initialized || p == 0 || !Aligned(p) {
        return;
      }
      PushPage(p);
    }

    /** pmm_get_stats: free and used frames add up to the frames the allocator was given. */
    method GetStats() returns (s: Stats)
      requires Valid()
      ensures s.totalPages == |tracked| && s.freePages == |list| && s.freePages + s.usedPages == s.totalPages
      ensures s.usedPages == |tracked - Set(list)|
      ensures s.freeBytes + s.usedBytes == s.totalBytes == s.totalPages * PAGE_SIZE
    {
      ListSize(list);
      ghost var free := Set(list);
      assert tracked == free + (tracked - free);
      assert |tracked| == |free| + |tracked - free|;
      var used := totalPages - freePages;
      s := Stats(totalPages, freePages, used, totalPages * PAGE_SIZE, freePages * PAGE_SIZE, used * PAGE_SIZE);
    }
  }

  lemma {:induction false} ListSize(s: seq<nat>)
    requires NoRepeats(s)
    ensures |Set(s)| == |s|
  {
    if s != [] {
      ListSize(s[1..]);
      assert s[0] !in Set(s[1..]);
      assert Set(s) == {s[0]} + Set(s[1..]);
    }
  }
}
