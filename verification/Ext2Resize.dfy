/** ext2_truncate and the growing half of ext2_write: one inode's size, blocks and bytes. */
module Ext2Resize {
  import opened Bytes
  import opened Ext2Layout
  import opened Ext2Files
  import opened Ext2Bytes
  import opened Ext2Volume
  import opened Ext2Inodes

  function HolesIn(g: Geometry, data: seq<Block>, m: BlockMap, lo: nat, hi: nat): nat {
    if hi <= lo then 0
    else HolesIn(g, data, m, lo, hi - 1) + if IdAt(g, data, m, hi - 1) == 0 then 1 else 0
  }

  /** The blocks it takes to fill every hole in [lo, hi), a first indirect block included. */
  function GrowthNeeds(g: Geometry, data: seq<Block>, m: BlockMap, lo: nat, hi: nat): nat {
    HolesIn(g, data, m, lo, hi) + if m[12] == 0 && DIRECT_BLOCKS < hi && lo < hi then 1 else 0
  }

  lemma {:induction false} GrowthNeedsMonotone(g: Geometry, data: seq<Block>, m: BlockMap, lo: nat, mid: nat, hi: nat)
    requires lo <= mid <= hi
    ensures GrowthNeeds(g, data, m, lo, mid) <= GrowthNeeds(g, data, m, lo, hi)
  {
    if mid < hi {
      GrowthNeedsMonotone(g, data, m, lo, mid, hi - 1);
    }
  }

  /** What the growing loop has done when it stands at `i`. */
  ghost predicate Grown(g: Geometry, data: seq<Block>, m: BlockMap, lo: nat, i: nat, data': seq<Block>, m': BlockMap) {
    && (forall j: nat :: j < g.MaxBlocks() ==>
          if lo <= j < i then IdAt(g, data', m', j) != 0 else IdAt(g, data', m', j) == IdAt(g, data, m, j))
    && (m'[12] == 0 <==> m[12] == 0 && (i <= DIRECT_BLOCKS || i <= lo)) && (m[12] != 0 ==> m'[12] == m[12])
    && (forall j: nat :: lo <= j < i && IdAt(g, data, m, j) != 0 && j < g.MaxBlocks() ==>
          IdAt(g, data', m', j) == IdAt(g, data, m, j))
  }

  lemma GrownStep(g: Geometry, d0: seq<Block>, m0: BlockMap, lo: nat, i: nat, d1: seq<Block>, m1: BlockMap,
                  d2: seq<Block>, m2: BlockMap, block: nat)
    requires lo <= i < g.MaxBlocks() && Grown(g, d0, m0, lo, i, d1, m1) && block != 0
    requires forall j: nat :: j < g.MaxBlocks() ==> IdAt(g, d2, m2, j) == if j == i then block else IdAt(g, d1, m1, j)
    requires i < DIRECT_BLOCKS || m1[12] != 0 ==> m2[12] == m1[12]
    requires IdAt(g, d1, m1, i) != 0 ==> block == IdAt(g, d1, m1, i)
    ensures Grown(g, d0, m0, lo, i + 1, d2, m2)
    ensures GrowthNeeds(g, d0, m0, lo, i + 1) ==
            GrowthNeeds(g, d0, m0, lo, i) + if IdAt(g, d1, m1, i) != 0 then 0 else BlocksNeeded(m1, i)
  {
  }

  /** A grow from `lo` to `hi` blocks with `free` free ones that runs out of them loses what it took: a direct block, which
      only the inode in memory refers to, or a first indirect block with what it refers to. Blocks entered into an
      indirect block that is on disk already stay referenced. */
  predicate LosesBlocks(g: Geometry, data: seq<Block>, m: BlockMap, free: nat, lo: nat, hi: nat) {
    if HolesIn(g, data, m, lo, Min(hi, DIRECT_BLOCKS)) > 0 then free > 0 else m[12] == 0 && free >= 2
  }

  /** Where the growing loop gives up: at a hole it cannot fill, with the blocks before it all mapped. */
  ghost predicate Stopped(g: Geometry, d0: seq<Block>, m0: BlockMap, free0: nat, lo: nat, hi: nat, i: nat,
                          d1: seq<Block>, m1: BlockMap, free1: nat)
  {
    && lo <= i < hi <= g.MaxBlocks() && Grown(g, d0, m0, lo, i, d1, m1) && IdAt(g, d1, m1, i) == 0
    && free1 < BlocksNeeded(m1, i) && free0 == free1 + GrowthNeeds(g, d0, m0, lo, i)
  }

  lemma {:induction false} HolesExist(g: Geometry, data: seq<Block>, m: BlockMap, lo: nat, hi: nat)
    ensures HolesIn(g, data, m, lo, hi) > 0 <==> exists j: nat :: lo <= j < hi && IdAt(g, data, m, j) == 0
    decreases hi
  {
    if lo < hi { HolesExist(g, data, m, lo, hi - 1); }
  }

  lemma {:induction false} HolesSplit(g: Geometry, data: seq<Block>, m: BlockMap, lo: nat, mid: nat, hi: nat)
    requires lo <= mid <= hi
    ensures HolesIn(g, data, m, lo, hi) == HolesIn(g, data, m, lo, mid) + HolesIn(g, data, m, mid, hi)
    decreases hi
  {
    if mid < hi { HolesSplit(g, data, m, lo, mid, hi - 1); }
  }

  lemma {:induction false} HolesSame(g: Geometry, d0: seq<Block>, m0: BlockMap, d1: seq<Block>, m1: BlockMap, lo: nat, hi: nat)
    requires forall j: nat :: lo <= j < hi ==> IdAt(g, d1, m1, j) == IdAt(g, d0, m0, j)
    ensures HolesIn(g, d1, m1, lo, hi) == HolesIn(g, d0, m0, lo, hi)
    decreases hi
  {
    if lo < hi { HolesSame(g, d0, m0, d1, m1, lo, hi - 1); }
  }

  /** A grow that runs out of blocks has filled entries of the indirect block that is on disk already: the inode there has
      more blocks than it counts. */
  predicate Miscounts(g: Geometry, data: seq<Block>, m: BlockMap, free: nat, lo: nat, hi: nat) {
    m[12] != 0 && free > HolesIn(g, data, m, lo, Min(hi, DIRECT_BLOCKS))
  }

  lemma {:induction false} MoreIds(g: Geometry, d0: seq<Block>, m0: BlockMap, d1: seq<Block>, m1: BlockMap, hi: nat)
    requires forall j: nat :: j < hi ==> IdAt(g, d0, m0, j) != 0 ==> IdAt(g, d1, m1, j) != 0
    ensures CountIds(g, d1, m1, hi) >= CountIds(g, d0, m0, hi)
    ensures (exists j: nat :: j < hi && IdAt(g, d0, m0, j) == 0 && IdAt(g, d1, m1, j) != 0) ==>
              CountIds(g, d1, m1, hi) > CountIds(g, d0, m0, hi)
  {
    hide IdAt;
    if hi > 0 { MoreIds(g, d0, m0, d1, m1, hi - 1); }
  }

  /** The entries filled before the stop. */
  lemma StoppedEntries(g: Geometry, d0: seq<Block>, m0: BlockMap, free0: nat, lo: nat, hi: nat, i: nat,
                       d1: seq<Block>, m1: BlockMap, free1: nat)
    requires Stopped(g, d0, m0, free0, lo, hi, i, d1, m1, free1) && m0[12] != 0
    ensures (exists j: nat :: lo <= j < i && DIRECT_BLOCKS <= j && IdAt(g, d0, m0, j) == 0) <==> Miscounts(g, d0, m0, free0, lo, hi)
  {
    hide IdAt;
    if DIRECT_BLOCKS < i {
      if lo <= DIRECT_BLOCKS {
        HolesSplit(g, d0, m0, lo, DIRECT_BLOCKS, i);
        HolesExist(g, d0, m0, DIRECT_BLOCKS, i);
      } else {
        HolesExist(g, d0, m0, lo, i);
      }
    } else {
      HolesSplit(g, d0, m0, lo, i, Min(hi, DIRECT_BLOCKS));
    }
  }

  /** So a stopped grow leaves the count of the inode on disk right exactly when it has filled no such entry. */
  lemma StoppedCount(g: Geometry, d0: seq<Block>, m0: BlockMap, free0: nat, lo: nat, hi: nat, i: nat,
                     d1: seq<Block>, m1: BlockMap, free1: nat)
    requires Stopped(g, d0, m0, free0, lo, hi, i, d1, m1, free1) && g.blockSize >= 512
    ensures SectorCount(g, d1, m0) == SectorCount(g, d0, m0) <==> !Miscounts(g, d0, m0, free0, lo, hi)
  {
    forall j: nat ensures IdAt(g, d1, m0, j) ==
                          if DIRECT_BLOCKS <= j && m0[12] != 0 then IdAt(g, d1, m1, j) else IdAt(g, d0, m0, j)
    {
    }
    if m0[12] != 0 { StoppedEntries(g, d0, m0, free0, lo, hi, i, d1, m1, free1); }
    hide IdAt, HolesIn, CountIds, Miscounts;
    if Miscounts(g, d0, m0, free0, lo, hi) && m0[12] != 0 {
      MoreIds(g, d0, m0, d1, m0, g.MaxBlocks());
      MoreSectors(CountIds(g, d0, m0, g.MaxBlocks()), CountIds(g, d1, m0, g.MaxBlocks()), g.blockSize / 512);
    } else {
      SameCount(g, d0, m0, d1, m0, g.MaxBlocks());
    }
  }

  lemma MoreSectors(a: nat, b: nat, k: nat)
    requires a < b && k > 0
    ensures (a + 1) * k < (b + 1) * k
  {
  }

  /** The inode on disk and the one in memory have the same block numbers up to the indirect one. */
  predicate SameSlots(m: BlockMap, m': BlockMap) {
    m'[12] == m[12] && forall j :: 0 <= j < DIRECT_BLOCKS ==> m'[j] == m[j]
  }

  /** A stopped grow left the first slots alone exactly when it loses nothing. */
  lemma StoppedSlots(g: Geometry, d0: seq<Block>, m0: BlockMap, free0: nat, lo: nat, hi: nat, i: nat,
                     d1: seq<Block>, m1: BlockMap, free1: nat)
    requires Stopped(g, d0, m0, free0, lo, hi, i, d1, m1, free1)
    ensures SameSlots(m0, m1) <==> !LosesBlocks(g, d0, m0, free0, lo, hi)
  {
    var direct := Min(hi, DIRECT_BLOCKS);
    HolesExist(g, d0, m0, lo, direct);
    HolesExist(g, d0, m0, lo, i);
    forall j: nat | j < DIRECT_BLOCKS
      ensures IdAt(g, d0, m0, j) == m0[j] && IdAt(g, d1, m1, j) == m1[j]
    {
    }
    if HolesIn(g, d0, m0, lo, direct) > 0 {
      var j: nat :| lo <= j < direct && IdAt(g, d0, m0, j) == 0;
      if free0 > 0 && i <= j {
        assert HolesIn(g, d0, m0, lo, i) > 0;
        var h: nat :| lo <= h < i && IdAt(g, d0, m0, h) == 0;
        assert m1[h] != m0[h];
      } else if free0 > 0 {
        assert m1[j] != m0[j];
      }
    } else if m0[12] == 0 && lo < i && DIRECT_BLOCKS < i {
      assert IdAt(g, d0, m0, i - 1) == 0;
    }
  }

  /** With the copy in memory tidy, the inode on disk is tidy exactly when it has the same slots. */
  lemma DiskTidy(g: Geometry, data: seq<Block>, owner: seq<Owner>, n: nat, disk: BlockMap, m: BlockMap)
    requires Holds(g, data, owner, n, m) && Tidy(g, data, owner, n, m, 0) && Holds(g, data, owner, n, disk)
    requires forall j :: 0 <= j < DIRECT_BLOCKS && disk[j] != 0 ==> m[j] == disk[j]
    requires disk[12] != 0 ==> m[12] == disk[12]
    ensures Tidy(g, data, owner, n, disk, 0) <==> SameSlots(disk, m)
  {
    if SameSlots(disk, m) {
      assert forall j: nat :: IdAt(g, data, disk, j) == IdAt(g, data, m, j);
    } else if m[12] != disk[12] {
      assert owner[m[12]] == Indirect(n);
    } else {
      var j :| 0 <= j < DIRECT_BLOCKS && m[j] != disk[j];
      assert IdAt(g, data, m, j) == m[j] != 0;
      assert owner[m[j]] == Data(n, j);
      assert IdAt(g, data, disk, j) == 0;
    }
  }

  lemma StoppedTidy(g: Geometry, n: nat, d0: seq<Block>, m0: BlockMap, free0: nat, lo: nat, hi: nat, i: nat,
                    d1: seq<Block>, owner1: seq<Owner>, m1: BlockMap, free1: nat)
    requires Stopped(g, d0, m0, free0, lo, hi, i, d1, m1, free1)
    requires Holds(g, d1, owner1, n, m1) && Holds(g, d1, owner1, n, m0) && Tidy(g, d1, owner1, n, m1, 0)
    ensures Tidy(g, d1, owner1, n, m0, 0) <==> !LosesBlocks(g, d0, m0, free0, lo, hi)
  {
    StoppedSlots(g, d0, m0, free0, lo, hi, i, d1, m1, free1);
    forall j | 0 <= j < DIRECT_BLOCKS && m0[j] != 0 ensures m1[j] == m0[j] {
      assert IdAt(g, d0, m0, j) == m0[j] && IdAt(g, d1, m1, j) == m1[j];
    }
    hide IdAt, LosesBlocks, Tidy, Holds;
    DiskTidy(g, d1, owner1, n, m0, m1);
  }

  method Grow(v: Volume, ghost n: nat, ghost disk: BlockMap, ino: Inode, lo: nat, hi: nat)
    returns (ok: bool, ino': Inode, ghost stop: nat)
    requires v.Valid() && v.Tracked() && lo <= hi <= v.geo.MaxBlocks()
    requires Holds(v.geo, v.data[..], v.owner, n, ino.block) && Holds(v.geo, v.data[..], v.owner, n, disk)
    modifies v, v.groups, v.blockUsed, v.data
    ensures v.Valid() && v.Tracked()
    ensures KeepsContent(v.geo, n, old(v.data[..]), old(v.owner), ino.block, disk, v.data[..], v.owner, ino'.block)
    ensures ok <==> old(v.freeBlocks) >= GrowthNeeds(v.geo, old(v.data[..]), ino.block, lo, hi)
    ensures ok ==>
              && v.freeBlocks == old(v.freeBlocks) - GrowthNeeds(v.geo, old(v.data[..]), ino.block, lo, hi)
              && Grown(v.geo, old(v.data[..]), ino.block, lo, hi, v.data[..], ino'.block)
    ensures !ok ==> Stopped(v.geo, old(v.data[..]), ino.block, old(v.freeBlocks), lo, hi, stop, v.data[..], ino'.block, v.freeBlocks)
    ensures Tidy(v.geo, old(v.data[..]), old(v.owner), n, ino.block, 0) ==> Tidy(v.geo, v.data[..], v.owner, n, ino'.block, 0)
    ensures ino' == ino.(block := ino'.block, blocks := ino'.blocks)
    ensures DirCounts(v.groups[..]) == old(DirCounts(v.groups[..]))
  {
    hide Geometry.Ok, BlockCountersAgree, InodeCountersAgree, Tidy, Shaped, SectorCount, Touches, SameContent, OwnerBits, DirCounts;
    ghost var data0, owner0 := v.data[..], v.owner;
    ino', stop := ino, hi;
    KeepsContentReflexive(v.geo, n, data0, owner0, ino.block, disk);
    for i := lo to hi
      invariant v.Valid() && v.Tracked() && DirCounts(v.groups[..]) == old(DirCounts(v.groups[..]))
      invariant KeepsContent(v.geo, n, data0, owner0, ino.block, disk, v.data[..], v.owner, ino'.block)
      invariant old(v.freeBlocks) >= GrowthNeeds(v.geo, data0, ino.block, lo, i)
      invariant v.freeBlocks == old(v.freeBlocks) - GrowthNeeds(v.geo, data0, ino.block, lo, i)
      invariant Grown(v.geo, data0, ino.block, lo, i, v.data[..], ino'.block)
      invariant Tidy(v.geo, data0, owner0, n, ino.block, 0) ==> Tidy(v.geo, v.data[..], v.owner, n, ino'.block, 0)
      invariant ino' == ino.(block := ino'.block, blocks := ino'.blocks)
    {
      ghost var data1, owner1, m1 := v.data[..], v.owner, ino'.block;
      var block;
      ok, ino', block := EnsureFileBlock(v, n, disk, ino', i);
      KeepsContentTransitive(v.geo, n, disk, data0, owner0, ino.block, data1, owner1, m1,
                             v.data[..], v.owner, ino'.block);
      if !ok {
        NeedsMore(v.geo, data0, ino.block, lo, i, hi, data1, m1);
        stop := i;
        StillGrown(v.geo, data0, ino.block, lo, i, data1, m1, v.data[..]);
        if Tidy(v.geo, data1, owner1, n, m1, 0) {
          TidySameIds(v.geo, data1, v.data[..], v.owner, n, m1);
        }
        return;
      }
      GrownStep(v.geo, data0, ino.block, lo, i, data1, m1, v.data[..], ino'.block, block);
    }
    ok := true;
  }

  lemma StillGrown(g: Geometry, d0: seq<Block>, m0: BlockMap, lo: nat, i: nat, d1: seq<Block>, m1: BlockMap, d2: seq<Block>)
    requires Grown(g, d0, m0, lo, i, d1, m1) && SameIds(g, d1, m1, d2, m1) && i < g.MaxBlocks()
    ensures Grown(g, d0, m0, lo, i, d2, m1) && IdAt(g, d2, m1, i) == IdAt(g, d1, m1, i)
  {
    hide IdAt;
  }

  lemma NeedsMore(g: Geometry, d0: seq<Block>, m0: BlockMap, lo: nat, i: nat, hi: nat, d1: seq<Block>, m1: BlockMap)
    requires lo <= i < hi <= g.MaxBlocks() && Grown(g, d0, m0, lo, i, d1, m1) && IdAt(g, d1, m1, i) == 0
    ensures GrowthNeeds(g, d0, m0, lo, i) + BlocksNeeded(m1, i) <= GrowthNeeds(g, d0, m0, lo, hi)
  {
    GrowthNeedsMonotone(g, d0, m0, lo, i + 1, hi);
  }

  /** The first half of a resize: make the block map cover exactly what the new size needs. */
  method ResizeBlocks(v: Volume, ghost n: nat, ghost disk: BlockMap, ino: Inode, oldBlocks: nat, newBlocks: nat)
    returns (ok: bool, ino': Inode)
    requires v.Valid() && v.Tracked() && newBlocks <= v.geo.MaxBlocks()
    requires Holds(v.geo, v.data[..], v.owner, n, ino.block) && Holds(v.geo, v.data[..], v.owner, n, disk)
    modifies v, v.groups, v.blockUsed, v.data
    ensures v.Valid() && v.Tracked()
    ensures ok <==>
              newBlocks <= oldBlocks
              || old(v.freeBlocks) >= GrowthNeeds(v.geo, old(v.data[..]), ino.block, oldBlocks, newBlocks)
    ensures !ok ==>
              KeepsContent(v.geo, n, old(v.data[..]), old(v.owner), ino.block, disk, v.data[..], v.owner, ino'.block)
    ensures ok && oldBlocks < newBlocks ==>
              && Grown(v.geo, old(v.data[..]), ino.block, oldBlocks, newBlocks, v.data[..], ino'.block)
              && KeepsContent(v.geo, n, old(v.data[..]), old(v.owner), ino.block, disk, v.data[..], v.owner, ino'.block)
    ensures ok && oldBlocks < newBlocks ==>
              v.freeBlocks == old(v.freeBlocks) - GrowthNeeds(v.geo, old(v.data[..]), ino.block, oldBlocks, newBlocks)
    ensures ok && newBlocks < oldBlocks ==>
              Unmaps(v.geo, n, newBlocks, v.geo.MaxBlocks(), old(v.data[..]), old(v.owner), ino.block,
                     v.data[..], v.owner, ino'.block)
              && ino'.block[12] == if newBlocks <= DIRECT_BLOCKS then 0 else ino.block[12]
    ensures newBlocks == oldBlocks ==>
              v.Now() == old(v.Now()) && v.owner == old(v.owner) && ino' == ino && v.freeBlocks == old(v.freeBlocks)
    ensures ok && Tidy(v.geo, old(v.data[..]), old(v.owner), n, ino.block, 0) ==>
              Tidy(v.geo, v.data[..], v.owner, n, ino'.block, 0)
    ensures ino' == ino.(block := ino'.block, blocks := ino'.blocks)
    ensures !ok && disk == ino.block && Tidy(v.geo, old(v.data[..]), old(v.owner), n, disk, 0) ==>
              (Tidy(v.geo, v.data[..], v.owner, n, disk, 0) <==>
               !LosesBlocks(v.geo, old(v.data[..]), disk, old(v.freeBlocks), oldBlocks, newBlocks))
    ensures !ok && disk == ino.block ==>
              (SectorCount(v.geo, v.data[..], disk) == SectorCount(v.geo, old(v.data[..]), disk) <==>
               !Miscounts(v.geo, old(v.data[..]), disk, old(v.freeBlocks), oldBlocks, newBlocks))
    ensures DirCounts(v.groups[..]) == old(DirCounts(v.groups[..]))
  {
    assert v.geo.blockSize >= 512;
    hide Geometry.Ok, BlockCountersAgree, InodeCountersAgree, Tidy, Shaped, HolesIn, SectorCount, LosesBlocks, Stopped, Miscounts, DirCounts;
    ok, ino' := true, ino;
    if newBlocks > oldBlocks {
      ghost var stop, d0, free := 0, v.data[..], v.freeBlocks;
      ok, ino', stop := Grow(v, n, disk, ino, oldBlocks, newBlocks);
      if !ok && disk == ino.block && Tidy(v.geo, d0, old(v.owner), n, disk, 0) {
        StoppedTidy(v.geo, n, d0, disk, free, oldBlocks, newBlocks, stop, v.data[..], v.owner, ino'.block, v.freeBlocks);
      }
      if !ok && disk == ino.block {
        StoppedCount(v.geo, d0, disk, free, oldBlocks, newBlocks, stop, v.data[..], ino'.block, v.freeBlocks);
      }
    } else if newBlocks < oldBlocks {
      ok, ino' := FreeInodeBlocks(v, n, ino, newBlocks);
    }
  }

  /** Clears the old last block behind the old end of the file. If that block is a hole, what gets cleared is
      the tail of block 0: no file's content, but not this file's block either. */
  method ClearTail(v: Volume, ghost n: nat, ino: Inode, size: nat)
    requires v.Valid() && v.Tracked() && Holds(v.geo, v.data[..], v.owner, n, ino.block)
    requires size % v.geo.blockSize != 0 && BlocksFor(v.geo, size) <= v.geo.MaxBlocks()
    modifies v.data
    ensures v.Valid()
    ensures Touches(if old(IdAt(v.geo, v.data[..], ino.block, size / v.geo.blockSize)) == 0 then {0, n} else {n},
                    old(v.data[..]), v.owner, v.data[..], v.owner)
    ensures Holds(v.geo, v.data[..], v.owner, n, ino.block)
    ensures TailCleared(v.geo, old(v.data[..]), ino.block, size, v.data[..], ino.block)
    ensures SameIds(v.geo, old(v.data[..]), ino.block, v.data[..], ino.block)
    ensures Tidy(v.geo, old(v.data[..]), v.owner, n, ino.block, 0) ==> Tidy(v.geo, v.data[..], v.owner, n, ino.block, 0)
    ensures v.data[0] == if old(IdAt(v.geo, v.data[..], ino.block, size / v.geo.blockSize)) != 0 then old(v.data[0])
                         else CutBlock(old(v.data[0]), size % v.geo.blockSize)
  {
    hide Geometry.GroupsCover, BlockCountersAgree, InodeCountersAgree;
    ghost var data0 := v.data[..];
    ClearedTail(v.geo, data0, v.owner, n, ino.block, size);
    hide IdAt, Content, TailCleared, Holds, SameIds, Touches, Tidy;
    var id := BlockIdAt(v, ino, size / v.geo.blockSize);
    v.data[id] := CutBlock(v.data[id], size % v.geo.blockSize);
    assert v.data[..] == data0[id := CutBlock(data0[id], size % v.geo.blockSize)];
    if Tidy(v.geo, data0, v.owner, n, ino.block, 0) {
      TidySameIds(v.geo, data0, v.data[..], v.owner, n, ino.block);
    }
  }

  /** A resize fails only for want of room. */
  predicate Fits(g: Geometry, data: seq<Block>, ino: Inode, freeBlocks: nat, newSize: nat)
    requires g.blockSize > 0
  {
    && BlocksFor(g, newSize) <= g.MaxBlocks()
    && (BlocksFor(g, ino.size) < BlocksFor(g, newSize) ==>
          freeBlocks >= GrowthNeeds(g, data, ino.block, BlocksFor(g, ino.size), BlocksFor(g, newSize)))
  }

  /** A resize that runs out of blocks loses some: see LosesBlocks. */
  predicate GrowLoses(g: Geometry, data: seq<Block>, ino: Inode, freeBlocks: nat, newSize: nat)
    requires g.blockSize > 0
  {
    && BlocksFor(g, newSize) <= g.MaxBlocks()
    && LosesBlocks(g, data, ino.block, freeBlocks, BlocksFor(g, ino.size), BlocksFor(g, newSize))
  }

  /** And some leave the inode with a wrong count of its blocks: see Miscounts. */
  predicate GrowMiscounts(g: Geometry, data: seq<Block>, ino: Inode, freeBlocks: nat, newSize: nat)
    requires g.blockSize > 0
  {
    && BlocksFor(g, newSize) <= g.MaxBlocks()
    && Miscounts(g, data, ino.block, freeBlocks, BlocksFor(g, ino.size), BlocksFor(g, newSize))
  }

  /** For example: an empty file grown to two blocks when one is free. */
  lemma GrowLosesHere(g: Geometry, data: seq<Block>, mode: nat)
    requires g.SizeOk()
    ensures var ino := Inode(mode, 0, 1, 0, EMPTY_INODE.block);
            !Fits(g, data, ino, 1, 2 * g.blockSize) && GrowLoses(g, data, ino, 1, 2 * g.blockSize)
  {
    var ino := Inode(mode, 0, 1, 0, EMPTY_INODE.block);
    assert BlocksFor(g, 0) == 0 && BlocksFor(g, 2 * g.blockSize) == 2;
    assert HolesIn(g, data, ino.block, 0, 1) == 1 && HolesIn(g, data, ino.block, 0, 2) == 2;
  }

  /** The file blocks present before and after a resize keep their block numbers. */
  ghost predicate KeptIds(g: Geometry, d0: seq<Block>, m0: BlockMap, size0: nat, d1: seq<Block>, m1: BlockMap, size1: nat)
    requires g.blockSize > 0
  {
    && (forall j: nat :: j < g.MaxBlocks() && j < BlocksFor(g, size0) && j < BlocksFor(g, size1) ==>
          IdAt(g, d1, m1, j) == IdAt(g, d0, m0, j))
    && (m0[12] != 0 && DIRECT_BLOCKS < BlocksFor(g, size1) ==> m1[12] == m0[12])
  }

  /** The old last block is partial, and a hole: growing then clears a tail that is not this file's. */
  predicate HoleTail(g: Geometry, data: seq<Block>, ino: Inode, newSize: nat)
    requires g.blockSize > 0
  {
    ino.size < newSize && ino.size % g.blockSize != 0 && IdAt(g, data, ino.block, ino.size / g.blockSize) == 0
  }

  /** What a resize may touch. */
  function ResizeTouches(g: Geometry, data: seq<Block>, n: nat, ino: Inode, newSize: nat): set<nat>
    requires g.blockSize > 0
  {
    if HoleTail(g, data, ino, newSize) then {0, n} else {n}
  }

  /** What block 0, nobody's data, holds after a successful resize. */
  function BlockZeroAfter(g: Geometry, data: seq<Block>, ino: Inode, newSize: nat): Block
    requires g.blockSize > 0 && 0 < |data| && |data[0]| == g.blockSize
  {
    if HoleTail(g, data, ino, newSize) then CutBlock(data[0], ino.size % g.blockSize) else data[0]
  }

  /** So a resize damages block 0 if and only if it grows a file whose partial last block is a hole, and block 0 has
      something behind that point. */
  lemma BlockZeroKept(g: Geometry, data: seq<Block>, ino: Inode, newSize: nat)
    requires g.blockSize > 0 && 0 < |data| && |data[0]| == g.blockSize
    ensures BlockZeroAfter(g, data, ino, newSize) == data[0] <==>
            !HoleTail(g, data, ino, newSize) || forall k :: ino.size % g.blockSize <= k < g.blockSize ==> data[0][k] == 0
  {
    var at := ino.size % g.blockSize;
    var cut := CutBlock(data[0], at);
    if cut == data[0] {
      forall k | at <= k < g.blockSize ensures data[0][k] == 0 {
        assert cut[k] == 0;
      }
    }
    assert (forall k :: at <= k < g.blockSize ==> data[0][k] == 0) ==> cut == data[0][..at] + data[0][at..] == data[0];
  }

  lemma MetaBlockZero(who: set<nat>, d0: seq<Block>, o0: seq<Owner>, d1: seq<Block>, o1: seq<Owner>)
    requires Touches(who, d0, o0, d1, o1) && 0 !in who && 0 < |o0| && o0[0].Meta?
    ensures |d0| == |d1| == |o0| && d1[0] == d0[0]
  {
  }

  /** The block map after a successful growth from `lo` to `hi` blocks, and what it cost. */
  ghost predicate Extended(g: Geometry, d0: seq<Block>, m0: BlockMap, free0: nat, lo: nat, hi: nat,
                           d1: seq<Block>, m1: BlockMap, free1: nat)
  {
    Grown(g, d0, m0, lo, hi, d1, m1) && free0 == free1 + GrowthNeeds(g, d0, m0, lo, hi)
  }

  lemma NothingGrown(g: Geometry, data: seq<Block>, m: BlockMap, k: nat)
    ensures Grown(g, data, m, k, k, data, m) && GrowthNeeds(g, data, m, k, k) == 0
  {
    hide IdAt;
  }

  lemma GrowthExtends(g: Geometry, d0: seq<Block>, m0: BlockMap, free0: nat, lo: nat, hi: nat,
                      d1: seq<Block>, m1: BlockMap, free1: nat, d2: seq<Block>)
    requires lo <= hi && (lo == hi ==> d1 == d0 && m1 == m0 && free1 == free0) && SameIds(g, d1, m1, d2, m1)
    requires lo < hi ==> Grown(g, d0, m0, lo, hi, d1, m1) && free0 == free1 + GrowthNeeds(g, d0, m0, lo, hi)
    ensures Extended(g, d0, m0, free0, lo, hi, d2, m1, free1)
  {
    hide IdAt;
    if lo == hi { NothingGrown(g, d0, m0, lo); }
    hide GrowthNeeds;
  }

  lemma GrownIds(g: Geometry, d0: seq<Block>, m0: BlockMap, size0: nat, d1: seq<Block>, m1: BlockMap, d2: seq<Block>,
                 size1: nat)
    requires g.blockSize > 0 && BlocksFor(g, size0) <= BlocksFor(g, size1) <= g.MaxBlocks()
    requires Grown(g, d0, m0, BlocksFor(g, size0), BlocksFor(g, size1), d1, m1) || (d1 == d0 && m1 == m0)
    requires BlocksFor(g, size0) < BlocksFor(g, size1) ==>
               Grown(g, d0, m0, BlocksFor(g, size0), BlocksFor(g, size1), d1, m1)
    requires SameIds(g, d1, m1, d2, m1)
    ensures KeptIds(g, d0, m0, size0, d2, m1, size1)
    ensures Dense(g, d0, m0, size0) ==> Dense(g, d2, m1, size1)
    ensures Trimmed(g, d0, m0, size0) ==> Trimmed(g, d2, m1, size1)
    ensures forall j: nat :: j < BlocksFor(g, size0) ==> IdAt(g, d1, m1, j) == IdAt(g, d0, m0, j)
  {
    hide IdAt, BlocksFor;
  }

  lemma SameIdsReflexive(g: Geometry, data: seq<Block>, m: BlockMap)
    ensures SameIds(g, data, m, data, m)
  {
  }

  method ResizeUp(v: Volume, ghost n: nat, ino: Inode, newSize: nat) returns (ok: bool, ino': Inode)
    requires v.Valid() && v.Tracked() && FileOk(v.geo, v.data[..], v.owner, n, ino.block, ino.size)
    requires BlocksFor(v.geo, newSize) <= v.geo.MaxBlocks() && ino.size < newSize
    modifies v, v.groups, v.blockUsed, v.data
    ensures v.Valid() && v.Tracked()
    ensures Touches(ResizeTouches(v.geo, old(v.data[..]), n, ino, newSize), old(v.data[..]), old(v.owner), v.data[..], v.owner)
    ensures ok <==> Fits(v.geo, old(v.data[..]), ino, old(v.freeBlocks), newSize)
    ensures !ok ==>
              KeepsContent(v.geo, n, old(v.data[..]), old(v.owner), ino.block, ino.block, v.data[..], v.owner, ino'.block)
    ensures ok ==>
              && FileOk(v.geo, v.data[..], v.owner, n, ino'.block, newSize)
              && FileBytes(v.geo, v.data[..], ino'.block, newSize) ==
                 Resized(old(FileBytes(v.geo, v.data[..], ino.block, ino.size)), newSize)
              && KeptIds(v.geo, old(v.data[..]), ino.block, ino.size, v.data[..], ino'.block, newSize)
              && (Tidy(v.geo, old(v.data[..]), old(v.owner), n, ino.block, 0) ==>
                    Tidy(v.geo, v.data[..], v.owner, n, ino'.block, 0))
    ensures ok ==> ino' == ino.(block := ino'.block, size := newSize, blocks := ino'.blocks)
    ensures !ok && Tidy(v.geo, old(v.data[..]), old(v.owner), n, ino.block, 0) ==>
              (Tidy(v.geo, v.data[..], v.owner, n, ino.block, 0) <==>
               !GrowLoses(v.geo, old(v.data[..]), ino, old(v.freeBlocks), newSize))
    ensures !ok ==>
              (SectorCount(v.geo, v.data[..], ino.block) == SectorCount(v.geo, old(v.data[..]), ino.block) <==>
               !GrowMiscounts(v.geo, old(v.data[..]), ino, old(v.freeBlocks), newSize))
    ensures ok ==> Extended(v.geo, old(v.data[..]), ino.block, old(v.freeBlocks), BlocksFor(v.geo, ino.size), BlocksFor(v.geo, newSize),
                            v.data[..], ino'.block, v.freeBlocks)
    ensures ok ==> v.data[0] == BlockZeroAfter(v.geo, old(v.data[..]), ino, newSize)
    ensures ok && Dense(v.geo, old(v.data[..]), ino.block, ino.size) ==> Dense(v.geo, v.data[..], ino'.block, newSize)
    ensures ok && (BlocksFor(v.geo, newSize) < BlocksFor(v.geo, ino.size)
                   || Trimmed(v.geo, old(v.data[..]), ino.block, ino.size)) ==>
              Trimmed(v.geo, v.data[..], ino'.block, newSize)
    ensures DirCounts(v.groups[..]) == old(DirCounts(v.groups[..]))
  {
    hide Geometry.GroupsCover, BlockCountersAgree, InodeCountersAgree, Tidy, HolesIn, CountIds, FileBytes, DirCounts;
    ghost var d0, o0 := v.data[..], v.owner;
    Split(v.geo, ino.size);
    SplitOrder(v.geo, ino.size, newSize);
    hide BlocksFor, IdAt, Content, Touches, OwnerBits, KeptIds, Dense, Trimmed, Grown, Holds, SameContent,
      ZeroBeyond, TailCleared, Shaped, Geometry.SizeOk, LosesBlocks, Extended, GrowthNeeds, SameIds, SectorCount, Miscounts;
    SameIdsReflexive(v.geo, d0, ino.block);
    ok, ino' := ResizeBlocks(v, n, ino.block, ino, BlocksFor(v.geo, ino.size), BlocksFor(v.geo, newSize));
    if !ok {
      return;
    }
    ghost var d1 := v.data[..];
    MetaBlockZero({n}, d0, o0, d1, v.owner);
    ino' := ino'.(size := newSize);
    if ino.size % v.geo.blockSize != 0 {
      ClearTail(v, n, ino', ino.size);
    }
    GrowthExtends(v.geo, d0, ino.block, old(v.freeBlocks), BlocksFor(v.geo, ino.size), BlocksFor(v.geo, newSize),
                  d1, ino'.block, v.freeBlocks, v.data[..]);
    GrownIds(v.geo, d0, ino.block, ino.size, d1, ino'.block, v.data[..], newSize);
    TouchesMore({n}, ResizeTouches(v.geo, d0, n, ino, newSize), d0, o0, d1, v.owner);
    TouchesTransitive(ResizeTouches(v.geo, d0, n, ino, newSize), d0, o0, d1, v.owner, v.data[..], v.owner);
    GrowDone(v.geo, d0, ino.block, ino.size, d1, ino'.block, v.data[..], newSize);
  }

  method ResizeDown(v: Volume, ghost n: nat, ino: Inode, newSize: nat) returns (ok: bool, ino': Inode)
    requires v.Valid() && v.Tracked() && FileOk(v.geo, v.data[..], v.owner, n, ino.block, ino.size)
    requires newSize <= ino.size
    modifies v, v.groups, v.blockUsed, v.data
    ensures v.Valid() && v.Tracked()
    ensures Touches(ResizeTouches(v.geo, old(v.data[..]), n, ino, newSize), old(v.data[..]), old(v.owner), v.data[..], v.owner)
    ensures ok && Fits(v.geo, old(v.data[..]), ino, old(v.freeBlocks), newSize)
    ensures ok ==>
              && FileOk(v.geo, v.data[..], v.owner, n, ino'.block, newSize)
              && FileBytes(v.geo, v.data[..], ino'.block, newSize) ==
                 Resized(old(FileBytes(v.geo, v.data[..], ino.block, ino.size)), newSize)
              && KeptIds(v.geo, old(v.data[..]), ino.block, ino.size, v.data[..], ino'.block, newSize)
              && (Tidy(v.geo, old(v.data[..]), old(v.owner), n, ino.block, 0) ==>
                    Tidy(v.geo, v.data[..], v.owner, n, ino'.block, 0))
    ensures ok ==> ino' == ino.(block := ino'.block, size := newSize, blocks := ino'.blocks)
    ensures ok ==> v.data[0] == BlockZeroAfter(v.geo, old(v.data[..]), ino, newSize)
    ensures ok && Dense(v.geo, old(v.data[..]), ino.block, ino.size) ==> Dense(v.geo, v.data[..], ino'.block, newSize)
    ensures ok && (BlocksFor(v.geo, newSize) < BlocksFor(v.geo, ino.size)
                   || Trimmed(v.geo, old(v.data[..]), ino.block, ino.size)) ==>
              Trimmed(v.geo, v.data[..], ino'.block, newSize)
    ensures DirCounts(v.groups[..]) == old(DirCounts(v.groups[..]))
  {
    hide Geometry.GroupsCover, BlockCountersAgree, InodeCountersAgree, Tidy, HolesIn, CountIds, FileBytes, DirCounts;
    ghost var d0, o0 := v.data[..], v.owner;
    if newSize < ino.size {
      SplitOrder(v.geo, newSize, ino.size);
    }
    hide BlocksFor, IdAt, Content, Touches, OwnerBits;
    ok, ino' := ResizeBlocks(v, n, ino.block, ino, BlocksFor(v.geo, ino.size), BlocksFor(v.geo, newSize));
    MetaBlockZero({n}, d0, o0, v.data[..], v.owner);
    ino' := ino'.(size := newSize);
    ShrinkDone(v.geo, n, d0, o0, ino.block, ino.size, v.data[..], v.owner, ino'.block, newSize);
  }
}
