/** Growing, shrinking, reading and writing one inode: the driver works on a copy `ino` of inode `n` and
    writes it back last, so the contracts also follow the copy `disk` still in the inode table. */
module Ext2Inodes {
  import opened Bytes
  import opened Ext2Layout
  import opened Ext2Files
  import opened Ext2Volume

  function CountIds(g: Geometry, data: seq<Block>, m: BlockMap, hi: nat): nat {
    if hi == 0 then 0 else CountIds(g, data, m, hi - 1) + if IdAt(g, data, m, hi - 1) != 0 then 1 else 0
  }

  /** Every block the inode uses, its indirect block included. */
  function AllocatedBlocks(g: Geometry, data: seq<Block>, m: BlockMap): nat {
    CountIds(g, data, m, g.MaxBlocks()) + if m[12] != 0 then 1 else 0
  }

  /** The value of the inode's `blocks` field, in sectors of 512 bytes. */
  function SectorCount(g: Geometry, data: seq<Block>, m: BlockMap): nat {
    AllocatedBlocks(g, data, m) * (g.blockSize / 512)
  }

  /** The `blocks` field of an inode counts what its block map uses. */
  predicate CountOk(g: Geometry, data: seq<Block>, ino: Inode) {
    ino.blocks == SectorCount(g, data, ino.block)
  }

  /** That of every inode in use does. */
  ghost predicate Counted(g: Geometry, c: Image)
    requires |c.live| == |c.inodes|
  {
    forall n :: 1 <= n < |c.live| && c.live[n] ==> CountOk(g, c.data, c.inodes[n])
  }

  lemma {:induction false} SameCount(g: Geometry, d0: seq<Block>, m0: BlockMap, d1: seq<Block>, m1: BlockMap, hi: nat)
    requires forall j: nat :: j < hi ==> (IdAt(g, d1, m1, j) != 0 <==> IdAt(g, d0, m0, j) != 0)
    ensures CountIds(g, d1, m1, hi) == CountIds(g, d0, m0, hi)
  {
    if hi > 0 { SameCount(g, d0, m0, d1, m1, hi - 1); }
  }

  lemma SameSectors(g: Geometry, d0: seq<Block>, m0: BlockMap, d1: seq<Block>, m1: BlockMap)
    requires SameIds(g, d0, m0, d1, m1) && (m1[12] != 0 <==> m0[12] != 0)
    ensures SectorCount(g, d1, m1) == SectorCount(g, d0, m0)
  {
    hide IdAt;
    SameCount(g, d0, m0, d1, m1, g.MaxBlocks());
  }

  /** An inode without blocks counts none. */
  lemma {:induction false} NoIds(g: Geometry, data: seq<Block>, m: BlockMap, hi: nat)
    requires forall j :: 0 <= j <= DIRECT_BLOCKS ==> m[j] == 0
    ensures CountIds(g, data, m, hi) == 0
  {
    if hi > 0 { NoIds(g, data, m, hi - 1); }
  }

  /** A step confined to `who` keeps the count of every other inode. */
  lemma StillCounted(g: Geometry, c: Image, c': Image, who: set<nat>)
    requires OthersSame(g, c, c', who) && Counted(g, c)
    requires forall n :: n in who && 1 <= n < |c'.live| && c'.live[n] ==> CountOk(g, c'.data, c'.inodes[n])
    ensures Counted(g, c')
  {
    hide SameIds, SameContent, SectorCount;
    forall n | 1 <= n < |c'.live| && c'.live[n] && n !in who ensures CountOk(g, c'.data, c'.inodes[n]) {
      SameSectors(g, c.data, c.inodes[n].block, c'.data, c.inodes[n].block);
    }
  }

  /** An inode given up need not count any more. */
  lemma CountedFewer(g: Geometry, c: Image, n: nat)
    requires |c.live| == |c.inodes| && n < |c.live| && Counted(g, c)
    ensures Counted(g, c.(live := c.live[n := false]))
  {
  }

  /** A step confined to inode `n`, which stays in use, keeps all the counts exactly when it keeps that one. */
  lemma CountedAt(g: Geometry, c: Image, c': Image, n: nat)
    requires OthersSame(g, c, c', {n}) && Counted(g, c) && 1 <= n < |c'.live| && c'.live[n]
    ensures Counted(g, c') <==> CountOk(g, c'.data, c'.inodes[n])
  {
    hide SameIds, SameContent, CountOk;
    if CountOk(g, c'.data, c'.inodes[n]) { StillCounted(g, c, c', {n}); }
  }

  /** Blocks an allocation for slot `j` takes: one more if it needs the inode's first indirect block. */
  function BlocksNeeded(m: BlockMap, j: nat): nat {
    if DIRECT_BLOCKS <= j && m[12] == 0 then 2 else 1
  }

  lemma {:induction false} NoIndirectIds(g: Geometry, data: seq<Block>, m: BlockMap, hi: nat)
    requires m[12] == 0 && DIRECT_BLOCKS <= hi
    ensures CountIds(g, data, m, hi) == CountIds(g, data, m, DIRECT_BLOCKS)
  {
    if DIRECT_BLOCKS < hi {
      NoIndirectIds(g, data, m, hi - 1);
    }
  }

  method BlockIdAt(v: Volume, ino: Inode, j: nat) returns (id: nat)
    requires v.Valid() && (ino.block[12] != 0 ==> ino.block[12] < v.data.Length)
    ensures id == IdAt(v.geo, v.data[..], ino.block, j)
  {
    hide BlockCountersAgree, InodeCountersAgree, Geometry.GroupsCover;
    if j < DIRECT_BLOCKS {
      return ino.block[j];
    }
    var k := j - DIRECT_BLOCKS;
    if k < v.geo.Entries() && ino.block[12] != 0 {
      return Read32(v.data[ino.block[12]], 4 * k);
    }
    return 0;
  }

  /** Gives the copy an indirect block if it has none. */
  method EnsureIndirect(v: Volume, ghost n: nat, ghost disk: BlockMap, ghost spare: nat, ino: Inode)
    returns (ok: bool, ino': Inode)
    requires v.Valid() && v.Tracked()
    requires Holds(v.geo, v.data[..], v.owner, n, ino.block) && Holds(v.geo, v.data[..], v.owner, n, disk)
    modifies v, v.groups, v.blockUsed, v.data
    ensures v.Valid() && v.Tracked()
    ensures KeepsContent(v.geo, n, old(v.data[..]), old(v.owner), ino.block, disk, v.data[..], v.owner, ino'.block)
    ensures ok <==> ino.block[12] != 0 || old(v.freeBlocks) > 0
    ensures ok <==> ino'.block[12] != 0
    ensures v.freeBlocks == old(v.freeBlocks) - if ok && ino.block[12] == 0 then 1 else 0
    ensures !ok || ino.block[12] != 0 ==> ino' == ino && v.Now() == old(v.Now()) && v.owner == old(v.owner)
    ensures ino' == ino.(block := ino.block[12 := ino'.block[12]])
    ensures SameIds(v.geo, old(v.data[..]), ino.block, v.data[..], ino'.block)
    ensures Tidy(v.geo, old(v.data[..]), old(v.owner), n, ino.block, spare) ==>
              Tidy(v.geo, v.data[..], v.owner, n, ino'.block, spare)
    ensures OnlyFreeChanged(old(v.data[..]), old(v.owner), v.data[..], v.owner)
    ensures DirCounts(v.groups[..]) == old(DirCounts(v.groups[..]))
  {
    hide Geometry.Ok, BlockCountersAgree, InodeCountersAgree;
    ino' := ino;
    if ino.block[12] != 0 {
      return true, ino;
    }
    ghost var data0, owner0 := v.data[..], v.owner;
    var block := v.AllocateBlock();
    if block == 0 {
      return false, ino;
    }
    v.owner := v.owner[block := Indirect(n)];
    FreeBlocksFrame(v.geo, data0, owner0, v.data[..], v.owner, n, ino.block);
    FreeBlocksFrame(v.geo, data0, owner0, v.data[..], v.owner, n, disk);
    AttachIndirect(v.geo, v.data[..], v.owner, n, ino.block, block);
    if Tidy(v.geo, data0, owner0, n, ino.block, spare) {
      TidyAttach(v.geo, data0, owner0, v.data[..], n, ino.block, block, spare);
    }
    return true, ino.(block := ino.block[12 := block]);
  }

  /** Records the zeroed block `b`, already accounted to slot `j`, in the copy's block map. */
  method SetBlockIdAt(v: Volume, ghost n: nat, ghost disk: BlockMap, ino: Inode, j: nat, b: nat)
    returns (ok: bool, ino': Inode)
    requires v.Valid() && v.Tracked()
    requires Holds(v.geo, v.data[..], v.owner, n, ino.block) && Holds(v.geo, v.data[..], v.owner, n, disk)
    requires IdAt(v.geo, v.data[..], ino.block, j) == 0
    requires 0 < b < v.data.Length && v.owner[b] == Data(n, j) && v.data[b] == Zeros(v.geo.blockSize)
    modifies v, v.groups, v.blockUsed, v.data
    ensures v.Valid() && v.Tracked()
    ensures KeepsContent(v.geo, n, old(v.data[..]), old(v.owner), ino.block, disk, v.data[..], v.owner, ino'.block)
    ensures v.owner[b] == Data(n, j)
    ensures ok && Tidy(v.geo, old(v.data[..]), old(v.owner), n, ino.block, b) ==> Tidy(v.geo, v.data[..], v.owner, n, ino'.block, 0)
    ensures ok <==> j < v.geo.MaxBlocks() && (j < DIRECT_BLOCKS || ino.block[12] != 0 || old(v.freeBlocks) > 0)
    ensures !ok ==> ino' == ino && v.Now() == old(v.Now()) && v.owner == old(v.owner) && v.freeBlocks == old(v.freeBlocks)
    ensures ok ==> v.freeBlocks == old(v.freeBlocks) - if DIRECT_BLOCKS <= j && ino.block[12] == 0 then 1 else 0
    ensures ino' == ino.(block := ino'.block)
    ensures j < DIRECT_BLOCKS || ino.block[12] != 0 ==> ino'.block[12] == ino.block[12]
    ensures ok ==> forall i: nat :: i < v.geo.MaxBlocks() ==>
              IdAt(v.geo, v.data[..], ino'.block, i) == if i == j then b else old(IdAt(v.geo, v.data[..], ino.block, i))
    ensures DirCounts(v.groups[..]) == old(DirCounts(v.groups[..]))
  {
    hide Geometry.Ok, BlockCountersAgree, InodeCountersAgree, Tidy;
    ino' := ino;
    if j < DIRECT_BLOCKS {
      SetDirect(v.geo, v.data[..], v.owner, n, ino.block, j, b);
      if Tidy(v.geo, v.data[..], v.owner, n, ino.block, b) {
        TidySet(v.geo, v.data[..], v.owner, v.data[..], n, ino.block, ino.block[j := b], j, b);
      }
      return true, ino.(block := ino.block[j := b]);
    }
    ghost var data0, owner0 := v.data[..], v.owner;
    var k := j - DIRECT_BLOCKS;
    if k >= v.geo.Entries() {
      return false, ino;
    }
    ok, ino' := EnsureIndirect(v, n, disk, b, ino);
    if !ok {
      return false, ino;
    }
    var ind := ino'.block[12];
    ghost var data1 := v.data[..];
    BlockSizeFacts(v.geo);
    EntryWritten(v.geo, n, disk, data0, owner0, ino.block, data1, v.owner, ino'.block, k, b);
    hide KeepsContent, IdAt;
    v.data[ind] := Write32(v.data[ind], 4 * k, b);
    assert v.data[..] == data1[ind := Write32(data1[ind], 4 * k, b)];
    return true, ino';
  }

  /** The entry of the indirect block is written, wherever that block came from. */
  lemma EntryWritten(g: Geometry, n: nat, disk: BlockMap, d0: seq<Block>, o0: seq<Owner>, m0: BlockMap,
                     d1: seq<Block>, o1: seq<Owner>, m1: BlockMap, k: nat, b: nat)
    requires KeepsContent(g, n, d0, o0, m0, disk, d1, o1, m1) && SameIds(g, d0, m0, d1, m1) && m1[12] != 0
    requires g.blockSize % 4 == 0 && k < g.Entries() && IdAt(g, d0, m0, DIRECT_BLOCKS + k) == 0
    requires 0 < b < |d1| && b < TWO_32 && o1[b] == Data(n, DIRECT_BLOCKS + k) && d1[b] == Zeros(g.blockSize)
    requires m1[12] < |d1| ==> |d1[m1[12]]| == g.blockSize
    ensures m1[12] < |d1| && 4 * k + 4 <= |d1[m1[12]]|
    ensures var d2 := d1[m1[12] := Write32(d1[m1[12]], 4 * k, b)];
            && KeepsContent(g, n, d0, o0, m0, disk, d2, o1, m1)
            && (forall i: nat :: i < g.MaxBlocks() ==>
                  IdAt(g, d2, m1, i) == if i == DIRECT_BLOCKS + k then b else IdAt(g, d0, m0, i))
            && (Tidy(g, d1, o1, n, m1, b) ==> Tidy(g, d2, o1, n, m1, 0))
  {
    var ind, j := m1[12], DIRECT_BLOCKS + k;
    assert IdAt(g, d1, m1, j) == 0;
    SetEntry(g, d1, o1, n, m1, ind, k, b);
    SetEntry(g, d1, o1, n, disk, ind, k, b);
    var d2 := d1[ind := Write32(d1[ind], 4 * k, b)];
    hide Content, IdAt, Tidy;
    assert KeepsContent(g, n, d1, o1, m1, disk, d2, o1, m1);
    KeepsContentTransitive(g, n, disk, d0, o0, m0, d1, o1, m1, d2, o1, m1);
    if Tidy(g, d1, o1, n, m1, b) {
      TidySet(g, d1, o1, d2, n, m1, m1, j, b);
    }
  }

  method InodeAllocatedBlocks(v: Volume, ino: Inode) returns (count: nat)
    requires v.Valid() && (ino.block[12] != 0 ==> ino.block[12] < v.data.Length)
    ensures count == AllocatedBlocks(v.geo, v.data[..], ino.block)
  {
    hide BlockCountersAgree, InodeCountersAgree, Geometry.GroupsCover;
    count := 0;
    for i := 0 to DIRECT_BLOCKS
      invariant count == CountIds(v.geo, v.data[..], ino.block, i)
    {
      if ino.block[i] != 0 {
        count := count + 1;
      }
    }
    if ino.block[12] != 0 {
      count := count + 1;
      for i := 0 to v.geo.Entries()
        invariant count == CountIds(v.geo, v.data[..], ino.block, DIRECT_BLOCKS + i) + 1
      {
        if Read32(v.data[ino.block[12]], 4 * i) != 0 {
          count := count + 1;
        }
      }
    } else {
      NoIndirectIds(v.geo, v.data[..], ino.block, v.geo.MaxBlocks());
    }
  }

  method UpdateInodeBlockCount(v: Volume, ino: Inode) returns (ino': Inode)
    requires v.Valid() && (ino.block[12] != 0 ==> ino.block[12] < v.data.Length)
    ensures ino' == ino.(blocks := SectorCount(v.geo, v.data[..], ino.block))
  {
    var count := InodeAllocatedBlocks(v, ino);
    ino' := ino.(blocks := count * (v.geo.blockSize / 512));
  }

  /** A zeroed block accounted to slot `j`, not yet in any block map. */
  method AllocateDataBlock(v: Volume, ghost n: nat, ghost disk: BlockMap, ino: Inode, ghost j: nat) returns (block: nat)
    requires v.Valid() && v.Tracked()
    requires Holds(v.geo, v.data[..], v.owner, n, ino.block) && Holds(v.geo, v.data[..], v.owner, n, disk)
    modifies v, v.groups, v.blockUsed, v.data
    ensures v.Valid() && v.Tracked()
    ensures KeepsContent(v.geo, n, old(v.data[..]), old(v.owner), ino.block, disk, v.data[..], v.owner, ino.block)
    ensures block != 0 <==> old(v.freeBlocks) > 0
    ensures v.freeBlocks == old(v.freeBlocks) - if block != 0 then 1 else 0
    ensures block == 0 ==> v.Now() == old(v.Now()) && v.owner == old(v.owner)
    ensures block != 0 ==>
              && v.geo.firstDataBlock <= block < v.data.Length && old(v.owner)[block] == Free
              && v.data[block] == Zeros(v.geo.blockSize) && v.owner == old(v.owner)[block := Data(n, j)]
    ensures SameIds(v.geo, old(v.data[..]), ino.block, v.data[..], ino.block)
    ensures IdAt(v.geo, v.data[..], disk, j) != block || block == 0
    ensures block != 0 && Tidy(v.geo, old(v.data[..]), old(v.owner), n, ino.block, 0) ==>
              Tidy(v.geo, v.data[..], v.owner, n, ino.block, block)
    ensures DirCounts(v.groups[..]) == old(DirCounts(v.groups[..]))
  {
    hide Geometry.Ok, BlockCountersAgree, InodeCountersAgree;
    ghost var data0, owner0 := v.data[..], v.owner;
    block := v.AllocateBlock();
    if block != 0 {
      v.owner := v.owner[block := Data(n, j)];
      FreeBlocksFrame(v.geo, data0, owner0, v.data[..], v.owner, n, ino.block);
      FreeBlocksFrame(v.geo, data0, owner0, v.data[..], v.owner, n, disk);
      if Tidy(v.geo, data0, owner0, n, ino.block, 0) {
        TidySpare(v.geo, data0, owner0, v.data[..], n, ino.block, Data(n, j), block);
      }
    }
  }

  /** Gives back a block that no block map refers to. */
  method DropBlock(v: Volume, ghost n: nat, ghost j: nat, ghost m1: BlockMap, ghost m2: BlockMap, block: nat)
    requires v.Valid() && v.Tracked() && v.geo.firstDataBlock <= block < v.data.Length
    requires 0 < block && v.owner[block] == Data(n, j)
    requires Holds(v.geo, v.data[..], v.owner, n, m1) && IdAt(v.geo, v.data[..], m1, j) != block
    requires Holds(v.geo, v.data[..], v.owner, n, m2) && IdAt(v.geo, v.data[..], m2, j) != block
    modifies v, v.groups, v.blockUsed
    ensures v.Valid() && v.Tracked()
    ensures v.owner == old(v.owner)[block := Free] && v.freeBlocks == old(v.freeBlocks) + 1
    ensures Touches({n}, old(v.data[..]), old(v.owner), v.data[..], v.owner)
    ensures Holds(v.geo, v.data[..], v.owner, n, m1) && Holds(v.geo, v.data[..], v.owner, n, m2)
    ensures DirCounts(v.groups[..]) == old(DirCounts(v.groups[..]))
  {
    hide Geometry.Ok, BlockCountersAgree, InodeCountersAgree;
    var freed := v.MarkBlockUsed(block, false);
    v.owner := v.owner[block := Free];
  }

  /** Allocates the block behind a hole. */
  method FillHole(v: Volume, ghost n: nat, ghost disk: BlockMap, ino: Inode, j: nat)
    returns (ok: bool, ino': Inode, block: nat)
    requires v.Valid() && v.Tracked() && IdAt(v.geo, v.data[..], ino.block, j) == 0
    requires Holds(v.geo, v.data[..], v.owner, n, ino.block) && Holds(v.geo, v.data[..], v.owner, n, disk)
    modifies v, v.groups, v.blockUsed, v.data
    ensures v.Valid() && v.Tracked()
    ensures KeepsContent(v.geo, n, old(v.data[..]), old(v.owner), ino.block, disk, v.data[..], v.owner, ino'.block)
    ensures ok <==> j < v.geo.MaxBlocks() && old(v.freeBlocks) >= BlocksNeeded(ino.block, j)
    ensures ok && Tidy(v.geo, old(v.data[..]), old(v.owner), n, ino.block, 0) ==> Tidy(v.geo, v.data[..], v.owner, n, ino'.block, 0)
    ensures ok ==>
              && v.freeBlocks == old(v.freeBlocks) - BlocksNeeded(ino.block, j)
              && ino'.blocks == SectorCount(v.geo, v.data[..], ino'.block)
              && 0 < block < v.data.Length && v.owner[block] == Data(n, j)
              && (forall i: nat :: i < v.geo.MaxBlocks() ==>
                    IdAt(v.geo, v.data[..], ino'.block, i) == if i == j then block else old(IdAt(v.geo, v.data[..], ino.block, i)))
    ensures !ok ==> ino' == ino && v.owner == old(v.owner) && v.freeBlocks == old(v.freeBlocks)
    ensures !ok ==> SameIds(v.geo, old(v.data[..]), ino.block, v.data[..], ino.block)
    ensures ino' == ino.(block := ino'.block, blocks := ino'.blocks)
    ensures j < DIRECT_BLOCKS || ino.block[12] != 0 ==> ino'.block[12] == ino.block[12]
    ensures DirCounts(v.groups[..]) == old(DirCounts(v.groups[..]))
  {
    hide Geometry.Ok, BlockCountersAgree, InodeCountersAgree;
    hide Tidy, CountIds;
    block := AllocateDataBlock(v, n, disk, ino, j);
    if block == 0 {
      return false, ino, 0;
    }
    ok, ino' := SetBlockIdAt(v, n, disk, ino, j, block);
    if !ok {
      DropBlock(v, n, j, ino.block, disk, block);
      return false, ino, block;
    }
    ino' := UpdateInodeBlockCount(v, ino');
  }

  /** The block number behind file block `j`, allocating on a hole. */
  method EnsureFileBlock(v: Volume, ghost n: nat, ghost disk: BlockMap, ino: Inode, j: nat)
    returns (ok: bool, ino': Inode, block: nat)
    requires v.Valid() && v.Tracked()
    requires Holds(v.geo, v.data[..], v.owner, n, ino.block) && Holds(v.geo, v.data[..], v.owner, n, disk)
    modifies v, v.groups, v.blockUsed, v.data
    ensures v.Valid() && v.Tracked()
    ensures KeepsContent(v.geo, n, old(v.data[..]), old(v.owner), ino.block, disk, v.data[..], v.owner, ino'.block)
    ensures old(IdAt(v.geo, v.data[..], ino.block, j)) != 0 ==>
              ok && ino' == ino && v.Now() == old(v.Now()) && v.owner == old(v.owner) && v.freeBlocks == old(v.freeBlocks)
    ensures old(IdAt(v.geo, v.data[..], ino.block, j)) == 0 ==>
              && (ok <==> j < v.geo.MaxBlocks() && old(v.freeBlocks) >= BlocksNeeded(ino.block, j))
              && (ok ==> v.freeBlocks == old(v.freeBlocks) - BlocksNeeded(ino.block, j)
                         && ino'.blocks == SectorCount(v.geo, v.data[..], ino'.block))
    ensures ok ==>
              && 0 < block < v.data.Length && v.owner[block] == Data(n, j) && j < v.geo.MaxBlocks()
              && (forall i: nat :: i < v.geo.MaxBlocks() ==>
                    IdAt(v.geo, v.data[..], ino'.block, i) == if i == j then block else old(IdAt(v.geo, v.data[..], ino.block, i)))
    ensures ok && Tidy(v.geo, old(v.data[..]), old(v.owner), n, ino.block, 0) ==> Tidy(v.geo, v.data[..], v.owner, n, ino'.block, 0)
    ensures !ok ==> ino' == ino && v.owner == old(v.owner) && v.freeBlocks == old(v.freeBlocks)
    ensures !ok ==> SameIds(v.geo, old(v.data[..]), ino.block, v.data[..], ino.block)
    ensures ino' == ino.(block := ino'.block, blocks := ino'.blocks)
    ensures j < DIRECT_BLOCKS || ino.block[12] != 0 ==> ino'.block[12] == ino.block[12]
    ensures DirCounts(v.groups[..]) == old(DirCounts(v.groups[..]))
  {
    hide Geometry.Ok, BlockCountersAgree, InodeCountersAgree;
    block := BlockIdAt(v, ino, j);
    if block != 0 {
      return true, ino, block;
    }
    ok, ino', block := FillHole(v, n, disk, ino, j);
  }

  method ClearDirectBlocks(v: Volume, ghost n: nat, ino: Inode, keep: nat) returns (ino': Inode)
    requires v.Valid() && v.Tracked() && Holds(v.geo, v.data[..], v.owner, n, ino.block)
    modifies v, v.groups, v.blockUsed
    ensures v.Valid() && v.Tracked()
    ensures Unmaps(v.geo, n, keep, DIRECT_BLOCKS, old(v.data[..]), old(v.owner), ino.block,
                   v.data[..], v.owner, ino'.block)
    ensures Tidy(v.geo, old(v.data[..]), old(v.owner), n, ino.block, 0) ==>
              Tidy(v.geo, v.data[..], v.owner, n, ino'.block, 0)
    ensures ino' == ino.(block := ino'.block) && ino'.block[12] == ino.block[12]
    ensures DirCounts(v.groups[..]) == old(DirCounts(v.groups[..]))
  {
    hide Geometry.Ok, BlockCountersAgree, InodeCountersAgree, Tidy, Shaped;
    BlockSizeFacts(v.geo);
    ino' := ino;
    var i := keep;
    while i < DIRECT_BLOCKS
      invariant keep <= i && (keep <= DIRECT_BLOCKS ==> i <= DIRECT_BLOCKS)
      invariant v.Valid() && v.Tracked()
      invariant DirCounts(v.groups[..]) == old(DirCounts(v.groups[..]))
      invariant Unmaps(v.geo, n, keep, i, old(v.data[..]), old(v.owner), ino.block, v.data[..], v.owner, ino'.block)
      invariant Tidy(v.geo, old(v.data[..]), old(v.owner), n, ino.block, 0) ==>
                  Tidy(v.geo, v.data[..], v.owner, n, ino'.block, 0)
      invariant ino' == ino.(block := ino'.block) && ino'.block[12] == ino.block[12]
    {
      if ino'.block[i] != 0 {
        ClearDirect(v.geo, v.data[..], v.owner, n, ino'.block, i);
        ghost var data1, owner1, m1 := v.data[..], v.owner, ino'.block;
        var ok := v.MarkBlockUsed(ino'.block[i], false);
        v.owner := v.owner[ino'.block[i] := Free];
        ino' := ino'.(block := ino'.block[i := 0]);
        UnmapsTransitive(v.geo, n, keep, i, i + 1, old(v.data[..]), old(v.owner), ino.block, data1, owner1, m1,
                         v.data[..], v.owner, ino'.block);
      }
      i := i + 1;
    }
  }

  method ClearIndirectEntry(v: Volume, ghost n: nat, ino: Inode, i: nat)
    requires v.Valid() && v.Tracked() && Holds(v.geo, v.data[..], v.owner, n, ino.block) && ino.block[12] != 0
    requires i < v.geo.Entries()
    modifies v, v.groups, v.blockUsed, v.data
    ensures v.Valid() && v.Tracked()
    ensures Unmaps(v.geo, n, DIRECT_BLOCKS + i, DIRECT_BLOCKS + i + 1, old(v.data[..]), old(v.owner), ino.block,
                   v.data[..], v.owner, ino.block)
    ensures Tidy(v.geo, old(v.data[..]), old(v.owner), n, ino.block, 0) ==>
              Tidy(v.geo, v.data[..], v.owner, n, ino.block, 0)
    ensures DirCounts(v.groups[..]) == old(DirCounts(v.groups[..]))
  {
    hide Geometry.Ok, BlockCountersAgree, InodeCountersAgree, Tidy;
    BlockSizeFacts(v.geo);
    ghost var data1 := v.data[..];
    ClearEntry(v.geo, data1, v.owner, n, ino.block, i);
    var entry := Read32(v.data[ino.block[12]], 4 * i);
    if entry != 0 {
      var ok := v.MarkBlockUsed(entry, false);
      v.owner := v.owner[entry := Free];
      v.data[ino.block[12]] := Write32(v.data[ino.block[12]], 4 * i, 0);
      assert v.data[..] == data1[ino.block[12] := Write32(data1[ino.block[12]], 4 * i, 0)];
    }
  }

  method ClearIndirectEntries(v: Volume, ghost n: nat, ino: Inode, keep: nat)
    requires v.Valid() && v.Tracked() && Holds(v.geo, v.data[..], v.owner, n, ino.block) && ino.block[12] != 0
    modifies v, v.groups, v.blockUsed, v.data
    ensures v.Valid() && v.Tracked()
    ensures Unmaps(v.geo, n, DIRECT_BLOCKS + keep, v.geo.MaxBlocks(), old(v.data[..]), old(v.owner), ino.block,
                   v.data[..], v.owner, ino.block)
    ensures Tidy(v.geo, old(v.data[..]), old(v.owner), n, ino.block, 0) ==>
              Tidy(v.geo, v.data[..], v.owner, n, ino.block, 0)
    ensures DirCounts(v.groups[..]) == old(DirCounts(v.groups[..]))
  {
    hide Geometry.Ok, BlockCountersAgree, InodeCountersAgree, Tidy, Shaped;
    var i := keep;
    while i < v.geo.Entries()
      invariant keep <= i && (keep <= v.geo.Entries() ==> i <= v.geo.Entries())
      invariant v.Valid() && v.Tracked()
      invariant DirCounts(v.groups[..]) == old(DirCounts(v.groups[..]))
      invariant Unmaps(v.geo, n, DIRECT_BLOCKS + keep, DIRECT_BLOCKS + i, old(v.data[..]), old(v.owner), ino.block,
                       v.data[..], v.owner, ino.block)
      invariant Tidy(v.geo, old(v.data[..]), old(v.owner), n, ino.block, 0) ==>
                  Tidy(v.geo, v.data[..], v.owner, n, ino.block, 0)
    {
      ghost var data1, owner1 := v.data[..], v.owner;
      ClearIndirectEntry(v, n, ino, i);
      UnmapsTransitive(v.geo, n, DIRECT_BLOCKS + keep, DIRECT_BLOCKS + i, DIRECT_BLOCKS + i + 1,
                       old(v.data[..]), old(v.owner), ino.block, data1, owner1, ino.block,
                       v.data[..], v.owner, ino.block);
      i := i + 1;
    }
  }

  /** Cuts the block map down to its first `keep` blocks. */
  method FreeInodeBlocks(v: Volume, ghost n: nat, ino: Inode, keep: nat) returns (ok: bool, ino': Inode)
    requires v.Valid() && v.Tracked() && Holds(v.geo, v.data[..], v.owner, n, ino.block)
    modifies v, v.groups, v.blockUsed, v.data
    ensures v.Valid() && v.Tracked()
    ensures ok <==> keep <= v.geo.MaxBlocks()
    ensures !ok ==> ino' == ino && v.Now() == old(v.Now()) && v.owner == old(v.owner)
    ensures ok ==>
              && Unmaps(v.geo, n, keep, v.geo.MaxBlocks(), old(v.data[..]), old(v.owner), ino.block,
                        v.data[..], v.owner, ino'.block)
              && ino'.block[12] == (if keep <= DIRECT_BLOCKS then 0 else ino.block[12])
              && ino' == ino.(block := ino'.block, blocks := SectorCount(v.geo, v.data[..], ino'.block))
              && (Tidy(v.geo, old(v.data[..]), old(v.owner), n, ino.block, 0) ==>
                    Tidy(v.geo, v.data[..], v.owner, n, ino'.block, 0))
    ensures DirCounts(v.groups[..]) == old(DirCounts(v.groups[..]))
  {
    hide Geometry.Ok, BlockCountersAgree, InodeCountersAgree, Tidy, CountIds;
    BlockSizeFacts(v.geo);
    if keep > v.geo.MaxBlocks() {
      return false, ino;
    }
    ino' := ClearDirectBlocks(v, n, ino, keep);
    ghost var data1, owner1, m1 := v.data[..], v.owner, ino'.block;
    if ino'.block[12] != 0 {
      var indirectKeep := if keep > DIRECT_BLOCKS then keep - DIRECT_BLOCKS else 0;
      ClearIndirectEntries(v, n, ino', indirectKeep);
      if keep <= DIRECT_BLOCKS {
        ghost var data2, owner2 := v.data[..], v.owner;
        DetachIndirect(v.geo, data2, owner2, n, m1);
        var freed := v.MarkBlockUsed(ino'.block[12], false);
        v.owner := v.owner[ino'.block[12] := Free];
        ino' := ino'.(block := ino'.block[12 := 0]);
      }
    }
    ino' := UpdateInodeBlockCount(v, ino');
    return true, ino';
  }
}
