/** The typed parts of an ext2 image and what they mean, as values. */
module Ext2Layout {
  import opened Bytes
  import opened Counting

  const DIRECT_BLOCKS: nat := 12
  const BLOCK_SLOTS: nat := 15
  const ROOT_INODE: nat := 2

  /** The superblock fields that never change while a volume is mounted. */
  datatype Geometry = Geometry(
    blockSize: nat, blocksCount: nat, firstDataBlock: nat, blocksPerGroup: nat, groupCount: nat,
    inodesCount: nat, inodesPerGroup: nat, firstInode: nat)
  {
    ghost predicate Ok() {
      && 0 < blockSize && SizeOk()
      && 0 < blocksPerGroup && 0 < inodesPerGroup
      && firstDataBlock <= 1 && firstDataBlock < blocksCount
      && blocksCount + blocksPerGroup < TWO_32 && inodesCount + 1 < TWO_32
      && ROOT_INODE < firstInode && ROOT_INODE <= inodesCount
      && groupCount == (blocksCount + blocksPerGroup - 1) / blocksPerGroup
      && GroupsCover()
    }

    predicate SizeOk() {
      blockSize == 1024 || blockSize == 2048 || blockSize == 4096
    }

    /** The groups cover the volume, and the last one starts inside it: not a consequence of how
        the driver counts them, because that count ignores `firstDataBlock`. */
    ghost predicate GroupsCover() {
      && firstDataBlock + groupCount * blocksPerGroup - blocksPerGroup < blocksCount
      && blocksCount <= firstDataBlock + groupCount * blocksPerGroup
      && inodesCount <= groupCount * inodesPerGroup
    }

    function GroupBase(g: nat): nat { firstDataBlock + g * blocksPerGroup }

    /** One past the last block of group `g`. */
    function GroupEnd(g: nat): nat { Min(GroupBase(g) + blocksPerGroup, blocksCount) }

    function InodeBase(g: nat): nat { 1 + g * inodesPerGroup }

    function InodeEnd(g: nat): nat { Min(InodeBase(g) + inodesPerGroup, inodesCount + 1) }

    /** Entries of an indirect block. */
    function Entries(): nat { blockSize / 4 }

    /** The most data blocks an inode can map: the direct ones and one indirect block's worth. */
    function MaxBlocks(): nat { DIRECT_BLOCKS + Entries() }
  }

  lemma BlockSizeFacts(g: Geometry)
    requires g.Ok()
    ensures g.blockSize % 4 == 0 && 1024 <= g.blockSize <= 4096 && g.blocksCount < TWO_32 && g.firstDataBlock <= 1
  {
  }

  datatype Group = Group(freeBlocks: nat, freeInodes: nat, usedDirs: nat)

  /** The directories each group counts. */
  function DirCounts(groups: seq<Group>): seq<nat> {
    seq(|groups|, k requires 0 <= k < |groups| => groups[k].usedDirs)
  }

  /** One more in the group of inode `n`, or one less, but not below zero. */
  function DirsMoved(g: Geometry, dirs: seq<nat>, n: nat, used: bool): seq<nat>
    requires 0 < n && 0 < g.inodesPerGroup
  {
    var k := (n - 1) / g.inodesPerGroup;
    if k >= |dirs| then dirs
    else dirs[k := if used then dirs[k] + 1 else if dirs[k] > 0 then dirs[k] - 1 else 0]
  }

  lemma DirsMovedBack(g: Geometry, dirs: seq<nat>, n: nat)
    requires 0 < n && 0 < g.inodesPerGroup
    ensures DirsMoved(g, DirsMoved(g, dirs, n, true), n, false) == dirs
  {
  }

  type BlockMap = m: seq<nat> | |m| == BLOCK_SLOTS witness [0, 0, 0, 0, 0, 0, 0, 0, 0, 0, 0, 0, 0, 0, 0]

  datatype Inode = Inode(mode: nat, size: nat, links: nat, blocks: nat, block: BlockMap)

  const EMPTY_INODE: Inode := Inode(0, 0, 0, 0, [0, 0, 0, 0, 0, 0, 0, 0, 0, 0, 0, 0, 0, 0, 0])

  predicate IsDir(ino: Inode) { ino.mode / 0x4000 % 2 == 1 }

  predicate IsFile(ino: Inode) { ino.mode / 0x8000 % 2 == 1 }

  /** The bitmaps, the inode table and the blocks: the image without its redundant counters. */
  datatype Image = Image(used: seq<bool>, live: seq<bool>, inodes: seq<Inode>, data: seq<Block>)

  ghost predicate Shaped(g: Geometry, c: Image) {
    && |c.used| == g.blocksCount && |c.data| == g.blocksCount
    && |c.live| == g.inodesCount + 1 && |c.inodes| == g.inodesCount + 1
    && (forall b :: 0 <= b < g.blocksCount ==> |c.data[b]| == g.blockSize)
    && c.live[0]
    && (0 < g.blocksCount ==> c.used[0])
  }

  /** The superblock and group counters count the clear bits of the bitmaps. */
  ghost predicate BlockCountersAgree(g: Geometry, free: nat, groups: seq<Group>, used: seq<bool>)
    requires g.Ok() && |used| == g.blocksCount && |groups| == g.groupCount
  {
    && free == CountClear(used, g.firstDataBlock, g.blocksCount)
    && forall k :: 0 <= k < g.groupCount ==>
         groups[k].freeBlocks == CountClear(used, g.GroupBase(k), g.GroupEnd(k))
  }

  ghost predicate InodeCountersAgree(g: Geometry, free: nat, groups: seq<Group>, live: seq<bool>)
    requires g.Ok() && |live| == g.inodesCount + 1 && |groups| == g.groupCount
  {
    && free == CountClear(live, 1, g.inodesCount + 1)
    && forall k :: 0 <= k < g.groupCount ==>
         groups[k].freeInodes == CountClear(live, g.InodeBase(k), g.InodeEnd(k))
  }

  /** Block `b` lies in the group the driver computes for it, and in no other. */
  lemma BlockGroup(g: Geometry, b: nat, k: nat)
    requires g.Ok() && g.firstDataBlock <= b < g.blocksCount
    ensures (b - g.firstDataBlock) / g.blocksPerGroup < g.groupCount
    ensures g.GroupBase(k) <= b < g.GroupEnd(k) <==> k == (b - g.firstDataBlock) / g.blocksPerGroup
  {
    GroupOf(b - g.firstDataBlock, g.blocksPerGroup, k);
    GroupBelow(b - g.firstDataBlock, g.blocksPerGroup, g.groupCount);
  }

  /** What the driver's 32-bit group computation yields: a block number below the first data block
      wraps around to a group that does not exist. */
  lemma ComputedGroup(g: Geometry, b: nat)
    requires g.Ok() && b < g.blocksCount
    ensures g.blocksPerGroup > 0
    ensures var k := (b - g.firstDataBlock) % TWO_32 / g.blocksPerGroup;
            && (k < g.groupCount <==> g.firstDataBlock <= b)
            && (g.firstDataBlock <= b ==> k == (b - g.firstDataBlock) / g.blocksPerGroup)
  {
    if g.firstDataBlock <= b {
      BlockGroup(g, b, 0);
    } else {
      hide Geometry.GroupsCover;
      var n, size, q := g.blocksCount + g.blocksPerGroup - 1, g.blocksPerGroup, (TWO_32 - 1) / g.blocksPerGroup;
      GroupOf(TWO_32 - 1, size, q);
      GroupOf(n, size, n / size);
      if q < g.groupCount {
        MulLe(q + 1, g.groupCount, size);
      }
    }
  }

  lemma InodeGroup(g: Geometry, n: nat, k: nat)
    requires g.Ok() && 1 <= n <= g.inodesCount
    ensures (n - 1) / g.inodesPerGroup < g.groupCount
    ensures g.InodeBase(k) <= n < g.InodeEnd(k) <==> k == (n - 1) / g.inodesPerGroup
  {
    GroupOf(n - 1, g.inodesPerGroup, k);
    GroupBelow(n - 1, g.inodesPerGroup, g.groupCount);
  }

  /** Flipping one block's bit and moving both of its counters by one keeps them in agreement. */
  lemma FlipBlock(g: Geometry, free: nat, groups: seq<Group>, used: seq<bool>, b: nat, k: nat)
    requires g.Ok() && |used| == g.blocksCount && |groups| == g.groupCount
    requires g.firstDataBlock <= b < g.blocksCount && k == (b - g.firstDataBlock) / g.blocksPerGroup
    requires k < g.groupCount && BlockCountersAgree(g, free, groups, used)
    ensures used[b] ==>
              BlockCountersAgree(g, free + 1, groups[k := groups[k].(freeBlocks := groups[k].freeBlocks + 1)],
                                 used[b := false])
    ensures !used[b] ==>
              && 0 < free && 0 < groups[k].freeBlocks
              && BlockCountersAgree(g, free - 1, groups[k := groups[k].(freeBlocks := groups[k].freeBlocks - 1)],
                                    used[b := true])
  {
    hide Geometry.GroupsCover;
    CountClearUpdate(used, g.firstDataBlock, g.blocksCount, b, !used[b]);
    forall j | 0 <= j < g.groupCount
      ensures CountClear(used[b := !used[b]], g.GroupBase(j), g.GroupEnd(j)) ==
              groups[j].freeBlocks + if j != k then 0 else if used[b] then 1 else -1
    {
      BlockGroup(g, b, j);
      CountClearUpdate(used, g.GroupBase(j), g.GroupEnd(j), b, !used[b]);
    }
  }

  lemma FlipInode(g: Geometry, free: nat, groups: seq<Group>, live: seq<bool>, n: nat, k: nat)
    requires g.Ok() && |live| == g.inodesCount + 1 && |groups| == g.groupCount
    requires 1 <= n <= g.inodesCount && k == (n - 1) / g.inodesPerGroup
    requires k < g.groupCount && InodeCountersAgree(g, free, groups, live)
    ensures live[n] ==>
              InodeCountersAgree(g, free + 1, groups[k := groups[k].(freeInodes := groups[k].freeInodes + 1)],
                                 live[n := false])
    ensures !live[n] ==>
              && 0 < free && 0 < groups[k].freeInodes
              && InodeCountersAgree(g, free - 1, groups[k := groups[k].(freeInodes := groups[k].freeInodes - 1)],
                                    live[n := true])
  {
    hide Geometry.GroupsCover;
    CountClearUpdate(live, 1, g.inodesCount + 1, n, !live[n]);
    forall j | 0 <= j < g.groupCount
      ensures CountClear(live[n := !live[n]], g.InodeBase(j), g.InodeEnd(j)) ==
              groups[j].freeInodes + if j != k then 0 else if live[n] then 1 else -1
    {
      InodeGroup(g, n, j);
      CountClearUpdate(live, g.InodeBase(j), g.InodeEnd(j), n, !live[n]);
    }
  }

  /** Where group `k` lies. */
  lemma GroupSpan(g: Geometry, k: nat)
    requires g.Ok()
    ensures k < g.groupCount ==> g.firstDataBlock <= g.GroupBase(k) < g.blocksCount
    ensures g.GroupBase(k + 1) == g.GroupBase(k) + g.blocksPerGroup
    ensures g.GroupBase(0) == g.firstDataBlock && g.blocksCount <= g.GroupBase(g.groupCount)
    ensures g.firstDataBlock < g.blocksCount && 0 < g.groupCount
  {
    MulLe(0, 0, g.blocksPerGroup);
    if k < g.groupCount {
      MulLe(k + 1, g.groupCount, g.blocksPerGroup);
    } else {
      MulLe(k, k, g.blocksPerGroup);
    }
  }

  /** A group whose counter is zero is full. */
  lemma GroupCounter(g: Geometry, free: nat, groups: seq<Group>, used: seq<bool>, k: nat)
    requires g.Ok() && |used| == g.blocksCount && |groups| == g.groupCount
    requires BlockCountersAgree(g, free, groups, used) && k < g.groupCount
    ensures groups[k].freeBlocks == 0 ==> AllSet(used, g.GroupBase(k), g.GroupEnd(k))
  {
    CountClearZero(used, g.GroupBase(k), g.GroupEnd(k));
  }

  lemma FirstInode(g: Geometry)
    requires g.Ok()
    ensures ROOT_INODE < g.firstInode
  {
  }

  /** Skipping an inode because its group's counter is zero misses no free inode. */
  lemma InodeSkipped(g: Geometry, free: nat, groups: seq<Group>, live: seq<bool>, n: nat)
    requires g.Ok() && |live| == g.inodesCount + 1 && |groups| == g.groupCount
    requires InodeCountersAgree(g, free, groups, live) && 1 <= n <= g.inodesCount
    ensures 0 < g.inodesPerGroup && (n - 1) / g.inodesPerGroup < g.groupCount
    ensures groups[(n - 1) / g.inodesPerGroup].freeInodes == 0 ==> live[n]
  {
    var k := (n - 1) / g.inodesPerGroup;
    InodeGroup(g, n, k);
    CountClearZero(live, g.InodeBase(k), g.InodeEnd(k));
  }

  /** The volume is full exactly when the superblock counter is zero. */
  lemma VolumeCounter(g: Geometry, free: nat, groups: seq<Group>, used: seq<bool>)
    requires g.Ok() && |used| == g.blocksCount && |groups| == g.groupCount
    requires BlockCountersAgree(g, free, groups, used)
    ensures free == 0 <==> AllSet(used, g.firstDataBlock, g.blocksCount)
  {
    CountClearZero(used, g.firstDataBlock, g.blocksCount);
  }

  /** Block counters do not look at the inode fields of the group descriptors, and vice versa. */
  lemma CountersApart(g: Geometry, groups: seq<Group>, groups': seq<Group>, used: seq<bool>, live: seq<bool>)
    requires g.Ok() && |groups| == |groups'| == g.groupCount
    requires |used| == g.blocksCount && |live| == g.inodesCount + 1
    ensures forall free ::
              (forall k :: 0 <= k < |groups| ==> groups'[k].freeBlocks == groups[k].freeBlocks) ==>
              BlockCountersAgree(g, free, groups, used) ==> BlockCountersAgree(g, free, groups', used)
    ensures forall free ::
              (forall k :: 0 <= k < |groups| ==> groups'[k].freeInodes == groups[k].freeInodes) ==>
              InodeCountersAgree(g, free, groups, live) ==> InodeCountersAgree(g, free, groups', live)
  {
    hide Geometry.GroupsCover;
  }
}
