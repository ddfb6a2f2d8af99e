/** The redundant counters are determined by the block maps, so undoing a change to a file's size restores them. */
module Ext2Accounts {
  import opened Bytes
  import opened Counting
  import opened Ext2Layout
  import opened Ext2Files
  import opened Ext2Resize
  import opened Ext2Inodes

  /** A volume whose books balance: bitmap, owners and block maps all say the same. */
  ghost predicate Balanced(g: Geometry, c: Image, owner: seq<Owner>) {
    && g.Ok() && Shaped(g, c) && OwnerBits(c.used, owner) && FilesOk(g, c, owner, {}) && NothingLost(g, c, owner)
  }

  ghost predicate SameMaps(g: Geometry, c: Image, c': Image)
    requires |c.live| == |c.inodes| == |c'.inodes|
  {
    forall n :: 1 <= n < |c.live| && c.live[n] ==>
      && SameIds(g, c.data, c.inodes[n].block, c'.data, c'.inodes[n].block)
      && c'.inodes[n].block[12] == c.inodes[n].block[12]
  }

  /** A block in use in one of two balanced volumes with the same block maps is in use in the other. */
  lemma SameOwner(g: Geometry, c: Image, owner: seq<Owner>, c': Image, owner': seq<Owner>, b: nat)
    requires Balanced(g, c, owner) && Balanced(g, c', owner') && c'.live == c.live && SameMaps(g, c, c')
    requires forall i :: 0 <= i < |owner| ==> (owner'[i].Meta? <==> owner[i].Meta?)
    requires b < |owner| && !owner[b].Free?
    ensures !owner'[b].Free?
  {
    if owner[b].Data? || owner[b].Indirect? {
      var n := owner[b].ino;
      assert 0 < b;
      assert FileOk(g, c'.data, owner', n, c'.inodes[n].block, c'.inodes[n].size);
      hide IdAt, Geometry.GroupsCover;
      TidyInode(g, c, owner, n);
      if owner[b].Data? {
        assert IdAt(g, c.data, c.inodes[n].block, owner[b].index) == b;
        assert IdAt(g, c'.data, c'.inodes[n].block, owner[b].index) == b;
      }
    }
  }

  /** Balanced volumes with the same block maps have the same bitmap, hence the same block counters. */
  lemma MapsDetermineCounters(g: Geometry, c: Image, owner: seq<Owner>, free: nat, groups: seq<Group>,
                              c': Image, owner': seq<Owner>, free': nat, groups': seq<Group>)
    requires Balanced(g, c, owner) && Balanced(g, c', owner') && c'.live == c.live
    requires SameMaps(g, c, c') && SameMaps(g, c', c)
    requires forall i :: 0 <= i < |owner| ==> (owner'[i].Meta? <==> owner[i].Meta?)
    requires |groups| == |groups'| == g.groupCount
    requires BlockCountersAgree(g, free, groups, c.used) && BlockCountersAgree(g, free', groups', c'.used)
    ensures c'.used == c.used && free' == free
    ensures forall k :: 0 <= k < g.groupCount ==> groups'[k].freeBlocks == groups[k].freeBlocks
  {
    forall b | 0 <= b < |c.used|
      ensures c'.used[b] == c.used[b]
    {
      if c.used[b] {
        SameOwner(g, c, owner, c', owner', b);
      } else if c'.used[b] {
        SameOwner(g, c', owner', c, owner, b);
      }
    }
    assert c'.used == c.used;
  }

  /** The block map of a dense file that grew and was cut back to its old size is the old one. */
  lemma GrowTruncateMap(g: Geometry, d0: seq<Block>, m0: BlockMap, size: nat, d1: seq<Block>, m1: BlockMap, grown: nat,
                        d2: seq<Block>, m2: BlockMap)
    requires g.blockSize > 0 && BlocksFor(g, size) <= BlocksFor(g, grown)
    requires BlocksFor(g, size) <= g.MaxBlocks()
    requires Dense(g, d0, m0, size) && Trimmed(g, d0, m0, size) && Trimmed(g, d2, m2, size)
    requires KeptIds(g, d0, m0, size, d1, m1, grown) && KeptIds(g, d1, m1, grown, d2, m2, size)
    ensures SameIds(g, d0, m0, d2, m2) && m2[12] == m0[12]
  {
    if DIRECT_BLOCKS < BlocksFor(g, size) {
      assert IdAt(g, d0, m0, DIRECT_BLOCKS) != 0;
    }
    hide BlocksFor;
    forall j: nat | j < g.MaxBlocks()
      ensures IdAt(g, d2, m2, j) == IdAt(g, d0, m0, j)
    {
      if j < BlocksFor(g, size) {
        assert IdAt(g, d1, m1, j) == IdAt(g, d0, m0, j);
      }
    }
  }

  /** Growing a dense file and truncating it back restores the bitmap, the free counts of the superblock and of
      every group, and the inode's sector count, the indirect block at the 12-block boundary included. */
  lemma GrowTruncateRestores(g: Geometry, n: nat, grown: nat,
                             c0: Image, owner0: seq<Owner>, free0: nat, groups0: seq<Group>, c1: Image,
                             c2: Image, owner2: seq<Owner>, free2: nat, groups2: seq<Group>)
    requires Balanced(g, c0, owner0) && Balanced(g, c2, owner2) && c1.live == c0.live == c2.live
    requires |c1.inodes| == |c0.inodes|
    requires 1 <= n < |c0.live| && c0.live[n] && OthersSame(g, c0, c2, {n})
    requires forall i :: 0 <= i < |owner0| ==> (owner2[i].Meta? <==> owner0[i].Meta?)
    requires |groups0| == |groups2| == g.groupCount
    requires BlockCountersAgree(g, free0, groups0, c0.used) && BlockCountersAgree(g, free2, groups2, c2.used)
    requires var size := c0.inodes[n].size;
             var m0, m1, m2 := c0.inodes[n].block, c1.inodes[n].block, c2.inodes[n].block;
             && BlocksFor(g, size) <= BlocksFor(g, grown)
             && Dense(g, c0.data, m0, size) && Trimmed(g, c0.data, m0, size) && Trimmed(g, c2.data, m2, size)
             && KeptIds(g, c0.data, m0, size, c1.data, m1, grown) && KeptIds(g, c1.data, m1, grown, c2.data, m2, size)
    ensures c2.used == c0.used && free2 == free0
    ensures forall k :: 0 <= k < g.groupCount ==> groups2[k].freeBlocks == groups0[k].freeBlocks
    ensures SectorCount(g, c2.data, c2.inodes[n].block) == SectorCount(g, c0.data, c0.inodes[n].block)
  {
    var m0, m1, m2 := c0.inodes[n].block, c1.inodes[n].block, c2.inodes[n].block;
    assert FileOk(g, c0.data, owner0, n, m0, c0.inodes[n].size);
    GrowTruncateMap(g, c0.data, m0, c0.inodes[n].size, c1.data, m1, grown, c2.data, m2);
    SameCount(g, c0.data, m0, c2.data, m2, g.MaxBlocks());
    hide IdAt, Content, BlocksFor, Dense, Trimmed, KeptIds, Geometry.GroupsCover, FilesOk, NothingLost, CountIds;
    MapsDetermineCounters(g, c0, owner0, free0, groups0, c2, owner2, free2, groups2);
  }
}
