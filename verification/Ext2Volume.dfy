module Ext2Volume {
  import opened Bytes
  import opened Counting
  import opened Ext2Layout
  import opened Ext2Files

  lemma StillShaped(g: Geometry, c: Image, n: nat, used: bool)
    requires Shaped(g, c) && 1 <= n <= g.inodesCount
    ensures Shaped(g, c.(live := c.live[n := used]))
    ensures c.live[n] == used ==> c.live[n := used] == c.live
  {
  }

  class Volume {
    const geo: Geometry
    var freeBlocks: nat
    var freeInodes: nat
    const groups: array<Group>
    const blockUsed: array<bool>
    const inodeUsed: array<bool>
    const inodes: array<Inode>
    const data: array<Block>
    ghost var owner: seq<Owner>

    /** ext2_mount: takes over an image. That its counters, bitmaps and inodes agree is not checked by the driver. */
    constructor (geo: Geometry, freeBlocks: nat, freeInodes: nat, groups: array<Group>, blockUsed: array<bool>,
                 inodeUsed: array<bool>, inodes: array<Inode>, data: array<Block>, ghost owner: seq<Owner>)
      requires geo.Ok() && groups.Length == geo.groupCount && blockUsed != inodeUsed
      requires blockUsed.Length == geo.blocksCount && inodeUsed.Length == geo.inodesCount + 1
      requires Shaped(geo, Image(blockUsed[..], inodeUsed[..], inodes[..], data[..]))
      requires BlockCountersAgree(geo, freeBlocks, groups[..], blockUsed[..])
      requires InodeCountersAgree(geo, freeInodes, groups[..], inodeUsed[..])
      requires OwnerBits(blockUsed[..], owner)
      requires FilesOk(geo, Image(blockUsed[..], inodeUsed[..], inodes[..], data[..]), owner, {})
      ensures Sound() && this.geo == geo && Now() == Image(blockUsed[..], inodeUsed[..], inodes[..], data[..])
      ensures this.freeBlocks == freeBlocks && this.freeInodes == freeInodes && this.owner == owner && this.groups == groups
    {
      this.geo, this.freeBlocks, this.freeInodes, this.groups, this.owner := geo, freeBlocks, freeInodes, groups, owner;
      this.blockUsed, this.inodeUsed, this.inodes, this.data := blockUsed, inodeUsed, inodes, data;
      new;
      hide Geometry.GroupsCover, BlockCountersAgree, InodeCountersAgree, FilesOk, OwnerBits;
    }

    ghost function Now(): Image
      reads blockUsed, inodeUsed, inodes, data
    {
      Image(blockUsed[..], inodeUsed[..], inodes[..], data[..])
    }

    ghost predicate Valid()
      reads this, groups, blockUsed, inodeUsed, inodes, data
    {
      && geo.Ok() && groups.Length == geo.groupCount && blockUsed != inodeUsed
      && blockUsed.Length == geo.blocksCount && data.Length == geo.blocksCount
      && inodeUsed.Length == geo.inodesCount + 1 && inodes.Length == geo.inodesCount + 1
      && Shaped(geo, Now())
      && BlockCountersAgree(geo, freeBlocks, groups[..], blockUsed[..])
      && InodeCountersAgree(geo, freeInodes, groups[..], inodeUsed[..])
    }

    /** The bitmap marks exactly the blocks somebody owns. */
    ghost predicate Tracked()
      reads this, blockUsed
    {
      OwnerBits(blockUsed[..], owner)
    }

    /** Counters, bitmaps, ownership and every live inode are in order. */
    ghost predicate Sound()
      reads this, groups, blockUsed, inodeUsed, inodes, data
    {
      Valid() && Tracked() && FilesOk(geo, Now(), owner, {})
    }

    /** The bytes of file `n`. */
    ghost function BytesOf(n: nat): Block
      requires Valid() && n <= geo.inodesCount
      reads this, groups, blockUsed, inodeUsed, inodes, data
    {
      FileBytes(geo, data[..], inodes[n].block, inodes[n].size)
    }

    /** Inode `n` exists and is in use. */
    ghost predicate Live(n: nat)
      requires Valid()
      reads this, groups, blockUsed, inodeUsed, inodes, data
    {
      1 <= n <= geo.inodesCount && inodeUsed[n]
    }

    method ReadInode(n: nat) returns (ok: bool, ino: Inode)
      requires Valid()
      ensures ok <==> 1 <= n <= geo.inodesCount
      ensures ok ==> ino == inodes[n]
    {
      if n == 0 || n > geo.inodesCount {
        return false, EMPTY_INODE;
      }
      return true, inodes[n];
    }

    method WriteInode(n: nat, ino: Inode) returns (ok: bool)
      requires Valid()
      modifies inodes
      ensures Valid()
      ensures ok <==> 1 <= n <= geo.inodesCount
      ensures Now() == if ok then old(Now()).(inodes := old(inodes[..])[n := ino]) else old(Now())
    {
      if n == 0 || n > geo.inodesCount {
        return false;
      }
      hide Geometry.Ok, BlockCountersAgree, InodeCountersAgree;
      inodes[n] := ino;
      return true;
    }

    method MarkBlockUsed(block: nat, used: bool) returns (ok: bool)
      requires Valid() && (used || block != 0)
      modifies `freeBlocks, groups, blockUsed
      ensures Valid()
      ensures ok <==> geo.firstDataBlock <= block < geo.blocksCount
      ensures Now() == if ok then old(Now()).(used := old(Now()).used[block := used]) else old(Now())
      ensures freeBlocks == old(freeBlocks) + if !ok || old(blockUsed[block]) == used then 0 else if used then -1 else 1
      ensures DirCounts(groups[..]) == old(DirCounts(groups[..]))
    {
      hide Geometry.Ok, CountClear, BlockCountersAgree, InodeCountersAgree;
      if block >= geo.blocksCount {
        return false;
      }
      ComputedGroup(geo, block);
      var group := (block - geo.firstDataBlock) % TWO_32 / geo.blocksPerGroup;
      if group >= geo.groupCount {
        return false;
      }
      if blockUsed[block] == used {
        assert Now() == old(Now()).(used := old(Now()).used[block := used]);
        return true;
      }
      ghost var bits, before := blockUsed[..], groups[..];
      FlipBlock(geo, freeBlocks, before, bits, block, group);
      blockUsed[block] := used;
      if used {
        if freeBlocks > 0 { freeBlocks := freeBlocks - 1; }
        if groups[group].freeBlocks > 0 {
          groups[group] := groups[group].(freeBlocks := groups[group].freeBlocks - 1);
        }
      } else {
        freeBlocks := freeBlocks + 1;
        groups[group] := groups[group].(freeBlocks := groups[group].freeBlocks + 1);
      }
      assert blockUsed[..] == bits[block := !bits[block]];
      CountersApart(geo, before, groups[..], bits, inodeUsed[..]);
      return true;
    }

    /** Takes the lowest free block, zeroed; fails exactly when the superblock counter is zero. */
    method AllocateBlock() returns (block: nat)
      requires Valid()
      modifies `freeBlocks, groups, blockUsed, data
      ensures Valid()
      ensures block == 0 <==> old(freeBlocks) == 0
      ensures block == 0 ==> Now() == old(Now()) && freeBlocks == old(freeBlocks)
      ensures DirCounts(groups[..]) == old(DirCounts(groups[..]))
      ensures block != 0 ==>
                && geo.firstDataBlock <= block < geo.blocksCount && freeBlocks == old(freeBlocks) - 1
                && !old(blockUsed[block]) && AllSet(old(blockUsed[..]), geo.firstDataBlock, block)
                && Now() == old(Now()).(used := old(blockUsed[..])[block := true],
                                        data := old(data[..])[block := Zeros(geo.blockSize)])
    {
      hide Geometry.Ok, Geometry.GroupsCover, CountClear, BlockCountersAgree, InodeCountersAgree;
      block := FindFreeBlock();
      if block != 0 {
        TakeBlock(block);
      }
    }

    /** The group scan of the allocator: a group whose counter is zero is skipped unread. */
    method FindFreeBlock() returns (block: nat)
      requires Valid()
      ensures block == 0 <==> freeBlocks == 0
      ensures block != 0 ==>
                && geo.firstDataBlock <= block < geo.blocksCount && !blockUsed[block]
                && AllSet(blockUsed[..], geo.firstDataBlock, block)
    {
      hide Geometry.Ok, Geometry.GroupsCover, CountClear, BlockCountersAgree, InodeCountersAgree;
      GroupSpan(geo, 0);
      VolumeCounter(geo, freeBlocks, groups[..], blockUsed[..]);
      for group := 0 to geo.groupCount
        invariant AllSet(blockUsed[..], geo.firstDataBlock, Min(geo.GroupBase(group), geo.blocksCount))
      {
        GroupSpan(geo, group);
        GroupCounter(geo, freeBlocks, groups[..], blockUsed[..], group);
        if groups[group].freeBlocks == 0 {
          continue;
        }
        var base, limit := geo.GroupBase(group), geo.blocksPerGroup;
        if base + limit > geo.blocksCount {
          limit := geo.blocksCount - base;
        }
        block := FirstClear(base, base + limit);
        if block < base + limit {
          return;
        }
      }
      return 0;
    }

    /** The lowest clear bit of the block bitmap in [lo, hi), or `hi`. */
    method FirstClear(lo: nat, hi: nat) returns (i: nat)
      requires lo <= hi <= blockUsed.Length
      ensures lo <= i <= hi && AllSet(blockUsed[..], lo, i)
      ensures i < hi ==> !blockUsed[i]
    {
      i := lo;
      while i < hi && blockUsed[i]
        invariant lo <= i <= hi && AllSet(blockUsed[..], lo, i)
      {
        i := i + 1;
      }
    }

    method TakeBlock(block: nat)
      requires Valid() && geo.firstDataBlock <= block < geo.blocksCount && !blockUsed[block]
      modifies `freeBlocks, groups, blockUsed, data
      ensures Valid() && old(freeBlocks) > 0 && freeBlocks == old(freeBlocks) - 1
      ensures DirCounts(groups[..]) == old(DirCounts(groups[..]))
      ensures Now() == old(Now()).(used := old(blockUsed[..])[block := true],
                                   data := old(data[..])[block := Zeros(geo.blockSize)])
    {
      hide Geometry.Ok, Geometry.GroupsCover, CountClear, BlockCountersAgree, InodeCountersAgree;
      VolumeCounter(geo, freeBlocks, groups[..], blockUsed[..]);
      var ok := MarkBlockUsed(block, true);
      assert ok;
      data[block] := Zeros(geo.blockSize);
    }

    /** Marks inode `n` used or free and keeps the three counters that know about it. */
    method MarkInodeUsed(n: nat, used: bool, isDir: bool) returns (ok: bool)
      requires Valid()
      modifies `freeInodes, groups, inodeUsed
      ensures Valid()
      ensures ok <==> 1 <= n <= geo.inodesCount
      ensures Now() == if ok then old(Now()).(live := old(Now()).live[n := used]) else old(Now())
      ensures freeInodes == old(freeInodes) + if !ok || old(inodeUsed[n]) == used then 0 else if used then -1 else 1
      ensures DirCounts(groups[..]) ==
              if ok && isDir && old(inodeUsed[n]) != used then DirsMoved(geo, old(DirCounts(groups[..])), n, used)
              else old(DirCounts(groups[..]))
    {
      if n == 0 || n > geo.inodesCount {
        return false;
      }
      StillShaped(geo, Now(), n, used);
      hide Geometry.GroupsCover, CountClear, BlockCountersAgree, InodeCountersAgree, Shaped;
      InodeGroup(geo, n, 0);
      var group := (n - 1) / geo.inodesPerGroup;
      if inodeUsed[n] == used {
        assert Now() == old(Now()).(live := old(Now()).live[n := used]);
        return true;
      }
      ghost var bits, before := inodeUsed[..], groups[..];
      FlipInode(geo, freeInodes, before, bits, n, group);
      inodeUsed[n] := used;
      FlipCounters(group, used, isDir);
      assert inodeUsed[..] == bits[n := !bits[n]];
      ghost var moved := before[group := before[group].(freeInodes := groups[group].freeInodes)];
      CountersApart(geo, before, groups[..], blockUsed[..], bits);
      CountersApart(geo, moved, groups[..], blockUsed[..], inodeUsed[..]);
      return true;
    }

    method FlipCounters(group: nat, used: bool, isDir: bool)
      requires group < groups.Length && (used ==> 0 < freeInodes && 0 < groups[group].freeInodes)
      modifies `freeInodes, groups
      ensures freeInodes == old(freeInodes) + if used then -1 else 1
      ensures groups[..] == old(groups[..])[group := old(groups[group]).(
                freeInodes := old(groups[group].freeInodes) + (if used then -1 else 1),
                usedDirs := if !isDir then old(groups[group].usedDirs) else if used then old(groups[group].usedDirs) + 1
                            else if old(groups[group].usedDirs) > 0 then old(groups[group].usedDirs) - 1 else 0)]
    {
      var g := groups[group];
      if used {
        if freeInodes > 0 { freeInodes := freeInodes - 1; }
        if g.freeInodes > 0 { g := g.(freeInodes := g.freeInodes - 1); }
        if isDir { g := g.(usedDirs := g.usedDirs + 1); }
      } else {
        freeInodes := freeInodes + 1;
        g := g.(freeInodes := g.freeInodes + 1);
        if isDir && g.usedDirs > 0 { g := g.(usedDirs := g.usedDirs - 1); }
      }
      groups[group] := g;
    }

    /** The lowest free inode that is not reserved; a group whose counter is zero is skipped unread. */
    method FindFreeInode() returns (n: nat)
      requires Valid()
      ensures n != 0 ==> geo.firstInode <= n <= geo.inodesCount && !inodeUsed[n] && AllSet(inodeUsed[..], geo.firstInode, n)
      ensures n == 0 ==> geo.firstInode > geo.inodesCount || AllSet(inodeUsed[..], geo.firstInode, geo.inodesCount + 1)
    {
      FirstInode(geo);
      hide Geometry.Ok, Geometry.GroupsCover, CountClear, BlockCountersAgree, InodeCountersAgree, Shaped;
      n := geo.firstInode;
      while n <= geo.inodesCount
        invariant geo.firstInode <= n
        invariant n <= geo.inodesCount + 1 ==> AllSet(inodeUsed[..], geo.firstInode, n)
        invariant n <= geo.inodesCount + 1 || n == geo.firstInode
      {
        var free := InodeIsFree(n);
        if free {
          return;
        }
        n := n + 1;
      }
      return 0;
    }

    /** The two tests of the inode allocator. */
    method InodeIsFree(n: nat) returns (free: bool)
      requires Valid() && 1 <= n <= geo.inodesCount
      ensures free <==> !inodeUsed[n]
    {
      hide Geometry.GroupsCover, CountClear, BlockCountersAgree, InodeCountersAgree, Shaped;
      InodeSkipped(geo, freeInodes, groups[..], inodeUsed[..], n);
      hide Geometry.Ok;
      return groups[(n - 1) / geo.inodesPerGroup].freeInodes != 0 && !inodeUsed[n];
    }

    method AllocateInode(isDir: bool) returns (n: nat)
      requires Valid()
      modifies `freeInodes, groups, inodeUsed, inodes
      ensures Valid()
      ensures n == 0 ==> Now() == old(Now())
      ensures DirCounts(groups[..]) == if n != 0 && isDir then DirsMoved(geo, old(DirCounts(groups[..])), n, true) else old(DirCounts(groups[..]))
      ensures n == 0 <==> geo.firstInode > geo.inodesCount || AllSet(old(inodeUsed[..]), geo.firstInode, geo.inodesCount + 1)
      ensures n != 0 ==>
                && geo.firstInode <= n <= geo.inodesCount && !old(inodeUsed[n])
                && AllSet(old(inodeUsed[..]), geo.firstInode, n)
                && Now() == old(Now()).(live := old(inodeUsed[..])[n := true], inodes := old(inodes[..])[n := EMPTY_INODE])
    {
      hide Geometry.Ok, Geometry.GroupsCover, CountClear, BlockCountersAgree, InodeCountersAgree;
      n := FindFreeInode();
      if n != 0 {
        var ok := MarkInodeUsed(n, true, isDir);
        ok := WriteInode(n, EMPTY_INODE);
      }
    }
  }
}
