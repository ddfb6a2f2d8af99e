/** Resizing, reading and writing a file through the inode table. */
module Ext2FileOps {
  import opened Bytes
  import opened Ext2Layout
  import opened Ext2Files
  import opened Ext2Bytes
  import opened Ext2Volume
  import opened Ext2Inodes
  import opened Ext2Resize

  /** Writing one sound inode back after a step confined to it leaves the volume sound. */
  lemma Written(g: Geometry, c: Image, owner: seq<Owner>, c': Image, owner': seq<Owner>, n: nat, who: set<nat>)
    requires g.blockSize > 0 && |c.live| == |c.inodes| == |c'.inodes| && c'.live == c.live && who <= {0, n}
    requires Touches(who, c.data, owner, c'.data, owner') && FilesOk(g, c, owner, {})
    requires forall i :: 1 <= i < |c.inodes| && i != n ==> c'.inodes[i] == c.inodes[i]
    requires 1 <= n < |c.live| && FileOk(g, c'.data, owner', n, c'.inodes[n].block, c'.inodes[n].size)
    ensures FilesOk(g, c', owner', {}) && OthersSame(g, c, c', {n})
  {
    hide Touches;
    TouchesMore(who, {0, n}, c.data, owner, c'.data, owner');
    hide FileOk;
    Confined(g, c, owner, c', owner', {0, n});
  }

  /** A step confined to inode `n` loses a block exactly when `n` is not tidy afterwards. */
  lemma StillLost(g: Geometry, c: Image, owner: seq<Owner>, c': Image, owner': seq<Owner>, n: nat, who: set<nat>)
    requires |c.live| == |c.inodes| == |c'.inodes| && c'.live == c.live && who <= {0, n} && 1 <= n < |c.live| && c.live[n]
    requires Touches(who, c.data, owner, c'.data, owner') && OthersSame(g, c, c', {n}) && NothingLost(g, c, owner)
    requires OwnerBits(c'.used, owner')
    ensures NothingLost(g, c', owner') <==> Tidy(g, c'.data, owner', n, c'.inodes[n].block, 0)
  {
    hide NothingLost, Tidy, Touches, OthersSame;
    if NothingLost(g, c', owner') {
      TidyInode(g, c', owner', n);
    }
    if Tidy(g, c'.data, owner', n, c'.inodes[n].block, 0) {
      StillNothingLost(g, c, owner, c', owner', n, who);
    }
  }

  lemma TooLarge(g: Geometry, data: seq<Block>, ino: Inode, freeBlocks: nat, newSize: nat)
    requires g.blockSize > 0 && BlocksFor(g, newSize) > g.MaxBlocks()
    ensures !GrowLoses(g, data, ino, freeBlocks, newSize) && !GrowMiscounts(g, data, ino, freeBlocks, newSize)
  {
  }

  method ResizeInodeData(v: Volume, n: nat, ino: Inode, newSize: nat) returns (ok: bool, ino': Inode)
    requires v.Sound() && v.Live(n) && ino == v.inodes[n]
    modifies v, v.groups, v.blockUsed, v.inodes, v.data
    ensures v.Sound() && OthersSame(v.geo, old(v.Now()), v.Now(), {n})
    ensures Touches(ResizeTouches(v.geo, old(v.data[..]), n, ino, newSize), old(v.data[..]), old(v.owner), v.data[..], v.owner)
    ensures ok <==> Fits(v.geo, old(v.data[..]), ino, old(v.freeBlocks), newSize)
    ensures !ok ==> v.inodes[..] == old(v.inodes[..]) && SameContent(v.geo, old(v.data[..]), ino.block, v.data[..], ino.block)
    ensures ok ==>
              && v.inodes[..] == old(v.inodes[..])[n := ino']
              && ino' == ino.(block := ino'.block, size := newSize,
                              blocks := SectorCount(v.geo, v.data[..], ino'.block))
              && KeptIds(v.geo, old(v.data[..]), ino.block, ino.size, v.data[..], ino'.block, newSize)
              && (NothingLost(v.geo, old(v.Now()), old(v.owner)) ==> NothingLost(v.geo, v.Now(), v.owner))
    ensures ok && Dense(v.geo, old(v.data[..]), ino.block, ino.size) ==> Dense(v.geo, v.data[..], ino'.block, newSize)
    ensures ok && (BlocksFor(v.geo, newSize) < BlocksFor(v.geo, ino.size)
                   || Trimmed(v.geo, old(v.data[..]), ino.block, ino.size)) ==>
              Trimmed(v.geo, v.data[..], ino'.block, newSize)
    ensures v.BytesOf(n) == if ok then Resized(old(v.BytesOf(n)), newSize) else old(v.BytesOf(n))
    ensures ok && ino.size < newSize ==>
              Extended(v.geo, old(v.data[..]), ino.block, old(v.freeBlocks), BlocksFor(v.geo, ino.size), BlocksFor(v.geo, newSize),
                       v.data[..], ino'.block, v.freeBlocks)
    ensures !ok && NothingLost(v.geo, old(v.Now()), old(v.owner)) ==>
              (NothingLost(v.geo, v.Now(), v.owner) <==> !GrowLoses(v.geo, old(v.data[..]), ino, old(v.freeBlocks), newSize))
    ensures Counted(v.geo, old(v.Now())) ==>
              (Counted(v.geo, v.Now()) <==> ok || !GrowMiscounts(v.geo, old(v.data[..]), ino, old(v.freeBlocks), newSize))
    ensures 0 < v.data.Length
    ensures v.data[0] == if ok then BlockZeroAfter(v.geo, old(v.data[..]), ino, newSize) else old(v.data[0])
    ensures DirCounts(v.groups[..]) == old(DirCounts(v.groups[..]))
  {
    hide Geometry.GroupsCover, BlockCountersAgree, InodeCountersAgree, Tidy, HolesIn, CountIds, FileBytes, IdAt,
      Dense, Content, Touches, KeptIds, GrowthNeeds, BlocksFor, NothingLost, Trimmed, BlockZeroAfter, HoleTail, GrowLoses, Extended,
      GrowMiscounts, Counted, SectorCount, DirCounts;
    SizeLimit(v.geo, newSize);
    if newSize > v.geo.MaxBlocks() * v.geo.blockSize {
      TouchesNothing(ResizeTouches(v.geo, v.data[..], n, ino, newSize), v.data[..], v.owner);
      TooLarge(v.geo, v.data[..], ino, v.freeBlocks, newSize);
      return false, ino;
    }
    ghost var c, owner := v.Now(), v.owner;
    assert FileOk(v.geo, c.data, owner, n, c.inodes[n].block, c.inodes[n].size);
    if newSize > ino.size {
      ok, ino' := ResizeUp(v, n, ino, newSize);
    } else {
      ok, ino' := ResizeDown(v, n, ino, newSize);
    }
    if !ok {
      if NothingLost(v.geo, c, owner) {
        TidyInode(v.geo, c, owner, n);
      }
      MetaBlockZero({n}, c.data, owner, v.data[..], v.owner);
      SameBytes(v.geo, c.data, ino.block, v.data[..], ino.block, ino.size);
      Written(v.geo, c, owner, v.Now(), v.owner, n, ResizeTouches(v.geo, c.data, n, ino, newSize));
      if NothingLost(v.geo, c, owner) {
        StillLost(v.geo, c, owner, v.Now(), v.owner, n, ResizeTouches(v.geo, c.data, n, ino, newSize));
      }
      if Counted(v.geo, c) { CountedHere(v.geo, c, v.Now(), n); }
      return;
    }
    ino' := UpdateInodeBlockCount(v, ino');
    ok := v.WriteInode(n, ino');
    Written(v.geo, c, owner, v.Now(), v.owner, n, ResizeTouches(v.geo, c.data, n, ino, newSize));
    if NothingLost(v.geo, c, owner) {
      TidyInode(v.geo, c, owner, n);
      StillNothingLost(v.geo, c, owner, v.Now(), v.owner, n, ResizeTouches(v.geo, c.data, n, ino, newSize));
    }
    if Counted(v.geo, c) { CountedAt(v.geo, c, v.Now(), n); }
  }

  /** The inode on disk as it was: all the counts are right exactly if its own blocks are as many as before. */
  lemma CountedHere(g: Geometry, c: Image, c': Image, n: nat)
    requires OthersSame(g, c, c', {n}) && Counted(g, c) && 1 <= n < |c'.live| && c.live[n] && c'.live[n] && c'.inodes[n] == c.inodes[n]
    ensures Counted(g, c') <==>
            SectorCount(g, c'.data, c.inodes[n].block) == SectorCount(g, c.data, c.inodes[n].block)
  {
    assert CountOk(g, c.data, c.inodes[n]);
    CountedAt(g, c, c', n);
  }

  method MemCopy(buffer: array<byte>, at: nat, s: Block)
    requires at + |s| <= buffer.Length
    modifies buffer
    ensures buffer[..] == Splice(old(buffer[..]), at, s)
  {
    forall i | 0 <= i < |s| {
      buffer[at + i] := s[i];
    }
  }

  method ReadChunk(v: Volume, ghost n: nat, ino: Inode, at: nat, buffer: array<byte>, copied: nat, chunk: nat)
    requires v.Valid() && Holds(v.geo, v.data[..], v.owner, n, ino.block)
    requires copied + chunk <= buffer.Length && at % v.geo.blockSize + chunk <= v.geo.blockSize
    modifies buffer
    ensures buffer[..] == Splice(old(buffer[..]), copied, ChunkAt(v.geo, v.data[..], ino.block, at, chunk))
  {
    hide Geometry.GroupsCover, BlockCountersAgree, InodeCountersAgree, FileByte, Splice;
    var off := at % v.geo.blockSize;
    var diskBlock := BlockIdAt(v, ino, at / v.geo.blockSize);
    ghost var data := v.data[..];
    ChunkOfBlock(v.geo, data, ino.block, at, chunk);
    if diskBlock == 0 {
      MemCopy(buffer, copied, Zeros(chunk));
    } else {
      MemCopy(buffer, copied, v.data[diskBlock][off..off + chunk]);
    }
  }

  /** Copies file bytes [offset, offset + len) to the front of `buffer`, one block at a time. */
  method ReadInodeBytes(v: Volume, ghost n: nat, ino: Inode, offset: nat, buffer: array<byte>, len: nat) returns (ok: bool)
    requires v.Valid() && Holds(v.geo, v.data[..], v.owner, n, ino.block) && len <= buffer.Length
    modifies buffer
    ensures ok <==> offset + len <= ino.size
    ensures ok ==> buffer[..] == Splice(old(buffer[..]), 0,
                                        FileBytes(v.geo, v.data[..], ino.block, ino.size)[offset..offset + len])
    ensures !ok ==> buffer[..] == old(buffer[..])
  {
    hide Geometry.GroupsCover, BlockCountersAgree, InodeCountersAgree, FileByte, Holds, FileBytes, ChunkAt, Splice;
    ghost var b0, data := buffer[..], v.data[..];
    if offset > ino.size || len > ino.size - offset {
      return false;
    }
    var copied := 0;
    ChunkOfFile(v.geo, data, ino.block, ino.size, offset, len);
    ChunkOfFile(v.geo, data, ino.block, ino.size, offset, 0);
    while copied < len
      invariant copied <= len
      invariant buffer[..] == Splice(b0, 0, ChunkAt(v.geo, data, ino.block, offset, copied))
    {
      var chunk := Min(v.geo.blockSize - (offset + copied) % v.geo.blockSize, len - copied);
      ChunkAppend(v.geo, data, ino.block, offset, copied, chunk);
      SpliceTwice(b0, 0, ChunkAt(v.geo, data, ino.block, offset, copied), ChunkAt(v.geo, data, ino.block, offset + copied, chunk));
      ReadChunk(v, n, ino, offset + copied, buffer, copied, chunk);
      copied := copied + chunk;
    }
    return true;
  }

  /** What copying `s` into a block of inode `n` does to the file seen through the map `m`. */
  lemma ChunkEffect(g: Geometry, n: nat, d0: seq<Block>, m0: BlockMap, data: seq<Block>, owner: seq<Owner>, m: BlockMap,
                    b: nat, at: nat, s: Block, size: nat)
    requires g.SizeOk() && Holds(g, data, owner, n, m) && SameContent(g, d0, m0, data, m) && Sized(g, data)
    requires 0 < b < |data| && owner[b] == Data(n, at / g.blockSize) && at % g.blockSize + |s| <= g.blockSize
    requires at < size && BlocksFor(g, size) <= g.MaxBlocks() && Sized(g, d0)
    ensures var data' := data[b := Splice(data[b], at % g.blockSize, s)];
            && Holds(g, data', owner, n, m) && SameIds(g, data, m, data', m) && Touches({n}, data, owner, data', owner)
            && (IdAt(g, data, m, at / g.blockSize) == b ==> Wrote(g, d0, m0, data', m, size, at, s))
            && (IdAt(g, data, m, at / g.blockSize) != b ==> SameContent(g, d0, m0, data', m))
  {
    var j := at / g.blockSize;
    var block := Splice(data[b], at % g.blockSize, s);
    SplitOrder(g, at, size);
    OverwriteOwned(g, data, owner, n, m, j, b, block);
    if IdAt(g, data, m, j) == b {
      forall i: nat | i < g.MaxBlocks()
        ensures |Content(g, d0, m0, i)| == g.blockSize
      {
      }
      assert Content(g, data, m, j) == data[b];
      ChunkWrites(g, d0, m0, data[b := block], m, at, s, size);
    }
  }

  /** What one turn of a write does to the block map and the free counter: a hole at `j` is filled, or cannot be. */
  ghost predicate ChunkMaps(g: Geometry, d0: seq<Block>, m0: BlockMap, free0: nat, j: nat, ok: bool,
                            d1: seq<Block>, m1: BlockMap, free1: nat)
  {
    if ok then
      && IdAt(g, d1, m1, j) != 0 && (IdAt(g, d0, m0, j) != 0 ==> IdAt(g, d1, m1, j) == IdAt(g, d0, m0, j))
      && (forall i: nat :: i < g.MaxBlocks() && i != j ==> IdAt(g, d1, m1, i) == IdAt(g, d0, m0, i))
      && (j < DIRECT_BLOCKS || m0[12] != 0 ==> m1[12] == m0[12])
      && free0 == free1 + if IdAt(g, d0, m0, j) != 0 then 0 else BlocksNeeded(m0, j)
    else
      IdAt(g, d0, m0, j) == 0 && free0 < BlocksNeeded(m0, j) && free1 == free0 && m1 == m0 && SameIds(g, d0, m0, d1, m1)
  }

  /** One turn of the copying loop of a write: the bytes stay within one block. */
  method WriteChunk(v: Volume, ghost n: nat, ghost disk: BlockMap, ino: Inode, at: nat, s: Block)
    returns (ok: bool, ino': Inode)
    requires v.Valid() && v.Tracked()
    requires Holds(v.geo, v.data[..], v.owner, n, ino.block) && Holds(v.geo, v.data[..], v.owner, n, disk)
    requires at % v.geo.blockSize + |s| <= v.geo.blockSize && at < ino.size && BlocksFor(v.geo, ino.size) <= v.geo.MaxBlocks()
    modifies v, v.groups, v.blockUsed, v.data
    ensures v.Valid() && v.Tracked()
    ensures Touches({n}, old(v.data[..]), old(v.owner), v.data[..], v.owner)
    ensures Holds(v.geo, v.data[..], v.owner, n, ino'.block) && Holds(v.geo, v.data[..], v.owner, n, disk)
    ensures ok ==> Wrote(v.geo, old(v.data[..]), ino.block, v.data[..], ino'.block, ino.size, at, s)
    ensures Wrote(v.geo, old(v.data[..]), disk, v.data[..], disk, ino.size, at, s)
            || SameContent(v.geo, old(v.data[..]), disk, v.data[..], disk)
    ensures IdAt(v.geo, old(v.data[..]), ino.block, at / v.geo.blockSize) != 0 ==>
              ok && SameIds(v.geo, old(v.data[..]), ino.block, v.data[..], ino'.block)
    ensures Tidy(v.geo, old(v.data[..]), old(v.owner), n, ino.block, 0) ==> Tidy(v.geo, v.data[..], v.owner, n, ino'.block, 0)
    ensures ino' == ino.(block := ino'.block, blocks := ino'.blocks)
    ensures ChunkMaps(v.geo, old(v.data[..]), ino.block, old(v.freeBlocks), at / v.geo.blockSize, ok,
                      v.data[..], ino'.block, v.freeBlocks)
    ensures ok && CountOk(v.geo, old(v.data[..]), ino) ==> CountOk(v.geo, v.data[..], ino')
    ensures DirCounts(v.groups[..]) == old(DirCounts(v.groups[..]))
  {
    hide Geometry.GroupsCover, BlockCountersAgree, InodeCountersAgree, Tidy, Wrote, Content, IdAt, BlocksFor, SectorCount, DirCounts;
    ghost var d0, o0 := v.data[..], v.owner;
    var j, off, diskBlock := at / v.geo.blockSize, at % v.geo.blockSize, 0;
    SplitOrder(v.geo, at, ino.size);
    ok, ino', diskBlock := EnsureFileBlock(v, n, disk, ino, j);
    if !ok {
      if Tidy(v.geo, d0, o0, n, ino.block, 0) {
        TidySameIds(v.geo, d0, v.data[..], v.owner, n, ino.block);
      }
      return;
    }
    ghost var d1 := v.data[..];
    ghost var block := Splice(d1[diskBlock], off, s);
    ChunkEffect(v.geo, n, d0, ino.block, d1, v.owner, ino'.block, diskBlock, at, s, ino.size);
    ChunkEffect(v.geo, n, d0, disk, d1, v.owner, disk, diskBlock, at, s, ino.size);
    v.data[diskBlock] := Splice(v.data[diskBlock], off, s);
    assert v.data[..] == d1[diskBlock := block];
    SameSectors(v.geo, d1, ino'.block, v.data[..], ino'.block);
    if Tidy(v.geo, d1, v.owner, n, ino'.block, 0) {
      TidySameIds(v.geo, d1, v.data[..], v.owner, n, ino'.block);
    }
  }

  /** The free blocks it takes to write the range: its holes, and a first indirect block if it reaches there. */
  function RangeNeeds(g: Geometry, data: seq<Block>, m: BlockMap, offset: nat, len: nat): nat
    requires g.blockSize > 0
  {
    if len == 0 then 0 else GrowthNeeds(g, data, m, offset / g.blockSize, BlocksFor(g, offset + len))
  }

  /** The first file block not yet written to when `written` bytes are. */
  function NextBlock(g: Geometry, offset: nat, written: nat): nat
    requires g.blockSize > 0
  {
    if written == 0 then offset / g.blockSize else BlocksFor(g, offset + written)
  }

  /** The block map when `written` of `len` bytes are written: the holes up to there are filled. */
  ghost predicate RangeGrown(g: Geometry, d0: seq<Block>, m0: BlockMap, free0: nat, offset: nat, written: nat, len: nat,
                             d1: seq<Block>, m1: BlockMap, free1: nat)
    requires g.blockSize > 0
  {
    && Extended(g, d0, m0, free0, offset / g.blockSize, NextBlock(g, offset, written), d1, m1, free1)
    && offset / g.blockSize <= NextBlock(g, offset, written)
    && (written < len ==> NextBlock(g, offset, written) == (offset + written) / g.blockSize)
  }

  lemma RangeStarts(g: Geometry, data: seq<Block>, m: BlockMap, free: nat, offset: nat)
    requires g.blockSize > 0
    ensures forall len: nat :: RangeGrown(g, data, m, free, offset, 0, len, data, m, free)
  {
    NothingGrown(g, data, m, offset / g.blockSize);
  }

  /** The next chunk ends in the block it starts in, at its end or at the end of the range. */
  lemma NextChunk(g: Geometry, offset: nat, written: nat, len: nat, chunk: nat, size: nat)
    requires g.SizeOk() && written < len && offset + len <= size && BlocksFor(g, size) <= g.MaxBlocks()
    requires chunk == Min(g.blockSize - (offset + written) % g.blockSize, len - written)
    ensures 0 < chunk && BlocksFor(g, offset + written + chunk) == (offset + written) / g.blockSize + 1
    ensures (offset + written) / g.blockSize < g.MaxBlocks()
    ensures written + chunk < len ==> (offset + written + chunk) / g.blockSize == (offset + written) / g.blockSize + 1
    ensures offset / g.blockSize <= (offset + written) / g.blockSize < BlocksFor(g, offset + len) <= BlocksFor(g, size)
  {
    var at := offset + written;
    Split(g, at);
    SplitOrder(g, at, size);
    if written > 0 { SplitOrder(g, offset, at); }
    SplitOrder(g, at, offset + len);
    if offset + len < size { SplitOrder(g, offset + len, size); }
    ChunkEnd(g, at / g.blockSize, at % g.blockSize, chunk);
  }

  lemma ChunkEnd(g: Geometry, q: nat, r: nat, chunk: nat)
    requires g.SizeOk() && r < g.blockSize && 0 < chunk <= g.blockSize - r
    ensures var end := q * g.blockSize + r + chunk;
            && BlocksFor(g, end) == q + 1 && (chunk == g.blockSize - r ==> end / g.blockSize == q + 1)
  {
  }

  lemma RangeStep(g: Geometry, d0: seq<Block>, m0: BlockMap, free0: nat, offset: nat, written: nat, len: nat, chunk: nat,
                  d1: seq<Block>, m1: BlockMap, free1: nat, ok: bool, d2: seq<Block>, m2: BlockMap, free2: nat, size: nat)
    requires g.SizeOk() && written < len && offset + len <= size && BlocksFor(g, size) <= g.MaxBlocks()
    requires chunk == Min(g.blockSize - (offset + written) % g.blockSize, len - written)
    requires RangeGrown(g, d0, m0, free0, offset, written, len, d1, m1, free1)
    requires ChunkMaps(g, d1, m1, free1, (offset + written) / g.blockSize, ok, d2, m2, free2)
    ensures ok ==> RangeGrown(g, d0, m0, free0, offset, written + chunk, len, d2, m2, free2)
    ensures !ok ==>
              && free0 < RangeNeeds(g, d0, m0, offset, len)
              && Stopped(g, d0, m0, free0, offset / g.blockSize, BlocksFor(g, offset + len), (offset + written) / g.blockSize,
                         d2, m2, free2)
  {
    NextChunk(g, offset, written, len, chunk, size);
    var lo, i, hi := offset / g.blockSize, (offset + written) / g.blockSize, BlocksFor(g, offset + len);
    hide BlocksFor, Geometry.SizeOk, IdAt, Geometry.MaxBlocks, Geometry.Entries;
    if ok {
      GrownStep(g, d0, m0, lo, i, d1, m1, d2, m2, IdAt(g, d2, m2, i));
    } else {
      NeedsMore(g, d0, m0, lo, i, hi, d1, m1);
      StillGrown(g, d0, m0, lo, i, d1, m1, d2);
    }
  }

  /** A dense file has no holes to fill. */
  lemma DenseNeeds(g: Geometry, data: seq<Block>, m: BlockMap, offset: nat, len: nat, size: nat)
    requires g.SizeOk() && Dense(g, data, m, size) && offset + len <= size && BlocksFor(g, size) <= g.MaxBlocks()
    ensures RangeNeeds(g, data, m, offset, len) == 0
  {
    if len > 0 {
      var lo, hi := offset / g.blockSize, BlocksFor(g, offset + len);
      if offset + len < size { SplitOrder(g, offset + len, size); }
      HolesExist(g, data, m, lo, hi);
      if DIRECT_BLOCKS < hi { assert IdAt(g, data, m, DIRECT_BLOCKS) != 0; }
      hide BlocksFor;
    }
  }

  lemma DenseRange(g: Geometry, d0: seq<Block>, m0: BlockMap, free0: nat, offset: nat, len: nat,
                   d1: seq<Block>, m1: BlockMap, free1: nat, size: nat)
    requires g.SizeOk() && Dense(g, d0, m0, size) && offset + len <= size && BlocksFor(g, size) <= g.MaxBlocks()
    requires RangeGrown(g, d0, m0, free0, offset, len, len, d1, m1, free1)
    ensures SameIds(g, d0, m0, d1, m1)
  {
    var lo, hi := offset / g.blockSize, NextBlock(g, offset, len);
    if len > 0 && offset + len < size { SplitOrder(g, offset + len, size); }
    hide BlocksFor, Geometry.SizeOk;
  }

  lemma RangeDone(g: Geometry, d0: seq<Block>, m0: BlockMap, free0: nat, offset: nat, len: nat,
                  d1: seq<Block>, m1: BlockMap, free1: nat)
    requires g.blockSize > 0 && RangeGrown(g, d0, m0, free0, offset, len, len, d1, m1, free1)
    ensures free0 >= RangeNeeds(g, d0, m0, offset, len)
  {
  }

  /** The copying loop of a write: the range lies inside the file already. */
  method WriteRange(v: Volume, n: nat, ghost disk: BlockMap, ino: Inode, buf: Block, offset: nat)
    returns (ok: bool, ino': Inode)
    requires v.Valid() && v.Tracked() && offset + |buf| <= ino.size && BlocksFor(v.geo, ino.size) <= v.geo.MaxBlocks()
    requires Holds(v.geo, v.data[..], v.owner, n, ino.block) && Holds(v.geo, v.data[..], v.owner, n, disk)
    modifies v, v.groups, v.blockUsed, v.data
    ensures v.Valid() && v.Tracked()
    ensures Touches({n}, old(v.data[..]), old(v.owner), v.data[..], v.owner)
    ensures Holds(v.geo, v.data[..], v.owner, n, ino'.block) && Holds(v.geo, v.data[..], v.owner, n, disk)
    ensures ok ==> Wrote(v.geo, old(v.data[..]), ino.block, v.data[..], ino'.block, ino.size, offset, buf)
    ensures PartlyWrote(v.geo, old(v.data[..]), disk, v.data[..], disk, ino.size, offset, buf)
    ensures Dense(v.geo, old(v.data[..]), ino.block, ino.size) ==>
              ok && SameIds(v.geo, old(v.data[..]), ino.block, v.data[..], ino'.block)
    ensures Tidy(v.geo, old(v.data[..]), old(v.owner), n, ino.block, 0) ==> Tidy(v.geo, v.data[..], v.owner, n, ino'.block, 0)
    ensures ok <==> old(v.freeBlocks) >= RangeNeeds(v.geo, old(v.data[..]), ino.block, offset, |buf|)
    ensures !ok && disk == ino.block && Tidy(v.geo, old(v.data[..]), old(v.owner), n, disk, 0) ==>
              (Tidy(v.geo, v.data[..], v.owner, n, disk, 0) <==>
               !LosesBlocks(v.geo, old(v.data[..]), disk, old(v.freeBlocks), offset / v.geo.blockSize, BlocksFor(v.geo, offset + |buf|)))
    ensures ino' == ino.(block := ino'.block, blocks := ino'.blocks)
    ensures ok && CountOk(v.geo, old(v.data[..]), ino) ==> CountOk(v.geo, v.data[..], ino')
    ensures !ok && disk == ino.block ==>
              (SectorCount(v.geo, v.data[..], disk) == SectorCount(v.geo, old(v.data[..]), disk) <==>
               !Miscounts(v.geo, old(v.data[..]), disk, old(v.freeBlocks), offset / v.geo.blockSize, BlocksFor(v.geo, offset + |buf|)))
    ensures DirCounts(v.groups[..]) == old(DirCounts(v.groups[..]))
  {
    hide Geometry.GroupsCover, BlockCountersAgree, InodeCountersAgree, Tidy, Touches, IdAt, Content, Wrote, PartlyWrote, Shaped, OwnerBits, FileByte, BlocksFor, ChunkMaps, RangeGrown, Dense, LosesBlocks,
      RangeNeeds, Stopped, CountOk, SectorCount, Miscounts, DirCounts;
    ghost var d0, o0 := v.data[..], v.owner;
    var written := 0;
    ok, ino' := true, ino;
    TouchesNothing({n}, d0, o0);
    if Dense(v.geo, d0, ino.block, ino.size) {
      DenseNeeds(v.geo, d0, ino.block, offset, |buf|, ino.size);
    }
    WroteNothing(v.geo, d0, ino.block, ino.size, offset);
    WroteNothing(v.geo, d0, disk, ino.size, offset);
    RangeStarts(v.geo, d0, ino.block, v.freeBlocks, offset);
    while written < |buf|
      invariant written <= |buf| && ok
      invariant v.Valid() && v.Tracked() && DirCounts(v.groups[..]) == old(DirCounts(v.groups[..]))
      invariant Touches({n}, d0, o0, v.data[..], v.owner)
      invariant Holds(v.geo, v.data[..], v.owner, n, ino'.block) && Holds(v.geo, v.data[..], v.owner, n, disk)
      invariant Wrote(v.geo, d0, ino.block, v.data[..], ino'.block, ino.size, offset, buf[..written])
      invariant PartlyWrote(v.geo, d0, disk, v.data[..], disk, ino.size, offset, buf[..written])
      invariant Tidy(v.geo, d0, o0, n, ino.block, 0) ==> Tidy(v.geo, v.data[..], v.owner, n, ino'.block, 0)
      invariant ino' == ino.(block := ino'.block, blocks := ino'.blocks)
      invariant RangeGrown(v.geo, d0, ino.block, old(v.freeBlocks), offset, written, |buf|, v.data[..], ino'.block, v.freeBlocks)
      invariant CountOk(v.geo, d0, ino) ==> CountOk(v.geo, v.data[..], ino')
    {
      SplitOrder(v.geo, offset + written, ino.size);
      ghost var d1, o1, m1, free1 := v.data[..], v.owner, ino'.block, v.freeBlocks;
      var chunk := Min(v.geo.blockSize - (offset + written) % v.geo.blockSize, |buf| - written);
      ok, ino' := WriteChunk(v, n, disk, ino', offset + written, buf[written..written + chunk]);
      TouchesTransitive({n}, d0, o0, d1, o1, v.data[..], v.owner);
      assert buf[..written] + buf[written..written + chunk] == buf[..written + chunk];
      PartlyWroteStep(v.geo, d0, disk, d1, disk, v.data[..], disk, ino.size, offset, buf[..written], buf[written..written + chunk]);
      RangeStep(v.geo, d0, ino.block, old(v.freeBlocks), offset, written, |buf|, chunk, d1, m1, free1, ok, v.data[..], ino'.block,
                v.freeBlocks, ino.size);
      if !ok {
        if disk == ino.block && Tidy(v.geo, d0, o0, n, disk, 0) {
          StoppedTidy(v.geo, n, d0, disk, old(v.freeBlocks), offset / v.geo.blockSize, BlocksFor(v.geo, offset + |buf|),
                      (offset + written) / v.geo.blockSize, v.data[..], v.owner, ino'.block, v.freeBlocks);
        }
        if disk == ino.block {
          StoppedCount(v.geo, d0, disk, old(v.freeBlocks), offset / v.geo.blockSize, BlocksFor(v.geo, offset + |buf|),
                       (offset + written) / v.geo.blockSize, v.data[..], ino'.block, v.freeBlocks);
        }
        PartlyWroteMore(v.geo, d0, disk, v.data[..], disk, ino.size, offset, buf[..written + chunk], buf);
        return;
      }
      WroteMore(v.geo, d0, ino.block, d1, m1, v.data[..], ino'.block, ino.size, offset, buf[..written], buf[written..written + chunk]);
      written := written + chunk;
    }
    assert buf[..written] == buf;
    RangeDone(v.geo, d0, ino.block, old(v.freeBlocks), offset, |buf|, v.data[..], ino'.block, v.freeBlocks);
    if Dense(v.geo, d0, ino.block, ino.size) {
      DenseRange(v.geo, d0, ino.block, old(v.freeBlocks), offset, |buf|, v.data[..], ino'.block, v.freeBlocks, ino.size);
    }
  }

  const ERR_FAULT: int := -2
  const ERR_INVAL: int := -3

  function Larger(a: nat, b: nat): nat { if a < b then b else a }

  /** A write finds the blocks it needs: for its holes, for its growth, and for a first indirect block. */
  predicate WriteFits(g: Geometry, data: seq<Block>, ino: Inode, free: nat, offset: nat, len: nat)
    requires g.blockSize > 0
  {
    (offset + len > ino.size ==> BlocksFor(g, offset + len) <= g.MaxBlocks()) && free >= RangeNeeds(g, data, ino.block, offset, len)
  }

  /** A failed write loses blocks when its growth does, or when it grew and the holes before the old end lose some. */
  predicate WriteLoses(g: Geometry, data: seq<Block>, ino: Inode, free: nat, offset: nat, len: nat)
    requires g.blockSize > 0
  {
    var end := offset + len;
    if end > ino.size && !Fits(g, data, ino, free, end) then GrowLoses(g, data, ino, free, end)
    else
      var left := if end > ino.size then free - GrowthNeeds(g, data, ino.block, BlocksFor(g, ino.size), BlocksFor(g, end)) else free;
      HolesLose(g, data, ino.block, left, offset / g.blockSize, BlocksFor(g, end), BlocksFor(g, ino.size))
  }

  /** And it leaves the inode with a wrong count when its growth does, or when it filled entries of an indirect block that
      is on disk, be it since the growth. */
  predicate WriteMiscounts(g: Geometry, data: seq<Block>, ino: Inode, free: nat, offset: nat, len: nat)
    requires g.blockSize > 0
  {
    var end := offset + len;
    if end > ino.size && !Fits(g, data, ino, free, end) then GrowMiscounts(g, data, ino, free, end)
    else
      var left := if end > ino.size then free - GrowthNeeds(g, data, ino.block, BlocksFor(g, ino.size), BlocksFor(g, end)) else free;
      HolesMiscount(g, data, ino.block, left, offset / g.blockSize, BlocksFor(g, end), BlocksFor(g, ino.size))
  }

  predicate HolesMiscount(g: Geometry, data: seq<Block>, m: BlockMap, left: int, lo: nat, hi: nat, before: nat) {
    (m[12] != 0 || (DIRECT_BLOCKS < hi && before < hi)) && left > HolesIn(g, data, m, lo, Min(Min(hi, DIRECT_BLOCKS), before))
  }

  /** For example: a file of fourteen blocks with an indirect block, whose last three are holes: with two blocks free for
      three, one entry is filled that the inode on disk does not count. */
  lemma WriteMiscountsHere(g: Geometry, data: seq<Block>, ino: Inode)
    requires g.SizeOk() && ino.size == 14 * g.blockSize && ino.block[12] != 0 && ino.block[11] == 0
    requires IdAt(g, data, ino.block, 12) == 0 && IdAt(g, data, ino.block, 13) == 0
    ensures !WriteFits(g, data, ino, 2, 11 * g.blockSize, 3 * g.blockSize)
    ensures WriteMiscounts(g, data, ino, 2, 11 * g.blockSize, 3 * g.blockSize)
  {
    var m := ino.block;
    BlockMultiple(g, 11);
    BlockMultiple(g, 14);
    hide BlocksFor;
    assert HolesIn(g, data, m, 11, 12) == 1 && HolesIn(g, data, m, 11, 13) == 2 && HolesIn(g, data, m, 11, 14) == 3 by {
      assert HolesIn(g, data, m, 11, 11) == 0;
    }
  }

  lemma BlockMultiple(g: Geometry, k: nat)
    requires g.SizeOk()
    ensures BlocksFor(g, k * g.blockSize) == k && k * g.blockSize / g.blockSize == k
  {
  }

  /** Filling the holes from `lo` up to `hi` fails with `left` free blocks, the file having had `before` blocks. */
  predicate HolesLose(g: Geometry, data: seq<Block>, m: BlockMap, left: int, lo: nat, hi: nat, before: nat) {
    if HolesIn(g, data, m, lo, Min(Min(hi, DIRECT_BLOCKS), before)) > 0 then left > 0
    else m[12] == 0 && (hi <= DIRECT_BLOCKS || hi <= before) && left >= 2
  }

  /** For example: a file of two blocks, both of them holes, overwritten when one block is free. */
  lemma WriteLosesHere(g: Geometry, data: seq<Block>, mode: nat)
    requires g.SizeOk()
    ensures var ino := Inode(mode, 2 * g.blockSize, 1, 0, EMPTY_INODE.block);
            !WriteFits(g, data, ino, 1, 0, 2 * g.blockSize) && WriteLoses(g, data, ino, 1, 0, 2 * g.blockSize)
  {
    var ino := Inode(mode, 2 * g.blockSize, 1, 0, EMPTY_INODE.block);
    assert BlocksFor(g, 2 * g.blockSize) == 2;
    assert HolesIn(g, data, ino.block, 0, 1) == 1 && HolesIn(g, data, ino.block, 0, 2) == 2;
  }

  /** After the growth to `hi` blocks the only holes left are the before ones. */
  lemma HolesLeft(g: Geometry, d0: seq<Block>, m0: BlockMap, d1: seq<Block>, m1: BlockMap, lo: nat, before: nat, hi: nat, k: nat)
    requires lo <= before <= hi <= g.MaxBlocks() && Grown(g, d0, m0, before, hi, d1, m1) && lo <= k <= hi
    ensures HolesIn(g, d1, m1, lo, k) == HolesIn(g, d0, m0, lo, Min(k, before))
  {
    var cut := Min(k, before);
    HolesSplit(g, d1, m1, lo, cut, k);
    HolesSame(g, d0, m0, d1, m1, lo, cut);
    HolesExist(g, d1, m1, cut, k);
  }

  /** What the write loop needs after the growth, and what it loses, in terms of the file before it. */
  lemma AfterGrowth(g: Geometry, d0: seq<Block>, ino: Inode, free0: nat, d1: seq<Block>, m1: BlockMap, free1: nat,
                    offset: nat, len: nat)
    requires g.SizeOk() && offset <= ino.size < offset + len && BlocksFor(g, offset + len) <= g.MaxBlocks()
    requires Extended(g, d0, ino.block, free0, BlocksFor(g, ino.size), BlocksFor(g, offset + len), d1, m1, free1)
    ensures free1 >= RangeNeeds(g, d1, m1, offset, len) <==> free0 >= RangeNeeds(g, d0, ino.block, offset, len)
    ensures LosesBlocks(g, d1, m1, free1, offset / g.blockSize, BlocksFor(g, offset + len)) <==>
            WriteLoses(g, d0, ino, free0, offset, len)
    ensures Miscounts(g, d1, m1, free1, offset / g.blockSize, BlocksFor(g, offset + len)) <==>
            WriteMiscounts(g, d0, ino, free0, offset, len)
    ensures Fits(g, d0, ino, free0, offset + len)
  {
    var lo, before, hi := offset / g.blockSize, BlocksFor(g, ino.size), BlocksFor(g, offset + len);
    SplitOrder(g, ino.size, offset + len);
    SplitOrder(g, offset, offset + len);
    Split(g, offset);
    if offset < ino.size { SplitOrder(g, offset, ino.size); }
    hide BlocksFor, Geometry.SizeOk, Geometry.MaxBlocks;
    NeedsLeft(g, d0, ino.block, free0, d1, m1, free1, lo, before, hi);
    LossLeft(g, d0, ino.block, free0, d1, m1, free1, lo, before, hi);
    hide Extended, HolesLose, LosesBlocks, GrowthNeeds, Miscounts, HolesMiscount;
  }

  lemma NeedsLeft(g: Geometry, d0: seq<Block>, m0: BlockMap, free0: nat, d1: seq<Block>, m1: BlockMap, free1: nat,
                  lo: nat, before: nat, hi: nat)
    requires lo <= before <= hi <= g.MaxBlocks() && lo < hi && Extended(g, d0, m0, free0, before, hi, d1, m1, free1)
    ensures free1 >= GrowthNeeds(g, d1, m1, lo, hi) <==> free0 >= GrowthNeeds(g, d0, m0, lo, hi)
    ensures free1 == free0 - GrowthNeeds(g, d0, m0, before, hi)
  {
    HolesLeft(g, d0, m0, d1, m1, lo, before, hi, hi);
    HolesSplit(g, d0, m0, lo, before, hi);
    hide IdAt;
  }

  lemma LossLeft(g: Geometry, d0: seq<Block>, m0: BlockMap, free0: nat, d1: seq<Block>, m1: BlockMap, free1: nat,
                 lo: nat, before: nat, hi: nat)
    requires lo <= before <= hi <= g.MaxBlocks() && lo < hi && Extended(g, d0, m0, free0, before, hi, d1, m1, free1)
    ensures LosesBlocks(g, d1, m1, free1, lo, hi) <==> HolesLose(g, d0, m0, free1, lo, hi, before)
    ensures Miscounts(g, d1, m1, free1, lo, hi) <==> HolesMiscount(g, d0, m0, free1, lo, hi, before)
  {
    if lo <= DIRECT_BLOCKS { HolesLeft(g, d0, m0, d1, m1, lo, before, hi, Max(lo, Min(hi, DIRECT_BLOCKS))); }
    hide IdAt;
  }

  function Max(a: nat, b: nat): nat { if a < b then b else a }

  lemma GrowthFails(g: Geometry, data: seq<Block>, ino: Inode, free: nat, offset: nat, len: nat)
    requires g.SizeOk() && offset <= ino.size < offset + len && !Fits(g, data, ino, free, offset + len)
    ensures !WriteFits(g, data, ino, free, offset, len)
    ensures WriteLoses(g, data, ino, free, offset, len) <==> GrowLoses(g, data, ino, free, offset + len)
    ensures WriteMiscounts(g, data, ino, free, offset, len) <==> GrowMiscounts(g, data, ino, free, offset + len)
  {
    var lo, before, hi := offset / g.blockSize, BlocksFor(g, ino.size), BlocksFor(g, offset + len);
    SplitOrder(g, ino.size, offset + len);
    Split(g, offset);
    if offset < ino.size { SplitOrder(g, offset, ino.size); }
    hide BlocksFor, Geometry.SizeOk;
    HolesSplit(g, data, ino.block, lo, before, hi);
    hide GrowLoses, GrowMiscounts, IdAt;
  }

  lemma WriteCases(g: Geometry, data: seq<Block>, ino: Inode, free: nat, offset: nat, len: nat)
    requires g.SizeOk() && offset <= ino.size
    ensures offset + len <= ino.size ==>
              && (WriteFits(g, data, ino, free, offset, len) <==> free >= RangeNeeds(g, data, ino.block, offset, len))
              && (WriteLoses(g, data, ino, free, offset, len) <==>
                  LosesBlocks(g, data, ino.block, free, offset / g.blockSize, BlocksFor(g, offset + len)))
              && (WriteMiscounts(g, data, ino, free, offset, len) <==>
                  Miscounts(g, data, ino.block, free, offset / g.blockSize, BlocksFor(g, offset + len)))
    ensures offset + len > ino.size && Fits(g, data, ino, free, offset + len) ==>
              (WriteFits(g, data, ino, free, offset, len) <==> free >= RangeNeeds(g, data, ino.block, offset, len))
  {
    if offset + len < ino.size { SplitOrder(g, offset + len, ino.size); }
    hide BlocksFor, IdAt, RangeNeeds;
  }

  /** ext2_write_file between the path lookup and the writeback. */
  method WriteAt(v: Volume, n: nat, ino: Inode, buf: Block, offset: nat) returns (r: int)
    requires v.Sound() && v.Live(n) && ino == v.inodes[n] && offset < TWO_64 && |buf| < TWO_64
    modifies v, v.groups, v.blockUsed, v.inodes, v.data
    ensures v.Sound() && OthersSame(v.geo, old(v.Now()), v.Now(), {n})
    ensures r == |buf| || r == ERR_INVAL || r == ERR_FAULT
    ensures r == ERR_INVAL <==> offset > ino.size || offset + |buf| >= TWO_64
    ensures r == ERR_INVAL ==> v.Now() == old(v.Now()) && v.owner == old(v.owner)
    ensures v.inodes[n].mode == ino.mode && v.inodes[n].links == ino.links
    ensures r >= 0 ==> v.BytesOf(n) == Overwritten(old(v.BytesOf(n)), offset, buf)
    ensures r >= 0 && NothingLost(v.geo, old(v.Now()), old(v.owner)) ==> NothingLost(v.geo, v.Now(), v.owner)
    ensures r != ERR_INVAL ==> (r >= 0 <==> WriteFits(v.geo, old(v.data[..]), ino, old(v.freeBlocks), offset, |buf|))
    ensures r == ERR_FAULT && NothingLost(v.geo, old(v.Now()), old(v.owner)) ==>
              (NothingLost(v.geo, v.Now(), v.owner) <==>
               !WriteLoses(v.geo, old(v.data[..]), ino, old(v.freeBlocks), offset, |buf|))
    ensures Counted(v.geo, old(v.Now())) ==>
              (Counted(v.geo, v.Now()) <==>
               r != ERR_FAULT || !WriteMiscounts(v.geo, old(v.data[..]), ino, old(v.freeBlocks), offset, |buf|))
    ensures r == ERR_FAULT ==>
              || v.BytesOf(n) == old(v.BytesOf(n))
              || OldOrNew(Resized(old(v.BytesOf(n)), Larger(ino.size, offset + |buf|)), offset, buf, v.BytesOf(n))
    ensures r != ERR_INVAL && Dense(v.geo, old(v.data[..]), ino.block, ino.size) ==>
              (r >= 0 <==> offset + |buf| <= ino.size
                           || Fits(v.geo, old(v.data[..]), ino, old(v.freeBlocks), offset + |buf|))
    ensures r >= 0 && Dense(v.geo, old(v.data[..]), ino.block, ino.size) ==>
              Dense(v.geo, v.data[..], v.inodes[n].block, v.inodes[n].size)
    ensures DirCounts(v.groups[..]) == old(DirCounts(v.groups[..]))
  {
    hide Geometry.GroupsCover, BlockCountersAgree, InodeCountersAgree, Tidy, Touches, IdAt, Content, FileByte, BlocksFor,
      Holds, ZeroBeyond, Overwritten, Fits, OwnerBits, Wrote, PartlyWrote, KeptIds, Dense, OldOrNew, NothingLost,
      WriteFits, WriteLoses, RangeNeeds, LosesBlocks, GrowLoses, Extended, GrowthNeeds, Counted, WriteMiscounts, GrowMiscounts,
      Miscounts, SectorCount, DirCounts;
    if offset > ino.size || offset + |buf| >= TWO_64 {
      return ERR_INVAL;
    }
    var end, file, ok := offset + |buf|, ino, true;
    if end > ino.size {
      ok, file := ResizeInodeData(v, n, ino, end);
      if !ok {
        GrowthFails(v.geo, old(v.data[..]), ino, old(v.freeBlocks), offset, |buf|);
        return ERR_FAULT;
      }
      assert FileOk(v.geo, v.data[..], v.owner, n, file.block, file.size);
      AfterGrowth(v.geo, old(v.data[..]), ino, old(v.freeBlocks), v.data[..], file.block, v.freeBlocks, offset, |buf|);
    }
    WriteCases(v.geo, old(v.data[..]), ino, old(v.freeBlocks), offset, |buf|);
    ghost var c, mid := v.Now(), v.BytesOf(n);
    assert mid == Resized(old(v.BytesOf(n)), Larger(ino.size, end));
    r := WriteBack(v, n, file, buf, offset);
    if r >= 0 {
      WrittenBytes(v.geo, old(v.BytesOf(n)), c.data, file.block, v.data[..], v.inodes[n].block, file.size, offset, buf);
    }
    OthersSameTransitive(v.geo, old(v.Now()), c, v.Now(), {n});
  }

  /** The loop and the final write_inode of ext2_write_file. */
  method WriteBack(v: Volume, n: nat, ino: Inode, buf: Block, offset: nat) returns (r: int)
    requires v.Sound() && v.Live(n) && ino == v.inodes[n] && offset + |buf| <= ino.size
    modifies v, v.groups, v.blockUsed, v.inodes, v.data
    ensures v.Sound() && OthersSame(v.geo, old(v.Now()), v.Now(), {n})
    ensures r == |buf| || r == ERR_FAULT
    ensures v.inodes[n] == ino.(block := v.inodes[n].block, blocks := v.inodes[n].blocks)
    ensures r >= 0 ==> Wrote(v.geo, old(v.data[..]), ino.block, v.data[..], v.inodes[n].block, ino.size, offset, buf)
    ensures r >= 0 && NothingLost(v.geo, old(v.Now()), old(v.owner)) ==> NothingLost(v.geo, v.Now(), v.owner)
    ensures r < 0 ==> OldOrNew(old(v.BytesOf(n)), offset, buf, v.BytesOf(n))
    ensures r >= 0 <==> old(v.freeBlocks) >= RangeNeeds(v.geo, old(v.data[..]), ino.block, offset, |buf|)
    ensures r < 0 && NothingLost(v.geo, old(v.Now()), old(v.owner)) ==>
              (NothingLost(v.geo, v.Now(), v.owner) <==>
               !LosesBlocks(v.geo, old(v.data[..]), ino.block, old(v.freeBlocks), offset / v.geo.blockSize,
                            BlocksFor(v.geo, offset + |buf|)))
    ensures Counted(v.geo, old(v.Now())) ==>
              (Counted(v.geo, v.Now()) <==>
               r >= 0 || !Miscounts(v.geo, old(v.data[..]), ino.block, old(v.freeBlocks), offset / v.geo.blockSize,
                                    BlocksFor(v.geo, offset + |buf|)))
    ensures Dense(v.geo, old(v.data[..]), ino.block, ino.size) ==> r >= 0 && Dense(v.geo, v.data[..], v.inodes[n].block, ino.size)
    ensures DirCounts(v.groups[..]) == old(DirCounts(v.groups[..]))
  {
    hide Geometry.GroupsCover, BlockCountersAgree, InodeCountersAgree, Tidy, Touches, IdAt, Content, FileByte, BlocksFor,
      FileBytes, Holds, OwnerBits, NothingLost, RangeNeeds, LosesBlocks, SectorCount, Miscounts, Counted, DirCounts;
    ghost var c, owner := v.Now(), v.owner;
    assert FileOk(v.geo, c.data, owner, n, ino.block, ino.size);
    var ok, file := WriteRange(v, n, ino.block, ino, buf, offset);
    if !ok {
      PartlyWrittenBytes(v.geo, c.data, ino.block, v.data[..], ino.block, ino.size, offset, buf);
      Written(v.geo, c, owner, v.Now(), v.owner, n, {n});
      if NothingLost(v.geo, c, owner) {
        TidyInode(v.geo, c, owner, n);
        StillLost(v.geo, c, owner, v.Now(), v.owner, n, {n});
      }
      if Counted(v.geo, c) { CountedHere(v.geo, c, v.Now(), n); }
      return ERR_FAULT;
    }
    WroteSound(v.geo, c.data, ino.block, v.data[..], file.block, ino.size, offset, buf);
    ok := v.WriteInode(n, file);
    Written(v.geo, c, owner, v.Now(), v.owner, n, {n});
    if NothingLost(v.geo, c, owner) {
      TidyInode(v.geo, c, owner, n);
      StillNothingLost(v.geo, c, owner, v.Now(), v.owner, n, {n});
    }
    if Counted(v.geo, c) {
      CountOfInode(v.geo, c, n);
      CountedAt(v.geo, c, v.Now(), n);
    }
    return |buf|;
  }

  lemma CountOfInode(g: Geometry, c: Image, n: nat)
    requires |c.live| == |c.inodes| && Counted(g, c) && 1 <= n < |c.live| && c.live[n]
    ensures CountOk(g, c.data, c.inodes[n])
  {
  }

  lemma WroteSound(g: Geometry, d0: seq<Block>, m0: BlockMap, d1: seq<Block>, m1: BlockMap, size: nat, at: nat, s: Block)
    requires g.blockSize > 0 && Wrote(g, d0, m0, d1, m1, size, at, s) && BlocksFor(g, size) <= g.MaxBlocks()
    ensures ZeroBeyond(g, d0, m0, size) ==> ZeroBeyond(g, d1, m1, size)
    ensures Dense(g, d0, m0, size) && SameIds(g, d0, m0, d1, m1) ==> Dense(g, d1, m1, size)
  {
    hide IdAt, Content, BlocksFor, FileByte;
  }
}
