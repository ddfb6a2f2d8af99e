/** Runs of several operations that end where they started. */
module Ext2Runs {
  import opened Bytes
  import opened Paths
  import opened Ext2Layout
  import opened Ext2Files
  import opened Ext2Bytes
  import opened Ext2Volume
  import opened Ext2Inodes
  import opened Ext2Resize
  import opened Ext2FileOps
  import opened Ext2Accounts
  import opened Ext2DirBlocks
  import opened Ext2DirScan
  import opened Ext2DirMap
  import opened Ext2DirOps
  import opened Ext2Tree
  import opened Ext2Namespace
  import opened Ext2Create
  import opened Ext2Mkdir
  import opened Ext2Remove
  import N = Namespace

  lemma MoreBytesMoreBlocks(g: Geometry, a: nat, b: nat)
    requires g.SizeOk() && a <= b
    ensures BlocksFor(g, a) <= BlocksFor(g, b)
  {
    if a < b { SplitOrder(g, a, b); }
  }

  lemma MetaStays(who: set<nat>, d0: seq<Block>, o0: seq<Owner>, d1: seq<Block>, o1: seq<Owner>)
    requires Touches(who, d0, o0, d1, o1)
    ensures |o1| == |o0| && forall i :: 0 <= i < |o0| ==> (o1[i].Meta? <==> o0[i].Meta?)
  {
  }

  lemma ShrinkFits(g: Geometry, data: seq<Block>, ino: Inode, free: nat, size: nat)
    requires g.SizeOk() && size <= ino.size && BlocksFor(g, ino.size) <= g.MaxBlocks()
    ensures Fits(g, data, ino, free, size)
  {
    MoreBytesMoreBlocks(g, size, ino.size);
  }

  /** A dense file grown and truncated back: bytes, bitmap, every free counter and the sector count are as before. */
  method GrowAndTruncate(v: Volume, n: nat, grown: nat) returns (ok: bool)
    requires v.Sound() && v.Live(n) && NothingLost(v.geo, v.Now(), v.owner) && v.inodes[n].size <= grown
    requires Dense(v.geo, v.data[..], v.inodes[n].block, v.inodes[n].size)
    requires Trimmed(v.geo, v.data[..], v.inodes[n].block, v.inodes[n].size)
    modifies v, v.groups, v.blockUsed, v.inodes, v.data
    ensures v.Sound() && (ok <==> Fits(v.geo, old(v.data[..]), old(v.inodes[n]), old(v.freeBlocks), grown))
    ensures v.BytesOf(n) == old(v.BytesOf(n))
    ensures ok ==> v.blockUsed[..] == old(v.blockUsed[..]) && v.freeBlocks == old(v.freeBlocks)
    ensures ok ==> forall k :: 0 <= k < v.groups.Length ==> v.groups[k].freeBlocks == old(v.groups[k].freeBlocks)
    ensures ok ==> v.inodes[n].blocks == SectorCount(v.geo, old(v.data[..]), old(v.inodes[n].block))
  {
    hide Geometry.GroupsCover, BlockCountersAgree, InodeCountersAgree, IdAt, NothingLost, Dense, Trimmed, KeptIds, BlocksFor,
      FileBytes, Fits, SectorCount, SameContent, SameIds, BlockZeroAfter, Extended, GrowLoses, Tidy, OwnerBits, Touches, FilesOk,
      OthersSame;
    ghost var c0, owner0, free0, groups0 := v.Now(), v.owner, v.freeBlocks, v.groups[..];
    var size, file := v.inodes[n].size, v.inodes[n];
    assert FileOk(v.geo, c0.data, owner0, n, file.block, size) by { SoundFile(v.geo, c0, owner0, n); }
    MoreBytesMoreBlocks(v.geo, size, grown);
    ok, file := ResizeInodeData(v, n, file, grown);
    if !ok {
      return;
    }
    ghost var c1, owner1 := v.Now(), v.owner;
    assert FileOk(v.geo, c1.data, owner1, n, file.block, grown) by { SoundFile(v.geo, c1, owner1, n); }
    ShrinkFits(v.geo, v.data[..], file, v.freeBlocks, size);
    ok, file := ResizeInodeData(v, n, file, size);
    ghost var c2, owner2 := v.Now(), v.owner;
    MetaStays(ResizeTouches(v.geo, c0.data, n, c0.inodes[n], grown), c0.data, owner0, c1.data, owner1);
    MetaStays(ResizeTouches(v.geo, c1.data, n, c1.inodes[n], size), c1.data, owner1, c2.data, owner2);
    OthersSameTransitive(v.geo, c0, c1, c2, {n});
    GrowTruncateRestores(v.geo, n, grown, c0, owner0, free0, groups0, c1, c2, owner2, v.freeBlocks, v.groups[..]);
    BytesCount(v.geo, c0.data, c0.inodes[n].block, size);
    BackAndForth(FileBytes(v.geo, c0.data, c0.inodes[n].block, size), size, grown);
  }

  lemma SoundFile(g: Geometry, c: Image, owner: seq<Owner>, n: nat)
    requires g.blockSize > 0 && |c.live| == |c.inodes| && FilesOk(g, c, owner, {}) && 1 <= n < |c.live| && c.live[n]
    ensures FileOk(g, c.data, owner, n, c.inodes[n].block, c.inodes[n].size)
  {
  }

  lemma BytesCount(g: Geometry, data: seq<Block>, m: BlockMap, size: nat)
    requires g.blockSize > 0
    ensures |FileBytes(g, data, m, size)| == size
  {
  }

  lemma BackAndForth(s: Block, size: nat, grown: nat)
    requires |s| == size <= grown
    ensures Resized(Resized(s, grown), size) == s && Resized(s, size) == s
  {
  }

  /** A file created and removed again in a directory of one block: the tree, and with it every path, is as before. */
  method CreateAndUnlink(v: Volume, path: Path, synced: bool) returns (n: nat, r: int, ghost p: nat)
    requires Mounted(v)
    modifies v, v.groups, v.blockUsed, v.inodeUsed, v.inodes, v.data
    ensures v.Sound() && (n != 0 <==> ParentFits(path, PATH_SIZE) && Creatable(v.geo, old(v.Now()), old(v.freeBlocks), path))
    ensures n == 0 ==> Mounted(v) && TreeOf(v.geo, v.Now()) == old(TreeOf(v.geo, v.Now()))
    ensures n != 0 ==> ParentOf(old(TreeOf(v.geo, v.Now())), path) == Some(p) && p <= v.geo.inodesCount
    ensures n != 0 && v.inodes[p].size == v.geo.blockSize ==>
              Mounted(v) && TreeOf(v.geo, v.Now()) == old(TreeOf(v.geo, v.Now()))
    ensures NothingLost(v.geo, old(v.Now()), old(v.owner)) ==> NothingLost(v.geo, v.Now(), v.owner)
  {
    hide Geometry.GroupsCover, BlockCountersAgree, InodeCountersAgree, N.TreeOk, DirsOk, IdAt, NothingLost, TreeOf, DirMap,
      FilesOk, OthersSame, OwnerBits, PathSafe, Creatable;
    ghost var t := TreeOf(v.geo, v.Now());
    p := 0;
    r, n := CreateFile(v, path, synced);
    if n == 0 {
      return;
    }
    ghost var t1, c1 := TreeOf(v.geo, v.Now()), v.Now();
    MakeThenRemove(t, t1, path, n, N.File([]));
    p := ParentOf(t, path).value;
    MadeParent(t, t1, path, n, N.File([]));
    InTreeAt(v.geo, c1, p);
    if v.inodes[p].size == v.geo.blockSize {
      OneBlockPathSafe(v, path, p);
    }
    ghost var q;
    r, q := Unlink(v, path, synced);
  }

  lemma MadeParent(t: N.Tree, t1: N.Tree, path: Path, n: nat, node: N.Node)
    requires Made(t, t1, path, n, node)
    ensures ParentOf(t, path).value in t1 && t1[ParentOf(t, path).value].Dir? && !IsDots(NameOf(path))
  {
  }

  lemma InTreeAt(g: Geometry, c: Image, p: nat)
    requires g.blockSize > 0
    ensures p in TreeOf(g, c) ==> InTree(c, p) && TreeOf(g, c)[p] == NodeAt(g, c, p)
  {
  }

  lemma OneBlockPathSafe(v: Volume, path: Path, p: nat)
    requires Mounted(v) && HasParent(TreeOf(v.geo, v.Now()), path) && ParentOf(TreeOf(v.geo, v.Now()), path).value == p
    requires !IsDots(NameOf(path)) && p <= v.geo.inodesCount && v.inodes[p].size == v.geo.blockSize
    ensures PathSafe(v.geo, v.Now(), path)
  {
    hide N.TreeOk;
    InTreeAt(v.geo, v.Now(), p);
    assert GoodKind(v.geo, v.Now(), p);
    hide DirOk, RemovalSafe;
    OneBlockSafe(DirBlocks(v.geo, v.data[..], v.inodes[p].block, v.inodes[p].size), NameOf(path));
  }
}
