/** A small volume with nothing but a root directory: the assumptions of the other modules can be met, and there is room
    for a file, a directory and their contents. */
module Ext2Example {
  import opened Bytes
  import opened Counting
  import opened Ext2Layout
  import opened Ext2Files
  import opened Ext2Bytes
  import opened Ext2Volume
  import opened Ext2Inodes
  import opened Ext2DirMap
  import opened Ext2DirOps
  import opened Ext2Tree
  import opened Ext2Types
  import opened Ext2DirCounts
  import opened Ext2Create
  import opened Ext2Mkdir
  import N = Namespace

  /** Eight blocks and twelve inodes in one group. */
  ghost predicate Small(g: Geometry) {
    && g.blocksCount == 8 && g.firstDataBlock == 1 && g.blocksPerGroup == 8 && g.groupCount == 1
    && g.inodesCount == 12 && g.inodesPerGroup == 16 && g.firstInode == 11 && g.SizeOk()
  }

  lemma OneGroup(g: Geometry)
    requires g.groupCount == 1
    ensures g.GroupBase(0) == g.firstDataBlock && g.InodeBase(0) == 1
    ensures g.groupCount * g.blocksPerGroup == g.blocksPerGroup && g.groupCount * g.inodesPerGroup == g.inodesPerGroup
  {
    MulLe(0, 0, g.blocksPerGroup);
    MulLe(0, 0, g.inodesPerGroup);
  }

  lemma SmallOk(g: Geometry)
    requires Small(g)
    ensures g.Ok() && g.GroupBase(0) == 1 && g.GroupEnd(0) == 8 && g.InodeBase(0) == 1 && g.InodeEnd(0) == 13
  {
    OneGroup(g);
  }

  /** Two of the flags, from `n` on, are clear. */
  lemma TwoClear(bits: seq<bool>, lo: nat, n: nat)
    requires lo <= n && |bits| == n + 2 && (forall k :: 0 <= k < n ==> bits[k]) && !bits[n] && !bits[n + 1]
    ensures CountClear(bits, lo, n + 2) == 2
  {
    assert AllSet(bits, lo, n);
    CountClearZero(bits, lo, n);
    assert CountClear(bits, lo, n + 1) == 1;
  }

  lemma SmallExists()
    ensures Small(Geometry(1024, 8, 1, 8, 1, 12, 16, 11))
  {
  }

  /** The root directory owns block 5. */
  function RootOwner(): seq<Owner> {
    [Meta, Meta, Meta, Meta, Meta, Data(ROOT_INODE, 0), Free, Free]
  }

  /** Blocks up to 5 and inodes up to 10 are in use, and inode 2 is a directory with nothing but its dots. */
  ghost predicate RootOnly(g: Geometry, c: Image)
    requires g.SizeOk()
  {
    && |c.used| == 8 && (forall k :: 0 <= k < 8 ==> c.used[k] == (k < 6))
    && |c.live| == |c.inodes| == 13 && (forall k :: 0 <= k < 13 ==> c.live[k] == (k < 11))
    && c.inodes[2] == DirInode(g, 5) && (forall i :: 0 <= i < 13 && i != 2 ==> c.inodes[i] == EMPTY_INODE)
    && |c.data| == 8 && c.data[5] == DotBlock(g.blockSize, 2, 2) && forall k :: 0 <= k < 8 ==> |c.data[k]| == g.blockSize
  }

  lemma RootFiles(g: Geometry, c: Image)
    requires g.SizeOk() && RootOnly(g, c)
    ensures FilesOk(g, c, RootOwner(), {})
  {
    var owner := RootOwner();
    assert owner[5] == Data(2, 0);
    NewDirOk(g, c.data, owner, 2, 2, 5);
    DirInodeIds(g, c.data, 5);
    hide FileOk, DirInode, DotBlock, DirSound, DirMap;
    forall n | 1 <= n < 13 && c.live[n] ensures FileOk(g, c.data, owner, n, c.inodes[n].block, c.inodes[n].size) {
      if n != 2 { EmptyFileOk(g, c.data, owner, n, EMPTY_INODE.block); }
    }
  }

  lemma RootNode(g: Geometry, c: Image)
    requires g.SizeOk() && RootOnly(g, c)
    ensures InTree(c, 2) && NodeAt(g, c, 2) == NewDirNode(2, 2) && GoodKind(g, c, 2)
    ensures forall n: nat :: InTree(c, n) ==> n == 2
  {
    hide DirSound, DirMap, DotBlock, FileOk, FileBytes, Geometry.SizeOk, Holds;
    assert RootOwner()[5] == Data(2, 0);
    NewDirOk(g, c.data, RootOwner(), 2, 2, 5);
    DirInodeIds(g, c.data, 5);
    assert IsDir(c.inodes[2]) && !IsFile(c.inodes[2]) && !IsDir(EMPTY_INODE) && !IsFile(EMPTY_INODE);
    hide DirInode, IsDir, IsFile;
  }

  lemma RootTree(g: Geometry, c: Image)
    requires g.SizeOk() && RootOnly(g, c)
    ensures DirsOk(g, c) && N.TreeOk(TreeOf(g, c))
  {
    RootNode(g, c);
    hide RootOnly, InTree, NodeAt, GoodKind, NewDirNode, Geometry.SizeOk, N.TreeOk;
    OneNode(g, c, 2);
    OnlyRoot(TreeOf(g, c));
  }

  lemma OneNode(g: Geometry, c: Image, r: nat)
    requires g.blockSize > 0 && InTree(c, r) && forall n: nat :: InTree(c, n) ==> n == r
    ensures TreeOf(g, c) == map[r := NodeAt(g, c, r)] && (GoodKind(g, c, r) ==> DirsOk(g, c))
  {
    hide NodeAt, InTree, GoodKind;
    Bounded(c);
  }

  lemma OnlyRoot(t: N.Tree)
    requires t == map[2 := NewDirNode(2, 2)]
    ensures N.TreeOk(t)
  {
    assert forall d, x, n :: !N.Lists(t, d, x, n);
  }

  lemma RootTypes(g: Geometry, c: Image)
    requires g.SizeOk() && RootOnly(g, c)
    ensures TypesOk(g, c)
  {
    RootNode(g, c);
    assert RootOwner()[5] == Data(2, 0);
    NewDirAt(g, c, RootOwner(), 2, 2, 5);
    hide RootOnly, InTree, NodeAt, RecordsAt, GoodKind, Geometry.SizeOk, IsDir, Dots, NewDirNode, Typed;
    OneNode(g, c, 2);
    Bounded(c);
    assert AllRecords(g, c) == map[2 := Dots(2, 2)];
    hide AllRecords, TreeOf;
    OnlyRootTyped();
  }

  lemma OnlyRootTyped()
    ensures Typed(map[2 := NewDirNode(2, 2)], map[2 := Dots(2, 2)])
  {
  }

  lemma OneDirectory(g: Geometry, t: N.Tree)
    requires Small(g) && t == map[2 := NewDirNode(2, 2)]
    ensures DirsCounted(g, t, [1])
  {
    hide CountClear, NewDirNode, Geometry.Ok, Geometry.GroupBase, Geometry.GroupEnd, Geometry.InodeBase, Geometry.InodeEnd;
    SmallOk(g);
    RootBits(g, t);
    hide DirBits;
    OnlyTwoClear(DirBits(g, t), 13);
  }

  lemma RootBits(g: Geometry, t: N.Tree)
    requires g.inodesCount == 12 && t == map[2 := NewDirNode(2, 2)]
    ensures |DirBits(g, t)| == 13 && forall k :: 0 <= k < 13 ==> DirBits(g, t)[k] == (k != 2)
  {
  }

  lemma OnlyTwoClear(bits: seq<bool>, hi: nat)
    requires 2 < hi <= |bits| && forall k :: 0 <= k < |bits| ==> bits[k] == (k != 2)
    ensures CountClear(bits, 1, hi) == 1
  {
    CountClearUpdate(bits, 1, hi, 2, true);
    CountClearZero(bits[2 := true], 1, hi);
  }

  lemma RootDirectories(g: Geometry, c: Image)
    requires Small(g) && RootOnly(g, c)
    ensures DirsCounted(g, TreeOf(g, c), [1])
  {
    RootNode(g, c);
    hide RootOnly, InTree, NodeAt, GoodKind, NewDirNode, DirsCounted;
    OneNode(g, c, 2);
    hide TreeOf;
    OneDirectory(g, TreeOf(g, c));
  }

  lemma RootWhole(g: Geometry, c: Image)
    requires g.SizeOk() && RootOnly(g, c)
    ensures NothingLost(g, c, RootOwner())
  {
    hide DirInode, DotBlock, IdAt, Geometry.SizeOk, SectorCount;
    DirInodeIds(g, c.data, 5);
    forall n | 1 <= n < 13 && c.live[n] ensures Tidy(g, c.data, RootOwner(), n, c.inodes[n].block, 0) {
      assert RootOwner()[5] == Data(2, 0);
    }
    hide Tidy;
  }

  lemma RootCounted(g: Geometry, c: Image)
    requires g.SizeOk() && RootOnly(g, c)
    ensures Counted(g, c)
  {
    DirInodeIds(g, c.data, 5);
    EmptyCounted(g, c.data);
    hide DirInode, DotBlock, IdAt, SectorCount, Geometry.SizeOk;
    assert c.inodes[2].blocks == SectorCount(g, c.data, c.inodes[2].block);
  }

  lemma EmptyCounted(g: Geometry, data: seq<Block>)
    requires g.SizeOk()
    ensures CountOk(g, data, EMPTY_INODE)
  {
    NoIds(g, data, EMPTY_INODE.block, g.MaxBlocks());
  }

  lemma SmallCounters(g: Geometry, used: seq<bool>, live: seq<bool>, groups: seq<Group>)
    requires Small(g) && groups == [Group(2, 2, 1)]
    requires |used| == 8 && (forall k :: 0 <= k < 8 ==> used[k] == (k < 6))
    requires |live| == 13 && (forall k :: 0 <= k < 13 ==> live[k] == (k < 11))
    ensures g.Ok() && BlockCountersAgree(g, 2, groups, used) && InodeCountersAgree(g, 2, groups, live)
  {
    hide CountClear, Geometry.Ok, Geometry.GroupsCover, Geometry.GroupBase, Geometry.GroupEnd, Geometry.InodeBase,
      Geometry.InodeEnd;
    SmallOk(g);
    TwoClear(used, 1, 6);
    TwoClear(live, 1, 11);
  }

  lemma SmallShape(g: Geometry, c: Image)
    requires Small(g) && RootOnly(g, c)
    ensures Shaped(g, c) && OwnerBits(c.used, RootOwner())
  {
    hide DotBlock, DirInode, Geometry.SizeOk;
  }

  /** Such a volume, with two blocks and two inodes free. */
  method SmallVolume(geo: Geometry) returns (v: Volume)
    requires Small(geo)
    ensures Mounted(v) && v.freeBlocks == 2 && v.freeInodes == 2
    ensures NothingLost(v.geo, v.Now(), v.owner) && Counted(v.geo, v.Now()) && TypesOk(v.geo, v.Now())
    ensures DirsCounted(v.geo, TreeOf(v.geo, v.Now()), DirCounts(v.groups[..]))
  {
    hide Geometry.Ok, Geometry.GroupsCover, CountClear, N.TreeOk, DirsOk, FilesOk, DotBlock, DirInode, BlockCountersAgree,
      InodeCountersAgree, OwnerBits, Shaped, TreeOf, NothingLost, Counted, TypesOk, DirsCounted;
    var root, dots := DirInode(geo, 5), DotBlock(geo.blockSize, 2, 2);
    var groups := new Group[1](_ => Group(2, 2, 1));
    var used := new bool[8](i => i < 6);
    var live := new bool[13](i => i < 11);
    var inodes := new Inode[13](_ => EMPTY_INODE);
    inodes[2] := root;
    var data := new Block[8](_ => Zeros(geo.blockSize));
    data[5] := dots;
    ghost var c := Image(used[..], live[..], inodes[..], data[..]);
    assert groups[..] == [Group(2, 2, 1)];
    SmallCounters(geo, used[..], live[..], groups[..]);
    SmallShape(geo, c);
    RootFiles(geo, c);
    RootTree(geo, c);
    RootTypes(geo, c);
    RootWhole(geo, c);
    RootCounted(geo, c);
    RootDirectories(geo, c);
    assert DirCounts(groups[..]) == [1];
    hide RootOnly;
    v := new Volume(geo, 2, 2, groups, used, live, inodes, data, RootOwner());
  }
}
