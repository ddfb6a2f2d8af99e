/** ext2_mkdir. */
module Ext2Mkdir {
  import opened Bytes
  import opened Paths
  import opened Ext2Layout
  import opened Ext2Files
  import opened Ext2Bytes
  import opened Ext2Volume
  import opened Ext2Inodes
  import opened Ext2FileOps
  import opened Ext2DirBlocks
  import opened Ext2DirScan
  import opened Ext2DirMap
  import opened Ext2DirOps
  import opened Ext2Tree
  import opened Ext2Types
  import opened Ext2DirCounts
  import opened Ext2Namespace
  import opened Ext2Create
  import Counting
  import N = Namespace

  /** A new directory's only block: one record for itself, and one for its parent that fills the rest. */
  function DotBlock(size: nat, n: nat, p: nat): (r: Block)
    requires 1024 <= size <= 4096 && 0 < n < TWO_32 && 0 < p < TWO_32
    ensures |r| == size
  {
    var dot := PutEntry(Write16(Zeros(size), 4, MinLen(1)), 0, n, DOT_NAME, TYPE_DIR);
    PutEntry(Write16(dot, MinLen(1) + 4, size - MinLen(1)), MinLen(1), p, DOTDOT_NAME, TYPE_DIR)
  }

  lemma DotBlockOk(size: nat, n: nat, p: nat)
    requires 1024 <= size <= 4096 && 0 < n < TWO_32 && 0 < p < TWO_32
    ensures FirstBlockOk(DotBlock(size, n, p))
    ensures NamesOf(DotBlock(size, n, p)) == Dots(n, p)
  {
    var dot := PutEntry(Write16(Zeros(size), 4, MinLen(1)), 0, n, DOT_NAME, TYPE_DIR);
    var both := Write16(dot, MinLen(1) + 4, size - MinLen(1));
    hide PutEntry, Write16;
    var b := DotBlock(size, n, p);
    assert MinLen(1) == 12;
    assert RecLen(dot, 0) == 12 && RecIno(dot, 0) == n && NameLen(dot, 0) == 1;
    assert dot[8..9] == DOT_NAME && dot[7] == TYPE_DIR;
    assert RecOk(b, 0) && RecLen(b, 0) == 12 && RecEntry(b, 0) == Rec(n, TYPE_DIR) && RecName(b, 0) == DOT_NAME by {
      assert b[8..9] == dot[8..9];
    }
    assert RecLen(both, 12) == size - 12;
    assert RecOk(b, 12) && 12 + RecLen(b, 12) == size && RecEntry(b, 12) == Rec(p, TYPE_DIR) && RecName(b, 12) == DOTDOT_NAME;
    hide RecLen, RecIno, RecName, RecOk, NameLen;
    TwoRecords(b, size, n, p);
  }

  lemma TwoRecords(b: Block, size: nat, n: nat, p: nat)
    requires |b| == size && 1024 <= size
    requires RecOk(b, 0) && RecLen(b, 0) == 12 && RecEntry(b, 0) == Rec(n, TYPE_DIR) && n != 0 && RecName(b, 0) == DOT_NAME
    requires RecOk(b, 12) && 12 + RecLen(b, 12) == size && RecEntry(b, 12) == Rec(p, TYPE_DIR) && p != 0
    requires RecName(b, 12) == DOTDOT_NAME
    ensures FirstBlockOk(b) && NamesOf(b) == Dots(n, p)
  {
    assert Tiles(b, size) && Unique(b, size) && AllLive(b, size) && Names(b, size) == map[];
    assert Tiles(b, 12) && Unique(b, 12) && AllLive(b, 12) && Names(b, 12) == map[][DOTDOT_NAME := Rec(p, TYPE_DIR)];
    assert Tiles(b, 0) && Unique(b, 0) && AllLive(b, 0);
    assert Names(b, 0) == map[][DOTDOT_NAME := Rec(p, TYPE_DIR)][DOT_NAME := Rec(n, TYPE_DIR)];
  }

  /** The inode of a new directory. */
  function DirInode(g: Geometry, block: nat): Inode {
    Inode(DIR_MODE, g.blockSize, 2, g.blockSize / 512, EMPTY_INODE.block[0 := block])
  }

  lemma DirInodeIds(g: Geometry, data: seq<Block>, block: nat)
    requires g.SizeOk() && 0 < block
    ensures var ino := DirInode(g, block);
            && IsDir(ino) && !IsFile(ino) && ino.block[12] == 0
            && (forall j: nat :: IdAt(g, data, ino.block, j) == if j == 0 then block else 0)
            && SectorCount(g, data, ino.block) == ino.blocks
            && BlocksFor(g, ino.size) == 1 && ino.size % g.blockSize == 0 && ino.size / g.blockSize == 1
  {
    OneId(g, data, DirInode(g, block).block, g.MaxBlocks());
  }

  /** One block, owned by the new inode and holding its two dots, is a sound directory. */
  lemma NewDirOk(g: Geometry, data: seq<Block>, owner: seq<Owner>, n: nat, p: nat, block: nat)
    requires g.SizeOk() && |owner| == |data| && 0 < n < TWO_32 && 0 < p < TWO_32 && 0 < block < |data|
    requires owner[block] == Data(n, 0) && data[block] == DotBlock(g.blockSize, n, p)
    ensures var ino := DirInode(g, block);
            && FileOk(g, data, owner, n, ino.block, ino.size)
            && DirSound(g, data, ino.block, ino.size)
            && DirMap(g, data, ino.block, ino.size) == map[DOT_NAME := n, DOTDOT_NAME := p]
            && DirRecords(g, data, ino.block, ino.size) == Dots(n, p)
  {
    hide FileOk, DotBlock, NamesOf, DirInode, IdAt, BlocksFor, Names, Tiles, Unique, AllLive, RecOk, RecName, RecIno, Dots, Inos;
    DirInodeIds(g, data, block);
    NewDirFile(g, data, owner, n, block);
    var ino := DirInode(g, block);
    DotBlockOk(g.blockSize, n, p);
    InosDotsTwo(n, p);
    hide Geometry.SizeOk;
    assert DirBlocks(g, data, ino.block, ino.size) == [data[block]];
    assert DirNames([data[block]], 1) == map[];
    assert map[] + Dots(n, p) == Dots(n, p);
    assert DirRecords(g, data, ino.block, ino.size) == Dots(n, p);
  }

  lemma InosDotsTwo(n: nat, p: nat)
    ensures Inos(Dots(n, p)) == map[DOT_NAME := n, DOTDOT_NAME := p]
  {
  }

  lemma NewDirFile(g: Geometry, data: seq<Block>, owner: seq<Owner>, n: nat, block: nat)
    requires g.SizeOk() && |owner| == |data| && 0 < n && 0 < block < |data| && owner[block] == Data(n, 0)
    ensures var ino := DirInode(g, block); FileOk(g, data, owner, n, ino.block, ino.size)
  {
    DirInodeIds(g, data, block);
    hide DirInode, IdAt, BlocksFor;
  }

  lemma {:induction false} OneId(g: Geometry, data: seq<Block>, m: BlockMap, hi: nat)
    requires forall j: nat :: 0 < j ==> IdAt(g, data, m, j) == 0
    requires IdAt(g, data, m, 0) != 0 && 0 < hi
    ensures CountIds(g, data, m, hi) == 1
  {
    if hi > 1 {
      OneId(g, data, m, hi - 1);
    } else {
      assert CountIds(g, data, m, 0) == 0;
    }
  }

  /** An inode and a block for a new directory, or neither. */
  method TakeInodeAndBlock(v: Volume) returns (n: nat, block: nat)
    requires v.Sound()
    modifies v, v.groups, v.blockUsed, v.inodeUsed, v.inodes, v.data
    ensures v.Valid() && v.Tracked() && (n == 0 <==> block == 0)
    ensures n == 0 <==> old(v.freeBlocks) == 0 || v.geo.firstInode > v.geo.inodesCount
                        || Counting.AllSet(old(v.inodeUsed[..]), v.geo.firstInode, v.geo.inodesCount + 1)
    ensures DirCounts(v.groups[..]) ==
            if n != 0 then DirsMoved(v.geo, old(DirCounts(v.groups[..])), n, true) else old(DirCounts(v.groups[..]))
    ensures n == 0 ==>
              && v.owner == old(v.owner) && v.Now().live == old(v.Now()).live && v.freeBlocks == old(v.freeBlocks)
              && OnlyFreeChanged(old(v.data[..]), old(v.owner), v.data[..], v.owner)
              && (forall i :: 1 <= i < v.inodes.Length && v.inodeUsed[i] ==> v.inodes[i] == old(v.inodes[i]))
    ensures n != 0 ==>
              && ROOT_INODE < n <= v.geo.inodesCount && !old(v.inodeUsed[n]) && v.freeBlocks == old(v.freeBlocks) - 1
              && 0 < block < v.data.Length && old(v.owner)[block] == Free
              && v.owner == old(v.owner)[block := Data(n, 0)]
              && v.Now() == old(v.Now()).(live := old(v.inodeUsed[..])[n := true], inodes := old(v.inodes[..])[n := EMPTY_INODE],
                                          used := old(v.blockUsed[..])[block := true],
                                          data := old(v.data[..])[block := Zeros(v.geo.blockSize)])
  {
    hide Geometry.GroupsCover, Geometry.SizeOk, BlockCountersAgree, InodeCountersAgree, FilesOk, Counting.AllSet;
    FirstInode(v.geo);
    n := v.AllocateInode(true);
    block := v.AllocateBlock();
    if n == 0 || block == 0 {
      if n != 0 {
        var ok := v.MarkInodeUsed(n, false, true);
        assert v.Now().live == old(v.Now()).live;
      }
      if block != 0 {
        var ok := v.MarkBlockUsed(block, false);
        assert v.Now().used == old(v.Now()).used;
      }
      return 0, 0;
    }
    v.owner := v.owner[block := Data(n, 0)];
  }

  lemma NothingTaken(g: Geometry, c: Image, owner: seq<Owner>, c': Image)
    requires g.blockSize > 0 && |c.live| == |c.inodes| == |c'.inodes| && c'.live == c.live && FilesOk(g, c, owner, {})
    requires OnlyFreeChanged(c.data, owner, c'.data, owner)
    requires forall i :: 1 <= i < |c.inodes| && c.live[i] ==> c'.inodes[i] == c.inodes[i]
    ensures FilesOk(g, c', owner, {}) && OthersSame(g, c, c', {})
    ensures NothingLost(g, c, owner) ==> NothingLost(g, c', owner)
  {
    assert Touches({}, c.data, owner, c'.data, owner);
    hide Touches;
    Confined(g, c, owner, c', owner, {});
    if NothingLost(g, c, owner) {
      forall n | 1 <= n < |c.live| && c.live[n] ensures Tidy(g, c'.data, owner, n, c'.inodes[n].block, 0) {
        TidyInode(g, c, owner, n);
        TidySameIds(g, c.data, c'.data, owner, n, c.inodes[n].block);
      }
    }
  }

  /** The new directory `n` is the only inode that owns the new block, and nothing else is lost. */
  lemma NewDirTidy(g: Geometry, c: Image, owner: seq<Owner>, c': Image, owner': seq<Owner>, n: nat, block: nat)
    requires |c.live| == |c.inodes| == |c'.inodes| && 1 <= n < |c.live| && !c.live[n] && c'.live == c.live[n := true]
    requires NothingLost(g, c, owner) && OthersSame(g, c, c', {n}) && block < |owner| && 0 < g.MaxBlocks()
    requires owner' == owner[block := Data(n, 0)]
    requires IdAt(g, c'.data, c'.inodes[n].block, 0) == block
    ensures NothingLost(g, c', owner')
  {
    hide IdAt;
    forall i | 1 <= i < |c'.live| && c'.live[i]
      ensures Tidy(g, c'.data, owner', i, c'.inodes[i].block, 0)
    {
      if i != n { assert Tidy(g, c.data, owner, i, c.inodes[i].block, 0); }
    }
  }

  /** The new directory `n` is in place, in `block`, but no directory lists it yet. */
  ghost predicate DirMade(g: Geometry, c0: Image, c: Image, owner: seq<Owner>, p: nat, n: nat, block: nat) {
    && g.SizeOk() && 0 < n < TWO_32 && 0 < p < TWO_32 && OthersSame(g, c0, c, {n})
    && n < |c0.live| && !c0.live[n] && c.live == c0.live[n := true]
    && 0 < block < |owner| == |c.data| && owner[block] == Data(n, 0)
    && c.inodes[n] == DirInode(g, block) && c.data[block] == DotBlock(g.blockSize, n, p)
  }

  /** The part of ext2_mkdir that makes the new directory, not yet linked. */
  method NewDirInode(v: Volume, p: nat) returns (n: nat, block: nat)
    requires v.Sound() && 0 < p <= v.geo.inodesCount
    modifies v, v.groups, v.blockUsed, v.inodeUsed, v.inodes, v.data
    ensures v.Sound() && (n == 0 ==> OthersSame(v.geo, old(v.Now()), v.Now(), {}))
    ensures NothingLost(v.geo, old(v.Now()), old(v.owner)) ==> NothingLost(v.geo, v.Now(), v.owner)
    ensures Counted(v.geo, old(v.Now())) ==> Counted(v.geo, v.Now())
    ensures DirCounts(v.groups[..]) ==
            if n != 0 then DirsMoved(v.geo, old(DirCounts(v.groups[..])), n, true) else old(DirCounts(v.groups[..]))
    ensures n == 0 <==> old(v.freeBlocks) == 0 || v.geo.firstInode > v.geo.inodesCount
                        || Counting.AllSet(old(v.inodeUsed[..]), v.geo.firstInode, v.geo.inodesCount + 1)
    ensures n != 0 ==>
              && ROOT_INODE < n <= v.geo.inodesCount && !old(v.inodeUsed[n]) && v.freeBlocks == old(v.freeBlocks) - 1
              && DirMade(v.geo, old(v.Now()), v.Now(), v.owner, p, n, block)
              && (forall i :: 0 <= i < v.inodes.Length && i != n ==> v.inodes[i] == old(v.inodes[i]))
  {
    hide Geometry.GroupsCover, BlockCountersAgree, InodeCountersAgree, IdAt, NothingLost, DotBlock, Content,
      Counting.AllSet, SectorCount;
    ghost var c, owner := v.Now(), v.owner;
    n, block := TakeInodeAndBlock(v);
    if n == 0 {
      NothingTaken(v.geo, c, owner, v.Now());
      if Counted(v.geo, c) { StillCounted(v.geo, c, v.Now(), {}); }
      return;
    }
    DirInodeIds(v.geo, v.data[..], block);
    var ino := UpdateInodeBlockCount(v, Inode(DIR_MODE, v.geo.blockSize, 2, 0, EMPTY_INODE.block[0 := block]));
    v.data[block] := DotBlock(v.geo.blockSize, n, p);
    var ok := v.WriteInode(n, ino);
    assert v.data[..] == c.data[block := DotBlock(v.geo.blockSize, n, p)];
    DirInodeIds(v.geo, v.data[..], block);
    NewDirFile(v.geo, v.data[..], v.owner, n, block);
    hide DirInode, FileOk;
    assert Touches({n}, c.data, owner, v.data[..], v.owner);
    hide Touches;
    Confined(v.geo, c, owner, v.Now(), v.owner, {n});
    if NothingLost(v.geo, c, owner) {
      NewDirTidy(v.geo, c, owner, v.Now(), v.owner, n, block);
    }
    if Counted(v.geo, c) { StillCounted(v.geo, c, v.Now(), {n}); }
  }

  function NewDirNode(n: nat, p: nat): N.Node {
    N.Dir(map[DOT_NAME := n, DOTDOT_NAME := p])
  }

  /** A change of an inode that touches neither its kind, nor its size, nor its blocks is no change of its node. */
  lemma LinksChanged(g: Geometry, c: Image, owner: seq<Owner>, p: nat, ino: Inode)
    requires g.SizeOk() && |c.live| == |c.inodes| && |owner| == |c.data| && FilesOk(g, c, owner, {})
    requires InTree(c, p) && ino == c.inodes[p].(links := ino.links)
    ensures var c' := c.(inodes := c.inodes[p := ino]);
            && FilesOk(g, c', owner, {}) && OthersSame(g, c, c', {p}) && InTree(c', p)
            && NodeAt(g, c', p) == NodeAt(g, c, p) && (GoodKind(g, c, p) ==> GoodKind(g, c', p))
            && (NothingLost(g, c, owner) ==> NothingLost(g, c', owner))
  {
    TouchesNothing({p}, c.data, owner);
    Confined(g, c, owner, c.(inodes := c.inodes[p := ino]), owner, {p});
    assert FileOk(g, c.data, owner, p, c.inodes[p].block, c.inodes[p].size);
    hide FileOk, Touches, SameContent, SameIds, DirSound, DirMap, Tidy;
  }

  /** The new directory is in place. */
  lemma NewDirAt(g: Geometry, c: Image, owner: seq<Owner>, n: nat, p: nat, block: nat)
    requires g.SizeOk() && |c.live| == |c.inodes| && |owner| == |c.data| && 0 < n < TWO_32 && 0 < p < TWO_32
    requires n < |c.live| && c.live[n] && 0 < block < |c.data| && owner[block] == Data(n, 0)
    requires c.inodes[n] == DirInode(g, block) && c.data[block] == DotBlock(g.blockSize, n, p)
    ensures InTree(c, n) && NodeAt(g, c, n) == NewDirNode(n, p) && GoodKind(g, c, n)
    ensures IsDir(c.inodes[n]) && RecordsAt(g, c, n) == Dots(n, p)
  {
    DirInodeIds(g, c.data, block);
    hide DirInode;
    NewDirOk(g, c.data, owner, n, p, block);
  }

  /** The new directory owns its one block and nothing else, so giving back both loses nothing. */
  lemma DropNewTidy(g: Geometry, c: Image, owner: seq<Owner>, n: nat, block: nat)
    requires g.SizeOk() && |c.live| == |c.inodes| && 1 <= n < |c.live| && 0 < block < |owner|
    requires c.inodes[n] == DirInode(g, block) && owner[block] == Data(n, 0) && NothingLost(g, c, owner)
    ensures NothingLost(g, c.(live := c.live[n := false]), owner[block := Free])
  {
    TidyInode(g, c, owner, n);
    DirInodeIds(g, c.data, block);
    hide IdAt, DirInode, Geometry.SizeOk;
    forall i | 1 <= i < |c.live| && c.live[i] && i != n ensures Tidy(g, c.data, owner[block := Free], i, c.inodes[i].block, 0) {
      TidyInode(g, c, owner, i);
    }
  }

  /** The bitmap does not matter here. */
  lemma StillWhole(g: Geometry, c: Image, c': Image, n: nat, owner: seq<Owner>)
    requires n < |c.live| && |c.live| == |c.inodes| && c'.live == c.live[n := false] && c'.inodes == c.inodes && c'.data == c.data
    requires NothingLost(g, c.(live := c.live[n := false]), owner)
    ensures NothingLost(g, c', owner)
  {
  }

  lemma BlockGivenUp(data: seq<Block>, owner: seq<Owner>, n: nat, block: nat)
    requires |owner| == |data| && 0 < block < |owner| && owner[block] == Data(n, 0)
    ensures Touches({n}, data, owner, data, owner[block := Free])
  {
  }

  /** Gives back the unlinked new directory. */
  method DropNewDir(v: Volume, n: nat, block: nat)
    requires v.Sound() && 1 <= n <= v.geo.inodesCount && 0 < block < v.data.Length && v.owner[block] == Data(n, 0)
    modifies v, v.groups, v.blockUsed, v.inodeUsed
    ensures v.Sound() && !v.inodeUsed[n] && OthersSame(v.geo, old(v.Now()), v.Now(), {n})
    ensures Counted(v.geo, old(v.Now())) ==> Counted(v.geo, v.Now())
    ensures DirCounts(v.groups[..]) == if old(v.inodeUsed[n]) then DirsMoved(v.geo, old(DirCounts(v.groups[..])), n, false)
                                       else old(DirCounts(v.groups[..]))
    ensures v.inodes[n] == DirInode(v.geo, block) && NothingLost(v.geo, old(v.Now()), old(v.owner)) ==>
              NothingLost(v.geo, v.Now(), v.owner)
  {
    hide Geometry.GroupsCover, BlockCountersAgree, InodeCountersAgree, Touches, FileOk, SameContent, SameIds, NothingLost,
      DirInode, Counted;
    ghost var c, owner := v.Now(), v.owner;
    var ok := v.MarkBlockUsed(block, false);
    v.owner := v.owner[block := Free];
    ok := v.MarkInodeUsed(n, false, true);
    BlockGivenUp(c.data, owner, n, block);
    if v.inodes[n] == DirInode(v.geo, block) && NothingLost(v.geo, c, owner) {
      DropNewTidy(v.geo, c, owner, n, block);
      StillWhole(v.geo, c, v.Now(), n, v.owner);
    }
    assert FilesOk(v.geo, c, owner, {n});
    Confined(v.geo, c, owner, v.Now(), v.owner, {n});
    if Counted(v.geo, c) { StillCounted(v.geo, c, v.Now(), {n}); }
  }

  /** The new directory `n` hangs in parent `p`: first counted as a link of `p`, then entered into it. */
  lemma ThreeSteps(g: Geometry, c0: Image, c1: Image, c2: Image, c3: Image, n: nat, p: nat)
    requires OthersSame(g, c0, c1, {n}) && OthersSame(g, c1, c2, {p}) && OthersSame(g, c2, c3, {p})
    ensures OthersSame(g, c0, c3, {n, p})
  {
    hide OthersSame;
    OthersSameMore(g, c0, c1, {n}, {n, p});
    OthersSameTransitive(g, c1, c2, c3, {p});
    OthersSameMore(g, c1, c3, {p}, {n, p});
    OthersSameTransitive(g, c0, c1, c3, {n, p});
  }

  /** A new node was hung under a name that was free, or the tree is the old one. */
  ghost predicate LinkResult(t: N.Tree, t': N.Tree, p: nat, name: Paths.Name, n: nat, node: N.Node, linked: bool) {
    if linked then
      && p in t && t[p].Dir? && name !in t[p].entries && !IsDots(name) && N.Fresh(t, p, n, node)
      && t' == N.AddNode(t, p, name, n, node)
    else t' == t
  }

  /** parent.links_count++ and the write of the parent. */
  method CountLink(v: Volume, p: nat, parent: Inode) returns (parent': Inode)
    requires DirectoryAt(v, p) && parent == v.inodes[p]
    modifies v.inodes
    ensures DirectoryAt(v, p) && parent' == v.inodes[p] && OthersSame(v.geo, old(v.Now()), v.Now(), {p})
    ensures v.Now() == old(v.Now()).(inodes := old(v.inodes[..])[p := parent'])
    ensures parent' == parent.(links := (parent.links + 1) % TWO_16)
    ensures NothingLost(v.geo, old(v.Now()), v.owner) ==> NothingLost(v.geo, v.Now(), v.owner)
    ensures Counted(v.geo, old(v.Now())) ==> Counted(v.geo, v.Now())
  {
    hide Geometry.GroupsCover, BlockCountersAgree, InodeCountersAgree, IdAt, DirSound;
    parent' := parent.(links := (parent.links + 1) % TWO_16);
    ghost var c := v.Now();
    LinksChanged(v.geo, c, v.owner, p, parent');
    var ok := v.WriteInode(p, parent');
    if Counted(v.geo, c) {
      CountOfInode(v.geo, c, p);
      CountedAt(v.geo, c, v.Now(), p);
    }
  }

  /** The new directory `n` came into use, and directory `p` got a record for it. */
  lemma DirEntered(g: Geometry, c0: Image, owner0: seq<Owner>, c3: Image, p: nat, name: Paths.Name, n: nat)
    requires ImageOk(g, c0, owner0) && OthersSame(g, c0, c3, {n, p}) && n != p && n != ROOT_INODE && !InTree(c0, n)
    requires InTree(c0, p) && IsDir(c0.inodes[p]) && name !in DirMap(g, c0.data, c0.inodes[p].block, c0.inodes[p].size)
    requires EntryStep(g, c0, c3, p, RecordsAt(g, c0, p)[name := Rec(n, TYPE_DIR)])
    requires InTree(c3, n) && NodeAt(g, c3, n) == NewDirNode(n, p) && GoodKind(g, c3, n)
    requires IsDir(c3.inodes[n]) && RecordsAt(g, c3, n) == Dots(n, p)
    ensures DirsOk(g, c3) && N.TreeOk(TreeOf(g, c3)) && LinkResult(TreeOf(g, c0), TreeOf(g, c3), p, name, n, NewDirNode(n, p), true)
    ensures p in AllRecords(g, c0) && AllRecords(g, c3) == RecordsAdded(AllRecords(g, c0), p, name, n, NewDirNode(n, p))
    ensures TypesOk(g, c0) ==> TypesOk(g, c3)
  {
    hide DirSound, DirRecords, N.TreeOk, AllRecords, TypesOk, RecordsAdded, DirsOk, Dots, OthersSame, FilesOk;
    assert TreeOf(g, c0)[p] == NodeAt(g, c0, p);
    hide TreeOf;
    NodeFromRecords(g, c0, p);
    NodeFromRecords(g, c3, p);
    assert name !in NodeAt(g, c0, p).entries;
    InosPut(RecordsAt(g, c0, p), name, Rec(n, TYPE_DIR));
    hide NodeAt, RecordsAt, GoodKind;
    Linked(g, c0, owner0, c3, p, name, n, NewDirNode(n, p));
    LinkedRecords(g, c0, owner0, c3, p, name, n, NewDirNode(n, p));
    LinkedTypes(g, c0, c3, p, name, n, NewDirNode(n, p));
  }

  /** Hangs the new directory `n` under `name` and counts it as a link of its parent, or takes it back. */
  method LinkDir(v: Volume, ghost c0: Image, ghost owner0: seq<Owner>, p: nat, parent: Inode, name: Paths.Name, n: nat, block: nat)
    returns (linked: bool)
    requires v.Sound() && ImageOk(v.geo, c0, owner0) && ROOT_INODE < n <= v.geo.inodesCount && p <= v.geo.inodesCount
    requires DirMade(v.geo, c0, v.Now(), v.owner, p, n, block)
    requires InTree(c0, p) && parent == c0.inodes[p] && IsDir(parent) && NameOk(name)
    requires name !in DirMap(v.geo, c0.data, parent.block, parent.size)
    modifies v, v.groups, v.blockUsed, v.inodeUsed, v.inodes, v.data
    ensures Mounted(v)
    ensures v.inodes[p].links == (parent.links + 1) % TWO_16
    ensures LinkResult(TreeOf(v.geo, c0), TreeOf(v.geo, v.Now()), p, name, n, NewDirNode(n, p), linked)
    ensures p in AllRecords(v.geo, c0)
    ensures AllRecords(v.geo, v.Now()) == if linked then RecordsAdded(AllRecords(v.geo, c0), p, name, n, NewDirNode(n, p))
                                          else AllRecords(v.geo, c0)
    ensures TypesOk(v.geo, c0) ==> TypesOk(v.geo, v.Now())
    ensures linked <==> HasRoom(v.geo, old(v.Now()), old(v.freeBlocks), p, |name|)
    ensures NothingLost(v.geo, old(v.Now()), old(v.owner)) ==> NothingLost(v.geo, v.Now(), v.owner)
    ensures Counted(v.geo, old(v.Now())) ==> Counted(v.geo, v.Now())
    ensures DirCounts(v.groups[..]) ==
            if linked then old(DirCounts(v.groups[..])) else DirsMoved(v.geo, old(DirCounts(v.groups[..])), n, false)
  {
    hide Geometry.GroupsCover, BlockCountersAgree, InodeCountersAgree, N.TreeOk, IdAt, NothingLost, DirMap, DirSound, OwnerBits,
      SameContent, SameIds, CanGrow, NoRoom, DirInode, DotBlock, Counted, AllRecords, TypesOk, DirRecords, RecordsAdded, TreeOf,
      DirsOk, Dots;
    ghost var c1, owner1 := v.Now(), v.owner;
    DirectoryStays(v, c0, owner0, p, n);
    hide ImageOk;
    var parent' := CountLink(v, p, parent);
    ghost var c2 := v.Now();
    NewDirAt(v.geo, c2, v.owner, n, p, block);
    var dir';
    linked, dir' := AddDirEntry(v, p, parent', n, name, TYPE_DIR);
    ghost var c3 := v.Now();
    OtherNodes(v.geo, c2, owner1, c3, {p}, n);
    ThreeSteps(v.geo, c0, c1, c2, c3, n, p);
    if linked {
      DirEntered(v.geo, c0, owner0, c3, p, name, n);
    } else {
      DropNewDir(v, n, block);
      OthersSameMore(v.geo, c3, v.Now(), {n}, {n, p});
      OthersSameTransitive(v.geo, c0, c3, v.Now(), {n, p});
      NothingEntered(v.geo, c0, owner0, v.Now(), p, n);
    }
  }

  /** Making an inode elsewhere takes no room from a directory but the blocks it uses. */
  lemma SameRoom(g: Geometry, c0: Image, owner0: seq<Owner>, c1: Image, n: nat, p: nat, freeBlocks: nat, nameLen: nat)
    requires ImageOk(g, c0, owner0) && OthersSame(g, c0, c1, {n}) && n != p && InTree(c0, p) && IsDir(c0.inodes[p])
    ensures HasRoom(g, c1, freeBlocks, p, nameLen) <==> HasRoom(g, c0, freeBlocks, p, nameLen)
  {
    var dir := c0.inodes[p];
    assert GoodKind(g, c0, p) && FileOk(g, c0.data, owner0, p, dir.block, dir.size);
    WholeBlocks(g, dir.size);
    hide Content, IdAt, DirOk, DirNames, NoRoom, N.TreeOk;
    assert DirBlocks(g, c1.data, dir.block, dir.size) == DirBlocks(g, c0.data, dir.block, dir.size);
    if dir.size / g.blockSize >= g.MaxBlocks() {
      BehindTheLast(g, c0.data, dir.block, dir.size / g.blockSize);
      BehindTheLast(g, c1.data, dir.block, dir.size / g.blockSize);
    }
  }

  lemma BehindTheLast(g: Geometry, data: seq<Block>, m: BlockMap, j: nat)
    requires j >= g.MaxBlocks()
    ensures IdAt(g, data, m, j) == 0
  {
  }

  /** A step that changes no inode in use changes no node. */
  lemma SameTree(g: Geometry, c0: Image, owner0: seq<Owner>, c1: Image)
    requires ImageOk(g, c0, owner0) && OthersSame(g, c0, c1, {})
    ensures TreeOf(g, c1) == TreeOf(g, c0) && DirsOk(g, c1)
    ensures AllRecords(g, c1) == AllRecords(g, c0) && (TypesOk(g, c0) ==> TypesOk(g, c1))
  {
    hide DirsOk, FilesOk, OthersSame, N.TreeOk;
    OtherTree(g, c0, owner0, c1, {});
    OtherRecords(g, c0, owner0, c1, {});
    hide TreeOf, AllRecords;
    assert TreeOf(g, c1) - {} == TreeOf(g, c1) && TreeOf(g, c0) - {} == TreeOf(g, c0);
    assert AllRecords(g, c1) - {} == AllRecords(g, c1) && AllRecords(g, c0) - {} == AllRecords(g, c0);
  }

  lemma SameInode(g: Geometry, c0: Image, c1: Image, p: nat)
    requires OthersSame(g, c0, c1, {}) && InTree(c0, p)
    ensures c1.inodes[p] == c0.inodes[p]
  {
  }

  /** An inode and a block are free: then the parent's link is counted, even if there turns out to be no room for the entry. */
  predicate Available(g: Geometry, c: Image, freeBlocks: nat)
    requires |c.live| == g.inodesCount + 1
  {
    freeBlocks > 0 && !(g.firstInode > g.inodesCount || Counting.AllSet(c.live, g.firstInode, g.inodesCount + 1))
  }

  /** When a directory can be made: as for a file, and one block is free besides what the entry may need. */
  ghost predicate DirCreatable(g: Geometry, c: Image, freeBlocks: nat, path: Path)
    requires g.blockSize > 0 && |c.live| == |c.inodes| == g.inodesCount + 1
  {
    freeBlocks > 0 && Creatable(g, c, freeBlocks - 1, path)
  }

  lemma MadeCounts(g: Geometry, t: N.Tree, t': N.Tree, dirs: seq<nat>, p: nat, name: Paths.Name, n: nat, node: N.Node)
    requires g.Ok() && 1 <= n <= g.inodesCount && LinkResult(t, t', p, name, n, node, true) && node.Dir?
    ensures DirsCounted(g, t, dirs) ==> DirsCounted(g, t', DirsMoved(g, dirs, n, true))
  {
    if DirsCounted(g, t, dirs) {
      MadeCounted(g, t, dirs, p, name, n, node);
    }
  }

  /** ext2_mkdir; `n` is the new inode, 0 if none was made. */
  method MakeDirectory(v: Volume, path: Path, synced: bool) returns (r: int, n: nat, ghost p: nat)
    requires Mounted(v)
    modifies v, v.groups, v.blockUsed, v.inodeUsed, v.inodes, v.data
    ensures Mounted(v)
    ensures MakeResult(old(TreeOf(v.geo, v.Now())), TreeOf(v.geo, v.Now()), path, n, NewDirNode(n, p), synced, r)
    ensures r != ERR_INVAL ==> ParentOf(old(TreeOf(v.geo, v.Now())), path) == Some(p) && p <= v.geo.inodesCount
    ensures r != ERR_INVAL ==>
              v.inodes[p].links == if Available(v.geo, old(v.Now()), old(v.freeBlocks)) then (old(v.inodes[p].links) + 1) % TWO_16
                                   else old(v.inodes[p].links)
    ensures n != 0 <==> ParentFits(path, PATH_SIZE) && DirCreatable(v.geo, old(v.Now()), old(v.freeBlocks), path)
    ensures NothingLost(v.geo, old(v.Now()), old(v.owner)) ==> NothingLost(v.geo, v.Now(), v.owner)
    ensures Counted(v.geo, old(v.Now())) ==> Counted(v.geo, v.Now())
    ensures DirCounts(v.groups[..]) ==
            if n != 0 then DirsMoved(v.geo, old(DirCounts(v.groups[..])), n, true) else old(DirCounts(v.groups[..]))
    ensures MakeRecords(old(TreeOf(v.geo, v.Now())), old(AllRecords(v.geo, v.Now())), AllRecords(v.geo, v.Now()), path, n,
                        NewDirNode(n, p))
    ensures TypesOk(v.geo, old(v.Now())) ==> TypesOk(v.geo, v.Now())
    ensures DirsCounted(v.geo, old(TreeOf(v.geo, v.Now())), old(DirCounts(v.groups[..]))) ==>
              DirsCounted(v.geo, TreeOf(v.geo, v.Now()), DirCounts(v.groups[..]))
  {
    hide Geometry.GroupsCover, BlockCountersAgree, InodeCountersAgree, N.TreeOk, DirsOk, IdAt, NothingLost, TreeOf,
      DirMap, DirSound, FilesOk, OthersSame, OwnerBits, HasRoom, DotBlock, DirInode, Counted, AllRecords, TypesOk,
      RecordsAdded, NodeAt, GoodKind, ParentFits, Content, DirsMoved, DirCounts, Holds, N.AddNode, N.Lookup, Counting.AllSet, DirsCounted;
    r, n, p := ERR_INVAL, 0, 0;
    var found, existing, e := PathLookup(v, path);
    if found {
      return;
    }
    var ok, parent, dir, name := ParentLookup(v, path);
    if !ok {
      return;
    }
    p := dir;
    EnterInode(v, dir, name);
    ghost var c0, owner0 := v.Now(), v.owner;
    var block;
    n, block := NewDirInode(v, dir);
    if n == 0 {
      SameTree(v.geo, c0, owner0, v.Now());
      SameInode(v.geo, c0, v.Now(), p);
      return ERR_FAULT, 0, p;
    }
    SameRoom(v.geo, c0, owner0, v.Now(), n, p, v.freeBlocks, |name|);
    DirsMovedBack(v.geo, old(DirCounts(v.groups[..])), n);
    var linked := LinkDir(v, c0, owner0, dir, parent, name, n, block);
    if linked {
      MadeCounts(v.geo, TreeOf(v.geo, c0), TreeOf(v.geo, v.Now()), old(DirCounts(v.groups[..])), dir, name, n, NewDirNode(n, p));
    }
    n := if linked then n else 0;
    r := if linked && synced then OK else ERR_FAULT;
  }
}
