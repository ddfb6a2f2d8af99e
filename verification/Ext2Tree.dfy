/** From the volume to the file tree it stands for. */
module Ext2Tree {
  import opened Bytes
  import opened Paths
  import opened Ext2Layout
  import opened Ext2Files
  import opened Ext2Bytes
  import opened Ext2Volume
  import opened Ext2DirBlocks
  import opened Ext2DirScan
  import opened Ext2DirMap
  import opened Ext2DirOps
  import N = Namespace

  function NodeOf(g: Geometry, data: seq<Block>, ino: Inode): N.Node
    requires g.blockSize > 0
  {
    if IsDir(ino) then N.Dir(DirMap(g, data, ino.block, ino.size)) else N.File(FileBytes(g, data, ino.block, ino.size))
  }

  /** The inodes that are part of the tree: in use, and a regular file or a directory. */
  predicate InTree(c: Image, n: nat) {
    1 <= n < |c.live| && n < |c.inodes| && c.live[n] && (IsDir(c.inodes[n]) || IsFile(c.inodes[n]))
  }

  function TreeOf(g: Geometry, c: Image): N.Tree
    requires g.blockSize > 0
  {
    map n: nat | n < |c.live| && InTree(c, n) :: NodeAt(g, c, n)
  }

  /** Every directory in use is a sound one. */
  ghost predicate DirsOk(g: Geometry, c: Image)
    requires g.blockSize > 0
  {
    forall n: nat :: InTree(c, n) ==> GoodKind(g, c, n)
  }

  /** A directory in use is no file, and sound. */
  ghost predicate GoodKind(g: Geometry, c: Image, n: nat)
    requires g.blockSize > 0 && InTree(c, n)
  {
    IsDir(c.inodes[n]) ==> !IsFile(c.inodes[n]) && DirSound(g, c.data, c.inodes[n].block, c.inodes[n].size)
  }

  function NodeAt(g: Geometry, c: Image, n: nat): N.Node
    requires g.blockSize > 0 && InTree(c, n)
  {
    NodeOf(g, c.data, c.inodes[n])
  }

  /** The records of directory `d`. */
  function RecordsAt(g: Geometry, c: Image, d: nat): map<Name, Rec>
    requires g.blockSize > 0 && InTree(c, d)
  {
    DirRecords(g, c.data, c.inodes[d].block, c.inodes[d].size)
  }

  lemma NodeFromRecords(g: Geometry, c: Image, d: nat)
    requires g.blockSize > 0 && InTree(c, d) && IsDir(c.inodes[d])
    ensures NodeAt(g, c, d) == N.Dir(Inos(RecordsAt(g, c, d)))
  {
  }

  /** A volume in working order: sound files, sound directories, and one tree. */
  ghost predicate Mounted(v: Volume)
    reads v, v.groups, v.blockUsed, v.inodeUsed, v.inodes, v.data
  {
    v.Sound() && DirsOk(v.geo, v.Now()) && N.TreeOk(TreeOf(v.geo, v.Now()))
  }

  /** An inode that reads the same is the same node. */
  lemma SameNode(g: Geometry, d0: seq<Block>, d1: seq<Block>, ino: Inode)
    requires g.SizeOk() && BlocksFor(g, ino.size) <= g.MaxBlocks()
    requires SameContent(g, d0, ino.block, d1, ino.block) && SameIds(g, d0, ino.block, d1, ino.block)
    ensures !IsDir(ino) ==> NodeOf(g, d1, ino) == NodeOf(g, d0, ino)
    ensures IsDir(ino) && DirSound(g, d0, ino.block, ino.size) ==>
              NodeOf(g, d1, ino) == NodeOf(g, d0, ino) && DirSound(g, d1, ino.block, ino.size)
    ensures IsDir(ino) && DirSound(g, d0, ino.block, ino.size) ==>
              DirRecords(g, d1, ino.block, ino.size) == DirRecords(g, d0, ino.block, ino.size)
  {
    if !IsDir(ino) {
      SameBytes(g, d0, ino.block, d1, ino.block, ino.size);
    } else if DirSound(g, d0, ino.block, ino.size) {
      WholeBlocks(g, ino.size);
      hide Content, IdAt, DirOk, DirNames, IsDir;
      assert DirBlocks(g, d1, ino.block, ino.size) == DirBlocks(g, d0, ino.block, ino.size);
    }
  }

  /** A step confined to `who` changes no other node. */
  lemma OtherNodes(g: Geometry, c: Image, owner: seq<Owner>, c': Image, who: set<nat>, n: nat)
    requires g.SizeOk() && |c.live| == |c.inodes| && FilesOk(g, c, owner, {}) && (InTree(c, n) ==> GoodKind(g, c, n))
    requires OthersSame(g, c, c', who) && n !in who
    ensures InTree(c', n) <==> InTree(c, n)
    ensures InTree(c, n) ==> NodeAt(g, c', n) == NodeAt(g, c, n) && GoodKind(g, c', n)
    ensures InTree(c, n) && IsDir(c.inodes[n]) ==> IsDir(c'.inodes[n]) && RecordsAt(g, c', n) == RecordsAt(g, c, n)
    ensures InTree(c, n) && IsDir(c'.inodes[n]) ==> IsDir(c.inodes[n])
  {
    if InTree(c, n) {
      assert FileOk(g, c.data, owner, n, c.inodes[n].block, c.inodes[n].size);
      SameNode(g, c.data, c'.data, c.inodes[n]);
    }
  }

  lemma OtherTree(g: Geometry, c: Image, owner: seq<Owner>, c': Image, who: set<nat>)
    requires g.SizeOk() && |c.live| == |c.inodes| && FilesOk(g, c, owner, {}) && DirsOk(g, c)
    requires OthersSame(g, c, c', who)
    ensures TreeOf(g, c') - who == TreeOf(g, c) - who
    ensures (forall n :: n in who && InTree(c', n) ==> GoodKind(g, c', n)) ==> DirsOk(g, c')
  {
    hide NodeAt, InTree, GoodKind;
    forall n: nat | n !in who
      ensures InTree(c', n) <==> InTree(c, n)
      ensures InTree(c, n) ==> NodeAt(g, c', n) == NodeAt(g, c, n) && GoodKind(g, c', n)
    {
      OtherNodes(g, c, owner, c', who, n);
    }
    Bounded(c);
    Bounded(c');
  }

  lemma Bounded(c: Image)
    ensures forall n: nat :: InTree(c, n) ==> 1 <= n < |c.live| && n < |c.inodes|
  {
  }

  // ---------- names are short ----------

  lemma {:induction false} NamesShort(b: Block, p: nat, x: Name)
    requires Tiles(b, p) && x in Names(b, p)
    ensures |x| <= MAX_NAME
    decreases |b| - p
  {
    if RecIno(b, p) == 0 || RecName(b, p) != x {
      NamesShort(b, p + RecLen(b, p), x);
    }
  }

  lemma EntriesShort(g: Geometry, data: seq<Block>, m: BlockMap, size: nat, x: Name)
    requires g.blockSize > 0 && x in DirMap(g, data, m, size)
    ensures |x| <= MAX_NAME
  {
    var blocks := DirBlocks(g, data, m, size);
    var j := DirNamesIn(blocks, 0, x);
    NamesShort(blocks[j], 0, x);
  }
}
