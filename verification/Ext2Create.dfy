/** ext2_create_file and ext2_mkdir. */
module Ext2Create {
  import opened Bytes
  import opened Paths
  import opened Ext2Layout
  import opened Ext2Files
  import opened Ext2Bytes
  import opened Ext2Volume
  import opened Ext2Inodes
  import opened Ext2FileOps
  import opened Ext2DirBlocks
  import opened Ext2DirScan
  import opened Ext2DirMap
  import opened Ext2DirOps
  import opened Ext2Tree
  import opened Ext2Types
  import opened Ext2DirCounts
  import opened Ext2Namespace
  import Counting
  import N = Namespace

  const FILE_MODE: nat := 0x8000 + 0x1A4
  const DIR_MODE: nat := 0x4000 + 0x1ED

  const NEW_FILE: Inode := Inode(FILE_MODE, 0, 1, 0, EMPTY_INODE.block)

  /** The image after inode `n` came into use as `ino`. */
  function WithInode(c: Image, n: nat, ino: Inode): Image
    requires n < |c.live| && n < |c.inodes|
  {
    c.(live := c.live[n := true], inodes := c.inodes[n := ino])
  }

  /** An inode without blocks is a sound, empty file. */
  lemma EmptyFileOk(g: Geometry, data: seq<Block>, owner: seq<Owner>, n: nat, m: BlockMap)
    requires g.SizeOk() && |owner| == |data| && 0 < n && m == EMPTY_INODE.block
    ensures FileOk(g, data, owner, n, m, 0) && (forall j: nat :: IdAt(g, data, m, j) == 0)
    ensures FileBytes(g, data, m, 0) == []
  {
  }

  lemma FreshInode(g: Geometry, c: Image, owner: seq<Owner>, n: nat, ino: Inode)
    requires g.SizeOk() && |c.live| == |c.inodes| && |owner| == |c.data| && FilesOk(g, c, owner, {})
    requires 1 <= n < |c.live| && FileOk(g, c.data, owner, n, ino.block, ino.size)
    ensures FilesOk(g, WithInode(c, n, ino), owner, {}) && OthersSame(g, c, WithInode(c, n, ino), {n})
  {
    hide FileOk, Touches;
    TouchesNothing({n}, c.data, owner);
    Confined(g, c, owner, WithInode(c, n, ino), owner, {n});
  }

  /** An unused inode owns nothing, so taking it without blocks loses nothing. */
  lemma FreshTidy(g: Geometry, c: Image, owner: seq<Owner>, n: nat, ino: Inode)
    requires |c.live| == |c.inodes| && 1 <= n < |c.live| && !c.live[n] && NothingLost(g, c, owner)
    requires ino.block == EMPTY_INODE.block
    ensures NothingLost(g, WithInode(c, n, ino), owner)
  {
    hide IdAt;
  }

  /** What linking the new inode `n` under `name` in directory `p` amounts to. */
  lemma Linked(g: Geometry, c0: Image, owner0: seq<Owner>, c1: Image, p: nat, name: Paths.Name, n: nat, node: N.Node)
    requires g.SizeOk() && |c0.live| == |c0.inodes| && FilesOk(g, c0, owner0, {}) && DirsOk(g, c0)
    requires N.TreeOk(TreeOf(g, c0)) && OthersSame(g, c0, c1, {n, p})
    requires InTree(c0, p) && NodeAt(g, c0, p).Dir? && name !in NodeAt(g, c0, p).entries
    requires InTree(c1, p) && NodeAt(g, c1, p) == N.Dir(NodeAt(g, c0, p).entries[name := n]) && GoodKind(g, c1, p)
    requires InTree(c1, n) && NodeAt(g, c1, n) == node && GoodKind(g, c1, n)
    requires !InTree(c0, n) && n != N.ROOT
    requires node.Dir? ==> node.entries == map[DOT_NAME := n, DOTDOT_NAME := p]
    ensures N.Fresh(TreeOf(g, c0), p, n, node) && !IsDots(name)
    ensures p in TreeOf(g, c0) && TreeOf(g, c0)[p].Dir?
    ensures TreeOf(g, c1) == N.AddNode(TreeOf(g, c0), p, name, n, node)
    ensures DirsOk(g, c1) && N.TreeOk(TreeOf(g, c1))
  {
    hide N.TreeOk, DirsOk;
    OtherTree(g, c0, owner0, c1, {n, p});
    var t, t' := TreeOf(g, c0), TreeOf(g, c1);
    assert t[p] == NodeAt(g, c0, p) && t'[p] == NodeAt(g, c1, p) && t'[n] == node;
    assert n !in t;
    hide NodeAt, GoodKind, InTree, FilesOk, OthersSame, TreeOf, N.TreeOk, DirsOk;
    N.MissingIsNoDots(t, p, name);
    PutBackTwo(t, t', p, n);
    N.AddKeepsTree(t, p, name, n, node);
  }

  lemma PutBackTwo(t: N.Tree, t': N.Tree, p: nat, n: nat)
    requires t' - {n, p} == t - {n, p} && n in t' && p in t'
    ensures t' == t[p := t'[p]][n := t'[n]]
  {
    assert forall k :: k in t' && k != n && k != p ==> k in t' - {n, p};
    assert forall k :: k in t && k != n && k != p ==> k in t - {n, p};
  }

  /** Nothing but inode `n`, which is not in use any more, may have changed: the tree is the old one. */
  lemma Undone(g: Geometry, c0: Image, owner0: seq<Owner>, c1: Image, p: nat, n: nat)
    requires g.SizeOk() && |c0.live| == |c0.inodes| && FilesOk(g, c0, owner0, {}) && DirsOk(g, c0)
    requires OthersSame(g, c0, c1, {n, p}) && InTree(c0, p) && InTree(c1, p) && n != p
    requires NodeAt(g, c1, p) == NodeAt(g, c0, p) && GoodKind(g, c1, p) && !InTree(c0, n) && !InTree(c1, n)
    ensures TreeOf(g, c1) == TreeOf(g, c0) && DirsOk(g, c1)
  {
    hide DirsOk;
    OtherTree(g, c0, owner0, c1, {n, p});
    var t, t' := TreeOf(g, c0), TreeOf(g, c1);
    hide GoodKind, FilesOk, OthersSame;
    assert t[p] == NodeAt(g, c0, p) && t'[p] == NodeAt(g, c1, p);
    assert n !in t && n !in t';
    hide NodeAt, InTree, TreeOf;
    SameKeys(t, t', p, n);
  }

  lemma SameKeys(t: N.Tree, t': N.Tree, p: nat, n: nat)
    requires t' - {n, p} == t - {n, p} && n !in t && n !in t' && p in t && p in t' && t'[p] == t[p]
    ensures t' == t
  {
    assert forall k :: k in t' && k != p ==> k in t' - {n, p};
    assert forall k :: k in t && k != p ==> k in t - {n, p};
  }

  /** allocate_inode followed by write_inode of an empty regular file. */
  method NewFileInode(v: Volume) returns (n: nat)
    requires v.Sound()
    modifies v, v.groups, v.inodeUsed, v.inodes
    ensures v.Sound() && v.owner == old(v.owner) && v.freeBlocks == old(v.freeBlocks)
    ensures n == 0 <==> v.geo.firstInode > v.geo.inodesCount
                        || Counting.AllSet(old(v.inodeUsed[..]), v.geo.firstInode, v.geo.inodesCount + 1)
    ensures n == 0 ==> v.Now() == old(v.Now())
    ensures n != 0 ==>
              && ROOT_INODE < n <= v.geo.inodesCount && !old(v.inodeUsed[n])
              && v.Now() == WithInode(old(v.Now()), n, NEW_FILE) && OthersSame(v.geo, old(v.Now()), v.Now(), {n})
              && (NothingLost(v.geo, old(v.Now()), v.owner) ==> NothingLost(v.geo, v.Now(), v.owner))
    ensures Counted(v.geo, old(v.Now())) ==> Counted(v.geo, v.Now())
    ensures DirCounts(v.groups[..]) == old(DirCounts(v.groups[..]))
  {
    hide Geometry.GroupsCover, BlockCountersAgree, InodeCountersAgree, IdAt, NothingLost, CountIds;
    ghost var c := v.Now();
    FirstInode(v.geo);
    n := v.AllocateInode(false);
    if n != 0 {
      var ok := v.WriteInode(n, NEW_FILE);
      assert v.Now() == WithInode(c, n, NEW_FILE);
      EmptyFileOk(v.geo, c.data, v.owner, n, NEW_FILE.block);
      FreshInode(v.geo, c, v.owner, n, NEW_FILE);
      if NothingLost(v.geo, c, v.owner) {
        FreshTidy(v.geo, c, v.owner, n, NEW_FILE);
      }
      if Counted(v.geo, c) {
        NoIds(v.geo, c.data, NEW_FILE.block, v.geo.MaxBlocks());
        StillCounted(v.geo, c, v.Now(), {n});
      }
    }
  }

  ghost predicate ImageOk(g: Geometry, c: Image, owner: seq<Owner>) {
    && g.SizeOk() && |c.live| == |c.inodes| && FilesOk(g, c, owner, {}) && DirsOk(g, c) && N.TreeOk(TreeOf(g, c))
  }

  /** Directory `p` is still there after inode `n` came into use. */
  lemma DirectoryStays(v: Volume, c0: Image, owner0: seq<Owner>, p: nat, n: nat)
    requires v.Sound() && ImageOk(v.geo, c0, owner0) && OthersSame(v.geo, c0, v.Now(), {n}) && n != p
    requires InTree(c0, p) && IsDir(c0.inodes[p])
    ensures DirectoryAt(v, p) && v.inodes[p] == c0.inodes[p]
    ensures EntriesOf(v, p) == DirMap(v.geo, c0.data, c0.inodes[p].block, c0.inodes[p].size)
    ensures RecordsOf(v, p) == RecordsAt(v.geo, c0, p) && !IsFile(v.inodes[p])
  {
    hide N.TreeOk, DirSound, DirMap;
    OtherNodes(v.geo, c0, owner0, v.Now(), {n}, p);
  }

  /** Giving up an inode without blocks loses nothing. */
  lemma DropEmpty(g: Geometry, c: Image, owner: seq<Owner>, n: nat)
    requires |c.live| == |c.inodes| && 1 <= n < |c.live| && c.live[n] && c.inodes[n].block == EMPTY_INODE.block
    requires NothingLost(g, c, owner)
    ensures NothingLost(g, c.(live := c.live[n := false]), owner)
  {
    TidyInode(g, c, owner, n);
    assert forall j: nat :: IdAt(g, c.data, EMPTY_INODE.block, j) == 0;
    hide IdAt;
  }

  lemma NewFileNode(g: Geometry, owner: seq<Owner>, c1: Image, c2: Image, p: nat, n: nat)
    requires g.SizeOk() && |c1.live| == |c1.inodes| && OthersSame(g, c1, c2, {p}) && n != p && 1 <= n < |c1.live|
    requires c1.live[n] && c1.inodes[n] == NEW_FILE
    ensures InTree(c2, n) && NodeAt(g, c2, n) == N.File([]) && GoodKind(g, c2, n)
  {
    EmptyFileOk(g, c2.data, seq(|c2.data|, _ => Free), n, NEW_FILE.block);
  }

  /** Directory `p` on the images before and after a step on it. */
  ghost predicate EntryStep(g: Geometry, c0: Image, c2: Image, p: nat, records: map<Paths.Name, Rec>) {
    && g.blockSize > 0 && InTree(c0, p) && IsDir(c0.inodes[p]) && InTree(c2, p) && IsDir(c2.inodes[p]) && GoodKind(g, c2, p)
    && RecordsAt(g, c2, p) == records
  }

  /** The empty file `n` came into use, and then directory `p` got a record for it. */
  lemma FileEntered(g: Geometry, c0: Image, owner0: seq<Owner>, c1: Image, c2: Image, p: nat, name: Paths.Name, n: nat)
    requires ImageOk(g, c0, owner0) && OthersSame(g, c0, c1, {n}) && OthersSame(g, c1, c2, {p}) && n != p
    requires ROOT_INODE < n < |c0.live| && !c0.live[n] && c1 == WithInode(c0, n, NEW_FILE) && InTree(c0, p)
    requires IsDir(c0.inodes[p]) && name !in DirMap(g, c0.data, c0.inodes[p].block, c0.inodes[p].size)
    requires EntryStep(g, c0, c2, p, RecordsAt(g, c0, p)[name := Rec(n, TYPE_FILE)])
    ensures DirsOk(g, c2) && N.TreeOk(TreeOf(g, c2))
    ensures N.Fresh(TreeOf(g, c0), p, n, N.File([])) && !IsDots(name) && p in TreeOf(g, c0) && TreeOf(g, c0)[p].Dir?
    ensures TreeOf(g, c2) == N.AddNode(TreeOf(g, c0), p, name, n, N.File([]))
    ensures p in AllRecords(g, c0) && AllRecords(g, c2) == RecordsAdded(AllRecords(g, c0), p, name, n, N.File([]))
    ensures TypesOk(g, c0) ==> TypesOk(g, c2)
    ensures DirBits(g, TreeOf(g, c2)) == DirBits(g, TreeOf(g, c0))
  {
    hide DirSound, DirRecords, N.TreeOk, AllRecords, TypesOk, RecordsAdded, DirsOk, TreeOf, DirBits;
    NewFileNode(g, owner0, c1, c2, p, n);
    NodeFromRecords(g, c0, p);
    NodeFromRecords(g, c2, p);
    assert name !in NodeAt(g, c0, p).entries;
    InosPut(RecordsAt(g, c0, p), name, Rec(n, TYPE_FILE));
    hide NodeAt, RecordsAt, FilesOk, GoodKind;
    BothSteps(g, c0, c1, c2, n, p);
    hide OthersSame;
    Linked(g, c0, owner0, c2, p, name, n, N.File([]));
    LinkedRecords(g, c0, owner0, c2, p, name, n, N.File([]));
    LinkedTypes(g, c0, c2, p, name, n, N.File([]));
    FileCounted(g, TreeOf(g, c0), p, name, n, N.File([]));
  }

  lemma BothSteps(g: Geometry, c0: Image, c1: Image, c2: Image, n: nat, p: nat)
    requires OthersSame(g, c0, c1, {n}) && OthersSame(g, c1, c2, {p})
    ensures OthersSame(g, c0, c2, {n, p})
  {
    hide OthersSame;
    OthersSameMore(g, c0, c1, {n}, {n, p});
    OthersSameMore(g, c1, c2, {p}, {n, p});
    OthersSameTransitive(g, c0, c1, c2, {n, p});
  }

  /** Directory `p` got no record, and `n` was given back. */
  lemma NothingEntered(g: Geometry, c0: Image, owner0: seq<Owner>, c2: Image, p: nat, n: nat)
    requires ImageOk(g, c0, owner0) && OthersSame(g, c0, c2, {n, p}) && n != p && !InTree(c0, n) && !InTree(c2, n)
    requires InTree(c0, p) && EntryStep(g, c0, c2, p, RecordsAt(g, c0, p))
    ensures TreeOf(g, c2) == TreeOf(g, c0) && DirsOk(g, c2) && N.TreeOk(TreeOf(g, c2))
    ensures p in TreeOf(g, c0) && TreeOf(g, c0)[p].Dir? && p in AllRecords(g, c0)
    ensures AllRecords(g, c2) == AllRecords(g, c0) && (TypesOk(g, c0) ==> TypesOk(g, c2))
  {
    hide DirSound, DirRecords, N.TreeOk, DirsOk, FilesOk, OthersSame, RecordsAt;
    NodeFromRecords(g, c0, p);
    NodeFromRecords(g, c2, p);
    hide NodeAt, GoodKind;
    Undone(g, c0, owner0, c2, p, n);
    UndoneRecords(g, c0, owner0, c2, p, n);
  }

  /** Hangs the empty file `n` under `name`, or takes it back. */
  method LinkFile(v: Volume, ghost c0: Image, ghost owner0: seq<Owner>, p: nat, parent: Inode, name: Paths.Name, n: nat)
    returns (linked: bool)
    requires v.Sound() && ImageOk(v.geo, c0, owner0) && n < |c0.live|
    requires v.Now() == WithInode(c0, n, NEW_FILE) && OthersSame(v.geo, c0, v.Now(), {n})
    requires ROOT_INODE < n <= v.geo.inodesCount && !c0.live[n]
    requires InTree(c0, p) && parent == c0.inodes[p] && IsDir(parent) && NameOk(name)
    requires name !in DirMap(v.geo, c0.data, parent.block, parent.size)
    modifies v, v.groups, v.blockUsed, v.inodeUsed, v.inodes, v.data
    ensures Mounted(v)
    ensures p in TreeOf(v.geo, c0) && TreeOf(v.geo, c0)[p].Dir?
    ensures linked ==>
              && N.Fresh(TreeOf(v.geo, c0), p, n, N.File([])) && !IsDots(name)
              && TreeOf(v.geo, v.Now()) == N.AddNode(TreeOf(v.geo, c0), p, name, n, N.File([]))
    ensures !linked ==> TreeOf(v.geo, v.Now()) == TreeOf(v.geo, c0)
    ensures p in AllRecords(v.geo, c0)
    ensures AllRecords(v.geo, v.Now()) == if linked then RecordsAdded(AllRecords(v.geo, c0), p, name, n, N.File([]))
                                          else AllRecords(v.geo, c0)
    ensures TypesOk(v.geo, c0) ==> TypesOk(v.geo, v.Now())
    ensures DirBits(v.geo, TreeOf(v.geo, v.Now())) == DirBits(v.geo, TreeOf(v.geo, c0))
    ensures linked <==> HasRoom(v.geo, c0, old(v.freeBlocks), p, |name|)
    ensures NothingLost(v.geo, old(v.Now()), old(v.owner)) ==> NothingLost(v.geo, v.Now(), v.owner)
    ensures Counted(v.geo, old(v.Now())) ==> Counted(v.geo, v.Now())
    ensures DirCounts(v.groups[..]) == old(DirCounts(v.groups[..]))
  {
    hide Geometry.GroupsCover, BlockCountersAgree, InodeCountersAgree, N.TreeOk, IdAt, NothingLost, TreeOf, DirsOk,
      DirMap, DirSound, OwnerBits, SameContent, SameIds, CanGrow, NoRoom, Counted, AllRecords, TypesOk, DirRecords, RecordsAdded, DirBits;
    ghost var c1 := v.Now();
    assert c1.data == c0.data;
    DirectoryStays(v, c0, owner0, p, n);
    hide ImageOk;
    var dir';
    linked, dir' := AddDirEntry(v, p, parent, n, name, TYPE_FILE);
    ghost var c2 := v.Now();
    BothSteps(v.geo, c0, c1, c2, n, p);
    if linked {
      FileEntered(v.geo, c0, owner0, c1, c2, p, name, n);
    } else {
      ghost var owner1 := v.owner;
      var ok := v.MarkInodeUsed(n, false, false);
      if NothingLost(v.geo, c2, owner1) {
        DropEmpty(v.geo, c2, owner1, n);
      }
      if Counted(v.geo, c2) { CountedFewer(v.geo, c2, n); }
      NothingEntered(v.geo, c0, owner0, v.Now(), p, n);
    }
  }

  /** A new node `n` hangs under the parent of `path`, by the last name of `path`. */
  ghost predicate Made(t: N.Tree, t': N.Tree, path: Path, n: nat, node: N.Node) {
    && HasParent(t, path) && Resolve(t, path).None?
    && NameOf(path) !in t[ParentOf(t, path).value].entries && !IsDots(NameOf(path))
    && N.Fresh(t, ParentOf(t, path).value, n, node)
    && t' == N.AddNode(t, ParentOf(t, path).value, NameOf(path), n, node)
  }

  /** A file can be made: the name is free, an inode is free, and the parent has or can get room for the entry. */
  ghost predicate Creatable(g: Geometry, c: Image, freeBlocks: nat, path: Path)
    requires g.blockSize > 0 && |c.live| == |c.inodes| == g.inodesCount + 1
  {
    var t := TreeOf(g, c);
    && HasParent(t, path) && Resolve(t, path).None?
    && !(g.firstInode > g.inodesCount || Counting.AllSet(c.live, g.firstInode, g.inodesCount + 1))
    && HasRoom(g, c, freeBlocks, ParentOf(t, path).value, |NameOf(path)|)
  }

  ghost predicate HasRoom(g: Geometry, c: Image, freeBlocks: nat, p: nat, nameLen: nat)
    requires g.blockSize > 0
  {
    p < |c.inodes| &&
    var dir := c.inodes[p];
    || !NoRoom(DirBlocks(g, c.data, dir.block, dir.size), nameLen)
    || CanGrow(g, c.data, dir.block, dir.size / g.blockSize, freeBlocks)
  }

  /** What making `n` may do to the tree, by the result. */
  ghost predicate MakeResult(t: N.Tree, t': N.Tree, path: Path, n: nat, node: N.Node, synced: bool, r: int) {
    && (n != 0 ==> Made(t, t', path, n, node) && r == if synced then OK else ERR_FAULT)
    && (n == 0 ==> t' == t && (r == ERR_INVAL || r == ERR_FAULT))
    && (r == ERR_INVAL <==> Resolve(t, path).Some? || !HasParent(t, path) || !ParentFits(path, PATH_SIZE))
  }

  /** What making `n` does to the records: the name's record gets the type of the new node. */
  ghost predicate MakeRecords(t: N.Tree, records: Records, records': Records, path: Path, n: nat, node: N.Node) {
    if n == 0 then records' == records
    else
      && HasParent(t, path) && ParentOf(t, path).value in records
      && records' == RecordsAdded(records, ParentOf(t, path).value, NameOf(path), n, node)
  }

  /** ext2_create_file; `n` is the new inode, 0 if none was made. */
  method CreateFile(v: Volume, path: Path, synced: bool) returns (r: int, n: nat)
    requires Mounted(v)
    modifies v, v.groups, v.blockUsed, v.inodeUsed, v.inodes, v.data
    ensures Mounted(v)
    ensures MakeResult(old(TreeOf(v.geo, v.Now())), TreeOf(v.geo, v.Now()), path, n, N.File([]), synced, r)
    ensures MakeRecords(old(TreeOf(v.geo, v.Now())), old(AllRecords(v.geo, v.Now())), AllRecords(v.geo, v.Now()), path, n, N.File([]))
    ensures TypesOk(v.geo, old(v.Now())) ==> TypesOk(v.geo, v.Now())
    ensures n != 0 <==> ParentFits(path, PATH_SIZE) && Creatable(v.geo, old(v.Now()), old(v.freeBlocks), path)
    ensures NothingLost(v.geo, old(v.Now()), old(v.owner)) ==> NothingLost(v.geo, v.Now(), v.owner)
    ensures Counted(v.geo, old(v.Now())) ==> Counted(v.geo, v.Now())
    ensures DirCounts(v.groups[..]) == old(DirCounts(v.groups[..]))
    ensures DirsCounted(v.geo, old(TreeOf(v.geo, v.Now())), old(DirCounts(v.groups[..]))) ==>
              DirsCounted(v.geo, TreeOf(v.geo, v.Now()), DirCounts(v.groups[..]))
  {
    hide Geometry.GroupsCover, BlockCountersAgree, InodeCountersAgree, N.TreeOk, DirsOk, IdAt, NothingLost, TreeOf,
      DirMap, DirSound, FilesOk, OthersSame, OwnerBits, Counted, AllRecords, TypesOk, RecordsAdded, DirBits;
    r, n := ERR_INVAL, 0;
    var found, existing, e := PathLookup(v, path);
    if found {
      return;
    }
    var ok, parent, p, name := ParentLookup(v, path);
    if !ok {
      return;
    }
    EnterInode(v, p, name);
    found, e := FindInDir(v, p, parent, name);
    if found {
      return;
    }
    ghost var c0, owner0 := v.Now(), v.owner;
    n := NewFileInode(v);
    if n == 0 {
      return ERR_FAULT, 0;
    }
    var linked := LinkFile(v, c0, owner0, p, parent, name, n);
    n := if linked then n else 0;
    r := if linked && synced then OK else ERR_FAULT;
  }
}
