/** ext2_unlink and ext2_rmdir, and how they undo ext2_create_file and ext2_mkdir. */
module Ext2Remove {
  import opened Bytes
  import opened Paths
  import opened Ext2Layout
  import opened Ext2Files
  import opened Ext2Bytes
  import opened Ext2Volume
  import opened Ext2Inodes
  import opened Ext2FileOps
  import opened Ext2DirBlocks
  import opened Ext2DirScan
  import opened Ext2DirMap
  import opened Ext2DirOps
  import opened Ext2Tree
  import opened Ext2Types
  import opened Ext2DirCounts
  import opened Ext2Namespace
  import opened Ext2Create
  import opened Ext2Mkdir
  import N = Namespace

  // ---------- giving up an inode ----------

  /** An inode without blocks that is tidy owns nothing. */
  lemma OwnsNothing(g: Geometry, data: seq<Block>, owner: seq<Owner>, n: nat, m: BlockMap, b: nat)
    requires Tidy(g, data, owner, n, m, 0) && m[12] == 0 && 0 < b < |owner|
    requires forall j: nat :: j < g.MaxBlocks() ==> IdAt(g, data, m, j) == 0
    ensures !OwnedBy(owner[b], n)
  {
    hide IdAt;
  }

  /** Giving up inode `n` with all its blocks loses nothing. */
  lemma DropLosesNothing(g: Geometry, c: Image, owner: seq<Owner>, c': Image, owner': seq<Owner>, n: nat, m: BlockMap)
    requires |c.live| == |c.inodes| == |c'.inodes| && 1 <= n < |c.live| && c'.live == c.live[n := false]
    requires Touches({n}, c.data, owner, c'.data, owner') && OthersSame(g, c, c', {n}) && NothingLost(g, c, owner)
    requires Tidy(g, c'.data, owner', n, m, 0) && m[12] == 0
    requires forall j: nat :: j < g.MaxBlocks() ==> IdAt(g, c'.data, m, j) == 0
    ensures NothingLost(g, c', owner')
  {
    hide IdAt, Content, SameContent;
    forall b | 0 < b < |owner'|
      ensures !OwnedBy(owner'[b], n)
    {
      OwnsNothing(g, c'.data, owner', n, m, b);
    }
    forall i | 1 <= i < |c.live| && c'.live[i]
      ensures Tidy(g, c'.data, owner', i, c'.inodes[i].block, 0)
    {
      assert Tidy(g, c.data, owner, i, c.inodes[i].block, 0);
    }
  }

  /** free_inode_blocks, write_inode of zeros and mark_inode_used(false). */
  method DropInode(v: Volume, n: nat, ino: Inode, isDir: bool)
    requires v.Sound() && v.Live(n) && ino == v.inodes[n] && n != 0
    modifies v, v.groups, v.blockUsed, v.inodeUsed, v.inodes, v.data
    ensures v.Sound() && OthersSame(v.geo, old(v.Now()), v.Now(), {n})
    ensures v.Now().live == old(v.Now()).live[n := false] && v.inodes[..] == old(v.inodes[..])[n := EMPTY_INODE]
    ensures NothingLost(v.geo, old(v.Now()), old(v.owner)) ==> NothingLost(v.geo, v.Now(), v.owner)
    ensures Counted(v.geo, old(v.Now())) ==> Counted(v.geo, v.Now())
    ensures DirCounts(v.groups[..]) ==
            if isDir then DirsMoved(v.geo, old(DirCounts(v.groups[..])), n, false) else old(DirCounts(v.groups[..]))
  {
    hide Geometry.GroupsCover, BlockCountersAgree, InodeCountersAgree, IdAt, NothingLost, Tidy, SectorCount;
    ghost var c, owner := v.Now(), v.owner;
    assert FileOk(v.geo, c.data, owner, n, ino.block, ino.size);
    var ok, gone := FreeInodeBlocks(v, n, ino, 0);
    ok := v.WriteInode(n, EMPTY_INODE);
    ok := v.MarkInodeUsed(n, false, isDir);
    hide Touches, FileOk, SameContent, SameIds;
    assert FilesOk(v.geo, c, owner, {n});
    Confined(v.geo, c, owner, v.Now(), v.owner, {n});
    if NothingLost(v.geo, c, owner) {
      TidyInode(v.geo, c, owner, n);
      DropLosesNothing(v.geo, c, owner, v.Now(), v.owner, n, gone.block);
    }
    if Counted(v.geo, c) { StillCounted(v.geo, c, v.Now(), {n}); }
  }

  // ---------- removing a name ----------

  /** What removing `name` from directory `p` and giving up the inode behind it amounts to. */
  lemma Unlinked(g: Geometry, c0: Image, owner0: seq<Owner>, c1: Image, p: nat, name: Paths.Name, n: nat)
    requires ImageOk(g, c0, owner0) && OthersSame(g, c0, c1, {n, p})
    requires InTree(c0, p) && N.Removable(TreeOf(g, c0), p, name) && N.Enter(TreeOf(g, c0), p, name) == Some(n)
    requires InTree(c1, p) && NodeAt(g, c0, p).Dir? && GoodKind(g, c1, p) && !InTree(c1, n)
    requires NodeAt(g, c1, p) == N.Dir(NodeAt(g, c0, p).entries - {name})
    ensures TreeOf(g, c1) == N.RemoveNode(TreeOf(g, c0), p, name)
    ensures DirsOk(g, c1) && N.TreeOk(TreeOf(g, c1))
  {
    hide N.TreeOk, DirsOk;
    OtherTree(g, c0, owner0, c1, {n, p});
    var t, t' := TreeOf(g, c0), TreeOf(g, c1);
    assert t[p] == NodeAt(g, c0, p) && t'[p] == NodeAt(g, c1, p);
    assert n !in t';
    hide NodeAt, GoodKind, InTree, FilesOk, OthersSame, TreeOf;
    TakenOut(t, t', p, n);
    N.RemoveKeepsTree(t, p, name);
  }

  /** Directory `p` lost its record for `n`, and `n` was given up. */
  lemma NodeRemoved(g: Geometry, c0: Image, owner0: seq<Owner>, c1: Image, p: nat, name: Paths.Name, n: nat)
    requires ImageOk(g, c0, owner0) && OthersSame(g, c0, c1, {n, p}) && n != p && !InTree(c1, n)
    requires InTree(c0, p) && N.Removable(TreeOf(g, c0), p, name) && N.Enter(TreeOf(g, c0), p, name) == Some(n)
    requires IsDir(c0.inodes[p]) && EntryStep(g, c0, c1, p, RecordsAt(g, c0, p) - {name})
    ensures TreeOf(g, c1) == N.RemoveNode(TreeOf(g, c0), p, name) && DirsOk(g, c1) && N.TreeOk(TreeOf(g, c1))
    ensures p in AllRecords(g, c0) && name in AllRecords(g, c0)[p]
    ensures AllRecords(g, c1) == RecordsRemoved(AllRecords(g, c0), p, name)
    ensures TypesOk(g, c0) ==> TypesOk(g, c1)
  {
    hide DirSound, DirRecords, N.TreeOk, N.Removable, AllRecords, DirsOk, OthersSame, FilesOk;
    assert TreeOf(g, c0)[p] == NodeAt(g, c0, p);
    hide TreeOf;
    NodeFromRecords(g, c0, p);
    NodeFromRecords(g, c1, p);
    InosCut(RecordsAt(g, c0, p), name);
    hide NodeAt, GoodKind, RecordsAt;
    Unlinked(g, c0, owner0, c1, p, name, n);
    UnlinkedRecords(g, c0, owner0, c1, p, n);
    RecordsAgree(g, c0);
    hide Typed, InTree;
    if TypesOk(g, c0) {
      TypedRemove(TreeOf(g, c0), AllRecords(g, c0), p, name);
    }
  }

  lemma TakenOut(t: N.Tree, t': N.Tree, p: nat, n: nat)
    requires t' - {n, p} == t - {n, p} && n !in t' && p in t'
    ensures t' == t[p := t'[p]] - {n}
  {
    assert forall k :: k in t' && k != n && k != p ==> k in t' - {n, p};
    assert forall k :: k in t && k != n && k != p ==> k in t - {n, p};
  }

  /** What unlink accepts: a path to a file. */
  ghost predicate UnlinkTarget(t: N.Tree, path: Path) {
    && HasParent(t, path) && N.Enter(t, ParentOf(t, path).value, NameOf(path)).Some?
    && var n := N.Enter(t, ParentOf(t, path).value, NameOf(path)).value;
       n in t && t[n].File?
  }

  /** What rmdir accepts: a path to a directory with nothing but its dots, and that does not end in a dot name. */
  ghost predicate RmdirTarget(t: N.Tree, path: Path) {
    && HasParent(t, path) && N.Enter(t, ParentOf(t, path).value, NameOf(path)).Some? && !IsDots(NameOf(path))
    && var n := N.Enter(t, ParentOf(t, path).value, NameOf(path)).value;
       n in t && t[n].Dir? && forall x :: x in t[n].entries ==> IsDots(x)
  }

  /** Files are not called by a dot name, so both kinds of target may be removed from the tree. */
  lemma TargetRemovable(t: N.Tree, path: Path)
    requires N.TreeOk(t) && (UnlinkTarget(t, path) || RmdirTarget(t, path))
    ensures N.Removable(t, ParentOf(t, path).value, NameOf(path))
  {
    var p := ParentOf(t, path).value;
    assert N.DotsOk(t, p);
  }

  /** rmdir's parent.links_count--, which stops at zero. */
  method UncountLink(v: Volume, p: nat, parent: Inode)
    requires v.Sound() && v.Live(p) && (IsDir(parent) || IsFile(parent)) && parent == v.inodes[p]
    modifies v.inodes
    ensures v.Sound() && OthersSame(v.geo, old(v.Now()), v.Now(), {p})
    ensures v.Now() == old(v.Now()).(inodes := old(v.inodes[..])[p := v.inodes[p]])
    ensures v.inodes[p] == if parent.links > 0 then parent.(links := parent.links - 1) else parent
    ensures NothingLost(v.geo, old(v.Now()), v.owner) ==> NothingLost(v.geo, v.Now(), v.owner)
    ensures Counted(v.geo, old(v.Now())) ==> Counted(v.geo, v.Now())
  {
    hide Geometry.GroupsCover, BlockCountersAgree, InodeCountersAgree, IdAt, DirSound, NothingLost, SameContent, SameIds;
    if parent.links > 0 {
      LinksChanged(v.geo, v.Now(), v.owner, p, parent.(links := parent.links - 1));
      ghost var c := v.Now();
      var ok := v.WriteInode(p, parent.(links := parent.links - 1));
      if Counted(v.geo, c) {
        CountOfInode(v.geo, c, p);
        CountedAt(v.geo, c, v.Now(), p);
      }
    } else {
      hide OthersSame;
      assert v.inodes[..] == v.inodes[..][p := v.inodes[p]];
      NothingDone(v.geo, v.Now(), {p});
    }
  }

  lemma NothingDone(g: Geometry, c: Image, who: set<nat>)
    requires |c.live| == |c.inodes|
    ensures OthersSame(g, c, c, who)
  {
  }

  /** remove_dir_entry and, for a directory, the parent's lost link. */
  method TakeName(v: Volume, p: nat, parent: Inode, name: Paths.Name, isDir: bool) returns (ok: bool, removed: nat)
    requires DirectoryAt(v, p) && parent == v.inodes[p] && NameOk(name)
    modifies v.inodes, v.data
    ensures v.Sound() && ok == (name in old(EntriesOf(v, p))) && (ok ==> removed == old(EntriesOf(v, p))[name])
    ensures v.Now().live == old(v.Now()).live && v.inodes[..] == old(v.inodes[..])[p := v.inodes[p]]
    ensures OthersSame(v.geo, old(v.Now()), v.Now(), {p})
    ensures v.inodes[p] == if ok && isDir && parent.links > 0 then parent.(links := parent.links - 1) else parent
    ensures ok && RemovalSafe(old(DirBlocks(v.geo, v.data[..], parent.block, parent.size)), name) ==>
              DirectoryAt(v, p) && RecordsOf(v, p) == old(RecordsOf(v, p)) - {name}
    ensures NothingLost(v.geo, old(v.Now()), v.owner) ==> NothingLost(v.geo, v.Now(), v.owner)
    ensures Counted(v.geo, old(v.Now())) ==> Counted(v.geo, v.Now())
  {
    hide Geometry.GroupsCover, BlockCountersAgree, InodeCountersAgree, IdAt, NothingLost, SameIds, RemovalSafe, DirMap,
      DirSound, DirBlocks, SameContent, Touches, DirRecords;
    ghost var c0 := v.Now();
    ok, removed := RemoveDirEntry(v, p, parent, name);
    if ok && isDir {
      ghost var c1 := v.Now();
      UncountLink(v, p, parent);
      OthersSameTransitive(v.geo, c0, c1, v.Now(), {p});
    }
  }

  lemma TwoSteps(g: Geometry, c0: Image, c1: Image, c2: Image, n: nat, p: nat)
    requires OthersSame(g, c0, c1, {p}) && OthersSame(g, c1, c2, {n})
    ensures OthersSame(g, c0, c2, {n, p})
  {
    hide OthersSame;
    OthersSameMore(g, c0, c1, {p}, {n, p});
    OthersSameMore(g, c1, c2, {n}, {n, p});
    OthersSameTransitive(g, c0, c1, c2, {n, p});
  }

  lemma RemovedCounts(g: Geometry, t: N.Tree, t': N.Tree, dirs: seq<nat>, p: nat, name: Paths.Name, n: nat)
    requires g.Ok() && N.TreeOk(t) && N.Removable(t, p, name) && N.Enter(t, p, name) == Some(n) && 1 <= n <= g.inodesCount
    requires t' == N.RemoveNode(t, p, name)
    ensures n in t && (DirsCounted(g, t, dirs) ==> DirsCounted(g, t', if t[n].Dir? then DirsMoved(g, dirs, n, false) else dirs))
  {
    if DirsCounted(g, t, dirs) {
      RemovedCounted(g, t, dirs, p, name);
    }
  }

  lemma InRecords(g: Geometry, c: Image, p: nat, name: Paths.Name)
    requires g.blockSize > 0 && DirsOk(g, c) && N.Enter(TreeOf(g, c), p, name).Some?
    ensures p in AllRecords(g, c) && name in AllRecords(g, c)[p]
  {
    RecordsAgree(g, c);
  }

  /** The part of unlink and rmdir behind their checks: the entry goes, then the inode. */
  method RemoveName(v: Volume, p: nat, parent: Inode, name: Paths.Name, n: nat, ino: Inode, isDir: bool) returns (ok: bool)
    requires Mounted(v) && InTree(v.Now(), p) && parent == v.inodes[p] && IsDir(parent) && NameOk(name) && p <= v.geo.inodesCount
    requires N.Enter(TreeOf(v.geo, v.Now()), p, name) == Some(n) && N.Removable(TreeOf(v.geo, v.Now()), p, name)
    requires InTree(v.Now(), n) && n <= v.geo.inodesCount && ino == v.inodes[n] && n != p
    modifies v, v.groups, v.blockUsed, v.inodeUsed, v.inodes, v.data
    ensures ok && v.Sound() && OthersSame(v.geo, old(v.Now()), v.Now(), {n, p})
    ensures RemovalSafe(DirBlocks(v.geo, old(v.data[..]), parent.block, parent.size), name) ==>
              Mounted(v) && TreeOf(v.geo, v.Now()) == N.RemoveNode(old(TreeOf(v.geo, v.Now())), p, name)
    ensures p in old(AllRecords(v.geo, v.Now())) && name in old(AllRecords(v.geo, v.Now()))[p]
    ensures RemovalSafe(DirBlocks(v.geo, old(v.data[..]), parent.block, parent.size), name) ==>
              && AllRecords(v.geo, v.Now()) == RecordsRemoved(old(AllRecords(v.geo, v.Now())), p, name)
              && (TypesOk(v.geo, old(v.Now())) ==> TypesOk(v.geo, v.Now()))
    ensures RemovalSafe(DirBlocks(v.geo, old(v.data[..]), parent.block, parent.size), name) && (isDir <==> IsDir(ino)) ==>
              DirsCounted(v.geo, old(TreeOf(v.geo, v.Now())), old(DirCounts(v.groups[..]))) ==>
              DirsCounted(v.geo, TreeOf(v.geo, v.Now()), DirCounts(v.groups[..]))
    ensures v.inodes[p] == if isDir && parent.links > 0 then parent.(links := parent.links - 1) else parent
    ensures NothingLost(v.geo, old(v.Now()), old(v.owner)) ==> NothingLost(v.geo, v.Now(), v.owner)
    ensures Counted(v.geo, old(v.Now())) ==> Counted(v.geo, v.Now())
    ensures DirCounts(v.groups[..]) ==
            if isDir then DirsMoved(v.geo, old(DirCounts(v.groups[..])), n, false) else old(DirCounts(v.groups[..]))
  {
    hide Geometry.GroupsCover, BlockCountersAgree, InodeCountersAgree, N.TreeOk, IdAt, NothingLost, DirsOk,
      DirMap, DirSound, DirBlocks, OwnerBits, SameContent, SameIds, RemovalSafe, Touches, N.Removable, TreeOf,
      DirRecords, AllRecords, TypesOk, RecordsRemoved, DirsCounted, DirCounts, DirsMoved;
    ghost var c0, owner0 := v.Now(), v.owner;
    EnterInode(v, p, name);
    DirNode(v, n);
    assert DirectoryAt(v, p);
    var removed;
    ok, removed := TakeName(v, p, parent, name, isDir);
    ghost var c1 := v.Now();
    DropInode(v, n, ino, isDir);
    TwoSteps(v.geo, c0, c1, v.Now(), n, p);
    InRecords(v.geo, c0, p, name);
    if RemovalSafe(DirBlocks(v.geo, c0.data, parent.block, parent.size), name) {
      OtherNodes(v.geo, c1, owner0, v.Now(), {n}, p);
      hide OthersSame;
      NodeRemoved(v.geo, c0, owner0, v.Now(), p, name, n);
      RemovedCounts(v.geo, TreeOf(v.geo, c0), TreeOf(v.geo, v.Now()), old(DirCounts(v.groups[..])), p, name, n);
    }
  }

  /** What a removal may do to the tree, by the result. */
  ghost predicate RemoveResult(t: N.Tree, t': N.Tree, path: Path, target: bool, safe: bool, synced: bool, r: int) {
    && (r != ERR_INVAL <==> target && ParentFits(path, PATH_SIZE))
    && (if r == ERR_INVAL then t' == t else r == if synced then OK else ERR_FAULT)
    && (r != ERR_INVAL && safe && HasParent(t, path) && N.Removable(t, ParentOf(t, path).value, NameOf(path)) ==>
          t' == N.RemoveNode(t, ParentOf(t, path).value, NameOf(path)))
  }

  /** And to the records. */
  ghost predicate RemoveRecords(t: N.Tree, records: Records, records': Records, path: Path, r: int) {
    if r == ERR_INVAL then records' == records
    else
      && HasParent(t, path) && ParentOf(t, path).value in records && NameOf(path) in records[ParentOf(t, path).value]
      && records' == RecordsRemoved(records, ParentOf(t, path).value, NameOf(path))
  }

  /** The entry of the path's name can be taken out of its directory without skipping a dead record. */
  ghost predicate PathSafe(g: Geometry, c: Image, path: Path)
    requires g.blockSize > 0
  {
    HasParent(TreeOf(g, c), path) &&
    var p := ParentOf(TreeOf(g, c), path).value;
    p < |c.inodes| && RemovalSafe(DirBlocks(g, c.data, c.inodes[p].block, c.inodes[p].size), NameOf(path))
  }

  method Unlink(v: Volume, path: Path, synced: bool) returns (r: int, ghost p: nat)
    requires Mounted(v)
    modifies v, v.groups, v.blockUsed, v.inodeUsed, v.inodes, v.data
    ensures v.Sound() && (r == ERR_INVAL || PathSafe(v.geo, old(v.Now()), path) ==> Mounted(v))
    ensures RemoveResult(old(TreeOf(v.geo, v.Now())), TreeOf(v.geo, v.Now()), path,
                         UnlinkTarget(old(TreeOf(v.geo, v.Now())), path), PathSafe(v.geo, old(v.Now()), path), synced, r)
    ensures r == ERR_INVAL ==> v.Now() == old(v.Now()) && v.owner == old(v.owner)
    ensures r != ERR_INVAL ==> p <= v.geo.inodesCount && v.inodes[p] == old(v.inodes[p])
                               && ParentOf(old(TreeOf(v.geo, v.Now())), path) == Some(p)
    ensures NothingLost(v.geo, old(v.Now()), old(v.owner)) ==> NothingLost(v.geo, v.Now(), v.owner)
    ensures Counted(v.geo, old(v.Now())) ==> Counted(v.geo, v.Now())
    ensures DirCounts(v.groups[..]) == old(DirCounts(v.groups[..]))
    ensures r == ERR_INVAL || PathSafe(v.geo, old(v.Now()), path) ==>
              && RemoveRecords(old(TreeOf(v.geo, v.Now())), old(AllRecords(v.geo, v.Now())), AllRecords(v.geo, v.Now()), path, r)
              && (TypesOk(v.geo, old(v.Now())) ==> TypesOk(v.geo, v.Now()))
    ensures r == ERR_INVAL || PathSafe(v.geo, old(v.Now()), path) ==>
              DirsCounted(v.geo, old(TreeOf(v.geo, v.Now())), old(DirCounts(v.groups[..]))) ==>
              DirsCounted(v.geo, TreeOf(v.geo, v.Now()), DirCounts(v.groups[..]))
  {
    hide Geometry.GroupsCover, BlockCountersAgree, InodeCountersAgree, N.TreeOk, DirsOk, IdAt, NothingLost,
      DirMap, DirSound, FilesOk, OthersSame, OwnerBits, RemovalSafe, TreeOf, NodeAt, GoodKind, AllRecords, TypesOk, RecordsRemoved, DirsCounted;
    p := 0;
    var ok, parent, d, name := ParentLookup(v, path);
    if !ok {
      return ERR_INVAL, p;
    }
    p := d;
    EnterInode(v, d, name);
    var n, ino;
    ok, n := FindInDir(v, d, parent, name);
    if !ok {
      return ERR_INVAL, p;
    }
    DirNode(v, n);
    FileKind(v, n);
    ok, ino := v.ReadInode(n);
    if !ok || !IsFile(ino) {
      return ERR_INVAL, p;
    }
    TargetRemovable(TreeOf(v.geo, v.Now()), path);
    ok := RemoveName(v, d, parent, name, n, ino, false);
    return if synced then OK else ERR_FAULT, p;
  }

  /** Behind a node is a file or a directory, whose blocks are in order and hold what the tree shows. */
  lemma FileKind(v: Volume, n: nat)
    requires Mounted(v) && InTree(v.Now(), n)
    ensures IsFile(v.inodes[n]) <==> !IsDir(v.inodes[n])
    ensures v.geo.SizeOk() && n in TreeOf(v.geo, v.Now()) && TreeOf(v.geo, v.Now())[n] == NodeAt(v.geo, v.Now(), n)
    ensures IsDir(v.inodes[n]) ==> NodeAt(v.geo, v.Now(), n) == N.Dir(DirMap(v.geo, v.data[..], v.inodes[n].block, v.inodes[n].size))
    ensures Holds(v.geo, v.data[..], v.owner, n, v.inodes[n].block)
    ensures IsDir(v.inodes[n]) ==> DirSound(v.geo, v.data[..], v.inodes[n].block, v.inodes[n].size)
  {
    assert GoodKind(v.geo, v.Now(), n);
    assert FileOk(v.geo, v.data[..], v.owner, n, v.inodes[n].block, v.inodes[n].size);
  }

  method RemoveDirectory(v: Volume, path: Path, synced: bool) returns (r: int, ghost p: nat)
    requires Mounted(v)
    modifies v, v.groups, v.blockUsed, v.inodeUsed, v.inodes, v.data
    ensures v.Sound() && (r == ERR_INVAL || PathSafe(v.geo, old(v.Now()), path) ==> Mounted(v))
    ensures RemoveResult(old(TreeOf(v.geo, v.Now())), TreeOf(v.geo, v.Now()), path,
                         RmdirTarget(old(TreeOf(v.geo, v.Now())), path), PathSafe(v.geo, old(v.Now()), path), synced, r)
    ensures r != ERR_INVAL ==>
              && HasParent(old(TreeOf(v.geo, v.Now())), path) && p == ParentOf(old(TreeOf(v.geo, v.Now())), path).value
              && p <= v.geo.inodesCount
              && v.inodes[p].links == if old(v.inodes[p].links) > 0 then old(v.inodes[p].links) - 1 else 0
    ensures r == ERR_INVAL ==> v.Now() == old(v.Now()) && v.owner == old(v.owner)
    ensures NothingLost(v.geo, old(v.Now()), old(v.owner)) ==> NothingLost(v.geo, v.Now(), v.owner)
    ensures Counted(v.geo, old(v.Now())) ==> Counted(v.geo, v.Now())
    ensures r == ERR_INVAL ==> DirCounts(v.groups[..]) == old(DirCounts(v.groups[..]))
    ensures r != ERR_INVAL ==>
              var e := N.Enter(old(TreeOf(v.geo, v.Now())), p, NameOf(path));
              && e.Some? && 0 < e.value
              && DirCounts(v.groups[..]) == DirsMoved(v.geo, old(DirCounts(v.groups[..])), e.value, false)
    ensures r == ERR_INVAL || PathSafe(v.geo, old(v.Now()), path) ==>
              && RemoveRecords(old(TreeOf(v.geo, v.Now())), old(AllRecords(v.geo, v.Now())), AllRecords(v.geo, v.Now()), path, r)
              && (TypesOk(v.geo, old(v.Now())) ==> TypesOk(v.geo, v.Now()))
    ensures r == ERR_INVAL || PathSafe(v.geo, old(v.Now()), path) ==>
              DirsCounted(v.geo, old(TreeOf(v.geo, v.Now())), old(DirCounts(v.groups[..]))) ==>
              DirsCounted(v.geo, TreeOf(v.geo, v.Now()), DirCounts(v.groups[..]))
  {
    hide Geometry.GroupsCover, BlockCountersAgree, InodeCountersAgree, N.TreeOk, DirsOk, IdAt, NothingLost,
      DirMap, DirSound, FilesOk, OthersSame, OwnerBits, RemovalSafe, TreeOf, NodeAt, GoodKind, IsDir, IsFile, AllRecords, TypesOk,
      RecordsRemoved, DirsCounted;
    p := 0;
    var ok, parent, d, name := ParentLookup(v, path);
    if !ok || (|name| == 1 && name[0] == DOT) || (|name| == 2 && name[0] == DOT && name[1] == DOT) {
      return ERR_INVAL, p;
    }
    p := d;
    assert !IsDots(name);
    EnterInode(v, d, name);
    var n, ino, empty;
    ok, n := FindInDir(v, d, parent, name);
    if !ok {
      return ERR_INVAL, p;
    }
    DirNode(v, n);
    FileKind(v, n);
    ok, ino := v.ReadInode(n);
    if !ok || !IsDir(ino) {
      return ERR_INVAL, p;
    }
    empty := DirIsEmpty(v, n, ino);
    OnlyDotsIs(DirMap(v.geo, v.data[..], ino.block, ino.size));
    if !empty {
      return ERR_INVAL, p;
    }
    TargetRemovable(TreeOf(v.geo, v.Now()), path);
    DirNode(v, d);
    ok := RemoveName(v, d, parent, name, n, ino, true);
    return if synced then OK else ERR_FAULT, p;
  }

  // ---------- making and removing ----------

  /** What exists is still found, by whatever path, after a new node was added. */
  lemma {:induction false} FoundAfterAdd(t: N.Tree, p: nat, name: Paths.Name, n: nat, node: N.Node, d: nat, names: seq<Paths.Name>)
    requires p in t && t[p].Dir? && name !in t[p].entries && N.Fresh(t, p, n, node) && N.Lookup(t, d, names).Some?
    ensures N.Lookup(N.AddNode(t, p, name, n, node), d, names) == N.Lookup(t, d, names)
    decreases |names|
  {
    if names != [] {
      FoundAfterAdd(t, p, name, n, node, N.Enter(t, d, names[0]).value, names[1..]);
    }
  }

  /** The new node is what the path now leads to, and the matching removal accepts the path and restores the tree. */
  lemma MakeThenRemove(t: N.Tree, t': N.Tree, path: Path, n: nat, node: N.Node)
    requires N.TreeOk(t) && Made(t, t', path, n, node)
    ensures Resolve(t', path) == Some(n) && t'[n] == node && ParentOf(t', path) == ParentOf(t, path)
    ensures if node.File? then UnlinkTarget(t', path) else RmdirTarget(t', path)
    ensures N.Removable(t', ParentOf(t, path).value, NameOf(path))
    ensures N.RemoveNode(t', ParentOf(t, path).value, NameOf(path)) == t
  {
    var names, p, name := Components(path, 0), ParentOf(t, path).value, NameOf(path);
    var init := names[..|names| - 1];
    assert names == init + [name];
    FoundAfterAdd(t, p, name, n, node, N.ROOT, init);
    N.LookupLast(t', N.ROOT, init, name);
    N.AddThenRemove(t, p, name, n, node);
  }

  /** Making a node binds its path and changes what no other dot-free path leads to; removing one unbinds its path
      and no other. */
  lemma MadeOnePath(t: N.Tree, t': N.Tree, path: Path, n: nat, node: N.Node, other: Path)
    requires N.TreeOk(t) && Made(t, t', path, n, node) && N.Plain(Components(path, 0))
    requires other != [] && other[0] == SLASH && N.Plain(Components(other, 0))
    ensures Resolve(t', other) == if Components(other, 0) == Components(path, 0) then Some(n) else Resolve(t, other)
  {
    var names := Components(path, 0);
    var init := names[..|names| - 1];
    assert names == init + [NameOf(path)];
    N.AddBindsOnePath(t, init, ParentOf(t, path).value, NameOf(path), n, node, Components(other, 0));
  }

  lemma RemovedOnePath(t: N.Tree, path: Path, other: Path)
    requires N.TreeOk(t) && (UnlinkTarget(t, path) || RmdirTarget(t, path)) && N.Plain(Components(path, 0))
    requires other != [] && other[0] == SLASH && N.Plain(Components(other, 0))
    ensures N.Removable(t, ParentOf(t, path).value, NameOf(path))
    ensures Resolve(N.RemoveNode(t, ParentOf(t, path).value, NameOf(path)), other) ==
            if Components(other, 0) == Components(path, 0) then None else Resolve(t, other)
  {
    var names := Components(path, 0);
    var init := names[..|names| - 1];
    assert names == init + [NameOf(path)];
    TargetRemovable(t, path);
    N.RemoveUnbindsOnePath(t, init, ParentOf(t, path).value, NameOf(path), Components(other, 0));
  }
}
