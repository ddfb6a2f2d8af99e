/** The path operations of the driver, against the tree the volume stands for. */
module Ext2Namespace {
  import opened Bytes
  import opened Paths
  import opened Ext2Layout
  import opened Ext2Files
  import opened Ext2Bytes
  import opened Ext2Volume
  import opened Ext2Inodes
  import opened Ext2Resize
  import opened Ext2FileOps
  import opened Ext2DirBlocks
  import opened Ext2DirScan
  import opened Ext2DirMap
  import opened Ext2DirOps
  import opened Ext2Tree
  import opened Ext2Types
  import opened Ext2DirCounts
  import N = Namespace

  const PATH_SIZE: nat := 128

  /** What a whole path leads to. */
  function Resolve(t: N.Tree, path: Path): Option<nat> {
    if path == [] || path[0] != SLASH then None else N.Lookup(t, N.ROOT, Components(path, 0))
  }

  /** Entering a directory of the tree, as find_in_dir and read_inode do it. */
  lemma EnterInode(v: Volume, d: nat, name: Paths.Name)
    requires Mounted(v) && InTree(v.Now(), d) && name != []
    ensures FileOk(v.geo, v.data[..], v.owner, d, v.inodes[d].block, v.inodes[d].size)
    ensures Holds(v.geo, v.data[..], v.owner, d, v.inodes[d].block)
    ensures IsDir(v.inodes[d]) ==> !IsFile(v.inodes[d]) && DirSound(v.geo, v.data[..], v.inodes[d].block, v.inodes[d].size)
    ensures IsDir(v.inodes[d]) && name in DirMap(v.geo, v.data[..], v.inodes[d].block, v.inodes[d].size) ==> NameOk(name)
    ensures N.Enter(TreeOf(v.geo, v.Now()), d, name) ==
            if IsDir(v.inodes[d]) && name in DirMap(v.geo, v.data[..], v.inodes[d].block, v.inodes[d].size)
            then Some(DirMap(v.geo, v.data[..], v.inodes[d].block, v.inodes[d].size)[name]) else None
    ensures N.Enter(TreeOf(v.geo, v.Now()), d, name).Some? ==>
              InTree(v.Now(), N.Enter(TreeOf(v.geo, v.Now()), d, name).value)
  {
    hide DirMap, DirSound, IsDir, IsFile, Geometry.GroupsCover, BlockCountersAgree, InodeCountersAgree, FileBytes, OwnerBits;
    assert GoodKind(v.geo, v.Now(), d);
    if IsDir(v.inodes[d]) && name in DirMap(v.geo, v.data[..], v.inodes[d].block, v.inodes[d].size) {
      EntriesShort(v.geo, v.data[..], v.inodes[d].block, v.inodes[d].size, name);
    }
  }

  method PathLookup(v: Volume, path: Path) returns (ok: bool, ino: Inode, n: nat)
    requires Mounted(v)
    ensures ok <==> Resolve(TreeOf(v.geo, v.Now()), path).Some?
    ensures ok ==> Resolve(TreeOf(v.geo, v.Now()), path) == Some(n) && InTree(v.Now(), n) && ino == v.inodes[n]
  {
    hide Geometry.GroupsCover, BlockCountersAgree, InodeCountersAgree, DirMap, DirSound, N.TreeOk, DirsOk, FileOk, IsDir, IsFile;
    ok, ino, n := false, EMPTY_INODE, ROOT_INODE;
    if path == [] || path[0] != SLASH {
      return;
    }
    ghost var t := TreeOf(v.geo, v.Now());
    RootInTree(v);
    ok, ino := v.ReadInode(n);
    var cursor := SkipSlashes(path, 0);
    SkipIsNothing(path, 0, cursor);
    while cursor < |path|
      invariant cursor <= |path| && SkipSlashes(path, cursor) == cursor
      invariant N.Lookup(t, N.ROOT, Components(path, 0)) == N.Lookup(t, n, Components(path, cursor))
      invariant InTree(v.Now(), n) && ino == v.inodes[n]
      decreases |path| - cursor
    {
      var start := cursor;
      cursor := NameEnd(path, start);
      var name := path[start..cursor];
      EnterInode(v, n, name);
      assert Components(path, start) == [name] + Components(path, cursor);
      assert Components(path, start)[1..] == Components(path, cursor);
      var found, next := FindInDir(v, n, ino, name);
      if !found {
        return false, ino, n;
      }
      var read;
      read, ino := v.ReadInode(next);
      n := next;
      SkipIsNothing(path, cursor, SkipSlashes(path, cursor));
      cursor := SkipSlashes(path, cursor);
    }
    return true, ino, n;
  }

  lemma RootInTree(v: Volume)
    requires Mounted(v)
    ensures InTree(v.Now(), ROOT_INODE)
  {
  }

  lemma DirNode(v: Volume, n: nat)
    requires Mounted(v) && InTree(v.Now(), n)
    ensures n in TreeOf(v.geo, v.Now()) && (TreeOf(v.geo, v.Now())[n].Dir? <==> IsDir(v.inodes[n]))
  {
  }

  /** A node of the tree is a file exactly when its inode says so. */
  lemma KindOf(v: Volume, n: nat)
    requires Mounted(v) && InTree(v.Now(), n)
    ensures n in TreeOf(v.geo, v.Now()) && (TreeOf(v.geo, v.Now())[n].File? <==> IsFile(v.inodes[n]))
    ensures n <= v.geo.inodesCount && (IsFile(v.inodes[n]) ==> TreeOf(v.geo, v.Now())[n] == N.File(v.BytesOf(n)))
    ensures IsFile(v.inodes[n]) ==> !IsDir(v.inodes[n])
  {
    assert GoodKind(v.geo, v.Now(), n);
  }

  // ---------- the parent of a path ----------

  /** How long the path is without its trailing slashes. */
  function TrimmedLength(path: Path, len: nat): (r: nat)
    requires 1 <= len <= |path|
    ensures 1 <= r <= len && (r == 1 || path[r - 1] != SLASH)
  {
    if len > 1 && path[len - 1] == SLASH then TrimmedLength(path, len - 1) else len
  }

  /** The last slash up to `at`, or 0. */
  function SlashBefore(path: Path, at: nat): (r: nat)
    requires at < |path|
    ensures r <= at && (r == 0 || path[r] == SLASH)
  {
    if at > 0 && path[at] != SLASH then SlashBefore(path, at - 1) else at
  }

  /** The parent part of the path, with a terminator, fits a buffer of `size` bytes; the root's own needs two. */
  predicate ParentFits(path: Path, size: nat) {
    path != [] &&
    var len := TrimmedLength(path, |path|);
    len == 1 || (var slash := SlashBefore(path, len - 1); if slash == 0 then 2 <= size else slash + 1 <= size)
  }

  /** Paths no longer than the buffer fit. */
  lemma ShortPathsFit(path: Path, size: nat)
    requires path != [] && |path| <= size && 2 <= size
    ensures ParentFits(path, size)
  {
  }

  /** The length of the path without trailing slashes. */
  method TrimSlashes(path: Path) returns (len: nat)
    requires 0 < |path|
    ensures len == TrimmedLength(path, |path|)
    ensures 1 <= len <= |path| && (len == 1 || path[len - 1] != SLASH)
    ensures forall k :: len <= k < |path| ==> path[k] == SLASH
  {
    len := |path|;
    while len > 1 && path[len - 1] == SLASH
      invariant 1 <= len <= |path| && TrimmedLength(path, len) == TrimmedLength(path, |path|)
      invariant forall k :: len <= k < |path| ==> path[k] == SLASH
    {
      len := len - 1;
    }
  }

  method LastSlash(path: Path, len: nat) returns (slash: nat)
    requires 1 < len <= |path| && path[0] == SLASH
    ensures slash < len && path[slash] == SLASH && slash == SlashBefore(path, len - 1)
    ensures forall k :: slash < k < len ==> path[k] != SLASH
  {
    slash := len - 1;
    while slash > 0 && path[slash] != SLASH
      invariant slash < len && SlashBefore(path, slash) == SlashBefore(path, len - 1)
      invariant forall k :: slash < k < len ==> path[k] != SLASH
    {
      slash := slash - 1;
    }
  }

  /** split_parent_path: the path is its parent and one last name, and only a too small buffer, a too long name
      or the root make it fail. */
  method SplitParentPath(path: Path, parentSize: nat) returns (ok: bool, parent: Path, name: Paths.Name)
    ensures ok ==>
              && 0 < |path| && path[0] == SLASH && 0 < |parent| && parent[0] == SLASH && |parent| < parentSize
              && IsName(name) && NameOk(name) && Components(path, 0) == Components(parent, 0) + [name]
    ensures ok <==>
              && 0 < parentSize && ParentFits(path, parentSize) && path[0] == SLASH
              && Components(path, 0) != [] && |Components(path, 0)[|Components(path, 0)| - 1]| <= MAX_NAME
  {
    hide TrimmedLength, SlashBefore, Components;
    ok, parent, name := false, [], [];
    if parentSize == 0 || path == [] || path[0] != SLASH {
      return;
    }
    var len := TrimSlashes(path);
    TrailingSlashes(path, 0, len);
    if len <= 1 {
      OnlySlash(path[..1]);
      return;
    }
    var slash := LastSlash(path, len);
    ghost var trimmed := path[..len];
    name := path[slash + 1..len];
    assert name == trimmed[slash + 1..];
    LastComponent(trimmed, 0, slash);
    if |name| == 0 || |name| > MAX_NAME {
      return;
    }
    assert trimmed[..slash] == path[..slash];
    if slash == 0 {
      assert path[..slash] == [];
      OnlySlash([SLASH]);
      return parentSize >= 2, [SLASH], name;
    }
    if slash + 1 > parentSize {
      return;
    }
    return true, path[..slash], name;
  }

  /** The directory and the name a path is about. */
  function ParentOf(t: N.Tree, path: Path): Option<nat>
    requires path != [] && Components(path, 0) != []
  {
    N.Lookup(t, N.ROOT, Components(path, 0)[..|Components(path, 0)| - 1])
  }

  function NameOf(path: Path): Paths.Name
    requires path != [] && Components(path, 0) != []
  {
    Components(path, 0)[|Components(path, 0)| - 1]
  }

  /** The path names something (present or not) in a directory of the tree. */
  predicate HasParent(t: N.Tree, path: Path) {
    && path != [] && path[0] == SLASH && Components(path, 0) != [] && |NameOf(path)| <= MAX_NAME
    && ParentOf(t, path).Some? && ParentOf(t, path).value in t && t[ParentOf(t, path).value].Dir?
  }

  /** parent_lookup. */
  method ParentLookup(v: Volume, path: Path) returns (ok: bool, parent: Inode, p: nat, name: Paths.Name)
    requires Mounted(v)
    ensures ok ==>
              && path != [] && path[0] == SLASH && IsName(name) && NameOk(name) && Components(path, 0) != []
              && InTree(v.Now(), p) && parent == v.inodes[p] && IsDir(parent)
              && Components(path, 0)[|Components(path, 0)| - 1] == name
              && N.Lookup(TreeOf(v.geo, v.Now()), N.ROOT, Components(path, 0)[..|Components(path, 0)| - 1]) == Some(p)
              && Resolve(TreeOf(v.geo, v.Now()), path) == N.Enter(TreeOf(v.geo, v.Now()), p, name)
    ensures ok <==> HasParent(TreeOf(v.geo, v.Now()), path) && ParentFits(path, PATH_SIZE)
  {
    hide DirMap, DirSound, N.TreeOk, DirsOk, FileOk, IsFile, NodeAt;
    var parentPath;
    parent, p := EMPTY_INODE, 0;
    ok, parentPath, name := SplitParentPath(path, PATH_SIZE);
    if !ok {
      return;
    }
    ok, parent, p := PathLookup(v, parentPath);
    if ok {
      DirNode(v, p);
      N.LookupLast(TreeOf(v.geo, v.Now()), N.ROOT, Components(parentPath, 0), name);
      assert Components(path, 0)[..|Components(path, 0)| - 1] == Components(parentPath, 0);
    }
    ok := ok && IsDir(parent);
  }

  // ---------- reading and writing files ----------

  const OK: int := 0

  /** A step confined to one file replaces one node of the tree. */
  lemma FileStep(g: Geometry, c: Image, owner: seq<Owner>, c': Image, n: nat)
    requires g.SizeOk() && |c.live| == |c.inodes| && FilesOk(g, c, owner, {}) && DirsOk(g, c) && N.TreeOk(TreeOf(g, c))
    requires OthersSame(g, c, c', {n}) && InTree(c, n) && !IsDir(c.inodes[n]) && c'.live == c.live
    requires c'.inodes[n].mode == c.inodes[n].mode
    ensures DirsOk(g, c') && N.TreeOk(TreeOf(g, c')) && TreeOf(g, c)[n].File?
    ensures TreeOf(g, c') == TreeOf(g, c)[n := N.File(FileBytes(g, c'.data, c'.inodes[n].block, c'.inodes[n].size))]
  {
    OtherTree(g, c, owner, c', {n});
    var t, t' := TreeOf(g, c), TreeOf(g, c');
    var bytes := FileBytes(g, c'.data, c'.inodes[n].block, c'.inodes[n].size);
    assert t'[n] == N.File(bytes);
    hide FileBytes, TreeOf;
    PutBack(t, t', n);
    N.SetFileKeepsTree(t, n, bytes);
  }

  /** Such a step changes no record, nor what a record says about its inode. */
  lemma FileStepTypes(g: Geometry, c: Image, owner: seq<Owner>, c': Image, n: nat)
    requires g.SizeOk() && |c.live| == |c.inodes| && FilesOk(g, c, owner, {}) && DirsOk(g, c) && N.TreeOk(TreeOf(g, c))
    requires OthersSame(g, c, c', {n}) && InTree(c, n) && !IsDir(c.inodes[n]) && c'.live == c.live
    requires c'.inodes[n].mode == c.inodes[n].mode
    ensures AllRecords(g, c') == AllRecords(g, c) && (TypesOk(g, c) ==> TypesOk(g, c'))
  {
    FileStep(g, c, owner, c', n);
    FileRecords(g, c, owner, c', n);
    hide TreeOf, AllRecords, N.TreeOk, FilesOk, DirsOk, FileBytes, Typed;
    if TypesOk(g, c) {
      TypedFile(TreeOf(g, c), AllRecords(g, c), n, FileBytes(g, c'.data, c'.inodes[n].block, c'.inodes[n].size));
    }
  }

  /** Nor which nodes are directories. */
  lemma FileStepCounts(g: Geometry, c: Image, owner: seq<Owner>, c': Image, n: nat)
    requires g.SizeOk() && |c.live| == |c.inodes| && FilesOk(g, c, owner, {}) && DirsOk(g, c) && N.TreeOk(TreeOf(g, c))
    requires OthersSame(g, c, c', {n}) && InTree(c, n) && !IsDir(c.inodes[n]) && c'.live == c.live
    requires c'.inodes[n].mode == c.inodes[n].mode
    ensures forall dirs :: DirsCounted(g, TreeOf(g, c), dirs) ==> DirsCounted(g, TreeOf(g, c'), dirs)
  {
    FileStep(g, c, owner, c', n);
    hide TreeOf, FileBytes, N.TreeOk;
    BytesCounted(g, TreeOf(g, c), n, FileBytes(g, c'.data, c'.inodes[n].block, c'.inodes[n].size));
  }

  lemma PutBack(t: N.Tree, t': N.Tree, n: nat)
    requires t' - {n} == t - {n} && n in t'
    ensures t' == t[n := t'[n]]
  {
    assert forall k :: k in t' && k != n ==> k in t' - {n};
    assert forall k :: k in t && k != n ==> k in t - {n};
  }

  /** The file a path leads to. */
  predicate LeadsToFile(t: N.Tree, path: Path) {
    Resolve(t, path).Some? && Resolve(t, path).value in t && t[Resolve(t, path).value].File?
  }

  method ReadFile(v: Volume, path: Path, buffer: array<byte>, len: nat, offset: nat) returns (r: int)
    requires Mounted(v) && len <= buffer.Length
    modifies buffer
    ensures r == ERR_INVAL || 0 <= r <= len
    ensures var t := TreeOf(v.geo, v.Now());
            if LeadsToFile(t, path) then
              var bytes := t[Resolve(t, path).value].bytes;
              && r == (if offset >= |bytes| then 0 else Min(len, |bytes| - offset))
              && (r > 0 ==> buffer[..] == Splice(old(buffer[..]), 0, bytes[offset..offset + r]))
              && (r == 0 ==> buffer[..] == old(buffer[..]))
            else r == ERR_INVAL && buffer[..] == old(buffer[..])
  {
    hide Geometry.GroupsCover, BlockCountersAgree, InodeCountersAgree, DirMap, DirSound, N.TreeOk, FileByte, Splice;
    var ok, file, n := PathLookup(v, path);
    if ok {
      assert GoodKind(v.geo, v.Now(), n);
    }
    if !ok || !IsFile(file) {
      return ERR_INVAL;
    }
    assert FileOk(v.geo, v.data[..], v.owner, n, file.block, file.size);
    if offset >= file.size {
      return 0;
    }
    var count := if len > file.size - offset then file.size - offset else len;
    ok := ReadInodeBytes(v, n, file, offset, buffer, count);
    return count;
  }

  /** What a write may do to the tree, by its result. */
  ghost predicate WriteResult(t: N.Tree, t': N.Tree, path: Path, buf: Block, offset: nat, r: int) {
    if !LeadsToFile(t, path) then r == ERR_INVAL && t' == t
    else
      var n := Resolve(t, path).value;
      var bytes := t[n].bytes;
      && n in t' && t'[n].File? && t' == t[n := t'[n]]
      && (r == ERR_INVAL || r == ERR_FAULT || r == |buf|)
      && (r == ERR_INVAL <==> offset > |bytes| || offset + |buf| >= TWO_64)
      && (r == ERR_INVAL ==> t' == t)
      && (r >= 0 ==> t'[n].bytes == Overwritten(bytes, offset, buf))
      && (r == ERR_FAULT ==>
            || t'[n].bytes == bytes || t'[n].bytes == Overwritten(bytes, offset, buf)
            || OldOrNew(Resized(bytes, Larger(|bytes|, offset + |buf|)), offset, buf, t'[n].bytes))
  }

  /** When a write succeeds, and whether afterwards every marked block is referenced and every inode counts its blocks
      right, if that was so before. */
  ghost predicate WriteBlocks(g: Geometry, c: Image, free: nat, path: Path, offset: nat, len: nat, synced: bool, r: int,
                              whole: bool, whole': bool, counted: bool, counted': bool)
    requires g.blockSize > 0
  {
    if !LeadsToFile(TreeOf(g, c), path) || r == ERR_INVAL then (whole ==> whole') && (counted ==> counted')
    else
      var n := Resolve(TreeOf(g, c), path).value;
      n < |c.inodes| &&
      var fits := WriteFits(g, c.data, c.inodes[n], free, offset, len);
      && (r >= 0 <==> fits && synced)
      && (whole ==> (whole' <==> fits || !WriteLoses(g, c.data, c.inodes[n], free, offset, len)))
      && (counted ==> (counted' <==> fits || !WriteMiscounts(g, c.data, c.inodes[n], free, offset, len)))
  }

  /** ext2_write_file. `synced` is what the writeback reports. */
  method WriteFile(v: Volume, path: Path, buf: Block, offset: nat, synced: bool) returns (r: int)
    requires Mounted(v) && offset < TWO_64 && |buf| < TWO_64
    modifies v, v.groups, v.blockUsed, v.inodes, v.data
    ensures Mounted(v)
    ensures WriteResult(old(TreeOf(v.geo, v.Now())), TreeOf(v.geo, v.Now()), path, buf, offset, r)
    ensures AllRecords(v.geo, v.Now()) == old(AllRecords(v.geo, v.Now()))
    ensures TypesOk(v.geo, old(v.Now())) ==> TypesOk(v.geo, v.Now())
    ensures WriteBlocks(v.geo, old(v.Now()), old(v.freeBlocks), path, offset, |buf|, synced, r,
                        NothingLost(v.geo, old(v.Now()), old(v.owner)), NothingLost(v.geo, v.Now(), v.owner),
                        Counted(v.geo, old(v.Now())), Counted(v.geo, v.Now()))
    ensures DirsCounted(v.geo, old(TreeOf(v.geo, v.Now())), old(DirCounts(v.groups[..]))) ==>
              DirsCounted(v.geo, TreeOf(v.geo, v.Now()), DirCounts(v.groups[..]))
  {
    hide Geometry.GroupsCover, BlockCountersAgree, InodeCountersAgree, DirMap, DirSound, N.TreeOk, FileByte, Overwritten,
      FilesOk, OthersSame, NothingLost, Fits, Dense, OldOrNew, WriteFits, WriteLoses, TreeOf, Counted, WriteMiscounts, AllRecords, TypesOk, DirsCounted, DirCounts;
    var ok, file, n := PathLookup(v, path);
    if ok { KindOf(v, n); }
    if !ok || !IsFile(file) {
      return ERR_INVAL;
    }
    ghost var c, owner := v.Now(), v.owner;
    r := WriteAt(v, n, file, buf, offset);
    FileStep(v.geo, c, owner, v.Now(), n);
    FileStepTypes(v.geo, c, owner, v.Now(), n);
    FileStepCounts(v.geo, c, owner, v.Now(), n);
    if r >= 0 && !synced {
      r := ERR_FAULT;
    }
  }

  /** Whether after a truncation every marked block is referenced and every inode counts its blocks right, if that was so
      before. */
  ghost predicate TruncateBlocks(g: Geometry, c: Image, free: nat, path: Path, size: nat, whole: bool, whole': bool,
                                 counted: bool, counted': bool)
    requires g.blockSize > 0
  {
    if !LeadsToFile(TreeOf(g, c), path) then (whole ==> whole') && (counted ==> counted')
    else
      var n := Resolve(TreeOf(g, c), path).value;
      && n < |c.inodes|
      && (whole ==> (whole' <==> Fits(g, c.data, c.inodes[n], free, size) || !GrowLoses(g, c.data, c.inodes[n], free, size)))
      && (counted ==>
            (counted' <==> Fits(g, c.data, c.inodes[n], free, size) || !GrowMiscounts(g, c.data, c.inodes[n], free, size)))
  }

  /** ext2_truncate_file. */
  method TruncateFile(v: Volume, path: Path, size: nat, synced: bool) returns (r: int)
    requires Mounted(v)
    modifies v, v.groups, v.blockUsed, v.inodes, v.data
    ensures Mounted(v)
    ensures var t, t' := old(TreeOf(v.geo, v.Now())), TreeOf(v.geo, v.Now());
            if LeadsToFile(t, path) then
              var n := Resolve(t, path).value;
              var fits := Fits(v.geo, old(v.data[..]), old(v.inodes[n]), old(v.freeBlocks), size);
              && t' == (if fits then t[n := N.File(Resized(t[n].bytes, size))] else t)
              && r == if fits && synced then OK else ERR_FAULT
            else r == ERR_INVAL && t' == t
    ensures AllRecords(v.geo, v.Now()) == old(AllRecords(v.geo, v.Now()))
    ensures TypesOk(v.geo, old(v.Now())) ==> TypesOk(v.geo, v.Now())
    ensures TruncateBlocks(v.geo, old(v.Now()), old(v.freeBlocks), path, size,
                           NothingLost(v.geo, old(v.Now()), old(v.owner)), NothingLost(v.geo, v.Now(), v.owner),
                           Counted(v.geo, old(v.Now())), Counted(v.geo, v.Now()))
    ensures DirsCounted(v.geo, old(TreeOf(v.geo, v.Now())), old(DirCounts(v.groups[..]))) ==>
              DirsCounted(v.geo, TreeOf(v.geo, v.Now()), DirCounts(v.groups[..]))
  {
    hide Geometry.GroupsCover, BlockCountersAgree, InodeCountersAgree, DirMap, DirSound, N.TreeOk, FileByte, Overwritten,
      FilesOk, OthersSame, NothingLost, Fits, Dense, FileBytes, Trimmed, KeptIds, Touches, GrowLoses,
      Counted, GrowMiscounts, AllRecords, TypesOk, DirsCounted, DirCounts;
    var ok, file, n := PathLookup(v, path);
    if ok {
      assert GoodKind(v.geo, v.Now(), n);
    }
    if !ok || !IsFile(file) {
      return ERR_INVAL;
    }
    ghost var c, owner := v.Now(), v.owner;
    var file';
    ok, file' := ResizeInodeData(v, n, file, size);
    FileStep(v.geo, c, owner, v.Now(), n);
    FileStepTypes(v.geo, c, owner, v.Now(), n);
    FileStepCounts(v.geo, c, owner, v.Now(), n);
    return if ok && synced then OK else ERR_FAULT;
  }
}
