/** The type bytes of directory records: that they are those of the inodes they name, and which steps keep that. */
module Ext2Types {
  import opened Bytes
  import opened Paths
  import opened Ext2Layout
  import opened Ext2Files
  import opened Ext2DirBlocks
  import opened Ext2DirMap
  import opened Ext2Tree
  import N = Namespace

  const TYPE_FILE: byte := 1
  const TYPE_DIR: byte := 2

  /** The records of every directory, by its number. */
  type Records = map<nat, map<Paths.Name, Rec>>

  predicate IsDirAt(c: Image, d: nat) {
    InTree(c, d) && IsDir(c.inodes[d])
  }

  function AllRecords(g: Geometry, c: Image): Records
    requires g.blockSize > 0
  {
    map d: nat | d < |c.live| && IsDirAt(c, d) :: RecordsAt(g, c, d)
  }

  function TypeOf(node: N.Node): byte {
    if node.Dir? then TYPE_DIR else TYPE_FILE
  }

  /** A record names a node of the tree, and its type byte is that of the node. */
  predicate RecordTyped(t: N.Tree, entry: Rec) {
    entry.ino in t && entry.kind == TypeOf(t[entry.ino])
  }

  ghost predicate Typed(t: N.Tree, records: Records) {
    forall d, x :: d in records && x in records[d] ==> RecordTyped(t, records[d][x])
  }

  ghost predicate TypesOk(g: Geometry, c: Image)
    requires g.blockSize > 0
  {
    Typed(TreeOf(g, c), AllRecords(g, c))
  }

  /** The records of a new directory. */
  function Dots(n: nat, p: nat): map<Paths.Name, Rec> {
    map[DOT_NAME := Rec(n, TYPE_DIR), DOTDOT_NAME := Rec(p, TYPE_DIR)]
  }

  /** Directory `p` gets a record for `node`, and a directory comes with its dots. */
  function RecordsAdded(records: Records, p: nat, name: Paths.Name, n: nat, node: N.Node): Records
    requires p in records
  {
    var linked := records[p := records[p][name := Rec(n, TypeOf(node))]];
    if node.Dir? then linked[n := Dots(n, p)] else linked
  }

  /** Directory `p` loses a record, and the directory behind it, if it is one, all of its own. */
  function RecordsRemoved(records: Records, p: nat, name: Paths.Name): Records
    requires p in records && name in records[p]
  {
    records[p := records[p] - {name}] - {records[p][name].ino}
  }

  /** The records and the tree agree on what every name leads to. */
  ghost predicate Agree(t: N.Tree, records: Records) {
    forall d :: (d in records <==> d in t && t[d].Dir?) && (d in records ==> t[d].entries == Inos(records[d]))
  }

  lemma RecordsAgree(g: Geometry, c: Image)
    requires g.blockSize > 0 && DirsOk(g, c)
    ensures Agree(TreeOf(g, c), AllRecords(g, c))
  {
    hide DirRecords, Inos, DirSound;
  }

  /** A new file's bytes are no concern of the records. */
  lemma TypedFile(t: N.Tree, records: Records, n: nat, bytes: Block)
    requires Typed(t, records) && n in t && t[n].File?
    ensures Typed(t[n := N.File(bytes)], records)
  {
  }

  lemma TypedAdd(t: N.Tree, records: Records, p: nat, name: Paths.Name, n: nat, node: N.Node)
    requires Typed(t, records) && p in t && t[p].Dir? && p in records && N.Fresh(t, p, n, node)
    ensures Typed(N.AddNode(t, p, name, n, node), RecordsAdded(records, p, name, n, node))
  {
    var t', records' := N.AddNode(t, p, name, n, node), RecordsAdded(records, p, name, n, node);
    forall d, x | d in records' && x in records'[d] ensures RecordTyped(t', records'[d][x]) {
      if d in records && x in records[d] { assert RecordTyped(t, records[d][x]); }
    }
  }

  /** Nothing but the removed record named the removed node, so every record left still names a node. */
  lemma TypedRemove(t: N.Tree, records: Records, p: nat, name: Paths.Name)
    requires Typed(t, records) && Agree(t, records) && N.TreeOk(t) && N.Removable(t, p, name)
    ensures p in records && name in records[p]
    ensures Typed(N.RemoveNode(t, p, name), RecordsRemoved(records, p, name))
  {
    var t', records', n := N.RemoveNode(t, p, name), RecordsRemoved(records, p, name), t[p].entries[name];
    forall d, x | d in records' && x in records'[d] ensures RecordTyped(t', records'[d][x]) {
      assert RecordTyped(t, records[d][x]);
      assert t[d].entries[x] == records[d][x].ino;
      if records[d][x].ino == n {
        N.OnlyEntry(t, p, name, d, x);
      }
    }
  }

  // ---------- from one image to the next ----------

  lemma OtherRecords(g: Geometry, c: Image, owner: seq<Owner>, c': Image, who: set<nat>)
    requires g.SizeOk() && |c.live| == |c.inodes| && FilesOk(g, c, owner, {}) && DirsOk(g, c)
    requires OthersSame(g, c, c', who)
    ensures AllRecords(g, c') - who == AllRecords(g, c) - who
  {
    hide RecordsAt, NodeAt, GoodKind, InTree, IsDir, FilesOk, OthersSame;
    forall n: nat | n !in who
      ensures IsDirAt(c', n) <==> IsDirAt(c, n)
      ensures IsDirAt(c, n) ==> RecordsAt(g, c', n) == RecordsAt(g, c, n)
    {
      OtherNodes(g, c, owner, c', who, n);
    }
    Bounded(c);
    Bounded(c');
  }

  /** A step confined to one file changes no record. */
  lemma FileRecords(g: Geometry, c: Image, owner: seq<Owner>, c': Image, n: nat)
    requires g.SizeOk() && |c.live| == |c.inodes| && FilesOk(g, c, owner, {}) && DirsOk(g, c)
    requires OthersSame(g, c, c', {n}) && InTree(c, n) && !IsDir(c.inodes[n]) && c'.inodes[n].mode == c.inodes[n].mode
    ensures AllRecords(g, c') == AllRecords(g, c)
  {
    OtherRecords(g, c, owner, c', {n});
    var r, r' := AllRecords(g, c), AllRecords(g, c');
    assert n !in r && n !in r';
    hide AllRecords, DirsOk, OthersSame, FilesOk;
    assert r - {n} == r && r' - {n} == r';
  }

  /** The new node `n` was entered into directory `p`. */
  lemma LinkedRecords(g: Geometry, c0: Image, owner0: seq<Owner>, c1: Image, p: nat, name: Paths.Name, n: nat, node: N.Node)
    requires g.SizeOk() && |c0.live| == |c0.inodes| && FilesOk(g, c0, owner0, {}) && DirsOk(g, c0)
    requires OthersSame(g, c0, c1, {n, p}) && IsDirAt(c0, p) && IsDirAt(c1, p)
    requires RecordsAt(g, c1, p) == RecordsAt(g, c0, p)[name := Rec(n, TypeOf(node))]
    requires n != p && !InTree(c0, n) && InTree(c1, n) && (node.Dir? <==> IsDir(c1.inodes[n]))
    requires node.Dir? ==> RecordsAt(g, c1, n) == Dots(n, p)
    ensures p in AllRecords(g, c0) && AllRecords(g, c1) == RecordsAdded(AllRecords(g, c0), p, name, n, node)
  {
    OtherRecords(g, c0, owner0, c1, {n, p});
    var r, r' := AllRecords(g, c0), AllRecords(g, c1);
    hide RecordsAt, DirsOk, OthersSame, FilesOk;
    assert p in r && p in r' && n !in r && (n in r' <==> node.Dir?);
    assert r[p] == RecordsAt(g, c0, p) && r'[p] == RecordsAt(g, c1, p) && (node.Dir? ==> r'[n] == Dots(n, p));
    hide AllRecords, InTree, Dots;
    PutBackRecords(r, r', p, n);
  }

  lemma PutBackRecords(r: Records, r': Records, p: nat, n: nat)
    requires r' - {n, p} == r - {n, p} && p in r' && n !in r
    ensures r' == if n in r' then r[p := r'[p]][n := r'[n]] else r[p := r'[p]]
  {
    assert forall k :: k in r' && k != n && k != p ==> k in r' - {n, p};
    assert forall k :: k in r && k != n && k != p ==> k in r - {n, p};
  }

  /** Node `n` is gone, and directory `p` as given. */
  lemma UnlinkedRecords(g: Geometry, c0: Image, owner0: seq<Owner>, c1: Image, p: nat, n: nat)
    requires g.SizeOk() && |c0.live| == |c0.inodes| && FilesOk(g, c0, owner0, {}) && DirsOk(g, c0)
    requires OthersSame(g, c0, c1, {n, p}) && IsDirAt(c0, p) && IsDirAt(c1, p)
    requires n != p && !InTree(c1, n)
    ensures p in AllRecords(g, c0) && AllRecords(g, c0)[p] == RecordsAt(g, c0, p)
    ensures AllRecords(g, c1) == AllRecords(g, c0)[p := RecordsAt(g, c1, p)] - {n}
  {
    OtherRecords(g, c0, owner0, c1, {n, p});
    var r, r' := AllRecords(g, c0), AllRecords(g, c1);
    hide RecordsAt, DirsOk, OthersSame, FilesOk;
    assert p in r && p in r' && n !in r';
    assert r[p] == RecordsAt(g, c0, p) && r'[p] == RecordsAt(g, c1, p);
    hide AllRecords, InTree;
    TakenOutRecords(r, r', p, n);
  }

  lemma TakenOutRecords(r: Records, r': Records, p: nat, n: nat)
    requires r' - {n, p} == r - {n, p} && p in r' && n !in r' && n != p
    ensures r' == r[p := r'[p]] - {n}
  {
    assert forall k :: k in r' && k != n && k != p ==> k in r' - {n, p};
    assert forall k :: k in r && k != n && k != p ==> k in r - {n, p};
  }

  /** Nothing was entered, and `n` is not in use. */
  lemma UndoneRecords(g: Geometry, c0: Image, owner0: seq<Owner>, c1: Image, p: nat, n: nat)
    requires g.SizeOk() && |c0.live| == |c0.inodes| && FilesOk(g, c0, owner0, {}) && DirsOk(g, c0)
    requires OthersSame(g, c0, c1, {n, p}) && IsDirAt(c0, p) && IsDirAt(c1, p)
    requires RecordsAt(g, c1, p) == RecordsAt(g, c0, p) && n != p && !InTree(c0, n) && !InTree(c1, n)
    ensures AllRecords(g, c1) == AllRecords(g, c0)
  {
    UnlinkedRecords(g, c0, owner0, c1, p, n);
    var r := AllRecords(g, c0);
    assert n !in r;
    hide AllRecords, InTree, RecordsAt, DirsOk, OthersSame, FilesOk, IsDirAt;
    SameWithout(r, p, n);
  }

  lemma SameWithout(r: Records, p: nat, n: nat)
    requires p in r && n !in r
    ensures r[p := r[p]] - {n} == r
  {
  }

  /** Entering a new node with its own type byte keeps the type bytes right. */
  lemma LinkedTypes(g: Geometry, c0: Image, c1: Image, p: nat, name: Paths.Name, n: nat, node: N.Node)
    requires g.blockSize > 0 && p in TreeOf(g, c0) && TreeOf(g, c0)[p].Dir? && N.Fresh(TreeOf(g, c0), p, n, node)
    requires TreeOf(g, c1) == N.AddNode(TreeOf(g, c0), p, name, n, node)
    requires p in AllRecords(g, c0) && AllRecords(g, c1) == RecordsAdded(AllRecords(g, c0), p, name, n, node)
    ensures TypesOk(g, c0) ==> TypesOk(g, c1)
  {
    hide TreeOf, AllRecords, Typed;
    if TypesOk(g, c0) {
      TypedAdd(TreeOf(g, c0), AllRecords(g, c0), p, name, n, node);
    }
  }
}
