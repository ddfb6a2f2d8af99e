/** The used-directories counters of the groups: that they count the directories of the tree, and which steps keep that. */
module Ext2DirCounts {
  import opened Bytes
  import opened Paths
  import opened Counting
  import opened Ext2Layout
  import N = Namespace

  /** One bit for each inode, clear if the tree has a directory of that number. */
  function DirBits(g: Geometry, t: N.Tree): seq<bool> {
    seq(g.inodesCount + 1, n requires 0 <= n => !(n in t && t[n].Dir?))
  }

  /** Each group counts the directories among its inodes. */
  ghost predicate DirsCounted(g: Geometry, t: N.Tree, dirs: seq<nat>) {
    && |dirs| == g.groupCount
    && forall k :: 0 <= k < g.groupCount ==> dirs[k] == CountClear(DirBits(g, t), g.InodeBase(k), g.InodeEnd(k))
  }

  /** One bit of a directory and the counter of its group change together. */
  lemma DirsFlip(g: Geometry, t: N.Tree, t': N.Tree, dirs: seq<nat>, n: nat, used: bool)
    requires g.Ok() && 1 <= n <= g.inodesCount && DirsCounted(g, t, dirs)
    requires DirBits(g, t') == DirBits(g, t)[n := !used] && DirBits(g, t)[n] == used
    ensures DirsCounted(g, t', DirsMoved(g, dirs, n, used))
  {
    hide Geometry.GroupsCover, CountClear;
    var dirs', bits := DirsMoved(g, dirs, n, used), DirBits(g, t);
    assert |bits| == g.inodesCount + 1;
    forall k: nat | k < g.groupCount ensures dirs'[k] == CountClear(bits[n := !used], g.InodeBase(k), g.InodeEnd(k)) {
      InodeGroup(g, n, k);
      CountClearUpdate(bits, g.InodeBase(k), g.InodeEnd(k), n, !used);
    }
  }

  /** A new file is no directory. */
  lemma FileCounted(g: Geometry, t: N.Tree, p: nat, name: Name, n: nat, node: N.Node)
    requires p in t && t[p].Dir? && N.Fresh(t, p, n, node) && node.File?
    ensures DirBits(g, N.AddNode(t, p, name, n, node)) == DirBits(g, t)
  {
  }

  /** Nor do a file's bytes matter. */
  lemma BytesCounted(g: Geometry, t: N.Tree, n: nat, bytes: Block)
    requires n in t && t[n].File?
    ensures DirBits(g, t[n := N.File(bytes)]) == DirBits(g, t)
  {
  }

  lemma MadeCounted(g: Geometry, t: N.Tree, dirs: seq<nat>, p: nat, name: Name, n: nat, node: N.Node)
    requires g.Ok() && 1 <= n <= g.inodesCount && DirsCounted(g, t, dirs)
    requires p in t && t[p].Dir? && N.Fresh(t, p, n, node) && node.Dir?
    ensures DirsCounted(g, N.AddNode(t, p, name, n, node), DirsMoved(g, dirs, n, true))
  {
    var t' := N.AddNode(t, p, name, n, node);
    assert DirBits(g, t') == DirBits(g, t)[n := false];
    DirsFlip(g, t, t', dirs, n, true);
  }

  /** Removing node `n` moves the counter exactly if it is a directory. */
  lemma RemovedCounted(g: Geometry, t: N.Tree, dirs: seq<nat>, p: nat, name: Name)
    requires g.Ok() && DirsCounted(g, t, dirs) && N.TreeOk(t) && N.Removable(t, p, name)
    requires 1 <= t[p].entries[name] <= g.inodesCount
    ensures var n := t[p].entries[name];
            DirsCounted(g, N.RemoveNode(t, p, name), if t[n].Dir? then DirsMoved(g, dirs, n, false) else dirs)
  {
    var t', n := N.RemoveNode(t, p, name), t[p].entries[name];
    assert N.Lists(t, p, name, n);
    assert p != n;
    hide N.TreeOk, N.Removable;
    if t[n].Dir? {
      assert DirBits(g, t') == DirBits(g, t)[n := true];
      DirsFlip(g, t, t', dirs, n, false);
    } else {
      assert DirBits(g, t') == DirBits(g, t);
    }
  }
}
