/** The file tree the volume stands for: what a path leads to, and what adding and removing one entry does to
    every path. */
module Namespace {
  import opened Bytes
  import opened Paths

  datatype Node = File(bytes: Block) | Dir(entries: map<Name, nat>)

  /** Live inodes by number. */
  type Tree = map<nat, Node>

  const ROOT: nat := 2

  /** One component. */
  function Enter(t: Tree, d: nat, name: Name): Option<nat> {
    if d in t && t[d].Dir? && name in t[d].entries then Some(t[d].entries[name]) else None
  }

  /** The inode the components lead to from inode `d`. */
  function Lookup(t: Tree, d: nat, names: seq<Name>): Option<nat>
    decreases |names|
  {
    if names == [] then Some(d)
    else
      match Enter(t, d, names[0])
      case None => None
      case Some(next) => Lookup(t, next, names[1..])
  }

  /** Looking up a path is looking up its parent and then its last name. */
  lemma {:induction false} LookupLast(t: Tree, d: nat, names: seq<Name>, last: Name)
    ensures Lookup(t, d, names + [last]) ==
            match Lookup(t, d, names)
            case None => None
            case Some(parent) => Enter(t, parent, last)
    decreases |names|
  {
    if names == [] {
      assert ([] + [last])[1..] == [];
    } else {
      assert (names + [last])[1..] == names[1..] + [last];
      match Enter(t, d, names[0])
      case None =>
      case Some(next) => LookupLast(t, next, names[1..], last);
    }
  }

  // ---------- well-formed trees ----------

  /** Directory `d` has an entry for `n` under a name other than its dots. */
  ghost predicate Lists(t: Tree, d: nat, name: Name, n: nat) {
    d in t && t[d].Dir? && name in t[d].entries && !IsDots(name) && t[d].entries[name] == n
  }

  ghost predicate TreeOk(t: Tree) {
    && ROOT in t && t[ROOT].Dir?
    && (forall d, x :: d in t && t[d].Dir? && x in t[d].entries ==> t[d].entries[x] in t)
    && (forall d :: d in t && t[d].Dir? ==> DotsOk(t, d))
    // no hard links, and nothing contains the root
    && (forall d, x, n, d', x' :: Lists(t, d, x, n) && Lists(t, d', x', n) ==> d' == d && x' == x)
    && (forall d, x :: !Lists(t, d, x, ROOT))
  }

  /** A directory names itself and, unless it is the root, the directory that lists it. */
  ghost predicate DotsOk(t: Tree, d: nat)
    requires d in t && t[d].Dir?
  {
    && DOT_NAME in t[d].entries && t[d].entries[DOT_NAME] == d
    && DOTDOT_NAME in t[d].entries
    && (d != ROOT ==> exists x :: Lists(t, t[d].entries[DOTDOT_NAME], x, d))
    && (d == ROOT ==> t[d].entries[DOTDOT_NAME] == ROOT)
  }

  lemma MissingIsNoDots(t: Tree, p: nat, name: Name)
    requires TreeOk(t) && p in t && t[p].Dir? && name !in t[p].entries
    ensures !IsDots(name)
  {
    assert DotsOk(t, p);
  }

  /** A path that uses no dots. */
  ghost predicate Plain(names: seq<Name>) {
    forall k :: 0 <= k < |names| ==> !IsDots(names[k])
  }

  lemma {:induction false} LookupIsLive(t: Tree, d: nat, names: seq<Name>)
    requires TreeOk(t) && d in t && Lookup(t, d, names).Some?
    ensures Lookup(t, d, names).value in t
    decreases |names|
  {
    if names != [] {
      LookupIsLive(t, t[d].entries[names[0]], names[1..]);
    }
  }

  /** Different plain paths lead to different inodes. */
  lemma {:induction false} PlainPathsUnique(t: Tree, a: seq<Name>, b: seq<Name>)
    requires TreeOk(t) && Plain(a) && Plain(b)
    requires Lookup(t, ROOT, a).Some? && Lookup(t, ROOT, a) == Lookup(t, ROOT, b)
    ensures a == b
    decreases |a| + |b|
  {
    if a != [] && b != [] {
      var a', b', x, y := a[..|a| - 1], b[..|b| - 1], a[|a| - 1], b[|b| - 1];
      assert a == a' + [x] && b == b' + [y];
      LookupLast(t, ROOT, a', x);
      LookupLast(t, ROOT, b', y);
      var n, p, q := Lookup(t, ROOT, a).value, Lookup(t, ROOT, a').value, Lookup(t, ROOT, b').value;
      assert Lists(t, p, x, n) && Lists(t, q, y, n);
      PlainPathsUnique(t, a', b');
    } else if a != [] {
      PathToRoot(t, a);
    } else if b != [] {
      PathToRoot(t, b);
    }
  }

  lemma PathToRoot(t: Tree, a: seq<Name>)
    requires TreeOk(t) && Plain(a) && a != []
    ensures Lookup(t, ROOT, a) != Some(ROOT)
  {
    var a', x := a[..|a| - 1], a[|a| - 1];
    assert a == a' + [x];
    LookupLast(t, ROOT, a', x);
    if Lookup(t, ROOT, a) == Some(ROOT) {
      assert Lists(t, Lookup(t, ROOT, a').value, x, ROOT);
    }
  }

  /** Replacing one file's bytes changes no path. */
  lemma SetFileKeepsTree(t: Tree, n: nat, bytes: Block)
    requires TreeOk(t) && n in t && t[n].File?
    ensures TreeOk(t[n := File(bytes)])
  {
    var t' := t[n := File(bytes)];
    forall d, x, m ensures Lists(t', d, x, m) <==> Lists(t, d, x, m) {
    }
    forall d | d in t' && t'[d].Dir? ensures DotsOk(t', d) {
      assert DotsOk(t, d);
      if d != ROOT {
        var x :| Lists(t, t[d].entries[DOTDOT_NAME], x, d);
        assert Lists(t', t'[d].entries[DOTDOT_NAME], x, d);
      }
    }
    hide Lists, DotsOk;
  }

  // ---------- adding one entry ----------

  /** Directory `p` gets an entry `name` for the new inode `n`. */
  function AddNode(t: Tree, p: nat, name: Name, n: nat, node: Node): Tree
    requires p in t && t[p].Dir?
  {
    t[p := Dir(t[p].entries[name := n])][n := node]
  }

  /** What a new inode may be: an empty file, or a directory with nothing but its dots. */
  ghost predicate Fresh(t: Tree, p: nat, n: nat, node: Node) {
    && n !in t && n != p && n != ROOT
    && (node.Dir? ==> node.entries == map[DOT_NAME := n, DOTDOT_NAME := p])
  }

  lemma AddListed(t: Tree, p: nat, name: Name, n: nat, node: Node, d: nat, x: Name, m: nat)
    requires TreeOk(t) && p in t && t[p].Dir? && Fresh(t, p, n, node) && !IsDots(name) && name !in t[p].entries
    ensures Lists(AddNode(t, p, name, n, node), d, x, m) <==> Lists(t, d, x, m) || (d == p && x == name && m == n)
  {
  }

  lemma ListedIsLive(t: Tree, d: nat, x: Name, m: nat)
    requires TreeOk(t) && Lists(t, d, x, m)
    ensures m in t
  {
  }

  lemma AddKeepsTree(t: Tree, p: nat, name: Name, n: nat, node: Node)
    requires TreeOk(t) && p in t && t[p].Dir? && Fresh(t, p, n, node) && !IsDots(name) && name !in t[p].entries
    ensures TreeOk(AddNode(t, p, name, n, node))
  {
    var t' := AddNode(t, p, name, n, node);
    forall d, x, m ensures Lists(t', d, x, m) <==> Lists(t, d, x, m) || (d == p && x == name && m == n) {
      AddListed(t, p, name, n, node, d, x, m);
    }
    assert forall d, x :: !Lists(t, d, x, n) by {
      forall d, x ensures !Lists(t, d, x, n) {
        if Lists(t, d, x, n) { ListedIsLive(t, d, x, n); }
      }
    }
    forall d | d in t' && t'[d].Dir? ensures DotsOk(t', d) {
      if d != n {
        assert DotsOk(t, d);
        if d != ROOT {
          var x :| Lists(t, t[d].entries[DOTDOT_NAME], x, d);
          assert Lists(t', t'[d].entries[DOTDOT_NAME], x, d);
        }
      } else {
        assert Lists(t', p, name, n);
      }
    }
    hide DotsOk, Lists;
  }

  /** Adding one entry binds exactly one more plain path. */
  lemma {:induction false} AddBindsOnePath(t: Tree, parent: seq<Name>, p: nat, name: Name, n: nat, node: Node,
                                           path: seq<Name>)
    requires TreeOk(t) && p in t && t[p].Dir? && Fresh(t, p, n, node) && !IsDots(name) && name !in t[p].entries
    requires Plain(parent) && Lookup(t, ROOT, parent) == Some(p) && Plain(path)
    ensures Lookup(AddNode(t, p, name, n, node), ROOT, path) ==
            if path == parent + [name] then Some(n) else Lookup(t, ROOT, path)
  {
    var t' := AddNode(t, p, name, n, node);
    if path != [] {
      var init, x := path[..|path| - 1], path[|path| - 1];
      assert path == init + [x];
      AddBindsOnePath(t, parent, p, name, n, node, init);
      LookupLast(t, ROOT, init, x);
      LookupLast(t', ROOT, init, x);
      if init == parent {
      } else if init == parent + [name] {
        LookupLast(t, ROOT, parent, name);
      } else if Lookup(t, ROOT, init).Some? {
        LookupIsLive(t, ROOT, init);
        if Lookup(t, ROOT, init) == Some(p) {
          PlainPathsUnique(t, init, parent);
        }
      }
    }
  }

  // ---------- removing one entry ----------

  /** Directory `p` loses its entry `name`, and the inode behind it is gone. */
  function RemoveNode(t: Tree, p: nat, name: Name): Tree
    requires p in t && t[p].Dir? && name in t[p].entries
  {
    t[p := Dir(t[p].entries - {name})] - {t[p].entries[name]}
  }

  /** What may be removed: a file, or a directory with nothing but its dots. */
  ghost predicate Removable(t: Tree, p: nat, name: Name) {
    && Enter(t, p, name).Some? && !IsDots(name)
    && (var n := Enter(t, p, name).value;
        n in t && (t[n].Dir? ==> forall x :: x in t[n].entries ==> IsDots(x)))
  }

  lemma RemoveListed(t: Tree, p: nat, name: Name, d: nat, x: Name, m: nat)
    requires TreeOk(t) && Removable(t, p, name)
    ensures Lists(RemoveNode(t, p, name), d, x, m) <==> Lists(t, d, x, m) && !(d == p && x == name)
  {
    assert Lists(t, p, name, t[p].entries[name]);
  }

  /** Apart from its own dots, what is removed is listed only where it is removed from. */
  lemma OnlyEntry(t: Tree, p: nat, name: Name, d: nat, x: Name)
    requires TreeOk(t) && Removable(t, p, name) && d in t && t[d].Dir? && x in t[d].entries
    requires t[d].entries[x] == t[p].entries[name] && d != t[p].entries[name]
    ensures d == p && x == name
  {
    var n := t[p].entries[name];
    assert DotsOk(t, d);
    assert Lists(t, p, name, n);
    assert forall y :: !Lists(t, n, y, d);
    assert !IsDots(x) ==> Lists(t, d, x, n);
  }

  lemma RemoveKeepsTree(t: Tree, p: nat, name: Name)
    requires TreeOk(t) && Removable(t, p, name)
    ensures TreeOk(RemoveNode(t, p, name))
  {
    var t', n := RemoveNode(t, p, name), t[p].entries[name];
    assert Lists(t, p, name, n);
    assert p != n;
    forall d, x, m ensures Lists(t', d, x, m) <==> Lists(t, d, x, m) && !(d == p && x == name) {
      RemoveListed(t, p, name, d, x, m);
    }
    forall d | d in t' && t'[d].Dir? ensures DotsOk(t', d) {
      assert DotsOk(t, d);
      if d != ROOT {
        var x :| Lists(t, t[d].entries[DOTDOT_NAME], x, d);
        assert !(t[d].entries[DOTDOT_NAME] == p && x == name);
        assert Lists(t', t'[d].entries[DOTDOT_NAME], x, d);
      }
    }
    forall d, x | d in t' && t'[d].Dir? && x in t'[d].entries ensures t'[d].entries[x] in t' {
      if t'[d].entries[x] == n { OnlyEntry(t, p, name, d, x); }
    }
    hide DotsOk, Lists;
  }

  /** Removing one entry unbinds exactly one plain path. */
  lemma {:induction false} RemoveUnbindsOnePath(t: Tree, parent: seq<Name>, p: nat, name: Name, path: seq<Name>)
    requires TreeOk(t) && Removable(t, p, name)
    requires Plain(parent) && Lookup(t, ROOT, parent) == Some(p) && Plain(path)
    ensures Lookup(RemoveNode(t, p, name), ROOT, path) == if path == parent + [name] then None else Lookup(t, ROOT, path)
  {
    var t', n := RemoveNode(t, p, name), t[p].entries[name];
    if path != [] {
      var init, x := path[..|path| - 1], path[|path| - 1];
      assert path == init + [x];
      RemoveUnbindsOnePath(t, parent, p, name, init);
      LookupLast(t, ROOT, init, x);
      LookupLast(t', ROOT, init, x);
      LookupLast(t, ROOT, parent, name);
      if init != parent && init != parent + [name] && Lookup(t, ROOT, init).Some? {
        LookupIsLive(t, ROOT, init);
        var d := Lookup(t, ROOT, init).value;
        if d == p {
          PlainPathsUnique(t, init, parent);
        } else if d == n {
          PlainPathsUnique(t, init, parent + [name]);
        }
      }
    }
  }

  /** Removing what was just added restores the tree, and with it every path, dots or no dots. */
  lemma AddThenRemove(t: Tree, p: nat, name: Name, n: nat, node: Node)
    requires TreeOk(t) && p in t && t[p].Dir? && Fresh(t, p, n, node) && !IsDots(name) && name !in t[p].entries
    ensures Removable(AddNode(t, p, name, n, node), p, name)
    ensures RemoveNode(AddNode(t, p, name, n, node), p, name) == t
  {
    var t' := AddNode(t, p, name, n, node);
    assert t'[p].entries - {name} == t[p].entries;
  }
}
