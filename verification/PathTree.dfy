/** Normalized paths against the file tree: taking the dots out by text leads where the directories' own dots lead. */
module PathTree {
  import opened Bytes
  import opened Paths
  import opened Namespace
  import opened PathResolver
  import Ext2Namespace

  /** In a directory that names lead to, the dots lead where the text says. */
  lemma DotsLead(t: Tree, stack: seq<Name>, d: nat, name: Name)
    requires TreeOk(t) && Proper(stack) && Lookup(t, ROOT, stack) == Some(d) && Enter(t, d, name).Some?
    ensures Lookup(t, ROOT, Step(stack, name)) == Enter(t, d, name)
  {
    assert DotsOk(t, d);
    if stack == [] {
      assert [] + [name] == [name] && [name][1..] == [];
    } else {
      var init, last := stack[..|stack| - 1], stack[|stack| - 1];
      assert stack == init + [last];
      LookupLast(t, ROOT, init, last);
      assert Lists(t, Lookup(t, ROOT, init).value, last, d);
    }
    LookupLast(t, ROOT, stack, name);
  }

  lemma {:induction false} FoldLeads(t: Tree, stack: seq<Name>, d: nat, names: seq<Name>)
    requires TreeOk(t) && Proper(stack) && Lookup(t, ROOT, stack) == Some(d) && Lookup(t, d, names).Some?
    requires forall k :: 0 <= k < |names| ==> IsName(names[k])
    ensures Lookup(t, ROOT, Fold(stack, names)) == Lookup(t, d, names)
    decreases |names|
  {
    if names != [] {
      DotsLead(t, stack, d, names[0]);
      FoldIsProper(stack, names[..1]);
      FoldLeads(t, Step(stack, names[0]), Enter(t, d, names[0]).value, names[1..]);
    }
  }

  /** What a path leads to, its normal form leads to as well. */
  lemma NormalLeads(t: Tree, path: Path)
    requires TreeOk(t) && Ext2Namespace.Resolve(t, path).Some?
    ensures Ext2Namespace.Resolve(t, Normal(path)) == Ext2Namespace.Resolve(t, path)
  {
    NormalForm(path);
    ComponentsAreNames(path, 0);
    FoldLeads(t, [], ROOT, Components(path, 0));
  }

  lemma TakenBack(name: Name)
    requires IsName(name)
    ensures Components([SLASH] + name + [SLASH, DOT, DOT], 0) == [name, [DOT, DOT]]
  {
    var path, longer := [SLASH] + name + [SLASH, DOT, DOT], [SLASH] + name;
    assert path[..|longer|] == longer && path[|longer| + 1..] == [DOT, DOT];
    LastComponent(path, 0, |longer|);
    assert longer[..0] == [] && longer[1..] == name;
    LastComponent(longer, 0, 0);
    assert Components([], 0) == [];
  }

  /** The converse fails: a name that does not exist, taken back again, leads nowhere as it stands, and its normal form
      to the root. */
  lemma NormalLeadsFurther(t: Tree, name: Name)
    requires TreeOk(t) && IsName(name) && !IsDots(name) && name !in t[ROOT].entries
    ensures var path := [SLASH] + name + [SLASH, DOT, DOT];
            Ext2Namespace.Resolve(t, path) == None && Ext2Namespace.Resolve(t, Normal(path)) == Some(ROOT)
  {
    var path := [SLASH] + name + [SLASH, DOT, DOT];
    TakenBack(name);
    NormalDotDot([], name);
    assert [] + [SLASH] + name + [SLASH, DOT, DOT] == path;
    hide Components, TreeOk;
    assert Normal([]) == [SLASH] && Components([SLASH], 0) == [] by { RootDotDot(); RenderComponents([]); EmptyPath(); }
  }

  lemma EmptyPath()
    ensures Normal([]) == [SLASH]
  {
  }
}
