/** resolve_path_for_current: user paths become absolute and lose their dots, in place in one buffer. */
module PathResolver {
  import opened Bytes
  import opened Paths

  const PATH_MAX: nat := 128

  // ---------- the simple form ----------

  /** One component, against the stack of components kept so far. */
  function Step(stack: seq<Name>, name: Name): seq<Name> {
    if name == [DOT] then stack
    else if name == [DOT, DOT] then (if stack == [] then [] else stack[..|stack| - 1])
    else stack + [name]
  }

  function Fold(stack: seq<Name>, names: seq<Name>): seq<Name>
    decreases |names|
  {
    if names == [] then stack else Fold(Step(stack, names[0]), names[1..])
  }

  /** A slash in front of each name. */
  function Body(stack: seq<Name>): Path {
    if stack == [] then [] else Body(stack[..|stack| - 1]) + [SLASH] + stack[|stack| - 1]
  }

  function Render(stack: seq<Name>): Path {
    if stack == [] then [SLASH] else Body(stack)
  }

  /** What a path normalizes to. */
  function Normal(path: Path): Path {
    Render(Fold([], Components(path, 0)))
  }

  /** Only proper names: nothing empty, no slash, no dots. */
  ghost predicate Proper(stack: seq<Name>) {
    forall k :: 0 <= k < |stack| ==> IsName(stack[k]) && !IsDots(stack[k])
  }

  lemma {:induction false} FoldIsProper(stack: seq<Name>, names: seq<Name>)
    requires Proper(stack) && forall k :: 0 <= k < |names| ==> IsName(names[k])
    ensures Proper(Fold(stack, names))
    decreases |names|
  {
    if names != [] {
      FoldIsProper(Step(stack, names[0]), names[1..]);
    }
  }

  /** Names without dots are kept as they are. */
  lemma {:induction false} FoldKeeps(stack: seq<Name>, names: seq<Name>)
    requires Proper(names)
    ensures Fold(stack, names) == stack + names
    decreases |names|
  {
    if names != [] {
      FoldKeeps(Step(stack, names[0]), names[1..]);
      assert stack + [names[0]] + names[1..] == stack + names;
    }
  }

  lemma FoldOne(stack: seq<Name>, names: seq<Name>)
    requires names != []
    ensures Fold(stack, names) == Fold(Step(stack, names[0]), names[1..])
  {
  }

  /** A rendered stack has exactly its names for components. */
  lemma {:induction false} BodyComponents(stack: seq<Name>)
    requires Proper(stack)
    ensures Components(Body(stack), 0) == stack
    decreases |stack|
  {
    if stack != [] {
      var init, name, body := stack[..|stack| - 1], stack[|stack| - 1], Body(stack);
      BodyComponents(init);
      var slash := |Body(init)|;
      assert body[..slash] == Body(init) && body[slash + 1..] == name;
      LastComponent(body, 0, slash);
      assert stack == init + [name];
    }
  }

  lemma RenderComponents(stack: seq<Name>)
    requires Proper(stack)
    ensures Components(Render(stack), 0) == stack
  {
    if stack == [] {
      SkipIs([SLASH], 0, 1);
    } else {
      BodyComponents(stack);
    }
  }

  /** The result is absolute, its components are proper names, and it ends in a slash only if it is the root. */
  lemma NormalForm(path: Path)
    ensures var n := Normal(path);
            && n != [] && n[0] == SLASH && Proper(Components(n, 0)) && Components(n, 0) == Fold([], Components(path, 0))
            && (n == [SLASH] || n[|n| - 1] != SLASH)
  {
    ComponentsAreNames(path, 0);
    var stack := Fold([], Components(path, 0));
    FoldIsProper([], Components(path, 0));
    RenderComponents(stack);
    if stack != [] { BodyStarts(stack); }
  }

  lemma {:induction false} BodyStarts(stack: seq<Name>)
    requires stack != [] && Proper(stack)
    ensures Body(stack) != [] && Body(stack)[0] == SLASH && Body(stack)[|Body(stack)| - 1] != SLASH && |Body(stack)| >= 2
    decreases |stack|
  {
    if |stack| > 1 {
      BodyStarts(stack[..|stack| - 1]);
    }
  }

  /** Normalizing twice is normalizing once. */
  lemma NormalTwice(path: Path)
    ensures Normal(Normal(path)) == Normal(path)
  {
    NormalForm(path);
    var stack := Fold([], Components(path, 0));
    FoldKeeps([], stack);
    assert [] + stack == stack;
  }

  // ---------- what the dots do ----------

  lemma {:induction false} FoldConcat(stack: seq<Name>, a: seq<Name>, b: seq<Name>)
    ensures Fold(stack, a + b) == Fold(Fold(stack, a), b)
    decreases |a|
  {
    if a == [] {
      assert a + b == b;
    } else {
      assert (a + b)[0] == a[0] && (a + b)[1..] == a[1..] + b;
      FoldConcat(Step(stack, a[0]), a[1..], b);
    }
  }

  /** One more component at the end of a path is one more step. */
  lemma NormalLast(path: Path, name: Name)
    requires IsName(name)
    ensures Normal(path + [SLASH] + name) == Render(Step(Fold([], Components(path, 0)), name))
  {
    var longer := path + [SLASH] + name;
    assert longer[..|path|] == path && longer[|path| + 1..] == name;
    LastComponent(longer, 0, |path|);
    FoldConcat([], Components(path, 0), [name]);
    assert [name][1..] == [];
  }

  /** A name at the end of a path is one more component; a single dot is none. */
  lemma NormalName(path: Path, name: Name)
    requires IsName(name) && !IsDots(name)
    ensures Components(Normal(path + [SLASH] + name), 0) == Components(Normal(path), 0) + [name]
  {
    var stack := Fold([], Components(path, 0));
    NormalForm(path);
    NormalLast(path, name);
    assert Proper(stack + [name]) by { FoldIsProper([], Components(path, 0)) by { ComponentsAreNames(path, 0); } }
    hide Components, Fold, Render;
    RenderComponents(stack + [name]);
  }

  lemma NormalDot(path: Path)
    ensures Normal(path + [SLASH, DOT]) == Normal(path)
  {
    NormalLast(path, [DOT]);
    assert path + [SLASH] + [DOT] == path + [SLASH, DOT];
  }

  /** A double dot takes back the name in front of it, whatever path that name ends. */
  lemma NormalDotDot(path: Path, name: Name)
    requires IsName(name) && !IsDots(name)
    ensures Normal(path + [SLASH] + name + [SLASH, DOT, DOT]) == Normal(path)
  {
    var stack := Fold([], Components(path, 0));
    var longer := path + [SLASH] + name;
    NormalLast(longer, [DOT, DOT]);
    assert longer + [SLASH] + [DOT, DOT] == longer + [SLASH, DOT, DOT];
    assert longer[..|path|] == path && longer[|path| + 1..] == name;
    LastComponent(longer, 0, |path|);
    FoldConcat([], Components(path, 0), [name]);
    assert Fold(stack, [name]) == stack + [name] by { assert [name][1..] == []; }
    assert (stack + [name])[..|stack|] == stack;
  }

  /** At the root there is nothing to take back. */
  lemma RootDotDot()
    ensures Normal([SLASH]) == [SLASH] && Normal([SLASH, DOT, DOT]) == [SLASH]
  {
    SkipIs([SLASH], 0, 1);
    NormalLast([], [DOT, DOT]);
    assert [] + [SLASH] + [DOT, DOT] == [SLASH, DOT, DOT];
  }

  // ---------- the loop's steps ----------

  lemma PushBody(stack: seq<Name>, name: Name)
    ensures Body(stack + [name]) == Body(stack) + [SLASH] + name
  {
    assert (stack + [name])[..|stack|] == stack;
  }

  /** The path the source puts together from the working directory and the argument. */
  function Combined(path: Path, cwd: Path): Path
    requires path != []
  {
    if path[0] == SLASH then (if |path| >= PATH_MAX then path[..PATH_MAX - 1] else path)
    else cwd + (if |cwd| > 1 && cwd[|cwd| - 1] != SLASH then [SLASH] else []) + path
  }

  /** `out` holds `s` and the terminating zero. */
  ghost predicate Holds(out: seq<byte>, s: Path) {
    |s| < |out| && out[..|s|] == s && out[|s|] == 0
  }

  /** The last component is cut off: back to the slash in front of it, and that slash too unless it is the root's. */
  method Pop(out: array<byte>, len: nat, ghost stack: seq<Name>) returns (len': nat)
    requires Proper(stack) && Holds(out[..], Render(stack)) && len == |Render(stack)|
    modifies out
    ensures Holds(out[..], Render(Step(stack, [DOT, DOT]))) && len' == |Render(Step(stack, [DOT, DOT]))|
  {
    len' := len;
    if stack != [] { BodyStarts(stack); }
    if len' > 1 {
      ghost var init, name := stack[..|stack| - 1], stack[|stack| - 1];
      ghost var slash := |Body(init)|;
      assert Body(stack) == Body(init) + [SLASH] + name;
      ghost var o := out[..];
      assert o[slash] == o[..len][slash] == SLASH;
      assert forall k :: slash < k < len ==> o[k] == o[..len][k] == name[k - slash - 1];
      while len' > 1 && out[len' - 1] != SLASH
        invariant slash + 1 <= len' <= len && out[..] == o
      {
        len' := len' - 1;
      }
      if len' > 1 {
        if init != [] { BodyStarts(init); }
        len' := len' - 1;
      }
      assert o[..slash] == o[..len][..slash] == Body(init);
      out[len'] := 0;
      assert out[..len'] == o[..len'];
      if init == [] { assert o[..1] == [SLASH]; }
    }
  }

  /** A name is appended, after a slash unless the result is still the root. */
  method Push(out: array<byte>, len: nat, name: Name, ghost stack: seq<Name>) returns (ok: bool, len': nat)
    requires Proper(stack) && Holds(out[..], Render(stack)) && len == |Render(stack)| && IsName(name)
    modifies out
    ensures ok <==> |Body(stack + [name])| < out.Length
    ensures ok ==> Holds(out[..], Render(stack + [name])) && len' == |Render(stack + [name])|
  {
    PushBody(stack, name);
    if stack != [] { BodyStarts(stack); }
    var needed := len + (if len > 1 then 1 else 0) + |name| + 1;
    if needed > out.Length {
      return false, len;
    }
    ghost var o := out[..];
    len' := len;
    if len' > 1 {
      out[len'] := SLASH;
      len' := len' + 1;
    }
    var at := len';
    ghost var front := Body(stack) + [SLASH];
    FrontKept(o, out[..], stack, len, at);
    hide Body, Render, Proper, Holds;
    for k := 0 to |name|
      invariant out[..at] == front && out[at..at + k] == name[..k]
    {
      out[at + k] := name[k];
      assert out[at..at + k + 1] == out[at..at + k] + [name[k]];
    }
    len' := len' + |name|;
    out[len'] := 0;
    assert out[..len'] == out[..at] + out[at..at + |name|];
    return true, len';
  }

  lemma FrontKept(o: seq<byte>, s: seq<byte>, stack: seq<Name>, len: nat, at: nat)
    requires Holds(o, Render(stack)) && len == |Render(stack)| && |s| == |o| && at < |o|
    requires Render(stack) == if stack == [] then [SLASH] else Body(stack)
    requires stack != [] ==> |Body(stack)| > 1
    requires at == (if len > 1 then len + 1 else len) && (len > 1 ==> s[len] == SLASH)
    requires forall k :: 0 <= k < len ==> s[k] == o[k]
    ensures s[..at] == Body(stack) + [SLASH]
  {
    assert forall k :: 0 <= k < len ==> o[k] == o[..len][k];
  }

  /** One component in the buffer. */
  method Apply(out: array<byte>, len: nat, name: Name, ghost stack: seq<Name>) returns (ok: bool, len': nat)
    requires Proper(stack) && Holds(out[..], Render(stack)) && len == |Render(stack)| && IsName(name)
    modifies out
    ensures ok ==> Proper(Step(stack, name)) && Holds(out[..], Render(Step(stack, name))) && len' == |Render(Step(stack, name))|
    ensures |Body(stack)| + 1 + |name| < out.Length ==> ok
    ensures |Body(Step(stack, name))| <= |Body(stack)| + 1 + |name|
  {
    hide Body, Render, Holds;
    len' := len;
    ok := true;
    PushBody(stack, name);
    PopShrinks(stack);
    if |name| == 1 && name[0] == DOT {
      assert name == [DOT];
    } else if |name| == 2 && name[0] == DOT && name[1] == DOT {
      assert name == [DOT, DOT];
      len' := Pop(out, len, stack);
    } else if |name| != 0 {
      ok, len' := Push(out, len, name, stack);
    }
  }

  lemma FirstComponent(path: Path, start: nat)
    requires start < |path| && SkipSlashes(path, start) == start
    ensures var e := NameEnd(path, start);
            && start < e && IsName(path[start..e]) && Components(path, start) == [path[start..e]] + Components(path, e)
            && Components(path, start)[0] == path[start..e] && Components(path, start)[1..] == Components(path, e)
    ensures NameEnd(path, start) < |path| ==> SkipSlashes(path, NameEnd(path, start)) > NameEnd(path, start)
  {
  }

  /** The working directory of the current process, or the root. */
  function BaseOf(cwd: Path): (r: Path)
    ensures r != []
  {
    if cwd == [] then [SLASH] else cwd
  }

  /** The argument fits the buffer the two are joined in. */
  predicate Joins(path: Path, cwd: Path) {
    path != [] && (path[0] == SLASH || |Combined(path, BaseOf(cwd))| + 1 <= PATH_MAX)
  }

  /** resolve_path_for_current: the loop over the buffer computes the simple form, and with an absolute working directory
      nothing that could be joined is too long for the result. */
  method Resolve(path: Path, cwd: Path, out: array<byte>) returns (ok: bool, len: nat)
    modifies out
    ensures ok ==>
              && Joins(path, cwd) && len == |Normal(Combined(path, BaseOf(cwd)))|
              && Holds(out[..], Normal(Combined(path, BaseOf(cwd))))
    ensures BaseOf(cwd)[0] == SLASH && out.Length >= PATH_MAX ==> (ok <==> Joins(path, cwd))
  {
    ok, len := false, 0;
    if path == [] || out.Length == 0 {
      return;
    }
    var base := BaseOf(cwd);
    if path[0] != SLASH && |base| + (if |base| > 1 && base[|base| - 1] != SLASH then 1 else 0) + |path| + 1 > PATH_MAX {
      return;
    }
    var combined := Combined(path, base);
    if out.Length < 2 {
      return;
    }
    out[0], out[1], len := SLASH, 0, 1;
    assert out[..1] == [SLASH];
    hide Components, Combined, SkipSlashes, NameEnd, Fold, Step;
    var cursor := SkipSlashes(combined, 0);
    SkipIsNothing(combined, 0, cursor);
    ComponentsAreNames(combined, 0);
    ghost var stack: seq<Name> := [];
    assert Holds(out[..], Render(stack)) && len == |Render(stack)| && Body(stack) == [];
    hide Render, Body, Holds, Proper;
    assert Proper(stack) by { NothingIsProper(); }
    while cursor < |combined|
      invariant cursor <= |combined| && SkipSlashes(combined, cursor) == cursor
      invariant Proper(stack) && Holds(out[..], Render(stack)) && len == |Render(stack)|
      invariant Fold(stack, Components(combined, cursor)) == Fold([], Components(combined, 0))
      invariant combined[0] == SLASH ==> |Body(stack)| <= cursor && (cursor < |combined| ==> |Body(stack)| < cursor)
      decreases |combined| - cursor
    {
      var start := cursor;
      cursor := NameEnd(combined, start);
      var name := combined[start..cursor];
      FirstComponent(combined, start);
      FoldOne(stack, Components(combined, start));
      ok, len := Apply(out, len, name, stack);
      if !ok {
        return;
      }
      stack := Step(stack, name);
      SkipIsNothing(combined, cursor, SkipSlashes(combined, cursor));
      cursor := SkipSlashes(combined, cursor);
    }
    return true, len;
  }

  lemma NothingIsProper()
    ensures Proper([])
  {
  }

  lemma PopShrinks(stack: seq<Name>)
    ensures |Body(Step(stack, [DOT, DOT]))| <= |Body(stack)|
  {
  }
}
