/** Absolute paths as byte strings, and the components between their slashes. */
module Paths {
  import opened Bytes

  type Path = Block

  type Name = Block

  const SLASH: byte := 47
  const DOT: byte := 46

  const DOT_NAME: Name := [DOT]
  const DOTDOT_NAME: Name := [DOT, DOT]

  predicate IsDots(name: Name) { name == DOT_NAME || name == DOTDOT_NAME }

  /** The first position from `i` on that does not hold a slash. */
  function SkipSlashes(path: Path, i: nat): (j: nat)
    requires i <= |path|
    ensures i <= j <= |path| && (j < |path| ==> path[j] != SLASH)
    ensures forall k :: i <= k < j ==> path[k] == SLASH
    decreases |path| - i
  {
    if i < |path| && path[i] == SLASH then SkipSlashes(path, i + 1) else i
  }

  /** The first slash from `i` on, or the end. */
  function NameEnd(path: Path, i: nat): (j: nat)
    requires i <= |path|
    ensures i <= j <= |path| && (j < |path| ==> path[j] == SLASH)
    ensures forall k :: i <= k < j ==> path[k] != SLASH
    ensures i < |path| && path[i] != SLASH ==> i < j
    decreases |path| - i
  {
    if i < |path| && path[i] != SLASH then NameEnd(path, i + 1) else i
  }

  /** The non-empty components from position `i` on. */
  function Components(path: Path, i: nat): seq<Name>
    requires i <= |path|
    decreases |path| - i
  {
    var start := SkipSlashes(path, i);
    if start == |path| then []
    else [path[start..NameEnd(path, start)]] + Components(path, NameEnd(path, start))
  }

  predicate IsName(name: Name) {
    0 < |name| && forall k :: 0 <= k < |name| ==> name[k] != SLASH
  }

  lemma {:induction false} ComponentsAreNames(path: Path, i: nat)
    requires i <= |path|
    ensures forall k :: 0 <= k < |Components(path, i)| ==> IsName(Components(path, i)[k])
    decreases |path| - i
  {
    var start := SkipSlashes(path, i);
    if start < |path| {
      ComponentsAreNames(path, NameEnd(path, start));
    }
  }

  /** Slashes separate nothing: a scan may start behind them. */
  lemma {:induction false} SkipIsNothing(path: Path, i: nat, j: nat)
    requires i <= j <= |path| && j <= SkipSlashes(path, i)
    ensures Components(path, j) == Components(path, i) && SkipSlashes(path, j) == SkipSlashes(path, i)
    decreases j - i
  {
    if i < j {
      SkipIsNothing(path, i + 1, j);
    }
  }

  /** Where a name starts and ends is not affected by what follows it. */
  lemma {:induction false} NameEndIs(path: Path, i: nat, e: nat)
    requires i <= e <= |path| && (forall k :: i <= k < e ==> path[k] != SLASH) && (e < |path| ==> path[e] == SLASH)
    ensures NameEnd(path, i) == e
    decreases |path| - i
  {
    if i < e {
      NameEndIs(path, i + 1, e);
    }
  }

  lemma EndsBefore(path: Path, i: nat, slash: nat)
    requires i <= slash < |path| && path[slash] == SLASH
    ensures NameEnd(path, i) <= slash
  {
  }

  lemma {:induction false} SkipIs(path: Path, i: nat, e: nat)
    requires i <= e <= |path| && (forall k :: i <= k < e ==> path[k] == SLASH) && (e < |path| ==> path[e] != SLASH)
    ensures SkipSlashes(path, i) == e
    decreases |path| - i
  {
    if i < e {
      SkipIs(path, i + 1, e);
    }
  }

  lemma OnlySlash(path: Path)
    requires path == [SLASH]
    ensures Components(path, 0) == [] && Components([], 0) == []
  {
    SkipIs(path, 0, 1);
  }

  /** Trailing slashes carry no component. */
  lemma {:induction false} TrailingSlashes(path: Path, i: nat, n: nat)
    requires i <= n <= |path| && forall k :: n <= k < |path| ==> path[k] == SLASH
    ensures Components(path, i) == Components(path[..n], i)
    decreases |path| - i
  {
    var start, cut := SkipSlashes(path, i), path[..n];
    if start >= n {
      SkipIs(path, i, |path|);
      SkipIs(cut, i, n);
    } else {
      SkipIs(cut, i, start);
      var e := NameEnd(path, start);
      if n < |path| { EndsBefore(path, start, n); }
      NameEndIs(cut, start, e);
      assert cut[start..e] == path[start..e];
      TrailingSlashes(path, e, n);
    }
  }

  /** A slash followed by a slashless name at the end of a path is one more component. */
  lemma {:induction false} LastComponent(path: Path, i: nat, slash: nat)
    requires i <= slash < |path| && path[slash] == SLASH && IsName(path[slash + 1..])
    ensures Components(path, i) == Components(path[..slash], i) + [path[slash + 1..]]
    decreases |path| - i
  {
    var start, cut := SkipSlashes(path, i), path[..slash];
    forall k | slash < k < |path| ensures path[k] != SLASH {
      assert path[k] == path[slash + 1..][k - slash - 1];
    }
    if start > slash {
      assert path[slash + 1] != SLASH;
      SkipIs(cut, i, slash);
      NameEndIs(path, start, |path|);
      assert start == slash + 1;
      assert NameEnd(path, start) == |path|;
      assert path[start..|path|] == path[slash + 1..];
      assert Components(path, |path|) == [];
      assert Components(cut, i) == [];
    } else {
      SkipIs(cut, i, start);
      var e := NameEnd(path, start);
      EndsBefore(path, start, slash);
      NameEndIs(cut, start, e);
      assert cut[start..e] == path[start..e];
      LastComponent(path, e, slash);
    }
  }
}
