/** The address spaces: mapping, unmapping and translating pages through shared and private tables. */
module Vmm {
  import opened Bytes
  import opened Pmm
  import opened PageTables

  /** Free frames became tables, in list order; nothing else left the free list, and no table moved. */
  ghost predicate Took(home: Home, list: seq<nat>, home': Home, list': seq<nat>) {
    && |list'| <= |list| && list' == list[|list| - |list'|..]
    && home'.Keys == home.Keys + Set(list[..|list| - |list'|])
    && forall t :: t in home ==> home'[t] == home[t]
  }

  lemma AlignedFrame(p: nat)
    ensures Aligned(p) ==> AlignedTo(p, 1)
  {
  }

  /** Frames that are no tables keep what they hold. */
  ghost predicate OnlyTables(m: Memory, m': Memory, home': Home) {
    forall f :: f !in home' ==> (f in m' <==> f in m) && (f in m ==> m'[f] == m[f])
  }

  /** Tables may have been added, but every address space translates as before. */
  ghost predicate Invisible(m: Memory, home: Home, list: seq<nat>, m': Memory, home': Home, list': seq<nat>) {
    Took(home, list, home', list') && OnlyTables(m, m', home') && SameLeaves(m, home, m') && RootsKept(m, home, m')
  }

  lemma InvisibleReflexive(m: Memory, home: Home, list: seq<nat>)
    ensures Invisible(m, home, list, m, home, list) && KeepsUserBits(m, home, m, home)
  {
    assert list[..0] == [];
  }

  lemma TookTransitive(h0: Home, l0: seq<nat>, h1: Home, l1: seq<nat>, h2: Home, l2: seq<nat>)
    requires Took(h0, l0, h1, l1) && Took(h1, l1, h2, l2)
    ensures Took(h0, l0, h2, l2)
  {
    var a, b, c := l0[..|l0| - |l1|], l1[..|l1| - |l2|], l0[..|l0| - |l2|];
    assert c == a + b;
  }

  lemma InvisibleTransitive(m0: Memory, h0: Home, l0: seq<nat>, m1: Memory, h1: Home, l1: seq<nat>,
                            m2: Memory, h2: Home, l2: seq<nat>)
    requires Invisible(m0, h0, l0, m1, h1, l1) && Invisible(m1, h1, l1, m2, h2, l2)
    ensures Invisible(m0, h0, l0, m2, h2, l2)
  {
    TookTransitive(h0, l0, h1, l1, h2, l2);
    hide EntryAt;
  }

  /** A frame of the free list is no table. */
  lemma FreeIsNoTable(m: Memory, head: nat, list: seq<nat>, home: Home, f: nat)
    requires Chain(m, head, list) && TablesOk(m, home) && f in list
    ensures f !in home
  {
    var i :| 0 <= i < |list| && list[i] == f;
    ChainAt(m, head, list, i);
    if f in home { TableIsTable(m, home, f); }
  }

  lemma TableIsTable(m: Memory, home: Home, t: nat)
    requires TablesOk(m, home) && t in home
    ensures t in m && m[t].Table? && |m[t].entries| == 512 && TableOk(m, home, t)
  {
    assert TableOk(m, home, t);
  }

  /** A user-half change stays in its own address space. */
  lemma UserHalfIsolated(m: Memory, home: Home, m': Memory, root: nat, va: nat, level: nat, e: Entry, r: nat, a: nat)
    requires 1 <= level <= 4 && ChangesSlot(m, home, m', root, va, level, e) && IsRoot(home, r)
    requires r != root && Index(va, 4) < 256
    ensures LeafOf(m', r, 4, a) == LeafOf(m, r, 4, a)
  {
  }

  /** Spaces that share a root entry translate the addresses behind it alike. */
  lemma SharedAlike(m: Memory, r: nat, root: nat, a: nat)
    requires Shares(m, r, root, Index(a, 4))
    ensures LeafOf(m, r, 4, a) == LeafOf(m, root, 4, a)
  {
  }

  /** So a mapping below a root entry that was already shared appears in every space that shares it. */
  lemma SharedStays(m: Memory, home: Home, m': Memory, r: nat, root: nat, a: nat)
    requires IsRoot(home, r) && IsRoot(home, root) && RootsKept(m, home, m') && Shares(m, r, root, Index(a, 4))
    ensures Shares(m', r, root, Index(a, 4)) && LeafOf(m', r, 4, a) == LeafOf(m', root, 4, a)
  {
  }

  /** What a successful map adds, in addresses: exactly the aligned range, linearly. */
  lemma MapTranslates(m: Memory, home: Home, m': Memory, root: nat, va: nat, pa: nat, level: nat, e: Entry, a: nat)
    requires 1 <= level <= 3 && ChangesSlot(m, home, m', root, va, level, e) && IsRoot(home, root)
    requires e.present && e.addr == pa && AlignedTo(va, level) && AlignedTo(pa, level)
    ensures var x, y := va % 0x1_0000_0000_0000, a % 0x1_0000_0000_0000;
            Translate(m', root, a) == if x <= y < x + Span(level) then Some(pa + (y - x)) else Translate(m, root, a)
  {
    SlotRange(va, a, level);
  }

  /** And what unmapping takes away. */
  lemma UnmapTranslates(m: Memory, home: Home, m': Memory, root: nat, va: nat, level: nat, a: nat)
    requires 1 <= level <= 3 && ChangesSlot(m, home, m', root, va, level, NO_ENTRY) && IsRoot(home, root)
    requires AlignedTo(va, level)
    ensures var x, y := va % 0x1_0000_0000_0000, a % 0x1_0000_0000_0000;
            Translate(m', root, a) == if x <= y < x + Span(level) then None else Translate(m, root, a)
  {
    SlotRange(va, a, level);
  }

  /** Tables may have been added, and exactly one slot changed. */
  ghost predicate SlotChanged(m: Memory, home: Home, list: seq<nat>, m': Memory, home': Home, list': seq<nat>,
                              root: nat, va: nat, level: nat, e: Entry)
    requires 1 <= level <= 4
  {
    && Took(home, list, home', list') && OnlyTables(m, m', home') && RootsKept(m, home, m')
    && ChangesSlot(m, home, m', root, va, level, e)
  }

  lemma SetIsOneSlot(m0: Memory, h0: Home, l0: seq<nat>, m1: Memory, h1: Home, l1: seq<nat>,
                     root: nat, va: nat, to: nat, level: nat, e: Entry)
    requires Invisible(m0, h0, l0, m1, h1, l1) && TablesOk(m1, h1) && IsRoot(h0, root) && IsRoot(h1, root) && 1 <= level <= 3
    requires Path(m1, root, 4, va, to, level) && (e.present ==> IsLeaf(level, e))
    ensures to in h1 && TableOk(m1, h1, to) && h1[to].level == level
    ensures var m2 := SetEntry(m1, to, Index(va, level), e);
            TablesOk(m2, h1) && SlotChanged(m0, h0, l0, m2, h1, l1, root, va, level, e)
  {
    hide Slot, Index;
    SetChangesSlot(m1, h1, root, va, to, level, e);
    assert TableOk(m1, h1, root);
    SlotStep(va, 4);
    PathHome(m1, h1, root, va, to, level);
    var m2 := SetEntry(m1, to, Index(va, level), e);
    hide LeafOf, Path, Child;
    forall r, i: nat | IsRoot(h0, r) ensures EntryAt(m2, r, i) == EntryAt(m1, r, i) {
      assert IsRoot(h1, r);
    }
    forall r, a: nat | IsRoot(h0, r)
      ensures LeafOf(m2, r, 4, a) ==
              if Slot(a, level) == Slot(va, level) && Shares(m2, r, root, Index(va, 4)) then LeafFor(e, level)
              else LeafOf(m0, r, 4, a)
    {
      assert IsRoot(h1, r);
    }
  }

  /** Nothing is mapped behind an entry that is not present. */
  lemma NothingThere(m: Memory, root: nat, va: nat, to: nat, level: nat, a: nat)
    requires 1 <= level <= 3 && Path(m, root, 4, va, to, level) && !EntryAt(m, to, Index(va, level)).present
    requires Slot(a, level) == Slot(va, level)
    ensures LeafOf(m, root, 4, a) == Unmapped
  {
    hide Slot, Index;
    SameSlotUp(a, va, level);
    PathPrefix(m, root, 4, va, to, level, a);
    PathLeaf(m, root, 4, a, to, level);
  }

  lemma ExtendedPath(m: Memory, home: Home, root: nat, va: nat, to: nat, level: nat)
    requires TablesOk(m, home) && IsRoot(home, root) && 1 <= level <= 4 && Path(m, root, 4, va, to, level)
    ensures to in home && home[to].level == level && TableOk(m, home, to)
  {
    assert TableOk(m, home, root);
    SlotStep(va, 4);
    PathHome(m, home, root, va, to, level);
  }

  /** Nothing is mapped in the slot of `va`. */
  ghost predicate Vacant(m: Memory, root: nat, va: nat, level: nat)
    requires 1 <= level <= 4
  {
    forall a: nat :: Slot(a, level) == Slot(va, level) ==> LeafOf(m, root, 4, a) == Unmapped
  }

  lemma VacantBefore(m0: Memory, h0: Home, m1: Memory, root: nat, va: nat, to: nat, level: nat)
    requires SameLeaves(m0, h0, m1) && IsRoot(h0, root) && 1 <= level <= 3 && Path(m1, root, 4, va, to, level)
    requires !EntryAt(m1, to, Index(va, level)).present
    ensures Vacant(m0, root, va, level)
  {
    hide Slot, Index, Path;
    forall a: nat | Slot(a, level) == Slot(va, level) ensures LeafOf(m0, root, 4, a) == Unmapped {
      NothingThere(m1, root, va, to, level, a);
    }
  }

  /** In the tables of the user half of `root` every entry lets user code through. */
  ghost predicate UserBits(m: Memory, home: Home, root: nat) {
    forall t, i: nat :: t in home && home[t].space == root && (t == root ==> i < 256) && EntryAt(m, t, i).present ==>
      EntryAt(m, t, i).user
  }

  /** A user page never opens a way into memory that only the kernel may see, and is itself open. */
  ghost predicate KeepsUserBits(m: Memory, home: Home, m': Memory, home': Home) {
    forall r :: UserBits(m, home, r) ==> UserBits(m', home', r)
  }

  /** What the user half maps, it maps for user code. */
  lemma {:induction false} UserLeafIs(m: Memory, home: Home, root: nat, t: nat, a: nat)
    requires TablesOk(m, home) && UserBits(m, home, root) && t in home && home[t].space == root && 1 <= home[t].level <= 4
    requires IsRoot(home, root) && (t == root ==> Index(a, 4) < 256) && (home[t].level == 4 ==> t == root)
    ensures UserLeaf(m, t, home[t].level, a) == LeafOf(m, t, home[t].level, a)
    decreases home[t].level
  {
    hide Index, UserBits;
    assert TableOk(m, home, t);
    var level := home[t].level;
    var i := Index(a, level);
    var e := EntryAt(m, t, i);
    assert EntryOk(home, home[t], i, e);
    if e.present {
      UserBitAt(m, home, root, t, i);
      if !IsLeaf(level, e) {
        assert home[e.addr].level < 4;
        UserLeafIs(m, home, root, e.addr, a);
      }
    }
  }

  lemma UserBitAt(m: Memory, home: Home, root: nat, t: nat, i: nat)
    requires UserBits(m, home, root) && t in home && home[t].space == root && (t == root ==> i < 256) && EntryAt(m, t, i).present
    ensures EntryAt(m, t, i).user
  {
  }

  lemma KeepsUserBitsTransitive(m0: Memory, h0: Home, m1: Memory, h1: Home, m2: Memory, h2: Home)
    requires KeepsUserBits(m0, h0, m1, h1) && KeepsUserBits(m1, h1, m2, h2)
    ensures KeepsUserBits(m0, h0, m2, h2)
  {
    hide UserBits;
  }

  lemma SetKeepsUserBits(m: Memory, home: Home, t: nat, i: nat, e: Entry)
    requires t in m && m[t].Table? && i < |m[t].entries| && (e.present ==> e.user)
    ensures KeepsUserBits(m, home, SetEntry(m, t, i, e), home)
  {
    var m' := SetEntry(m, t, i, e);
    forall r, s, k: nat | UserBits(m, home, r) && s in home && home[s].space == r && (s == r ==> k < 256) && EntryAt(m', s, k).present
      ensures EntryAt(m', s, k).user
    {
      assert (s == t && k == i) || EntryAt(m', s, k) == EntryAt(m, s, k);
    }
  }

  lemma GrowKeepsUserBits(m: Memory, home: Home, t: nat, i: nat, f: nat)
    requires t in home && TableOk(m, home, t) && home[t].level >= 2 && i < 512 && f !in home
    ensures KeepsUserBits(m, home, Grown(m, t, i, f, true), home[f := Child(home[t], i, f)])
  {
    var m', home' := Grown(m, t, i, f, true), home[f := Child(home[t], i, f)];
    forall r, s, k: nat | UserBits(m, home, r) && s in home' && home'[s].space == r && (s == r ==> k < 256) && EntryAt(m', s, k).present
      ensures EntryAt(m', s, k).user
    {
      assert (s == t && k == i) || EntryAt(m', s, k) == if s == f then NO_ENTRY else EntryAt(m, s, k);
    }
  }

  /** On the way down: what was missing is what was added since and what is still missing. */
  ghost predicate MissingBelow(m0: Memory, l0: seq<nat>, m: Memory, l: seq<nat>, root: nat, va: nat, table: nat, level: nat, target: nat)
    requires 1 <= target <= level <= 4
  {
    var n0, n := TablesNeeded(m0, root, 4, va, target), TablesNeeded(m, table, level, va, target);
    && |l| <= |l0| && (n0.None? <==> n.None?) && (n0.Some? ==> n0.value - n.value == |l0| - |l|)
    && EntryOn(m, table, level, va, target) == EntryOn(m0, root, 4, va, target)
  }

  lemma MissingDown(m0: Memory, l0: seq<nat>, m1: Memory, l1: seq<nat>, m: Memory, l: seq<nat>,
                    root: nat, va: nat, table: nat, level: nat, target: nat)
    requires 1 <= target < level <= 4 && MissingBelow(m0, l0, m1, l1, root, va, table, level, target)
    requires var old1, e := EntryAt(m1, table, Index(va, level)), EntryAt(m, table, Index(va, level));
             && e.present && !IsLeaf(level, e)
             && if old1.present then m == m1 && l == l1
                else |l| == |l1| - 1 && forall k: nat :: EntryAt(m, e.addr, k) == NO_ENTRY
    ensures MissingBelow(m0, l0, m, l, root, va, EntryAt(m, table, Index(va, level)).addr, level - 1, target)
  {
    hide Index;
  }

  class AddressSpaces {
    const pmm: Allocator
    var active: nat
    var kernelRoot: nat
    /** Every table and where it sits. */
    ghost var home: Home

    ghost predicate Valid()
      reads this, pmm
    {
      pmm.Valid() && TablesOk(pmm.memory, home) && Spaces(home) && IsRoot(home, active) && IsRoot(home, kernelRoot)
    }

    /** vmm_init: takes over the boot loader's tables. */
    constructor (pmm: Allocator, root: nat, ghost home: Home)
      requires pmm.Valid() && TablesOk(pmm.memory, home) && Spaces(home) && IsRoot(home, root)
      ensures Valid() && this.pmm == pmm && active == root && kernelRoot == root && this.home == home
    {
      this.pmm, this.active, this.kernelRoot, this.home := pmm, root, root, home;
    }

    /** A zeroed frame for a table, or 0. */
    method NewTable(t: nat, i: nat, user: bool) returns (next: nat)
      requires Valid() && t in home && home[t].level >= 2 && i < 512 && !EntryAt(pmm.memory, t, i).present
      modifies this, pmm
      ensures Valid() && active == old(active) && kernelRoot == old(kernelRoot)
      ensures pmm.tracked == old(pmm.tracked) && pmm.initialized == old(pmm.initialized)
      ensures Invisible(old(pmm.memory), old(home), old(pmm.list), pmm.memory, home, pmm.list)
      ensures next == 0 <==> old(pmm.list) == []
      ensures next == 0 ==> pmm.memory == old(pmm.memory) && home == old(home) && pmm.list == old(pmm.list)
      ensures next != 0 ==>
                && pmm.list == old(pmm.list)[1..] && next in old(pmm.list) && t in old(pmm.memory) && old(pmm.memory)[t].Table? && |old(pmm.memory)[t].entries| == 512
                && next != t && pmm.memory == Grown(old(pmm.memory), t, i, next, user)
                && home == old(home)[next := Child(home[t], i, next)]
      ensures user ==> KeepsUserBits(old(pmm.memory), old(home), pmm.memory, home)
    {
      hide SameLeaves, RootsKept, KeepsUserBits, EntryOk, LeafOf, Child, TablesOk;
      ghost var m, head, list, h := pmm.memory, pmm.freeList, pmm.list, home;
      TableIsTable(m, h, t);
      next := pmm.AllocPage();
      if next == 0 {
        InvisibleReflexive(m, h, list);
        return;
      }
      FreeIsNoTable(m, head, list, h, next);
      ChainAt(m, head, list, 0);
      GrowKeepsTables(m, h, t, i, next, user);
      GrowIsInvisible(m, h, t, i, next, user);
      GrowKeepsUserBits(m, h, t, i, next);
      ChildSpace(h, t, i, next);
      pmm.memory := pmm.memory[next := Table(EmptyTable())];
      pmm.memory := SetEntry(pmm.memory, t, i, Entry(true, false, user, next));
      home := home[next := Child(home[t], i, next)];
      forall p | p in pmm.list ensures p != t {
        FreeIsNoTable(m, head, list, h, p);
      }
      KeepsChain(m, pmm.memory, pmm.freeList, pmm.list);
      assert list[..1] == [next];
    }

    method EnsureNextTable(t: nat, i: nat, level: nat, user: bool) returns (next: nat)
      requires Valid() && t in home && home[t].level == level >= 2 && i < 512
      modifies this, pmm
      ensures Valid() && active == old(active) && kernelRoot == old(kernelRoot)
      ensures pmm.tracked == old(pmm.tracked) && pmm.initialized == old(pmm.initialized)
      ensures Invisible(old(pmm.memory), old(home), old(pmm.list), pmm.memory, home, pmm.list)
      ensures next == 0 ==>
                && pmm.memory == old(pmm.memory) && pmm.list == old(pmm.list)
                && (pmm.list == [] || (EntryAt(pmm.memory, t, i).present && IsLeaf(level, EntryAt(pmm.memory, t, i))))
      ensures next != 0 ==>
                && EntryAt(pmm.memory, t, i).present && !IsLeaf(level, EntryAt(pmm.memory, t, i))
                && EntryAt(pmm.memory, t, i).addr == next && next in home
      ensures next != 0 && !EntryAt(old(pmm.memory), t, i).present ==>
                |pmm.list| == |old(pmm.list)| - 1 && forall k: nat :: EntryAt(pmm.memory, next, k) == NO_ENTRY
      ensures user ==> KeepsUserBits(old(pmm.memory), old(home), pmm.memory, home)
      ensures forall r, va: nat :: r in old(home) && Path(old(pmm.memory), r, old(home[r].level), va, t, level) ==>
                Path(pmm.memory, r, old(home[r].level), va, t, level)
    {
      assert TableOk(pmm.memory, home, t);
      var e := pmm.memory[t].entries[i];
      assert EntryOk(home, home[t], i, e);
      if e.present {
        InvisibleReflexive(pmm.memory, home, pmm.list);
        if IsLeaf(level, e) {
          return 0;
        }
        return e.addr;
      }
      ghost var m, head, list, h := pmm.memory, pmm.freeList, pmm.list, home;
      next := NewTable(t, i, user);
      if next != 0 {
        FreeIsNoTable(m, head, list, h, next);
        assert pmm.memory[next] == Table(EmptyTable());
        forall r, va: nat | r in h && Path(m, r, h[r].level, va, t, level)
          ensures Path(pmm.memory, r, h[r].level, va, t, level)
        {
          assert TableOk(m, h, r);
          GrowKeepsPath(m, h, t, i, next, user, r, va);
        }
      }
    }

    /** walk_to_level_in_root: the table of the wanted level on the way of `va`, creating what is missing if asked to;
        without `create` a huge page above that level is also an answer. */
    method Walk(root: nat, va: nat, create: bool, user: bool, target: nat) returns (ok: bool, table: nat, level: nat)
      requires Valid() && IsRoot(home, root) && 1 <= target <= 3
      modifies this, pmm
      ensures Valid() && active == old(active) && kernelRoot == old(kernelRoot)
      ensures pmm.tracked == old(pmm.tracked) && pmm.initialized == old(pmm.initialized)
      ensures Invisible(old(pmm.memory), old(home), old(pmm.list), pmm.memory, home, pmm.list)
      ensures !create ==> pmm.memory == old(pmm.memory) && home == old(home) && pmm.list == old(pmm.list)
      ensures ok ==>
                && target <= level <= 3 && Path(pmm.memory, root, 4, va, table, level) && (create ==> level == target)
                && (level != target ==> EntryAt(pmm.memory, table, Index(va, level)).present
                                        && IsLeaf(level, EntryAt(pmm.memory, table, Index(va, level))))
      ensures !ok && !create ==> LeafOf(pmm.memory, root, 4, va) == Unmapped
      ensures !create ==> var n := TablesNeeded(pmm.memory, root, 4, va, target); ok <==> n.None? || n == Some(0)
      ensures create ==>
                var n := TablesNeeded(old(pmm.memory), root, 4, va, target);
                && (ok <==> n.Some? && n.value <= |old(pmm.list)|)
                && (ok ==> EntryAt(pmm.memory, table, Index(va, target)) == EntryOn(old(pmm.memory), root, 4, va, target))
                && (!ok ==> n.None? || pmm.list == [])
      ensures user ==> KeepsUserBits(old(pmm.memory), old(home), pmm.memory, home)
    {
      hide Index, Slot, SameLeaves, RootsKept, OnlyTables, Took, NoRepeats, KeepsUserBits, UserBits, Chain, TablesOk, Invisible;
      table, level := root, 4;
      ghost var m, h, list := pmm.memory, home, pmm.list;
      InvisibleReflexive(m, h, list);
      while level > target
        invariant target <= level <= 4
        invariant Valid() && active == old(active) && kernelRoot == old(kernelRoot) && IsRoot(home, root)
        invariant pmm.tracked == old(pmm.tracked) && pmm.initialized == old(pmm.initialized)
        invariant Invisible(m, h, list, pmm.memory, home, pmm.list)
        invariant !create ==> pmm.memory == m && home == h && pmm.list == list
        invariant Path(pmm.memory, root, 4, va, table, level)
        invariant user ==> KeepsUserBits(m, h, pmm.memory, home)
        invariant MissingBelow(m, list, pmm.memory, pmm.list, root, va, table, level, target)
      {
        ExtendedPath(pmm.memory, home, root, va, table, level);
        PathLeaf(pmm.memory, root, 4, va, table, level);
        ghost var m0, l0 := pmm.memory, pmm.list;
        var i := Index(va, level);
        NoNullTable(m0, home, table, i);
        var e := pmm.memory[table].entries[i];
        var next := e.addr;
        if !e.present {
          if !create {
            return false, table, level;
          }
          ghost var m1, h1, l1 := pmm.memory, home, pmm.list;
          next := EnsureNextTable(table, i, level, user);
          InvisibleTransitive(m, h, list, m1, h1, l1, pmm.memory, home, pmm.list);
          if user { KeepsUserBitsTransitive(m, h, m1, h1, pmm.memory, home); }
          StillRoot(h1, l1, home, pmm.list, root);
        } else if IsLeaf(level, e) {
          return !create, table, level;
        }
        if next == 0 {
          ok := false;
          return;
        }
        PathDown(pmm.memory, root, 4, va, table, level);
        MissingDown(m, list, m0, l0, pmm.memory, pmm.list, root, va, table, level, target);
        table, level := next, level - 1;
      }
      return true, table, level;
    }

    /** walk_to_existing_mapping. */
    method WalkExisting(root: nat, va: nat) returns (ok: bool, table: nat, level: nat)
      requires Valid() && IsRoot(home, root)
      modifies this, pmm
      ensures Valid() && active == old(active) && kernelRoot == old(kernelRoot) && home == old(home)
      ensures pmm.memory == old(pmm.memory) && pmm.list == old(pmm.list) && pmm.tracked == old(pmm.tracked)
      ensures pmm.initialized == old(pmm.initialized)
      ensures ok <==> LeafOf(pmm.memory, root, 4, va).Leaf?
      ensures ok ==>
                && 1 <= level <= 3 && Path(pmm.memory, root, 4, va, table, level) && table in home
                && TableOk(pmm.memory, home, table)
                && LeafOf(pmm.memory, root, 4, va) == Leaf(EntryAt(pmm.memory, table, Index(va, level)), level)
    {
      hide Index, Slot, Invisible;
      ok, table, level := Walk(root, va, false, false, 1);
      if ok {
        ExtendedPath(pmm.memory, home, root, va, table, level);
        PathLeaf(pmm.memory, root, 4, va, table, level);
        ok := pmm.memory[table].entries[Index(va, level)].present;
      }
    }

    /** map_at_level_in_root. */
    method MapAtLevel(root: nat, va: nat, pa: nat, level: nat, user: bool, huge: bool) returns (ok: bool)
      requires Valid() && IsRoot(home, root) && 1 <= level <= 3
      modifies this, pmm
      ensures Valid() && active == old(active) && kernelRoot == old(kernelRoot)
      ensures pmm.tracked == old(pmm.tracked) && pmm.initialized == old(pmm.initialized)
      ensures ok ==>
                && AlignedTo(va, level) && AlignedTo(pa, level)
                && SlotChanged(old(pmm.memory), old(home), old(pmm.list), pmm.memory, home, pmm.list, root, va, level,
                               Entry(true, level != 1 || huge, user, pa))
                && Vacant(old(pmm.memory), root, va, level)
      ensures user ==> KeepsUserBits(old(pmm.memory), old(home), pmm.memory, home)
      ensures !ok ==> Invisible(old(pmm.memory), old(home), old(pmm.list), pmm.memory, home, pmm.list)
      ensures ok <==> AlignedTo(va, level) && AlignedTo(pa, level) && Mappable(old(pmm.memory), |old(pmm.list)|, root, va, level)
      ensures !ok && AlignedTo(va, level) && AlignedTo(pa, level) && level == 1 ==>
                pmm.list == [] || LeafOf(old(pmm.memory), root, 4, va).Leaf?
    {
      hide Index, Slot, SameLeaves, RootsKept, OnlyTables, NoRepeats, Path, LeafOf, SlotChanged, Vacant, Took, AlignedTo,
        TableOk, Chain, EntryOn, TablesNeeded, EntryAt;
      ghost var m, h, list := pmm.memory, home, pmm.list;
      if !AlignedTo(va, level) || !AlignedTo(pa, level) {
        InvisibleReflexive(m, h, list);
        return false;
      }
      var table, found;
      ok, table, found := Walk(root, va, true, user, level);
      FreeSlot(m, root, 4, va);
      if !ok {
        return;
      }
      StillRoot(h, list, home, pmm.list, root);
      ok := SetIfVacant(m, h, list, root, va, table, level, Entry(true, level != 1 || huge, user, pa));
    }

    /** The part of map_at_level_in_root behind the walk. */
    method SetIfVacant(ghost m: Memory, ghost h: Home, ghost list: seq<nat>, ghost root: nat, va: nat, table: nat, level: nat, e: Entry)
      returns (ok: bool)
      requires Valid() && IsRoot(h, root) && IsRoot(home, root) && 1 <= level <= 3 && e.present && IsLeaf(level, e)
      requires Invisible(m, h, list, pmm.memory, home, pmm.list) && Path(pmm.memory, root, 4, va, table, level)
      modifies pmm`memory
      ensures Valid()
      ensures ok ==> SlotChanged(m, h, list, pmm.memory, home, pmm.list, root, va, level, e) && Vacant(m, root, va, level)
      ensures e.user ==> KeepsUserBits(old(pmm.memory), home, pmm.memory, home)
      ensures ok <==> !EntryAt(old(pmm.memory), table, Index(va, level)).present
      ensures !ok ==> pmm.memory == old(pmm.memory)
    {
      hide Index, Slot, SameLeaves, RootsKept, OnlyTables, NoRepeats, Path, LeafOf, SlotChanged, Vacant, Took, Chain;
      ghost var m1 := pmm.memory;
      ExtendedPath(m1, home, root, va, table, level);
      if pmm.memory[table].entries[Index(va, level)].present {
        return false;
      }
      SetIsOneSlot(m, h, list, m1, home, pmm.list, root, va, table, level, e);
      NotFree(m1, pmm.freeList, pmm.list, home, table, Index(va, level), e);
      VacantBefore(m, h, m1, root, va, table, level);
      SetKeepsUserBits(m1, home, table, Index(va, level), if e.user then e else NO_ENTRY);
      pmm.memory := SetEntry(pmm.memory, table, Index(va, level), e);
      return true;
    }

    /** vmm_map_page, vmm_map_huge_2m and vmm_map_huge_1g, by the level of the page. */
    method MapPage(va: nat, pa: nat, level: nat, user: bool, huge: bool) returns (ok: bool)
      requires Valid() && 1 <= level <= 3
      modifies this, pmm
      ensures Valid() && active == old(active) && kernelRoot == old(kernelRoot)
      ensures pmm.tracked == old(pmm.tracked) && pmm.initialized == old(pmm.initialized)
      ensures ok ==>
                && AlignedTo(va, level) && AlignedTo(pa, level)
                && SlotChanged(old(pmm.memory), old(home), old(pmm.list), pmm.memory, home, pmm.list, active, va, level,
                               Entry(true, level != 1 || huge, user, pa))
                && Vacant(old(pmm.memory), active, va, level)
      ensures !ok ==> Invisible(old(pmm.memory), old(home), old(pmm.list), pmm.memory, home, pmm.list)
      ensures ok <==> AlignedTo(va, level) && AlignedTo(pa, level) && Mappable(old(pmm.memory), |old(pmm.list)|, active, va, level)
      ensures !ok && AlignedTo(va, level) && AlignedTo(pa, level) && level == 1 ==>
                pmm.list == [] || LeafOf(old(pmm.memory), active, 4, va).Leaf?
    {
      ok := MapAtLevel(active, va, pa, level, user, huge);
    }

    /** vmm_map_page_in_space. */
    method MapPageInSpace(root: nat, va: nat, pa: nat, user: bool, huge: bool) returns (ok: bool)
      requires Valid() && (root != 0 ==> IsRoot(home, root))
      modifies this, pmm
      ensures Valid() && active == old(active) && kernelRoot == old(kernelRoot)
      ensures pmm.tracked == old(pmm.tracked) && pmm.initialized == old(pmm.initialized)
      ensures ok ==>
                && root != 0 && AlignedTo(va, 1) && AlignedTo(pa, 1)
                && SlotChanged(old(pmm.memory), old(home), old(pmm.list), pmm.memory, home, pmm.list, root, va, 1,
                               Entry(true, huge, user, pa))
                && LeafOf(old(pmm.memory), root, 4, va) == Unmapped
      ensures user ==> KeepsUserBits(old(pmm.memory), old(home), pmm.memory, home)
      ensures !ok ==> Invisible(old(pmm.memory), old(home), old(pmm.list), pmm.memory, home, pmm.list)
      ensures ok <==> root != 0 && AlignedTo(va, 1) && AlignedTo(pa, 1) && Mappable(old(pmm.memory), |old(pmm.list)|, root, va, 1)
      ensures !ok && root != 0 && AlignedTo(va, 1) && AlignedTo(pa, 1) ==>
                pmm.list == [] || LeafOf(old(pmm.memory), root, 4, va).Leaf?
    {
      if root == 0 {
        InvisibleReflexive(pmm.memory, home, pmm.list);
        return false;
      }
      ok := MapAtLevel(root, va, pa, 1, user, huge);
    }

    /** vmm_unmap_page: succeeds exactly when a page of any size is mapped that starts at `va`. */
    method UnmapPage(va: nat) returns (ok: bool)
      requires Valid()
      modifies this, pmm
      ensures Valid() && active == old(active) && kernelRoot == old(kernelRoot) && home == old(home) && pmm.list == old(pmm.list)
      ensures pmm.tracked == old(pmm.tracked) && pmm.initialized == old(pmm.initialized)
      ensures var leaf := LeafOf(old(pmm.memory), active, 4, va);
              && (ok <==> AlignedTo(va, 1) && leaf.Leaf? && AlignedTo(va, leaf.level))
              && (ok ==> leaf.level <= 3 && AlignedTo(va, leaf.level)
                         && ChangesSlot(old(pmm.memory), home, pmm.memory, active, va, leaf.level, NO_ENTRY)
                         && OnlyTables(old(pmm.memory), pmm.memory, home) && SameRoots(old(pmm.memory), home, pmm.memory))
              && (!ok ==> pmm.memory == old(pmm.memory))
    {
      hide Index, Slot, SameLeaves, RootsKept, NoRepeats, Path;
      if !AlignedTo(va, 1) {
        return false;
      }
      var table, level;
      ok, table, level := WalkExisting(active, va);
      if !ok {
        return;
      }
      if level != 1 && !AlignedTo(va, level) {
        return false;
      }
      hide AlignedTo;
      ghost var m := pmm.memory;
      SetChangesSlot(m, home, active, va, table, level, NO_ENTRY);
      ExtendedPath(m, home, active, va, table, level);
      NotFree(m, pmm.freeList, pmm.list, home, table, Index(va, level), NO_ENTRY);
      RootsUnmoved(m, home, table, Index(va, level), NO_ENTRY);
      pmm.memory := SetEntry(pmm.memory, table, Index(va, level), NO_ENTRY);
    }

    /** vmm_virt_to_phys. */
    method VirtToPhys(va: nat) returns (ok: bool, pa: nat)
      requires Valid()
      modifies this, pmm
      ensures Valid() && active == old(active) && kernelRoot == old(kernelRoot) && home == old(home) && pmm.list == old(pmm.list)
      ensures pmm.memory == old(pmm.memory) && pmm.tracked == old(pmm.tracked) && pmm.initialized == old(pmm.initialized)
      ensures Translate(pmm.memory, active, va) == if ok then Some(pa) else None
    {
      hide Index, Slot, Path;
      var table, level;
      pa := 0;
      ok, table, level := WalkExisting(active, va);
      if ok {
        pa := pmm.memory[table].entries[Index(va, level)].addr / Span(level) * Span(level) + va % Span(level);
      }
    }

    /** vmm_create_address_space: an empty user half and the active space's kernel half. */
    method CreateAddressSpace() returns (root: nat)
      requires Valid()
      modifies this, pmm
      ensures Valid() && active == old(active) && kernelRoot == old(kernelRoot)
      ensures pmm.tracked == old(pmm.tracked) && pmm.initialized == old(pmm.initialized)
      ensures root == 0 <==> old(pmm.list) == []
      ensures root == 0 ==> pmm.memory == old(pmm.memory) && home == old(home) && pmm.list == old(pmm.list)
      ensures root != 0 ==>
                && root !in old(home) && home == old(home)[root := Place(root, 4, 0)] && pmm.list == old(pmm.list)[1..]
                && root == old(pmm.list)[0] && OnlyTables(old(pmm.memory), pmm.memory, home)
                && SameLeaves(old(pmm.memory), old(home), pmm.memory) && NewSpace(pmm.memory, active, root)
                && UserBits(pmm.memory, home, root)
    {
      ghost var m, head, list := pmm.memory, pmm.freeList, pmm.list;
      hide UserBits, Spaces, SameLeaves, NewSpace;
      assert TableOk(m, home, active);
      root := pmm.AllocPage();
      if root == 0 {
        return;
      }
      FreeIsNoTable(m, head, list, home, root);
      ChainAt(m, head, list, 0);
      var kernel := pmm.memory[active].entries;
      var entries := EmptyTable();
      for i := 256 to 512
        invariant |entries| == 512
        invariant forall k :: 0 <= k < 512 ==> entries[k] == if 256 <= k < i then kernel[k] else NO_ENTRY
      {
        entries := entries[i := kernel[i]];
      }
      ChainFrame(m, pmm.freeList, pmm.list, root, Table(entries));
      NewSpaceOk(m, home, active, root, entries);
      pmm.memory := pmm.memory[root := Table(entries)];
      home := home[root := Place(root, 4, 0)];
    }

    /** vmm_activate_address_space; 0 stands for the kernel's own space. */
    method Activate(root: nat)
      requires Valid() && (root != 0 ==> IsRoot(home, root))
      modifies `active
      ensures Valid() && active == if root == 0 then kernelRoot else root
    {
      active := if root == 0 then kernelRoot else root;
    }
  }

  /** Physical memory, the tables in it and the free list. */
  datatype World = World(memory: Memory, home: Home, list: seq<nat>)

  ghost function WorldOf(v: AddressSpaces): World
    reads v, v.pmm
  {
    World(v.pmm.memory, v.home, v.pmm.list)
  }

  /** Nothing in the user half, and the same tables as `active` behind every kernel entry. */
  ghost predicate NewSpace(m: Memory, active: nat, root: nat) {
    && (forall a: nat :: Index(a, 4) < 256 ==> LeafOf(m, root, 4, a) == Unmapped)
    && (forall a: nat :: Index(a, 4) >= 256 ==> LeafOf(m, root, 4, a) == LeafOf(m, active, 4, a))
    && (forall i: nat :: 256 <= i < 512 && EntryAt(m, active, i).present ==> Shares(m, root, active, i))
  }

  lemma NewSpaceOk(m: Memory, home: Home, active: nat, root: nat, entries: seq<Entry>)
    requires TablesOk(m, home) && Spaces(home) && IsRoot(home, active) && TableOk(m, home, active)
    requires root !in home && root != 0 && Aligned(root) && |entries| == 512
    requires forall k :: 0 <= k < 512 ==> entries[k] == if 256 <= k then m[active].entries[k] else NO_ENTRY
    ensures var m' := m[root := Table(entries)];
            && TablesOk(m', home[root := Place(root, 4, 0)]) && SameLeaves(m, home, m') && NewSpace(m', active, root)
            && OnlyTables(m, m', home[root := Place(root, 4, 0)]) && Spaces(home[root := Place(root, 4, 0)])
            && UserBits(m', home[root := Place(root, 4, 0)], root)
  {
    NewRoot(m, home, root, entries);
    hide Index, UserBits, Spaces;
    var m', home' := m[root := Table(entries)], home[root := Place(root, 4, 0)];
    forall t | t in home' ensures TableOk(m', home', t) {
      assert TableOk(m, home, if t == root then active else t);
      forall i: nat | i < 512 ensures EntryOk(home', home'[t], i, m'[t].entries[i]) {
        assert EntryOk(home, home[if t == root then active else t], i, m[if t == root then active else t].entries[i]);
      }
    }
    forall r, a: nat | IsRoot(home, r) ensures LeafOf(m', r, 4, a) == LeafOf(m, r, 4, a) {
      assert TableOk(m, home, r);
      OtherFrame(m, home, root, Table(entries), r, a);
    }
  }

  lemma NewRoot(m: Memory, home: Home, root: nat, entries: seq<Entry>)
    requires Spaces(home) && root !in home && |entries| == 512 && forall k :: 0 <= k < 256 ==> entries[k] == NO_ENTRY
    ensures var home' := home[root := Place(root, 4, 0)];
            Spaces(home') && UserBits(m[root := Table(entries)], home', root)
  {
    var home' := home[root := Place(root, 4, 0)];
    forall t | t in home' ensures SpaceIn(home', t) && (t != root ==> home[t].space != root) {
      assert t == root || SpaceIn(home, t);
    }
  }

  /** The roots' entries are what they were. */
  ghost predicate SameRoots(m: Memory, home: Home, m': Memory) {
    forall r, i: nat :: IsRoot(home, r) ==> EntryAt(m', r, i) == EntryAt(m, r, i)
  }

  lemma RootsUnmoved(m: Memory, home: Home, t: nat, i: nat, e: Entry)
    requires t in home && TableOk(m, home, t) && home[t].level < 4 && i < 512
    ensures SameRoots(m, home, SetEntry(m, t, i, e))
  {
  }

  lemma NotFree(m: Memory, head: nat, list: seq<nat>, home: Home, t: nat, i: nat, e: Entry)
    requires Chain(m, head, list) && TablesOk(m, home) && t in home && TableOk(m, home, t) && i < 512
    ensures Chain(SetEntry(m, t, i, e), head, list)
  {
    if t in list { FreeIsNoTable(m, head, list, home, t); }
    ChainFrame(m, head, list, t, Table(m[t].entries[i := e]));
  }

  lemma StillRoot(h: Home, l: seq<nat>, h': Home, l': seq<nat>, root: nat)
    requires Took(h, l, h', l') && IsRoot(h, root)
    ensures IsRoot(h', root)
  {
  }

  /** No present entry refers to frame 0. */
  lemma NoNullTable(m: Memory, home: Home, t: nat, i: nat)
    requires TablesOk(m, home) && t in home && i < 512
    ensures home[t].level >= 1
    ensures EntryAt(m, t, i).present && !IsLeaf(home[t].level, EntryAt(m, t, i)) ==> EntryAt(m, t, i).addr != 0
  {
    assert TableOk(m, home, t);
    var e := m[t].entries[i];
    assert EntryOk(home, home[t], i, e);
    if e.present && !IsLeaf(home[t].level, e) {
      assert TableOk(m, home, e.addr);
    }
  }

  lemma {:induction false} KeepsChain(m: Memory, m': Memory, head: nat, list: seq<nat>)
    requires Chain(m, head, list) && forall p :: p in list && p in m ==> p in m' && m'[p] == m[p]
    ensures Chain(m', head, list)
    decreases |list|
  {
    if list != [] {
      KeepsChain(m, m', m[head].next, list[1..]);
    }
  }
}
