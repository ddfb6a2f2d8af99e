/** Four-level page tables as values: what they translate, and what one changed entry does to every address of
    every address space (section 4.5 of Intel SDM volume 3A). */
module PageTables {
  import opened Bytes
  import opened Pmm
  import Counting

  /** The bytes one entry of a table of this level covers; level 4 is the root. */
  function Span(level: nat): (r: nat)
    requires 1 <= level <= 5
    ensures r > 0
  {
    if level == 1 then 0x1000 else if level == 2 then 0x20_0000 else if level == 3 then 0x4000_0000
    else if level == 4 then 0x80_0000_0000 else 0x1_0000_0000_0000
  }

  /** The entry of a table of this level that address `va` selects. */
  function Index(va: nat, level: nat): (r: nat)
    requires 1 <= level <= 4
    ensures r < 512
  {
    va / Span(level) % 512
  }

  /** The entry slot `va` falls into, counting all the slots of a level; only 48 bits of the address matter. */
  function Slot(va: nat, level: nat): nat
    requires 1 <= level <= 5
  {
    va % 0x1_0000_0000_0000 / Span(level)
  }

  /** Quotients are unique. */
  lemma Quotient(x: nat, d: nat, q: nat, r: nat)
    requires d > 0 && x == q * d + r && r < d
    ensures x / d == q && x % d == r
  {
    var p := x / d;
    assert x == p * d + x % d;
    Counting.MulLe(Min(p + 1, q), q, d);
    Counting.MulLe(Min(q + 1, p), p, d);
  }

  /** Dividing by a product is dividing twice, and what is left of `x` modulo the product is the same modulo a factor. */
  lemma DivTwice(x: nat, d: nat, k: nat)
    requires d > 0 && k > 0
    ensures d * k > 0 && x / (d * k) == x / d / k
    ensures x % (d * k) / d == x / d % k && x % (d * k) % d == x % d
  {
    var q, r := x / d, x % d;
    Euclid(x, d);
    Euclid(q, k);
    Parts(x, d, k, q, r, q / k, q % k);
    Quotient(x % (d * k), d, q % k, r);
  }

  lemma Euclid(x: nat, d: nat)
    requires d > 0
    ensures x == x / d * d + x % d && x % d < d
  {
  }

  lemma Parts(x: nat, d: nat, k: nat, q: nat, r: nat, u: nat, w: nat)
    requires d > 0 && k > 0 && x == q * d + r && r < d && q == u * k + w && w < k
    ensures d * k > 0 && x / (d * k) == u && x % (d * k) == w * d + r
  {
    Regroup(u, k, w, d, r);
    Quotient(x, d * k, u, w * d + r);
  }

  lemma Regroup(u: nat, k: nat, w: nat, d: nat, r: nat)
    requires w < k && r < d
    ensures (u * k + w) * d + r == u * (d * k) + (w * d + r) && w * d + r < d * k
  {
    assert u * k * d == u * (d * k);
    assert (w + 1) * d <= k * d;
  }

  /** The spans of the levels: each entry covers 512 of the level below. */
  lemma Spans(level: nat)
    requires 1 <= level <= 4
    ensures Span(level + 1) == Span(level) * 512
    ensures exists k: nat :: 0x1_0000_0000_0000 == Span(level) * (512 * k) && k > 0
  {
    var k := if level == 1 then 0x800_0000 else if level == 2 then 0x4_0000 else if level == 3 then 512 else 1;
    assert 0x1_0000_0000_0000 == Span(level) * (512 * k);
  }

  lemma SlotStep(va: nat, level: nat)
    requires 1 <= level <= 4
    ensures Slot(va, level) == Slot(va, level + 1) * 512 + Index(va, level)
    ensures Slot(va, 5) == 0
  {
    Spans(level);
    var k: nat :| 0x1_0000_0000_0000 == Span(level) * (512 * k) && k > 0;
    var s := Span(level);
    hide Span;
    DivTwice(va, s, 512 * k);
    DivTwice(va / s, 512, k);
    DivTwice(va % 0x1_0000_0000_0000, s, 512);
    assert Slot(va, 5) == 0 by { assert Span(5) == 0x1_0000_0000_0000; }
  }

  /** Addresses in the same slot select the same entry there, and lie in the same slot one level up. */
  lemma SameSlotUp(a: nat, b: nat, level: nat)
    requires 1 <= level <= 4 && Slot(a, level) == Slot(b, level)
    ensures Slot(a, level + 1) == Slot(b, level + 1) && Index(a, level) == Index(b, level)
  {
    SlotStep(a, level);
    SlotStep(b, level);
    hide Slot, Index;
  }

  predicate AlignedTo(va: nat, level: nat)
    requires 1 <= level <= 5
  {
    va % Span(level) == 0
  }

  /** The slot of an aligned address is the range that starts there. */
  lemma SlotRange(va: nat, a: nat, level: nat)
    requires 1 <= level <= 4 && AlignedTo(va, level)
    ensures Slot(a, level) == Slot(va, level) <==>
            va % 0x1_0000_0000_0000 <= a % 0x1_0000_0000_0000 < va % 0x1_0000_0000_0000 + Span(level)
    ensures Slot(a, level) == Slot(va, level) ==>
              a % Span(level) == a % 0x1_0000_0000_0000 - va % 0x1_0000_0000_0000
  {
    Spans(level);
    var k: nat :| 0x1_0000_0000_0000 == Span(level) * (512 * k) && k > 0;
    var x, y, s := va % 0x1_0000_0000_0000, a % 0x1_0000_0000_0000, Span(level);
    hide Span;
    DivTwice(va, s, 512 * k);
    DivTwice(a, s, 512 * k);
    assert x == x / s * s && y == y / s * s + a % s;
    if x / s < y / s { assert (x / s + 1) * s <= y / s * s; }
    if y / s < x / s { assert (y / s + 1) * s <= x / s * s; }
  }

  /** At the two middle levels an entry may map memory itself; at the last one it always does. */
  predicate IsLeaf(level: nat, e: Entry) {
    level == 1 || ((level == 2 || level == 3) && e.huge)
  }

  datatype Leaf = Unmapped | Leaf(entry: Entry, level: nat)

  function EntryAt(m: Memory, t: nat, i: nat): Entry {
    if t in m && m[t].Table? && i < |m[t].entries| then m[t].entries[i] else NO_ENTRY
  }

  /** The entry that maps `va`, looking from table `t` down. */
  function LeafOf(m: Memory, t: nat, level: nat, va: nat): (r: Leaf)
    requires 1 <= level <= 4
    ensures r.Leaf? ==> r.entry.present && 1 <= r.level <= level && IsLeaf(r.level, r.entry)
    decreases level
  {
    var e := EntryAt(m, t, Index(va, level));
    if !e.present then Unmapped
    else if IsLeaf(level, e) then Leaf(e, level)
    else LeafOf(m, e.addr, level - 1, va)
  }

  /** The entry that maps `va` for user code: every entry on the way must let it through. */
  function UserLeaf(m: Memory, t: nat, level: nat, va: nat): (r: Leaf)
    requires 1 <= level <= 4
    ensures r.Leaf? ==> r == LeafOf(m, t, level, va)
    decreases level
  {
    var e := EntryAt(m, t, Index(va, level));
    if !e.present || !e.user then Unmapped
    else if IsLeaf(level, e) then Leaf(e, level)
    else UserLeaf(m, e.addr, level - 1, va)
  }

  /** The physical address `va` stands for. */
  function Physical(l: Leaf, va: nat): Option<nat>
    requires l.Leaf? ==> 1 <= l.level <= 4
  {
    if l.Unmapped? then None
    else Some(l.entry.addr / Span(l.level) * Span(l.level) + va % Span(l.level))
  }

  function Translate(m: Memory, root: nat, va: nat): Option<nat> {
    Physical(LeafOf(m, root, 4, va), va)
  }

  // ---------- where a table sits ----------

  /** A table of `level` covers the addresses of slot `prefix` one level up. `space` is the root of the address space
      for tables of the user half, and the level-3 table above it for those of the kernel half, which spaces share. */
  datatype Place = Place(space: nat, level: nat, prefix: nat)

  type Home = map<nat, Place>

  function Child(p: Place, i: nat, t: nat): Place
    requires p.level > 1
  {
    if p.level == 4 && i >= 256 then Place(t, 3, i) else Place(p.space, p.level - 1, p.prefix * 512 + i)
  }

  ghost predicate EntryOk(home: Home, p: Place, i: nat, e: Entry)
    requires 1 <= p.level
  {
    e.present && !IsLeaf(p.level, e) ==> p.level > 1 && e.addr in home && home[e.addr] == Child(p, i, e.addr)
  }

  ghost predicate TableOk(m: Memory, home: Home, t: nat)
    requires t in home
  {
    var p := home[t];
    && t != 0 && Aligned(t) && t in m && m[t].Table? && |m[t].entries| == 512
    && 1 <= p.level <= 4 && (p.level == 4 ==> p == Place(t, 4, 0))
    && forall i: nat :: i < 512 ==> EntryOk(home, p, i, m[t].entries[i])
  }

  ghost predicate TablesOk(m: Memory, home: Home) {
    forall t :: t in home ==> TableOk(m, home, t)
  }

  ghost predicate SpaceIn(home: Home, t: nat)
    requires t in home
  {
    home[t].space in home
  }

  /** Every table belongs to the space of a root, or is shared below a table of the kernel half. */
  ghost predicate Spaces(home: Home) {
    forall t {:trigger SpaceIn(home, t)} :: t in home ==> SpaceIn(home, t)
  }

  lemma ChildSpace(home: Home, to: nat, i: nat, f: nat)
    requires Spaces(home) && to in home && home[to].level > 1
    ensures Spaces(home[f := Child(home[to], i, f)])
  {
    var home' := home[f := Child(home[to], i, f)];
    forall t | t in home' ensures SpaceIn(home', t) {
      assert SpaceIn(home, to) && (t == f || SpaceIn(home, t));
    }
  }

  predicate IsRoot(home: Home, r: nat) {
    r in home && home[r].level == 4
  }

  /** The walk of `va` from table `t` comes to table `to` at level `at`. */
  ghost predicate Path(m: Memory, t: nat, level: nat, va: nat, to: nat, at: nat)
    requires 1 <= level <= 4
    decreases level
  {
    if level <= at then level == at && t == to
    else
      var e := EntryAt(m, t, Index(va, level));
      e.present && level > 1 && !IsLeaf(level, e) && Path(m, e.addr, level - 1, va, to, at)
  }

  /** The tables that are missing between table `t` and the entry of `va` at level `target`; none will do if a larger
      page is in the way. */
  function TablesNeeded(m: Memory, t: nat, level: nat, va: nat, target: nat): (r: Option<nat>)
    requires 1 <= target <= level <= 4
    ensures r.Some? ==> r.value <= level - target
    decreases level
  {
    var e := EntryAt(m, t, Index(va, level));
    if level == target then Some(0)
    else if !e.present then Some(level - target)
    else if IsLeaf(level, e) then None
    else TablesNeeded(m, e.addr, level - 1, va, target)
  }

  /** The entry of `va` at level `target`, if there are tables down to it. */
  function EntryOn(m: Memory, t: nat, level: nat, va: nat, target: nat): Entry
    requires 1 <= target <= level <= 4
    decreases level
  {
    var e := EntryAt(m, t, Index(va, level));
    if level == target then e
    else if !e.present || IsLeaf(level, e) then NO_ENTRY
    else EntryOn(m, e.addr, level - 1, va, target)
  }

  /** A page can be mapped at `va`: nothing is in the way, and enough frames are free for the missing tables. */
  predicate Mappable(m: Memory, free: nat, root: nat, va: nat, target: nat)
    requires 1 <= target <= 4
  {
    var n := TablesNeeded(m, root, 4, va, target);
    n.Some? && n.value <= free && !EntryOn(m, root, 4, va, target).present
  }

  /** What is in the way of a 4K page is a page. */
  lemma {:induction false} FreeSlot(m: Memory, t: nat, level: nat, va: nat)
    requires 1 <= level <= 4
    ensures LeafOf(m, t, level, va).Unmapped? <==>
            TablesNeeded(m, t, level, va, 1).Some? && !EntryOn(m, t, level, va, 1).present
    decreases level
  {
    hide Index;
    var e := EntryAt(m, t, Index(va, level));
    if level > 1 && e.present && !IsLeaf(level, e) {
      FreeSlot(m, e.addr, level - 1, va);
    }
  }

  lemma {:induction false} PathLeaf(m: Memory, t: nat, level: nat, va: nat, to: nat, at: nat)
    requires 1 <= at && level <= 4 && 1 <= level && Path(m, t, level, va, to, at)
    ensures LeafOf(m, t, level, va) == LeafOf(m, to, at, va)
    decreases level
  {
    if level > at {
      PathLeaf(m, EntryAt(m, t, Index(va, level)).addr, level - 1, va, to, at);
    }
  }

  /** One step further. */
  lemma {:induction false} PathDown(m: Memory, t: nat, level: nat, va: nat, to: nat, at: nat)
    requires 2 <= at <= 4 && level <= 4 && 1 <= level && Path(m, t, level, va, to, at)
    requires EntryAt(m, to, Index(va, at)).present && !IsLeaf(at, EntryAt(m, to, Index(va, at)))
    ensures Path(m, t, level, va, EntryAt(m, to, Index(va, at)).addr, at - 1)
    decreases level
  {
    if level > at {
      PathDown(m, EntryAt(m, t, Index(va, level)).addr, level - 1, va, to, at);
    }
  }

  /** The way to a table is the same for all the addresses it covers. */
  lemma {:induction false} PathPrefix(m: Memory, t: nat, level: nat, va: nat, to: nat, at: nat, a: nat)
    requires 1 <= at <= level <= 4 && Path(m, t, level, va, to, at) && Slot(a, at + 1) == Slot(va, at + 1)
    ensures Path(m, t, level, a, to, at)
    decreases level
  {
    hide Slot, Index;
    if level > at {
      SlotsAbove(a, va, at + 1, level);
      PathPrefix(m, EntryAt(m, t, Index(va, level)).addr, level - 1, va, to, at, a);
    }
  }

  lemma {:induction false} SlotsAbove(a: nat, b: nat, at: nat, level: nat)
    requires 1 <= at <= level <= 4 && Slot(a, at) == Slot(b, at)
    ensures Slot(a, level) == Slot(b, level) && Index(a, level) == Index(b, level)
    decreases level - at
  {
    hide Slot, Index;
    SameSlotUp(a, b, at);
    if at < level {
      SlotsAbove(a, b, at + 1, level);
    }
  }

  /** A walk through well-placed tables is where its address belongs. */
  lemma {:induction false} PathHome(m: Memory, home: Home, t: nat, va: nat, to: nat, at: nat)
    requires TablesOk(m, home) && t in home && 1 <= at <= home[t].level <= 4 && home[t].prefix == Slot(va, home[t].level + 1)
    requires Path(m, t, home[t].level, va, to, at)
    ensures to in home && home[to].level == at && home[to].prefix == Slot(va, at + 1)
    ensures at < home[t].level < 4 ==> home[to].space == home[t].space
    ensures at < home[t].level == 4 ==>
              home[to].space == if Index(va, 4) < 256 then t else EntryAt(m, t, Index(va, 4)).addr
    decreases home[t].level
  {
    hide Slot, Index;
    assert TableOk(m, home, t);
    if home[t].level > at {
      SlotStep(va, home[t].level);
      var e := EntryAt(m, t, Index(va, home[t].level));
      assert EntryOk(home, home[t], Index(va, home[t].level), e);
      SlotStep(va, 4);
      PathHome(m, home, e.addr, va, to, at);
    }
  }

  /** All the addresses of a 4K page have one leaf. */
  lemma {:induction false} SameLeafInPage(m: Memory, t: nat, level: nat, a: nat, b: nat)
    requires 1 <= level <= 4 && Slot(a, 1) == Slot(b, 1)
    ensures LeafOf(m, t, level, a) == LeafOf(m, t, level, b)
    decreases level
  {
    hide Slot, Index;
    SlotsAbove(a, b, 1, level);
    var e := EntryAt(m, t, Index(a, level));
    if e.present && !IsLeaf(level, e) {
      SameLeafInPage(m, e.addr, level - 1, a, b);
    }
  }

  // ---------- one changed entry ----------

  function SetEntry(m: Memory, t: nat, i: nat, e: Entry): Memory
    requires t in m && m[t].Table? && i < |m[t].entries|
  {
    m[t := Table(m[t].entries[i := e])]
  }

  /** A walk that does not come to entry `i` of table `to` does not see it change. */
  lemma {:induction false} NotSeen(m: Memory, home: Home, t: nat, va: nat, to: nat, i: nat, e: Entry)
    requires TablesOk(m, home) && t in home && to in home && TableOk(m, home, t) && TableOk(m, home, to) && i < 512
    requires !(Path(m, t, home[t].level, va, to, home[to].level) && Index(va, home[to].level) == i)
    ensures LeafOf(SetEntry(m, to, i, e), t, home[t].level, va) == LeafOf(m, t, home[t].level, va)
    decreases home[t].level
  {
    hide Index;
    var level := home[t].level;
    var k := Index(va, level);
    assert EntryAt(SetEntry(m, to, i, e), t, k) == EntryAt(m, t, k);
    var next := EntryAt(m, t, k);
    assert EntryOk(home, home[t], k, next);
    if next.present && !IsLeaf(level, next) {
      assert TableOk(m, home, next.addr);
      NotSeen(m, home, next.addr, va, to, i, e);
    }
  }

  lemma SetKeepsTables(m: Memory, home: Home, to: nat, i: nat, e: Entry)
    requires TablesOk(m, home) && to in home && TableOk(m, home, to) && i < 512 && EntryOk(home, home[to], i, e)
    ensures TablesOk(SetEntry(m, to, i, e), home)
  {
    var m' := SetEntry(m, to, i, e);
    forall t | t in home ensures TableOk(m', home, t) {
      assert TableOk(m, home, t);
    }
  }

  /** A changed entry does not move its own table. */
  lemma {:induction false} SetKeepsPath(m: Memory, home: Home, t: nat, va: nat, to: nat, i: nat, e: Entry)
    requires TablesOk(m, home) && t in home && to in home && TableOk(m, home, t) && TableOk(m, home, to) && i < 512
    requires Path(m, t, home[t].level, va, to, home[to].level)
    ensures Path(SetEntry(m, to, i, e), t, home[t].level, va, to, home[to].level)
    decreases home[t].level
  {
    hide Index;
    var level := home[t].level;
    if level > home[to].level {
      var next := EntryAt(m, t, Index(va, level));
      assert EntryOk(home, home[t], Index(va, level), next);
      assert TableOk(m, home, next.addr);
      SetKeepsPath(m, home, next.addr, va, to, i, e);
    }
  }

  /** Two address spaces look through the same table at this entry of their roots. */
  predicate Shares(m: Memory, r: nat, root: nat, i: nat) {
    r == root || (i >= 256 && EntryAt(m, r, i).present && EntryAt(m, root, i).present
                  && EntryAt(m, r, i).addr == EntryAt(m, root, i).addr)
  }

  /** What `va` becomes. */
  function LeafFor(e: Entry, level: nat): Leaf {
    if e.present then Leaf(e, level) else Unmapped
  }

  /** Exactly the slot of `va` at this level changes, in the space of `root` and in those that share it. */
  ghost predicate ChangesSlot(m: Memory, home: Home, m': Memory, root: nat, va: nat, level: nat, e: Entry)
    requires 1 <= level <= 4
  {
    forall r, a: nat :: IsRoot(home, r) ==>
      LeafOf(m', r, 4, a) ==
      if Slot(a, level) == Slot(va, level) && Shares(m', r, root, Index(va, 4)) then LeafFor(e, level) else LeafOf(m, r, 4, a)
  }

  /** Where the walk of `a` from root `r` comes by the entry of `va`: in the slot of `va`, if the spaces share it. */
  lemma Reached(m: Memory, home: Home, root: nat, va: nat, to: nat, level: nat, r: nat, a: nat)
    requires TablesOk(m, home) && IsRoot(home, root) && IsRoot(home, r) && 1 <= level <= 3
    requires Path(m, root, 4, va, to, level)
    ensures Path(m, r, 4, a, to, level) && Index(a, level) == Index(va, level) <==>
            Slot(a, level) == Slot(va, level) && Shares(m, r, root, Index(va, 4))
  {
    hide Slot, Index;
    assert TableOk(m, home, root) && TableOk(m, home, r);
    SlotStep(va, 4);
    SlotStep(a, 4);
    PathHome(m, home, root, va, to, level);
    SlotStep(va, level);
    SlotStep(a, level);
    if Path(m, r, 4, a, to, level) && Index(a, level) == Index(va, level) {
      PathHome(m, home, r, a, to, level);
      SlotsAbove(a, va, level, 4);
    }
    if Slot(a, level) == Slot(va, level) {
      SameSlotUp(a, va, level);
      SlotsAbove(a, va, level, 4);
      PathPrefix(m, root, 4, va, to, level, a);
    }
  }

  lemma SetChangesSlot(m: Memory, home: Home, root: nat, va: nat, to: nat, level: nat, e: Entry)
    requires TablesOk(m, home) && IsRoot(home, root) && 1 <= level <= 3 && Path(m, root, 4, va, to, level)
    requires e.present ==> IsLeaf(level, e)
    ensures to in home && TableOk(m, home, to)
    ensures var m' := SetEntry(m, to, Index(va, level), e);
            TablesOk(m', home) && ChangesSlot(m, home, m', root, va, level, e)
  {
    hide Slot, Index;
    assert TableOk(m, home, root);
    SlotStep(va, 4);
    PathHome(m, home, root, va, to, level);
    assert TableOk(m, home, to);
    var i := Index(va, level);
    var m' := SetEntry(m, to, i, e);
    SetKeepsTables(m, home, to, i, e);
    forall r, a: nat | IsRoot(home, r)
      ensures LeafOf(m', r, 4, a) ==
              if Slot(a, level) == Slot(va, level) && Shares(m', r, root, Index(va, 4)) then LeafFor(e, level)
              else LeafOf(m, r, 4, a)
    {
      assert TableOk(m, home, r);
      Reached(m, home, root, va, to, level, r, a);
      assert Shares(m', r, root, Index(va, 4)) == Shares(m, r, root, Index(va, 4));
      if Path(m, r, 4, a, to, level) && Index(a, level) == i {
        SetKeepsPath(m, home, r, a, to, i, e);
        PathLeaf(m', r, 4, a, to, level);
      } else {
        NotSeen(m, home, r, a, to, i, e);
      }
    }
  }

  // ---------- a new empty table ----------

  function EmptyTable(): seq<Entry> { seq(512, _ => NO_ENTRY) }

  /** An empty table `f` is put under entry `i` of table `to`. */
  function Grown(m: Memory, to: nat, i: nat, f: nat, user: bool): Memory
    requires to in m && m[to].Table? && i < |m[to].entries| && f != to
  {
    SetEntry(m[f := Table(EmptyTable())], to, i, Entry(true, false, user, f))
  }

  lemma {:induction false} GrowMapsNothing(m: Memory, home: Home, to: nat, i: nat, f: nat, user: bool, t: nat, a: nat)
    requires TablesOk(m, home) && t in home && to in home && TableOk(m, home, t) && TableOk(m, home, to) && i < 512
    requires !m[to].entries[i].present && f !in home && home[to].level >= 2
    ensures LeafOf(Grown(m, to, i, f, user), t, home[t].level, a) == LeafOf(m, t, home[t].level, a)
    decreases home[t].level
  {
    hide Index;
    var level, m' := home[t].level, Grown(m, to, i, f, user);
    var k := Index(a, level);
    var next := EntryAt(m, t, k);
    assert EntryOk(home, home[t], k, next);
    if t == to && k == i {
      assert level > 1 && EntryAt(m', t, k) == Entry(true, false, user, f);
      assert LeafOf(m', f, level - 1, a) == Unmapped;
    } else {
      assert EntryAt(m', t, k) == next;
      if next.present && !IsLeaf(level, next) {
        assert TableOk(m, home, next.addr);
        GrowMapsNothing(m, home, to, i, f, user, next.addr, a);
      }
    }
  }

  lemma {:induction false} GrowKeepsPath(m: Memory, home: Home, to: nat, i: nat, f: nat, user: bool, t: nat, va: nat)
    requires TablesOk(m, home) && t in home && to in home && TableOk(m, home, t) && TableOk(m, home, to) && i < 512
    requires f !in home && Path(m, t, home[t].level, va, to, home[to].level)
    ensures Path(Grown(m, to, i, f, user), t, home[t].level, va, to, home[to].level)
    decreases home[t].level
  {
    hide Index;
    var level := home[t].level;
    if level > home[to].level {
      var next := EntryAt(m, t, Index(va, level));
      assert EntryOk(home, home[t], Index(va, level), next);
      assert TableOk(m, home, next.addr);
      GrowKeepsPath(m, home, to, i, f, user, next.addr, va);
    }
  }

  lemma GrowKeepsTables(m: Memory, home: Home, to: nat, i: nat, f: nat, user: bool)
    requires TablesOk(m, home) && to in home && TableOk(m, home, to) && i < 512
    requires !m[to].entries[i].present && f !in home && home[to].level >= 2 && f != 0 && Aligned(f)
    ensures TablesOk(Grown(m, to, i, f, user), home[f := Child(home[to], i, f)])
  {
    var m', home' := Grown(m, to, i, f, user), home[f := Child(home[to], i, f)];
    forall t | t in home' ensures TableOk(m', home', t) {
      if t != f {
        assert TableOk(m, home, t);
        forall j: nat | j < 512 ensures EntryOk(home', home'[t], j, m'[t].entries[j]) {
          assert EntryOk(home, home[t], j, m[t].entries[j]);
        }
      }
    }
  }

  // ---------- the rest of memory ----------

  /** Frames that are no tables translate nothing. */
  lemma {:induction false} OtherFrame(m: Memory, home: Home, f: nat, frame: Frame, t: nat, a: nat)
    requires TablesOk(m, home) && t in home && TableOk(m, home, t) && f !in home
    ensures LeafOf(m[f := frame], t, home[t].level, a) == LeafOf(m, t, home[t].level, a)
    decreases home[t].level
  {
    hide Index;
    var level := home[t].level;
    var next := EntryAt(m, t, Index(a, level));
    assert EntryOk(home, home[t], Index(a, level), next);
    if next.present && !IsLeaf(level, next) {
      assert TableOk(m, home, next.addr);
      OtherFrame(m, home, f, frame, next.addr, a);
    }
  }

  lemma OtherFrameKeepsTables(m: Memory, home: Home, f: nat, frame: Frame)
    requires TablesOk(m, home) && f !in home
    ensures TablesOk(m[f := frame], home)
  {
    forall t | t in home ensures TableOk(m[f := frame], home, t) {
      assert TableOk(m, home, t);
    }
  }

  /** Every address space translates as before. */
  ghost predicate SameLeaves(m: Memory, home: Home, m': Memory) {
    forall r, a: nat :: IsRoot(home, r) ==> LeafOf(m', r, 4, a) == LeafOf(m, r, 4, a)
  }

  /** Entries of the roots stay, and no two spaces come to share what they did not share. */
  ghost predicate RootsKept(m: Memory, home: Home, m': Memory) {
    && (forall r, i: nat :: IsRoot(home, r) && EntryAt(m, r, i).present ==> EntryAt(m', r, i) == EntryAt(m, r, i))
    && (forall r, q, i: nat :: IsRoot(home, r) && IsRoot(home, q) && Shares(m', r, q, i) ==> Shares(m, r, q, i))
  }

  lemma GrowIsInvisible(m: Memory, home: Home, to: nat, i: nat, f: nat, user: bool)
    requires TablesOk(m, home) && to in home && TableOk(m, home, to) && i < 512
    requires !m[to].entries[i].present && f !in home && home[to].level >= 2
    ensures SameLeaves(m, home, Grown(m, to, i, f, user)) && RootsKept(m, home, Grown(m, to, i, f, user))
  {
    var m' := Grown(m, to, i, f, user);
    forall r, a: nat | IsRoot(home, r) ensures LeafOf(m', r, 4, a) == LeafOf(m, r, 4, a) {
      assert TableOk(m, home, r);
      GrowMapsNothing(m, home, to, i, f, user, r, a);
    }
    forall r, q, k: nat | IsRoot(home, r) && IsRoot(home, q) && Shares(m', r, q, k) ensures Shares(m, r, q, k) {
      assert TableOk(m, home, r) && TableOk(m, home, q);
      if r != q {
        assert EntryAt(m', r, k).addr != f || EntryAt(m', q, k).addr != f;
        if k < 512 { assert EntryOk(home, home[r], k, EntryAt(m, r, k)) && EntryOk(home, home[q], k, EntryAt(m, q, k)); }
      }
    }
  }
}
