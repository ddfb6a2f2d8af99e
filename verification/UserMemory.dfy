/** read_user_bytes and write_user_bytes: user memory copied page by page through the current translation. */
module UserMemory {
  import opened Bytes
  import Pmm
  import opened PageTables
  import opened Vmm

  function FrameOf(pa: nat): nat { pa / PAGE_SIZE * PAGE_SIZE }

  /** The byte at user address `a`. */
  function Seen(m: Pmm.Memory, root: nat, a: nat): Option<byte> {
    match Translate(m, root, a)
    case None => None
    case Some(pa) =>
      if FrameOf(pa) in m && m[FrameOf(pa)].Page? && pa % PAGE_SIZE < |m[FrameOf(pa)].bytes|
      then Some(m[FrameOf(pa)].bytes[pa % PAGE_SIZE]) else None
  }

  predicate Mapped(m: Pmm.Memory, root: nat, a: nat) { Translate(m, root, a).Some? }

  /** Frame `f` holds a page of data: it is no table and not free. */
  ghost predicate DataFrame(m: Pmm.Memory, home: Home, list: seq<nat>, f: nat) {
    f in m && m[f].Page? && |m[f].bytes| == PAGE_SIZE && f !in home && f !in list
  }

  /** What the addresses in [lo, hi) lead to, where they lead anywhere, are data pages. */
  ghost predicate DataPages(m: Pmm.Memory, home: Home, list: seq<nat>, root: nat, lo: nat, hi: nat) {
    forall a: nat :: lo <= a < hi && Mapped(m, root, a) ==> DataFrame(m, home, list, FrameOf(Translate(m, root, a).value))
  }

  /** Different pages of the range lead to different frames. */
  ghost predicate NoAlias(m: Pmm.Memory, root: nat, lo: nat, hi: nat) {
    forall a, b: nat ::
      (lo <= a < hi && lo <= b < hi && Mapped(m, root, a) && Mapped(m, root, b)
       && FrameOf(Translate(m, root, a).value) == FrameOf(Translate(m, root, b).value)) ==>
      a / PAGE_SIZE == b / PAGE_SIZE
  }

  lemma SameSlot(a: nat, i: nat)
    requires a % PAGE_SIZE + i < PAGE_SIZE
    ensures Slot(a + i, 1) == Slot(a, 1) && (a + i) / PAGE_SIZE == a / PAGE_SIZE && (a + i) % PAGE_SIZE == a % PAGE_SIZE + i
  {
    assert (a + i) / PAGE_SIZE == a / PAGE_SIZE;
    DivTwice(a, PAGE_SIZE, 0x10_0000_0000);
    DivTwice(a + i, PAGE_SIZE, 0x10_0000_0000);
  }

  /** Offsets within a page survive every page size. */
  lemma SpanOffset(level: nat, base: nat, a: nat, i: nat)
    requires 1 <= level <= 3 && a % PAGE_SIZE + i < PAGE_SIZE
    ensures var s := Span(level);
            && (base / s * s + a % s) % PAGE_SIZE == a % PAGE_SIZE && (a + i) % s == a % s + i
  {
    var k := if level == 1 then 1 else if level == 2 then 512 else 0x4_0000;
    assert Span(level) == PAGE_SIZE * k;
    hide Span;
    Offsets(k, base / (PAGE_SIZE * k), a, i);
  }

  lemma Offsets(k: nat, q: nat, a: nat, i: nat)
    requires k > 0 && a % PAGE_SIZE + i < PAGE_SIZE
    ensures var s := PAGE_SIZE * k; s > 0 && (q * s + a % s) % PAGE_SIZE == a % PAGE_SIZE && (a + i) % s == a % s + i
  {
    var s := PAGE_SIZE * k;
    DivTwice(a, PAGE_SIZE, k);
    var r := a % s;
    var c := r / PAGE_SIZE;
    assert r == c * PAGE_SIZE + a % PAGE_SIZE && c < k;
    assert (c + 1) * PAGE_SIZE <= k * PAGE_SIZE;
    Quotient(a + i, s, a / s, r + i);
    assert q * s + r == (q * k + c) * PAGE_SIZE + a % PAGE_SIZE;
    Quotient(q * s + r, PAGE_SIZE, q * k + c, a % PAGE_SIZE);
  }

  /** The whole range is mapped. */
  ghost predicate AllMapped(m: Pmm.Memory, root: nat, lo: nat, hi: nat) {
    forall a: nat :: lo <= a < hi ==> Mapped(m, root, a)
  }

  /** Within a page, translation is adding. */
  lemma WithinPage(m: Pmm.Memory, root: nat, a: nat, i: nat)
    requires a % PAGE_SIZE + i < PAGE_SIZE
    ensures Translate(m, root, a + i) ==
            if Mapped(m, root, a) then Some(Translate(m, root, a).value + i) else None
    ensures Mapped(m, root, a) ==>
              var pa := Translate(m, root, a).value;
              pa % PAGE_SIZE == a % PAGE_SIZE && FrameOf(pa + i) == FrameOf(pa) && (pa + i) % PAGE_SIZE == pa % PAGE_SIZE + i
  {
    SameSlot(a, i);
    SameLeafInPage(m, root, 4, a + i, a);
    var leaf := LeafOf(m, root, 4, a);
    if leaf.Leaf? {
      LeafLevel(m, root, 4, a);
      SpanOffset(leaf.level, leaf.entry.addr, a, i);
      hide LeafOf, Span;
      SameSlot(Translate(m, root, a).value, i);
    }
  }

  /** The root level maps no memory itself. */
  lemma LeafLevel(m: Pmm.Memory, t: nat, level: nat, a: nat)
    requires 1 <= level <= 4
    ensures LeafOf(m, t, level, a).Leaf? ==> LeafOf(m, t, level, a).level <= 3
  {
  }

  /** The addresses from `lo` on show the bytes of `s`. */
  ghost predicate Shows(m: Pmm.Memory, root: nat, lo: nat, s: seq<byte>) {
    forall k :: 0 <= k < |s| ==> Seen(m, root, lo + k) == Some(s[k])
  }

  lemma ShowsMore(m: Pmm.Memory, root: nat, lo: nat, s: seq<byte>, t: seq<byte>)
    requires Shows(m, root, lo, s) && Shows(m, root, lo + |s|, t)
    ensures Shows(m, root, lo, s + t)
  {
    forall k | 0 <= k < |s + t| ensures Seen(m, root, lo + k) == Some((s + t)[k]) {
      if k >= |s| { assert lo + k == lo + |s| + (k - |s|); }
    }
  }

  lemma MappedMore(m: Pmm.Memory, root: nat, lo: nat, mid: nat, hi: nat)
    requires AllMapped(m, root, lo, mid) && AllMapped(m, root, mid, hi)
    ensures AllMapped(m, root, lo, hi)
  {
  }

  /** Up to the end of its page, what is seen from address `a` on is what its frame holds. */
  lemma ChunkShows(m: Pmm.Memory, root: nat, a: nat, chunk: nat)
    requires a % PAGE_SIZE + chunk <= PAGE_SIZE && 0 < chunk && Mapped(m, root, a)
    requires var f := FrameOf(Translate(m, root, a).value); f in m && m[f].Page? && |m[f].bytes| == PAGE_SIZE
    ensures var pa := Translate(m, root, a).value;
            && pa % PAGE_SIZE == a % PAGE_SIZE && AllMapped(m, root, a, a + chunk)
            && Shows(m, root, a, m[FrameOf(pa)].bytes[pa % PAGE_SIZE..pa % PAGE_SIZE + chunk])
  {
    hide Translate, FrameOf;
    var pa := Translate(m, root, a).value;
    WithinPage(m, root, a, 0);
    var s := m[FrameOf(pa)].bytes[pa % PAGE_SIZE..pa % PAGE_SIZE + chunk];
    forall k | 0 <= k < |s| ensures Seen(m, root, a + k) == Some(s[k]) {
      WithinPage(m, root, a, k);
    }
    forall b: nat | a <= b < a + chunk ensures Mapped(m, root, b) {
      WithinPage(m, root, a, b - a);
    }
  }

  /** read_user_bytes: fails exactly when some page of the range is not mapped, and otherwise reads what is seen. */
  method ReadUserBytes(v: AddressSpaces, address: nat, dest: array<byte>, len: nat) returns (ok: bool)
    requires v.Valid() && len <= dest.Length
    requires DataPages(v.pmm.memory, v.home, v.pmm.list, v.active, address, address + len)
    modifies v, v.pmm, dest
    ensures v.Valid() && v.pmm.memory == old(v.pmm.memory) && v.active == old(v.active) && v.home == old(v.home)
    ensures ok <==> AllMapped(v.pmm.memory, v.active, address, address + len)
    ensures ok ==> Shows(v.pmm.memory, v.active, address, dest[..len])
    ensures dest[len..] == old(dest[len..])
  {
    hide Translate, Seen, FrameOf, PageTables.TablesOk, Pmm.Chain, Pmm.NoRepeats, Shows, AllMapped, DataPages, DataFrame, Spaces;
    ghost var m, root := v.pmm.memory, v.active;
    var copied := 0;
    assert dest[..0] == [];
    NothingShown(m, root, address);
    while copied < len
      invariant copied <= len && v.Valid() && v.pmm.memory == m && v.active == root && v.home == old(v.home)
      invariant v.pmm.list == old(v.pmm.list) && dest[len..] == old(dest[len..])
      invariant AllMapped(m, root, address, address + copied) && Shows(m, root, address, dest[..copied])
      decreases len - copied
    {
      var mapped, pa := v.VirtToPhys(address + copied);
      if !mapped {
        HoleInRange(m, root, address, address + copied, address + len);
        return false;
      }
      WithinPage(m, root, address + copied, 0);
      DataAt(m, v.home, v.pmm.list, root, address, address + len, address + copied);
      var chunk := if len - copied < PAGE_SIZE - pa % PAGE_SIZE then len - copied else PAGE_SIZE - pa % PAGE_SIZE;
      ChunkShows(m, root, address + copied, chunk);
      ghost var front := dest[..copied];
      var part := v.pmm.memory[FrameOf(pa)].bytes[pa % PAGE_SIZE..pa % PAGE_SIZE + chunk];
      CopyIn(dest, copied, part);
      ShowsMore(m, root, address, front, part);
      MappedMore(m, root, address, address + copied, address + copied + chunk);
      copied := copied + chunk;
      assert dest[..copied] == front + part;
      assert dest[len..] == dest[copied..][len - copied..];
    }
    assert dest[..copied] == dest[..len];
    return true;
  }

  lemma HoleInRange(m: Pmm.Memory, root: nat, lo: nat, a: nat, hi: nat)
    requires lo <= a < hi && !Mapped(m, root, a)
    ensures !AllMapped(m, root, lo, hi)
  {
  }

  lemma DataAt(m: Pmm.Memory, home: Home, list: seq<nat>, root: nat, lo: nat, hi: nat, a: nat)
    requires DataPages(m, home, list, root, lo, hi) && lo <= a < hi && Mapped(m, root, a)
    ensures var f := FrameOf(Translate(m, root, a).value); f in m && m[f].Page? && |m[f].bytes| == PAGE_SIZE
  {
  }

  lemma NothingShown(m: Pmm.Memory, root: nat, lo: nat)
    ensures Shows(m, root, lo, []) && AllMapped(m, root, lo, lo)
  {
  }

  /** memcpy into a buffer. */
  method CopyIn(dest: array<byte>, at: nat, s: seq<byte>)
    requires at + |s| <= dest.Length
    modifies dest
    ensures dest[..] == Splice(old(dest[..]), at, s)
    ensures dest[..at] == old(dest[..at]) && dest[at..at + |s|] == s && dest[at + |s|..] == old(dest[at + |s|..])
    ensures dest[..at + |s|] == old(dest[..at]) + s
  {
    forall i | 0 <= i < |s| {
      dest[at + i] := s[i];
    }
  }

  // ---------- writing ----------

  /** Writing into data frames changes no translation. */
  lemma DataWrite(m: Pmm.Memory, home: Home, list: seq<nat>, root: nat, f: nat, page: Block, a: nat)
    requires TablesOk(m, home) && IsRoot(home, root) && f !in home
    ensures Translate(m[f := Pmm.Page(page)], root, a) == Translate(m, root, a)
  {
    assert TableOk(m, home, root);
    OtherFrame(m, home, f, Pmm.Page(page), root, a);
  }

  /** The memory after `s` was written to `a`, within one page. */
  function Stored(m: Pmm.Memory, pa: nat, s: seq<byte>): Pmm.Memory
    requires FrameOf(pa) in m && m[FrameOf(pa)].Page? && pa % PAGE_SIZE + |s| <= |m[FrameOf(pa)].bytes|
  {
    m[FrameOf(pa) := Pmm.Page(Splice(m[FrameOf(pa)].bytes, pa % PAGE_SIZE, s))]
  }

  /** One chunk written: its addresses show it, every translation stays, and no address of another frame sees a change. */
  lemma ChunkStored(m: Pmm.Memory, home: Home, list: seq<nat>, root: nat, a: nat, s: seq<byte>)
    requires TablesOk(m, home) && IsRoot(home, root) && a % PAGE_SIZE + |s| <= PAGE_SIZE && s != [] && Mapped(m, root, a)
    requires DataFrame(m, home, list, FrameOf(Translate(m, root, a).value))
    ensures var pa := Translate(m, root, a).value;
            && pa % PAGE_SIZE == a % PAGE_SIZE && AllMapped(m, root, a, a + |s|)
            && (forall b: nat :: Translate(Stored(m, pa, s), root, b) == Translate(m, root, b))
            && Shows(Stored(m, pa, s), root, a, s) && TablesOk(Stored(m, pa, s), home)
            && (forall b: nat :: Mapped(m, root, b) && FrameOf(Translate(m, root, b).value) != FrameOf(pa) ==>
                  Seen(Stored(m, pa, s), root, b) == Seen(m, root, b))
  {
    var pa := Translate(m, root, a).value;
    WithinPage(m, root, a, 0);
    var m' := Stored(m, pa, s);
    OtherFrameKeepsTables(m, home, FrameOf(pa), m'[FrameOf(pa)]);
    forall b: nat ensures Translate(m', root, b) == Translate(m, root, b) {
      DataWrite(m, home, list, root, FrameOf(pa), m'[FrameOf(pa)].bytes, b);
    }
    hide Translate, FrameOf;
    ChunkShows(m', root, a, |s|);
    assert m'[FrameOf(pa)].bytes[pa % PAGE_SIZE..pa % PAGE_SIZE + |s|] == s;
    ChunkShows(m, root, a, |s|);
  }

  /** The write so far: `s` shows, every address still translates as before and leads to data, and addresses that share no
      frame with the range [lo, hi) see what they saw. */
  ghost predicate Wrote(m0: Pmm.Memory, m: Pmm.Memory, home: Home, list: seq<nat>, root: nat, lo: nat, hi: nat, s: seq<byte>) {
    && (forall b: nat :: Translate(m, root, b) == Translate(m0, root, b))
    && DataPages(m, home, list, root, lo, hi) && Shows(m, root, lo, s)
    && (forall b: nat :: Mapped(m0, root, b) && Apart(m0, root, lo, hi, FrameOf(Translate(m0, root, b).value)) ==>
          Seen(m, root, b) == Seen(m0, root, b))
  }

  /** No address of the range leads to frame `f`. */
  ghost predicate Apart(m: Pmm.Memory, root: nat, lo: nat, hi: nat, f: nat) {
    forall a: nat :: lo <= a < hi && Mapped(m, root, a) ==> FrameOf(Translate(m, root, a).value) != f
  }

  lemma WroteChunk(m0: Pmm.Memory, m: Pmm.Memory, home: Home, list: seq<nat>, root: nat, lo: nat, hi: nat,
                   s: seq<byte>, t: seq<byte>)
    requires TablesOk(m, home) && IsRoot(home, root) && Wrote(m0, m, home, list, root, lo, hi, s) && NoAlias(m0, root, lo, hi)
    requires t != [] && lo + |s| + |t| <= hi && Mapped(m, root, lo + |s|) && (lo + |s|) % PAGE_SIZE + |t| <= PAGE_SIZE
    requires s != [] ==> (lo + |s|) % PAGE_SIZE == 0
    ensures var pa := Translate(m, root, lo + |s|).value;
            && DataFrame(m, home, list, FrameOf(pa)) && pa % PAGE_SIZE == (lo + |s|) % PAGE_SIZE
            && AllMapped(m0, root, lo + |s|, lo + |s| + |t|)
            && TablesOk(Stored(m, pa, t), home) && Wrote(m0, Stored(m, pa, t), home, list, root, lo, hi, s + t)
  {
    hide Translate, FrameOf, Seen, Stored, Shows, AllMapped, TablesOk, NoAlias;
    var a := lo + |s|;
    var pa := Translate(m, root, a).value;
    assert DataFrame(m, home, list, FrameOf(pa));
    ChunkStored(m, home, list, root, a, t);
    var m' := Stored(m, pa, t);
    EarlierKept(m0, m, m', home, list, root, lo, hi, s, FrameOf(pa));
    ShowsMore(m', root, lo, s, t);
    StillData(m, m', home, list, root, lo, hi, pa, t);
    SameMapped(m0, m, root, a, a + |t|);
    forall b: nat | Mapped(m0, root, b) && Apart(m0, root, lo, hi, FrameOf(Translate(m0, root, b).value))
      ensures Seen(m', root, b) == Seen(m0, root, b)
    {
      assert Mapped(m0, root, a);
    }
  }

  lemma SameMapped(m0: Pmm.Memory, m: Pmm.Memory, root: nat, lo: nat, hi: nat)
    requires AllMapped(m, root, lo, hi) && forall b: nat :: Translate(m, root, b) == Translate(m0, root, b)
    ensures AllMapped(m0, root, lo, hi)
  {
    hide Translate;
    forall b: nat | lo <= b < hi ensures Mapped(m0, root, b) {
      assert Mapped(m, root, b) && Translate(m, root, b) == Translate(m0, root, b);
    }
  }

  lemma StillData(m: Pmm.Memory, m': Pmm.Memory, home: Home, list: seq<nat>, root: nat, lo: nat, hi: nat, pa: nat, t: seq<byte>)
    requires DataPages(m, home, list, root, lo, hi) && DataFrame(m, home, list, FrameOf(pa)) && pa % PAGE_SIZE + |t| <= PAGE_SIZE
    requires m' == Stored(m, pa, t) && forall b: nat :: Translate(m', root, b) == Translate(m, root, b)
    ensures DataPages(m', home, list, root, lo, hi)
  {
    hide Translate, FrameOf;
  }

  /** What was written before lies in earlier pages, hence in other frames. */
  lemma EarlierKept(m0: Pmm.Memory, m: Pmm.Memory, m': Pmm.Memory, home: Home, list: seq<nat>, root: nat, lo: nat, hi: nat,
                    s: seq<byte>, f: nat)
    requires Wrote(m0, m, home, list, root, lo, hi, s) && NoAlias(m0, root, lo, hi) && lo + |s| < hi
    requires Mapped(m, root, lo + |s|) && f == FrameOf(Translate(m, root, lo + |s|).value)
    requires s != [] ==> (lo + |s|) % PAGE_SIZE == 0
    requires forall b: nat :: Mapped(m, root, b) && FrameOf(Translate(m, root, b).value) != f ==> Seen(m', root, b) == Seen(m, root, b)
    ensures Shows(m', root, lo, s)
  {
    hide Translate, FrameOf, Seen;
    forall k | 0 <= k < |s| ensures Seen(m', root, lo + k) == Some(s[k]) {
      assert Seen(m, root, lo + k) == Some(s[k]);
      SeenIsMapped(m, root, lo + k);
      EarlierPage(lo + k, lo + |s|);
      assert Mapped(m0, root, lo + k) && Mapped(m0, root, lo + |s|);
    }
  }

  lemma SeenIsMapped(m: Pmm.Memory, root: nat, a: nat)
    ensures Seen(m, root, a).Some? ==> Mapped(m, root, a)
  {
  }

  lemma EarlierPage(b: nat, a: nat)
    requires b < a && a % PAGE_SIZE == 0
    ensures b / PAGE_SIZE < a / PAGE_SIZE
  {
  }

  lemma NothingWrote(m: Pmm.Memory, home: Home, list: seq<nat>, root: nat, lo: nat, hi: nat)
    requires DataPages(m, home, list, root, lo, hi)
    ensures Wrote(m, m, home, list, root, lo, hi, [])
  {
  }

  lemma NextPageStart(a: nat, chunk: nat)
    requires a % PAGE_SIZE + chunk == PAGE_SIZE
    ensures (a + chunk) % PAGE_SIZE == 0
  {
  }

  /** write_user_bytes: when the whole range is mapped, to frames that differ from page to page, it then shows what was
      written, and nothing that does not share a frame with it has changed. */
  method WriteUserBytes(v: AddressSpaces, address: nat, src: seq<byte>) returns (ok: bool)
    requires v.Valid() && DataPages(v.pmm.memory, v.home, v.pmm.list, v.active, address, address + |src|)
    requires NoAlias(v.pmm.memory, v.active, address, address + |src|)
    modifies v, v.pmm
    ensures v.Valid() && v.active == old(v.active) && v.home == old(v.home) && v.pmm.list == old(v.pmm.list)
    ensures ok <==> AllMapped(old(v.pmm.memory), v.active, address, address + |src|)
    ensures ok ==> Wrote(old(v.pmm.memory), v.pmm.memory, v.home, v.pmm.list, v.active, address, address + |src|, src)
  {
    hide Translate, Seen, FrameOf, PageTables.TablesOk, Pmm.Chain, Pmm.NoRepeats, Shows, Wrote, DataPages, NoAlias, Stored, AllMapped;
    ghost var m0, root, lo, hi := v.pmm.memory, v.active, address, address + |src|;
    var copied := 0;
    NothingWrote(m0, v.home, v.pmm.list, root, lo, hi);
    NothingMapped(m0, root, lo);
    assert src[..0] == [];
    while copied < |src|
      invariant copied <= |src| && v.Valid() && v.active == root && v.home == old(v.home) && v.pmm.list == old(v.pmm.list)
      invariant Wrote(m0, v.pmm.memory, v.home, v.pmm.list, root, lo, hi, src[..copied])
      invariant AllMapped(m0, root, lo, lo + copied)
      invariant 0 < copied < |src| ==> (lo + copied) % PAGE_SIZE == 0
      decreases |src| - copied
    {
      var mapped, pa := v.VirtToPhys(address + copied);
      ghost var m := v.pmm.memory;
      TranslatesSame(m0, m, v.home, v.pmm.list, root, lo, hi, src[..copied], lo + copied);
      if !mapped {
        NotAllMapped(m0, root, lo, hi, lo + copied);
        return false;
      }
      WithinPage(m, root, address + copied, 0);
      var chunk := if |src| - copied < PAGE_SIZE - pa % PAGE_SIZE then |src| - copied else PAGE_SIZE - pa % PAGE_SIZE;
      var part := src[copied..copied + chunk];
      WroteChunk(m0, m, v.home, v.pmm.list, root, lo, hi, src[..copied], part);
      Pmm.ChainFrame(m, v.pmm.freeList, v.pmm.list, FrameOf(pa), Pmm.Page(Splice(m[FrameOf(pa)].bytes, pa % PAGE_SIZE, part)));
      StoredIs(m, pa, part);
      v.pmm.memory := Stored(v.pmm.memory, pa, part);
      assert src[..copied + chunk] == src[..copied] + part;
      MappedMore(m0, root, lo, lo + copied, lo + copied + chunk);
      if chunk == PAGE_SIZE - pa % PAGE_SIZE { NextPageStart(address + copied, chunk); }
      copied := copied + chunk;
    }
    assert src[..copied] == src;
    return true;
  }

  lemma StoredIs(m: Pmm.Memory, pa: nat, s: seq<byte>)
    requires FrameOf(pa) in m && m[FrameOf(pa)].Page? && pa % PAGE_SIZE + |s| <= |m[FrameOf(pa)].bytes|
    ensures Stored(m, pa, s) == m[FrameOf(pa) := Pmm.Page(Splice(m[FrameOf(pa)].bytes, pa % PAGE_SIZE, s))]
  {
  }

  lemma NothingMapped(m: Pmm.Memory, root: nat, lo: nat)
    ensures AllMapped(m, root, lo, lo)
  {
  }

  lemma NotAllMapped(m: Pmm.Memory, root: nat, lo: nat, hi: nat, a: nat)
    requires lo <= a < hi && !Mapped(m, root, a)
    ensures !AllMapped(m, root, lo, hi)
  {
  }

  lemma TranslatesSame(m0: Pmm.Memory, m: Pmm.Memory, home: Home, list: seq<nat>, root: nat, lo: nat, hi: nat, s: seq<byte>, a: nat)
    requires Wrote(m0, m, home, list, root, lo, hi, s)
    ensures Translate(m, root, a) == Translate(m0, root, a)
  {
  }
}
