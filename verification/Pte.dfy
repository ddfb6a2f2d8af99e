/** The bits of a page-table entry and of an address: what the masks and shifts of the source amount to (section 4.5 of
    Intel SDM volume 3A). */
module Pte {
  const PRESENT: bv64 := 1
  const WRITABLE: bv64 := 2
  const USER: bv64 := 4
  const HUGE: bv64 := 0x80
  const GLOBAL: bv64 := 0x100
  const NOEXEC: bv64 := 0x8000_0000_0000_0000
  const ADDR_MASK: bv64 := 0x000f_ffff_ffff_f000
  const HUGE_2M_MASK: bv64 := 0x000f_ffff_ffe0_0000
  const HUGE_1G_MASK: bv64 := 0x000f_ffff_c000_0000

  /** Flags a caller may pass: none of the address bits. */
  predicate FlagsOk(flags: bv64) { flags & ADDR_MASK == 0 }

  /** A physical address of this alignment that fits the address field. */
  predicate AddressOk(pa: bv64, size: bv64) { pa & (size - 1) == 0 && pa & !ADDR_MASK & !0xfff == 0 }

  /** The parts of an entry that translation and protection depend on. */
  datatype Fields = Fields(present: bool, huge: bool, user: bool, writable: bool, noexec: bool, addr: bv64)

  function Decode(word: bv64): Fields {
    Fields(word & PRESENT != 0, word & HUGE != 0, word & USER != 0, word & WRITABLE != 0, word & NOEXEC != 0, word & ADDR_MASK)
  }

  /** The word map_at_level_in_root writes. */
  function LeafWord(pa: bv64, flags: bv64, huge: bool): bv64 {
    pa | (flags | PRESENT | (if huge then HUGE else 0))
  }

  /** The word ensure_next_table writes. */
  function TableWord(page: bv64, flags: bv64): bv64 {
    page | PRESENT | WRITABLE | (flags & USER)
  }

  /** Bits outside the address field leave the address alone. */
  lemma AddressAlone(pa: bv64, bits: bv64)
    requires pa & !ADDR_MASK == 0 && bits & ADDR_MASK == 0
    ensures (pa | bits) & ADDR_MASK == pa
  {
  }

  lemma AlignedFits(pa: bv64)
    requires AddressOk(pa, 0x1000)
    ensures pa & !ADDR_MASK == 0
  {
  }

  /** Each flag comes out as it went in. */
  lemma FlagsAlone(pa: bv64, flags: bv64, h: bv64)
    requires pa & !ADDR_MASK == 0 && (h == 0 || h == HUGE)
    ensures (pa | (flags | PRESENT | h)) & USER == flags & USER
    ensures (pa | (flags | PRESENT | h)) & PRESENT == PRESENT
    ensures (pa | (flags | PRESENT | h)) & HUGE == (flags | h) & HUGE
    ensures (pa | (flags | PRESENT | h)) & WRITABLE == flags & WRITABLE
    ensures (pa | (flags | PRESENT | h)) & NOEXEC == flags & NOEXEC
  {
  }

  lemma NoAddressBits(flags: bv64, h: bv64)
    requires FlagsOk(flags) && (h == 0 || h == HUGE)
    ensures (flags | PRESENT | h) & ADDR_MASK == 0
  {
  }

  /** What is written is read back: the address whole, and every flag. */
  lemma LeafDecodes(pa: bv64, flags: bv64, huge: bool)
    requires FlagsOk(flags) && AddressOk(pa, 0x1000)
    ensures Decode(LeafWord(pa, flags, huge)) ==
            Fields(true, huge || flags & HUGE != 0, flags & USER != 0, flags & WRITABLE != 0, flags & NOEXEC != 0, pa)
  {
    var h := if huge then HUGE else 0;
    AlignedFits(pa);
    NoAddressBits(flags, h);
    AddressAlone(pa, flags | PRESENT | h);
    FlagsAlone(pa, flags, h);
    assert (flags | HUGE) & HUGE == HUGE && (flags | 0) & HUGE == flags & HUGE;
    hide FlagsOk, AddressOk;
  }

  /** A table is always writable and executable: what a page allows is up to its own entry. */
  lemma TableDecodes(page: bv64, flags: bv64)
    requires AddressOk(page, 0x1000)
    ensures Decode(TableWord(page, flags)) == Fields(true, false, flags & USER != 0, true, false, page)
  {
    var word := TableWord(page, flags);
    assert word & ADDR_MASK == page;
    assert word & USER == flags & USER;
    assert word & PRESENT != 0;
    assert word & HUGE == 0;
    assert word & WRITABLE != 0;
    assert word & NOEXEC == 0;
  }

  /** The wider masks recover the address of a huge page. */
  lemma HugeAddress2M(pa: bv64, bits: bv64)
    requires AddressOk(pa, 0x20_0000) && bits & ADDR_MASK == 0
    ensures (pa | bits) & HUGE_2M_MASK == pa
  {
  }

  lemma HugeAddress1G(pa: bv64, bits: bv64)
    requires AddressOk(pa, 0x4000_0000) && bits & ADDR_MASK == 0
    ensures (pa | bits) & HUGE_1G_MASK == pa
  {
  }

  /** Joining the page offset with `|` adds it. */
  lemma JoinAdds(pa: bv64, offset: bv64)
    ensures pa & 0xfff == 0 && offset < 0x1000 ==> pa | offset == pa + offset
    ensures pa & 0x1f_ffff == 0 && offset < 0x20_0000 ==> pa | offset == pa + offset
    ensures pa & 0x3fff_ffff == 0 && offset < 0x4000_0000 ==> pa | offset == pa + offset
  {
  }

  /** An address is its four table indices and its offset: the walk loses none of the 48 bits. */
  lemma IndicesMakeTheAddress(va: bv64)
    ensures (((va >> 39) & 0x1ff) << 39) | (((va >> 30) & 0x1ff) << 30) | (((va >> 21) & 0x1ff) << 21)
            | (((va >> 12) & 0x1ff) << 12) | (va & 0xfff) == va & 0xffff_ffff_ffff
  {
  }
}
