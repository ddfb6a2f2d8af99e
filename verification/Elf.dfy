/** What the loader accepts of an ELF image (chapters 4 and 5 of the System V gABI). */
module Elf {
  import opened Bytes

  const EHDR_SIZE: nat := 64
  const PHDR_SIZE: nat := 56
  const PT_LOAD: nat := 1
  const USER_MIN: nat := 0x1000
  const USER_MAX: nat := 0x7fff_ffff_ffff

  /** The little-endian 64-bit field at byte `at`. */
  function Read64(s: Block, at: nat): (v: nat)
    requires at + 8 <= |s|
    ensures v < TWO_64
  {
    Read32(s, at) + TWO_32 * Read32(s, at + 4)
  }

  datatype ProgramHeader = ProgramHeader(kind: nat, flags: nat, offset: nat, vaddr: nat, filesz: nat, memsz: nat, align: nat)

  function HeaderAt(image: Block, at: nat): ProgramHeader
    requires at + PHDR_SIZE <= |image|
  {
    ProgramHeader(Read32(image, at), Read32(image, at + 4), Read64(image, at + 8), Read64(image, at + 16),
                  Read64(image, at + 32), Read64(image, at + 40), Read64(image, at + 48))
  }

  /** range_within_image, in 64-bit arithmetic. */
  predicate RangeWithinImage(offset: nat, size: nat, imageSize: nat) {
    size == 0 || (var end := (offset + size - 1) % TWO_64; end >= offset && end < imageSize)
  }

  /** userspace_range_is_valid. */
  predicate UserRangeValid(vaddr: nat, size: nat) {
    size != 0 && vaddr >= USER_MIN && (var end := (vaddr + size - 1) % TWO_64; end >= vaddr && end <= USER_MAX)
  }

  /** Neither check is fooled by a sum that wraps around. */
  lemma RangesAreExact(offset: nat, size: nat, imageSize: nat)
    requires offset < TWO_64 && size < TWO_64 && imageSize < TWO_64
    ensures RangeWithinImage(offset, size, imageSize) <==> size == 0 || offset + size <= imageSize
    ensures UserRangeValid(offset, size) <==> size != 0 && USER_MIN <= offset && offset + size <= USER_MAX + 1
  {
  }

  // ---------- what a valid image is ----------

  predicate IdentOk(image: Block)
    requires EHDR_SIZE <= |image|
  {
    image[0] == 0x7f && image[1] == 'E' as int && image[2] == 'L' as int && image[3] == 'F' as int
    && image[4] == 2 && image[5] == 1 && image[6] == 1
  }

  predicate EhdrOk(image: Block)
    requires EHDR_SIZE <= |image|
  {
    && (Read16(image, 16) == 2 || Read16(image, 16) == 3) && Read16(image, 18) == 62 && Read32(image, 20) == 1
    && Read16(image, 52) == EHDR_SIZE && Read16(image, 54) == PHDR_SIZE && Read16(image, 56) != 0
  }

  /** Byte for byte: the magic, 64 bits, little-endian, version 1; executable or shared object, for x86-64, version 1; and
      the sizes of the two kinds of header, with at least one program header. */
  ghost predicate HeaderBytesOk(image: Block)
    requires EHDR_SIZE <= |image|
  {
    && image[..7] == [0x7f, 'E' as int, 'L' as int, 'F' as int, 2, 1, 1]
    && (image[16..18] == [2, 0] || image[16..18] == [3, 0]) && image[18..20] == [62, 0] && image[20..24] == [1, 0, 0, 0]
    && image[52..54] == [64, 0] && image[54..56] == [56, 0] && image[56..58] != [0, 0]
  }

  lemma HeaderBytes(image: Block)
    requires EHDR_SIZE <= |image|
    ensures IdentOk(image) && EhdrOk(image) <==> HeaderBytesOk(image)
  {
    Word16(image, 16, 2, 0);
    Word16(image, 16, 3, 0);
    Word16(image, 18, 62, 0);
    Word16(image, 52, 64, 0);
    Word16(image, 54, 56, 0);
    Word16(image, 56, 0, 0);
    Word16(image, 20, 1, 0);
    Word16(image, 22, 0, 0);
    assert image[20..24] == image[20..22] + image[22..24];
    assert [1, 0, 0, 0] == [1, 0] + [0, 0];
    assert Read32(image, 20) == 1 <==> Read16(image, 20) == 1 && Read16(image, 22) == 0;
    hide Read16, Read32;
    Seven(image);
  }

  lemma Seven(image: Block)
    requires EHDR_SIZE <= |image|
    ensures IdentOk(image) <==> image[..7] == [0x7f, 'E' as int, 'L' as int, 'F' as int, 2, 1, 1]
  {
    if image[..7] == [0x7f, 'E' as int, 'L' as int, 'F' as int, 2, 1, 1] {
      assert forall k :: 0 <= k < 7 ==> image[k] == image[..7][k];
    }
  }

  lemma Word16(image: Block, at: nat, low: byte, high: byte)
    requires at + 2 <= |image|
    ensures Read16(image, at) == low + 256 * high <==> image[at..at + 2] == [low, high]
  {
    var s := image[at..at + 2];
    assert s[0] == image[at] && s[1] == image[at + 1];
  }

  function Entry(image: Block): nat
    requires EHDR_SIZE <= |image|
  {
    Read64(image, 24)
  }

  function Phoff(image: Block): nat
    requires EHDR_SIZE <= |image|
  {
    Read64(image, 32)
  }

  function Phnum(image: Block): nat
    requires EHDR_SIZE <= |image|
  {
    Read16(image, 56)
  }

  /** The header table lies in the image. */
  ghost predicate TableInside(image: Block) {
    EHDR_SIZE <= |image| && Phoff(image) + PHDR_SIZE * Phnum(image) <= |image|
  }

  function Header(image: Block, i: nat): ProgramHeader
    requires TableInside(image) && i < Phnum(image)
  {
    HeaderAt(image, Phoff(image) + PHDR_SIZE * i)
  }

  predicate IsLoad(ph: ProgramHeader) { ph.kind == PT_LOAD && ph.memsz != 0 }

  /** A segment that can be loaded: its bytes are in the image, its addresses in the user half. */
  ghost predicate SegmentOk(imageSize: nat, ph: ProgramHeader) {
    && ph.filesz <= ph.memsz && (ph.align == 0 || ph.align >= PAGE_SIZE)
    && (ph.filesz == 0 || ph.offset + ph.filesz <= imageSize)
    && USER_MIN <= ph.vaddr && ph.vaddr + ph.memsz <= USER_MAX + 1
  }

  predicate Contains(ph: ProgramHeader, a: nat) { ph.vaddr <= a < ph.vaddr + ph.memsz }

  ghost predicate SegmentsOk(image: Block, n: nat)
    requires TableInside(image) && n <= Phnum(image)
  {
    forall i :: 0 <= i < n && IsLoad(Header(image, i)) ==> SegmentOk(|image|, Header(image, i))
  }

  ghost predicate EntryInside(image: Block, n: nat)
    requires TableInside(image) && n <= Phnum(image)
  {
    exists i :: 0 <= i < n && IsLoad(Header(image, i)) && Contains(Header(image, i), Entry(image))
  }

  ghost predicate ImageOk(image: Block) {
    && EHDR_SIZE <= |image| && HeaderBytesOk(image) && TableInside(image)
    && USER_MIN <= Entry(image) <= USER_MAX
    && SegmentsOk(image, Phnum(image)) && EntryInside(image, Phnum(image))
  }

  lemma NextSegment(image: Block, n: nat)
    requires TableInside(image) && n < Phnum(image)
    ensures var ph := Header(image, n);
            && (SegmentsOk(image, n + 1) <==> SegmentsOk(image, n) && (IsLoad(ph) ==> SegmentOk(|image|, ph)))
            && (EntryInside(image, n + 1) <==> EntryInside(image, n) || (IsLoad(ph) && Contains(ph, Entry(image))))
  {
    hide Header, IsLoad, Contains, SegmentOk, Entry;
    if IsLoad(Header(image, n)) && Contains(Header(image, n), Entry(image)) {
      assert EntryInside(image, n + 1);
    }
  }

  /** One bad segment spoils the image. */
  lemma {:induction false} BadSegment(image: Block, k: nat, n: nat)
    requires TableInside(image) && k <= n <= Phnum(image) && !SegmentsOk(image, k)
    ensures !SegmentsOk(image, n)
  {
    hide Header, SegmentOk;
  }

  /** elf64_validate_user_image accepts exactly the images that are all right. */
  method Validate(image: Block) returns (ok: bool)
    requires |image| < TWO_64
    ensures ok <==> ImageOk(image)
  {
    if |image| < EHDR_SIZE {
      return false;
    }
    HeaderBytes(image);
    HeaderTests(image);
    hide IdentOk, HeaderBytesOk, EhdrOk, Entry, Phoff, Phnum, HeaderAt, RangeWithinImage, UserRangeValid, SegmentOk;
    if !IdentOk(image) || !EhdrOk(image) || !UserRangeValid(Entry(image), 1) {
      return false;
    }
    if !RangeWithinImage(Phoff(image), PHDR_SIZE * Phnum(image), |image|) {
      return false;
    }
    assert SegmentsOk(image, 0) && !EntryInside(image, 0);
    hide SegmentsOk, EntryInside;
    var inSegment := false;
    for i := 0 to Phnum(image)
      invariant SegmentsOk(image, i) && (inSegment <==> EntryInside(image, i))
    {
      var ph := HeaderAt(image, Phoff(image) + PHDR_SIZE * i);
      assert ph == Header(image, i);
      NextSegment(image, i);
      if ph.kind == PT_LOAD && ph.memsz != 0 {
        FieldBounds(image, Phoff(image) + PHDR_SIZE * i);
        SegmentTests(|image|, ph);
        if ph.memsz < ph.filesz || (ph.align != 0 && ph.align < PAGE_SIZE) || !RangeWithinImage(ph.offset, ph.filesz, |image|)
           || !UserRangeValid(ph.vaddr, ph.memsz) {
          BadSegment(image, i + 1, Phnum(image));
          return false;
        }
        if Contains(ph, Entry(image)) {
          inSegment := true;
        }
      }
    }
    return inSegment;
  }

  /** The tests on the file header, in unbounded arithmetic. */
  lemma HeaderTests(image: Block)
    requires EHDR_SIZE <= |image| < TWO_64
    ensures UserRangeValid(Entry(image), 1) <==> USER_MIN <= Entry(image) <= USER_MAX
    ensures EhdrOk(image) ==> Phnum(image) != 0
    ensures EhdrOk(image) ==> (RangeWithinImage(Phoff(image), PHDR_SIZE * Phnum(image), |image|) <==> TableInside(image))
  {
    RangesAreExact(Entry(image), 1, |image|);
    RangesAreExact(Phoff(image), PHDR_SIZE * Phnum(image), |image|);
    hide Read64, Read32, Read16, RangeWithinImage, UserRangeValid, IdentOk;
  }

  /** And those on a segment. */
  lemma SegmentTests(imageSize: nat, ph: ProgramHeader)
    requires ph.offset < TWO_64 && ph.vaddr < TWO_64 && ph.filesz < TWO_64 && ph.memsz < TWO_64 && imageSize < TWO_64
    requires ph.memsz != 0
    ensures SegmentOk(imageSize, ph) <==>
            !(ph.memsz < ph.filesz || (ph.align != 0 && ph.align < PAGE_SIZE) || !RangeWithinImage(ph.offset, ph.filesz, imageSize)
              || !UserRangeValid(ph.vaddr, ph.memsz))
  {
    RangesAreExact(ph.offset, ph.filesz, imageSize);
    RangesAreExact(ph.vaddr, ph.memsz, imageSize);
    hide RangeWithinImage, UserRangeValid;
  }

  lemma FieldBounds(image: Block, at: nat)
    requires at + PHDR_SIZE <= |image|
    ensures var ph := HeaderAt(image, at);
            ph.offset < TWO_64 && ph.vaddr < TWO_64 && ph.filesz < TWO_64 && ph.memsz < TWO_64
  {
  }
}
