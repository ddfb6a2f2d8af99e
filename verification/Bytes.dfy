/** Byte strings and the little-endian 16- and 32-bit fields the on-disk structures are made of. */
module Bytes {
  type byte = x: int | 0 <= x < 256

  type Block = seq<byte>

  const TWO_16: nat := 0x1_0000
  const TWO_32: nat := 0x1_0000_0000
  const TWO_64: nat := 0x1_0000_0000_0000_0000

  /** The size of a page of memory. */
  const PAGE_SIZE: nat := 4096

  datatype Option<+T> = None | Some(value: T)

  function Min(a: int, b: int): int {
    if a < b then a else b
  }

  function Zeros(n: nat): (r: Block)
    ensures |r| == n && forall k :: 0 <= k < n ==> r[k] == 0
  {
    seq(n, _ => 0)
  }

  /** `s` with the bytes from `at` on overwritten by `t` (what memcpy does to its target). */
  function Splice(s: Block, at: nat, t: Block): (r: Block)
    requires at + |t| <= |s|
    ensures |r| == |s|
    ensures forall k :: 0 <= k < |s| ==> r[k] == if at <= k < at + |t| then t[k - at] else s[k]
  {
    s[..at] + t + s[at + |t|..]
  }

  lemma SpliceTwice(s: Block, at: nat, t: Block, u: Block)
    requires at + |t| + |u| <= |s|
    ensures Splice(Splice(s, at, t), at + |t|, u) == Splice(s, at, t + u)
  {
  }

  /** The little-endian 16-bit field at byte `at`. */
  function Read16(s: Block, at: nat): (v: nat)
    requires at + 2 <= |s|
    ensures v < TWO_16
  {
    s[at] as int + 0x100 * (s[at + 1] as int)
  }

  /** The little-endian 32-bit field at byte `at`. */
  function Read32(s: Block, at: nat): (v: nat)
    requires at + 4 <= |s|
    ensures v < TWO_32
  {
    s[at] as int + 0x100 * (s[at + 1] as int) + 0x1_0000 * (s[at + 2] as int) + 0x100_0000 * (s[at + 3] as int)
  }

  function Write16(s: Block, at: nat, v: nat): (r: Block)
    requires at + 2 <= |s| && v < TWO_16
    ensures |r| == |s|
    ensures Read16(r, at) == v
    ensures forall k :: 0 <= k < |s| && !(at <= k < at + 2) ==> r[k] == s[k]
  {
    s[at := v % 0x100][at + 1 := v / 0x100]
  }

  lemma Digits(v: nat)
    requires v < TWO_32
    ensures v / 0x100_0000 < 0x100
    ensures v == v % 0x100 + 0x100 * (v / 0x100 % 0x100) + 0x1_0000 * (v / 0x1_0000 % 0x100) + 0x100_0000 * (v / 0x100_0000)
  {
    assert v / 0x1_0000 == v / 0x100 / 0x100 && v / 0x100_0000 == v / 0x1_0000 / 0x100;
  }

  function Write32(s: Block, at: nat, v: nat): (r: Block)
    requires at + 4 <= |s| && v < TWO_32
    ensures |r| == |s|
    ensures Read32(r, at) == v
    ensures forall k :: 0 <= k < |s| && !(at <= k < at + 4) ==> r[k] == s[k]
  {
    Digits(v);
    s[at := v % 0x100][at + 1 := v / 0x100 % 0x100][at + 2 := v / 0x1_0000 % 0x100][at + 3 := v / 0x100_0000]
  }
}
