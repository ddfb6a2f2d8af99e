/** Resizing and splicing, from block contents to byte sequences. */
module Ext2Bytes {
  import opened Bytes
  import opened Ext2Layout
  import opened Ext2Files

  /** The block and in-block offset of byte `at`, linearised. */
  lemma Split(g: Geometry, at: nat)
    requires g.SizeOk()
    ensures at == at / g.blockSize * g.blockSize + at % g.blockSize && at % g.blockSize < g.blockSize
    ensures BlocksFor(g, at) == at / g.blockSize + if at % g.blockSize == 0 then 0 else 1
  {
  }

  /** Splitting respects the order of bytes. */
  lemma SplitOrder(g: Geometry, a: nat, b: nat)
    requires g.SizeOk()
    requires a < b
    ensures a / g.blockSize < b / g.blockSize
            || (a / g.blockSize == b / g.blockSize && a % g.blockSize < b % g.blockSize)
    ensures a / g.blockSize < BlocksFor(g, b) && BlocksFor(g, a) <= BlocksFor(g, b)
  {
  }

  /** The content after a grow that clears the rest of the old last block. */
  ghost predicate TailCleared(g: Geometry, d0: seq<Block>, m0: BlockMap, size: nat, d1: seq<Block>, m1: BlockMap)
    requires g.blockSize > 0
  {
    && (forall j: nat :: j < g.MaxBlocks() ==>
          |Content(g, d1, m1, j)| == g.blockSize && |Content(g, d0, m0, j)| == g.blockSize)
    && (forall j: nat, r: nat :: j < g.MaxBlocks() && r < g.blockSize ==>
          Content(g, d1, m1, j)[r] ==
          if j == size / g.blockSize && size % g.blockSize <= r && 0 < size % g.blockSize then 0
          else Content(g, d0, m0, j)[r])
  }

  lemma GrownByte(g: Geometry, d0: seq<Block>, m0: BlockMap, size0: nat, d1: seq<Block>, m1: BlockMap, at: nat)
    requires g.SizeOk()
    requires at / g.blockSize < g.MaxBlocks()
    requires ZeroBeyond(g, d0, m0, size0) && TailCleared(g, d0, m0, size0, d1, m1)
    ensures FileByte(g, d1, m1, at) == if at < size0 then FileByte(g, d0, m0, at) else 0
  {
    Split(g, size0);
    Split(g, at);
    if at < size0 {
      SplitOrder(g, at, size0);
    } else if size0 < at {
      SplitOrder(g, size0, at);
    }
    var j, r, size, bs := at / g.blockSize, at % g.blockSize, size0 / g.blockSize, size0 % g.blockSize;
    hide Content, BlocksFor;
    assert Content(g, d1, m1, j)[r] == if j == size && bs <= r && 0 < bs then 0 else Content(g, d0, m0, j)[r];
  }

  /** Growing appends zeros, whatever the old last block held past the end of the file. */
  lemma GrownBytes(g: Geometry, d0: seq<Block>, m0: BlockMap, size0: nat, d1: seq<Block>, m1: BlockMap, size1: nat)
    requires g.SizeOk()
    requires size0 < size1 && BlocksFor(g, size1) <= g.MaxBlocks()
    requires ZeroBeyond(g, d0, m0, size0) && TailCleared(g, d0, m0, size0, d1, m1)
    ensures FileBytes(g, d1, m1, size1) == FileBytes(g, d0, m0, size0) + Zeros(size1 - size0)
  {
    forall at: nat | at < size1
      ensures FileByte(g, d1, m1, at) == if at < size0 then FileByte(g, d0, m0, at) else 0
    {
      SplitOrder(g, at, size1);
      GrownByte(g, d0, m0, size0, d1, m1, at);
    }
    hide FileByte;
  }

  lemma GrownBeyond(g: Geometry, d0: seq<Block>, m0: BlockMap, size0: nat, d1: seq<Block>, m1: BlockMap, size1: nat)
    requires g.SizeOk()
    requires size0 < size1 && ZeroBeyond(g, d0, m0, size0) && TailCleared(g, d0, m0, size0, d1, m1)
    ensures ZeroBeyond(g, d1, m1, size1)
  {
    hide Content;
    forall j: nat | BlocksFor(g, size1) <= j < g.MaxBlocks()
      ensures Content(g, d1, m1, j) == Zeros(g.blockSize)
    {
      SplitOrder(g, size0, size1);
      assert Content(g, d0, m0, j) == Zeros(g.blockSize);
      assert forall r: nat :: r < g.blockSize ==> Content(g, d1, m1, j)[r] == 0;
    }
  }

  /** Shrinking cuts. */
  lemma ShrunkBytes(g: Geometry, d0: seq<Block>, m0: BlockMap, size0: nat, d1: seq<Block>, m1: BlockMap, size1: nat)
    requires g.SizeOk()
    requires size1 <= size0 && BlocksFor(g, size0) <= g.MaxBlocks()
    requires forall j: nat :: j < BlocksFor(g, size1) ==> Content(g, d1, m1, j) == Content(g, d0, m0, j)
    ensures FileBytes(g, d1, m1, size1) == FileBytes(g, d0, m0, size0)[..size1]
  {
    hide Content;
    forall at: nat | at < size1
      ensures FileByte(g, d1, m1, at) == FileByte(g, d0, m0, at)
    {
      SplitOrder(g, at, size1);
    }
  }

  /** Files with the same content and size read the same. */
  lemma SameBytes(g: Geometry, d0: seq<Block>, m0: BlockMap, d1: seq<Block>, m1: BlockMap, size: nat)
    requires g.SizeOk()
    requires SameContent(g, d0, m0, d1, m1) && BlocksFor(g, size) <= g.MaxBlocks()
    ensures FileBytes(g, d1, m1, size) == FileBytes(g, d0, m0, size)
    ensures ZeroBeyond(g, d0, m0, size) ==> ZeroBeyond(g, d1, m1, size)
  {
    hide Content;
    forall at: nat | at < size
      ensures FileByte(g, d1, m1, at) == FileByte(g, d0, m0, at)
    {
      SplitOrder(g, at, size);
    }
  }

  function CutBlock(block: Block, off: nat): Block
    requires off <= |block|
  {
    block[..off] + Zeros(|block| - off)
  }

  /** Clearing the block behind the last slot from the end of the file on, hole or not. */
  lemma ClearedTail(g: Geometry, data: seq<Block>, owner: seq<Owner>, n: nat, m: BlockMap, size: nat)
    requires g.SizeOk()
    requires Holds(g, data, owner, n, m) && 0 < |data| && owner[0].Meta?
    requires forall b :: 0 <= b < |data| ==> |data[b]| == g.blockSize
    requires size % g.blockSize != 0 && BlocksFor(g, size) <= g.MaxBlocks()
    ensures IdAt(g, data, m, size / g.blockSize) < |data|
    ensures var id := IdAt(g, data, m, size / g.blockSize);
            var data' := data[id := CutBlock(data[id], size % g.blockSize)];
            && Holds(g, data', owner, n, m)
            && Touches(if id == 0 then {0, n} else {n}, data, owner, data', owner)
            && SameIds(g, data, m, data', m) && TailCleared(g, data, m, size, data', m)
  {
    var j, off := size / g.blockSize, size % g.blockSize;
    Split(g, size);
    var id := IdAt(g, data, m, j);
    if id != 0 {
      OverwriteSlot(g, data, owner, n, m, j, CutBlock(data[id], off));
    } else {
      OverwriteBlockZero(g, data, owner, n, m, CutBlock(data[0], off));
    }
    hide IdAt;
  }

  function Resized(s: Block, size: nat): Block {
    if size <= |s| then s[..size] else s + Zeros(size - |s|)
  }

  ghost predicate Sized(g: Geometry, data: seq<Block>) {
    forall b :: 0 <= b < |data| ==> |data[b]| == g.blockSize
  }

  lemma SizeLimit(g: Geometry, size: nat)
    requires g.SizeOk()
    ensures size <= g.MaxBlocks() * g.blockSize <==> BlocksFor(g, size) <= g.MaxBlocks()
  {
    if g.blockSize == 1024 {
    } else if g.blockSize == 2048 {
    } else {
    }
  }

  /** A grow: blocks are added behind the end without changing content, then the old tail is cleared. */
  lemma GrowDone(g: Geometry, d0: seq<Block>, m0: BlockMap, size0: nat, d1: seq<Block>, m1: BlockMap, d2: seq<Block>,
                 size1: nat)
    requires g.SizeOk()
    requires Sized(g, d0) && Sized(g, d1) && size0 < size1 && BlocksFor(g, size1) <= g.MaxBlocks()
    requires ZeroBeyond(g, d0, m0, size0) && SameContent(g, d0, m0, d1, m1)
    requires if size0 % g.blockSize == 0 then d2 == d1 else TailCleared(g, d1, m1, size0, d2, m1)
    ensures FileBytes(g, d2, m1, size1) == Resized(FileBytes(g, d0, m0, size0), size1)
    ensures ZeroBeyond(g, d2, m1, size1)
  {
    forall j: nat | j < g.MaxBlocks()
      ensures |Content(g, d0, m0, j)| == g.blockSize && Content(g, d1, m1, j) == Content(g, d0, m0, j)
    {
    }
    hide Content;
    forall j: nat, r: nat | j < g.MaxBlocks() && r < g.blockSize
      ensures Content(g, d2, m1, j)[r] ==
              if j == size0 / g.blockSize && size0 % g.blockSize <= r && 0 < size0 % g.blockSize then 0
              else Content(g, d0, m0, j)[r]
    {
      assert Content(g, d1, m1, j)[r] == Content(g, d0, m0, j)[r];
    }
    GrownBytes(g, d0, m0, size0, d2, m1, size1);
    GrownBeyond(g, d0, m0, size0, d2, m1, size1);
  }

  /** A shrink that unmaps the blocks behind the new end, or a resize within the last block. */
  lemma ShrinkDone(g: Geometry, n: nat, d0: seq<Block>, o0: seq<Owner>, m0: BlockMap, size0: nat,
                   d1: seq<Block>, o1: seq<Owner>, m1: BlockMap, size1: nat)
    requires g.SizeOk()
    requires size1 <= size0 && BlocksFor(g, size0) <= g.MaxBlocks() && ZeroBeyond(g, d0, m0, size0)
    requires if BlocksFor(g, size1) < BlocksFor(g, size0)
             then Unmaps(g, n, BlocksFor(g, size1), g.MaxBlocks(), d0, o0, m0, d1, o1, m1)
             else d1 == d0 && m1 == m0
    ensures BlocksFor(g, size1) <= BlocksFor(g, size0)
    ensures FileBytes(g, d1, m1, size1) == Resized(FileBytes(g, d0, m0, size0), size1)
    ensures ZeroBeyond(g, d1, m1, size1)
  {
    if size1 < size0 {
      SplitOrder(g, size1, size0);
    }
    ShrunkBytes(g, d0, m0, size0, d1, m1, size1);
    if BlocksFor(g, size1) < BlocksFor(g, size0) {
      forall j: nat | BlocksFor(g, size1) <= j < g.MaxBlocks()
        ensures Content(g, d1, m1, j) == Zeros(g.blockSize)
      {
        assert IdAt(g, d1, m1, j) == 0;
      }
    }
  }

  lemma SameQuotient(size: nat, q: nat, r: nat, k: nat)
    requires size > 0 && r < size
    ensures q * size <= k < q * size + size <==> k / size == q
    ensures k / size == q ==> k % size == k - q * size
  {
    var p := k / size;
    assert k == p * size + k % size;
    if p < q { assert (p + 1) * size <= q * size; } else if q < p { assert (q + 1) * size <= p * size; }
  }

  /** Bytes that stay in one block. */
  lemma InChunk(g: Geometry, at: nat, k: nat, len: nat)
    requires g.SizeOk()
    requires at % g.blockSize + len <= g.blockSize
    ensures at <= k < at + len <==>
              k / g.blockSize == at / g.blockSize && at % g.blockSize <= k % g.blockSize < at % g.blockSize + len
    ensures at <= k < at + len ==> k % g.blockSize - at % g.blockSize == k - at
  {
    SameQuotient(g.blockSize, at / g.blockSize, at % g.blockSize, k);
    SameQuotient(g.blockSize, at / g.blockSize, at % g.blockSize, at);
  }

  /** The content after `s` was copied to byte `at`, within one block. */
  ghost predicate ChunkCopied(g: Geometry, d0: seq<Block>, m0: BlockMap, d1: seq<Block>, m1: BlockMap, at: nat, s: Block)
    requires g.blockSize > 0
  {
    forall j: nat :: j < g.MaxBlocks() ==>
      && |Content(g, d0, m0, j)| == g.blockSize && at % g.blockSize + |s| <= g.blockSize
      && Content(g, d1, m1, j) ==
         if j == at / g.blockSize then Splice(Content(g, d0, m0, j), at % g.blockSize, s) else Content(g, d0, m0, j)
  }

  lemma ChunkByte(g: Geometry, d0: seq<Block>, m0: BlockMap, d1: seq<Block>, m1: BlockMap, at: nat, s: Block, k: nat)
    requires g.SizeOk()
    requires ChunkCopied(g, d0, m0, d1, m1, at, s) && k / g.blockSize < g.MaxBlocks()
    ensures FileByte(g, d1, m1, k) == if at <= k < at + |s| then s[k - at] else FileByte(g, d0, m0, k)
  {
    assert |Content(g, d0, m0, k / g.blockSize)| == g.blockSize;
    InChunk(g, at, k, |s|);
    hide Content;
  }

  /** File `size` bytes long, with `s` written at `at`; past the end nothing changed. */
  ghost predicate Wrote(g: Geometry, d0: seq<Block>, m0: BlockMap, d1: seq<Block>, m1: BlockMap, size: nat, at: nat, s: Block)
    requires g.blockSize > 0
  {
    && (forall k: nat :: k < size ==>
          FileByte(g, d1, m1, k) == if at <= k < at + |s| then s[k - at] else FileByte(g, d0, m0, k))
    && (forall j: nat :: BlocksFor(g, size) <= j < g.MaxBlocks() ==> Content(g, d1, m1, j) == Content(g, d0, m0, j))
  }

  /** What a write that fails part way may leave behind: every byte is the old or the new one. */
  ghost predicate PartlyWrote(g: Geometry, d0: seq<Block>, m0: BlockMap, d1: seq<Block>, m1: BlockMap, size: nat, at: nat,
                              s: Block)
    requires g.blockSize > 0
  {
    && (forall k: nat :: k < size ==>
          FileByte(g, d1, m1, k) == FileByte(g, d0, m0, k)
          || (at <= k < at + |s| && FileByte(g, d1, m1, k) == s[k - at]))
    && (forall j: nat :: BlocksFor(g, size) <= j < g.MaxBlocks() ==> Content(g, d1, m1, j) == Content(g, d0, m0, j))
  }

  /** A chunk inside the file is a write of its own. */
  lemma ChunkWrites(g: Geometry, d0: seq<Block>, m0: BlockMap, d1: seq<Block>, m1: BlockMap, at: nat, s: Block, size: nat)
    requires g.SizeOk() && ChunkCopied(g, d0, m0, d1, m1, at, s)
    requires at < size && BlocksFor(g, size) <= g.MaxBlocks()
    ensures Wrote(g, d0, m0, d1, m1, size, at, s)
  {
    SplitOrder(g, at, size);
    forall k: nat | k < size
      ensures FileByte(g, d1, m1, k) == if at <= k < at + |s| then s[k - at] else FileByte(g, d0, m0, k)
    {
      SplitOrder(g, k, size);
      ChunkByte(g, d0, m0, d1, m1, at, s, k);
    }
    hide FileByte, Content;
  }

  /** Writes add up. */
  lemma WroteMore(g: Geometry, d0: seq<Block>, m0: BlockMap, d1: seq<Block>, m1: BlockMap, d2: seq<Block>, m2: BlockMap,
                  size: nat, at: nat, s: Block, t: Block)
    requires g.blockSize > 0 && Wrote(g, d0, m0, d1, m1, size, at, s) && Wrote(g, d1, m1, d2, m2, size, at + |s|, t)
    ensures Wrote(g, d0, m0, d2, m2, size, at, s + t)
  {
    hide FileByte, Content, BlocksFor;
  }

  lemma PartlyWroteStep(g: Geometry, d0: seq<Block>, m0: BlockMap, d1: seq<Block>, m1: BlockMap, d2: seq<Block>,
                        m2: BlockMap, size: nat, at: nat, s: Block, t: Block)
    requires g.SizeOk() && BlocksFor(g, size) <= g.MaxBlocks() && PartlyWrote(g, d0, m0, d1, m1, size, at, s)
    requires SameContent(g, d1, m1, d2, m2) || Wrote(g, d1, m1, d2, m2, size, at + |s|, t)
    ensures PartlyWrote(g, d0, m0, d2, m2, size, at, s + t)
  {
    if SameContent(g, d1, m1, d2, m2) {
      SameWrote(g, d1, m1, d2, m2, size, at);
    }
    hide FileByte, Content, BlocksFor, SameContent;
  }

  lemma SameWrote(g: Geometry, d0: seq<Block>, m0: BlockMap, d1: seq<Block>, m1: BlockMap, size: nat, at: nat)
    requires g.SizeOk() && BlocksFor(g, size) <= g.MaxBlocks() && SameContent(g, d0, m0, d1, m1)
    ensures Wrote(g, d0, m0, d1, m1, size, at, [])
  {
    hide Content;
    forall k: nat | k < size
      ensures FileByte(g, d1, m1, k) == FileByte(g, d0, m0, k)
    {
      SplitOrder(g, k, size);
    }
  }

  lemma WroteNothing(g: Geometry, data: seq<Block>, m: BlockMap, size: nat, at: nat)
    requires g.blockSize > 0
    ensures Wrote(g, data, m, data, m, size, at, []) && PartlyWrote(g, data, m, data, m, size, at, [])
  {
    hide Content, FileByte;
  }

  lemma PartlyWroteMore(g: Geometry, d0: seq<Block>, m0: BlockMap, d1: seq<Block>, m1: BlockMap, size: nat, at: nat,
                        s: Block, t: Block)
    requires g.blockSize > 0 && s <= t && PartlyWrote(g, d0, m0, d1, m1, size, at, s)
    ensures PartlyWrote(g, d0, m0, d1, m1, size, at, t)
  {
    hide Content, FileByte;
  }

  /** The file bytes of a chunk that stays in one block. */
  function ChunkAt(g: Geometry, data: seq<Block>, m: BlockMap, at: nat, len: nat): (s: Block)
    requires g.blockSize > 0
    ensures |s| == len
  {
    seq<byte>(len, i requires 0 <= i => FileByte(g, data, m, at + i))
  }

  lemma ByteOfBlock(g: Geometry, data: seq<Block>, m: BlockMap, at: nat, i: nat)
    requires g.SizeOk()
    requires at % g.blockSize + i < g.blockSize
    requires |Content(g, data, m, at / g.blockSize)| == g.blockSize
    ensures FileByte(g, data, m, at + i) == Content(g, data, m, at / g.blockSize)[at % g.blockSize + i]
  {
    InChunk(g, at, at + i, i + 1);
    hide Content;
  }

  lemma ChunkOfBlock(g: Geometry, data: seq<Block>, m: BlockMap, at: nat, len: nat)
    requires g.SizeOk()
    requires at % g.blockSize + len <= g.blockSize
    requires |Content(g, data, m, at / g.blockSize)| == g.blockSize
    ensures ChunkAt(g, data, m, at, len) ==
            Content(g, data, m, at / g.blockSize)[at % g.blockSize..at % g.blockSize + len]
  {
    hide Content, FileByte;
    var chunk := Content(g, data, m, at / g.blockSize)[at % g.blockSize..at % g.blockSize + len];
    forall i: nat | i < len
      ensures ChunkAt(g, data, m, at, len)[i] == chunk[i]
    {
      ByteOfBlock(g, data, m, at, i);
    }
  }

  lemma ChunkAppend(g: Geometry, data: seq<Block>, m: BlockMap, at: nat, len: nat, more: nat)
    requires g.blockSize > 0
    ensures ChunkAt(g, data, m, at, len) + ChunkAt(g, data, m, at + len, more) == ChunkAt(g, data, m, at, len + more)
  {
    hide FileByte;
  }

  lemma ChunkOfFile(g: Geometry, data: seq<Block>, m: BlockMap, size: nat, at: nat, len: nat)
    requires g.blockSize > 0 && at + len <= size
    ensures FileBytes(g, data, m, size)[at..at + len] == ChunkAt(g, data, m, at, len)
  {
    hide FileByte;
  }

  /** The bytes after writing `s` at `at`: what was before, `s`, and what was behind it. */
  function Overwritten(file: Block, at: nat, s: Block): Block
    requires at <= |file|
  {
    if at + |s| <= |file| then file[..at] + s + file[at + |s|..] else file[..at] + s
  }

  /** A resize to make room followed by a write inside the file. */
  lemma WrittenBytes(g: Geometry, file: Block, d1: seq<Block>, m1: BlockMap, d2: seq<Block>, m2: BlockMap, size: nat,
                     at: nat, s: Block)
    requires g.blockSize > 0 && at <= |file| && at + |s| <= size
    requires FileBytes(g, d1, m1, size) == Resized(file, size) && size == (if at + |s| > |file| then at + |s| else |file|)
    requires Wrote(g, d1, m1, d2, m2, size, at, s)
    ensures FileBytes(g, d2, m2, size) == Overwritten(file, at, s)
    ensures ZeroBeyond(g, d1, m1, size) ==> ZeroBeyond(g, d2, m2, size)
  {
    hide FileByte, Content, BlocksFor;
    forall k: nat | k < size
      ensures FileBytes(g, d2, m2, size)[k] == Overwritten(file, at, s)[k]
    {
      assert FileBytes(g, d1, m1, size)[k] == Resized(file, size)[k];
    }
  }

  /** A byte string each of whose bytes is the old one or the written one. */
  ghost predicate OldOrNew(file: Block, at: nat, s: Block, result: Block) {
    |result| == |file| && forall k :: 0 <= k < |file| ==>
      result[k] == file[k] || (at <= k < at + |s| && result[k] == s[k - at])
  }

  lemma PartlyWrittenBytes(g: Geometry, d1: seq<Block>, m1: BlockMap, d2: seq<Block>, m2: BlockMap, size: nat,
                           at: nat, s: Block)
    requires g.blockSize > 0 && PartlyWrote(g, d1, m1, d2, m2, size, at, s)
    ensures OldOrNew(FileBytes(g, d1, m1, size), at, s, FileBytes(g, d2, m2, size))
    ensures ZeroBeyond(g, d1, m1, size) ==> ZeroBeyond(g, d2, m2, size)
  {
    hide FileByte, Content, BlocksFor;
  }
}
