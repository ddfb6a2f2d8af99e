/** Inodes as byte sequences: the block map, who owns which block, and what leaves a file alone. */
module Ext2Files {
  import opened Bytes
  import opened Ext2Layout

  /** Who a block belongs to. `Data(n, j)` is the j-th data block of inode n. */
  datatype Owner = Free | Meta | Data(ino: nat, index: nat) | Indirect(ino: nat)

  predicate OwnedBy(o: Owner, n: nat) {
    (o.Data? && o.ino == n) || (o.Indirect? && o.ino == n)
  }

  /** The block number the inode maps file block `j` to; 0 is a hole. */
  function IdAt(g: Geometry, data: seq<Block>, m: BlockMap, j: nat): nat {
    if j < DIRECT_BLOCKS then m[j]
    else if j < g.MaxBlocks() && m[12] != 0 then EntryAt(data, m[12], j - DIRECT_BLOCKS)
    else 0
  }

  /** Entry `k` of indirect block `b`, or 0 when there is no such entry. */
  function EntryAt(data: seq<Block>, b: nat, k: nat): nat {
    if b < |data| && 4 * k + 4 <= |data[b]| then Read32(data[b], 4 * k) else 0
  }

  /** What file block `j` reads as. */
  function Content(g: Geometry, data: seq<Block>, m: BlockMap, j: nat): Block {
    var id := IdAt(g, data, m, j);
    if id != 0 && id < |data| then data[id] else Zeros(g.blockSize)
  }

  function BlocksFor(g: Geometry, size: nat): nat
    requires g.blockSize > 0
  {
    (size + g.blockSize - 1) / g.blockSize
  }

  function FileByte(g: Geometry, data: seq<Block>, m: BlockMap, at: nat): byte
    requires g.blockSize > 0
  {
    var c := Content(g, data, m, at / g.blockSize);
    if at % g.blockSize < |c| then c[at % g.blockSize] else 0
  }

  /** The file as a byte sequence. */
  function FileBytes(g: Geometry, data: seq<Block>, m: BlockMap, size: nat): Block
    requires g.blockSize > 0
  {
    seq(size, at requires 0 <= at => FileByte(g, data, m, at))
  }

  /** Inode `n`, seen through the block map `m`, refers only to blocks recorded as its own, each in its own place. */
  ghost predicate Holds(g: Geometry, data: seq<Block>, owner: seq<Owner>, n: nat, m: BlockMap) {
    && |owner| == |data| && 0 < n
    && (m[12] != 0 ==> m[12] < |data| && owner[m[12]] == Indirect(n))
    && forall j: nat :: j < g.MaxBlocks() && IdAt(g, data, m, j) != 0 ==>
         IdAt(g, data, m, j) < |data| && owner[IdAt(g, data, m, j)] == Data(n, j)
  }

  /** Conversely, every block recorded as inode `n`'s own is in its block map, except perhaps `spare`. */
  ghost predicate Tidy(g: Geometry, data: seq<Block>, owner: seq<Owner>, n: nat, m: BlockMap, spare: nat) {
    forall b :: 0 < b < |owner| && b != spare ==>
      && (owner[b].Data? && owner[b].ino == n ==>
            owner[b].index < g.MaxBlocks() && IdAt(g, data, m, owner[b].index) == b)
      && (owner[b] == Indirect(n) ==> m[12] == b)
  }

  ghost predicate SameContent(g: Geometry, data: seq<Block>, m: BlockMap, data': seq<Block>, m': BlockMap) {
    forall j: nat :: j < g.MaxBlocks() ==> Content(g, data', m', j) == Content(g, data, m, j)
  }

  ghost predicate SameIds(g: Geometry, data: seq<Block>, m: BlockMap, data': seq<Block>, m': BlockMap) {
    forall j: nat :: j < g.MaxBlocks() ==> IdAt(g, data', m', j) == IdAt(g, data, m, j)
  }

  /** Blocks past the end of the file are holes or all zero. */
  ghost predicate ZeroBeyond(g: Geometry, data: seq<Block>, m: BlockMap, size: nat)
    requires g.blockSize > 0
  {
    forall j: nat :: BlocksFor(g, size) <= j < g.MaxBlocks() ==> Content(g, data, m, j) == Zeros(g.blockSize)
  }

  /** No holes before the end of the file. */
  ghost predicate Dense(g: Geometry, data: seq<Block>, m: BlockMap, size: nat)
    requires g.blockSize > 0
  {
    forall j: nat :: j < BlocksFor(g, size) ==> IdAt(g, data, m, j) != 0
  }

  /** No blocks behind the end of the file, and no indirect block unless the file reaches it. */
  ghost predicate Trimmed(g: Geometry, data: seq<Block>, m: BlockMap, size: nat)
    requires g.blockSize > 0
  {
    && (forall j: nat :: BlocksFor(g, size) <= j < g.MaxBlocks() ==> IdAt(g, data, m, j) == 0)
    && (BlocksFor(g, size) <= DIRECT_BLOCKS ==> m[12] == 0)
  }

  ghost predicate FileOk(g: Geometry, data: seq<Block>, owner: seq<Owner>, n: nat, m: BlockMap, size: nat)
    requires g.blockSize > 0
  {
    Holds(g, data, owner, n, m) && ZeroBeyond(g, data, m, size) && BlocksFor(g, size) <= g.MaxBlocks()
  }

  /** The bitmap marks exactly the blocks somebody owns; block 0 is nobody's data. */
  ghost predicate OwnerBits(used: seq<bool>, owner: seq<Owner>) {
    && |owner| == |used| && (0 < |owner| ==> owner[0].Meta?)
    && forall b :: 0 <= b < |used| ==>
         && (owner[b].Free? <==> !used[b])
         && (owner[b].Data? || owner[b].Indirect? ==> 0 < owner[b].ino)
  }

  /** From one state to the next, only blocks that are free or belong to an inode in `who` changed content or
      owner, and they are still free or theirs. Metadata blocks stay metadata and keep their bytes, except that
      `0 in who` (there is no inode 0) admits a write to block 0. */
  ghost predicate Touches(who: set<nat>, data: seq<Block>, owner: seq<Owner>, data': seq<Block>, owner': seq<Owner>) {
    && |data| == |owner| == |data'| == |owner'|
    && (forall b :: 0 <= b < |owner| && (owner[b].Data? || owner[b].Indirect?) && owner[b].ino !in who ==>
          owner'[b] == owner[b] && data'[b] == data[b])
    && (forall b :: 0 <= b < |owner| && (owner'[b].Data? || owner'[b].Indirect?) && owner'[b].ino !in who ==>
          owner'[b] == owner[b])
    && (forall b :: 0 <= b < |owner| ==> (owner'[b].Meta? <==> owner[b].Meta?))
    && (forall b :: 0 <= b < |owner| && owner[b].Meta? ==> data'[b] == data[b] || (b == 0 && 0 in who))
  }

  lemma TouchesNothing(who: set<nat>, data: seq<Block>, owner: seq<Owner>)
    requires |data| == |owner|
    ensures Touches(who, data, owner, data, owner)
  {
  }

  lemma TouchesMore(who: set<nat>, more: set<nat>, d0: seq<Block>, o0: seq<Owner>, d1: seq<Block>, o1: seq<Owner>)
    requires Touches(who, d0, o0, d1, o1) && who <= more
    ensures Touches(more, d0, o0, d1, o1)
  {
  }

  lemma TouchesTransitive(who: set<nat>, d0: seq<Block>, o0: seq<Owner>, d1: seq<Block>, o1: seq<Owner>,
                          d2: seq<Block>, o2: seq<Owner>)
    requires Touches(who, d0, o0, d1, o1) && Touches(who, d1, o1, d2, o2)
    ensures Touches(who, d0, o0, d2, o2)
  {
  }

  /** A step on inode `n` that works on the block map `m` while `disk` is still the one in the inode table:
      both stay within the inode's own blocks, both read as before, and nobody else is touched. */
  ghost predicate KeepsContent(g: Geometry, n: nat, data: seq<Block>, owner: seq<Owner>, m: BlockMap, disk: BlockMap,
                               data': seq<Block>, owner': seq<Owner>, m': BlockMap)
  {
    && Touches({n}, data, owner, data', owner')
    && Holds(g, data', owner', n, m') && SameContent(g, data, m, data', m')
    && Holds(g, data', owner', n, disk) && SameContent(g, data, disk, data', disk)
  }

  lemma KeepsContentReflexive(g: Geometry, n: nat, data: seq<Block>, owner: seq<Owner>, m: BlockMap, disk: BlockMap)
    requires Holds(g, data, owner, n, m) && Holds(g, data, owner, n, disk)
    ensures KeepsContent(g, n, data, owner, m, disk, data, owner, m)
  {
  }

  lemma KeepsContentTransitive(g: Geometry, n: nat, disk: BlockMap, d0: seq<Block>, o0: seq<Owner>, m0: BlockMap,
                               d1: seq<Block>, o1: seq<Owner>, m1: BlockMap,
                               d2: seq<Block>, o2: seq<Owner>, m2: BlockMap)
    requires KeepsContent(g, n, d0, o0, m0, disk, d1, o1, m1) && KeepsContent(g, n, d1, o1, m1, disk, d2, o2, m2)
    ensures KeepsContent(g, n, d0, o0, m0, disk, d2, o2, m2)
  {
    hide Content, IdAt;
  }

  /** An inode that nobody touches keeps its block map and its content. */
  lemma UntouchedFile(g: Geometry, who: set<nat>, data: seq<Block>, owner: seq<Owner>, data': seq<Block>,
                      owner': seq<Owner>, n: nat, m: BlockMap)
    requires Touches(who, data, owner, data', owner') && n !in who
    requires Holds(g, data, owner, n, m)
    ensures Holds(g, data', owner', n, m)
    ensures SameIds(g, data, m, data', m) && SameContent(g, data, m, data', m)
  {
    forall j: nat | j < g.MaxBlocks()
      ensures IdAt(g, data', m, j) == IdAt(g, data, m, j)
    {
    }
  }

  /** Changing only free blocks leaves every inode's map and content alone. */
  lemma FreeBlocksFrame(g: Geometry, data: seq<Block>, owner: seq<Owner>, data': seq<Block>, owner': seq<Owner>,
                        n: nat, m: BlockMap)
    requires Holds(g, data, owner, n, m) && OnlyFreeChanged(data, owner, data', owner')
    ensures Holds(g, data', owner', n, m)
    ensures SameIds(g, data, m, data', m) && SameContent(g, data, m, data', m)
  {
    forall j: nat | j < g.MaxBlocks()
      ensures IdAt(g, data', m, j) == IdAt(g, data, m, j)
    {
    }
  }

  ghost predicate OnlyFreeChanged(data: seq<Block>, owner: seq<Owner>, data': seq<Block>, owner': seq<Owner>) {
    && |data| == |owner| == |data'| == |owner'|
    && forall b :: 0 <= b < |owner| && !owner[b].Free? ==> owner'[b] == owner[b] && data'[b] == data[b]
  }

  /** Filling a direct hole with a zeroed block of one's own changes no content. */
  lemma SetDirect(g: Geometry, data: seq<Block>, owner: seq<Owner>, n: nat, m: BlockMap, j: nat, b: nat)
    requires Holds(g, data, owner, n, m) && j < DIRECT_BLOCKS && m[j] == 0
    requires 0 < b < |data| && owner[b] == Data(n, j) && data[b] == Zeros(g.blockSize)
    ensures var m' := m[j := b];
            && Holds(g, data, owner, n, m') && SameContent(g, data, m, data, m')
            && (forall i: nat :: i < g.MaxBlocks() ==>
                  IdAt(g, data, m', i) == if i == j then b else IdAt(g, data, m, i))
  {
    var m' := m[j := b];
    forall i: nat | i < g.MaxBlocks()
      ensures IdAt(g, data, m', i) == if i == j then b else IdAt(g, data, m, i)
    {
    }
  }

  /** Attaching a zeroed indirect block maps nothing new. */
  lemma AttachIndirect(g: Geometry, data: seq<Block>, owner: seq<Owner>, n: nat, m: BlockMap, b: nat)
    requires Holds(g, data, owner, n, m) && m[12] == 0
    requires 0 < b < |data| && owner[b] == Indirect(n) && data[b] == Zeros(g.blockSize)
    ensures var m' := m[12 := b];
            Holds(g, data, owner, n, m') && SameIds(g, data, m, data, m') && SameContent(g, data, m, data, m')
  {
    var m' := m[12 := b];
    forall i: nat | i < g.MaxBlocks()
      ensures IdAt(g, data, m', i) == IdAt(g, data, m, i)
    {
    }
  }

  /** Filling an empty entry of an indirect block with a zeroed block changes no content of any copy of
      the inode, whether or not that copy refers to this indirect block. */
  lemma SetEntry(g: Geometry, data: seq<Block>, owner: seq<Owner>, n: nat, m: BlockMap, ind: nat, k: nat, b: nat)
    requires g.blockSize % 4 == 0 && Holds(g, data, owner, n, m) && k < g.Entries()
    requires 0 < ind < |data| && owner[ind] == Indirect(n) && |data[ind]| == g.blockSize
    requires EntryAt(data, ind, k) == 0
    requires 0 < b < |data| && b < TWO_32 && owner[b] == Data(n, DIRECT_BLOCKS + k) && data[b] == Zeros(g.blockSize)
    ensures var data' := data[ind := Write32(data[ind], 4 * k, b)];
            && Holds(g, data', owner, n, m) && SameContent(g, data, m, data', m)
            && (forall i: nat :: i < g.MaxBlocks() ==>
                  IdAt(g, data', m, i) ==
                  if i == DIRECT_BLOCKS + k && m[12] == ind then b else IdAt(g, data, m, i))
  {
    var data' := data[ind := Write32(data[ind], 4 * k, b)];
    forall i: nat | i < g.MaxBlocks()
      ensures IdAt(g, data', m, i) ==
              if i == DIRECT_BLOCKS + k && m[12] == ind then b else IdAt(g, data, m, i)
    {
      if DIRECT_BLOCKS <= i && m[12] == ind {
        OtherEntry(data[ind], k, i - DIRECT_BLOCKS, b);
      }
    }
  }

  lemma OtherEntry(block: Block, k: nat, i: nat, v: nat)
    requires 4 * k + 4 <= |block| && 4 * i + 4 <= |block| && v < TWO_32
    ensures Read32(Write32(block, 4 * k, v), 4 * i) == if i == k then v else Read32(block, 4 * i)
  {
  }

  /** A step that unmaps exactly the file blocks in [lo, hi) of inode `n`. */
  ghost predicate Unmaps(g: Geometry, n: nat, lo: nat, hi: nat, data: seq<Block>, owner: seq<Owner>, m: BlockMap,
                         data': seq<Block>, owner': seq<Owner>, m': BlockMap)
  {
    && Touches({n}, data, owner, data', owner') && Holds(g, data', owner', n, m')
    && (forall j: nat :: j < g.MaxBlocks() ==>
          IdAt(g, data', m', j) == if lo <= j < hi then 0 else IdAt(g, data, m, j))
    && (forall j: nat :: j < g.MaxBlocks() && !(lo <= j < hi) ==>
          Content(g, data', m', j) == Content(g, data, m, j))
  }

  lemma UnmapsTransitive(g: Geometry, n: nat, lo: nat, mid: nat, hi: nat,
                         d0: seq<Block>, o0: seq<Owner>, m0: BlockMap, d1: seq<Block>, o1: seq<Owner>, m1: BlockMap,
                         d2: seq<Block>, o2: seq<Owner>, m2: BlockMap)
    requires lo <= mid <= hi
    requires Unmaps(g, n, lo, mid, d0, o0, m0, d1, o1, m1) && Unmaps(g, n, mid, hi, d1, o1, m1, d2, o2, m2)
    ensures Unmaps(g, n, lo, hi, d0, o0, m0, d2, o2, m2)
  {
    hide Content, IdAt;
  }

  lemma ClearDirect(g: Geometry, data: seq<Block>, owner: seq<Owner>, n: nat, m: BlockMap, j: nat)
    requires Holds(g, data, owner, n, m) && j < DIRECT_BLOCKS && m[j] != 0
    ensures m[j] < |data| && owner[m[j]] == Data(n, j)
    ensures Unmaps(g, n, j, j + 1, data, owner, m, data, owner[m[j] := Free], m[j := 0])
    ensures Tidy(g, data, owner, n, m, 0) ==> Tidy(g, data, owner[m[j] := Free], n, m[j := 0], 0)
  {
    assert IdAt(g, data, m, j) == m[j];
    var m' := m[j := 0];
    forall i: nat | i < g.MaxBlocks()
      ensures IdAt(g, data, m', i) == if i == j then 0 else IdAt(g, data, m, i)
    {
    }
  }

  lemma ClearEntry(g: Geometry, data: seq<Block>, owner: seq<Owner>, n: nat, m: BlockMap, k: nat)
    requires Holds(g, data, owner, n, m) && k < g.Entries() && m[12] != 0 && |data[m[12]]| == g.blockSize
    requires g.blockSize % 4 == 0
    ensures 4 * k + 4 <= g.blockSize
    ensures var b, j := EntryAt(data, m[12], k), DIRECT_BLOCKS + k;
            b != 0 ==>
              && b < |data| && owner[b] == Data(n, j)
              && Unmaps(g, n, j, j + 1, data, owner, m,
                        data[m[12] := Write32(data[m[12]], 4 * k, 0)], owner[b := Free], m)
              && (Tidy(g, data, owner, n, m, 0) ==>
                    Tidy(g, data[m[12] := Write32(data[m[12]], 4 * k, 0)], owner[b := Free], n, m, 0))
  {
    var b, j := EntryAt(data, m[12], k), DIRECT_BLOCKS + k;
    assert b == IdAt(g, data, m, j);
    if b != 0 {
      var data' := data[m[12] := Write32(data[m[12]], 4 * k, 0)];
      forall i: nat | i < g.MaxBlocks()
        ensures IdAt(g, data', m, i) == if i == j then 0 else IdAt(g, data, m, i)
      {
        if DIRECT_BLOCKS <= i {
          OtherEntry(data[m[12]], k, i - DIRECT_BLOCKS, 0);
        }
      }
    }
  }

  lemma DetachIndirect(g: Geometry, data: seq<Block>, owner: seq<Owner>, n: nat, m: BlockMap)
    requires Holds(g, data, owner, n, m) && m[12] != 0
    requires forall j: nat :: DIRECT_BLOCKS <= j < g.MaxBlocks() ==> IdAt(g, data, m, j) == 0
    ensures Unmaps(g, n, 0, 0, data, owner, m, data, owner[m[12] := Free], m[12 := 0])
    ensures Tidy(g, data, owner, n, m, 0) ==> Tidy(g, data, owner[m[12] := Free], n, m[12 := 0], 0)
  {
    var m' := m[12 := 0];
    forall i: nat | i < g.MaxBlocks()
      ensures IdAt(g, data, m', i) == IdAt(g, data, m, i)
    {
    }
  }

  /** A freshly attached indirect block leaves the books tidy. */
  lemma TidyAttach(g: Geometry, data: seq<Block>, owner: seq<Owner>, data': seq<Block>, n: nat, m: BlockMap,
                   b: nat, spare: nat)
    requires |data| == |owner| && b < |owner| && owner[b] == Free && m[12] == 0
    requires Tidy(g, data, owner, n, m, spare) && SameIds(g, data, m, data', m[12 := b])
    ensures Tidy(g, data', owner[b := Indirect(n)], n, m[12 := b], spare)
  {
    hide IdAt;
  }

  /** So does a data block, first accounted for and then mapped. */
  lemma TidySpare(g: Geometry, data: seq<Block>, owner: seq<Owner>, data': seq<Block>, n: nat, m: BlockMap,
                  o: Owner, b: nat)
    requires |data| == |owner| && b < |owner| && owner[b] == Free
    requires Tidy(g, data, owner, n, m, 0) && SameIds(g, data, m, data', m)
    ensures Tidy(g, data', owner[b := o], n, m, b)
  {
    hide IdAt;
  }

  lemma TidySet(g: Geometry, data: seq<Block>, owner: seq<Owner>, data': seq<Block>, n: nat, m: BlockMap,
                m': BlockMap, j: nat, b: nat)
    requires |data| == |owner| && b < |owner| && owner[b] == Data(n, j) && j < g.MaxBlocks()
    requires Tidy(g, data, owner, n, m, b) && m'[12] == m[12] && IdAt(g, data, m, j) == 0
    requires forall i: nat :: i < g.MaxBlocks() ==> IdAt(g, data', m', i) == if i == j then b else IdAt(g, data, m, i)
    ensures Tidy(g, data', owner, n, m', 0)
  {
    hide IdAt;
  }

  /** Overwriting the block behind one slot changes that slot's content and no other. */
  lemma OverwriteSlot(g: Geometry, data: seq<Block>, owner: seq<Owner>, n: nat, m: BlockMap, j: nat, block: Block)
    requires Holds(g, data, owner, n, m) && j < g.MaxBlocks() && IdAt(g, data, m, j) != 0
    ensures IdAt(g, data, m, j) < |data|
    ensures var data' := data[IdAt(g, data, m, j) := block];
            && Holds(g, data', owner, n, m) && Touches({n}, data, owner, data', owner)
            && SameIds(g, data, m, data', m)
            && (forall i: nat :: i < g.MaxBlocks() ==>
                  Content(g, data', m, i) == if i == j then block else Content(g, data, m, i))
  {
    var data' := data[IdAt(g, data, m, j) := block];
    forall i: nat | i < g.MaxBlocks()
      ensures IdAt(g, data', m, i) == IdAt(g, data, m, i)
    {
    }
  }

  /** Block 0 is never read through a block map, so overwriting it changes no file. */
  lemma OverwriteBlockZero(g: Geometry, data: seq<Block>, owner: seq<Owner>, n: nat, m: BlockMap, block: Block)
    requires Holds(g, data, owner, n, m) && 0 < |data| && owner[0].Meta?
    ensures var data' := data[0 := block];
            && Holds(g, data', owner, n, m) && Touches({0, n}, data, owner, data', owner)
            && SameIds(g, data, m, data', m) && SameContent(g, data, m, data', m)
  {
    var data' := data[0 := block];
    forall i: nat | i < g.MaxBlocks()
      ensures IdAt(g, data', m, i) == IdAt(g, data, m, i)
    {
    }
  }

  /** Every live inode outside `who` is a sound file. */
  ghost predicate FilesOk(g: Geometry, c: Image, owner: seq<Owner>, who: set<nat>)
    requires g.blockSize > 0 && |c.live| == |c.inodes|
  {
    forall n :: 1 <= n < |c.live| && c.live[n] && n !in who ==>
      FileOk(g, c.data, owner, n, c.inodes[n].block, c.inodes[n].size)
  }

  /** Inodes outside `who` are live as before, unchanged, and read as before. */
  ghost predicate OthersSame(g: Geometry, c: Image, c': Image, who: set<nat>) {
    && |c.live| == |c.inodes| == |c'.live| == |c'.inodes|
    && forall n :: 1 <= n < |c.live| && n !in who ==>
         && c'.live[n] == c.live[n]
         && (c.live[n] ==> c'.inodes[n] == c.inodes[n])
         && (c.live[n] ==> SameContent(g, c.data, c.inodes[n].block, c'.data, c.inodes[n].block))
         && (c.live[n] ==> SameIds(g, c.data, c.inodes[n].block, c'.data, c.inodes[n].block))
  }

  lemma OthersSameTransitive(g: Geometry, c0: Image, c1: Image, c2: Image, who: set<nat>)
    requires OthersSame(g, c0, c1, who) && OthersSame(g, c1, c2, who)
    ensures OthersSame(g, c0, c2, who)
  {
    hide Content, IdAt;
  }

  lemma OthersSameMore(g: Geometry, c: Image, c': Image, who: set<nat>, more: set<nat>)
    requires OthersSame(g, c, c', who) && who <= more
    ensures OthersSame(g, c, c', more)
  {
    hide SameContent, SameIds;
  }

  /** A step confined to `who` keeps every other file sound and unchanged. */
  lemma Confined(g: Geometry, c: Image, owner: seq<Owner>, c': Image, owner': seq<Owner>, who: set<nat>)
    requires g.blockSize > 0 && |c.live| == |c.inodes| == |c'.live| == |c'.inodes|
    requires Touches(who, c.data, owner, c'.data, owner') && FilesOk(g, c, owner, who)
    requires forall n :: 1 <= n < |c.live| && n !in who ==>
               c'.live[n] == c.live[n] && (c.live[n] ==> c'.inodes[n] == c.inodes[n])
    ensures FilesOk(g, c', owner', who) && OthersSame(g, c, c', who)
  {
    forall n | 1 <= n < |c.live| && c.live[n] && n !in who
      ensures FileOk(g, c'.data, owner', n, c.inodes[n].block, c.inodes[n].size)
      ensures SameContent(g, c.data, c.inodes[n].block, c'.data, c.inodes[n].block)
      ensures SameIds(g, c.data, c.inodes[n].block, c'.data, c.inodes[n].block)
    {
      assert FileOk(g, c.data, owner, n, c.inodes[n].block, c.inodes[n].size);
      UntouchedFile(g, who, c.data, owner, c'.data, owner', n, c.inodes[n].block);
    }
  }

  lemma TidySameIds(g: Geometry, data: seq<Block>, data': seq<Block>, owner: seq<Owner>, n: nat, m: BlockMap)
    requires Tidy(g, data, owner, n, m, 0) && SameIds(g, data, m, data', m)
    ensures Tidy(g, data', owner, n, m, 0)
  {
    hide IdAt;
  }

  /** The same, for a block map that may or may not refer to the overwritten block. */
  lemma OverwriteOwned(g: Geometry, data: seq<Block>, owner: seq<Owner>, n: nat, m: BlockMap, j: nat, b: nat, block: Block)
    requires Holds(g, data, owner, n, m) && 0 < b < |data| && owner[b] == Data(n, j)
    ensures var data' := data[b := block];
            && Holds(g, data', owner, n, m) && Touches({n}, data, owner, data', owner) && SameIds(g, data, m, data', m)
            && (forall i: nat :: i < g.MaxBlocks() ==>
                  Content(g, data', m, i) == if i == j && IdAt(g, data, m, j) == b then block else Content(g, data, m, i))
  {
    var data' := data[b := block];
    forall i: nat | i < g.MaxBlocks()
      ensures IdAt(g, data', m, i) == IdAt(g, data, m, i)
    {
    }
  }

  /** No block is lost: whatever is accounted to an inode is in the block map of that inode, which is live. */
  ghost predicate NothingLost(g: Geometry, c: Image, owner: seq<Owner>)
    requires |c.live| == |c.inodes|
  {
    && (forall b :: 0 < b < |owner| && (owner[b].Data? || owner[b].Indirect?) ==>
          1 <= owner[b].ino < |c.live| && c.live[owner[b].ino])
    && (forall n :: 1 <= n < |c.live| && c.live[n] ==> Tidy(g, c.data, owner, n, c.inodes[n].block, 0))
  }

  /** A step confined to inode `n` that leaves it tidy loses nothing. */
  lemma StillNothingLost(g: Geometry, c: Image, owner: seq<Owner>, c': Image, owner': seq<Owner>, n: nat, who: set<nat>)
    requires |c.live| == |c.inodes| == |c'.inodes| && c'.live == c.live && who <= {0, n} && 1 <= n < |c.live| && c.live[n]
    requires Touches(who, c.data, owner, c'.data, owner') && OthersSame(g, c, c', {n}) && NothingLost(g, c, owner)
    requires Tidy(g, c'.data, owner', n, c'.inodes[n].block, 0) && OwnerBits(c'.used, owner')
    ensures NothingLost(g, c', owner')
  {
    hide IdAt, Content, SameContent;
    forall i | 1 <= i < |c.live| && c.live[i] && i != n
      ensures Tidy(g, c'.data, owner', i, c'.inodes[i].block, 0)
    {
      assert Tidy(g, c.data, owner, i, c.inodes[i].block, 0);
    }
  }

  lemma TidyInode(g: Geometry, c: Image, owner: seq<Owner>, n: nat)
    requires |c.live| == |c.inodes| && NothingLost(g, c, owner) && 1 <= n < |c.live| && c.live[n]
    ensures Tidy(g, c.data, owner, n, c.inodes[n].block, 0)
  {
  }
}
