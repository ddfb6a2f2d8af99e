/** Looking up, adding and removing directory entries on the volume. */
module Ext2DirOps {
  import opened Bytes
  import opened Ext2Layout
  import opened Ext2Files
  import opened Ext2Bytes
  import opened Ext2Volume
  import opened Ext2Inodes
  import opened Ext2FileOps
  import opened Ext2DirBlocks
  import opened Ext2DirScan
  import opened Ext2DirMap

  predicate NameOk(name: Name) {
    0 < |name| <= MAX_NAME
  }

  lemma BlockStart(g: Geometry, k: nat)
    requires g.SizeOk()
    ensures k * g.blockSize / g.blockSize == k && k * g.blockSize % g.blockSize == 0
    ensures (k + 1) * g.blockSize == k * g.blockSize + g.blockSize
  {
  }

  lemma WholeBlocks(g: Geometry, size: nat)
    requires g.SizeOk() && size % g.blockSize == 0
    ensures size == size / g.blockSize * g.blockSize && BlocksFor(g, size) == size / g.blockSize
  {
  }

  lemma BeforeEnd(g: Geometry, k: nat, size: nat)
    requires g.SizeOk() && size % g.blockSize == 0
    ensures k * g.blockSize < size <==> k < size / g.blockSize
    ensures k * g.blockSize < size ==> k * g.blockSize + g.blockSize <= size
  {
  }

  /** Reads the block of the directory that starts at `offset` into the front of `buffer`. */
  method ReadDirBlock(v: Volume, ghost n: nat, dir: Inode, offset: nat, ghost k: nat, buffer: array<byte>)
    returns (ok: bool, chunk: nat)
    requires v.Valid() && Holds(v.geo, v.data[..], v.owner, n, dir.block) && offset < dir.size
    requires buffer.Length == 4096 && offset == k * v.geo.blockSize
    modifies buffer
    ensures ok && chunk <= 4096 && chunk == Min(dir.size - offset, v.geo.blockSize)
    ensures dir.size % v.geo.blockSize == 0 ==> buffer[..chunk] == Content(v.geo, v.data[..], dir.block, k)
  {
    hide Geometry.GroupsCover, BlockCountersAgree, InodeCountersAgree, Holds, IdAt;
    chunk := Min(dir.size - offset, v.geo.blockSize);
    ok := ReadInodeBytes(v, n, dir, offset, buffer, chunk);
    if dir.size % v.geo.blockSize == 0 {
      BeforeEnd(v.geo, k, dir.size);
      BlockStart(v.geo, k);
      ghost var data := v.data[..];
      ghost var content := Content(v.geo, data, dir.block, k);
      ChunkOfFile(v.geo, data, dir.block, dir.size, offset, chunk);
      assert |content| == v.geo.blockSize;
      ChunkOfBlock(v.geo, data, dir.block, offset, chunk);
      hide Content, FileBytes, ChunkAt, Geometry.SizeOk;
      assert content[0..chunk] == content;
    }
  }

  /** One step of the lookup: the name is in block `k`, or it is in a later one or nowhere. */
  lemma LookupStep(blocks: seq<Block>, k: nat, name: Name)
    requires DirOk(blocks) && k < |blocks|
    ensures name in NamesOf(blocks[k]) ==>
              name in DirNames(blocks, 0) && DirNames(blocks, 0)[name] == NamesOf(blocks[k])[name]
    ensures name !in NamesOf(blocks[k]) ==> (name in DirNames(blocks, k) <==> name in DirNames(blocks, k + 1))
  {
    if name in NamesOf(blocks[k]) {
      DirNamesFrom(blocks, 0, k, name);
    }
  }

  method FindInDir(v: Volume, ghost n: nat, dir: Inode, name: Name) returns (ok: bool, ino: nat)
    requires v.Valid() && Holds(v.geo, v.data[..], v.owner, n, dir.block)
    ensures ok ==> IsDir(dir) && NameOk(name)
    ensures IsDir(dir) && NameOk(name) && DirSound(v.geo, v.data[..], dir.block, dir.size) ==>
              var entries := DirMap(v.geo, v.data[..], dir.block, dir.size);
              (ok <==> name in entries) && (ok ==> ino == entries[name])
  {
    hide Geometry.GroupsCover, BlockCountersAgree, InodeCountersAgree, Holds, Content, DirNames, DirOk, Dense,
      Tiles, Names, Unique;
    ok, ino := false, 0;
    if !IsDir(dir) || |name| == 0 || |name| > MAX_NAME || v.geo.blockSize > 4096 {
      return;
    }
    var buffer := new byte[4096];
    var offset := 0;
    ghost var k := 0;
    ghost var sound, blocks := DirSound(v.geo, v.data[..], dir.block, dir.size), DirBlocks(v.geo, v.data[..], dir.block, dir.size);
    while offset < dir.size
      invariant offset == k * v.geo.blockSize
      invariant sound ==> k <= |blocks| && (name in DirNames(blocks, 0) <==> name in DirNames(blocks, k))
    {
      var chunk;
      ok, chunk := ReadDirBlock(v, n, dir, offset, k, buffer);
      BlockStart(v.geo, k);
      if sound {
        BeforeEnd(v.geo, k, dir.size);
        assert buffer[..chunk] == blocks[k];
        DirBlockOk(blocks, k);
        LookupStep(blocks, k, name);
      }
      var r := FindInBlock(buffer[..chunk], name);
      if r.Hit? {
        return true, r.value;
      } else if r.Malformed? {
        return false, 0;
      }
      offset, k := offset + v.geo.blockSize, k + 1;
    }
    if sound {
      BeforeEnd(v.geo, k, dir.size);
      NoNamesBehind(blocks, k);
    }
    return false, 0;
  }

  lemma DirBlockOk(blocks: seq<Block>, k: nat)
    requires DirOk(blocks) && k < |blocks|
    ensures BlockOk(blocks[k]) && NamesOf(blocks[k]) == Names(blocks[k], 0)
  {
  }

  lemma NoNamesBehind(blocks: seq<Block>, k: nat)
    requires k >= |blocks|
    ensures DirNames(blocks, k) == map[]
  {
  }

  /** Nothing but the directory's own two names. */
  ghost predicate OnlyDots<T>(entries: map<Name, T>) {
    forall x :: x in entries ==> IsDot(x) || IsDotDot(x)
  }

  lemma EmptyStep(blocks: seq<Block>, k: nat)
    requires DirOk(blocks) && k < |blocks|
    ensures OnlyDots(DirNames(blocks, 0)) ==> OnlyDots(NamesOf(blocks[k]))
    ensures OnlyDots(NamesOf(blocks[k])) && OnlyDots(DirNames(blocks, k + 1)) ==> OnlyDots(DirNames(blocks, k))
  {
    forall x | x in NamesOf(blocks[k])
      ensures x in DirNames(blocks, 0)
    {
      DirNamesFrom(blocks, 0, k, x);
    }
  }

  lemma InosDots(entries: map<Name, Rec>)
    ensures OnlyDots(Inos(entries)) <==> OnlyDots(entries)
  {
    assert Inos(entries).Keys == entries.Keys;
  }

  /** dir_is_empty. */
  method DirIsEmpty(v: Volume, ghost n: nat, dir: Inode) returns (empty: bool)
    requires v.Valid() && Holds(v.geo, v.data[..], v.owner, n, dir.block)
    ensures empty ==> IsDir(dir)
    ensures IsDir(dir) && DirSound(v.geo, v.data[..], dir.block, dir.size) ==>
              (empty <==> OnlyDots(DirMap(v.geo, v.data[..], dir.block, dir.size)))
  {
    hide Geometry.GroupsCover, BlockCountersAgree, InodeCountersAgree, Holds, Content, DirNames, DirOk, Dense,
      Tiles, Names, Unique, OnlyDots, Inos;
    if !IsDir(dir) || v.geo.blockSize > 4096 {
      return false;
    }
    var buffer := new byte[4096];
    var offset := 0;
    ghost var k := 0;
    ghost var sound, blocks := DirSound(v.geo, v.data[..], dir.block, dir.size), DirBlocks(v.geo, v.data[..], dir.block, dir.size);
    InosDots(DirRecords(v.geo, v.data[..], dir.block, dir.size));
    while offset < dir.size
      invariant offset == k * v.geo.blockSize
      invariant sound ==> k <= |blocks| && (OnlyDots(DirNames(blocks, 0)) <== OnlyDots(DirNames(blocks, k)))
    {
      var ok, chunk := ReadDirBlock(v, n, dir, offset, k, buffer);
      BlockStart(v.geo, k);
      if sound {
        BeforeEnd(v.geo, k, dir.size);
        assert buffer[..chunk] == blocks[k];
        DirBlockOk(blocks, k);
        EmptyStep(blocks, k);
      }
      var r := BlockIsEmpty(buffer[..chunk]);
      if !r.Hit? || !r.value {
        OnlyDotsIs(NamesOf(buffer[..chunk]));
        return false;
      }
      OnlyDotsIs(NamesOf(buffer[..chunk]));
      offset, k := offset + v.geo.blockSize, k + 1;
    }
    if sound {
      BeforeEnd(v.geo, k, dir.size);
      NoNamesBehind(blocks, k);
      OnlyDotsIs<Rec>(map[]);
    }
    return true;
  }

  lemma OnlyDotsIs<T>(entries: map<Name, T>)
    ensures OnlyDots(entries) <==> forall x :: x in entries ==> IsDot(x) || IsDotDot(x)
  {
  }

  // ---------- adding ----------

  /** The block add_dir_entry starts when no block has room: one record as long as the block. */
  function FreshBlock(size: nat, ino: nat, name: Name, fileType: byte): (r: Block)
    requires NameOk(name) && 0 < ino < TWO_32 && 1024 <= size <= 4096
    ensures |r| == size
  {
    PutEntry(Write16(Zeros(size), 4, size), 0, ino, name, fileType)
  }

  lemma FreshBlockOk(size: nat, ino: nat, name: Name, fileType: byte)
    requires NameOk(name) && 0 < ino < TWO_32 && 1024 <= size <= 4096
    ensures var b := FreshBlock(size, ino, name, fileType);
            BlockOk(b) && NamesOf(b) == map[name := Rec(ino, fileType)] && AllLive(b, 0)
  {
    var b := FreshBlock(size, ino, name, fileType);
    hide PutEntry, Write16;
    assert RecOk(b, 0) && RecLen(b, 0) == size && RecName(b, 0) == name;
    assert Tiles(b, 0 + RecLen(b, 0)) && Unique(b, 0 + RecLen(b, 0)) && AllLive(b, 0 + RecLen(b, 0));
    assert Tiles(b, 0) && Unique(b, 0);
    assert Names(b, 0) == map[][name := Rec(ino, fileType)];
  }

  /** Directory content after its block `j` was replaced, or a block was put behind the last one. */
  lemma DirBlocksReplaced(g: Geometry, d0: seq<Block>, m0: BlockMap, size: nat, d1: seq<Block>, m1: BlockMap, j: nat, b: Block)
    requires g.SizeOk() && size % g.blockSize == 0 && j < size / g.blockSize <= g.MaxBlocks()
    requires forall i: nat :: i < g.MaxBlocks() ==>
               Content(g, d1, m1, i) == if i == j then b else Content(g, d0, m0, i)
    ensures j < |DirBlocks(g, d0, m0, size)|
    ensures DirBlocks(g, d1, m1, size) == DirBlocks(g, d0, m0, size)[j := b]
  {
    hide Content;
  }

  lemma DirBlocksAppended(g: Geometry, d0: seq<Block>, m0: BlockMap, size: nat, d1: seq<Block>, m1: BlockMap, b: Block)
    requires g.SizeOk() && size % g.blockSize == 0 && size / g.blockSize < g.MaxBlocks()
    requires forall i: nat :: i < g.MaxBlocks() ==>
               Content(g, d1, m1, i) == if i == size / g.blockSize then b else Content(g, d0, m0, i)
    ensures DirBlocks(g, d1, m1, size + g.blockSize) == DirBlocks(g, d0, m0, size) + [b]
    ensures (size + g.blockSize) % g.blockSize == 0
  {
    BlockStart(g, size / g.blockSize + 1);
    WholeBlocks(g, size);
    hide Content, Geometry.SizeOk;
  }

  /** Directory `n` as it stands on the volume. */
  ghost predicate DirectoryAt(v: Volume, n: nat)
    reads v, v.groups, v.blockUsed, v.inodeUsed, v.inodes, v.data
  {
    && v.Sound() && v.Live(n) && IsDir(v.inodes[n])
    && DirSound(v.geo, v.data[..], v.inodes[n].block, v.inodes[n].size)
  }

  ghost function RecordsOf(v: Volume, n: nat): map<Name, Rec>
    requires DirectoryAt(v, n)
    reads v, v.groups, v.blockUsed, v.inodeUsed, v.inodes, v.data
  {
    DirRecords(v.geo, v.data[..], v.inodes[n].block, v.inodes[n].size)
  }

  ghost function EntriesOf(v: Volume, n: nat): map<Name, nat>
    requires DirectoryAt(v, n)
    reads v, v.groups, v.blockUsed, v.inodeUsed, v.inodes, v.data
  {
    DirMap(v.geo, v.data[..], v.inodes[n].block, v.inodes[n].size)
  }

  /** The block of a directory behind file block `j`. */
  lemma DirBlockAt(g: Geometry, data: seq<Block>, owner: seq<Owner>, n: nat, m: BlockMap, size: nat, j: nat)
    requires g.SizeOk() && FileOk(g, data, owner, n, m, size) && DirSound(g, data, m, size) && j < size / g.blockSize
    ensures IdAt(g, data, m, j) != 0 && IdAt(g, data, m, j) < |data| && j < g.MaxBlocks()
    ensures data[IdAt(g, data, m, j)] == DirBlocks(g, data, m, size)[j] && BlockOk(data[IdAt(g, data, m, j)])
    ensures DirOk(DirBlocks(g, data, m, size))
    ensures forall x :: x in Names(data[IdAt(g, data, m, j)], 0) ==> x in DirMap(g, data, m, size)
  {
    WholeBlocks(g, size);
    var blocks := DirBlocks(g, data, m, size);
    hide IdAt;
    assert IdAt(g, data, m, j) != 0;
    assert blocks[j] == Content(g, data, m, j);
    hide Content;
    DirBlockOk(blocks, j);
    forall x | x in NamesOf(blocks[j])
      ensures x in DirNames(blocks, 0)
    {
      DirNamesFrom(blocks, 0, j, x);
    }
  }

  /** Overwriting block `j` of a sound directory keeps it a sound file of the same shape. */
  lemma DirBlockReplaced(g: Geometry, data: seq<Block>, owner: seq<Owner>, n: nat, m: BlockMap, size: nat, j: nat, b: Block)
    requires g.SizeOk() && FileOk(g, data, owner, n, m, size) && DirSound(g, data, m, size) && j < size / g.blockSize
    ensures IdAt(g, data, m, j) < |data| && j < |DirBlocks(g, data, m, size)|
    ensures var data' := data[IdAt(g, data, m, j) := b];
            && FileOk(g, data', owner, n, m, size) && Touches({n}, data, owner, data', owner)
            && SameIds(g, data, m, data', m) && Dense(g, data', m, size)
            && DirBlocks(g, data', m, size) == DirBlocks(g, data, m, size)[j := b]
  {
    DirBlockAt(g, data, owner, n, m, size, j);
    WholeBlocks(g, size);
    OverwriteSlot(g, data, owner, n, m, j, b);
    var data' := data[IdAt(g, data, m, j) := b];
    hide IdAt, DirOk, Touches;
    DirBlocksReplaced(g, data, m, size, data', m, j, b);
    hide Content;
  }

  lemma EntryAdded(g: Geometry, data: seq<Block>, owner: seq<Owner>, n: nat, m: BlockMap, size: nat, j: nat, b: Block,
                   name: Name, entry: Rec)
    requires g.SizeOk() && FileOk(g, data, owner, n, m, size) && DirSound(g, data, m, size) && j < size / g.blockSize
    requires IdAt(g, data, m, j) < |data| && Added(data[IdAt(g, data, m, j)], b, name, entry)
    requires name !in DirMap(g, data, m, size)
    ensures var data' := data[IdAt(g, data, m, j) := b];
            && FileOk(g, data', owner, n, m, size) && Touches({n}, data, owner, data', owner)
            && SameIds(g, data, m, data', m) && DirSound(g, data', m, size)
            && DirRecords(g, data', m, size) == DirRecords(g, data, m, size)[name := entry]
            && DirMap(g, data', m, size) == DirMap(g, data, m, size)[name := entry.ino]
  {
    DirBlockAt(g, data, owner, n, m, size, j);
    DirBlockReplaced(g, data, owner, n, m, size, j, b);
    hide IdAt, Content, Touches, DirOk, DirBlocks, FileOk, Added, Dense, SameIds;
    DirAdd(DirBlocks(g, data, m, size), j, b, name, entry);
    InosPut(DirRecords(g, data, m, size), name, entry);
  }

  /** With one block more a file without holes is a file without holes. */
  lemma BlockAppended(g: Geometry, d0: seq<Block>, m0: BlockMap, d2: seq<Block>, m1: BlockMap, owner: seq<Owner>, n: nat,
                      size: nat, b: Block)
    requires g.SizeOk() && size % g.blockSize == 0 && size / g.blockSize < g.MaxBlocks() && |b| == g.blockSize
    requires Dense(g, d0, m0, size) && ZeroBeyond(g, d0, m0, size) && Holds(g, d2, owner, n, m1)
    requires forall i: nat :: i < g.MaxBlocks() ==>
               Content(g, d2, m1, i) == if i == size / g.blockSize then b else Content(g, d0, m0, i)
    requires IdAt(g, d2, m1, size / g.blockSize) != 0
    requires forall i: nat :: i < size / g.blockSize ==> IdAt(g, d2, m1, i) == IdAt(g, d0, m0, i)
    ensures FileOk(g, d2, owner, n, m1, size + g.blockSize) && Dense(g, d2, m1, size + g.blockSize)
    ensures (size + g.blockSize) % g.blockSize == 0
  {
    var j := size / g.blockSize;
    WholeBlocks(g, size);
    BlockStart(g, j + 1);
    BlockStart(g, j);
    WholeBlocks(g, size + g.blockSize);
    hide IdAt, Content, Holds;
  }

  /** A directory that grew by one zeroed block, filled with a single record. */
  lemma EntryAppended(g: Geometry, d0: seq<Block>, m0: BlockMap, d1: seq<Block>, m1: BlockMap, owner: seq<Owner>, n: nat,
                      size: nat, b: Block, name: Name, entry: Rec)
    requires g.SizeOk() && DirSound(g, d0, m0, size) && ZeroBeyond(g, d0, m0, size) && size / g.blockSize < g.MaxBlocks()
    requires Holds(g, d1, owner, n, m1) && SameContent(g, d0, m0, d1, m1)
    requires IdAt(g, d1, m1, size / g.blockSize) != 0 && Sized(g, d1) && |b| == g.blockSize
    requires forall i: nat :: i < size / g.blockSize ==> IdAt(g, d1, m1, i) == IdAt(g, d0, m0, i)
    requires BlockOk(b) && NamesOf(b) == map[name := entry] && name !in DirMap(g, d0, m0, size)
    ensures IdAt(g, d1, m1, size / g.blockSize) < |d1|
    ensures var d2 := d1[IdAt(g, d1, m1, size / g.blockSize) := b];
            && FileOk(g, d2, owner, n, m1, size + g.blockSize) && Touches({n}, d1, owner, d2, owner)
            && SameIds(g, d1, m1, d2, m1) && DirSound(g, d2, m1, size + g.blockSize)
            && DirRecords(g, d2, m1, size + g.blockSize) == DirRecords(g, d0, m0, size)[name := entry]
            && DirMap(g, d2, m1, size + g.blockSize) == DirMap(g, d0, m0, size)[name := entry.ino]
  {
    var j := size / g.blockSize;
    OverwriteSlot(g, d1, owner, n, m1, j, b);
    var d2 := d1[IdAt(g, d1, m1, j) := b];
    hide IdAt, Content, Touches, DirOk, DirBlocks, BlockOk, NamesOf, Sized, Dense, ZeroBeyond, FileOk, Holds;
    BlockAppended(g, d0, m0, d2, m1, owner, n, size, b);
    DirBlocksAppended(g, d0, m0, size, d2, m1, b);
    DirAppend(DirBlocks(g, d0, m0, size), b, name, entry);
    InosPut(DirRecords(g, d0, m0, size), name, entry);
  }

  ghost predicate BlockFull(b: Block, nameLen: nat) {
    Tiles(b, 0) && Full(b, 0, nameLen)
  }

  /** No record of the directory has room for a name of this length. */
  ghost predicate NoRoom(blocks: seq<Block>, nameLen: nat) {
    forall i :: 0 <= i < |blocks| ==> BlockFull(blocks[i], nameLen)
  }

  /** The first-fit part of add_dir_entry: fills the first record with room, if any block has one. */
  method AddToBlocks(v: Volume, n: nat, dir: Inode, child: nat, name: Name, fileType: byte, blocks: nat)
    returns (r: Scan<nat>, diskBlock: nat)
    requires DirectoryAt(v, n) && dir == v.inodes[n] && NameOk(name) && 0 < child < TWO_32
    requires name !in EntriesOf(v, n) && blocks == dir.size / v.geo.blockSize
    modifies v, v.groups, v.blockUsed, v.data
    ensures v.Valid() && v.Tracked() && v.owner == old(v.owner) && v.freeBlocks == old(v.freeBlocks) && !r.Malformed?
    ensures r.Miss? ==> v.Now() == old(v.Now())
    ensures r.Miss? <==> NoRoom(DirBlocks(v.geo, old(v.data[..]), dir.block, dir.size), |name|)
    ensures r.Hit? ==>
              && r.value < blocks <= v.geo.MaxBlocks() && diskBlock < v.data.Length
              && diskBlock == IdAt(v.geo, old(v.data[..]), dir.block, r.value)
              && v.Now() == old(v.Now()).(data := old(v.data[..])[diskBlock := v.data[diskBlock]])
              && Added(old(v.data[..])[diskBlock], v.data[diskBlock], name, Rec(child, fileType))
    ensures DirCounts(v.groups[..]) == old(DirCounts(v.groups[..]))
  {
    hide Geometry.GroupsCover, BlockCountersAgree, InodeCountersAgree, Holds, Content, DirNames, DirOk, Dense, IdAt,
      Tiles, Names, Unique, AllLive, OwnerBits, Added, Touches, Full, DirCounts;
    ghost var data0 := v.data[..];
    assert FileOk(v.geo, data0, v.owner, n, dir.block, dir.size);
    diskBlock := 0;
    for fileBlock := 0 to blocks
      invariant v.Valid() && v.Tracked() && v.Now() == old(v.Now()) && v.owner == old(v.owner)
      invariant v.freeBlocks == old(v.freeBlocks) && DirCounts(v.groups[..]) == old(DirCounts(v.groups[..]))
      invariant forall i :: 0 <= i < fileBlock ==> BlockFull(DirBlocks(v.geo, data0, dir.block, dir.size)[i], |name|)
    {
      DirBlockAt(v.geo, data0, v.owner, n, dir.block, dir.size, fileBlock);
      var ok, same;
      ok, same, diskBlock := EnsureFileBlock(v, n, dir.block, dir, fileBlock);
      var added := AddToBlock(v.data[diskBlock], child, name, fileType);
      if added.Hit? {
        v.data[diskBlock] := added.value;
        assert v.data[..] == data0[diskBlock := added.value];
        return Hit(fileBlock), diskBlock;
      }
    }
    return Miss, 0;
  }

  /** A directory that reads the same maps the same names. */
  lemma SameDir(g: Geometry, d0: seq<Block>, d1: seq<Block>, owner: seq<Owner>, n: nat, m: BlockMap, size: nat)
    requires g.SizeOk() && DirSound(g, d0, m, size) && BlocksFor(g, size) <= g.MaxBlocks() && ZeroBeyond(g, d0, m, size)
    requires SameContent(g, d0, m, d1, m) && SameIds(g, d0, m, d1, m) && Holds(g, d1, owner, n, m)
    ensures DirSound(g, d1, m, size) && DirMap(g, d1, m, size) == DirMap(g, d0, m, size)
    ensures DirRecords(g, d1, m, size) == DirRecords(g, d0, m, size)
    ensures FileOk(g, d1, owner, n, m, size)
  {
    WholeBlocks(g, size);
    hide Content, IdAt, DirOk, DirNames;
    assert DirBlocks(g, d1, m, size) == DirBlocks(g, d0, m, size);
  }

  /** There is room for one more file block, and a block (or two) to put there. */
  predicate CanGrow(g: Geometry, data: seq<Block>, m: BlockMap, j: nat, freeBlocks: nat) {
    IdAt(g, data, m, j) != 0 || (j < g.MaxBlocks() && freeBlocks >= BlocksNeeded(m, j))
  }

  lemma SoundDirSize(g: Geometry, data: seq<Block>, m: BlockMap, size: nat)
    requires g.SizeOk() && DirSound(g, data, m, size)
    ensures 1024 <= g.blockSize <= 4096 && size % g.blockSize == 0
  {
  }

  /** Fills the zeroed block `diskBlock`, just mapped behind the end of directory `n`, and writes the inode back. */
  method StoreFresh(v: Volume, n: nat, ghost c: Image, ghost owner: seq<Owner>, dir: Inode, grown: Inode,
                    diskBlock: nat, child: nat, name: Name, fileType: byte)
    returns (dir': Inode)
    requires v.Valid() && v.Tracked() && |c.live| == |c.inodes| && c.live == v.inodeUsed[..] && c.inodes == v.inodes[..]
    requires 1 <= n <= v.geo.inodesCount && c.live[n] && dir == c.inodes[n] && NameOk(name) && 0 < child < TWO_32
    requires FilesOk(v.geo, c, owner, {}) && DirSound(v.geo, c.data, dir.block, dir.size)
    requires name !in DirMap(v.geo, c.data, dir.block, dir.size) && dir.size / v.geo.blockSize < v.geo.MaxBlocks()
    requires Touches({n}, c.data, owner, v.data[..], v.owner) && Holds(v.geo, v.data[..], v.owner, n, grown.block)
    requires SameContent(v.geo, c.data, dir.block, v.data[..], grown.block)
    requires diskBlock == IdAt(v.geo, v.data[..], grown.block, dir.size / v.geo.blockSize) && diskBlock != 0
    requires forall i: nat :: i < dir.size / v.geo.blockSize ==>
               IdAt(v.geo, v.data[..], grown.block, i) == IdAt(v.geo, c.data, dir.block, i)
    modifies v.inodes, v.data
    ensures v.Sound() && OthersSame(v.geo, c, v.Now(), {n})
    ensures DirSound(v.geo, v.data[..], dir'.block, dir'.size)
    ensures DirRecords(v.geo, v.data[..], dir'.block, dir'.size) ==
            DirRecords(v.geo, c.data, dir.block, dir.size)[name := Rec(child, fileType)]
    ensures DirMap(v.geo, v.data[..], dir'.block, dir'.size) == DirMap(v.geo, c.data, dir.block, dir.size)[name := child]
    ensures dir' == v.inodes[n] == grown.(size := dir.size + v.geo.blockSize, blocks := dir'.blocks)
    ensures CountOk(v.geo, v.data[..], dir')
    ensures Touches({n}, c.data, owner, v.data[..], v.owner)
    ensures Tidy(v.geo, old(v.data[..]), v.owner, n, grown.block, 0) ==> Tidy(v.geo, v.data[..], v.owner, n, grown.block, 0)
  {
    hide Geometry.GroupsCover, BlockCountersAgree, InodeCountersAgree, Content, DirNames, DirOk, DirBlocks, IdAt,
      DirMap, DirRecords, Tidy, CountIds, Touches, SameContent, ZeroBeyond, Dense, SectorCount, BlockOk, NamesOf, FreshBlock,
      SameIds, BlocksFor, OwnerBits, DirSound, Tiles, Names, Geometry.SizeOk;
    SoundDirSize(v.geo, c.data, dir.block, dir.size);
    assert FileOk(v.geo, c.data, owner, n, dir.block, dir.size);
    ghost var d1, b := v.data[..], FreshBlock(v.geo.blockSize, child, name, fileType);
    FreshBlockOk(v.geo.blockSize, child, name, fileType);
    WholeBlocks(v.geo, dir.size);
    BlockStart(v.geo, dir.size / v.geo.blockSize);
    EntryAppended(v.geo, c.data, dir.block, d1, grown.block, v.owner, n, dir.size, b, name, Rec(child, fileType));
    v.data[diskBlock] := FreshBlock(v.geo.blockSize, child, name, fileType);
    assert v.data[..] == d1[diskBlock := b];
    TouchesTransitive({n}, c.data, owner, d1, v.owner, v.data[..], v.owner);
    if Tidy(v.geo, d1, v.owner, n, grown.block, 0) {
      TidySameIds(v.geo, d1, v.data[..], v.owner, n, grown.block);
    }
    dir' := grown.(size := (dir.size / v.geo.blockSize + 1) * v.geo.blockSize);
    dir' := UpdateInodeBlockCount(v, dir');
    var ok := v.WriteInode(n, dir');
    Written(v.geo, c, owner, v.Now(), v.owner, n, {n});
  }

  /** The part of add_dir_entry that starts a new block. */
  method GrowDir(v: Volume, n: nat, dir: Inode, child: nat, name: Name, fileType: byte) returns (ok: bool, dir': Inode)
    requires DirectoryAt(v, n) && dir == v.inodes[n] && NameOk(name) && 0 < child < TWO_32
    requires name !in EntriesOf(v, n)
    modifies v, v.groups, v.blockUsed, v.inodes, v.data
    ensures DirectoryAt(v, n) && OthersSame(v.geo, old(v.Now()), v.Now(), {n})
    ensures ok <==> CanGrow(v.geo, old(v.data[..]), dir.block, dir.size / v.geo.blockSize, old(v.freeBlocks))
    ensures RecordsOf(v, n) == if ok then old(RecordsOf(v, n))[name := Rec(child, fileType)] else old(RecordsOf(v, n))
    ensures v.inodes[n].mode == dir.mode && v.inodes[n].links == dir.links && (ok ==> v.inodes[n] == dir')
    ensures Touches({n}, old(v.data[..]), old(v.owner), v.data[..], v.owner)
    ensures NothingLost(v.geo, old(v.Now()), old(v.owner)) ==> NothingLost(v.geo, v.Now(), v.owner)
    ensures Counted(v.geo, old(v.Now())) ==> Counted(v.geo, v.Now())
    ensures DirCounts(v.groups[..]) == old(DirCounts(v.groups[..]))
  {
    hide Geometry.GroupsCover, BlockCountersAgree, InodeCountersAgree, Content, DirNames, DirOk, DirBlocks, IdAt,
      DirMap, Tidy, NothingLost, CountIds, Touches, Counted, SectorCount;
    ghost var c, owner := v.Now(), v.owner;
    assert FileOk(v.geo, c.data, owner, n, dir.block, dir.size);
    WholeBlocks(v.geo, dir.size);
    var diskBlock;
    ok, dir', diskBlock := EnsureFileBlock(v, n, dir.block, dir, dir.size / v.geo.blockSize);
    if !ok {
      SameDir(v.geo, c.data, v.data[..], v.owner, n, dir.block, dir.size);
      Written(v.geo, c, owner, v.Now(), v.owner, n, {n});
    } else {
      dir' := StoreFresh(v, n, c, owner, dir, dir', diskBlock, child, name, fileType);
    }
    if NothingLost(v.geo, c, owner) {
      TidyInode(v.geo, c, owner, n);
      if !ok { TidySameIds(v.geo, c.data, v.data[..], v.owner, n, dir.block); }
      StillNothingLost(v.geo, c, owner, v.Now(), v.owner, n, {n});
    }
    if Counted(v.geo, c) {
      if !ok { SameSectors(v.geo, c.data, dir.block, v.data[..], dir.block); }
      CountOfInode(v.geo, c, n);
      CountedAt(v.geo, c, v.Now(), n);
    }
  }

  /** add_dir_entry: fails only for an empty or overlong name, or when no record has room and the directory cannot grow. */
  method AddDirEntry(v: Volume, n: nat, dir: Inode, child: nat, name: Name, fileType: byte) returns (ok: bool, dir': Inode)
    requires DirectoryAt(v, n) && dir == v.inodes[n] && 0 < child < TWO_32
    requires name !in EntriesOf(v, n)
    modifies v, v.groups, v.blockUsed, v.inodes, v.data
    ensures DirectoryAt(v, n) && OthersSame(v.geo, old(v.Now()), v.Now(), {n})
    ensures ok <==> NameOk(name) &&
                    (!NoRoom(old(DirBlocks(v.geo, v.data[..], dir.block, dir.size)), |name|)
                     || CanGrow(v.geo, old(v.data[..]), dir.block, dir.size / v.geo.blockSize, old(v.freeBlocks)))
    ensures !NameOk(name) ==> v.Now() == old(v.Now()) && v.owner == old(v.owner) && v.freeBlocks == old(v.freeBlocks)
    ensures RecordsOf(v, n) == if ok then old(RecordsOf(v, n))[name := Rec(child, fileType)] else old(RecordsOf(v, n))
    ensures v.inodes[n].mode == dir.mode && v.inodes[n].links == dir.links && (ok ==> v.inodes[n] == dir')
    ensures Touches({n}, old(v.data[..]), old(v.owner), v.data[..], v.owner)
    ensures NothingLost(v.geo, old(v.Now()), old(v.owner)) ==> NothingLost(v.geo, v.Now(), v.owner)
    ensures Counted(v.geo, old(v.Now())) ==> Counted(v.geo, v.Now())
    ensures DirCounts(v.groups[..]) == old(DirCounts(v.groups[..]))
  {
    hide Geometry.GroupsCover, BlockCountersAgree, InodeCountersAgree, Content, DirNames, DirOk, DirBlocks, IdAt,
      Tidy, NothingLost, CountIds, Touches, Added, CanGrow, NoRoom, OwnerBits, Counted, SectorCount;
    ghost var c, owner := v.Now(), v.owner;
    if |name| == 0 || |name| > MAX_NAME {
      TouchesNothing({n}, c.data, owner);
      return false, dir;
    }
    assert FileOk(v.geo, c.data, owner, n, dir.block, dir.size);
    WholeBlocks(v.geo, dir.size);
    var r, diskBlock := AddToBlocks(v, n, dir, child, name, fileType, BlocksFor(v.geo, dir.size));
    if r.Miss? {
      assert v.Sound();
      ok, dir' := GrowDir(v, n, dir, child, name, fileType);
      return;
    }
    EntryAdded(v.geo, c.data, owner, n, dir.block, dir.size, r.value, v.data[diskBlock], name, Rec(child, fileType));
    dir' := dir.(size := BlocksFor(v.geo, dir.size) * v.geo.blockSize);
    dir' := UpdateInodeBlockCount(v, dir');
    ok := v.WriteInode(n, dir');
    Written(v.geo, c, owner, v.Now(), v.owner, n, {n});
    if NothingLost(v.geo, c, owner) {
      TidyInode(v.geo, c, owner, n);
      TidySameIds(v.geo, c.data, v.data[..], owner, n, dir.block);
      StillNothingLost(v.geo, c, owner, v.Now(), v.owner, n, {n});
    }
    if Counted(v.geo, c) { CountedAt(v.geo, c, v.Now(), n); }
  }

  // ---------- removing ----------

  /** Removal of `name` does what it should: its record is the first live one of its block or follows a live one
      directly. Always so in the directory's first block, except for the directory's own name. */
  ghost predicate RemovalSafe(blocks: seq<Block>, name: Name) {
    forall j :: 0 <= j < |blocks| && BlockOk(blocks[j]) && name in Names(blocks[j], 0) ==>
      SafeToRemove(blocks[j], name) && (j == 0 ==> !IsDot(name))
  }

  /** In the first block every name but the directory's own may be removed. */
  lemma FirstBlockSafe(b: Block, name: Name)
    requires FirstBlockOk(b) && name in Names(b, 0) && !IsDot(name)
    ensures SafeToRemove(b, name) && 0 < PositionOf(b, 0, name)
  {
    PositionReached(b, 0, name);
    PositionReached(b, RecLen(b, 0), name);
    AllLiveRemovable(b, 0, PositionOf(b, 0, name));
  }

  /** So in a directory of one block the guard holds for every name but its own. */
  lemma OneBlockSafe(blocks: seq<Block>, name: Name)
    requires DirOk(blocks) && |blocks| == 1 && !IsDot(name)
    ensures RemovalSafe(blocks, name)
  {
    if name in Names(blocks[0], 0) {
      FirstBlockSafe(blocks[0], name);
    }
  }

  /** The entry's block rewritten without it. */
  lemma EntryRemoved(g: Geometry, data: seq<Block>, owner: seq<Owner>, n: nat, m: BlockMap, size: nat, j: nat, b: Block,
                     name: Name)
    requires g.SizeOk() && FileOk(g, data, owner, n, m, size) && DirSound(g, data, m, size) && j < size / g.blockSize
    requires IdAt(g, data, m, j) < |data| && Removed(data[IdAt(g, data, m, j)], b, name)
    requires name in NamesOf(data[IdAt(g, data, m, j)])
    requires j == 0 ==> AllLive(b, 0) && SameHead(data[IdAt(g, data, m, j)], b)
    ensures var data' := data[IdAt(g, data, m, j) := b];
            && FileOk(g, data', owner, n, m, size) && Touches({n}, data, owner, data', owner)
            && SameIds(g, data, m, data', m) && DirSound(g, data', m, size)
            && DirRecords(g, data', m, size) == DirRecords(g, data, m, size) - {name}
            && DirMap(g, data', m, size) == DirMap(g, data, m, size) - {name}
  {
    DirBlockAt(g, data, owner, n, m, size, j);
    DirBlockReplaced(g, data, owner, n, m, size, j, b);
    hide IdAt, Content, Touches, DirOk, DirBlocks, FileOk, Removed, Dense, SameIds, NamesOf, AllLive, SameHead;
    DirRemove(DirBlocks(g, data, m, size), j, b, name);
    InosCut(DirRecords(g, data, m, size), name);
  }

  /** The scan of remove_dir_entry: finds the block with the name and what it becomes. */
  method RemoveFromBlocks(v: Volume, n: nat, dir: Inode, name: Name)
    returns (found: bool, j: nat, diskBlock: nat, removed: nat, block: Block)
    requires DirectoryAt(v, n) && dir == v.inodes[n] && NameOk(name)
    ensures found <==> name in EntriesOf(v, n)
    ensures found ==>
              && j < dir.size / v.geo.blockSize && diskBlock < v.data.Length && |block| == v.geo.blockSize
              && diskBlock == IdAt(v.geo, v.data[..], dir.block, j) && removed == EntriesOf(v, n)[name]
              && name in NamesOf(v.data[diskBlock])
              && (RemovalSafe(DirBlocks(v.geo, v.data[..], dir.block, dir.size), name) ==>
                    && Removed(v.data[diskBlock], block, name)
                    && (j == 0 ==> AllLive(block, 0) && SameHead(v.data[diskBlock], block)))
  {
    hide Geometry.GroupsCover, BlockCountersAgree, InodeCountersAgree, Content, DirNames, DirOk, Dense,
      Tiles, Names, Unique, AllLive, OwnerBits, Removed, Touches, SameHead, SafeToRemove, RemovalSafe;
    ghost var data, blocks := v.data[..], DirBlocks(v.geo, v.data[..], dir.block, dir.size);
    assert FileOk(v.geo, data, v.owner, n, dir.block, dir.size);
    j := 0;
    while j * v.geo.blockSize < dir.size
      invariant j <= |blocks| && (name in DirNames(blocks, 0) <==> name in DirNames(blocks, j))
      decreases |blocks| - j
    {
      BeforeEnd(v.geo, j, dir.size);
      DirBlockAt(v.geo, data, v.owner, n, dir.block, dir.size, j);
      DirBlockOk(blocks, j);
      LookupStep(blocks, j, name);
      diskBlock := BlockIdAt(v, dir, j);
      var r := RemoveFromBlock(v.data[diskBlock], name);
      if r.Hit? {
        RemovalStep(blocks, j, name);
        return true, j, diskBlock, r.value.0, r.value.1;
      }
      j := j + 1;
    }
    BeforeEnd(v.geo, j, dir.size);
    NoNamesBehind(blocks, j);
    return false, j, 0, 0, [];
  }

  lemma RemovalStep(blocks: seq<Block>, j: nat, name: Name)
    requires DirOk(blocks) && j < |blocks| && name in NamesOf(blocks[j])
    ensures RemovalSafe(blocks, name) ==> SafeToRemove(blocks[j], name)
    ensures RemovalSafe(blocks, name) && j == 0 ==> AllLive(blocks[0], 0) && 0 < PositionOf(blocks[0], 0, name)
  {
    if RemovalSafe(blocks, name) && j == 0 {
      FirstBlockSafe(blocks[0], name);
    }
  }

  /** remove_dir_entry. Outside its guard the volume stays sound, but this directory need not. */
  method RemoveDirEntry(v: Volume, n: nat, dir: Inode, name: Name) returns (ok: bool, removed: nat)
    requires DirectoryAt(v, n) && dir == v.inodes[n]
    modifies v.inodes, v.data
    ensures v.Sound() && v.inodes[..] == old(v.inodes[..]) && OthersSame(v.geo, old(v.Now()), v.Now(), {n})
    ensures Touches({n}, old(v.data[..]), v.owner, v.data[..], v.owner)
    ensures ok <==> NameOk(name) && name in old(EntriesOf(v, n))
    ensures ok ==> removed == old(EntriesOf(v, n))[name]
    ensures !ok ==> v.Now() == old(v.Now())
    ensures ok && RemovalSafe(old(DirBlocks(v.geo, v.data[..], dir.block, dir.size)), name) ==>
              && DirectoryAt(v, n) && EntriesOf(v, n) == old(EntriesOf(v, n)) - {name}
              && RecordsOf(v, n) == old(RecordsOf(v, n)) - {name}
    ensures SameIds(v.geo, old(v.data[..]), dir.block, v.data[..], dir.block)
    ensures NothingLost(v.geo, old(v.Now()), v.owner) ==> NothingLost(v.geo, v.Now(), v.owner)
    ensures Counted(v.geo, old(v.Now())) ==> Counted(v.geo, v.Now())
  {
    hide Geometry.GroupsCover, BlockCountersAgree, InodeCountersAgree, Content, DirNames, DirOk, DirBlocks, IdAt,
      Tidy, NothingLost, Touches, Removed, OwnerBits, RemovalSafe, NamesOf, AllLive, SameHead, Counted, SectorCount;
    ghost var c := v.Now();
    assert FileOk(v.geo, c.data, v.owner, n, dir.block, dir.size);
    TouchesNothing({n}, c.data, v.owner);
    removed := 0;
    if |name| == 0 || |name| > MAX_NAME {
      return false, 0;
    }
    var j, diskBlock, block;
    ok, j, diskBlock, removed, block := RemoveFromBlocks(v, n, dir, name);
    if !ok {
      return;
    }
    DirBlockReplaced(v.geo, c.data, v.owner, n, dir.block, dir.size, j, block);
    if RemovalSafe(DirBlocks(v.geo, c.data, dir.block, dir.size), name) {
      EntryRemoved(v.geo, c.data, v.owner, n, dir.block, dir.size, j, block, name);
    }
    v.data[diskBlock] := block;
    assert v.data[..] == c.data[diskBlock := block];
    ok := v.WriteInode(n, dir);
    assert v.inodes[..] == c.inodes;
    Written(v.geo, c, v.owner, v.Now(), v.owner, n, {n});
    if NothingLost(v.geo, c, v.owner) {
      TidyInode(v.geo, c, v.owner, n);
      TidySameIds(v.geo, c.data, v.data[..], v.owner, n, dir.block);
      StillNothingLost(v.geo, c, v.owner, v.Now(), v.owner, n, {n});
    }
    if Counted(v.geo, c) {
      SameSectors(v.geo, c.data, dir.block, v.data[..], dir.block);
      CountOfInode(v.geo, c, n);
      CountedAt(v.geo, c, v.Now(), n);
    }
  }
}
