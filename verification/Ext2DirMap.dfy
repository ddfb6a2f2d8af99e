/** A directory as a sequence of blocks, and the one map from names to records they amount to. */
module Ext2DirMap {
  import opened Bytes
  import opened Ext2Layout
  import opened Ext2Files
  import opened Ext2DirBlocks
  import opened Ext2DirScan

  /** The records in the blocks from number `k` on. */
  function DirNames(blocks: seq<Block>, k: nat): map<Name, Rec>
    decreases |blocks| - k
  {
    if k >= |blocks| then map[] else DirNames(blocks, k + 1) + NamesOf(blocks[k])
  }

  /** The first record of the first block is the live record of the directory itself, and no record of that
      block is dead. */
  ghost predicate FirstBlockOk(b: Block) {
    BlockOk(b) && AllLive(b, 0) && RecOk(b, 0) && RecIno(b, 0) != 0 && IsDot(RecName(b, 0))
  }

  ghost predicate DirOk(blocks: seq<Block>) {
    && 0 < |blocks| && FirstBlockOk(blocks[0])
    && (forall j :: 0 <= j < |blocks| ==> BlockOk(blocks[j]))
    && (forall i, j, x :: 0 <= i < j < |blocks| && x in NamesOf(blocks[i]) ==> x !in NamesOf(blocks[j]))
  }

  lemma {:induction false} DirNamesFrom(blocks: seq<Block>, k: nat, j: nat, x: Name)
    requires DirOk(blocks) && k <= j < |blocks| && x in NamesOf(blocks[j])
    ensures x in DirNames(blocks, k) && DirNames(blocks, k)[x] == NamesOf(blocks[j])[x]
    decreases |blocks| - k
  {
    if k < j {
      DirNamesFrom(blocks, k + 1, j, x);
    }
  }

  /** Every name comes from some block. */
  lemma {:induction false} DirNamesIn(blocks: seq<Block>, k: nat, x: Name) returns (j: nat)
    requires x in DirNames(blocks, k)
    ensures k <= j < |blocks| && x in NamesOf(blocks[j])
    decreases |blocks| - k
  {
    if x in NamesOf(blocks[k]) {
      j := k;
    } else {
      j := DirNamesIn(blocks, k + 1, x);
    }
  }

  /** The blocks before the first one that changed do not matter. */
  lemma {:induction false} DirNamesSuffix(blocks: seq<Block>, blocks': seq<Block>, k: nat)
    requires |blocks| == |blocks'| && forall j :: k <= j < |blocks| ==> blocks'[j] == blocks[j]
    ensures DirNames(blocks', k) == DirNames(blocks, k)
    decreases |blocks| - k
  {
    if k < |blocks| {
      DirNamesSuffix(blocks, blocks', k + 1);
    }
  }

  lemma {:induction false} DirNamesAdd(blocks: seq<Block>, k: nat, j: nat, b: Block, name: Name, entry: Rec)
    requires DirOk(blocks) && k <= j < |blocks| && name !in DirNames(blocks, 0)
    requires NamesOf(b) == NamesOf(blocks[j])[name := entry]
    ensures DirNames(blocks[j := b], k) == DirNames(blocks, k)[name := entry]
    decreases |blocks| - k
  {
    hide NamesOf, FirstBlockOk, BlockOk, Tiles, Names, Unique;
    var rest, here := DirNames(blocks, k + 1), NamesOf(blocks[k]);
    if name in here {
      DirNamesFrom(blocks, 0, k, name);
    }
    hide DirOk;
    if k == j {
      DirNamesSuffix(blocks, blocks[j := b], k + 1);
    } else {
      DirNamesAdd(blocks, k + 1, j, b, name, entry);
    }
    PutUnion(rest, here, name, entry);
  }

  lemma PutUnion(m: map<Name, Rec>, m': map<Name, Rec>, x: Name, v: Rec)
    requires x !in m'
    ensures m + m'[x := v] == (m + m')[x := v] && m[x := v] + m' == (m + m')[x := v]
  {
  }

  lemma DirAdd(blocks: seq<Block>, j: nat, b: Block, name: Name, entry: Rec)
    requires DirOk(blocks) && j < |blocks| && name !in DirNames(blocks, 0) && Added(blocks[j], b, name, entry)
    ensures DirOk(blocks[j := b]) && DirNames(blocks[j := b], 0) == DirNames(blocks, 0)[name := entry]
  {
    DirNamesAdd(blocks, 0, j, b, name, entry);
    forall i | 0 <= i < |blocks|
      ensures name !in NamesOf(blocks[i])
    {
      if name in NamesOf(blocks[i]) {
        DirNamesFrom(blocks, 0, i, name);
      }
    }
    hide Tiles, Names, Unique, AllLive, RecOk;
  }

  lemma {:induction false} DirNamesAppend(blocks: seq<Block>, k: nat, b: Block, name: Name, entry: Rec)
    requires DirOk(blocks) && k <= |blocks| && name !in DirNames(blocks, 0) && NamesOf(b) == map[name := entry]
    ensures DirNames(blocks + [b], k) == DirNames(blocks, k)[name := entry]
    decreases |blocks| - k
  {
    hide NamesOf, FirstBlockOk, BlockOk, Tiles, Names, Unique;
    if k == |blocks| {
      assert DirNames(blocks + [b], k + 1) == map[];
    } else {
      if name in NamesOf(blocks[k]) {
        DirNamesFrom(blocks, 0, k, name);
      }
      hide DirOk;
      DirNamesAppend(blocks, k + 1, b, name, entry);
      PutUnion(DirNames(blocks, k + 1), NamesOf(blocks[k]), name, entry);
    }
  }

  lemma DirAppend(blocks: seq<Block>, b: Block, name: Name, entry: Rec)
    requires DirOk(blocks) && BlockOk(b) && name !in DirNames(blocks, 0) && NamesOf(b) == map[name := entry]
    ensures DirOk(blocks + [b]) && DirNames(blocks + [b], 0) == DirNames(blocks, 0)[name := entry]
  {
    DirNamesAppend(blocks, 0, b, name, entry);
    forall i | 0 <= i < |blocks|
      ensures name !in NamesOf(blocks[i])
    {
      if name in NamesOf(blocks[i]) {
        DirNamesFrom(blocks, 0, i, name);
      }
    }
    hide Tiles, Names, Unique, AllLive, RecOk;
  }

  lemma {:induction false} DirNamesRemove(blocks: seq<Block>, k: nat, j: nat, b: Block, name: Name)
    requires DirOk(blocks) && j < |blocks| && name in NamesOf(blocks[j])
    requires NamesOf(b) == NamesOf(blocks[j]) - {name}
    ensures DirNames(blocks[j := b], k) == DirNames(blocks, k) - {name}
    decreases |blocks| - k
  {
    hide NamesOf, FirstBlockOk, BlockOk, Tiles, Names, Unique;
    if k < |blocks| {
      DirNamesRemove(blocks, k + 1, j, b, name);
      assert k != j ==> name !in NamesOf(blocks[k]);
      assert NamesOf(blocks[j := b][k]) == NamesOf(blocks[k]) - {name};
    }
  }

  lemma DirRemove(blocks: seq<Block>, j: nat, b: Block, name: Name)
    requires DirOk(blocks) && j < |blocks| && name in NamesOf(blocks[j]) && Removed(blocks[j], b, name)
    requires j == 0 ==> AllLive(b, 0) && SameHead(blocks[0], b)
    ensures DirOk(blocks[j := b]) && DirNames(blocks[j := b], 0) == DirNames(blocks, 0) - {name}
  {
    DirNamesRemove(blocks, 0, j, b, name);
    hide Tiles, Names, Unique, AllLive, RecOk;
  }

  /** The blocks of directory `ino`. */
  function DirBlocks(g: Geometry, data: seq<Block>, m: BlockMap, size: nat): seq<Block>
    requires g.blockSize > 0
  {
    seq(size / g.blockSize, j requires 0 <= j => Content(g, data, m, j))
  }

  ghost predicate DirSound(g: Geometry, data: seq<Block>, m: BlockMap, size: nat)
    requires g.blockSize > 0
  {
    && size % g.blockSize == 0 && Dense(g, data, m, size)
    && DirOk(DirBlocks(g, data, m, size))
  }

  /** The records of a directory. */
  function DirRecords(g: Geometry, data: seq<Block>, m: BlockMap, size: nat): map<Name, Rec>
    requires g.blockSize > 0
  {
    DirNames(DirBlocks(g, data, m, size), 0)
  }

  function Inos(entries: map<Name, Rec>): map<Name, nat> {
    map x | x in entries :: entries[x].ino
  }

  /** What a directory maps names to. */
  function DirMap(g: Geometry, data: seq<Block>, m: BlockMap, size: nat): map<Name, nat>
    requires g.blockSize > 0
  {
    Inos(DirRecords(g, data, m, size))
  }

  lemma InosPut(entries: map<Name, Rec>, x: Name, entry: Rec)
    ensures Inos(entries[x := entry]) == Inos(entries)[x := entry.ino]
  {
  }

  lemma InosCut(entries: map<Name, Rec>, x: Name)
    ensures Inos(entries - {x}) == Inos(entries) - {x}
  {
  }
}
