# Verified model of a small x86-64 kernel

The kernel is written in C. This project models the parts whose correctness is hardest to see from the code and proves what
they are for. Each module follows one source file or one layer of it; classes keep the fields the source updates in place,
their methods are proved against functions on values, and lemmas state what those functions mean.

- **ext2 driver** (`Counting`, `Ext2*`, `Paths`, `Namespace`): bitmaps with redundant counters, block maps with one level of
  indirection, growing and shrinking, directory records in bytes, path lookup, and create, mkdir, unlink, rmdir, read, write
  and truncate. A ghost owner for each block says whom it belongs to; `Sound` says that bitmaps, counters, owners and inodes
  agree, `Mounted` adds that the directories form one tree, `NothingLost` that every marked block is referenced, `Counted`
  that every inode counts its blocks, `TypesOk` that every record has the type of its inode, and `DirsCounted` that every group
  counts its directories. The operations are proved down to bytes and up to the tree: which path leads where, and what is in every file.
- **memory** (`Pmm`, `PageTables`, `Pte`, `Vmm`, `HeapPages`, `HeapBlocks`, `HeapLinks`, `Heap`): a free list threaded through
  frames, four-level page tables shared between address spaces, and a first-fit heap that grows by pages. Physical memory is
  one map from frames to what they hold, so a free frame, a table and a data page cannot be the same frame.
- **programs** (`Elf`, `Loader`, `UserMemory`): validation of an image, its page-wise loading, the heap of a process, and
  copying to and from user memory.
- **tasks** (`Registers`, `Scheduler`): nested blocking launches with all registers saved and restored.
- **console** (`Console`, and `ConsolePaper` for what a text looks like), **path resolution** (`PathResolver`, and `PathTree` for
  what it means on the file tree) and **formatted output** (`Numerals`, `Printf`, and `PrintfReading` for reading it back).

`Bytes` holds byte strings and little-endian fields.

## Guards

Some claims one would like to make are false of the code. In each case the code is kept, the exact guard is stated, and an
example shows why it is needed.

- Removing a directory entry adds its length to the last live record and skips dead records in between
  (`src/fs/ext2.c:801-809`). `Ext2DirOps.RemovalSafe` is the guard; `Ext2DirBlocks.MergeExact` shows that without it a merge
  always takes another record off the walk, and `Ext2DirBlocks.DeadRecordArises` leads to a block where it fails. It always
  holds in a directory's first block, except for its own name.
- Growing a file whose partial last block is a hole clears the tail of block 0 (`src/fs/ext2.c:884-892`):
  `Ext2Resize.BlockZeroKept`. Files made dense by the driver stay dense.
- Growing without enough free blocks may leave marked blocks behind that nothing refers to (`src/fs/ext2.c:870-876`). `Sound`
  holds always, `NothingLost` after every success, and after a failure exactly when `Ext2Resize.GrowLoses` (for a write
  `Ext2FileOps.WriteLoses`) is false; `Ext2Resize.GrowLosesHere` and `Ext2FileOps.WriteLosesHere` are examples.
- Such a failure may also leave an inode with more blocks than its i_blocks says: entries of an indirect block that is on disk
  already were filled, and the inode was not written back. `Counted` holds after every success, and after a failure exactly
  when `Ext2Resize.GrowMiscounts` (for a write `Ext2FileOps.WriteMiscounts`) is false; `Ext2FileOps.WriteMiscountsHere` is an
  example.
- A failing mkdir leaves the parent's link count raised (`src/fs/ext2.c:1230-1237`): `Ext2Mkdir.MakeDirectory` says when.
- A heap request near 2^64 wraps when it is rounded (`src/memory/heap.c:32-34`, `src/memory/heap.c:113-119`): `Heap.NoWrap`
  is the guard, `Heap.NoWrapExact` shows that it is exact, and `Heap.GrowsByNothing` gives two requests that need it.
- Freeing a frame twice makes the free list cyclic (`src/memory/pmm.c:80-87`): `Pmm.FreeKeepsList`.
- A loadable segment without memory is not validated but may be loaded (`src/userspace/elf.c:96-98`): the loader reads outside
  the image or maps outside user memory if and only if `Loader.EmptySegmentOk` fails (`Loader.EmptySegmentExact`), and
  `Loader.EmptySegmentEscapes` is an accepted image that makes it do so.
- The tab loop does not end when the next stop is not on the row (`src/framebuffer/framebuffer.c:376-383`): `Console.TabEnds`.
- A path and its normal form need not both exist: `PathTree.NormalLeads` goes one way, and `PathTree.NormalLeadsFurther` is an
  example for the other.
- Zero padding with a precision pads with nothing (`src/libc/stdio.c:131-145`): `Printf.NumberLength`.

## Model

| member | source | states |
|---|---|---|
| `Counting.CountClearUpdate` | src/fs/ext2.c:238-275 | Flipping one bit moves the number of clear bits of every interval that holds it by exactly one, and of no other |
| `Counting.CountClearZero` | src/fs/ext2.c:321-358 | A counter of clear bits is zero if and only if every bit of its interval is set |
| `Ext2Layout.BlockGroup` | src/fs/ext2.c:238-275 | Each block lies in the interval of the group computed for it and of no other group, the short last group included |
| `Ext2Layout.ComputedGroup` | src/fs/ext2.c:238-275 | The 32-bit group computation of a block below the first data block wraps to a group that does not exist, so the bounds check catches it; otherwise it is the true group |
| `Ext2Layout.InodeGroup` | src/fs/ext2.c:277-319 | Each inode lies in the interval of its computed group and of no other |
| `Ext2Layout.FlipBlock` | src/fs/ext2.c:238-275 | Flipping a block bit and moving the superblock and group counter by one keeps both equal to the clear bits, and neither counter can underflow |
| `Ext2Layout.FlipInode` | src/fs/ext2.c:277-319 | The same for inodes |
| `Ext2Layout.GroupCounter` | src/fs/ext2.c:321-358 | A group skipped because its counter is zero has no free block |
| `Ext2Layout.InodeSkipped` | src/fs/ext2.c:360-388 | An inode skipped because its group counter is zero is in use |
| `Ext2Layout.VolumeCounter` | src/fs/ext2.c:321-358 | The superblock counter is zero exactly when no block is free |
| `Ext2Volume.Volume.constructor` | src/fs/ext2.c:909-947 | A well-formed image, taken over unchanged, is a sound volume |
| `Ext2Volume.Volume.ReadInode` | src/fs/ext2.c:135-161 | Fails exactly for inode 0 and numbers beyond the table |
| `Ext2Volume.Volume.WriteInode` | src/fs/ext2.c:163-189 | Replaces exactly that inode; fails for numbers outside the table without a change |
| `Ext2Volume.Volume.MarkBlockUsed` | src/fs/ext2.c:238-275 | Sets exactly one bit, moves the counters only if the bit changes, and keeps counters and bitmap in agreement; fails exactly for blocks outside the groups |
| `Ext2Volume.Volume.MarkInodeUsed` | src/fs/ext2.c:277-319 | The same for inodes, with the directory counter of the one group concerned, which moves exactly when the bit changes and the inode is a directory's; fails exactly for 0 and numbers beyond the table |
| `Ext2Volume.Volume.FirstClear` | src/fs/ext2.c:321-358 | The lowest clear bit of an interval, or its end |
| `Ext2Volume.Volume.FindFreeBlock` | src/fs/ext2.c:321-358 | The scan over groups finds the lowest free block of the volume, and none exactly when the counter is zero |
| `Ext2Volume.Volume.AllocateBlock` | src/fs/ext2.c:321-358 | Takes the lowest free block, zeroed, and changes nothing else; fails exactly when the free counter is zero |
| `Ext2Volume.Volume.InodeIsFree` | src/fs/ext2.c:360-388 | The two tests of the inode scan hold exactly for a free inode |
| `Ext2Volume.Volume.FindFreeInode` | src/fs/ext2.c:360-388 | The lowest free inode that is not reserved, none exactly when all are taken |
| `Ext2Volume.Volume.AllocateInode` | src/fs/ext2.c:360-388 | Takes it, cleared, and changes nothing else; the directory counter of its group goes up exactly for a directory |
| `Ext2Files.UntouchedFile` | src/fs/ext2.c:390-459 | An inode outside a step keeps its block map and content: blocks of different inodes never coincide |
| `Ext2Files.FreeBlocksFrame` | src/fs/ext2.c:321-358 | Writing free blocks changes no inode's map or content |
| `Ext2Files.SetDirect` | src/fs/ext2.c:406-437 | A zeroed block put into an empty direct slot changes that slot and no content |
| `Ext2Files.AttachIndirect` | src/fs/ext2.c:406-437 | A zeroed indirect block maps nothing new |
| `Ext2Files.SetEntry` | src/fs/ext2.c:406-437 | Filling an entry of the indirect block maps exactly one file block, in every copy of the inode that refers to it |
| `Ext2Files.ClearDirect` | src/fs/ext2.c:817-855 | Clearing a direct slot unmaps exactly that file block and frees exactly its disk block |
| `Ext2Files.ClearEntry` | src/fs/ext2.c:817-855 | The same for an entry of the indirect block |
| `Ext2Files.DetachIndirect` | src/fs/ext2.c:817-855 | The emptied indirect block can be given up without unmapping anything |
| `Ext2Files.OverwriteSlot` | src/fs/ext2.c:1087-1134 | Overwriting the disk block of one file block changes that file block and nothing else |
| `Ext2Files.OverwriteBlockZero` | src/fs/ext2.c:884-892 | Block 0 is read through no block map, so overwriting it changes no file |
| `Ext2Files.Confined` | src/fs/ext2.c:390-496 | A step confined to some inodes leaves every other live inode sound, with the same blocks and the same content |
| `Ext2Files.StillNothingLost` | src/fs/ext2.c:406-459 | A step that keeps its own inode tidy keeps every marked block referenced |
| `Ext2Inodes.BlockIdAt` | src/fs/ext2.c:390-404 | The disk block of a file block across the direct and single-indirect boundary; 0 is a hole |
| `Ext2Inodes.EnsureIndirect` | src/fs/ext2.c:406-437 | Attaches a zeroed indirect block if there is none, without changing what any copy of the inode reads; fails only without a free block |
| `Ext2Inodes.SetBlockIdAt` | src/fs/ext2.c:406-437 | Maps exactly one file block; on failure nothing is mapped, and what any copy of the inode reads is unchanged |
| `Ext2Inodes.InodeAllocatedBlocks` | src/fs/ext2.c:212-232 | The loops count the mapped blocks, the indirect block included |
| `Ext2Inodes.UpdateInodeBlockCount` | src/fs/ext2.c:234-236 | i_blocks is that count in 512-byte sectors, and no other field changes |
| `Ext2Inodes.StillCounted` | src/fs/ext2.c:212-236 | A step confined to some inodes keeps i_blocks right for every other inode: `Counted` says that each inode in use counts the blocks its map uses |
| `Ext2Inodes.CountedAt` | src/fs/ext2.c:212-236 | A step confined to one inode that stays in use keeps all the counts if and only if it keeps that one |
| `Ext2Inodes.FillHole` | src/fs/ext2.c:439-459 | A hole gets a zeroed block of its own; a failure gives the block back |
| `Ext2Inodes.EnsureFileBlock` | src/fs/ext2.c:439-459 | The file block is mapped afterwards, to its old block or to a zeroed one; it fails exactly when the free counter does not cover the one or two blocks needed, and then nothing reads differently |
| `Ext2Inodes.ClearDirectBlocks` | src/fs/ext2.c:817-855 | Unmaps exactly the direct blocks from `keep` on |
| `Ext2Inodes.ClearIndirectEntries` | src/fs/ext2.c:817-855 | Unmaps exactly the indirect entries from `keep` on |
| `Ext2Inodes.FreeInodeBlocks` | src/fs/ext2.c:817-855 | Unmaps and frees exactly the file blocks from `keep` on, the indirect block exactly when no entry is kept, and recomputes i_blocks |
| `Ext2Bytes.GrownBytes` | src/fs/ext2.c:857-896 | Growing with zeroed blocks and a cleared tail extends the bytes of the file by zeros |
| `Ext2Bytes.ShrunkBytes` | src/fs/ext2.c:857-896 | Unmapping the blocks behind the new end cuts the bytes of the file |
| `Ext2Resize.Grow` | src/fs/ext2.c:866-876 | The grow loop maps every block of the new part; it fails exactly when the free counter does not cover the holes and the indirect block, and then it stopped at the first hole it could not fill, with all the blocks before it mapped |
| `Ext2Resize.ResizeBlocks` | src/fs/ext2.c:864-880 | After it the block map covers exactly what the new size needs, in either direction; a failure leaves a marked block unreferenced if and only if the stated condition on holes, indirect block and free counter holds, and the inode on disk with a wrong i_blocks if and only if `Miscounts` holds |
| `Ext2Resize.StoppedTidy` | src/fs/ext2.c:866-876 | A stopped growth loses blocks if and only if it filled a direct slot, or attached an indirect block: the inode on disk has not heard of them |
| `Ext2Resize.StoppedCount` | src/fs/ext2.c:866-876 | The inode on disk counts its blocks wrong after a stopped growth if and only if it has an indirect block and blocks were left for its entries |
| `Ext2Resize.GrowLosesHere` | src/fs/ext2.c:866-876 | For example an empty file grown to two blocks when one is free |
| `Ext2Resize.ClearTail` | src/fs/ext2.c:882-893 | Clears exactly the old last block behind the old end, or block 0 behind that offset if the block is a hole |
| `Ext2Resize.BlockZeroKept` | src/fs/ext2.c:884-892 | A resize leaves block 0 alone if and only if it does not grow a file whose partial last block is a hole, or block 0 is zero there anyway |
| `Ext2FileOps.ResizeInodeData` | src/fs/ext2.c:857-896 | Yields the old bytes cut to the new size or extended with zeros; fails exactly for want of room and then the bytes are the old ones; a success loses no block and leaves i_blocks right, a failure does so exactly when `GrowLoses` and `GrowMiscounts` are false; dense files stay dense, no other file changes |
| `Ext2Accounts.MapsDetermineCounters` | src/fs/ext2.c:212-319 | Two balanced states with the same block maps have the same bitmap and the same free counts in the superblock and every group |
| `Ext2Accounts.GrowTruncateRestores` | src/fs/ext2.c:817-896 | Growing a dense file and truncating it back restores bitmap, all free counts and the sector count, the indirect block at the 12-block boundary included |
| `Ext2Runs.GrowAndTruncate` | src/fs/ext2.c:817-896 | A run of two resizes on a volume: a dense file grown and truncated back has its bytes, and the volume its bitmap and all free counts, as before |
| `Ext2FileOps.ReadInodeBytes` | src/fs/ext2.c:461-496 | The chunk loop copies exactly file bytes [offset, offset+len), holes as zeros, and nothing else of the buffer; it fails exactly when the range passes the end |
| `Ext2FileOps.WriteChunk` | src/fs/ext2.c:1108-1126 | One turn of the write loop overwrites exactly its chunk of the file and of no other |
| `Ext2FileOps.WriteRange` | src/fs/ext2.c:1108-1126 | The write loop overwrites exactly the given range; it stops early exactly when the free counter does not cover the holes of the range, then every byte is the old or the new one, and whether blocks are lost is exact |
| `Ext2FileOps.WriteAt` | src/fs/ext2.c:1087-1134 | The whole write on an inode: old bytes up to the offset, the buffer, old bytes behind it; other files untouched; for dense and sparse files alike the condition for success is exact, and so are the ones for losing blocks and for a wrong i_blocks on a failure, while a success keeps i_blocks right |
| `Ext2FileOps.WriteBack` | src/fs/ext2.c:1126-1133 | The range is overwritten, size, mode and links stay as they are, i_blocks stays right, and the inode is written back; fails exactly when the free counter does not cover the holes of the range |
| `Ext2FileOps.AfterGrowth` | src/fs/ext2.c:1098-1126 | What the write loop needs and loses after the growth, in terms of the file before it |
| `Ext2FileOps.WriteLosesHere` | src/fs/ext2.c:1108-1126 | For example a file of two holes overwritten when one block is free |
| `Ext2FileOps.WriteMiscountsHere` | src/fs/ext2.c:1108-1126 | A file of fourteen blocks whose last three are holes: with two blocks free for them the write stops with an entry filled that i_blocks does not count |
| `Ext2Bytes.WrittenBytes` | src/fs/ext2.c:1087-1134 | Resizing and then overwriting gives the overwritten byte sequence |
| `Ext2DirBlocks.SameTail` | src/fs/ext2.c:511-546 | What a scan finds from a record on depends only on the bytes from there on |
| `Ext2DirBlocks.SplitRecordAdds` | src/fs/ext2.c:700-742 | Splitting a live record to its least length adds exactly the new name, with its inode number and its type byte, keeps every other record, the tiling, and names unique |
| `Ext2DirBlocks.ReuseAdds` | src/fs/ext2.c:700-742 | Reusing a dead record does the same |
| `Ext2DirBlocks.MergeRemoves` | src/fs/ext2.c:801-809 | Merging into the live record directly in front removes exactly that name, keeps every other record with its type byte, and the tiling |
| `Ext2DirBlocks.ZeroRemoves` | src/fs/ext2.c:801-809 | Zeroing the inode number removes exactly that name when no live record precedes it |
| `Ext2DirBlocks.AllLiveRemovable` | src/fs/ext2.c:767-815 | In a block whose records are all live every record meets the guard for removal |
| `Ext2DirBlocks.MergeExact` | src/fs/ext2.c:801-809 | For every removal that merges: all the other records of the block stay on the walk if and only if the removed record follows the last live one directly |
| `Ext2DirBlocks.MergeMisses` | src/fs/ext2.c:801-809 | With dead records in between as long as the removed one, the removed name is still found |
| `Ext2DirBlocks.DeadRecordArises` | src/fs/ext2.c:687-815 | A run of two removals, one addition and one removal on a later block leads there, by the branches the driver takes |
| `Ext2DirScan.FindInBlock` | src/fs/ext2.c:526-541 | The scan of one block finds a name exactly when the record map has it, with its inode number |
| `Ext2DirScan.BlockIsEmpty` | src/fs/ext2.c:563-578 | The scan of one block accepts exactly the blocks with no name but the dots |
| `Ext2DirScan.AddToBlock` | src/fs/ext2.c:708-742 | First fit: adds exactly the name, with the inode number and the type byte given, to the first record with room, and misses exactly when no record has room |
| `Ext2DirScan.RemoveFromBlock` | src/fs/ext2.c:779-812 | Finds the name exactly when it is there, and under the guard removes exactly it; all records stay live if they were |
| `Ext2DirMap.DirAdd` | src/fs/ext2.c:687-742 | A directory over several blocks gains exactly the record added to one of them |
| `Ext2DirMap.DirAppend` | src/fs/ext2.c:744-764 | The same for a record in a new last block |
| `Ext2DirMap.DirRemove` | src/fs/ext2.c:767-815 | A directory loses exactly the record removed from one of its blocks |
| `Ext2DirOps.FindInDir` | src/fs/ext2.c:511-546 | Agrees with the map from names to inode numbers: found exactly when in the map, with its value |
| `Ext2DirOps.DirIsEmpty` | src/fs/ext2.c:548-583 | True exactly for a directory that has no name but its dots |
| `Ext2DirOps.AddToBlocks` | src/fs/ext2.c:696-742 | The scan over blocks fills the first record with room, and none exactly when every record is full |
| `Ext2DirOps.GrowDir` | src/fs/ext2.c:744-764 | The new last block holds exactly the new record; fails exactly when the directory or the volume has no room, and then the records are unchanged |
| `Ext2DirOps.AddDirEntry` | src/fs/ext2.c:687-765 | Adds exactly one record, with the inode number and the type byte given; fails exactly for an empty or overlong name, or when no record has room and the directory cannot grow, and then the records are unchanged; no other file changes, and every i_blocks stays right |
| `Ext2DirOps.OneBlockSafe` | src/fs/ext2.c:767-815 | In a directory of one block the guard holds for every name but the directory's own |
| `Ext2DirOps.RemoveDirEntry` | src/fs/ext2.c:767-815 | Finds the entry exactly when the name is proper and the map has it; under the guard the directory loses exactly that record; the volume stays sound either way |
| `Paths.LastComponent` | src/fs/ext2.c:630-672 | A slash and a last name behind a path are one more component |
| `Paths.TrailingSlashes` | src/fs/ext2.c:640-646 | Trailing slashes carry no component |
| `Ext2Namespace.SplitParentPath` | src/fs/ext2.c:630-672 | The path is its parent and one proper name; it fails exactly for paths without such a name and for parents that do not fit the buffer |
| `Namespace.LookupLast` | src/fs/ext2.c:585-685 | Looking up a path is looking up its parent and then its last name |
| `Ext2Namespace.PathLookup` | src/fs/ext2.c:585-628 | The walk finds exactly the inode the tree has for the path |
| `Ext2Namespace.ParentLookup` | src/fs/ext2.c:674-685 | Yields the parent directory and the name such that looking up the path is finding the name there; fails exactly when there is no such directory or its path does not fit 128 bytes |
| `Ext2Tree.OtherNodes` | src/fs/ext2.c:585-628 | A step confined to some inodes changes no other node of the tree |
| `Ext2Types.OtherRecords` | src/fs/ext2.c:687-815 | A step confined to some inodes changes no record, type byte included, of any other directory |
| `Ext2Types.TypedAdd` | src/fs/ext2.c:1163-1240 | If every record's type byte is that of the inode it names, 2 for a directory and 1 for a file, so it is after a new node came in with its own type and, if it is a directory, its dots with 2 |
| `Ext2Types.TypedRemove` | src/fs/ext2.c:1262-1311 | And after a node was removed: no record left names it, not even a `..` |
| `Ext2DirCounts.MadeCounted` | src/fs/ext2.c:308-310 | If the groups count the directories of the tree among their inodes, they do so after a mkdir moved the counter of one group |
| `Ext2DirCounts.RemovedCounted` | src/fs/ext2.c:314-316 | And after a removal, whether of a file or of a directory |
| `Namespace.PlainPathsUnique` | src/fs/ext2.c:585-628 | Without hard links different dot-free paths lead to different inodes |
| `Namespace.AddKeepsTree` | src/fs/ext2.c:1136-1241 | A new file or empty directory under a free name keeps the tree well-formed |
| `Namespace.AddBindsOnePath` | src/fs/ext2.c:1136-1241 | Exactly one more dot-free path is bound, to the new inode; every other path leads where it led |
| `Namespace.RemoveKeepsTree` | src/fs/ext2.c:1243-1312 | Removing a file or an empty directory keeps the tree well-formed |
| `Namespace.RemoveUnbindsOnePath` | src/fs/ext2.c:1243-1312 | Exactly one dot-free path is unbound |
| `Namespace.AddThenRemove` | src/fs/ext2.c:1136-1312 | Removing what was just added restores the whole tree |
| `Ext2Namespace.FileStep` | src/fs/ext2.c:1087-1134 | A step confined to one file replaces exactly one node's bytes |
| `Ext2Namespace.FileStepTypes` | src/fs/ext2.c:1087-1134 | It changes no directory record, and the type bytes stay right |
| `Ext2Namespace.ReadFile` | src/fs/ext2.c:1050-1069 | Returns exactly the bytes of the file the path leads to from the offset on, cut at its end; other paths are an error without effect |
| `Ext2Namespace.WriteFile` | src/fs/ext2.c:1087-1134 | On success the file holds the old bytes, the buffer at the offset, and the old bytes behind; the tree changes nowhere else and no directory record changes; success, the invalid cases, what a failed write leaves in the file, whether it loses blocks and whether it leaves i_blocks wrong are all exact |
| `Ext2Namespace.TruncateFile` | src/fs/ext2.c:1314-1325 | The file is cut or extended with zeros exactly when there is room; the tree changes nowhere else; whether a failure loses blocks or leaves i_blocks wrong is exact |
| `Ext2Create.NewFileInode` | src/fs/ext2.c:1153-1163 | A fresh inode in use as an empty file, owning nothing; fails exactly when none is free |
| `Ext2Create.Linked` | src/fs/ext2.c:1136-1171 | Entering a new inode in its parent is adding one node to the tree |
| `Ext2Create.LinkFile` | src/fs/ext2.c:1163-1170 | Hangs the file under the name, with type byte 1, exactly when the parent has or can get room, and otherwise restores the tree and the records |
| `Ext2Create.CreateFile` | src/fs/ext2.c:1136-1171 | Makes exactly one new node under the path, with a record of type 1, or leaves the tree alone; succeeds exactly when the name is free, an inode is free, the parent has room and its path fits 128 bytes; either way no block is lost, and i_blocks, type bytes and directory counters stay right |
| `Ext2Mkdir.DotBlockOk` | src/fs/ext2.c:1209-1228 | The block mkdir writes is a sound first block with exactly the two dots, both of type 2 |
| `Ext2Mkdir.NewDirOk` | src/fs/ext2.c:1199-1228 | The new inode with that block is a sound directory with those records |
| `Ext2Mkdir.TakeInodeAndBlock` | src/fs/ext2.c:1187-1197 | Takes an inode and a block, or gives back what it took and fails, exactly when one is missing; the group counts one more directory exactly on success |
| `Ext2Mkdir.NewDirInode` | src/fs/ext2.c:1187-1228 | Makes the unlinked directory without touching another inode |
| `Ext2Mkdir.LinkDir` | src/fs/ext2.c:1230-1240 | Counts the link and hangs the directory under the name, with type byte 2, exactly when there is room; otherwise the tree and the records are the old ones, while the parent's link count stays raised |
| `Ext2Mkdir.MakeDirectory` | src/fs/ext2.c:1173-1241 | Makes exactly one new directory, with a record of type 2 and its two dots of type 2, or leaves the tree alone; the condition for success is exact, and so is when the parent's link count goes up; either way no block is lost, and i_blocks, type bytes and directory counters stay right |
| `Ext2Remove.DropInode` | src/fs/ext2.c:1268-1271 | Frees every block of the inode and the inode itself; no block is lost, no other inode changes, and the group counts one directory less exactly if it was one |
| `Ext2Remove.Unlinked` | src/fs/ext2.c:1243-1312 | Taking the entry out and giving up the inode is removing one node from the tree |
| `Ext2Remove.NodeRemoved` | src/fs/ext2.c:1243-1312 | And removing exactly its record, with which the type bytes stay right |
| `Ext2Remove.TargetRemovable` | src/fs/ext2.c:1243-1312 | What unlink and rmdir accept is a file, or a directory with only dots, under a proper name |
| `Ext2Remove.RemoveName` | src/fs/ext2.c:1262-1311 | Entry and inode go; under the guard exactly one node and one record leave, and type bytes and directory counters stay right; every i_blocks does with or without it |
| `Ext2Remove.Unlink` | src/fs/ext2.c:1243-1273 | Accepts exactly paths to files whose parent's path fits 128 bytes; under the guard removes exactly that node and its record, and type bytes and directory counters stay right; without it the volume stays sound; otherwise nothing changes |
| `Ext2Remove.RemoveDirectory` | src/fs/ext2.c:1275-1312 | Accepts exactly paths to empty directories not named by dots, under the same limit; removes like unlink; the parent's link count and the directory counter of the group go down by one but not below zero |
| `Ext2Remove.FoundAfterAdd` | src/fs/ext2.c:1136-1241 | Whatever any path found before a node was added it still finds |
| `Ext2Remove.MakeThenRemove` | src/fs/ext2.c:1136-1312 | The path of a new node leads to it, the matching removal accepts the path, and it restores the old tree |
| `Ext2Remove.MadeOnePath` | src/fs/ext2.c:1136-1241 | A successful create or mkdir binds its own path to the new inode and changes no other dot-free path |
| `Ext2Remove.RemovedOnePath` | src/fs/ext2.c:1243-1312 | A successful unlink or rmdir unbinds its own path and changes no other dot-free path |
| `Ext2Runs.CreateAndUnlink` | src/fs/ext2.c:1136-1273 | A run on a volume: a file created in a directory and unlinked again leaves the tree, and with it every path, as it was, when the directory has one block |
| `Ext2Example.SmallVolume` | src/fs/ext2.c:909-947 | All the invariants can hold at once: a volume with nothing but a root directory, in working order, with every count and type byte right |
| `Pmm.PushChain` | src/memory/pmm.c:24-29 | Pushing a frame that is not on the list gives a proper list with it in front |
| `Pmm.DoubleFreeCycle` | src/memory/pmm.c:80-87 | Freeing a frame already on the list closes a cycle: no finite list describes what hangs off the head |
| `Pmm.FreeKeepsList` | src/memory/pmm.c:80-87 | After a free the head carries a proper list if and only if the frame was not free before |
| `Pmm.RangeFrames` | src/memory/pmm.c:16-22 | The rounded bounds of a range enclose exactly the frames wholly inside it |
| `Pmm.Allocator.constructor` | src/memory/pmm.c:9-14 | Before initialisation nothing is free |
| `Pmm.Allocator.Init` | src/memory/pmm.c:31-67 | Exactly the frames that lie wholly in a usable range, except frame 0, become free; without a memory map none |
| `Pmm.Allocator.PushPage` | src/memory/pmm.c:24-29 | The frame is the new head and every other frame keeps what it holds |
| `Pmm.Allocator.AllocPage` | src/memory/pmm.c:69-78 | Takes the head of the list; fails exactly when nothing is free |
| `Pmm.Allocator.FreePageAt` | src/memory/pmm.c:80-87 | An allocated frame becomes the head; the null frame and misaligned addresses are ignored |
| `Pmm.Allocator.GetStats` | src/memory/pmm.c:97-108 | Free and used frames are the sizes of the free list and of its complement |
| `PageTables.SlotStep` | src/memory/vmm.c:32-34 | The table indices of an address and its slots on the four levels determine each other |
| `PageTables.SlotRange` | src/memory/vmm.c:122-127 | The slot of an aligned address is exactly the range of one page of that size |
| `PageTables.PathHome` | src/memory/vmm.c:64-104 | A walk reaches a table exactly where that table belongs: its level, its address range and its address space |
| `PageTables.NotSeen` | src/memory/vmm.c:64-104 | A changed entry is invisible to every walk that does not come to it |
| `PageTables.Reached` | src/memory/vmm.c:64-104 | A walk comes to a given entry exactly for the addresses of its slot, in the spaces that share the root entry |
| `PageTables.SetChangesSlot` | src/memory/vmm.c:129-158 | Setting an entry changes the translation of exactly its slot, in its space and those that share it, and keeps all tables in order |
| `PageTables.GrowMapsNothing` | src/memory/vmm.c:44-62 | A new empty table changes no translation |
| `PageTables.OtherFrame` | src/memory/vmm.c:248-266 | Writing a frame that is no table changes no translation |
| `PageTables.FreeSlot` | src/memory/vmm.c:129-158 | What is in the way of a 4K page is exactly a page that maps its address |
| `Vmm.UserLeafIs` | src/memory/vmm.c:44-62 | In a space whose user half was mapped for user code, every level on the way to a page lets user code through |
| `Pte.LeafDecodes` | src/memory/vmm.c:148-153 | Address and flags of a page entry, writable and no-execute among them, come out of the bits as they went in |
| `Pte.TableDecodes` | src/memory/vmm.c:57-61 | An entry that refers to a table decodes to its address, writable and executable, open to user code exactly if the mapping is |
| `Pte.AddressAlone` | src/memory/vmm.c:11-14 | Flag bits leave the address field alone |
| `Vmm.FreeIsNoTable` | src/memory/vmm.c:44-62 | A free frame is never a page table |
| `Vmm.UserHalfIsolated` | src/memory/vmm.c:205-214 | A change in the user half of one space changes nothing in any other |
| `Vmm.SharedAlike` | src/memory/vmm.c:172-188 | Spaces that share a root entry translate everything behind it alike |
| `Vmm.SharedStays` | src/memory/vmm.c:172-188 | A later mapping below a shared root entry appears in every space that shares it |
| `Vmm.MapTranslates` | src/memory/vmm.c:129-158 | In addresses: a successful map adds exactly the aligned range, linearly |
| `Vmm.UnmapTranslates` | src/memory/vmm.c:228-246 | In addresses: unmapping takes away exactly the range of one page |
| `Vmm.AddressSpaces.constructor` | src/memory/vmm.c:167-170 | The boot loader's well-formed tables are taken over |
| `Vmm.AddressSpaces.NewTable` | src/memory/vmm.c:44-62 | A free frame becomes an empty table in its place; no translation changes; fails exactly without a free frame |
| `Vmm.AddressSpaces.EnsureNextTable` | src/memory/vmm.c:44-62 | The next table exists afterwards, empty if it is new, unless a huge page is in the way or memory has run out; no translation changes |
| `Vmm.AddressSpaces.Walk` | src/memory/vmm.c:64-104 | Comes to the table of the wanted level, or without creation to a huge page above it; no translation changes; with creation it succeeds if and only if no larger page is in the way and the missing tables do not exceed the free frames |
| `Vmm.AddressSpaces.WalkExisting` | src/memory/vmm.c:113-120 | Succeeds exactly for mapped addresses, at the entry that maps them |
| `Vmm.AddressSpaces.MapAtLevel` | src/memory/vmm.c:129-158 | For pages of any size: succeeds if and only if both addresses are aligned, nothing is in the way and the missing tables do not exceed the free frames; adds exactly the slot, which was vacant; failure changes no translation even when it left empty tables behind |
| `Vmm.AddressSpaces.MapPage` | src/memory/vmm.c:199-226 | The same for 4K, 2M and 1G pages of the active space |
| `Vmm.AddressSpaces.MapPageInSpace` | src/memory/vmm.c:205-214 | The same for 4K pages of a given space; with memory left it fails only for misaligned or mapped addresses |
| `Vmm.AddressSpaces.UnmapPage` | src/memory/vmm.c:228-246 | Succeeds exactly at the start of a mapped page of any size, and removes exactly that page |
| `Vmm.AddressSpaces.VirtToPhys` | src/memory/vmm.c:248-266 | Computes the translation of the address, none exactly when it has none |
| `Vmm.AddressSpaces.CreateAddressSpace` | src/memory/vmm.c:172-188 | A new space with an empty user half that shares every kernel entry of the active one; no other space changes |
| `HeapBlocks.SplitTiles` | src/memory/heap.c:61-83 | After a split the blocks still lie back to back from start to end |
| `HeapBlocks.MergeTiles` | src/memory/heap.c:85-100 | So they do after a merge |
| `HeapBlocks.SplitMerge` | src/memory/heap.c:215-235 | Splitting a live block and merging the rest with what follows leaves no two free neighbours |
| `HeapBlocks.SplitLive` | src/memory/heap.c:61-83 | Splitting a free block changes no live allocation; splitting a live one shrinks exactly that one |
| `HeapBlocks.MergeLive` | src/memory/heap.c:85-100 | Merging free blocks changes no live allocation |
| `HeapBlocks.MarkLive` | src/memory/heap.c:194-198 | Taking a block adds exactly its payload to the live ones, freeing it removes exactly that |
| `HeapBlocks.AddsUp` | src/memory/heap.c:267-281 | The heap is its headers, its live bytes and its free bytes |
| `HeapBlocks.AllFree` | src/memory/heap.c:249-265 | With nothing live the heap is one free block |
| `HeapBlocks.LiveApart` | src/memory/heap.c:176-199 | Live payloads lie inside the heap with at least a header between any two |
| `HeapLinks.SplitLinks` | src/memory/heap.c:61-83 | The stores of split_block keep prev, next, sizes and flags in step with the block list |
| `HeapLinks.MergeLinks` | src/memory/heap.c:85-100 | So do those of coalesce_with_next |
| `HeapLinks.AppendLinks` | src/memory/heap.c:48-59 | And those of append_block |
| `HeapLinks.HeaderApart` | src/memory/heap.c:61-100 | Writing the header of a block changes no payload |
| `Heap.RoundingWraps` | src/memory/heap.c:32-34 | The rounded size is at least the request if and only if the sum does not pass 2^64; otherwise it is 0 |
| `Heap.NoWrapExact` | src/memory/heap.c:32-34 | The guard is exact: it holds if and only if the request is not rounded down and the heap would grow by what it needs |
| `Heap.GrowsByNothing` | src/memory/heap.c:112-146 | Without it: the greatest request is granted an empty payload, and for one a page below the limit the heap grows by nothing, which the check against its limit accepts |
| `HeapPages.MapStep` | src/memory/heap.c:125-142 | One more page mapped shows in the active space and those that share the kernel entry, and nowhere else |
| `HeapPages.UnmapStep` | src/memory/heap.c:102-110 | One page unmapped restores what was there |
| `HeapPages.LedgerMap` | src/memory/heap.c:125-142 | Frames that became tables, heap pages and free frames stay a partition of the frames that were free |
| `HeapPages.Rollback` | src/memory/heap.c:102-110 | Every data frame is back on the free list and every translation is the old one; only tables remain |
| `HeapPages.MapOne` | src/memory/heap.c:125-142 | One page gained or nothing but tables, and then it was mapped before or at most one frame is left; no frame is lost |
| `HeapPages.MapPages` | src/memory/heap.c:112-142 | All pages mapped to frames of their own, or the translations of before and no frame lost, because one of the pages was mapped or no more frames are free than there are pages |
| `Heap.BackedMore` | src/memory/heap.c:112-154 | Old and new pages keep frames of their own that are neither free nor tables |
| `Heap.KernelHeap.constructor` | src/memory/heap.c:166-174 | An empty heap |
| `Heap.KernelHeap.SplitBlock` | src/memory/heap.c:61-83 | The list is split as described and no payload changes |
| `Heap.KernelHeap.CoalesceWithNext` | src/memory/heap.c:85-100 | The list is merged as described and no payload changes |
| `Heap.KernelHeap.FindFreeBlock` | src/memory/heap.c:156-164 | The first free block with room, none exactly when there is none |
| `Heap.KernelHeap.AppendBlock` | src/memory/heap.c:48-59 | The new range is the last block |
| `Heap.KernelHeap.ExpandHeap` | src/memory/heap.c:112-154 | Success leaves a free block with room; failure has one of three reasons, the limit, too few frames or a page in the way, and leaves list, bytes and translations as they were; frames are conserved, live payloads keep their bytes |
| `Heap.KernelHeap.Kmalloc` | src/memory/heap.c:176-199 | A new aligned payload of at least the size, apart from all live ones, whose bytes do not change; 0 means no change, and only if nothing fits and the heap cannot grow, for one of those reasons |
| `Heap.KernelHeap.Kcalloc` | src/memory/heap.c:201-213 | The same with zeros in it; an overflowing product is refused |
| `Heap.KernelHeap.Krealloc` | src/memory/heap.c:215-247 | Shrinks in place or moves, and keeps less than a header and two alignments more than asked for; the first min(old, new) bytes survive, every other live payload is unchanged, failure changes nothing |
| `Heap.KernelHeap.Kfree` | src/memory/heap.c:249-265 | Exactly that payload is no longer live; every other keeps its bytes; no two free neighbours remain |
| `Heap.KernelHeap.GetStats` | src/memory/heap.c:267-281 | The three numbers are those of the block list and add up with the headers |
| `Heap.KernelHeap.Validate` | src/memory/heap.c:283-323 | On every reachable heap the check succeeds |
| `Heap.NothingLive` | src/memory/heap.c:249-265 | After every live pointer was freed the heap is one free block of mapped bytes minus the overhead |
| `Heap.LiveSeparate` | src/memory/heap.c:176-199 | Live payloads are aligned, inside the heap and disjoint |
| `Elf.RangesAreExact` | src/userspace/elf.c:44-52 | The range checks accept exactly the ranges inside the image and inside user memory; a wrapping sum does not fool them |
| `Elf.HeaderBytes` | src/userspace/elf.c:54-83 | The tests on the file header accept exactly these bytes: magic, 64 bits, little-endian, version 1, executable or shared object for x86-64, and the two header sizes |
| `Elf.Validate` | src/userspace/elf.c:54-125 | Accepts exactly the images whose headers, table, loadable segments and entry point are all right |
| `Loader.PageCopied` | src/userspace/process.c:46-56 | The copy of one page yields exactly the segment's bytes in it: file bytes, zeros elsewhere, for any alignment, without a read outside the image |
| `Loader.BuildPage` | src/userspace/process.c:35-56 | So the prepared page is the segment's, for any segment whose copy stays in the image |
| `Loader.PlaceOne` | src/userspace/process.c:35-60 | Mapping it keeps all pages placed before |
| `Loader.FillFrame` | src/userspace/process.c:35-45 | Filling a fresh frame disturbs no page in place and no space |
| `Loader.LoadSegmentPage` | src/userspace/process.c:35-60 | One more page in place, on an address free before; other spaces and the kernel half unchanged; fails only without memory or where a page is mapped |
| `Loader.AlignedLoadsNothing` | src/userspace/process.c:62-84 | A segment without memory loads no page exactly when it starts on a page boundary or its rounding wraps |
| `Loader.SegmentConfined` | src/userspace/process.c:35-84 | Every page loaded for a segment that passed the validation lies in user memory and copies bytes of the image only |
| `Loader.EmptySegmentExact` | src/userspace/process.c:35-84 | A segment without memory, which the validation skips, stays confined in the same way if and only if it passes the stated test |
| `Loader.EmptySegmentInKernel` | src/userspace/process.c:35-84 | One that starts in the kernel half breaks the isolation of the kernel when its page is mapped |
| `Loader.EmptySegmentEscapes` | src/userspace/elf.c:96-98 | An image of 176 bytes that the validation accepts and outside of which the loader reads |
| `Loader.LoadSegment` | src/userspace/process.c:62-84 | Every page of the segment is in place, and exactly these were mapped; fails only without memory or where it meets a mapped page |
| `Loader.LoadSegments` | src/userspace/process.c:86-99 | Every page of every loadable segment is in place; fails only without memory, where two segments meet, or where one meets a page mapped before |
| `Loader.LoadedBytes` | src/userspace/process.c:86-99 | Every address of every loadable segment reads, for user code, its file byte below p_filesz and zero from there to p_memsz |
| `Loader.LoadProgram` | src/userspace/process.c:143-178 | The new space shows all segments and a zeroed stack page to user code and shares the kernel half; no other space changes; the image was valid and no two segments meet; otherwise memory ran out, the image is invalid, or segments meet each other or the stack |
| `Loader.Sbrk` | src/userspace/process.c:251-291 | Moves the break by the increment, never down or past the limit, backed by zeroed pages; otherwise it stays, exactly the first pages stay mapped, and the reason is the increment, the limit, memory, or a page in the way |
| `Loader.HeapReadsZero` | src/userspace/process.c:271-287 | The process reads zeros from the new pages |
| `UserMemory.WithinPage` | src/userspace/syscall.c:40-58 | Within a 4K page translation is adding, whatever the size of the page behind it |
| `UserMemory.ReadUserBytes` | src/userspace/syscall.c:40-58 | Fails exactly when part of the range is unmapped; otherwise yields what the process sees there |
| `UserMemory.WriteUserBytes` | src/userspace/syscall.c:60-79 | Fails exactly when part of the range is unmapped; otherwise the range shows what was written, and nothing that shares no frame with it changes |
| `Registers.PlainReturn` | src/arch/x86_64/idt.c:144-185 | A system call that changes nothing but its result gives the trapped registers back |
| `Registers.ParentResumes` | src/userspace/scheduler.c:93-137 | The four copies between trap frame, call frame and saved registers hand a parent all its registers with rax set to the status |
| `Scheduler.Pigeonhole` | src/userspace/scheduler.c:139-159 | Different slots fit into the process table only eight times |
| `Scheduler.SessionReturns` | src/userspace/scheduler.c:139-188 | However deep a task's children nest, it runs again above the same parents with the same saved registers |
| `Scheduler.Machine.constructor` | src/userspace/scheduler.c:52-64 | Nothing runs at first |
| `Scheduler.Machine.DepthBound` | src/userspace/scheduler.c:139-159 | At most seven parents wait, so the depth panic is unreachable |
| `Scheduler.Machine.PidsApart` | src/userspace/process.c:180-220 | Different live tasks have different process ids |
| `Scheduler.Machine.LoadProcess` | src/userspace/process.c:143-178 | Only the given slot changes; a failed load leaves it empty; each load uses up a process id that was never used before |
| `Scheduler.Machine.VacantSlot` | src/userspace/process.c:200-203 | The first vacant slot behind slot 0 |
| `Scheduler.Machine.NotLive` | src/userspace/process.c:200-203 | A vacant slot holds neither the current task nor a waiting parent |
| `Scheduler.Machine.CreateProcess` | src/userspace/process.c:180-220 | A child gets a slot that holds no live task and a process id that no slot has, exactly when the image loads and a slot is vacant |
| `Scheduler.Machine.PrepareLaunch` | src/userspace/scheduler.c:66-77 | Accepts exactly a ready process with a return context |
| `Scheduler.Machine.EnterCurrent` | src/userspace/scheduler.c:79-91 | Counts the launch and enters user mode at the saved instruction and stack pointer |
| `Scheduler.Machine.LaunchInit` | src/userspace/userspace.c:57-84 | The first task runs in slot 0, reloaded if it had exited, from the entry point of its image or the instruction it was saved at |
| `Scheduler.Machine.RunBlocking` | src/userspace/scheduler.c:139-159 | The parent waits with its registers, the child runs; it never panics |
| `Scheduler.Machine.FinishBlockingExit` | src/userspace/scheduler.c:161-188 | The parent started last resumes with the registers it was suspended with; fails exactly without a parent |
| `Scheduler.Machine.ExitCurrent` | src/userspace/scheduler.c:190-207 | The last task returns to the kernel |
| `Scheduler.Machine.Tick` | src/userspace/scheduler.c:209-218 | Saves exactly the interrupted task's registers |
| `Scheduler.Machine.Dispatch` | src/arch/x86_64/idt.c:144-185 | Exit resumes the parent with its own registers and the status in rax, or returns to the kernel; run starts a child in a vacant slot or reports the error; launches minus exits stay depth plus one; no panic |
| `Console.PutAllConcat` | src/framebuffer/framebuffer.c:416-432 | Writing two texts is writing their concatenation |
| `Console.TabEnds` | src/framebuffer/framebuffer.c:376-383 | The tab loop can end if and only if the next stop is left of the margin |
| `Console.Framebuffer.RedrawFromBacking` | src/framebuffer/framebuffer.c:232-242 | The screen shows the cells |
| `Console.Framebuffer.FlushDeferredRedraw` | src/framebuffer/framebuffer.c:293-300 | Afterwards the screen shows the grid and nothing is pending |
| `Console.Framebuffer.Scroll` | src/framebuffer/framebuffer.c:262-291 | Backed, put off or unbacked: the same picture one row up with a blank last row |
| `Console.Framebuffer.Newline` | src/framebuffer/framebuffer.c:302-310 | The cursor goes to the next row, scrolling at the bottom; what that shows is `ConsolePaper.NextRowShows` |
| `Console.Framebuffer.DrawCharAt` | src/framebuffer/framebuffer.c:244-260 | One cell changes, on the screen too unless a redraw is pending |
| `Console.Framebuffer.PutInner` | src/framebuffer/framebuffer.c:364-409 | Each character does to the display what the simple form says |
| `Console.Framebuffer.Putchar` | src/framebuffer/framebuffer.c:411-414 | So does one character on its own, with nothing pending afterwards |
| `Console.Framebuffer.Write` | src/framebuffer/framebuffer.c:416-432 | A batch ends with the picture, cells and cursor of putting its characters one by one, and nothing pending at rest; what those show is `ConsolePaper.TextShows` |
| `Console.Framebuffer.Clear` | src/framebuffer/framebuffer.c:434-444 | A blank grid, and the cursor at its corner |
| `ConsolePaper.NextRowShows` | src/framebuffer/framebuffer.c:302-310 | A newline on the console is a new row on an endless sheet of which the console shows the last rows: at the bottom every row moves up one and a blank one comes in |
| `ConsolePaper.TextShows` | src/framebuffer/framebuffer.c:364-432 | For any text whose tab loops end, control characters included, the console shows the last rows of the sheet it is typed on, with the cursor where it is there |
| `ConsolePaper.ClearedShows` | src/framebuffer/framebuffer.c:416-444 | From a cleared console on, that sheet starts empty |
| `ConsolePaper.PlainLines` | src/framebuffer/framebuffer.c:364-409 | A text without control characters but newlines is on the sheet as its lines, broken at newlines and at the margin, with the cursor behind the last character |
| `PathResolver.FoldIsProper` | src/userspace/syscall.c:147-190 | Folding components over a stack keeps proper names only |
| `PathResolver.RenderComponents` | src/userspace/syscall.c:147-190 | A rendered stack has exactly its names for components |
| `PathResolver.NormalForm` | src/userspace/syscall.c:147-196 | The result is absolute, without empty, `.` or `..` components, and ends in a slash only if it is the root |
| `PathResolver.NormalTwice` | src/userspace/syscall.c:147-196 | Normalising twice is normalising once |
| `PathResolver.NormalName` | src/userspace/syscall.c:171-184 | A proper name behind a path is one more component of its normal form |
| `PathResolver.NormalDot` | src/userspace/syscall.c:157-160 | A dot behind a path changes nothing |
| `PathResolver.NormalDotDot` | src/userspace/syscall.c:161-170 | A proper name followed by `..` disappears, whatever stands in front |
| `PathResolver.RootDotDot` | src/userspace/syscall.c:161-170 | The parent of the root is the root |
| `PathTree.NormalLeads` | src/userspace/syscall.c:113-197 | On the file tree: where a path leads somewhere, its normal form leads to the same inode |
| `PathTree.NormalLeadsFurther` | src/userspace/syscall.c:113-197 | The converse fails: a missing name taken back again leads nowhere as it stands, and its normal form to the root |
| `PathResolver.Pop` | src/userspace/syscall.c:161-170 | Going back to the last slash in the buffer pops one component, and stays at the root |
| `PathResolver.Push` | src/userspace/syscall.c:171-184 | Appending pushes one component; it fails exactly when the result would not fit |
| `PathResolver.Resolve` | src/userspace/syscall.c:113-197 | The loop over the buffer computes the fold; with an absolute working directory and a buffer of full size it fails only when the joined path does not fit |
| `Numerals.NumeralUnique` | src/libc/stdio.c:80-96 | There is one numeral for a value in a base |
| `Numerals.ConvertStep` | src/libc/stdio.c:91-94 | Each digit written accounts for the value, and fewer than 64 are ever written before |
| `Numerals.SixtyFour` | src/libc/stdio.c:121-122 | 64 binary digits are enough for 64 bits |
| `Printf.NumeralOfIs` | src/libc/stdio.c:80-96 | The digits read back as the value, with no superfluous zero in front |
| `Printf.FormatUnsigned` | src/libc/stdio.c:80-96 | The loop writes the reversed numeral, at most 64 characters |
| `Printf.NumberLength` | src/libc/stdio.c:115-156 | The field is max(width, sign + prefix + max(precision, digits)) long if and only if zero padding does not meet a precision in a wider field |
| `Printf.ZeroPadWithPrecision` | src/libc/stdio.c:131-145 | With both the width is ignored altogether, unlike section 7.21.6.1 of ISO C11 |
| `Printf.NumberReadsBack` | src/libc/stdio.c:115-156 | The digits at the end of the number read back as its value |
| `Printf.MagnitudeIs` | src/libc/stdio.c:288-297 | Negating in unsigned arithmetic gives the magnitude, of the least number too |
| `PrintfReading.SignedReadsBack` | src/libc/stdio.c:288-302 | A reader that skips spaces, takes a minus and digits gets every signed argument back, sign included, for any width, precision and flags; only a zero of precision 0 has no digits |
| `PrintfReading.UnsignedReadsBack` | src/libc/stdio.c:115-156 | So it does for an unsigned one behind its prefix, in its base |
| `PrintfReading.PaddedStands` | src/libc/stdio.c:98-113 | A string is cut to its precision and stands first or last in its field, with spaces beside it |
| `Printf.Out.BufferPut` | src/libc/stdio.c:158-164 | Stores the character only in front of the place for the terminator |
| `Printf.Out.StreamPut` | src/libc/stdio.c:173-181 | Chunks passed on and pending characters are the text, the new character behind them |
| `Printf.Out.Flush` | src/libc/stdio.c:166-171 | All of the text is passed on |
| `Printf.Out.EmitPaddedString` | src/libc/stdio.c:98-113 | The string with spaces before or behind it up to the width |
| `Printf.Out.EmitNumber` | src/libc/stdio.c:115-156 | Emits padding, sign, prefix, zeros and digits in that order and amount |
| `Printf.Out.Format` | src/libc/stdio.c:183-369 | The text of all directives, in order |
| `Printf.Vsnprintf` | src/libc/stdio.c:419-442 | Stores the text cut to what fits and a terminator, leaves the rest of the buffer alone, and returns the length of the whole text |
| `Printf.Vprintf` | src/libc/stdio.c:396-409 | The chunks written, none empty and none longer than the buffer, add up to the whole text |

## Left out

- Bitmaps are arrays of booleans and superblock, group descriptors and inodes are typed records: their byte layout in the image, and the range checks on it, are not part of this model.
- Geometry: a well-formed volume is assumed (`Geometry.Ok`), since the group count of `src/fs/ext2.c:938` ignores the first data block; a volume on which the groups do not cover the blocks is not modelled.
- Double and triple indirect blocks, links other than a directory's own, and file kinds other than regular files and directories.
- Ext2DirOps.FindInDir: on a malformed directory it promises only that what it finds has a proper name in a directory; the byte-level scans are modelled for any block, but the operations on the volume assume directories whose records tile.
- Ext2DirOps.AddDirEntry: the name is assumed to be absent, as its callers ensure; what a duplicate would do is not stated.
- Ext2Mkdir.MakeDirectory: the link count is kept modulo 2^16, which is all the field holds; that it counts the subdirectories is not an invariant, because a failed mkdir raises it.
- Ext2Volume.Volume.MarkBlockUsed: block 0 is always marked, so freeing it, which the source accepts where the first data block is 0, is left out.
- The link count of a file is set and not kept as an invariant, since the source makes no second link.
- ext2_sync is an oracle that says whether the writeback succeeded and does not change the image; ext2_stat, ext2_list_dir and ext2_get_status only copy fields.
- Pmm.Allocator.Init: the memory map is an arbitrary list of usable ranges that do not overlap and do not wrap; the direct map of physical memory is left out, so a frame's link is the next frame's physical address.
- Page-table entries keep presence, the huge and user bits and the address; writable and no-execute are only in `Pte`, and what the processor does with them is left out. Activating a space is choosing the root, and the translation cache is left out.
- The heap's headers are typed values whose 32 bytes are left open; the contents of fresh pages are arbitrary. The heap is used while one address space is active.
- Heap.KernelHeap.Krealloc: the source panics when a pointer is not live or its header is overwritten; the model asks for a live pointer.
- Loader.LoadProgram: a failed load leaks the frames it took, as the source does; how many is not stated. Names, working directories and the read of the file are left out.
- UserMemory.WriteUserBytes: it assumes that different pages of the range lead to different frames and that mapped user pages are data pages; what a failed write has changed is not stated.
- Scheduler: interrupts, the assembly that enters and leaves user mode, and the kernel context are abstract steps; what a program does between its system calls is any sequence of calls. Counters, process ids among them, are unbounded, where the source has 64 bits.
- Console: pixels, colours, glyphs and pitch are left out; the screen is a grid of cells as they look, and scrolling moves whole rows of them.
- Printf.Out.Format: it starts from parsed directives; the scanning of the format string and of its flags, widths and length modifiers, and the reading of variable arguments, are left out. Widths and precisions are unbounded integers.
- Drivers, assembly, descriptor tables, the shell, logging and key buffers.
