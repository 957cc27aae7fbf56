# Verified model of the kernel's storage and memory layers

This project models the stateful C code of a small RISC-V kernel in Dafny and proves that its heap and disk invariants
hold over every run. It has four stacks, each proved against the abstract view of the layer below it.

* **ext2 over a write-back block cache.** `BlkCache` is the 64-slot pinned cache; its logical view `L`, one block of
  4096 bytes per number, is what everything above reads and writes. `Bitmap`, `Layout`, `AllocLemmas` and `Balloc` are
  the block and inode allocators with their three redundant counters; `Mount` loads the group descriptors. `FileTree`,
  `FileView`, `InodeImage` and `Ext2File` are block pointer trees, the byte view of files, on-disk inodes, reading and
  writing. `Branches` and `Ext2Truncate` free whole trees. `DirBlock`, `DirView` and `Ext2Dir` are directory records
  and the name-to-inode map they spell. `VfsState`, `Ext2Inodes`, `InodeCache`, `VfsOps`, `VfsNames` and `Namex` are
  the mounted file system: cached inodes, references, create, unlink, read, write and path resolution.
* **Sv39 page tables over the page freelist.** `Kalloc`, `PageTree`, `Vm`, `Freewalk`, `Argv` and `SetupArgv` for the
  copies into user memory that build an argument block, and `UserStack` for the stack they go on. Entries follow
  section 4.4 of the RISC-V Privileged Architecture, version 20211203.
* **The slab allocator and `kmalloc`.** `SlabMem`, `SlabPage`, `SlabList`, `SlabHeld`, `Slab`, `Kmalloc`.
* **Smaller cores.** `ListHead` (the pointer ring of `list.h`), `Pid`, and `Virtio`, the driver and device as a step
  system over a split virtqueue (section 2.7 of VirtIO 1.2). `Arith`, `Seqs` and `Bytes` hold arithmetic, sequences
  without repetition and little-endian fields.

Structures the source updates in place are classes with methods; loops are loops. A method is proved against a
function or a predicate of the old and the new state, and lemmas prove what the source promises about that. One
invariant goes through every file system operation (`VfsOps.Vfs.Valid`): the cache shows the logical disk, counters
equal the clear bits of the bitmaps, pointer trees are sound, share no block and leak none, metadata areas lie outside
them, directories spell their maps, link counts cover the names, and the inode cache agrees with the disk. A `panic`
of the source is shown out of reach: its condition follows from the preconditions. Ghost fields (`L`, `pins`, `files`,
`meta`, `tree`, `free`, `fl`) carry the abstract state and are read by no executable statement. The result of
`kmalloc`, where the file system or `setup_argv` calls it, is a parameter (`memory`), so that both outcomes are
covered.

A property that fails for some inputs is stated exactly. `slabinit` stores the end mark of a slab's freelist behind
the last object. `cache_create` takes any size: from 1 to 4056 bytes it chooses a size of which a slab has objects
(`SlabPage.RoundedSizes`), and above that a slab has none (`SlabPage.NoObject`). For every size with objects the end
mark stays in the page exactly when the page tail holds a word, `(4096 - 40) % objsz >= 8`, and otherwise is the next
page's first word (`SlabPage.SentinelFits`). Over memory: no word of another page changes exactly for these sizes, or
where the word overwritten was null already (`Slab.Cache.SlabInit`); a free page there loses the rest of the freelist
(`SlabPage.FreelistCut`). Among the classes of `kmalloc` that is the 8-byte class (`SlabPage.EightByteClass`) and no
other (`SlabPage.GoodClasses`). A large piece of `kmalloc` has room for 4088 bytes, so what is handed out holds the
bytes asked for exactly up to that size (`Kmalloc.Allocator.Malloc`). A file write that runs out of disk space returns
early, so the size and the on-disk inode stay as they were although bytes were stored; `Ext2File.Ext2.FileWrite` says
so. `kexec` loses the page it has just taken when `vmmap` finds no memory for a table, and only then;
`UserStack.MapPage` says so.

What the files and tables mean is stated twice: by the functions the methods use, and once more over literal bytes,
bits and offsets, as the headers `ext2_def.h` and `riscv.h` and the shifts and casts of the code give them
(`FileTree.PtrIsWord`, `Bitmap.BitBytes`, `InodeImage.ImageFields`, `DirBlock.RecordFields`, `PageTree.EntryWalk` and
others). A function that read other bytes than the code would not meet these.

Where a comment of the source and its code differ, the code is modelled: the note on `ext2_unlink` says it only
removes the entry, but the code also drops the link and calls `iput`, so a last link that nobody holds takes the file
with it inside the call.

## Model

| member | source | states |
|---|---|---|
| BlkCache.Disk.BlkRead | driver/virtio_mmio.c:217-224 | reading a block gives the concatenation of its eight sectors |
| BlkCache.Disk.BlkWrite | driver/virtio_mmio.c:235-242 | writing a block replaces that block of the disk array and no other |
| BlkCache.Disk.BytesOfBlock | driver/virtio_mmio.c:217-242 | byte j of block no is byte j % 512 of sector 8 * no + j / 512 |
| BlkCache.HitKeeps | block/blk_cache.c:40-45 | a cache hit keeps the cache invariant with one more reference |
| BlkCache.EvictKeeps | block/blk_cache.c:59-73 | reusing an unpinned slot, written back when dirty, loses nothing: the logical view is unchanged and the loaded data is the logical block |
| BlkCache.StoreKeeps | block/blk_cache.c:85-90 | a store through a pinned slot changes the logical view at that slot's block only, and no slot of another block |
| BlkCache.SyncKeeps | block/blk_cache.c:117-125 | writing one dirty slot back keeps the invariant and the logical view |
| BlkCache.SyncedDisk | block/blk_cache.c:117-125 | with every slot clean the disk equals the logical view, except where a holder has stored without calling bwrite |
| BlkCache.FewPinsFreeSlot | block/blk_cache.c:47-57 | while fewer references are out than there are slots the panic of bread cannot happen |
| BlkCache.PinnedApart | block/blk_cache.c:36-74 | a block someone holds is in no other valid slot |
| BlkCache.BlockCache.Bread | block/blk_cache.c:36-74 | returns a pinned slot showing the logical block, changes the logical view nowhere, and evicts no pinned slot |
| BlkCache.BlockCache.FirstFree | block/blk_cache.c:48-54 | the victim is the first slot without references |
| BlkCache.BlockCache.Bwrite | block/blk_cache.c:85-90 | marks that slot dirty, changes no data, and settles what was stored through it |
| BlkCache.BlockCache.Brelse | block/blk_cache.c:101-109 | drops exactly one reference; all other pins stand |
| BlkCache.BlockCache.Bsync | block/blk_cache.c:117-125 | afterwards the disk shows the logical contents of every block not in the middle of a change |
| Bytes.LeRoundTrip | include/ext2/ext2_def.h:64-105 | a little-endian field read back gives the number stored, when it fits |
| Bytes.SpliceBytes | fs/ext2/dir.c:426-430 | a memcpy into a buffer changes the bytes copied over and no other |
| Bytes.LeBytes | include/ext2/ext2_def.h:64-105 | fields of two, four and eight bytes are read with the least significant byte first |
| Bytes.DigitsOf | include/ext2/ext2_def.h:64-105 | and stored so: byte i is digit i to base 256 |
| Bytes.PutU32Bytes | fs/ext2/dir.c:288-289 | storing a 32-bit field writes these four bytes and no other |
| Bytes.PutU16Bytes | fs/ext2/dir.c:554-554 | storing a 16-bit field writes these two bytes and no other |
| Bytes.I32Value | fs/ext2/dir.c:216-216 | the cast to i32 gives the one signed 32-bit number that agrees modulo 2^32 |
| Bytes.BitValue | fs/ext2/balloc.c:56-62 | bit k of a number is worth 2^k; setting or clearing it adds or takes off just that |
| Bitmap.BmSetBits | fs/ext2/balloc.c:61-62 | setting a bit of a bitmap changes that bit alone |
| Bitmap.BmClearBits | fs/ext2/balloc.c:133-135 | clearing a bit of a bitmap changes that bit alone |
| Bitmap.BitBytes | fs/ext2/balloc.c:54-63 | item i is bit i % 8, counted from the least significant, of byte i / 8 |
| Bitmap.SetBytes | fs/ext2/balloc.c:61-62 | setting a clear bit adds 1, 2, 4, ..., 128 to its byte and changes no other byte |
| Bitmap.ClearBytes | fs/ext2/balloc.c:133-135 | clearing a set bit takes as much off its byte and changes no other byte |
| Bitmap.CountDiffer | fs/ext2/balloc.c:61-76 | two bitmaps that differ in one bit differ by one in their number of clear bits |
| Bitmap.TakeFirstClear | fs/ext2/balloc.c:48-66 | the byte and bit search finds a clear bit exactly when the group has one, and then the lowest, and sets it alone: its byte grows by the bit's worth 1, 2, 4, ..., 128, all other bytes stay |
| Layout.ItemInGroup | fs/ext2/balloc.c:121-126 | group and bit of an item are in range and give the item back |
| Layout.GroupItem | fs/ext2/balloc.c:42-46 | bit i of group g is item g * per + i, also in a short last group |
| Layout.DescRoundTrip | fs/ext2/balloc.c:78-86 | the bytes of one group descriptor read back as that descriptor |
| Layout.DescFields | include/ext2/ext2_def.h:64-73 | the fields of a group descriptor, byte by byte |
| Layout.DescPosition | fs/ext2/balloc.c:78-82 | descriptor g lies 32 * g bytes behind the block after the superblock's |
| Mount.LoadTable | fs/ext2/super.c:96-129 | the mount loop, block after block, reads back the whole table of descriptors the allocators keep on the logical disk; nothing changes |
| AllocLemmas.TakeKeeps | fs/ext2/balloc.c:61-92 | the writes of an allocation keep bitmaps, descriptor images and both counters in agreement and take that item alone out of the free set |
| AllocLemmas.GiveKeeps | fs/ext2/balloc.c:133-152 | the writes of a release keep them in agreement and add that item alone |
| AllocLemmas.OneItemFlips | fs/ext2/balloc.c:133-135 | flipping one bit of one group changes the state of one item of one kind |
| AllocLemmas.EmptyGroup | fs/ext2/balloc.c:33-35 | a group whose count is zero has no free item, so skipping it misses nothing |
| AllocLemmas.NoFreeBefore | fs/ext2/balloc.c:51-71 | when all in-range bits below one are set no item of the group up to there is free |
| AllocLemmas.CounterIsCardinality | fs/ext2/balloc.c:91-92 | the superblock's count is the number of free items |
| AllocLemmas.GroupArithmetic | fs/ext2/balloc.c:42-46 | the 32-bit sums of the allocators do not wrap and give start and size of the group |
| AllocLemmas.OtherWriteKeeps | fs/ext2/balloc.c:38-92 | writing file data or an inode table disturbs no allocator state |
| Balloc.SbInfo.AllocBlock | fs/ext2/balloc.c:23-98 | 0 exactly when no block is free, otherwise the lowest-numbered free block, which is then used; free inodes and all data blocks are as before |
| Balloc.SbInfo.AllocInode | fs/ext2/ialloc.c:23-92 | 0 exactly when no inode is free, otherwise the lowest free number, which is then used |
| Balloc.SbInfo.FreeBlock | fs/ext2/balloc.c:111-153 | an allocated data block becomes free and nothing else does; numbers outside the groups change nothing |
| Balloc.SbInfo.FreeInode | fs/ext2/ialloc.c:104-144 | an allocated inode number becomes free and nothing else does; 0 and numbers outside the groups change nothing |
| Balloc.SbInfo.TryGroup | fs/ext2/balloc.c:32-96 | one round of the loop over the groups: the group's lowest free item is taken, or it has none and nothing changed |
| Balloc.SbInfo.TakeInGroup | fs/ext2/balloc.c:38-92 | within a group: the lowest clear bit is set and all counters follow, or nothing changes when there is none |
| Balloc.SbInfo.GiveInGroup | fs/ext2/balloc.c:130-152 | within a group: one bit is cleared and all counters follow |
| Balloc.SbInfo.Publish | fs/ext2/balloc.c:73-92 | bitmap, descriptor in memory, descriptor on disk and superblock count change together, keeping the allocator invariant |
| Balloc.SbInfo.InodeLoc | fs/ext2/inode.c:25-48 | every inode number of the file system has its place inside one block of its group's table; the panic is out of reach |
| Balloc.SbInfo.CounterIsFreeCount | fs/ext2/balloc.c:91-92 | the stored counter equals the number of free items at every moment |
| Balloc.SbInfo.CounterBytes | include/ext2/ext2_def.h:112-118 | the counters are the words at bytes 12 and 16 of the superblock, at byte 1024 of the disk |
| Balloc.SbInfo.GroupCounters | fs/ext2/balloc.c:76-86 | each group's two counts, in memory and in the descriptor's image, are the clear bits of its block and of its inode bitmap |
| Balloc.SbInfo.FreeBlockBit | fs/ext2/balloc.c:42-63 | block i of group g is free exactly when bit i % 8 of byte i / 8 of the group's block bitmap is clear |
| Balloc.SbInfo.FreeInodeBit | fs/ext2/ialloc.c:35-56 | the same for inode numbers, which start at 1 |
| Balloc.SbInfo.FreeRange | fs/ext2/balloc.c:42-46 | no block and no inode number outside the groups is free |
| FileTree.PutPtrAt | fs/ext2/dir.c:288-289 | storing one pointer leaves the other 1023 of an index block alone |
| FileTree.PtrIsWord | fs/ext2/dir.c:97-97 | pointer k of an index block is the little-endian word of bytes 4k to 4k + 3 |
| FileTree.PutPtrBytes | fs/ext2/dir.c:288-289 | storing pointer k writes these four bytes and no other |
| FileTree.ZeroPtrs | fs/ext2/dir.c:272-273 | a zeroed index block points nowhere |
| FileTree.AttachKeeps | fs/ext2/dir.c:262-290 | hanging a fresh block into an empty place keeps every tree sound, unshared and without leak, and changes that place only |
| FileTree.LeafWrite | fs/ext2/dir.c:294-299 | overwriting a data block changes no pointer of any file |
| FileTree.TreesSame | fs/ext2/balloc.c:73-92 | changes outside the blocks in use leave all trees as they are |
| FileView.PathOfInjective | fs/ext2/dir.c:85-124 | different logical blocks have different paths through the pointers |
| FileView.BlockPlaces | fs/ext2/dir.c:77-157 | a logical block lies behind pointer lbk of the inode, behind word lbk - 12 of the single indirect block, or behind a word of a block that a word of the double indirect block leads to |
| FileView.OffsetsSupported | fs/ext2/dir.c:158-160 | every byte a 32-bit offset can name lies in the supported range, so the triple indirect case is never met |
| FileView.ViewsSame | fs/ext2/balloc.c:73-92 | changes outside the blocks in use show in no file |
| FileView.AttachIndexView | fs/ext2/dir.c:262-275 | hanging an empty index block into a tree shows in no file |
| FileView.AttachLeafView | fs/ext2/dir.c:282-299 | hanging a data block under an empty place changes that logical block of that file and nothing else in any file |
| FileView.LeafWriteView | fs/ext2/dir.c:294-299 | overwriting the data block of a logical block changes that logical block of that file and nothing else in any file |
| FileView.GrowTop | fs/ext2/dir.c:262-275 | a zeroed index block under an inode pointer keeps the trees and every file's view |
| FileView.GrowBelow | fs/ext2/dir.c:330-346 | a zeroed index block under the double indirect block keeps the trees and every file's view |
| FileView.GrowDirect | fs/ext2/dir.c:239-254 | a fresh direct block writes exactly its logical block |
| FileView.GrowLeaf | fs/ext2/dir.c:355-373 | a fresh block under the last index block writes exactly its logical block |
| FileView.OverlayChunk | fs/ext2/dir.c:409-437 | one round of the write loop extends the overlay by one chunk and changes no other byte of any file |
| FileView.ReadChunk | fs/ext2/dir.c:195-214 | one round of the read loop extends the bytes read by one chunk of the file |
| FileView.BytesInBlocks | fs/ext2/dir.c:196-197 | byte o of a file is byte o % 4096 of its logical block o / 4096 |
| FileView.WrittenBytes | fs/ext2/dir.c:409-437 | a write leaves byte o - off of the data at byte o % 4096 of logical block o / 4096, and every other byte of every file as it was |
| InodeImage.DecodeImprint | fs/ext2/inode.c:189-207 | an inode written to its image and read back is the same, up to the 16-bit fields |
| InodeImage.DecodeFits | fs/ext2/inode.c:138-157 | what was read fits its fields, so a clean inode written again changes nothing |
| InodeImage.ImageFields | include/ext2/ext2_def.h:80-105 | the fields of an inode image, byte by byte |
| InodeImage.ImprintSlices | fs/ext2/inode.c:189-207 | where the fields are written; times, reserved words and the rest of the image stay |
| InodeImage.UsedCount | fs/ext2/inode.c:197-202 | i_blocks is eight for every pointer that is not null |
| InodeImage.Kept16 | fs/ext2/inode.c:191-196 | the disk keeps 16 bits of mode, owner, group and link count, and all of the rest |
| InodeImage.ImageFits | fs/ext2/inode.c:37-48 | images do not straddle blocks when the inode size divides the block size |
| InodeImage.InoPlace | fs/ext2/inode.c:25-48 | every image lies inside one block of its own group's table |
| InodeImage.InoPosition | fs/ext2/inode.c:25-48 | inode i of group g lies i inode sizes behind the start of the group's table |
| InodeImage.InoApart | fs/ext2/inode.c:25-48 | different inode numbers have disjoint images |
| InodeImage.WriteImage | fs/ext2/inode.c:185-210 | writing one image changes no other image |
| InodeImage.ImprintImage | fs/ext2/inode.c:177-214 | fields imprinted on an image where it lies decode to these fields, and every other image stays |
| Ext2File.Ext2.ReadBlock | fs/ext2/dir.c:65-160 | the contents of the logical block, zeros for a hole, found through the words of the index blocks; it fails only in the triple indirect range; nothing changes |
| Ext2File.Ext2.EnsureTop | fs/ext2/dir.c:262-275 | the inode pointer leads to an index block afterwards, zeroed when new, or the disk is full; no file reads differently |
| Ext2File.Ext2.EnsureBelow | fs/ext2/dir.c:321-348 | the same one level down, with the upper index block pinned meanwhile |
| Ext2File.Ext2.FillEntry | fs/ext2/dir.c:282-290 | a fresh block enters an empty index entry, or the disk is full and nothing changed |
| Ext2File.Ext2.WriteUnder | fs/ext2/dir.c:277-300 | the data block under an index entry holds the buffer and nothing else changed, or the disk is full and no file changed |
| Ext2File.Ext2.WriteDirect | fs/ext2/dir.c:239-254 | the direct case of the same |
| Ext2File.Ext2.WriteDouble | fs/ext2/dir.c:303-374 | the double indirect case, through every failed allocation |
| Ext2File.Ext2.WriteBlock | fs/ext2/dir.c:234-378 | success writes exactly that logical block of that file; failure means a hole and a full disk, changes no file and leaks no block; the global invariant holds on every path |
| Ext2File.Ext2.ReadInode | fs/ext2/inode.c:121-163 | an inode not read yet takes the fields and the type of its image; one read before keeps what it holds |
| Ext2File.Inode.FieldNames | fs/ext2/inode.c:138-157 | each field in memory is the field of that name on disk |
| Ext2File.ModeTypes | fs/ext2/inode.c:144-151 | the top four mode bits tell directories (4) and symbolic links (10) from files |
| Ext2File.Ext2.WriteInode | fs/ext2/inode.c:177-214 | the image becomes what memory holds; no other image and no file changes |
| Ext2File.Ext2.WriteChunks | fs/ext2/dir.c:409-437 | the loop overlays exactly the first bytes of the data, all of them or up to where the disk is full |
| Ext2File.Ext2.FileRead | fs/ext2/dir.c:177-217 | the bytes of the file from offset on, no more than asked for, none behind the end of the file, and fewer only up to that end; holes read as zeros |
| Ext2File.Ext2.FileWrite | fs/ext2/dir.c:396-450 | overlays exactly the first bytes of the data at offset, as many as offset moves on, and changes no other byte of any file; size becomes max(old, end) exactly for complete writes; short writes mean a full disk, -1 that nothing was written |
| Ext2File.Ext2.WriteChunk | fs/ext2/dir.c:409-433 | read, overlay and write back of one chunk: exactly these bytes, or a full disk and no change |
| Ext2File.Ext2.FinishWrite | fs/ext2/dir.c:439-449 | the size grows to the end of the data and the inode on disk agrees with memory |
| Branches.BranchIsBelow | fs/ext2/inode.c:265-286 | the blocks collected by the recursion are exactly those at a place and its extensions |
| Branches.ReachIsNodes | fs/ext2/inode.c:303-322 | the blocks of a file are exactly those its non-null pointers lead to |
| Branches.BranchesApart | fs/ext2/inode.c:276-280 | subtrees under different places share no block |
| Branches.NodeNotInKids | fs/ext2/inode.c:270-285 | an index block is not below its own entries, so it is still in use while its children are freed |
| Branches.TopsApart | fs/ext2/inode.c:310-322 | the trees under different inode pointers share no block |
| Branches.DropFile | fs/ext2/inode.c:303-327 | dropping all pointers of a file and freeing its blocks leaves the other files sound, unshared and without leak |
| Ext2Truncate.FreeBranch | fs/ext2/inode.c:265-286 | frees exactly the blocks at and below a block, each once; the count of free blocks rises by their number |
| Ext2Truncate.FreeKids | fs/ext2/inode.c:271-281 | frees exactly the subtrees of an index block, which stays pinned and unchanged |
| Ext2Truncate.TruncateInode | fs/ext2/inode.c:303-327 | exactly the file's blocks become free, the superblock's counter rises by their number, all other files and inodes are unchanged, and the inode on disk is empty |
| DirBlock.NewRecord | fs/ext2/dir.c:556-563 | the record just written reads back; bytes outside it are as before |
| DirBlock.RecordFields | include/ext2/ext2_def.h:172-178 | the fields of a directory record, byte by byte |
| DirBlock.BytesOfRecord | fs/ext2/dir.c:559-563 | the bytes written for a record: inode, record length, name length, file type, name |
| DirBlock.Relength | fs/ext2/dir.c:554-554 | a record whose length changes still says the same while its name fits |
| DirBlock.SplitInsertLive | fs/ext2/dir.c:547-563 | splitting a record's slack adds exactly the new entry, right behind that record, and the block stays tiled |
| DirBlock.MergeLive | fs/ext2/dir.c:832-834 | merging a record into its predecessor removes exactly its entry and the block stays tiled |
| DirBlock.ZeroFirstLive | fs/ext2/dir.c:835-837 | zeroing the first record's inode removes exactly its entry |
| DirBlock.FreshBlockLive | fs/ext2/dir.c:577-583 | a new block holds exactly one entry, in a record that fills it |
| DirView.InsertLookup | fs/ext2/dir.c:489-493 | a new name put in anywhere is found, every other name leads where it led |
| DirView.RemoveLookup | fs/ext2/dir.c:489-493 | an entry taken out is gone, every other name leads where it led |
| DirView.AddInBlock | fs/ext2/dir.c:547-563 | the same for one block among the blocks of a directory |
| DirView.AddNewBlock | fs/ext2/dir.c:577-592 | the same for a block appended to a directory |
| DirView.RemoveInBlock | fs/ext2/dir.c:824-841 | the same for an entry removed from one block |
| DirView.LookupStep | fs/ext2/dir.c:478-497 | searching block after block finds what a search of all entries finds |
| DirView.BlocksOfSize | fs/ext2/dir.c:475-475 | a directory has just enough blocks for its size |
| Ext2Dir.SearchBlock | fs/ext2/dir.c:482-496 | the record loop finds a live record of that name exactly when the block holds one, with its predecessor |
| Ext2Dir.FindSlack | fs/ext2/dir.c:533-570 | the record loop finds a record with room exactly when the block has one |
| Ext2Dir.FindEntry | fs/ext2/dir.c:474-499 | the inode number the name leads to in the directory's map, 0 for none; nothing changes |
| Ext2Dir.InsertAt | fs/ext2/dir.c:547-567 | the slack edit binds the name, moves no other name and changes no other file |
| Ext2Dir.AppendBlock | fs/ext2/dir.c:577-592 | a new block binds the name and lengthens the directory, or the disk is full and no name leads elsewhere |
| Ext2Dir.AddEntry | fs/ext2/dir.c:518-593 | an absent name is bound and every other name keeps its inode; the directory grows only when no block has room; failure means a full disk and changes no name |
| Ext2Dir.RemoveEntry | fs/ext2/dir.c:801-841 | exactly that name is unbound, whether its record merges into the one before it or is the first of its block |
| VfsState.AddLink | fs/ext2/dir.c:556-563 | a name for a file with a link to spare keeps names within link counts |
| VfsState.RemoveLink | fs/ext2/dir.c:844-851 | a name that goes leaves its target a link to lose |
| VfsState.FileChanged | fs/vfs.c:239-260 | when one file and its metadata change in step the meaning of the file system stays in order |
| VfsState.FileAdded | fs/ext2/dir.c:618-642 | a new empty file disturbs no name, no file and no link count |
| VfsState.FileGone | fs/vfs.c:58-61 | a file without links goes and disturbs no other file or name |
| Ext2Inodes.AllocatorOnly | fs/ext2/ialloc.c:56-86 | bitmap and counter changes show in no file and in no inode image |
| Ext2Inodes.TakeInode | fs/ext2/ialloc.c:23-92 | taking an inode number changes nothing any file or inode shows |
| Ext2Inodes.ReleaseFile | fs/vfs.c:58-61 | truncate and free_inode give back exactly the file's blocks and its number; no other file or inode changes |
| Ext2Inodes.NewImageDecodes | fs/ext2/dir.c:634-639 | the cleared slot with mode and link count reads back as an empty regular file with one link |
| Ext2Inodes.ModeBits | fs/ext2/dir.c:638-638 | a created file is a regular one with the twelve permission bits asked for |
| Ext2Inodes.NewFields | fs/ext2/dir.c:634-639 | a created file has one link, size 0, no blocks, and no owner, group or flags set |
| Ext2Inodes.InitInode | fs/ext2/dir.c:622-642 | the new inode's image is written, every other image and every file stays |
| InodeCache.RefKeeps | fs/ext2/inode.c:70-73 | a hit keeps the inode cache coherent |
| InodeCache.MissKeeps | fs/ext2/inode.c:95-106 | an inode read from disk joins a coherent cache, still one per number |
| InodeCache.DropKeeps | fs/vfs.c:62-71 | an inode the disk agrees with may leave: fetching it again gives the same |
| InodeCache.ForgetKeeps | fs/vfs.c:58-71 | the inode of a deleted file leaves, the rest stays coherent |
| InodeCache.ChangeKeeps | fs/ext2/inode.c:177-214 | a cached inode changes in memory, and on disk unless it is dirty; the cache stays coherent |
| InodeCache.WrittenBack | fs/vfs.c:62-64 | an inode written back leaves the cache coherent |
| InodeCache.NewFileKeeps | fs/ext2/dir.c:618-642 | a new file that is not cached keeps the cache coherent |
| VfsOps.Vfs.constructor | fs/ext2/super.c:131-152 | after mounting, the root is cached and held, and the invariant holds |
| VfsOps.Vfs.Iget | fs/ext2/inode.c:61-109 | the cached inode with one more reference or a new one read from disk, at most one per number; null exactly for 0 or when an inode not cached finds no memory |
| VfsOps.Vfs.Iput | fs/vfs.c:42-72 | one reference fewer; blocks and number are given back exactly when the last reference and the last link are gone, otherwise nothing is; the root stays |
| VfsOps.Vfs.Discard | fs/vfs.c:58-61 | deleting a file without links gives back exactly its blocks and its number, and files that remain read as before |
| VfsOps.Vfs.Flush | fs/vfs.c:62-64 | afterwards the disk agrees with the inode; no file reads differently |
| VfsOps.Vfs.Evict | fs/vfs.c:66-71 | exactly that inode leaves the cache and the counter follows |
| VfsNames.Lookup | fs/ext2/dir.c:466-500 | the inode the name leads to with one more reference; null exactly when there is no such name, the inode is no directory, or memory is short for an inode not cached |
| VfsNames.AddName | fs/ext2/dir.c:518-593 | on a mounted file system: the tree of names gains exactly this name |
| VfsNames.RemoveName | fs/ext2/dir.c:801-841 | on a mounted file system: the tree of names loses exactly this name |
| VfsNames.NewFile | fs/ext2/dir.c:617-642 | the lowest free inode number becomes an empty regular file with one link; no other file changes |
| VfsNames.ForgetFile | fs/ext2/dir.c:645-648 | the file that got no name goes again, number and all |
| VfsNames.MakeFile | fs/ext2/dir.c:617-650 | on disk: the lowest free inode number becomes an empty file under this name, or nothing is named and no number is lost |
| VfsNames.Create | fs/ext2/dir.c:611-652 | without room nothing is named and no inode number is lost; otherwise the name leads to the lowest free inode, every other name and file is as before, and one reference is handed out |
| VfsNames.DropLink | fs/ext2/dir.c:845-850 | the target loses one link in memory and on disk |
| VfsNames.Unlink | fs/ext2/dir.c:801-862 | -1 exactly when the name is not there; otherwise exactly that name goes, and the file goes exactly when it was its last link and nobody holds it; references are balanced |
| VfsNames.Absorbed | fs/ext2/inode.c:177-214 | a step that changes one file and its cached inode consistently restores the invariant of the whole file system |
| VfsNames.Write | fs/vfs.c:239-260 | what a file write does to one file, and nothing to any other file, name or reference |
| VfsNames.Read | fs/vfs.c:210-231 | the bytes of the file from offset on, no more than asked for, none behind its end, fewer only up to that end; nothing changes |
| VfsNames.WrittenReadsBack | fs/vfs.c:210-260 | the bytes just written are the bytes read back |
| Namex.ComponentsConcat | fs/vfs.c:80-110 | a slash separates: the names of a path are the names before it and the names after it |
| Namex.OneName | fs/vfs.c:94-110 | a piece without slashes is one name, whole up to 255 bytes and cut to 255 beyond; an empty piece is none |
| Namex.SlashesIrrelevant | fs/vfs.c:80-85 | repeated and trailing slashes name the same |
| Namex.SkipSlash | fs/vfs.c:80-85 | the position behind all slashes, with the same names ahead |
| Namex.PathNext | fs/vfs.c:94-110 | the next name of the path, the bytes up to the next slash or the end or the first 255 of them, and the rest after it; none exactly at the end |
| Namex.ReachedResolves | fs/vfs.c:163-177 | the walk gets to where the names lead or to nothing; with memory for every inode on the way it gets to where they lead |
| Namex.Walk | fs/vfs.c:120-179 | the inode that all names of the path lead to, or all but the last, which it yields; null exactly when the path is not absolute, has no last name to spare, a name leads nowhere, or an inode on the way that is not cached finds no memory; the inode returned has one more reference and every other as many as before, on every exit |
| Namex.WalkFrom | fs/vfs.c:137-178 | the loop keeps that one inode held and the goal the same |
| Namex.Step | fs/vfs.c:138-177 | one round either gives the answer, null exactly as in Walk, or moves one name on with the goal the same; references are balanced |
| ListHead.Init | include/list.h:20-24 | a ring without members |
| ListHead.Add | include/list.h:26-32 | the ring with the new member first, both directions in order |
| ListHead.AddTail | include/list.h:34-41 | the ring with the new member last |
| ListHead.Del | include/list.h:43-47 | the ring without that member, the others in order |
| ListHead.Empty | include/list.h:49-52 | true exactly for a ring without members |
| ListHead.Members | include/list.h:67-68 | following next from the head meets every member once, in order, and stops |
| Kalloc.PutWordAt | mm/kalloc.c:37-40 | storing one word of a page leaves the other words alone |
| Kalloc.WordBytes | mm/kalloc.c:37-40 | word i of a page is bytes 8i to 8i + 7, the least significant first |
| Kalloc.ChainFrame | mm/kalloc.c:37-40 | pages that are not free may change without touching the freelist |
| Kalloc.Kmem.Kfree | mm/kalloc.c:30-41 | the page heads the freelist, which stays duplicate-free; one word of memory changes |
| Kalloc.Kmem.Kalloc | mm/kalloc.c:43-51 | null exactly when nothing is free; otherwise a free page, zeroed, that is free no more; no other page changes |
| Kalloc.Kmem.FreeRange | mm/kalloc.c:22-28 | exactly the whole pages between the two addresses join the freelist, each once |
| PageTree.PteRoundTrip | include/riscv.h:98-112 | address and flags survive PA2PTE and PTE2PA |
| PageTree.FlagBits | include/riscv.h:39-51 | in an entry made from an address and flags, V is bit 0, R, W and X are bits 1 to 3, U is bit 4, and the address is that of the page |
| PageTree.WithVBits | mm/vm.c:96-98 | PTE_V is added and no other bit of the permission changes |
| PageTree.PathBits | include/riscv.h:76-87 | the three indices are bits 30 to 38, 21 to 29 and 12 to 20 of the address, from the root down |
| PageTree.VaOfPathOf | include/riscv.h:76-87 | the three PX indices determine the page address |
| PageTree.PathOfVaOf | include/riscv.h:76-87 | every triple of indices is the path of exactly one page address below 2^39 |
| PageTree.EntryWalk | mm/vm.c:45-61 | the leaf entry of an address is what three table words, each reached through the page number of the one before, lead to |
| PageTree.SetLeaf | mm/vm.c:96-98 | storing a leaf entry changes one translation and keeps a tree without sharing |
| PageTree.Attach | mm/vm.c:52-57 | entering a zeroed table keeps a tree without sharing and every translation |
| PageTree.OtherPages | mm/kalloc.c:30-51 | changes to pages that are no tables leave all translations alone |
| Vm.Walk | mm/vm.c:45-61 | the place of the leaf entry; without alloc null exactly when a table is missing; with alloc null only when memory ran out, missing tables are added and no translation changes |
| Vm.Vmmap | mm/vm.c:79-107 | success maps exactly the range, page i to pa + i * 4096; failure means no memory and leaves exactly a mapped prefix; no other translation changes; the panics are out of reach |
| Vm.Uvmunmap | mm/vm.c:325-346 | exactly the mapped addresses of the range translate no more, and with free exactly the pages behind them are given back, each once |
| Vm.Uvmdealloc | mm/vm.c:360-373 | the pages between the two rounded sizes are unmapped and given back; otherwise nothing changes |
| Vm.Uvmalloc | mm/vm.c:390-411 | all or nothing: every page address of the new range gets a zeroed page of its own, or every address translates as before, every page but new tables is free again, and memory was short |
| Vm.ReadableBits | mm/vm.c:402-403 | PTE_R and PTE_V are added and no other bit of the permission changes |
| Vm.GrowOne | mm/vm.c:397-407 | one page for one address, or no translation changes and the page is given back |
| Vm.Rollback | mm/vm.c:398-406 | the failure exit restores the translations and the data pages of the start |
| Freewalk.SubtreesApart | mm/vm.c:234-237 | the subtrees of different entries share no table, and none contains the table itself |
| Freewalk.UnderSplit | mm/vm.c:232-242 | a table and the subtrees of its entries are all there is below it |
| Freewalk.Free | mm/vm.c:230-243 | from any table: exactly the tables at and below it are freed, each once, and read only before |
| Freewalk.FreeTree | mm/vm.c:230-243 | with all leaves cleared exactly the table pages join the freelist; tables and free pages together are conserved |
| Argv.CopyChunk | mm/vm.c:464-471 | a write inside one physical page shows at exactly those user addresses |
| Argv.CopyPage | mm/vm.c:452-476 | one round copies up to the end of the page, or the user may not touch it and nothing changes |
| Argv.Copyout | mm/vm.c:449-480 | true exactly when the user may touch the whole range; user memory changes at exactly the bytes copied, across page boundaries |
| Argv.AccessBits | mm/vm.c:454-461 | over the tables in memory: the user may touch an address exactly when the word its walk ends at has bits 0 and 4 set, and the page behind it has that word's page number |
| Argv.MappedAccess | mm/vm.c:79-107 | what vmmap mapped the user may touch exactly when bit 4 of the permission is set, and it lies in the pages given; every other address is as before |
| SetupArgv.BaseFacts | kernel/syscall/proccall.c:52-72 | the strings lie one behind the other up to the old stack pointer; the pointer array ends at the next multiple of 16 below them |
| SetupArgv.PutStrings | kernel/syscall/proccall.c:54-65 | all strings with terminators are in place, stacked downwards without overlap, exactly when the user may touch their range |
| SetupArgv.PutPointers | kernel/syscall/proccall.c:74-88 | all pointers and the null are in place and the strings still are, exactly when the user may touch the array |
| SetupArgv.Setup | kernel/syscall/proccall.c:27-98 | succeeds exactly when memory and access allow; then the array at the new, aligned stack pointer leads to exact copies of the arguments and ends in null, and user memory outside the block is as before |
| SetupArgv.PointerWord | kernel/syscall/proccall.c:74-80 | reading pointer i back as a word gives the address of string i |
| UserStack.MapPage | kernel/syscall/proccall.c:234-241 | kalloc and vmmap: a zeroed page at that address, the user's exactly when bit 4 of the permission is set, every other address as before; or memory was short, and the page taken is lost exactly when it was vmmap that failed |
| UserStack.MapStack | kernel/syscall/proccall.c:226-242 | every address of the stack is the user's and reads zero, or memory was short and only a lower part is there |
| UserStack.StartStack | kernel/syscall/proccall.c:226-257 | once the stack is mapped, an argument block that fits on it is set up whenever kmalloc has memory, and the rest of the stack reads zero |
| SlabMem.PutWGet | mm/slab.c:101-103 | a store changes one word of memory |
| SlabMem.WordAtAddress | mm/slab.c:101-103 | the word at an address is the eight bytes from there on, the least significant first |
| SlabMem.Inserted | mm/slab.c:21-29 | the writes of list_insert make a doubly linked list with the slab first |
| SlabMem.Removed | mm/slab.c:9-19 | the writes of list_remove make the list without that slab |
| SlabPage.RoundedSizes | mm/slab.c:38-38 | cache_create chooses the smallest multiple of 8 that holds the bytes asked for, and one of which a slab has objects exactly for 1 to 4056 bytes |
| SlabPage.NoObject | mm/slab.c:52-52 | above 4056 bytes, and only there, a slab has no object and its list starts with the end mark |
| SlabPage.SlotPlaces | mm/slab.c:47-60 | the objects lie one behind the other from byte 40 of the page on, as many as fit |
| SlabPage.SentinelFits | mm/slab.c:58-63 | for every object size of which a slab has objects: the end mark lies in the slab's page exactly when the page tail holds a word, and otherwise is the next page's first word |
| SlabPage.EightByteClass | mm/slab.c:58-63 | for 8-byte objects the end mark is the first word of the next page |
| SlabPage.FreelistCut | mm/slab.c:63-63 | an end mark stored into a free page that is not the last cuts the freelist there |
| SlabPage.GoodClasses | mm/kmalloc.c:10-10 | all other size classes are fine |
| SlabPage.SlotsApart | mm/slab.c:58-62 | different objects do not overlap, in one slab or in two |
| SlabPage.FreeCount | mm/slab.c:85-89 | at most all objects are free, and fewer when one is handed out |
| SlabPage.TakeObject | mm/slab.c:85-87 | taking the first object keeps a well-formed slab with the rest of the list |
| SlabPage.GiveObject | mm/slab.c:101-103 | giving an object back keeps a well-formed slab with that object first |
| SlabPage.ThreadedChain | mm/slab.c:58-63 | objects threaded in order up to the end mark are all free |
| SlabList.ListInsert | mm/slab.c:21-29 | the list with that slab first; other lists and slab bodies untouched |
| SlabList.ListRemove | mm/slab.c:9-19 | the list without that slab; other lists and slab bodies untouched |
| SlabHeld.LinksKeepObjects | mm/slab.c:9-29 | list surgery writes no word of an object that is handed out |
| SlabHeld.GivenKeepsObjects | mm/slab.c:101-101 | the link stored into an object given back touches no object still handed out |
| Slab.Cache.constructor | mm/slab.c:31-45 | for any size, a cache without slabs and with the rounded object size; it satisfies the invariant when the page tail of a slab holds the end mark |
| Slab.Cache.SlabInit | mm/slab.c:47-64 | a page becomes a slab with all objects free in order, for every object size of which a slab has objects; no word of another page changes exactly when the end mark fits in the page tail or the word it overwrites was null |
| Slab.Cache.Alloc | mm/slab.c:66-95 | null exactly when no slab has a free object and there is no page; otherwise an object not handed out before; every slab on exactly one list; no object handed out is written |
| Slab.Cache.Free | mm/slab.c:97-117 | that object is free, every other as before and unwritten; at most two slabs stay empty; only slabs without live objects go back; a full slab becomes partial even with one object |
| Slab.Cache.Shrink | mm/slab.c:119-131 | two empty slabs are kept, the others go back, and nothing handed out is touched |
| Slab.Cache.Take | mm/slab.c:85-92 | the first free object of the slab is handed out; a slab with none left is on the full list |
| Slab.Cache.LiveApart | mm/slab.c:66-95 | live objects of a cache never overlap and lie between header and end mark |
| Slab.MoveSlab | mm/slab.c:105-110 | a slab changes lists; the three lists stay linked and disjoint |
| Kmalloc.SlabWordNotMagic | mm/kmalloc.c:48-49 | the first word of a slab is a link and never equals the magic |
| Kmalloc.Allocator.AllocationsApart | mm/kmalloc.c:19-41 | no two things handed out overlap, of whatever classes or whole pages |
| Kmalloc.FindClass | mm/kmalloc.c:34-38 | the loop finds the one class that is the smallest to hold that many bytes |
| Kmalloc.ClassSizes | mm/kmalloc.c:10-10 | the classes are the powers of two from 8 to 2048 |
| Kmalloc.Allocator.Malloc | mm/kmalloc.c:19-41 | null exactly for size 0 or without memory; otherwise an object of the smallest class that fits or a whole page, not handed out before, which holds the bytes asked for exactly up to 4088; pages are conserved and nothing handed out is written |
| Kmalloc.Allocator.Mfree | mm/kmalloc.c:43-57 | every pointer goes back to the allocator it came from; pages are conserved and nothing else handed out is written |
| Kmalloc.Allocator.Discriminator | mm/kmalloc.c:48-56 | the word at the start of the page tells whole pages from slabs, and a slab names its own cache |
| Pid.PidTable.CheckPid | kernel/task/proc.c:32-35 | tells whether the number is taken |
| Pid.PidTable.SetPid | kernel/task/proc.c:22-25 | that number is taken, no other changes |
| Pid.PidTable.FreePid | kernel/task/proc.c:27-30 | that number is free, no other changes |
| Pid.PidTable.AllocPid | kernel/task/proc.c:37-55 | -1 exactly when every number after the last and every unreserved number is taken; otherwise the cyclically next free one, taken, no other bit changed |
| Pid.AllProbed | kernel/task/proc.c:41-45 | 32768 probes pass over every candidate |
| Virtio.PollAnswers | driver/virtio_mmio.c:199-205 | the poll loop ends only after the device dealt with this very request |
| Virtio.ServeSettles | driver/virtio_mmio.c:164-187 | the device finds a well-formed chain and carries out this sector of the job, or reports a failure and does nothing |
| Virtio.RequestChain | driver/virtio_mmio.c:164-187 | the three descriptors: header, the 512 bytes of the sector, writable by the device exactly for a read, and the status byte |
| Virtio.PublishKeeps | driver/virtio_mmio.c:193-194 | the entry just published is the one the device takes next, also where the 16-bit index wraps |
| Virtio.StepKeeps | driver/virtio_mmio.c:159-206 | every step of either side keeps the protocol invariant |
| Virtio.RunSafe | driver/virtio_mmio.c:159-206 | in every interleaving at most one request is outstanding and the used index equals the available index whenever the driver does not poll |
| Virtio.JobDone | driver/virtio_mmio.c:217-242 | a finished write leaves the data in its block, a finished read the block in the buffer, and no other sector changed, under every interleaving |
| Virtio.BytesOfBlock | driver/virtio_mmio.c:217-242 | byte j of block no is byte j % 512 of sector 8 * no + j / 512 |
| Virtio.WriteThenRead | driver/virtio_mmio.c:217-242 | writing and then reading a block gives the data back, under every interleaving |
| Virtio.StepCounts | driver/virtio_mmio.c:199-201 | every step but an idle poll brings the end of the job nearer |
| Virtio.Progress | driver/virtio_mmio.c:159-206 | until the job is over some step that brings its end nearer can be taken |
| Virtio.NoFailureNoPanic | driver/virtio_mmio.c:203-205 | the panic is out of reach when the device fails no request |

## Left out

- Boot, traps, context switch, console, scheduler, system call dispatch, `kexec` apart from the user stack and `setup_argv`, the reference counts of `fs/file.c`, and the loops of `lib/string.c`, which appear as sequence operations.
- Concurrency and locks: `include/lock.h` is empty, and only the disk device runs beside the kernel here.
- Block sizes other than 4096, the unit of the cache and the driver; the block-size guards of the file operations are therefore constant.
- The superblock's fixed fields are a constant record (`Layout.Geometry`); the mount code that computes it is modelled only for the descriptor table and the root inode. Its preconditions are those of 32-bit arithmetic: block count plus one group below 2^32.
- Null checks after `bread`: it never returns null, so those branches are not written.
- Sequences `bread`, copy, `brelse` and `bread`, change, `bwrite`, `brelse` are methods of `BlkCache` and `Balloc` used by all callers; a block's bytes are a sequence value that a store replaces.
- BlkCache.BlockCache.Brelse: the last reference must not go between a store and its `bwrite`, and someone must hold one; the panic for a reference count of 0 is out of reach.
- Balloc.SbInfo.FreeBlock: does not cover freeing a free block or a metadata block, which the code does not check.
- Balloc.SbInfo.FreeInode: does not cover freeing a free inode, which the code does not check.
- Ext2File.Ext2.FileRead: the 64-bit sum of offset and length must not wrap.
- Ext2File.Ext2.FileWrite: needs an end below 2^32, where the 32-bit offset does not wrap; triple indirect blocks are not written.
- Ext2Dir.AddEntry: needs a name of 1 to 255 bytes that is not there yet, and room for one more block below the 32-bit size; the file-type byte of a record is written but nothing reads it, so it is not part of `DirBlock.Binding`.
- VfsNames.Unlink: is stated for a directory inode and, as in the code, does not ask what the target is; removing directories as such is not modelled.
- VfsNames.Create: is stated for a directory inode and a name that is not there.
- VfsNames.Lookup: names of 256 bytes and more, which the code compares by the low byte of their length, are not covered; paths never yield one.
- VfsNames.Write: is stated for inodes that are no directories and an end below 2^32.
- VfsNames.Read: the 64-bit sum of offset and length must not wrap.
- `ext2_mkdir`, whose directory count goes to a block other than the one the allocators use, and the meaning of `i_blocks`.
- Mount.LoadTable: its failure exits for short memory, which return what was taken so far, are not modelled.
- VfsOps.Vfs.Iget: is stated for 0 and the numbers of files in use; the inode cache is a sequence of objects; its pointer ring is proved apart in `ListHead`. Memory of inodes is not taken from `Kmalloc`.
- Kalloc.Kmem.Kfree: does not cover freeing a free page, which the code does not check.
- Vm.Walk: is stated for addresses below 2^39; the code masks the index bits of larger ones.
- Vm.Uvmunmap: is stated for page addresses below 2^39 and, with free, for pages that are mapped once and not free.
- Vm.Vmmap: needs an aligned range below 2^39 that is not mapped and a permission with one of R, W, X.
- `kvmmap` and the kernel's map, `uvmmapkernel`, `uvmfreewalk`, `uvmfree` and the satp register: user and kernel share tables there, so the statement that the user tree is private does not hold.
- Argv.Copyout: user pages are assumed to be memory of their own, as `uvmalloc` gives them.
- SetupArgv.Setup: the block must not reach below address 0; the array of pointers is an ordinary array, not `kmalloc` memory.
- SlabPage.SlabOk: `freenum` and `objectsnum`, two adjacent 32-bit fields, are one 64-bit word of the header.
- Slab.Cache.Alloc: is, like Free and Shrink, for caches of sizes whose page tail holds the end mark; a cache of another size damages the page behind each slab, or has no objects, as stated above.
- Slab.Cache.constructor: the page the struct takes is a parameter.
- Kmalloc.Allocator.Malloc: sizes 1 to 8 are left out, as the 8-byte class breaks its next page; struct cache is an object and not a page.
- Kmalloc.Allocator.Mfree: needs a pointer that is handed out, or null.
- Virtio: memory barriers, the queue's registers and `blkinit`; the elements of the used ring, which the driver does not read. The device is assumed to publish the used index after data and status, and to leave the disk alone when it reports a failure.
