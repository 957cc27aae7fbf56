/** fs/ext2/balloc.c and fs/ext2/ialloc.c: the two bitmap allocators, proved exact first fit. */
module Balloc {
  import opened Arith
  import opened Bytes
  import opened BlkCache
  import opened Bitmap
  import opened Layout
  import opened AllocLemmas
  import opened InodeImage

  /** struct ext2_sb_info: the mounted superblock (pinned in slot sbBuf), the group descriptor table in memory,
      and the block cache everything goes through. */
  class SbInfo {
    const cache: BlockCache
    const geo: Geometry
    const gb: array<Desc>
    const sbBuf: nat
    ghost const role: nat -> Role
    ghost const tables: seq<u32>

    ghost predicate Valid()
      reads this, gb, cache, cache.slots, cache.disk
    {
      && gb as object != cache.slots
      && cache.Valid() && cache.loose == {} && cache.Pinned(sbBuf, SUPER_BLOCK)
      && AllocInv(geo, role, cache.L, gb[..])
      && TablesOk(geo, role, |cache.L|, tables) && TableSeq(gb[..]) == tables
    }

    /** The state ext2_fs_init leaves: superblock pinned, descriptor table loaded. */
    constructor (cache: BlockCache, geo: Geometry, gb: array<Desc>, sbBuf: nat, ghost role: nat -> Role,
        ghost tables: seq<u32>)
      requires gb as object != cache.slots && cache.Valid() && cache.loose == {} && cache.Pinned(sbBuf, SUPER_BLOCK)
      requires AllocInv(geo, role, cache.L, gb[..])
      requires TablesOk(geo, role, |cache.L|, tables) && TableSeq(gb[..]) == tables
      ensures Valid() && this.cache == cache && this.geo == geo && this.gb == gb && this.sbBuf == sbBuf
      ensures this.role == role && this.tables == tables
    {
      this.cache, this.geo, this.gb, this.sbBuf, this.role, this.tables := cache, geo, gb, sbBuf, role, tables;
    }

    /** The free items of one kind. */
    ghost function FreeSet(k: Kind): set<nat>
      requires Valid()
      reads this, gb, cache, cache.slots, cache.disk
    {
      FreeItems(geo, cache.L, gb[..], k)
    }

    /** Block b is free. */
    ghost predicate IsFreeBlock(b: nat)
      requires Valid()
      reads this, gb, cache, cache.slots, cache.disk
    {
      geo.firstDataBlock <= b && b - geo.firstDataBlock in FreeSet(Blocks)
    }

    /** Inode number ino is free. */
    ghost predicate IsFreeInode(ino: nat)
      requires Valid()
      reads this, gb, cache, cache.slots, cache.disk
    {
      1 <= ino && ino - 1 in FreeSet(Inodes)
    }

    /** The data blocks marked used. */
    ghost function InUse(): (r: set<nat>)
      requires Valid()
      reads this, gb, cache, cache.slots, cache.disk
    {
      UsedData(geo, role, FreeSet(Blocks))
    }

    /** Data blocks in use lie on the disk and are no metadata. */
    lemma InUseData()
      requires Valid()
      ensures forall b :: b in InUse() ==> 0 <= b < |cache.L| && role(b) == Data
    {
      hide FreeItems;
    }

    /** Free inode numbers are numbers of the file system, and every number lies in a group. */
    lemma InodeNumbers()
      requires Valid()
      ensures GeometryOk(geo) && forall x :: x in FreeSet(Inodes) ==> x < geo.inodesCount
      ensures forall ino: nat :: 1 <= ino && ValidIno(geo, ino) ==> (ino - 1) / geo.inodesPerGroup < geo.groups
    {
      hide TablesOk; hide GdtImages; hide GroupCounts; hide SuperCounts; hide MetaUsed; hide BlockCache.Valid;
      hide FreeItems; hide Times;
      AllocFacts(geo, role, cache.L, gb[..]);
      FreeItemsRange(geo, role, cache.L, gb[..], Inodes);
      forall ino: nat | 1 <= ino && ValidIno(geo, ino) ensures (ino - 1) / geo.inodesPerGroup < geo.groups {
        assert GroupOf(geo, Inodes, ino - 1) == (ino - 1) / geo.inodesPerGroup;
      }
    }

    /** The inode tables of a mounted file system. */
    lemma TableFacts()
      requires Valid()
      ensures TablesOk(geo, role, |cache.L|, tables) && role(SUPER_BLOCK) == Super
    {
      hide TablesOk; hide GdtImages; hide GroupCounts; hide SuperCounts; hide MetaUsed; hide BlockCache.Valid;
    }

    /** The superblock's counter of free items, as stored. */
    ghost function Counter(k: Kind): u32
      requires Valid()
      reads this, gb, cache, cache.slots, cache.disk
    {
      U32At(cache.L[SUPER_BLOCK], CounterOffset(k))
    }

    /** The counters are the 32-bit words at bytes 12 and 16 of the superblock, which starts at byte 1024 of block 0. */
    lemma CounterBytes()
      requires Valid()
      ensures |cache.L| > 0
      ensures var s := cache.L[0];
              && Counter(Blocks) == s[1036] as nat + 0x100 * s[1037] as nat + 0x1_0000 * s[1038] as nat
                                    + 0x100_0000 * s[1039] as nat
              && Counter(Inodes) == s[1040] as nat + 0x100 * s[1041] as nat + 0x1_0000 * s[1042] as nat
                                    + 0x100_0000 * s[1043] as nat
    {
      hide BlockCache.Valid; hide TablesOk; hide GdtImages; hide GroupCounts; hide MetaUsed; hide U32At;
      FieldBytes(cache.L[0], 1036);
      FieldBytes(cache.L[0], 1040);
    }

    /** bg_free_blocks_count and bg_free_inodes_count of a group, in memory and on disk, are the numbers of clear bits
        in its block and in its inode bitmap. */
    lemma GroupCounters(g: nat)
      requires g < geo.groups
      requires Valid()
      ensures GeometryOk(geo) && g < gb.Length && gb[g].blockBitmap < |cache.L| && gb[g].inodeBitmap < |cache.L|
      ensures gb[g].freeBlocks == ClearCount(cache.L[gb[g].blockBitmap], InGroup(geo, Blocks, g))
      ensures gb[g].freeInodes == ClearCount(cache.L[gb[g].inodeBitmap], InGroup(geo, Inodes, g))
      ensures GdtBlock(geo, g) < |cache.L|
              && cache.L[GdtBlock(geo, g)][GdtOffset(g)..GdtOffset(g) + 32] == DescBytes(gb[g])
    {
      hide BlockCache.Valid; hide TablesOk; hide AllocInv; hide DescBytes; hide ClearCount; hide InGroup;
      hide GeometryOk;
      AllocFacts(geo, role, cache.L, gb[..]);
      CountOfGroup(geo, role, cache.L, gb[..], Blocks, g);
      CountOfGroup(geo, role, cache.L, gb[..], Inodes, g);
    }

    /** A block is free when its bit is clear in the block bitmap of its group: block i of group g has bit i % 8 of byte
        i / 8. */
    lemma FreeBlockBit(b: nat, g: nat, i: nat)
      requires i < geo.blocksPerGroup && b == geo.firstDataBlock + g * geo.blocksPerGroup + i < geo.blocksCount
      requires Valid()
      ensures g < gb.Length && gb[g].blockBitmap < |cache.L| && i / 8 < 4096
      ensures IsFreeBlock(b) <==> !ByteBit(cache.L[gb[g].blockBitmap][i / 8], i % 8)
    {
      hide BlockCache.Valid; hide TablesOk; hide TableSeq; hide ByteBit; hide FreeItems; hide AllocInv;
      AllocFacts(geo, role, cache.L, gb[..]);
      FreeItemBit(geo, role, cache.L, gb[..], Blocks, g, i);
    }

    /** An inode number likewise, in the inode bitmap of its group; numbers start at 1. */
    lemma FreeInodeBit(ino: nat, g: nat, i: nat)
      requires i < geo.inodesPerGroup && ino == g * geo.inodesPerGroup + i + 1 <= geo.inodesCount
      requires Valid()
      ensures g < gb.Length && gb[g].inodeBitmap < |cache.L| && i / 8 < 4096
      ensures IsFreeInode(ino) <==> !ByteBit(cache.L[gb[g].inodeBitmap][i / 8], i % 8)
    {
      hide BlockCache.Valid; hide TablesOk; hide TableSeq; hide ByteBit; hide FreeItems; hide AllocInv;
      AllocFacts(geo, role, cache.L, gb[..]);
      FreeItemBit(geo, role, cache.L, gb[..], Inodes, g, i);
    }

    /** Nothing outside the groups is free. */
    lemma FreeRange(b: nat)
      requires Valid()
      ensures IsFreeBlock(b) ==> geo.firstDataBlock <= b < geo.blocksCount
      ensures IsFreeInode(b) ==> 1 <= b <= geo.inodesCount
    {
      hide BlockCache.Valid; hide TablesOk; hide TableSeq; hide FreeItems; hide AllocInv;
      FreeItemsRange(geo, role, cache.L, gb[..], Blocks);
      FreeItemsRange(geo, role, cache.L, gb[..], Inodes);
    }

    /** bread through the mounted file system. */
    method Hold(no: nat) returns (c: nat)
      requires Valid() && |cache.pins| < NBLKNUM && no < |cache.L|
      modifies cache`pins, cache.slots, cache.disk`sectors
      ensures Valid() && cache.pins == old(cache.pins) + multiset{c} && cache.Pinned(c, no)
      ensures forall i, x :: old(cache.Pinned(i, x)) ==> cache.Pinned(i, x)
      ensures InUse() == old(InUse()) && forall k: Kind :: FreeSet(k) == old(FreeSet(k))
    {
      hide BlockCache.Valid; hide AllocInv; hide TablesOk; hide TableSeq; hide FreeItems; hide UsedData;
      c := cache.Bread(no);
    }

    /** brelse. */
    method Release(c: nat, ghost no: nat)
      requires Valid() && cache.Pinned(c, no) && no != SUPER_BLOCK
      modifies cache`pins, cache.slots
      ensures Valid() && cache.pins == old(cache.pins) - multiset{c}
      ensures forall i, x :: old(cache.Pinned(i, x)) && i in cache.pins ==> cache.Pinned(i, x)
      ensures InUse() == old(InUse()) && forall k: Kind :: FreeSet(k) == old(FreeSet(k))
    {
      hide BlockCache.Valid; hide AllocInv; hide TablesOk; hide TableSeq; hide FreeItems; hide UsedData;
      cache.Brelse(c);
    }

    /** bread, copy out, brelse. */
    method Read(no: nat) returns (data: Block)
      requires Valid() && |cache.pins| < NBLKNUM && no < |cache.L|
      modifies cache`pins, cache.slots, cache.disk`sectors
      ensures Valid() && cache.pins == old(cache.pins) && data == cache.L[no]
      ensures forall i, x :: old(cache.Pinned(i, x)) ==> cache.Pinned(i, x)
      ensures InUse() == old(InUse()) && forall k: Kind :: FreeSet(k) == old(FreeSet(k))
    {
      hide BlockCache.Valid; hide AllocInv; hide TablesOk; hide TableSeq; hide FreeItems; hide UsedData;
      data := cache.Fetch(no);
    }

    /** bread, memcpy or memset over part of a block the allocators do not use, bwrite, brelse. */
    method WriteBytes(no: nat, offset: nat, bytes: seq<u8>)
      requires Valid() && |cache.pins| < NBLKNUM
      requires no < |cache.L| && NotAllocator(role(no)) && offset + |bytes| <= BLKSZ
      modifies cache, cache.slots, cache.disk`sectors
      ensures Valid() && cache.pins == old(cache.pins)
      ensures forall i, x :: old(cache.Pinned(i, x)) ==> cache.Pinned(i, x)
      ensures cache.L == old(cache.L)[no := Splice(old(cache.L)[no], offset, bytes)]
      ensures InUse() == old(InUse()) && forall k: Kind :: FreeSet(k) == old(FreeSet(k))
    {
      hide BlockCache.Valid; hide AllocInv; hide TablesOk; hide TableSeq; hide FreeItems; hide Splice;
      OtherWriteKeeps(geo, role, cache.L, gb[..], no, Splice(cache.L[no], offset, bytes));
      cache.Patch(no, offset, bytes);
    }

    /** A store through slot c, held by the caller, followed by bwrite. */
    method StoreThrough(c: nat, ghost no: nat, data: Block)
      requires Valid() && cache.Pinned(c, no) && NotAllocator(role(no))
      modifies cache, cache.slots
      ensures Valid() && cache.pins == old(cache.pins)
      ensures forall i, x :: old(cache.Pinned(i, x)) ==> cache.Pinned(i, x)
      ensures cache.L == old(cache.L)[no := data]
      ensures InUse() == old(InUse()) && forall k: Kind :: FreeSet(k) == old(FreeSet(k))
    {
      hide BlockCache.Valid; hide AllocInv; hide TablesOk; hide TableSeq; hide FreeItems;
      OtherWriteKeeps(geo, role, cache.L, gb[..], no, data);
      cache.Store(c, no, data);
      cache.Bwrite(c);
    }

    /** ext2_inode_loc: the block and byte offset of inode ino.  The panic for a group out of range is out of
        reach for the inode numbers of the file system. */
    method InodeLoc(ino: nat) returns (blkNo: nat, offset: nat)
      requires Valid() && ValidIno(geo, ino)
      ensures blkNo == InoBlock(geo, tables, ino) && offset == InoOffset(geo, ino)
      ensures blkNo < |cache.L| && role(blkNo).InodeTable? && offset + geo.inodeSize <= BLKSZ
    {
      hide BlockCache.Valid; hide GdtImages; hide GroupCounts; hide SuperCounts; hide MetaUsed; hide RolesOk;
      InoPlace(geo, role, |cache.L|, tables, ino);
      var idx := ino - 1;
      var group := idx / geo.inodesPerGroup;
      var local := idx % geo.inodesPerGroup;
      assert group == GroupOf(geo, Inodes, idx) && local == BitOf(geo, Inodes, idx);
      assert TableSeq(gb[..])[group] == gb[group].inodeTable;
      blkNo := gb[group].inodeTable + local * geo.inodeSize / BLKSZ;
      offset := local * geo.inodeSize % BLKSZ;
    }

    /** The superblock's counter is the number of free items. */
    lemma CounterIsFreeCount(k: Kind)
      requires Valid()
      ensures Counter(k) == |FreeSet(k)|
    {
      CounterIsCardinality(geo, role, cache.L, gb[..], k);
    }

    /** A data block in use is what ext2_free_block may be given. */
    lemma UsedIsNotFree(b: nat)
      requires Valid() && b in InUse()
      ensures geo.firstDataBlock <= b < geo.blocksCount && role(b) == Data && !IsFreeBlock(b) && b != 0
      ensures geo.blocksPerGroup > 0 && (b - geo.firstDataBlock) / geo.blocksPerGroup < geo.groups
    {
      hide BlockCache.Valid; hide GdtImages; hide GroupCounts; hide SuperCounts; hide MetaUsed;
      UsedItem(geo, role, cache.L, gb[..], Blocks, b - geo.firstDataBlock);
    }

    /** The writes of every allocation and release once bit search is over: the new bitmap through its pinned
        slot c (released here), group g's count changed by delta in memory and in the table on disk, the
        superblock's counter changed by delta. */
    method Publish(k: Kind, g: nat, c: nat, bm: Block, delta: int, ghost total: u32)
      requires cache.Valid() && cache.loose == {} && cache.Pinned(sbBuf, SUPER_BLOCK)
      requires gb as object != cache.slots && g < gb.Length
      requires cache.Pinned(c, Map(gb[g], k)) && Map(gb[g], k) != SUPER_BLOCK && |cache.pins| <= NBLKNUM
      requires GdtBlock(geo, g) < |cache.L|
      requires 0 <= Free(gb[g], k) + delta < 0x1_0000
      requires total == U32At(cache.L[SUPER_BLOCK], CounterOffset(k)) + delta
      modifies cache, cache.slots, cache.disk`sectors, gb
      ensures cache.Valid() && cache.loose == {} && cache.Pinned(sbBuf, SUPER_BLOCK)
      ensures cache.pins == old(cache.pins) - multiset{c}
      ensures forall i, b :: old(cache.Pinned(i, b)) && i in cache.pins ==> cache.Pinned(i, b)
      ensures gb[..] == old(gb[..])[g := old(WithFree(gb[g], k, Free(gb[g], k) + delta))]
      ensures cache.L == Updated(geo, old(cache.L), k, g, bm, gb[g], total)
    {
      hide BlockCache.Valid; hide DescBytes; hide Splice; hide PutU32; hide U32At;
      assert c != sbBuf;
      cache.PutAndRelease(c, Map(gb[g], k), bm);
      assert cache.Pinned(sbBuf, SUPER_BLOCK);
      gb[g] := WithFree(gb[g], k, Free(gb[g], k) + delta);
      cache.Patch(GdtBlock(geo, g), GdtOffset(g), DescBytes(gb[g]));
      assert cache.Pinned(sbBuf, SUPER_BLOCK);
      var sb := cache.slots[sbBuf].data;
      cache.Put(sbBuf, SUPER_BLOCK, PutU32(sb, CounterOffset(k), U32At(sb, CounterOffset(k)) + delta));
    }

    /** The invariant and the free items after a step of the allocators. */
    lemma AfterStep(L: seq<Block>, gb0: seq<Desc>, k: Kind, free: set<nat>)
      requires gb as object != cache.slots && cache.Valid() && cache.loose == {} && cache.Pinned(sbBuf, SUPER_BLOCK)
      requires AllocInv(geo, role, L, gb0) && TablesOk(geo, role, |L|, tables) && TableSeq(gb0) == tables
      requires Stepped(geo, role, L, gb0, cache.L, gb[..], k, free)
      ensures Valid() && FreeSet(k) == free && FreeSet(Other(k)) == FreeItems(geo, L, gb0, Other(k))
      ensures SameOutsideAllocator(L, cache.L, role)
    {
      hide BlockCache.Valid; hide BlockCache.Pinned; hide AllocInv; hide TablesOk; hide TableSeq; hide FreeItems;
    }

    /** Publishing a step of the allocators: the invariant holds again, with these items free. */
    method Commit(k: Kind, g: nat, c: nat, bm: Block, delta: int, ghost total: u32, ghost free: set<nat>)
      requires Valid() && |cache.pins| <= NBLKNUM && g < gb.Length && cache.Pinned(c, Map(gb[g], k))
      requires Map(gb[g], k) != SUPER_BLOCK && GdtBlock(geo, g) < |cache.L| && 0 <= Free(gb[g], k) + delta < 0x1_0000
      requires total == U32At(cache.L[SUPER_BLOCK], CounterOffset(k)) + delta
      requires var d := WithFree(gb[g], k, Free(gb[g], k) + delta);
               && Map(d, k) == Map(gb[g], k)
               && Stepped(geo, role, cache.L, gb[..], Updated(geo, cache.L, k, g, bm, d, total), gb[..][g := d], k,
                    free)
      modifies cache, cache.slots, cache.disk`sectors, gb
      ensures Valid() && cache.pins == old(cache.pins) - multiset{c}
      ensures forall i, b :: old(cache.Pinned(i, b)) && i in cache.pins ==> cache.Pinned(i, b)
      ensures FreeSet(k) == free && FreeSet(Other(k)) == old(FreeSet(Other(k)))
      ensures SameOutsideAllocator(old(cache.L), cache.L, role)
    {
      hide BlockCache.Valid; hide BlockCache.Pinned; hide AllocInv; hide TablesOk; hide TableSeq; hide FreeItems;
      hide Updated; hide SameOutsideAllocator; hide U32At; hide Map; hide Free; hide WithFree; hide CounterOffset;
      hide GdtBlock; hide Stepped;
      ghost var L, gb0 := cache.L, gb[..];
      Publish(k, g, c, bm, delta, total);
      AfterStep(L, gb0, k, free);
    }

    lemma FreeSetIs(k: Kind)
      requires Valid()
      ensures FreeSet(k) == FreeItems(geo, cache.L, gb[..], k)
    {
    }

    /** The search of a group's bitmap: its block pinned and a bit set in a copy of it, or the block released. */
    method SearchGroup(k: Kind, g: nat, n: nat) returns (found: bool, bit: nat, c: nat, bm: Block)
      requires Valid() && |cache.pins| < NBLKNUM && g < gb.Length && n <= BITS
      requires SUPER_BLOCK != Map(gb[g], k) < |cache.L|
      modifies cache`pins, cache.slots, cache.disk`sectors
      ensures Valid() && cache.L == old(cache.L)
      ensures FreeSet(k) == old(FreeSet(k)) && FreeSet(Other(k)) == old(FreeSet(Other(k)))
      ensures forall i, x :: old(cache.Pinned(i, x)) ==> cache.Pinned(i, x)
      ensures cache.pins == if found then old(cache.pins) + multiset{c} else old(cache.pins)
      ensures !found ==> forall i :: 0 <= i < n ==> BmBit(cache.L[Map(gb[g], k)], i)
      ensures found ==>
              && bit < n && cache.Pinned(c, Map(gb[g], k)) && bm == BmSet(cache.L[Map(gb[g], k)], bit)
              && !BmBit(cache.L[Map(gb[g], k)], bit)
              && forall i :: 0 <= i < bit ==> BmBit(cache.L[Map(gb[g], k)], i)
    {
      hide Valid; hide FreeSet; hide InUse; hide BmSet; hide BmBit; hide Bit; hide Map; hide Other;
      c := Hold(Map(gb[g], k));
      found, bit, bm := TakeFirstClear(cache.slots[c].data, n);
      if !found {
        Release(c, Map(gb[g], k));
      }
    }

    /** What both allocators do once group g has a positive count: search its bitmap, and when a clear bit is
        found set it, then publish the new counts. */
    method TakeInGroup(k: Kind, g: nat, n: nat) returns (found: bool, bit: nat)
      requires Valid() && |cache.pins| < NBLKNUM
      requires g < geo.groups == gb.Length && GeometryOk(geo) && n == InGroup(geo, k, g)
      modifies cache, cache.slots, cache.disk`sectors, gb
      ensures Valid() && cache.pins == old(cache.pins)
      ensures forall i, x :: old(cache.Pinned(i, x)) ==> cache.Pinned(i, x)
      ensures !found ==> cache.L == old(cache.L) && gb[..] == old(gb[..])
                         && NoneFrom(Times(g, Per(geo, k)), Times(g, Per(geo, k)) + n, old(FreeSet(k)))
      ensures found ==> bit < n && Times(g, Per(geo, k)) + bit in old(FreeSet(k))
                        && NoneFrom(Times(g, Per(geo, k)), Times(g, Per(geo, k)) + bit, old(FreeSet(k)))
                        && FreeSet(k) == old(FreeSet(k)) - {Times(g, Per(geo, k)) + bit}
      ensures FreeSet(Other(k)) == old(FreeSet(Other(k)))
      ensures SameOutsideAllocator(old(cache.L), cache.L, role)
    {
      hide BlockCache.Valid; hide AllocInv; hide TablesOk; hide TableSeq; hide FreeItems;
      hide InGroup; hide GeometryOk; hide BmSet; hide Times; hide BmBit; hide Bit; hide Stepped; hide NoneFrom;
      hide Other; hide Updated; hide SameOutsideAllocator; hide SumFree; hide U32At; hide PutU32; hide Map; hide Free;
      hide WithFree; hide Per; hide CounterOffset; hide GdtBlock; hide FreeSet;
      ghost var L, gb0 := cache.L, gb[..];
      FreeSetIs(k);
      AllocFacts(geo, role, L, gb0);
      EmptyGroup(geo, role, L, gb0, k, g);
      SameOutsideSelf(L, role);
      var c, bm;
      found, bit, c, bm := SearchGroup(k, g, n);
      if !found {
        NoFreeBefore(geo, role, L, gb0, k, g, n);
        return;
      }
      TakeStep(geo, role, L, gb0, k, g, bit);
      Commit(k, g, c, bm, -1, SumFree(gb0, k) - 1, FreeItems(geo, L, gb0, k) - {Times(g, Per(geo, k)) + bit});
    }

    /** One round of the loops of both allocators: nothing in this group, or its lowest free item is taken. */
    method TryGroup(k: Kind, g: nat) returns (found: bool, bit: nat)
      requires Valid() && |cache.pins| < NBLKNUM && g < geo.groups
      modifies cache, cache.slots, cache.disk`sectors, gb
      ensures Valid() && cache.pins == old(cache.pins)
      ensures forall i, x :: old(cache.Pinned(i, x)) ==> cache.Pinned(i, x)
      ensures !found ==>
              && cache.L == old(cache.L) && gb[..] == old(gb[..])
              && NoneFrom(Times(g, Per(geo, k)), Times(g + 1, Per(geo, k)), old(FreeSet(k)))
      ensures found ==>
              && bit < InGroup(geo, k, g) && Times(g, Per(geo, k)) + bit in old(FreeSet(k))
              && NoneFrom(Times(g, Per(geo, k)), Times(g, Per(geo, k)) + bit, old(FreeSet(k)))
              && FreeSet(k) == old(FreeSet(k)) - {Times(g, Per(geo, k)) + bit}
      ensures FreeSet(Other(k)) == old(FreeSet(Other(k)))
      ensures SameOutsideAllocator(old(cache.L), cache.L, role)
    {
      hide BlockCache.Valid; hide AllocInv; hide TablesOk; hide TableSeq; hide FreeItems; hide InGroup; hide BmBit;
      hide Times; hide UsedData; hide SameOutsideAllocator;
      found, bit := false, 0;
      ghost var L, gb0 := cache.L, gb[..];
      AllocFacts(geo, role, L, gb0);
      SameOutsideSelf(L, role);
      GroupArithmetic(geo, k, g);
      hide GeometryOk;
      if Free(gb[g], k) == 0 {
        EmptyGroup(geo, role, L, gb0, k, g);
        NoFreeBefore(geo, role, L, gb0, k, g, InGroup(geo, k, g));
        WholeGroup(geo, role, L, gb0, k, g);
        return;
      }
      var first: u32 := if k == Blocks then geo.firstDataBlock else 0;
      var count: u32 := if k == Blocks then geo.blocksCount else geo.inodesCount;
      var base: u32 := first + g * Per(geo, k);
      var n: u32 := Per(geo, k);
      if base + n > count {
        n := count - base;
      }
      found, bit := TakeInGroup(k, g, n);
      if !found {
        WholeGroup(geo, role, L, gb0, k, g);
      }
    }

    /** ext2_alloc_block: 0 exactly when no block is free, otherwise the lowest free block, now taken. */
    method AllocBlock() returns (b: nat)
      requires Valid() && |cache.pins| < NBLKNUM
      modifies cache, cache.slots, cache.disk`sectors, gb
      ensures Valid() && cache.pins == old(cache.pins)
      ensures forall i, x :: old(cache.Pinned(i, x)) ==> cache.Pinned(i, x)
      ensures b == 0 <==> old(FreeSet(Blocks)) == {}
      ensures b == 0 ==>
              cache.L == old(cache.L) && gb[..] == old(gb[..]) && FreeSet(Blocks) == {} && InUse() == old(InUse())
      ensures b != 0 ==> old(IsFreeBlock(b)) && forall x :: 0 <= x < b ==> !old(IsFreeBlock(x))
      ensures b != 0 ==> FreeSet(Blocks) == old(FreeSet(Blocks)) - {b - geo.firstDataBlock}
      ensures b != 0 ==>
              && b < geo.blocksCount && b < |cache.L| && role(b) == Data && InUse() == old(InUse()) + {b}
              && b !in old(InUse())
      ensures FreeSet(Inodes) == old(FreeSet(Inodes))
      ensures geo.blocksCount <= |cache.L| && forall x :: x in old(InUse()) ==>
              x < |cache.L| && cache.L[x] == old(cache.L)[x] && role(x) == Data
      ensures SameOutsideAllocator(old(cache.L), cache.L, role)
    {
      hide BlockCache.Valid; hide AllocInv; hide TablesOk; hide TableSeq; hide FreeItems; hide InGroup; hide BmBit;
      hide Times; hide UsedData;
      ghost var L, gb0 := cache.L, gb[..];
      AllocFacts(geo, role, L, gb0);
      FreeItemsRange(geo, role, L, gb0, Blocks);
      UsedDataKept(geo, role, FreeItems(geo, L, gb0, Blocks), L, L);
      NothingBefore(Per(geo, Blocks));
      var g := 0;
      while g < geo.groups
        invariant g <= geo.groups
        invariant Valid() && cache.pins == old(cache.pins) && cache.L == L && gb[..] == gb0
        invariant forall i, x :: old(cache.Pinned(i, x)) ==> cache.Pinned(i, x)
        invariant NoneFrom(0, Times(g, Per(geo, Blocks)), FreeItems(geo, L, gb0, Blocks))
      {
        GroupArithmetic(geo, Blocks, g);
        var base: u32 := geo.firstDataBlock + g * geo.blocksPerGroup;
        var found, bit := TryGroup(Blocks, g);
        if found {
          FreeIsData(geo, role, L, gb0, base + bit);
          UsedDataKept(geo, role, FreeItems(geo, L, gb0, Blocks), L, cache.L);
          return base + bit;
        }
        g := g + 1;
      }
      b := 0;
    }

    /** ext2_alloc_inode: 0 exactly when no inode is free, otherwise the lowest free inode number, now taken. */
    method AllocInode() returns (b: nat)
      requires Valid() && |cache.pins| < NBLKNUM
      modifies cache, cache.slots, cache.disk`sectors, gb
      ensures Valid() && cache.pins == old(cache.pins)
      ensures forall i, x :: old(cache.Pinned(i, x)) ==> cache.Pinned(i, x)
      ensures b == 0 <==> old(FreeSet(Inodes)) == {}
      ensures b == 0 ==> cache.L == old(cache.L) && gb[..] == old(gb[..]) && FreeSet(Inodes) == old(FreeSet(Inodes))
      ensures b != 0 ==> old(IsFreeInode(b)) && forall x :: 0 <= x < b ==> !old(IsFreeInode(x))
      ensures b != 0 ==> FreeSet(Inodes) == old(FreeSet(Inodes)) - {b - 1}
      ensures FreeSet(Blocks) == old(FreeSet(Blocks))
      ensures SameOutsideAllocator(old(cache.L), cache.L, role)
    {
      hide BlockCache.Valid; hide AllocInv; hide TablesOk; hide TableSeq; hide FreeItems; hide InGroup; hide BmBit;
      hide Times; hide UsedData;
      ghost var L, gb0 := cache.L, gb[..];
      AllocFacts(geo, role, L, gb0);
      FreeItemsRange(geo, role, L, gb0, Inodes);
      NothingBefore(Per(geo, Inodes));
      var g := 0;
      while g < geo.groups
        invariant g <= geo.groups
        invariant Valid() && cache.pins == old(cache.pins) && cache.L == L && gb[..] == gb0
        invariant forall i, x :: old(cache.Pinned(i, x)) ==> cache.Pinned(i, x)
        invariant NoneFrom(0, Times(g, Per(geo, Inodes)), FreeItems(geo, L, gb0, Inodes))
      {
        GroupArithmetic(geo, Inodes, g);
        var base: u32 := g * geo.inodesPerGroup;
        var found, bit := TryGroup(Inodes, g);
        if found {
          return base + bit + 1;
        }
        g := g + 1;
      }
      b := 0;
    }

    /** What both release functions do: clear the bit, then publish the new counts. */
    method GiveInGroup(k: Kind, g: nat, bit: nat)
      requires Valid() && |cache.pins| < NBLKNUM
      requires g < geo.groups == gb.Length && GeometryOk(geo) && bit < InGroup(geo, k, g)
      requires Times(g, Per(geo, k)) + bit !in FreeSet(k)
      requires k == Blocks ==> role(geo.firstDataBlock + Times(g, Per(geo, k)) + bit) == Data
      modifies cache, cache.slots, cache.disk`sectors, gb
      ensures Valid() && cache.pins == old(cache.pins)
      ensures forall i, x :: old(cache.Pinned(i, x)) ==> cache.Pinned(i, x)
      ensures FreeSet(k) == old(FreeSet(k)) + {Times(g, Per(geo, k)) + bit}
      ensures FreeSet(Other(k)) == old(FreeSet(Other(k)))
      ensures SameOutsideAllocator(old(cache.L), cache.L, role)
    {
      hide BlockCache.Valid; hide AllocInv; hide TablesOk; hide TableSeq; hide FreeItems; hide InGroup;
      hide GeometryOk; hide BmSet; hide Times; hide BmBit;
      hide Updated; hide SameOutsideAllocator; hide SumFree; hide U32At; hide PutU32; hide Bit; hide Map; hide Free;
      hide WithFree; hide Per; hide CounterOffset; hide GdtBlock; hide BmClear;
      hide Stepped; hide NoneFrom; hide Other;
      ghost var L, gb0 := cache.L, gb[..];
      AllocFacts(geo, role, L, gb0);
      GiveStep(geo, role, L, gb0, k, g, bit);
      var c := cache.Bread(Map(gb[g], k));
      var bm := BmClear(cache.slots[c].data, bit);
      Commit(k, g, c, bm, 1, SumFree(gb0, k) + 1, FreeItems(geo, L, gb0, k) + {Times(g, Per(geo, k)) + bit});
    }

    /** ext2_free_block: block numbers outside the groups are ignored; an allocated data block becomes free. */
    method FreeBlock(b: nat)
      requires Valid() && |cache.pins| < NBLKNUM && geo.blocksPerGroup > 0
      requires b != 0 && geo.firstDataBlock <= b && (b - geo.firstDataBlock) / geo.blocksPerGroup < geo.groups ==>
               b < geo.blocksCount && role(b) == Data && !IsFreeBlock(b)
      modifies cache, cache.slots, cache.disk`sectors, gb
      ensures Valid() && cache.pins == old(cache.pins)
      ensures forall i, x :: old(cache.Pinned(i, x)) ==> cache.Pinned(i, x)
      ensures b != 0 && geo.firstDataBlock <= b && (b - geo.firstDataBlock) / geo.blocksPerGroup < geo.groups ==>
              InUse() == old(InUse()) - {b}
      ensures if b != 0 && geo.firstDataBlock <= b && (b - geo.firstDataBlock) / geo.blocksPerGroup < geo.groups
              then FreeSet(Blocks) == old(FreeSet(Blocks)) + {b - geo.firstDataBlock}
              else cache.L == old(cache.L) && gb[..] == old(gb[..])
      ensures FreeSet(Inodes) == old(FreeSet(Inodes))
      ensures geo.blocksCount <= |cache.L| && forall x :: x in old(InUse()) ==>
              x < |cache.L| && cache.L[x] == old(cache.L)[x] && role(x) == Data
      ensures SameOutsideAllocator(old(cache.L), cache.L, role)
    {
      hide BlockCache.Valid; hide AllocInv; hide TablesOk; hide TableSeq; hide FreeItems; hide InGroup;
      hide GeometryOk; hide BmBit; hide Times; hide UsedData;
      AllocFacts(geo, role, cache.L, gb[..]);
      UsedDataKept(geo, role, FreeItems(geo, cache.L, gb[..], Blocks), cache.L, cache.L);
      if b == 0 {
        return;
      }
      if b < geo.firstDataBlock {
        return;
      }
      var rel := b - geo.firstDataBlock;
      var g := rel / geo.blocksPerGroup;
      var bit := rel % geo.blocksPerGroup;
      if g >= geo.groups {
        return;
      }
      UsedItem(geo, role, cache.L, gb[..], Blocks, rel);
      assert FreeSet(Blocks) == FreeItems(geo, cache.L, gb[..], Blocks);
      ghost var free := FreeSet(Blocks);
      GiveInGroup(Blocks, g, bit);
      FreedIsUnused(geo, role, free, rel);
      UsedDataKept(geo, role, free, old(cache.L), cache.L);
    }

    /** ext2_free_inode: 0 and numbers outside the groups are ignored; an allocated inode becomes free. */
    method FreeInode(ino: nat)
      requires Valid() && |cache.pins| < NBLKNUM && geo.inodesPerGroup > 0
      requires ino != 0 && (ino - 1) / geo.inodesPerGroup < geo.groups ==> ino <= geo.inodesCount && !IsFreeInode(ino)
      modifies cache, cache.slots, cache.disk`sectors, gb
      ensures Valid() && cache.pins == old(cache.pins)
      ensures forall i, x :: old(cache.Pinned(i, x)) ==> cache.Pinned(i, x)
      ensures if ino != 0 && (ino - 1) / geo.inodesPerGroup < geo.groups
              then FreeSet(Inodes) == old(FreeSet(Inodes)) + {ino - 1}
              else cache.L == old(cache.L) && gb[..] == old(gb[..])
      ensures FreeSet(Blocks) == old(FreeSet(Blocks))
      ensures SameOutsideAllocator(old(cache.L), cache.L, role)
    {
      hide BlockCache.Valid; hide AllocInv; hide TablesOk; hide TableSeq; hide FreeItems; hide InGroup;
      hide GeometryOk; hide BmBit; hide Times; hide UsedData;
      if ino == 0 {
        return;
      }
      var rel := ino - 1;
      var g := rel / geo.inodesPerGroup;
      var bit := rel % geo.inodesPerGroup;
      if g >= geo.groups {
        return;
      }
      AllocFacts(geo, role, cache.L, gb[..]);
      UsedItem(geo, role, cache.L, gb[..], Inodes, rel);
      assert FreeSet(Inodes) == FreeItems(geo, cache.L, gb[..], Inodes);
      GiveInGroup(Inodes, g, bit);
    }
  }
}
