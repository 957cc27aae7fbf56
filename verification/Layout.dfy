/** The on-disk allocation metadata of ext2: superblock counters, group descriptor table and bitmaps,
    and the invariant that keeps the three redundant free counts equal. */
module Layout {
  import opened Arith
  import opened Bytes
  import opened Bitmap

  const DESC_SIZE: nat := 32
  const DESCS_PER_BLOCK: nat := 128
  const SUPER_BLOCK: nat := 0
  const SUPER_OFFSET: nat := 1024

  /** The superblock fields that are never written after mount, and the group count computed from them. */
  datatype Geometry = Geometry(
    blocksCount: u32, firstDataBlock: u32, blocksPerGroup: u32,
    inodesCount: u32, inodesPerGroup: u32, inodeSize: u32, groups: u32)

  /** struct ext2_bg_desc */
  datatype Desc = Desc(
    blockBitmap: u32, inodeBitmap: u32, inodeTable: u32,
    freeBlocks: u16, freeInodes: u16, usedDirs: u16, pad: u16,
    reserved0: u32, reserved1: u32, reserved2: u32)

  /** The two bitmap allocators share their bookkeeping: blocks (balloc.c) and inodes (ialloc.c). */
  datatype Kind = Blocks | Inodes

  /** What a disk block is used for; giving every block one role keeps all metadata areas apart. */
  datatype Role = Super | Gdt(k: nat) | BitmapOf(kind: Kind, g: nat) | InodeTable(g: nat, k: nat) | Reserved | Data

  function Per(geo: Geometry, k: Kind): nat {
    if k.Blocks? then geo.blocksPerGroup else geo.inodesPerGroup
  }

  function Total(geo: Geometry, k: Kind): int {
    if k.Blocks? then geo.blocksCount - geo.firstDataBlock else geo.inodesCount
  }

  function Map(d: Desc, k: Kind): u32 {
    if k.Blocks? then d.blockBitmap else d.inodeBitmap
  }

  function Free(d: Desc, k: Kind): u16 {
    if k.Blocks? then d.freeBlocks else d.freeInodes
  }

  function WithFree(d: Desc, k: Kind, n: u16): Desc {
    if k.Blocks? then d.(freeBlocks := n) else d.(freeInodes := n)
  }

  /** Offset of s_free_blocks_count or s_free_inodes_count in the superblock's disk block. */
  function CounterOffset(k: Kind): nat {
    if k.Blocks? then SUPER_OFFSET + 12 else SUPER_OFFSET + 16
  }

  ghost predicate GeometryOk(geo: Geometry) {
    && 0 < geo.blocksPerGroup <= BITS && 0 < geo.inodesPerGroup <= BITS
    && geo.firstDataBlock < geo.blocksCount
    && geo.blocksCount + geo.blocksPerGroup < 0x1_0000_0000
    && geo.inodesCount + geo.inodesPerGroup < 0x1_0000_0000
    && 0 < geo.groups
    && GroupsCover(geo, Blocks) && GroupsCover(geo, Inodes)
  }

  /** The groups are just enough for all items. */
  ghost predicate GroupsCover(geo: Geometry, k: Kind) {
    0 < geo.groups && Times(geo.groups - 1, Per(geo, k)) < Total(geo, k) <= Times(geo.groups, Per(geo, k))
  }

  /** The number of items of group g: a full group, or what is left for the last one. */
  ghost function InGroup(geo: Geometry, k: Kind, g: nat): (r: nat)
    requires GeometryOk(geo) && g < geo.groups
    ensures 0 < r <= Per(geo, k)
  {
    TimesMonotone(g, geo.groups - 1, Per(geo, k));
    if Times(g, Per(geo, k)) + Per(geo, k) > Total(geo, k) then Total(geo, k) - Times(g, Per(geo, k)) else Per(geo, k)
  }

  /** The group of item x. */
  function GroupOf(geo: Geometry, k: Kind, x: nat): (g: nat)
    requires GeometryOk(geo) && x < Total(geo, k)
    ensures g < geo.groups
  {
    DivMod(x, Per(geo, k), geo.groups, Total(geo, k));
    x / Per(geo, k)
  }

  /** The bit of item x in its group's bitmap. */
  function BitOf(geo: Geometry, k: Kind, x: nat): (i: nat)
    requires GeometryOk(geo) && x < Total(geo, k)
    ensures i < BITS
  {
    x % Per(geo, k)
  }

  /** Group and bit of an item determine it, and the bit is in range for the group. */
  lemma ItemInGroup(geo: Geometry, k: Kind, x: nat)
    requires GeometryOk(geo) && x < Total(geo, k)
    ensures BitOf(geo, k, x) < InGroup(geo, k, GroupOf(geo, k, x))
    ensures x == Times(GroupOf(geo, k, x), Per(geo, k)) + BitOf(geo, k, x)
  {
    DivMod(x, Per(geo, k), geo.groups, Total(geo, k));
  }

  /** Conversely bit i of group g is item g * per + i. */
  lemma GroupItem(geo: Geometry, k: Kind, g: nat, i: nat)
    requires GeometryOk(geo) && g < geo.groups && i < InGroup(geo, k, g)
    ensures Times(g, Per(geo, k)) + i < Total(geo, k)
    ensures GroupOf(geo, k, Times(g, Per(geo, k)) + i) == g && BitOf(geo, k, Times(g, Per(geo, k)) + i) == i
  {
    DivModOf(Times(g, Per(geo, k)) + i, g, i, Per(geo, k));
  }

  lemma ItemPlace(geo: Geometry, k: Kind, g: nat, i: nat)
    requires GeometryOk(geo) && i < Per(geo, k) && Times(g, Per(geo, k)) + i < Total(geo, k)
    ensures GroupOf(geo, k, Times(g, Per(geo, k)) + i) == g && BitOf(geo, k, Times(g, Per(geo, k)) + i) == i
    ensures g < geo.groups && i < BITS
  {
    DivModOf(Times(g, Per(geo, k)) + i, g, i, Per(geo, k));
  }

  // The descriptor table on disk

  function GdtBlock(geo: Geometry, g: nat): nat {
    geo.firstDataBlock + 1 + g / DESCS_PER_BLOCK
  }

  function GdtOffset(g: nat): nat {
    g % DESCS_PER_BLOCK * DESC_SIZE
  }

  /** The 32 bytes of a descriptor. */
  function DescBytes(d: Desc): (s: seq<u8>)
    ensures |s| == DESC_SIZE
  {
    ToLe(d.blockBitmap, 4) + (ToLe(d.inodeBitmap, 4) + (ToLe(d.inodeTable, 4) + (ToLe(d.freeBlocks, 2)
    + (ToLe(d.freeInodes, 2) + (ToLe(d.usedDirs, 2) + (ToLe(d.pad, 2)
    + (ToLe(d.reserved0, 4) + (ToLe(d.reserved1, 4) + ToLe(d.reserved2, 4)))))))))
  }

  /** What the mount code's memcpy makes of those bytes. */
  function DescOf(s: seq<u8>): (d: Desc)
    requires |s| == DESC_SIZE
  {
    Desc(U32At(s, 0), U32At(s, 4), U32At(s, 8), U16At(s, 12), U16At(s, 14), U16At(s, 16), U16At(s, 18),
         U32At(s, 20), U32At(s, 24), U32At(s, 28))
  }

  /** The descriptors lie one behind the other from the block after the superblock's, 32 bytes each. */
  lemma DescPosition(geo: Geometry, g: nat)
    ensures GdtBlock(geo, g) * 4096 + GdtOffset(g) == (geo.firstDataBlock + 1) * 4096 + 32 * g
    ensures GdtOffset(g) + 32 <= 4096
  {
  }

  /** The fields of a descriptor, byte by byte. */
  lemma DescFields(s: seq<u8>)
    requires |s| == DESC_SIZE
    ensures var d := DescOf(s);
            && d.blockBitmap == s[0] as nat + 0x100 * s[1] as nat + 0x1_0000 * s[2] as nat + 0x100_0000 * s[3] as nat
            && d.inodeBitmap == s[4] as nat + 0x100 * s[5] as nat + 0x1_0000 * s[6] as nat + 0x100_0000 * s[7] as nat
            && d.inodeTable == s[8] as nat + 0x100 * s[9] as nat + 0x1_0000 * s[10] as nat + 0x100_0000 * s[11] as nat
            && d.freeBlocks == s[12] as nat + 0x100 * s[13] as nat
            && d.freeInodes == s[14] as nat + 0x100 * s[15] as nat
            && d.usedDirs == s[16] as nat + 0x100 * s[17] as nat
  {
    hide U16At; hide U32At;
    FieldBytes(s, 0);
    FieldBytes(s, 4);
    FieldBytes(s, 8);
    FieldBytes(s, 12);
    FieldBytes(s, 14);
    FieldBytes(s, 16);
  }

  /** Where the fields of a descriptor lie. */
  lemma DescSlices(d: Desc)
    ensures var s := DescBytes(d);
            && s[0..4] == ToLe(d.blockBitmap, 4) && s[4..8] == ToLe(d.inodeBitmap, 4)
            && s[8..12] == ToLe(d.inodeTable, 4) && s[12..14] == ToLe(d.freeBlocks, 2)
            && s[14..16] == ToLe(d.freeInodes, 2) && s[16..18] == ToLe(d.usedDirs, 2) && s[18..20] == ToLe(d.pad, 2)
            && s[20..24] == ToLe(d.reserved0, 4) && s[24..28] == ToLe(d.reserved1, 4)
            && s[28..32] == ToLe(d.reserved2, 4)
  {
    hide ToLe;
    var e9 := ToLe(d.reserved2, 4);
    var e8 := ToLe(d.reserved1, 4) + e9;
    var e7 := ToLe(d.reserved0, 4) + e8;
    var e6 := ToLe(d.pad, 2) + e7;
    var e5 := ToLe(d.usedDirs, 2) + e6;
    var e4 := ToLe(d.freeInodes, 2) + e5;
    var e3 := ToLe(d.freeBlocks, 2) + e4;
    var e2 := ToLe(d.inodeTable, 4) + e3;
    var e1 := ToLe(d.inodeBitmap, 4) + e2;
    var s := DescBytes(d);
    FieldAt(s, 0, ToLe(d.blockBitmap, 4), e1);
    FieldAt(s, 4, ToLe(d.inodeBitmap, 4), e2);
    FieldAt(s, 8, ToLe(d.inodeTable, 4), e3);
    FieldAt(s, 12, ToLe(d.freeBlocks, 2), e4);
    FieldAt(s, 14, ToLe(d.freeInodes, 2), e5);
    FieldAt(s, 16, ToLe(d.usedDirs, 2), e6);
    FieldAt(s, 18, ToLe(d.pad, 2), e7);
    FieldAt(s, 20, ToLe(d.reserved0, 4), e8);
    FieldAt(s, 24, ToLe(d.reserved1, 4), e9);
    assert s[28..32] == s[28..];
  }

  /** The descriptor an image stands for is the one it was made of. */
  lemma DescRoundTrip(d: Desc)
    ensures DescOf(DescBytes(d)) == d
  {
    hide DescBytes; hide ToLe;
    Pow256Values();
    DescSlices(d);
    LeRoundTrip(d.blockBitmap, 4); LeRoundTrip(d.inodeBitmap, 4); LeRoundTrip(d.inodeTable, 4);
    LeRoundTrip(d.freeBlocks, 2); LeRoundTrip(d.freeInodes, 2);
    LeRoundTrip(d.usedDirs, 2); LeRoundTrip(d.pad, 2);
    LeRoundTrip(d.reserved0, 4); LeRoundTrip(d.reserved1, 4); LeRoundTrip(d.reserved2, 4);
  }

  /** bg_inode_table of every group. */
  ghost function TableSeq(gb: seq<Desc>): (r: seq<u32>)
    ensures |r| == |gb|
  {
    seq(|gb|, i requires 0 <= i < |gb| => gb[i].inodeTable)
  }

  // The allocation invariant

  ghost predicate RolesOk(geo: Geometry, role: nat -> Role, n: nat, gb: seq<Desc>) {
    && |gb| == geo.groups && geo.blocksCount <= n
    && role(SUPER_BLOCK) == Super
    && (forall g :: 0 <= g < geo.groups ==> GdtBlock(geo, g) < n && role(GdtBlock(geo, g)) == Gdt(g / DESCS_PER_BLOCK))
    && (forall g, k: Kind :: 0 <= g < geo.groups ==> Map(gb[g], k) < n && role(Map(gb[g], k)) == BitmapOf(k, g))
  }

  ghost predicate GdtImages(geo: Geometry, L: seq<Block>, gb: seq<Desc>) {
    forall g :: 0 <= g < |gb| ==>
      GdtBlock(geo, g) < |L| && L[GdtBlock(geo, g)][GdtOffset(g)..GdtOffset(g) + DESC_SIZE] == DescBytes(gb[g])
  }

  ghost predicate GroupCounts(geo: Geometry, L: seq<Block>, gb: seq<Desc>)
    requires GeometryOk(geo) && |gb| == geo.groups
  {
    forall g, k: Kind :: 0 <= g < |gb| ==>
      Map(gb[g], k) < |L| && Free(gb[g], k) == ClearCount(L[Map(gb[g], k)], InGroup(geo, k, g))
  }

  ghost function SumFree(gb: seq<Desc>, k: Kind): (r: nat) {
    if gb == [] then 0 else SumFree(gb[..|gb| - 1], k) + Free(gb[|gb| - 1], k)
  }

  ghost predicate SuperCounts(L: seq<Block>, gb: seq<Desc>) {
    |L| > SUPER_BLOCK && forall k: Kind :: U32At(L[SUPER_BLOCK], CounterOffset(k)) == SumFree(gb, k)
  }

  /** The bit of item x (block firstDataBlock + x, or inode x + 1). */
  ghost predicate ItemUsed(geo: Geometry, L: seq<Block>, gb: seq<Desc>, k: Kind, x: nat)
    requires GeometryOk(geo) && |gb| == geo.groups
  {
    x < Total(geo, k) ==>
      var d := gb[GroupOf(geo, k, x)];
      Map(d, k) < |L| ==> BmBit(L[Map(d, k)], BitOf(geo, k, x))
  }

  /** The items the bitmaps show as free. */
  ghost function FreeItems(geo: Geometry, L: seq<Block>, gb: seq<Desc>, k: Kind): set<nat>
    requires GeometryOk(geo) && |gb| == geo.groups
  {
    set x | 0 <= x < Total(geo, k) && !ItemUsed(geo, L, gb, k, x)
  }

  ghost predicate MetaUsed(geo: Geometry, role: nat -> Role, free: set<nat>) {
    forall x :: x in free ==> role(geo.firstDataBlock + x) == Data
  }

  /** The data blocks that are not free. */
  ghost function UsedData(geo: Geometry, role: nat -> Role, free: set<nat>): set<nat> {
    set b: nat | geo.firstDataBlock <= b < geo.blocksCount && role(b) == Data && b - geo.firstDataBlock !in free
  }

  /** Everything the allocators keep: metadata areas apart and marked used, the in-memory descriptors equal to
      their disk images, each group's counts equal to the clear bits of its bitmaps, the superblock's counts
      equal to the sums over the groups. */
  ghost predicate AllocInv(geo: Geometry, role: nat -> Role, L: seq<Block>, gb: seq<Desc>) {
    && GeometryOk(geo) && |gb| == geo.groups
    && RolesOk(geo, role, |L|, gb)
    && GdtImages(geo, L, gb)
    && GroupCounts(geo, L, gb)
    && SuperCounts(L, gb)
    && MetaUsed(geo, role, FreeItems(geo, L, gb, Blocks))
  }

  /** The second half of every allocation and release: the descriptor's image and the superblock counter. */
  ghost function Committed(geo: Geometry, L: seq<Block>, k: Kind, g: nat, d: Desc, total: u32): (r: seq<Block>)
    requires GdtBlock(geo, g) < |L|
    ensures |r| == |L|
  {
    var L2 := L[GdtBlock(geo, g) := Splice(L[GdtBlock(geo, g)], GdtOffset(g), DescBytes(d))];
    L2[SUPER_BLOCK := PutU32(L2[SUPER_BLOCK], CounterOffset(k), total)]
  }

  /** All its writes: first the bitmap. */
  ghost function Updated(geo: Geometry, L: seq<Block>, k: Kind, g: nat, bm: Block, d: Desc, total: u32): (r: seq<Block>)
    requires Map(d, k) < |L| && GdtBlock(geo, g) < |L|
    ensures |r| == |L|
  {
    Committed(geo, L[Map(d, k) := bm], k, g, d, total)
  }

  /** Two logical disks that agree outside superblock, descriptor table and bitmaps. */
  ghost predicate SameOutsideAllocator(L: seq<Block>, L': seq<Block>, role: nat -> Role) {
    |L'| == |L| && forall x :: 0 <= x < |L| && NotAllocator(role(x)) ==> L'[x] == L[x]
  }

  /** No block of an inode table changed. */
  ghost predicate TablesSame(L: seq<Block>, L': seq<Block>, role: nat -> Role) {
    |L'| == |L| && forall x :: 0 <= x < |L| && role(x).InodeTable? ==> L'[x] == L[x]
  }

  /** Blocks the allocators neither read nor write. */
  predicate NotAllocator(r: Role) {
    r == Data || r.InodeTable? || r == Reserved
  }
}
