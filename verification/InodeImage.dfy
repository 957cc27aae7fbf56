/** struct ext2_inode on disk: where inode ino lives (ext2_inode_loc) and what its bytes mean. */
module InodeImage {
  import opened Arith
  import opened Bytes
  import opened Layout
  import opened FileTree

  const GOOD_OLD_INODE_SIZE: nat := 128

  /** The fields the kernel keeps of an inode.  mode, uid, gid and nlinks are 32 bits wide in memory, 16 on disk. */
  datatype Meta = Meta(mode: u32, uid: u32, gid: u32, size: u32, nlinks: u32, iBlock: Ptrs, flags: u32)

  function Low16(x: u32): u16 {
    x % 0x1_0000
  }

  /** What survives the trip to the disk and back. */
  function Truncated(m: Meta): Meta {
    m.(mode := Low16(m.mode), uid := Low16(m.uid), gid := Low16(m.gid), nlinks := Low16(m.nlinks))
  }

  /** Mode, owner, group and link count lose all but their low 16 bits, nothing else is lost. */
  lemma Kept16(m: Meta)
    ensures var t := Truncated(m);
            && t.mode == m.mode % 65536 && t.uid == m.uid % 65536 && t.gid == m.gid % 65536
            && t.nlinks == m.nlinks % 65536 && t.size == m.size && t.flags == m.flags && t.iBlock == m.iBlock
  {
  }

  /** The pointers laid out as 4-byte fields. */
  function PtrBytes(ps: seq<u32>): (s: seq<u8>)
    ensures |s| == 4 * |ps|
  {
    if ps == [] then [] else PtrBytes(ps[..|ps| - 1]) + ToLe(ps[|ps| - 1], 4)
  }

  lemma {:induction false} PtrBytesField(ps: seq<u32>, i: nat)
    requires i < |ps|
    ensures PtrBytes(ps)[4 * i..4 * i + 4] == ToLe(ps[i], 4)
  {
    if i < |ps| - 1 {
      PtrBytesField(ps[..|ps| - 1], i);
      assert PtrBytes(ps)[4 * i..4 * i + 4] == PtrBytes(ps[..|ps| - 1])[4 * i..4 * i + 4];
    }
  }

  function CountUsed(ps: seq<u32>): (n: nat)
    ensures n <= |ps|
  {
    if ps == [] then 0 else CountUsed(ps[..|ps| - 1]) + if ps[|ps| - 1] != 0 then 1 else 0
  }

  /** The field writes of ext2_write_inode over the old 128-byte image; times, reserved words and the rest stay. */
  function Imprint(raw: seq<u8>, m: Meta): (r: seq<u8>)
    requires |raw| == GOOD_OLD_INODE_SIZE
    ensures |r| == GOOD_OLD_INODE_SIZE
  {
    ToLe(Low16(m.mode), 2) + (ToLe(Low16(m.uid), 2) + (ToLe(m.size, 4) + (raw[8..24]
    + (ToLe(Low16(m.gid), 2) + (ToLe(Low16(m.nlinks), 2) + (ToLe(CountUsed(m.iBlock) * 8, 4) + (ToLe(m.flags, 4)
    + (raw[36..40] + (PtrBytes(m.iBlock) + raw[100..])))))))))
  }

  function PtrsOf(raw: seq<u8>, n: nat): (r: seq<u32>)
    requires |raw| == GOOD_OLD_INODE_SIZE && n <= N_BLOCKS
    ensures |r| == n
  {
    seq(n, i requires 0 <= i < n => U32At(raw, 40 + 4 * i))
  }

  /** The field reads of ext2_read_inode. */
  function Decode(raw: seq<u8>): (m: Meta)
    requires |raw| == GOOD_OLD_INODE_SIZE
  {
    Meta(U16At(raw, 0), U16At(raw, 2), U16At(raw, 24), U32At(raw, 4), U16At(raw, 26), PtrsOf(raw, N_BLOCKS),
      U32At(raw, 32))
  }

  /** Where the fields of an image lie. */
  lemma ImprintSlices(raw: seq<u8>, m: Meta)
    requires |raw| == GOOD_OLD_INODE_SIZE
    ensures var s := Imprint(raw, m);
            && s[0..2] == ToLe(Low16(m.mode), 2) && s[2..4] == ToLe(Low16(m.uid), 2) && s[4..8] == ToLe(m.size, 4)
            && s[24..26] == ToLe(Low16(m.gid), 2) && s[26..28] == ToLe(Low16(m.nlinks), 2)
            && s[32..36] == ToLe(m.flags, 4) && s[40..100] == PtrBytes(m.iBlock)
            && s[28..32] == ToLe(CountUsed(m.iBlock) * 8, 4)
            && s[8..24] == raw[8..24] && s[36..40] == raw[36..40] && s[100..] == raw[100..]
  {
    hide ToLe; hide PtrBytes; hide CountUsed; hide Low16;
    var e9 := PtrBytes(m.iBlock) + raw[100..];
    var e8 := raw[36..40] + e9;
    var e7 := ToLe(m.flags, 4) + e8;
    var e6 := ToLe(CountUsed(m.iBlock) * 8, 4) + e7;
    var e5 := ToLe(Low16(m.nlinks), 2) + e6;
    var e4 := ToLe(Low16(m.gid), 2) + e5;
    var e3 := raw[8..24] + e4;
    var e2 := ToLe(m.size, 4) + e3;
    var e1 := ToLe(Low16(m.uid), 2) + e2;
    var s := Imprint(raw, m);
    FieldAt(s, 0, ToLe(Low16(m.mode), 2), e1);
    FieldAt(s, 2, ToLe(Low16(m.uid), 2), e2);
    FieldAt(s, 4, ToLe(m.size, 4), e3);
    FieldAt(s, 8, raw[8..24], e4);
    FieldAt(s, 24, ToLe(Low16(m.gid), 2), e5);
    FieldAt(s, 26, ToLe(Low16(m.nlinks), 2), e6);
    FieldAt(s, 28, ToLe(CountUsed(m.iBlock) * 8, 4), e7);
    FieldAt(s, 32, ToLe(m.flags, 4), e8);
    FieldAt(s, 36, raw[36..40], e9);
    FieldAt(s, 40, PtrBytes(m.iBlock), raw[100..]);
  }

  lemma PtrsBack(s: seq<u8>, ib: Ptrs)
    requires |s| == GOOD_OLD_INODE_SIZE && s[40..100] == PtrBytes(ib)
    ensures PtrsOf(s, N_BLOCKS) == ib
  {
    hide ToLe; hide PtrBytes;
    Pow256Values();
    forall i | 0 <= i < N_BLOCKS
      ensures PtrsOf(s, N_BLOCKS)[i] == ib[i]
    {
      PtrBytesField(ib, i);
      PartOfPart(s, 40, 100, 4 * i, 4);
      LeRoundTrip(ib[i], 4);
    }
  }

  /** Reading an image back gives the inode that was written. */
  lemma DecodeImprint(raw: seq<u8>, m: Meta)
    requires |raw| == GOOD_OLD_INODE_SIZE
    ensures Decode(Imprint(raw, m)) == Truncated(m)
  {
    hide ToLe; hide PtrBytes; hide PtrsOf; hide Imprint;
    Pow256Values();
    ImprintSlices(raw, m);
    LeRoundTrip(Low16(m.mode), 2); LeRoundTrip(Low16(m.uid), 2); LeRoundTrip(m.size, 4);
    LeRoundTrip(Low16(m.gid), 2); LeRoundTrip(Low16(m.nlinks), 2); LeRoundTrip(m.flags, 4);
    PtrsBack(Imprint(raw, m), m.iBlock);
  }

  /** struct ext2_inode, byte by byte: i_mode at 0, i_uid at 2, i_size at 4, i_gid at 24, i_links_count at 26, i_flags
      at 32, i_block from 40 on. */
  lemma ImageFields(raw: seq<u8>)
    requires |raw| == GOOD_OLD_INODE_SIZE
    ensures var m := Decode(raw);
            && m.mode == raw[0] as nat + 0x100 * raw[1] as nat && m.uid == raw[2] as nat + 0x100 * raw[3] as nat
            && m.size == raw[4] as nat + 0x100 * raw[5] as nat + 0x1_0000 * raw[6] as nat + 0x100_0000 * raw[7] as nat
            && m.gid == raw[24] as nat + 0x100 * raw[25] as nat && m.nlinks == raw[26] as nat + 0x100 * raw[27] as nat
            && m.flags == raw[32] as nat + 0x100 * raw[33] as nat + 0x1_0000 * raw[34] as nat
                          + 0x100_0000 * raw[35] as nat
    ensures forall i :: 0 <= i < 15 ==>
              Decode(raw).iBlock[i] == raw[40 + 4 * i] as nat + 0x100 * raw[41 + 4 * i] as nat
                                       + 0x1_0000 * raw[42 + 4 * i] as nat + 0x100_0000 * raw[43 + 4 * i] as nat
  {
    hide U16At; hide U32At;
    FieldBytes(raw, 0);
    FieldBytes(raw, 2);
    FieldBytes(raw, 4);
    FieldBytes(raw, 24);
    FieldBytes(raw, 26);
    FieldBytes(raw, 32);
    forall i | 0 <= i < 15
      ensures Decode(raw).iBlock[i] == raw[40 + 4 * i] as nat + 0x100 * raw[41 + 4 * i] as nat
                                       + 0x1_0000 * raw[42 + 4 * i] as nat + 0x100_0000 * raw[43 + 4 * i] as nat
    {
      FieldBytes(raw, 40 + 4 * i);
    }
  }

  /** i_blocks counts 512-byte units: eight for every pointer in use. */
  lemma {:induction false} UsedCount(ps: seq<u32>)
    ensures CountUsed(ps) == |set i | 0 <= i < |ps| && ps[i] != 0|
  {
    var n := |ps| - 1;
    if ps != [] {
      UsedCount(ps[..n]);
      var before, all := set i | 0 <= i < n && ps[..n][i] != 0, set i | 0 <= i < |ps| && ps[i] != 0;
      assert all == if ps[n] != 0 then before + {n} else before;
    }
  }

  /** What was decoded fits its 16-bit fields, so a clean inode written again changes nothing that is read. */
  lemma DecodeFits(raw: seq<u8>)
    requires |raw| == GOOD_OLD_INODE_SIZE
    ensures Truncated(Decode(raw)) == Decode(raw)
  {
  }

  // Where inode ino lives

  /** The inode sizes that divide a block. */
  predicate InodeSizeOk(size: nat) {
    size == 128 || size == 256 || size == 512 || size == 1024 || size == 2048 || size == 4096
  }

  /** Block within the group's table, and byte offset in it, of local inode index i. */
  function TableBlock(size: nat, i: nat): nat {
    i * size / BLKSZ
  }

  function TableOffset(size: nat, i: nat): nat {
    i * size % BLKSZ
  }

  lemma MulAssoc(a: nat, b: nat, c: nat)
    ensures a * b * c == a * (b * c)
  {
  }

  lemma MulSum(a: nat, b: nat, c: nat)
    ensures (a + b) * c == a * c + b * c
  {
  }

  lemma MulBelow(r: nat, per: nat, size: nat)
    requires r < per
    ensures r * size + size <= per * size
  {
    MulSum(r, 1, size);
    MulSum(r + 1, per - r - 1, size);
  }

  lemma SplitBlock(x: nat, q: nat, s: nat)
    requires x == q * BLKSZ + s && s < BLKSZ
    ensures x % BLKSZ == s && x / BLKSZ == q
  {
  }

  /** With per images to a block, image q * per + r is number r of block q. */
  lemma OffsetOf(size: nat, per: nat, i: nat, q: nat, r: nat)
    requires size > 0 && per * size == BLKSZ && i == q * per + r && r < per
    ensures TableOffset(size, i) == r * size && TableBlock(size, i) == q && r * size + size <= BLKSZ
  {
    MulSum(q * per, r, size);
    MulAssoc(q, per, size);
    MulBelow(r, per, size);
    SplitBlock(i * size, q, r * size);
  }

  /** Images do not straddle blocks. */
  lemma ImageFits(size: nat, i: nat)
    requires InodeSizeOk(size)
    ensures TableOffset(size, i) + size <= BLKSZ
  {
    hide TableOffset; hide TableBlock;
    if size == 128 {
      OffsetOf(size, 32, i, i / 32, i % 32);
    } else if size == 256 {
      OffsetOf(size, 16, i, i / 16, i % 16);
    } else if size == 512 {
      OffsetOf(size, 8, i, i / 8, i % 8);
    } else if size == 1024 {
      OffsetOf(size, 4, i, i / 4, i % 4);
    } else if size == 2048 {
      OffsetOf(size, 2, i, i / 2, i % 2);
    } else {
      OffsetOf(size, 1, i, i, 0);
    }
  }

  /** Different inodes of a group have disjoint images. */
  lemma ImagesDisjoint(size: nat, i: nat, j: nat)
    requires InodeSizeOk(size) && i != j && TableBlock(size, i) == TableBlock(size, j)
    ensures TableOffset(size, i) + size <= TableOffset(size, j) || TableOffset(size, j) + size <= TableOffset(size, i)
  {
    if size == 128 {
    } else if size == 256 {
    } else if size == 512 {
    } else if size == 1024 {
    } else if size == 2048 {
    }
  }

  lemma ImageInside(size: nat, i: nat, n: nat)
    requires InodeSizeOk(size) && i < n
    ensures TableOffset(size, i) + size <= BLKSZ
    ensures TableBlock(size, i) <= TableBlock(size, n - 1)
  {
    ImageFits(size, i);
    if size == 128 {
    } else if size == 256 {
    } else if size == 512 {
    } else if size == 1024 {
    } else if size == 2048 {
    }
  }

  // The tables of a mounted file system

  /** Every group's inode table covers its inodes, in blocks of its own. */
  ghost predicate TablesOk(geo: Geometry, role: nat -> Role, n: nat, tables: seq<u32>) {
    && GeometryOk(geo) && InodeSizeOk(geo.inodeSize) && |tables| == geo.groups
    && forall g, k :: 0 <= g < geo.groups && 0 <= k <= TableBlock(geo.inodeSize, geo.inodesPerGroup - 1) ==>
         tables[g] + k < n && role(tables[g] + k) == InodeTable(g, k)
  }

  ghost predicate ValidIno(geo: Geometry, ino: nat) {
    1 <= ino <= geo.inodesCount
  }

  ghost function InoBlock(geo: Geometry, tables: seq<u32>, ino: nat): nat
    requires GeometryOk(geo) && |tables| == geo.groups && ValidIno(geo, ino)
  {
    tables[GroupOf(geo, Inodes, ino - 1)] + TableBlock(geo.inodeSize, BitOf(geo, Inodes, ino - 1))
  }

  ghost function InoOffset(geo: Geometry, ino: nat): nat
    requires GeometryOk(geo) && ValidIno(geo, ino)
  {
    TableOffset(geo.inodeSize, BitOf(geo, Inodes, ino - 1))
  }

  /** Inode i of group g lies i inodes behind the start of the group's table. */
  lemma InoPosition(geo: Geometry, tables: seq<u32>, ino: nat, g: nat, i: nat)
    requires i < geo.inodesPerGroup && ino == g * geo.inodesPerGroup + i + 1 <= geo.inodesCount
    requires GeometryOk(geo) && |tables| == geo.groups
    ensures g < geo.groups
    ensures InoBlock(geo, tables, ino) * 4096 + InoOffset(geo, ino) == tables[g] * 4096 + i * geo.inodeSize
    ensures InoOffset(geo, ino) < 4096
  {
    hide GeometryOk; hide TableBlock; hide TableOffset;
    TimesIsProduct(g, geo.inodesPerGroup);
    ItemPlace(geo, Inodes, g, i);
    hide GroupOf; hide BitOf;
    BlockAndOffset(geo.inodeSize, i);
  }

  lemma BlockAndOffset(size: nat, i: nat)
    ensures TableBlock(size, i) * 4096 + TableOffset(size, i) == i * size && TableOffset(size, i) < 4096
  {
  }

  /** The image of ino lies inside one block of its group's table. */
  lemma InoPlace(geo: Geometry, role: nat -> Role, n: nat, tables: seq<u32>, ino: nat)
    requires TablesOk(geo, role, n, tables) && ValidIno(geo, ino)
    ensures InoBlock(geo, tables, ino) < n && role(InoBlock(geo, tables, ino)).InodeTable?
    ensures InoOffset(geo, ino) + geo.inodeSize <= BLKSZ && GOOD_OLD_INODE_SIZE <= geo.inodeSize
  {
    hide TableOffset;
    ItemInGroup(geo, Inodes, ino - 1);
    var g, i := GroupOf(geo, Inodes, ino - 1), BitOf(geo, Inodes, ino - 1);
    ImageInside(geo.inodeSize, i, geo.inodesPerGroup);
    assert role(tables[g] + TableBlock(geo.inodeSize, i)) == InodeTable(g, TableBlock(geo.inodeSize, i));
  }

  lemma TableSizes(geo: Geometry, role: nat -> Role, n: nat, tables: seq<u32>)
    requires TablesOk(geo, role, n, tables)
    ensures GeometryOk(geo) && InodeSizeOk(geo.inodeSize) && |tables| == geo.groups && geo.inodesPerGroup > 0
  {
  }

  lemma TableRole(geo: Geometry, role: nat -> Role, n: nat, tables: seq<u32>, g: nat, k: nat)
    requires TablesOk(geo, role, n, tables) && g < geo.groups && k <= TableBlock(geo.inodeSize, geo.inodesPerGroup - 1)
    ensures tables[g] + k < n && role(tables[g] + k) == InodeTable(g, k)
  {
    hide TableBlock; hide GeometryOk;
  }

  /** Different inode numbers have disjoint images. */
  lemma InoApart(geo: Geometry, role: nat -> Role, n: nat, tables: seq<u32>, a: nat, b: nat)
    requires TablesOk(geo, role, n, tables) && ValidIno(geo, a) && ValidIno(geo, b) && a != b
    requires InoBlock(geo, tables, a) == InoBlock(geo, tables, b)
    ensures InoOffset(geo, a) + geo.inodeSize <= InoOffset(geo, b)
            || InoOffset(geo, b) + geo.inodeSize <= InoOffset(geo, a)
  {
    TableSizes(geo, role, n, tables);
    SamePlace(geo, a - 1, b - 1);
    BlockRole(geo, role, n, tables, a);
    BlockRole(geo, role, n, tables, b);
    hide TableOffset; hide TableBlock; hide GeometryOk; hide TablesOk; hide GroupOf; hide BitOf; hide InodeSizeOk;
    ImagesDisjoint(geo.inodeSize, BitOf(geo, Inodes, a - 1), BitOf(geo, Inodes, b - 1));
  }

  lemma SamePlace(geo: Geometry, x: nat, y: nat)
    requires GeometryOk(geo) && x < Total(geo, Inodes) && y < Total(geo, Inodes) && x != y
    ensures GroupOf(geo, Inodes, x) != GroupOf(geo, Inodes, y) || BitOf(geo, Inodes, x) != BitOf(geo, Inodes, y)
  {
    ItemInGroup(geo, Inodes, x);
    ItemInGroup(geo, Inodes, y);
    hide GroupOf; hide BitOf; hide GeometryOk; hide Times;
  }

  /** The block of an image is the block of its group's table with its number. */
  lemma BlockRole(geo: Geometry, role: nat -> Role, n: nat, tables: seq<u32>, ino: nat)
    requires TablesOk(geo, role, n, tables) && ValidIno(geo, ino)
    ensures role(InoBlock(geo, tables, ino))
         == InodeTable(GroupOf(geo, Inodes, ino - 1), TableBlock(geo.inodeSize, BitOf(geo, Inodes, ino - 1)))
  {
    TableSizes(geo, role, n, tables);
    ItemInGroup(geo, Inodes, ino - 1);
    hide TableBlock; hide TablesOk; hide GroupOf; hide BitOf;
    ImageInside(geo.inodeSize, BitOf(geo, Inodes, ino - 1), geo.inodesPerGroup);
    TableRole(geo, role, n, tables, GroupOf(geo, Inodes, ino - 1),
      TableBlock(geo.inodeSize, BitOf(geo, Inodes, ino - 1)));
  }

  /** The 128 bytes of inode ino on the logical disk. */
  ghost function ImageAt(L: seq<Block>, geo: Geometry, tables: seq<u32>, ino: nat): (r: seq<u8>)
    requires GeometryOk(geo) && |tables| == geo.groups && ValidIno(geo, ino)
    ensures |r| == GOOD_OLD_INODE_SIZE
  {
    var b, o := InoBlock(geo, tables, ino), InoOffset(geo, ino);
    if b < |L| && o + GOOD_OLD_INODE_SIZE <= BLKSZ then L[b][o..o + GOOD_OLD_INODE_SIZE] else Zeros(GOOD_OLD_INODE_SIZE)
  }

  /** Writing inside one inode's slot: its image becomes what was written, every other image stays. */
  lemma WriteImage(L: seq<Block>, geo: Geometry, role: nat -> Role, tables: seq<u32>, ino: nat, bytes: seq<u8>)
    requires TablesOk(geo, role, |L|, tables) && ValidIno(geo, ino) && GOOD_OLD_INODE_SIZE <= |bytes| <= geo.inodeSize
    ensures InoBlock(geo, tables, ino) < |L| && InoOffset(geo, ino) + |bytes| <= BLKSZ
    ensures var L' := L[InoBlock(geo, tables, ino) := Splice(L[InoBlock(geo, tables, ino)], InoOffset(geo, ino),
            bytes)];
            && ImageAt(L', geo, tables, ino) == bytes[..GOOD_OLD_INODE_SIZE]
            && forall j :: ValidIno(geo, j) && j != ino ==> ImageAt(L', geo, tables, j) == ImageAt(L, geo, tables, j)
  {
    hide InoBlock; hide InoOffset; hide GeometryOk; hide Splice;
    InoPlace(geo, role, |L|, tables, ino);
    var b, o := InoBlock(geo, tables, ino), InoOffset(geo, ino);
    var L' := L[b := Splice(L[b], o, bytes)];
    SpliceBytes(L[b], o, bytes);
    assert L'[b][o..o + GOOD_OLD_INODE_SIZE] == L'[b][o..o + |bytes|][..GOOD_OLD_INODE_SIZE];
    forall j | ValidIno(geo, j) && j != ino
      ensures ImageAt(L', geo, tables, j) == ImageAt(L, geo, tables, j)
    {
      InoPlace(geo, role, |L|, tables, j);
      if InoBlock(geo, tables, j) == b {
        InoApart(geo, role, |L|, tables, ino, j);
        var p := InoOffset(geo, j);
        assert L'[b][p..p + GOOD_OLD_INODE_SIZE] == L[b][p..p + GOOD_OLD_INODE_SIZE];
      }
    }
  }

  /** Imprinting fields on an image where it lies: that image decodes to them, cut, and every other image stays. */
  lemma ImprintImage(L: seq<Block>, geo: Geometry, role: nat -> Role, tables: seq<u32>, ino: nat, m: Meta, b: nat,
      o: nat)
    requires TablesOk(geo, role, |L|, tables) && ValidIno(geo, ino)
    requires b == InoBlock(geo, tables, ino) && o == InoOffset(geo, ino)
    ensures b < |L| && role(b).InodeTable? && o + GOOD_OLD_INODE_SIZE <= BLKSZ
    ensures var image := Imprint(L[b][o..o + GOOD_OLD_INODE_SIZE], m);
            var L' := L[b := Splice(L[b], o, image)];
            && ImageAt(L', geo, tables, ino) == Imprint(ImageAt(L, geo, tables, ino), m) == image
            && Decode(ImageAt(L', geo, tables, ino)) == Truncated(m)
            && forall j :: ValidIno(geo, j) && j != ino ==> ImageAt(L', geo, tables, j) == ImageAt(L, geo, tables, j)
  {
    hide InoBlock; hide InoOffset; hide Splice; hide Decode; hide Imprint; hide Truncated;
    InoPlace(geo, role, |L|, tables, ino);
    var raw := L[b][o..o + GOOD_OLD_INODE_SIZE];
    DecodeImprint(raw, m);
    WriteImage(L, geo, role, tables, ino, Imprint(raw, m));
  }

  /** Images live in the tables only. */
  lemma ImagesSame(L: seq<Block>, L': seq<Block>, geo: Geometry, role: nat -> Role, tables: seq<u32>)
    requires TablesOk(geo, role, |L|, tables) && TablesSame(L, L', role)
    ensures forall j :: ValidIno(geo, j) ==> ImageAt(L', geo, tables, j) == ImageAt(L, geo, tables, j)
  {
    hide InoBlock; hide InoOffset; hide GeometryOk;
    forall j | ValidIno(geo, j)
      ensures ImageAt(L', geo, tables, j) == ImageAt(L, geo, tables, j)
    {
      InoPlace(geo, role, |L|, tables, j);
    }
  }
}
