/** Inode numbers entering and leaving use: the inode halves of ext2_create and iput. */
module Ext2Inodes {
  import opened Bytes
  import opened BlkCache
  import opened Layout
  import opened AllocLemmas
  import opened Balloc
  import opened FileTree
  import opened FileView
  import opened Branches
  import opened InodeImage
  import opened Ext2File
  import opened Ext2Truncate

  /** Bitmap changes show in no file and in no inode image. */
  lemma AllocatorOnly(L: seq<Block>, L': seq<Block>, geo: Geometry, role: nat -> Role, tables: seq<u32>, files: map<nat,
      Ptrs>, inUse: set<nat>)
    requires Trees(L, files, inUse) && TablesOk(geo, role, |L|, tables) && SameOutsideAllocator(L, L', role)
    requires forall b :: b in inUse ==> b < |L| && role(b) == Data
    ensures Trees(L', files, inUse) && SameViews(L, files, L', files)
    ensures forall j :: ValidIno(geo, j) ==> ImageAt(L', geo, tables, j) == ImageAt(L, geo, tables, j)
  {
    hide Trees; hide TablesOk; hide ImageAt; hide ValidIno; hide SameViews;
    ViewsSame(L, L', files, inUse);
    ImagesSame(L, L', geo, role, tables);
  }

  /** ext2_alloc_inode, seen from the files: nothing they read changes. */
  method TakeInode(fs: Ext2) returns (ino: nat)
    requires fs.Valid() && |fs.sbi.cache.pins| < NBLKNUM
    modifies fs.sbi.cache, fs.sbi.cache.slots, fs.sbi.cache.disk`sectors, fs.sbi.gb
    ensures fs.Valid() && fs.sbi.cache.pins == old(fs.sbi.cache.pins)
    ensures forall i, x :: old(fs.sbi.cache.Pinned(i, x)) ==> fs.sbi.cache.Pinned(i, x)
    ensures fs.sbi.FreeSet(Blocks) == old(fs.sbi.FreeSet(Blocks)) && fs.sbi.InUse() == old(fs.sbi.InUse())
    ensures ino == 0 <==> old(fs.sbi.FreeSet(Inodes)) == {}
    ensures if ino == 0 then fs.sbi.FreeSet(Inodes) == old(fs.sbi.FreeSet(Inodes))
            else fs.sbi.FreeSet(Inodes) == old(fs.sbi.FreeSet(Inodes)) - {ino - 1}
    ensures ino != 0 ==> old(fs.sbi.IsFreeInode(ino)) && ValidIno(fs.sbi.geo, ino) && forall x :: 0 <= x < ino ==>
            !old(fs.sbi.IsFreeInode(x))
    ensures SameViews(old(fs.sbi.cache.L), fs.files, fs.sbi.cache.L, fs.files)
    ensures forall j :: ValidIno(fs.sbi.geo, j) ==> fs.Image(j) == old(fs.Image(j))
  {
    hide SbInfo.Valid; hide SbInfo.FreeSet; hide Trees; hide TablesOk; hide ImageAt; hide SameViews;
    hide SameOutsideAllocator; hide UsedData;
    fs.sbi.TableFacts();
    fs.sbi.InUseData();
    fs.sbi.InodeNumbers();
    ino := fs.sbi.AllocInode();
    AllocatorOnly(old(fs.sbi.cache.L), fs.sbi.cache.L, fs.sbi.geo, fs.sbi.role, fs.sbi.tables, fs.files,
      old(fs.sbi.InUse()));
    fs.sbi.TableFacts();
  }

  /** ext2_free_inode, seen from the files: nothing they read changes. */
  method GiveInode(fs: Ext2, ino: nat)
    requires fs.Valid() && |fs.sbi.cache.pins| < NBLKNUM && ValidIno(fs.sbi.geo, ino)
             && ino - 1 !in fs.sbi.FreeSet(Inodes)
    modifies fs.sbi.cache, fs.sbi.cache.slots, fs.sbi.cache.disk`sectors, fs.sbi.gb
    ensures fs.Valid() && fs.sbi.cache.pins == old(fs.sbi.cache.pins)
    ensures forall i, x :: old(fs.sbi.cache.Pinned(i, x)) ==> fs.sbi.cache.Pinned(i, x)
    ensures fs.sbi.FreeSet(Blocks) == old(fs.sbi.FreeSet(Blocks)) && fs.sbi.InUse() == old(fs.sbi.InUse())
    ensures fs.sbi.FreeSet(Inodes) == old(fs.sbi.FreeSet(Inodes)) + {ino - 1}
    ensures SameViews(old(fs.sbi.cache.L), fs.files, fs.sbi.cache.L, fs.files)
    ensures forall j :: ValidIno(fs.sbi.geo, j) ==> fs.Image(j) == old(fs.Image(j))
  {
    hide SbInfo.Valid; hide SbInfo.FreeSet; hide Trees; hide TablesOk; hide ImageAt; hide SameViews;
    hide SameOutsideAllocator; hide UsedData;
    fs.sbi.TableFacts();
    fs.sbi.InUseData();
    fs.sbi.InodeNumbers();
    fs.sbi.FreeInode(ino);
    AllocatorOnly(old(fs.sbi.cache.L), fs.sbi.cache.L, fs.sbi.geo, fs.sbi.role, fs.sbi.tables, fs.files,
      old(fs.sbi.InUse()));
    fs.sbi.TableFacts();
  }

  /** A file with no blocks comes into being: the trees of the others stand. */
  lemma AddEmptyFile(L: seq<Block>, files: map<nat, Ptrs>, inUse: set<nat>, f: nat)
    requires Trees(L, files, inUse) && f !in files
    ensures Trees(L, files[f := NO_BLOCKS], inUse)
  {
    hide Node; hide ValidPath;
    var files' := files[f := NO_BLOCKS];
    NoNodes(L);
    forall g, p | g in files' && ValidPath(p)
      ensures At(L, files', g, p) == if g == f then 0 else At(L, files, g, p)
    {
    }
    hide At;
    forall b | b in inUse ensures Reached(L, files', b) {
      var g, p :| g in files && ValidPath(p) && At(L, files, g, p) == b;
      assert At(L, files', g, p) == b;
    }
  }

  /** A file with no blocks goes: the trees of the others stand. */
  lemma DropEmptyFile(L: seq<Block>, files: map<nat, Ptrs>, inUse: set<nat>, f: nat)
    requires Trees(L, files, inUse) && f in files && files[f] == NO_BLOCKS
    ensures Trees(L, files - {f}, inUse)
  {
    hide Node; hide ValidPath;
    var files' := files - {f};
    NoNodes(L);
    forall g, p | g in files' && ValidPath(p)
      ensures At(L, files', g, p) == At(L, files, g, p)
    {
    }
    assert forall p :: ValidPath(p) ==> At(L, files, f, p) == 0;
    hide At;
    forall b | b in inUse ensures Reached(L, files', b) {
      var g, p :| g in files && ValidPath(p) && At(L, files, g, p) == b;
      assert At(L, files', g, p) == b;
    }
  }

  lemma NoNodes(L: seq<Block>)
    ensures forall p :: ValidPath(p) ==> Node(L, NO_BLOCKS, p) == 0
  {
    forall p | ValidPath(p) ensures Node(L, NO_BLOCKS, p) == 0 {
      EmptyNode(L, p);
    }
  }

  /** The end of a file without links: its blocks and its number go back; nothing else changes. */
  method ReleaseFile(fs: Ext2, inode: Inode)
    requires fs.Valid() && fs.Open(inode) && inode.valid && |fs.sbi.cache.pins| + 3 < NBLKNUM
    requires inode.ino > 0 && inode.ino - 1 !in fs.sbi.FreeSet(Inodes)
    modifies fs, inode`iBlock, inode`size, inode`dirty, fs.sbi.cache, fs.sbi.cache.slots, fs.sbi.cache.disk`sectors,
             fs.sbi.gb
    ensures fs.Valid() && fs.sbi.cache.pins == old(fs.sbi.cache.pins)
    ensures forall i, x :: old(fs.sbi.cache.Pinned(i, x)) ==> fs.sbi.cache.Pinned(i, x)
    ensures fs.files == old(fs.files) - {inode.ino}
    ensures fs.sbi.FreeSet(Inodes) == old(fs.sbi.FreeSet(Inodes)) + {inode.ino - 1}
    ensures fs.sbi.InUse() == old(fs.sbi.InUse()) - Reach(old(fs.sbi.cache.L), old(inode.iBlock))
    ensures SameViews(old(fs.sbi.cache.L), old(fs.files) - {inode.ino}, fs.sbi.cache.L, fs.files)
    ensures forall j :: ValidIno(fs.sbi.geo, j) && j != inode.ino ==> fs.Image(j) == old(fs.Image(j))
  {
    hide SbInfo.Valid; hide SbInfo.FreeSet; hide SbInfo.InUse; hide Trees; hide ImageAt; hide FileBlock; hide Reach;
    ghost var L0, files0 := fs.sbi.cache.L, fs.files;
    TruncateInode(fs, inode);
    ghost var L1, files1 := fs.sbi.cache.L, fs.files;
    GiveInode(fs, inode.ino);
    DropEmptyFile(fs.sbi.cache.L, fs.files, fs.sbi.InUse(), inode.ino);
    fs.files := fs.files - {inode.ino};
  }

  /** The mode ext2_create gives a regular file. */
  function RegularMode(mode: u32): u16 {
    0x8000 + mode % 0x1000
  }

  /** S_IFREG, and the twelve permission bits asked for. */
  lemma ModeBits(mode: u32)
    ensures RegularMode(mode) / 0x1000 == 8 && RegularMode(mode) % 0x1000 == mode % 0x1000
  {
  }

  /** The inode image of a new file: zeros but for mode and link count. */
  function NewImage(mode: u32, size: nat): (r: seq<u8>)
    requires size >= GOOD_OLD_INODE_SIZE
    ensures |r| == size
  {
    ToLe(RegularMode(mode), 2) + Zeros(24) + ToLe(1, 2) + Zeros(size - 28)
  }

  function NewMeta(mode: u32): Meta {
    Meta(RegularMode(mode), 0, 0, 0, 1, [0, 0, 0, 0, 0, 0, 0, 0, 0, 0, 0, 0, 0, 0, 0], 0)
  }

  /** An empty file of root's with one link. */
  lemma NewFields(mode: u32)
    ensures var m := NewMeta(mode);
            && m.mode / 0x1000 == 8 && m.mode % 0x1000 == mode % 0x1000 && m.nlinks == 1 && m.size == 0
            && m.uid == 0 && m.gid == 0 && m.flags == 0 && forall i :: 0 <= i < 15 ==> m.iBlock[i] == 0
  {
    ModeBits(mode);
  }

  lemma NewImageParts(a: seq<u8>, b: seq<u8>, c: seq<u8>, d: seq<u8>, s: seq<u8>)
    requires |a| == 2 && |b| == 24 && |c| == 2 && |d| >= 100 && s == (a + b + c + d)[..GOOD_OLD_INODE_SIZE]
    requires (forall i :: 0 <= i < |b| ==> b[i] == 0) && (forall i :: 0 <= i < |d| ==> d[i] == 0)
    ensures s[0..2] == a && s[26..28] == c
    ensures forall i :: 2 <= i < GOOD_OLD_INODE_SIZE && !(26 <= i < 28) ==> s[i] == 0
  {
    assert forall i :: 0 <= i < 2 ==> s[26 + i] == c[i];
  }

  /** The new image reads back as an empty regular file with one link. */
  lemma NewImageDecodes(mode: u32, size: nat)
    requires size >= GOOD_OLD_INODE_SIZE
    ensures Decode(NewImage(mode, size)[..GOOD_OLD_INODE_SIZE]) == NewMeta(mode)
    ensures TypeOf(NewMeta(mode).mode) == File && Truncated(NewMeta(mode)) == NewMeta(mode)
    ensures NewMeta(mode).iBlock == NO_BLOCKS
  {
    hide ToLe; hide Zeros;
    Pow256Values();
    var s := NewImage(mode, size)[..GOOD_OLD_INODE_SIZE];
    NewImageParts(ToLe(RegularMode(mode), 2), Zeros(24), ToLe(1, 2), Zeros(size - 28), s);
    LeRoundTrip(RegularMode(mode), 2);
    LeRoundTrip(1, 2);
    ZeroField(s, 2, 2);
    ZeroField(s, 4, 4);
    ZeroField(s, 24, 2);
    ZeroField(s, 32, 4);
    forall i | 0 <= i < N_BLOCKS ensures PtrsOf(s, N_BLOCKS)[i] == 0 {
      ZeroField(s, 40 + 4 * i, 4);
    }
  }

  /** The part of ext2_create that clears the inode's slot and writes mode and link count. */
  method InitInode(fs: Ext2, ino: nat, mode: u32)
    requires fs.Valid() && |fs.sbi.cache.pins| < NBLKNUM && ValidIno(fs.sbi.geo, ino)
    modifies fs.sbi.cache, fs.sbi.cache.slots, fs.sbi.cache.disk`sectors
    ensures fs.Valid() && fs.sbi.cache.pins == old(fs.sbi.cache.pins)
    ensures forall i, x :: old(fs.sbi.cache.Pinned(i, x)) ==> fs.sbi.cache.Pinned(i, x)
    ensures fs.sbi.InUse() == old(fs.sbi.InUse()) && forall k: Kind :: fs.sbi.FreeSet(k) == old(fs.sbi.FreeSet(k))
    ensures Decode(fs.Image(ino)) == NewMeta(mode)
    ensures forall j :: ValidIno(fs.sbi.geo, j) && j != ino ==> fs.Image(j) == old(fs.Image(j))
    ensures SameViews(old(fs.sbi.cache.L), fs.files, fs.sbi.cache.L, fs.files)
  {
    hide SbInfo.Valid; hide SbInfo.FreeSet; hide SbInfo.InUse; hide Trees; hide SameViews; hide Decode;
    hide InoBlock; hide InoOffset; hide Splice; hide NewImage; hide NewMeta; hide InodesOk; hide ImageAt;
    fs.sbi.TableFacts();
    fs.sbi.InUseData();
    ghost var L := fs.sbi.cache.L;
    var blkNo, offset := fs.sbi.InodeLoc(ino);
    NewImageDecodes(mode, fs.sbi.geo.inodeSize);
    WriteImage(L, fs.sbi.geo, fs.sbi.role, fs.sbi.tables, ino, NewImage(mode, fs.sbi.geo.inodeSize));
    fs.sbi.WriteBytes(blkNo, offset, NewImage(mode, fs.sbi.geo.inodeSize));
    ViewsSame(L, fs.sbi.cache.L, fs.files, fs.sbi.InUse());
  }

  lemma ViewsTwice(L0: seq<Block>, files0: map<nat, Ptrs>, L1: seq<Block>, files1: map<nat, Ptrs>, L2: seq<Block>,
      files2: map<nat, Ptrs>)
    requires SameViews(L0, files0, L1, files1) && SameViews(L1, files1, L2, files2)
    ensures SameViews(L0, files0, L2, files2)
  {
    hide FileBlock;
    forall g, k | g in files0 && 0 <= k < MAX_LBK
      ensures FileBlock(L2, files2[g], k) == FileBlock(L0, files0[g], k)
    {
      assert FileBlock(L1, files1[g], k) == FileBlock(L0, files0[g], k);
    }
  }

  /** The disk half of ext2_create: the lowest free number gets the image of an empty regular file with one link;
      0, and nothing changed, when no number is free. */
  method NewInode(fs: Ext2, mode: u32) returns (ino: nat)
    requires fs.Valid() && |fs.sbi.cache.pins| < NBLKNUM
    modifies fs.sbi.cache, fs.sbi.cache.slots, fs.sbi.cache.disk`sectors, fs.sbi.gb
    ensures fs.Valid() && fs.sbi.cache.pins == old(fs.sbi.cache.pins)
    ensures forall i, x :: old(fs.sbi.cache.Pinned(i, x)) ==> fs.sbi.cache.Pinned(i, x)
    ensures fs.sbi.FreeSet(Blocks) == old(fs.sbi.FreeSet(Blocks)) && fs.sbi.InUse() == old(fs.sbi.InUse())
    ensures ino == 0 <==> old(fs.sbi.FreeSet(Inodes)) == {}
    ensures if ino == 0 then fs.sbi.FreeSet(Inodes) == old(fs.sbi.FreeSet(Inodes))
            else fs.sbi.FreeSet(Inodes) == old(fs.sbi.FreeSet(Inodes)) - {ino - 1}
    ensures ino != 0 ==>
            && old(fs.sbi.IsFreeInode(ino)) && ValidIno(fs.sbi.geo, ino)
            && (forall x :: 0 <= x < ino ==> !old(fs.sbi.IsFreeInode(x))) && Decode(fs.Image(ino)) == NewMeta(mode)
    ensures SameViews(old(fs.sbi.cache.L), fs.files, fs.sbi.cache.L, fs.files)
    ensures forall j :: ValidIno(fs.sbi.geo, j) && j != ino ==> fs.Image(j) == old(fs.Image(j))
  {
    hide SbInfo.Valid; hide SbInfo.FreeSet; hide SbInfo.InUse; hide Ext2.Valid; hide SameViews; hide Decode;
    hide NewMeta; hide ImageAt; hide BlockCache.Pinned; hide Ext2.Image; hide ValidIno;
    ghost var L0 := fs.sbi.cache.L;
    ino := TakeInode(fs);
    if ino != 0 {
      ghost var L1 := fs.sbi.cache.L;
      InitInode(fs, ino, mode);
      ViewsTwice(L0, fs.files, L1, fs.files, fs.sbi.cache.L, fs.files);
    }
  }
}
