/** The file half of fs/ext2/dir.c: logical blocks through the pointer trees, and byte-granular read and write. */
module Ext2File {
  import opened Bytes
  import opened BlkCache
  import opened Layout
  import opened AllocLemmas
  import opened Balloc
  import opened FileTree
  import opened FileView
  import opened InodeImage

  datatype InodeType = File | Dir | Symlink

  /** The type ext2_read_inode derives from the mode's top four bits. */
  function TypeOf(mode: u32): InodeType {
    var fmt := mode / 0x1000 % 0x10;
    if fmt == 0x4 then Dir else if fmt == 0x8 then File else if fmt == 0xA then Symlink else File
  }

  /** The top four of the mode's 16 bits: 4 is a directory, 10 a symbolic link, anything else a file. */
  lemma ModeTypes(mode: u16)
    ensures TypeOf(mode) == Dir <==> 0x4000 <= mode <= 0x4FFF
    ensures TypeOf(mode) == Symlink <==> 0xA000 <= mode <= 0xAFFF
    ensures TypeOf(mode) == File <==> !(0x4000 <= mode <= 0x4FFF) && !(0xA000 <= mode <= 0xAFFF)
  {
  }

  /** What an in-memory inode holds, as a value. */
  datatype Cached = Cached(ino: nat, ref: int, fields: Meta, kind: InodeType, dirty: bool, valid: bool)

  /** The in-memory inode: struct inode together with its ext2_inode_info. */
  class Inode {
    const ino: nat
    var kind: InodeType
    var mode: u32
    var uid: u32
    var gid: u32
    var size: u32
    var nlinks: u32
    var iBlock: Ptrs
    var flags: u32
    var ref: int
    var dirty: bool
    var valid: bool

    /** A fresh in-memory inode, not yet read from disk. */
    constructor (ino: nat)
      ensures this.ino == ino && ref == 1 && !valid && !dirty
    {
      this.ino, this.ref, this.valid, this.dirty := ino, 1, false, false;
      kind, mode, uid, gid, size, nlinks, flags := File, 0, 0, 0, 0, 0, 0;
      iBlock := seq(N_BLOCKS, _ => 0);
    }

    /** The field copies of ext2_read_inode. */
    method Fill(raw: Meta)
      modifies this
      ensures Fields() == raw && kind == TypeOf(mode) && valid
      ensures ref == old(ref) && dirty == old(dirty)
    {
      mode, uid, gid, size, nlinks := raw.mode, raw.uid, raw.gid, raw.size, raw.nlinks;
      kind := TypeOf(raw.mode);
      iBlock, flags := raw.iBlock, raw.flags;
      valid := true;
    }

    /** Each field of the inode is the one of that name on disk. */
    lemma FieldNames()
      ensures Fields().mode == mode && Fields().uid == uid && Fields().gid == gid && Fields().size == size
      ensures Fields().nlinks == nlinks && Fields().flags == flags && Fields().iBlock == iBlock
    {
    }

    ghost function Snapshot(): Cached
      reads this
    {
      Cached(ino, ref, Fields(), kind, dirty, valid)
    }

    /** The fields that go to disk. */
    function Fields(): Meta
      reads this
    {
      Meta(mode, uid, gid, size, nlinks, iBlock, flags)
    }
  }

  /** The files of the file system have inode numbers of the file system. */
  ghost predicate InodesOk(geo: Geometry, files: map<nat, Ptrs>) {
    forall f :: f in files ==> ValidIno(geo, f)
  }

  /** A mounted ext2 file system.  files gives the current block pointers of every inode in use. */
  class Ext2 {
    const sbi: SbInfo
    ghost var files: map<nat, Ptrs>

    ghost predicate Valid()
      reads this, sbi, sbi.gb, sbi.cache, sbi.cache.slots, sbi.cache.disk
    {
      sbi.Valid() && Trees(sbi.cache.L, files, sbi.InUse()) && InodesOk(sbi.geo, files)
    }

    /** inode is the in-memory copy of a file of this file system. */
    ghost predicate Open(inode: Inode)
      reads this, inode
    {
      inode.ino in files && files[inode.ino] == inode.iBlock
    }

    constructor (sbi: SbInfo, ghost files: map<nat, Ptrs>)
      requires sbi.Valid() && Trees(sbi.cache.L, files, sbi.InUse()) && InodesOk(sbi.geo, files)
      ensures Valid() && this.sbi == sbi && this.files == files
    {
      this.sbi, this.files := sbi, files;
    }

    /** ext2_read_block: the contents of logical block lbk, zeros for a hole; -1 only in the triple indirect range.  The
        block lies behind pointer lbk of the inode, behind word lbk - 12 of the single indirect block, or behind a word
        of a block that a word of the double indirect block leads to. */
    method ReadBlock(inode: Inode, lbk: nat) returns (ok: bool, buf: Block)
      requires Valid() && Open(inode) && |sbi.cache.pins| < NBLKNUM
      modifies sbi.cache`pins, sbi.cache.slots, sbi.cache.disk`sectors
      ensures Valid() && sbi.cache.L == old(sbi.cache.L) && sbi.cache.pins == old(sbi.cache.pins)
      ensures sbi.FreeSet(Blocks) == old(sbi.FreeSet(Blocks))
      ensures forall i, x :: old(sbi.cache.Pinned(i, x)) ==> sbi.cache.Pinned(i, x)
      ensures sbi.FreeSet(Inodes) == old(sbi.FreeSet(Inodes))
      ensures ok <==> lbk < MAX_LBK
      ensures ok ==> buf == FileBlock(sbi.cache.L, inode.iBlock, lbk)
      ensures lbk < 12 ==> buf == BlockOrHole(sbi.cache.L, inode.iBlock[lbk])
      ensures 12 <= lbk < 1036 ==> buf == BlockOrHole(sbi.cache.L, Through(sbi.cache.L, inode.iBlock[12], lbk - 12))
      ensures 1036 <= lbk < 1049612 ==>
                buf == BlockOrHole(sbi.cache.L,
                                   Through(sbi.cache.L, Through(sbi.cache.L, inode.iBlock[13], (lbk - 1036) / 1024),
                                           (lbk - 1036) % 1024))
    {
      hide SbInfo.Valid; hide SbInfo.FreeSet; hide SbInfo.InUse; hide Trees; hide PtrAt; hide FreeItems; hide Node;
      hide BlockOrHole; hide Through;
      ghost var L, f, inUse := sbi.cache.L, inode.ino, sbi.InUse();
      if lbk < MAX_LBK {
        BlockPlaces(L, inode.iBlock, lbk);
      }
      buf := Zeros(BLKSZ);
      var k := lbk;
      if k < NDIR_BLOCKS {
        var blkNo := inode.iBlock[k];
        TopNode(L, files, inUse, f, k);
        if blkNo == 0 {
          return true, buf;
        }
        buf := sbi.Read(blkNo);
        return true, buf;
      }
      k := k - NDIR_BLOCKS;
      if k < PTRS {
        var indBlk := inode.iBlock[IND_BLOCK];
        TopNode(L, files, inUse, f, IND_BLOCK);
        NextNode(L, files, inUse, f, [IND_BLOCK], k);
        assert [IND_BLOCK] + [k] == PathOf(lbk);
        if indBlk == 0 {
          return true, buf;
        }
        var ind := sbi.Read(indBlk);
        var blkNo := PtrAt(ind, k);
        if blkNo == 0 {
          return true, buf;
        }
        buf := sbi.Read(blkNo);
        return true, buf;
      }
      k := k - PTRS;
      if k < PTRS * PTRS {
        var dindBlk := inode.iBlock[DIND_BLOCK];
        var indIdx, dblkIdx := k / PTRS, k % PTRS;
        TopNode(L, files, inUse, f, DIND_BLOCK);
        NextNode(L, files, inUse, f, [DIND_BLOCK], indIdx);
        NextNode(L, files, inUse, f, [DIND_BLOCK] + [indIdx], dblkIdx);
        assert [DIND_BLOCK] + [indIdx] + [dblkIdx] == PathOf(lbk);
        if dindBlk == 0 {
          return true, buf;
        }
        var dind := sbi.Read(dindBlk);
        var indBlk := PtrAt(dind, indIdx);
        if indBlk == 0 {
          return true, buf;
        }
        var ind := sbi.Read(indBlk);
        var blkNo := PtrAt(ind, dblkIdx);
        if blkNo == 0 {
          return true, buf;
        }
        buf := sbi.Read(blkNo);
        return true, buf;
      }
      return false, buf;
    }

    /** The block at pointer idx of the inode, allocating and zeroing it if the place is empty. */
    method EnsureTop(inode: Inode, idx: nat) returns (ok: bool)
      requires Valid() && Open(inode) && |sbi.cache.pins| < NBLKNUM
      requires idx == IND_BLOCK || idx == DIND_BLOCK
      modifies this, inode`iBlock, inode`dirty, sbi.cache, sbi.cache.slots, sbi.cache.disk`sectors, sbi.gb
      ensures Valid() && Open(inode) && sbi.cache.pins == old(sbi.cache.pins)
      ensures forall i, x :: old(sbi.cache.Pinned(i, x)) ==> sbi.cache.Pinned(i, x)
      ensures TablesSame(old(sbi.cache.L), sbi.cache.L, sbi.role) && sbi.FreeSet(Inodes) == old(sbi.FreeSet(Inodes))
      ensures files == old(files)[inode.ino := inode.iBlock]
      ensures SameViews(old(sbi.cache.L), old(files), sbi.cache.L, files)
      ensures ok <==> inode.iBlock[idx] != 0
      ensures !ok ==> sbi.FreeSet(Blocks) == {}
      ensures old(inode.iBlock) != inode.iBlock ==> inode.dirty
      ensures old(inode.dirty) ==> inode.dirty
    {
      hide SbInfo.Valid; hide SbInfo.FreeSet; hide SbInfo.InUse; hide Trees; hide U32At; hide FreeItems;
      hide UsedData; hide SameViews; hide Attached; hide Splice;
      ghost var L, files0, inUse := sbi.cache.L, files, sbi.InUse();
      ViewsSelf(L, files0);
      ok := true;
      if inode.iBlock[idx] == 0 {
        var nb := sbi.AllocBlock();
        if nb == 0 {
          return false;
        }
        inode.iBlock := inode.iBlock[idx := nb];
        inode.dirty := true;
        ghost var L1 := sbi.cache.L;
        sbi.WriteBytes(nb, 0, Zeros(BLKSZ));
        SpliceWhole(L1[nb], Zeros(BLKSZ));
        GrowTop(L, L1, files0, inUse, inode.ino, idx, nb);
        files := files[inode.ino := inode.iBlock];
      }
    }

    /** Allocate a block and enter it into the index block held in slot c: ptrs[k] = nb; bwrite. */
    method FillEntry(c: nat, ghost no: nat, k: nat) returns (nb: nat, ghost L1: seq<Block>)
      requires sbi.Valid() && sbi.cache.Pinned(c, no) && no in sbi.InUse() && k < PTRS && |sbi.cache.pins| < NBLKNUM
      modifies sbi.cache, sbi.cache.slots, sbi.cache.disk`sectors, sbi.gb
      ensures sbi.Valid() && sbi.cache.pins == old(sbi.cache.pins)
      ensures forall i, x :: old(sbi.cache.Pinned(i, x)) ==> sbi.cache.Pinned(i, x)
      ensures TablesSame(old(sbi.cache.L), sbi.cache.L, sbi.role) && sbi.FreeSet(Inodes) == old(sbi.FreeSet(Inodes))
      ensures nb == 0 ==>
              sbi.FreeSet(Blocks) == {} && sbi.cache.L == old(sbi.cache.L) && sbi.InUse() == old(sbi.InUse())
      ensures |L1| == |old(sbi.cache.L)| && forall b :: b in old(sbi.InUse()) ==>
              b < |L1| && L1[b] == old(sbi.cache.L)[b]
      ensures nb != 0 ==>
                && nb < 0x1_0000_0000 && nb < |L1| && nb !in old(sbi.InUse()) && sbi.InUse() == old(sbi.InUse()) + {nb}
                && sbi.role(nb) == Data
                && sbi.cache.L == L1[no := PutPtr(old(sbi.cache.L)[no], k, nb)]
    {
      hide SbInfo.Valid; hide SbInfo.FreeSet; hide SbInfo.InUse; hide PutPtr; hide FreeItems; hide UsedData;
      sbi.InUseData();
      nb := sbi.AllocBlock();
      L1 := sbi.cache.L;
      if nb != 0 {
        sbi.StoreThrough(c, no, PutPtr(sbi.cache.slots[c].data, k, nb));
      }
    }

    /** A zeroed index block for the empty entry k of the double indirect block held in slot c; 0 when the disk is
        full. */
    method ZeroEntry(inode: Inode, c: nat, dindBlk: nat, k: nat) returns (nb: nat)
      requires Valid() && Open(inode) && |sbi.cache.pins| < NBLKNUM && k < PTRS && sbi.cache.Pinned(c, dindBlk)
      requires dindBlk == inode.iBlock[DIND_BLOCK] != 0 && PtrAt(sbi.cache.L[dindBlk], k) == 0
      modifies sbi.cache, sbi.cache.slots, sbi.cache.disk`sectors, sbi.gb
      ensures Valid() && sbi.cache.pins == old(sbi.cache.pins)
      ensures forall i, x :: old(sbi.cache.Pinned(i, x)) ==> sbi.cache.Pinned(i, x)
      ensures TablesSame(old(sbi.cache.L), sbi.cache.L, sbi.role) && sbi.FreeSet(Inodes) == old(sbi.FreeSet(Inodes))
      ensures SameViews(old(sbi.cache.L), files, sbi.cache.L, files)
      ensures nb == 0 ==> sbi.FreeSet(Blocks) == {} && sbi.cache.L == old(sbi.cache.L)
      ensures nb != 0 ==> Node(sbi.cache.L, inode.iBlock, [DIND_BLOCK, k]) == PtrAt(sbi.cache.L[dindBlk], k)
                          == nb < |sbi.cache.L|
    {
      hide SbInfo.Valid; hide SbInfo.FreeSet; hide SbInfo.InUse; hide Trees; hide PtrAt; hide PutPtr; hide FreeItems;
      hide UsedData; hide SameViews; hide Splice; hide Node;
      ghost var L, inUse := sbi.cache.L, sbi.InUse();
      ViewsSelf(L, files);
      sbi.InUseData();
      TopNode(L, files, inUse, inode.ino, DIND_BLOCK);
      ghost var L1;
      nb, L1 := FillEntry(c, dindBlk, k);
      if nb == 0 {
        return;
      }
      sbi.WriteBytes(nb, 0, Zeros(BLKSZ));
      SpliceWhole(L1[nb], Zeros(BLKSZ));
      PutPtrAt(L[dindBlk], k, nb);
      GrowBelow(L, L1, files, inUse, inode.ino, [DIND_BLOCK], dindBlk, k, nb);
      assert [DIND_BLOCK] + [k] == [DIND_BLOCK, k];
    }

    /** The index block under entry k of the double indirect block, allocating and zeroing it if the entry is
        empty; the double indirect block stays pinned meanwhile. */
    method EnsureBelow(inode: Inode, k: nat) returns (ok: bool, ind: nat)
      requires Valid() && Open(inode) && |sbi.cache.pins| + 1 < NBLKNUM
      requires inode.iBlock[DIND_BLOCK] != 0 && k < PTRS
      modifies this, sbi.cache, sbi.cache.slots, sbi.cache.disk`sectors, sbi.gb
      ensures Valid() && Open(inode) && sbi.cache.pins == old(sbi.cache.pins)
      ensures forall i, x :: old(sbi.cache.Pinned(i, x)) ==> sbi.cache.Pinned(i, x)
      ensures TablesSame(old(sbi.cache.L), sbi.cache.L, sbi.role) && sbi.FreeSet(Inodes) == old(sbi.FreeSet(Inodes))
      ensures files == old(files)
      ensures SameViews(old(sbi.cache.L), old(files), sbi.cache.L, files)
      ensures ok ==> ind == Node(sbi.cache.L, inode.iBlock, [DIND_BLOCK, k]) && 0 < ind < |sbi.cache.L|
      ensures !ok ==> sbi.FreeSet(Blocks) == {} && Node(sbi.cache.L, inode.iBlock, [DIND_BLOCK, k]) == 0
    {
      hide SbInfo.Valid; hide SbInfo.FreeSet; hide SbInfo.InUse; hide Trees; hide PtrAt; hide PutPtr; hide FreeItems;
      hide UsedData; hide SameViews; hide Splice; hide Node;
      ghost var L, inUse := sbi.cache.L, sbi.InUse();
      ViewsSelf(L, files);
      var dindBlk := inode.iBlock[DIND_BLOCK];
      sbi.InUseData();
      TopNode(L, files, inUse, inode.ino, DIND_BLOCK);
      NextNode(L, files, inUse, inode.ino, [DIND_BLOCK], k);
      assert [DIND_BLOCK] + [k] == [DIND_BLOCK, k];
      var dind := sbi.Hold(dindBlk);
      if PtrAt(sbi.cache.slots[dind].data, k) == 0 {
        var nb := ZeroEntry(inode, dind, dindBlk, k);
        if nb == 0 {
          sbi.Release(dind, dindBlk);
          return false, 0;
        }
      }
      ok, ind := true, PtrAt(sbi.cache.slots[dind].data, k);
      sbi.Release(dind, dindBlk);
    }

    /** The data block under entry k of index block ind, allocated and entered if the entry is empty; 0 when the disk
        is full.  Storing buf to it then writes exactly logical block lbk. */
    method DataUnder(inode: Inode, ghost lbk: nat, ghost P: seq<nat>, ind: nat, k: nat, ghost buf: Block)
      returns (dataBlk: nat)
      requires Valid() && Open(inode) && |sbi.cache.pins| + 1 < NBLKNUM
      requires lbk < MAX_LBK && ValidPath(P) && k < PTRS && PathOf(lbk) == P + [k]
      requires ind == Node(sbi.cache.L, inode.iBlock, P) && ind != 0
      modifies sbi.cache, sbi.cache.slots, sbi.cache.disk`sectors, sbi.gb
      ensures sbi.Valid() && sbi.cache.pins == old(sbi.cache.pins)
      ensures forall i, x :: old(sbi.cache.Pinned(i, x)) ==> sbi.cache.Pinned(i, x)
      ensures TablesSame(old(sbi.cache.L), sbi.cache.L, sbi.role) && sbi.FreeSet(Inodes) == old(sbi.FreeSet(Inodes))
      ensures dataBlk == 0 ==>
                && sbi.FreeSet(Blocks) == {} && sbi.cache.L == old(sbi.cache.L) && sbi.InUse() == old(sbi.InUse())
                && IsHole(sbi.cache.L, files, inode.ino, lbk)
      ensures dataBlk != 0 ==>
                && dataBlk < |sbi.cache.L| && sbi.role(dataBlk) == Data
                && Trees(sbi.cache.L[dataBlk := buf], files, sbi.InUse())
                && OneBlockWritten(old(sbi.cache.L), files, sbi.cache.L[dataBlk := buf], files, inode.ino, lbk, buf)
    {
      hide SbInfo.Valid; hide SbInfo.FreeSet; hide SbInfo.InUse; hide Trees; hide PtrAt; hide PutPtr; hide FreeItems;
      hide UsedData;
      hide SameViews; hide OneBlockWritten; hide Node; hide PathOf;
      ghost var L, inUse := sbi.cache.L, sbi.InUse();
      PathOfLeaf(lbk);
      sbi.InUseData();
      NodeIn(L, files, inUse, inode.ino, P);
      NextNode(L, files, inUse, inode.ino, P, k);
      var c := sbi.Hold(ind);
      if PtrAt(sbi.cache.slots[c].data, k) == 0 {
        var nb, L1 := FillEntry(c, ind, k);
        if nb == 0 {
          sbi.Release(c, ind);
          return 0;
        }
        PutPtrAt(L[ind], k, nb);
        GrowLeaf(L, L1, files, inUse, inode.ino, lbk, P, ind, k, nb, buf);
      } else {
        Rewrite(L, files, inUse, inode.ino, lbk, PtrAt(L[ind], k), buf);
      }
      dataBlk := PtrAt(sbi.cache.slots[c].data, k);
      sbi.Release(c, ind);
    }

    /** Write buf to the data block under entry k of index block ind, allocating it if the entry is empty. */
    method WriteUnder(inode: Inode, ghost lbk: nat, ghost P: seq<nat>, ind: nat, k: nat, buf: Block) returns (ok: bool)
      requires Valid() && Open(inode) && |sbi.cache.pins| + 1 < NBLKNUM
      requires lbk < MAX_LBK && ValidPath(P) && k < PTRS && PathOf(lbk) == P + [k]
      requires ind == Node(sbi.cache.L, inode.iBlock, P) && ind != 0
      modifies this, sbi.cache, sbi.cache.slots, sbi.cache.disk`sectors, sbi.gb
      ensures Valid() && Open(inode) && sbi.cache.pins == old(sbi.cache.pins)
      ensures forall i, x :: old(sbi.cache.Pinned(i, x)) ==> sbi.cache.Pinned(i, x)
      ensures TablesSame(old(sbi.cache.L), sbi.cache.L, sbi.role) && sbi.FreeSet(Inodes) == old(sbi.FreeSet(Inodes))
      ensures files == old(files)
      ensures Outcome(ok, old(sbi.cache.L), old(files), sbi.cache.L, files, inode.ino, lbk, buf)
      ensures !ok ==> sbi.FreeSet(Blocks) == {}
    {
      hide SbInfo.Valid; hide SbInfo.FreeSet; hide SbInfo.InUse; hide Trees; hide FreeItems; hide UsedData;
      hide SameViews; hide OneBlockWritten; hide Splice; hide Node; hide PathOf; hide IsHole; hide PtrAt;
      ViewsSelf(sbi.cache.L, files);
      var dataBlk := DataUnder(inode, lbk, P, ind, k, buf);
      if dataBlk == 0 {
        return false;
      }
      SpliceWhole(sbi.cache.L[dataBlk], buf);
      sbi.WriteBytes(dataBlk, 0, buf);
      ok := true;
    }

    /** The direct case of ext2_write_block. */
    method WriteDirect(inode: Inode, lbk: nat, buf: Block) returns (ok: bool)
      requires Valid() && Open(inode) && |sbi.cache.pins| < NBLKNUM && lbk < NDIR_BLOCKS
      modifies this, inode`iBlock, inode`dirty, sbi.cache, sbi.cache.slots, sbi.cache.disk`sectors, sbi.gb
      ensures Valid() && Open(inode) && sbi.cache.pins == old(sbi.cache.pins)
      ensures forall i, x :: old(sbi.cache.Pinned(i, x)) ==> sbi.cache.Pinned(i, x)
      ensures TablesSame(old(sbi.cache.L), sbi.cache.L, sbi.role) && sbi.FreeSet(Inodes) == old(sbi.FreeSet(Inodes))
      ensures files == old(files)[inode.ino := inode.iBlock]
      ensures Outcome(ok, old(sbi.cache.L), old(files), sbi.cache.L, files, inode.ino, lbk, buf)
      ensures !ok ==> sbi.FreeSet(Blocks) == {}
      ensures old(inode.iBlock) != inode.iBlock ==> inode.dirty
      ensures old(inode.dirty) ==> inode.dirty
    {
      hide SbInfo.Valid; hide SbInfo.FreeSet; hide SbInfo.InUse; hide Trees; hide FreeItems; hide UsedData;
      hide SameViews; hide OneBlockWritten; hide Splice; hide Node;
      ghost var L, files0, inUse := sbi.cache.L, files, sbi.InUse();
      ViewsSelf(L, files);
      sbi.InUseData();
      TopNode(L, files, inUse, inode.ino, lbk);
      if inode.iBlock[lbk] == 0 {
        var nb := sbi.AllocBlock();
        if nb == 0 {
          return false;
        }
        inode.iBlock := inode.iBlock[lbk := nb];
        inode.dirty := true;
        GrowDirect(L, sbi.cache.L, files, inUse, inode.ino, lbk, nb, buf);
        files := files[inode.ino := inode.iBlock];
      } else {
        Rewrite(L, files, inUse, inode.ino, lbk, inode.iBlock[lbk], buf);
      }
      SpliceWhole(sbi.cache.L[inode.iBlock[lbk]], buf);
      sbi.WriteBytes(inode.iBlock[lbk], 0, buf);
      ok := true;
    }

    /** ext2_write_block: -1 in the triple indirect range or when a block it needs cannot be had; then no file
        changed.  Otherwise logical block lbk of this file is buf and nothing else changed in any file. */
    method WriteBlock(inode: Inode, lbk: nat, buf: Block) returns (ok: bool)
      requires Valid() && Open(inode) && |sbi.cache.pins| + 1 < NBLKNUM
      modifies this, inode`iBlock, inode`dirty, sbi.cache, sbi.cache.slots, sbi.cache.disk`sectors, sbi.gb
      ensures Valid() && Open(inode) && sbi.cache.pins == old(sbi.cache.pins)
      ensures forall i, x :: old(sbi.cache.Pinned(i, x)) ==> sbi.cache.Pinned(i, x)
      ensures TablesSame(old(sbi.cache.L), sbi.cache.L, sbi.role) && sbi.FreeSet(Inodes) == old(sbi.FreeSet(Inodes))
      ensures files == old(files)[inode.ino := inode.iBlock]
      ensures Outcome(ok, old(sbi.cache.L), old(files), sbi.cache.L, files, inode.ino, lbk, buf)
      ensures !ok ==> lbk >= MAX_LBK || sbi.FreeSet(Blocks) == {}
      ensures ok ==> lbk < MAX_LBK
      ensures old(inode.iBlock) != inode.iBlock ==> inode.dirty
      ensures old(inode.dirty) ==> inode.dirty
    {
      hide BlockCache.Valid; hide SbInfo.Valid; hide Trees; hide FreeItems; hide UsedData; hide Outcome; hide Node;
      hide PathOf; hide SbInfo.FreeSet;
      if lbk < NDIR_BLOCKS {
        ok := WriteDirect(inode, lbk, buf);
        return;
      }
      var k := lbk - NDIR_BLOCKS;
      if k < PTRS {
        var has := EnsureTop(inode, IND_BLOCK);
        ghost var L1, files1 := sbi.cache.L, files;
        if has {
          IndirectPath(lbk);
          TopNode(L1, files1, sbi.InUse(), inode.ino, IND_BLOCK);
          ok := WriteUnder(inode, lbk, [IND_BLOCK], inode.iBlock[IND_BLOCK], k, buf);
        } else {
          ok := false;
          NoIndexBlock(L1, files1, inode.ino, lbk, IND_BLOCK);
          FailedOutcome(L1, files1, inode.ino, lbk, buf);
        }
        OutcomeAfter(ok, old(sbi.cache.L), old(files), L1, files1, sbi.cache.L, files, inode.ino, lbk, buf);
        return;
      }
      k := k - PTRS;
      if k < PTRS * PTRS {
        ok := WriteDouble(inode, lbk, k, buf);
        return;
      }
      FailedOutcome(sbi.cache.L, files, inode.ino, lbk, buf);
      ok := false;
    }

    /** The double indirect case of ext2_write_block. */
    method WriteDouble(inode: Inode, ghost lbk: nat, k: nat, buf: Block) returns (ok: bool)
      requires Valid() && Open(inode) && |sbi.cache.pins| + 1 < NBLKNUM
      requires k < PTRS * PTRS && lbk == NDIR_BLOCKS + PTRS + k
      modifies this, inode`iBlock, inode`dirty, sbi.cache, sbi.cache.slots, sbi.cache.disk`sectors, sbi.gb
      ensures Valid() && Open(inode) && sbi.cache.pins == old(sbi.cache.pins)
      ensures forall i, x :: old(sbi.cache.Pinned(i, x)) ==> sbi.cache.Pinned(i, x)
      ensures TablesSame(old(sbi.cache.L), sbi.cache.L, sbi.role) && sbi.FreeSet(Inodes) == old(sbi.FreeSet(Inodes))
      ensures files == old(files)[inode.ino := inode.iBlock]
      ensures Outcome(ok, old(sbi.cache.L), old(files), sbi.cache.L, files, inode.ino, lbk, buf)
      ensures !ok ==> sbi.FreeSet(Blocks) == {}
      ensures old(inode.iBlock) != inode.iBlock ==> inode.dirty
      ensures old(inode.dirty) ==> inode.dirty
    {
      hide BlockCache.Valid; hide SbInfo.Valid; hide Trees; hide FreeItems; hide UsedData; hide Outcome; hide Node;
      hide PathOf; hide SbInfo.FreeSet;
      ghost var L0, files0 := sbi.cache.L, files;
      var has := EnsureTop(inode, DIND_BLOCK);
      ghost var L1, files1 := sbi.cache.L, files;
      if !has {
        NoIndexBlock(L1, files1, inode.ino, lbk, DIND_BLOCK);
        FailedOutcome(L1, files1, inode.ino, lbk, buf);
        OutcomeAfter(false, L0, files0, L1, files1, L1, files1, inode.ino, lbk, buf);
        return false;
      }
      var indIdx, dblkIdx := k / PTRS, k % PTRS;
      var got, ind := EnsureBelow(inode, indIdx);
      ghost var L2, files2 := sbi.cache.L, files;
      if got {
        DoublePath(lbk, k);
        ok := WriteUnder(inode, lbk, [DIND_BLOCK, indIdx], ind, dblkIdx, buf);
      } else {
        ok := false;
        NoSecondBlock(L2, files2, inode.ino, lbk, k);
        FailedOutcome(L2, files2, inode.ino, lbk, buf);
      }
      OutcomeAfter(ok, L1, files1, L2, files2, sbi.cache.L, files, inode.ino, lbk, buf);
      OutcomeAfter(ok, L0, files0, L1, files1, sbi.cache.L, files, inode.ino, lbk, buf);
    }

    /** The image of inode number ino on the logical disk. */
    ghost function Image(ino: nat): (r: seq<u8>)
      requires Valid() && ValidIno(sbi.geo, ino)
      reads this, sbi, sbi.gb, sbi.cache, sbi.cache.slots, sbi.cache.disk
      ensures |r| == GOOD_OLD_INODE_SIZE
    {
      ImageAt(sbi.cache.L, sbi.geo, sbi.tables, ino)
    }

    /** The disk shows what the in-memory inode holds. */
    ghost predicate Synced(inode: Inode)
      requires Valid() && ValidIno(sbi.geo, inode.ino)
      reads this, inode, sbi, sbi.gb, sbi.cache, sbi.cache.slots, sbi.cache.disk
    {
      Decode(Image(inode.ino)) == Truncated(inode.Fields())
    }

    /** ext2_read_inode: fill the in-memory inode from its image, once. */
    method ReadInode(inode: Inode)
      requires Valid() && ValidIno(sbi.geo, inode.ino) && |sbi.cache.pins| < NBLKNUM
      modifies inode, sbi.cache`pins, sbi.cache.slots, sbi.cache.disk`sectors
      ensures Valid() && sbi.cache.L == old(sbi.cache.L) && sbi.cache.pins == old(sbi.cache.pins)
      ensures forall i, x :: old(sbi.cache.Pinned(i, x)) ==> sbi.cache.Pinned(i, x)
      ensures sbi.InUse() == old(sbi.InUse()) && forall k: Kind :: sbi.FreeSet(k) == old(sbi.FreeSet(k))
      ensures inode.valid && inode.ref == old(inode.ref) && inode.dirty == old(inode.dirty)
      ensures if old(inode.valid) then inode.Fields() == old(inode.Fields()) && inode.kind == old(inode.kind)
              else inode.Fields() == Decode(Image(inode.ino)) && inode.kind == TypeOf(inode.mode)
    {
      hide SbInfo.Valid; hide SbInfo.FreeSet; hide SbInfo.InUse; hide Trees; hide Decode; hide InoBlock;
      hide InoOffset; hide InodesOk;
      sbi.TableFacts();
      if inode.valid {
        return;
      }
      var blkNo, offset := sbi.InodeLoc(inode.ino);
      var data := sbi.Read(blkNo);
      var raw := Decode(data[offset..offset + GOOD_OLD_INODE_SIZE]);
      inode.Fill(raw);
    }

    /** The image at this offset of block no, read, filled in and written back. */
    method PutFields(no: nat, offset: nat, m: Meta)
      requires sbi.Valid() && |sbi.cache.pins| < NBLKNUM && no < |sbi.cache.L| && NotAllocator(sbi.role(no))
      requires no != SUPER_BLOCK && offset + GOOD_OLD_INODE_SIZE <= BLKSZ
      modifies sbi.cache, sbi.cache.slots, sbi.cache.disk`sectors
      ensures sbi.Valid() && sbi.cache.pins == old(sbi.cache.pins)
      ensures forall i, x :: old(sbi.cache.Pinned(i, x)) ==> sbi.cache.Pinned(i, x)
      ensures sbi.InUse() == old(sbi.InUse()) && forall k: Kind :: sbi.FreeSet(k) == old(sbi.FreeSet(k))
      ensures var raw := old(sbi.cache.L)[no][offset..offset + GOOD_OLD_INODE_SIZE];
              sbi.cache.L == old(sbi.cache.L)[no := Splice(old(sbi.cache.L)[no], offset, Imprint(raw, m))]
    {
      hide SbInfo.Valid; hide SbInfo.FreeSet; hide SbInfo.InUse; hide Imprint; hide Splice;
      var c := sbi.Hold(no);
      var raw := sbi.cache.slots[c].data[offset..offset + GOOD_OLD_INODE_SIZE];
      sbi.StoreThrough(c, no, Splice(sbi.cache.slots[c].data, offset, Imprint(raw, m)));
      sbi.Release(c, no);
    }

    /** ext2_write_inode: the fields go into the inode's own image; no other image and no file changes. */
    method WriteInode(inode: Inode) returns (ok: bool)
      requires Valid() && ValidIno(sbi.geo, inode.ino) && |sbi.cache.pins| < NBLKNUM
      modifies inode`dirty, sbi.cache, sbi.cache.slots, sbi.cache.disk`sectors
      ensures Valid() && sbi.cache.pins == old(sbi.cache.pins)
      ensures forall i, x :: old(sbi.cache.Pinned(i, x)) ==> sbi.cache.Pinned(i, x)
      ensures sbi.InUse() == old(sbi.InUse()) && forall k: Kind :: sbi.FreeSet(k) == old(sbi.FreeSet(k))
      ensures ok == inode.valid
      ensures !ok ==> sbi.cache.L == old(sbi.cache.L) && inode.dirty == old(inode.dirty)
      ensures ok ==> !inode.dirty && Image(inode.ino) == Imprint(old(Image(inode.ino)), inode.Fields()) && Synced(inode)
      ensures forall j :: ValidIno(sbi.geo, j) && j != inode.ino ==> Image(j) == old(Image(j))
      ensures SameViews(old(sbi.cache.L), files, sbi.cache.L, files)
    {
      hide SbInfo.Valid; hide SbInfo.FreeSet; hide SbInfo.InUse; hide Trees; hide SameViews; hide Decode;
      hide Imprint; hide InoBlock; hide InoOffset; hide Splice; hide InodesOk; hide TablesOk; hide GeometryOk;
      hide Truncated; hide ImageAt; hide Node; hide ValidPath; hide UsedData;
      ViewsSelf(sbi.cache.L, files);
      if !inode.valid {
        return false;
      }
      sbi.TableFacts();
      sbi.InUseData();
      ghost var L, inUse := sbi.cache.L, sbi.InUse();
      var blkNo, offset := sbi.InodeLoc(inode.ino);
      ImprintImage(L, sbi.geo, sbi.role, sbi.tables, inode.ino, inode.Fields(), blkNo, offset);
      PutFields(blkNo, offset, inode.Fields());
      assert blkNo !in inUse;
      ViewsSame(L, sbi.cache.L, files, inUse);
      inode.dirty := false;
      ok := true;
    }

    /** ext2_file_read: the bytes of the file from offset on, no more than asked for, none behind the end of the file,
        and fewer only up to that end; holes read as zeros.  The 64-bit sum of offset and length must not wrap. */
    method FileRead(inode: Inode, len: nat, offset: u32) returns (ret: int, data: seq<u8>, offset': u32)
      requires Valid() && Open(inode) && |sbi.cache.pins| < NBLKNUM
      requires offset + len < 0x1_0000_0000_0000_0000
      modifies sbi.cache`pins, sbi.cache.slots, sbi.cache.disk`sectors
      ensures Valid() && sbi.cache.L == old(sbi.cache.L) && sbi.cache.pins == old(sbi.cache.pins)
      ensures forall i, x :: old(sbi.cache.Pinned(i, x)) ==> sbi.cache.Pinned(i, x)
      ensures sbi.FreeSet(Blocks) == old(sbi.FreeSet(Blocks)) && sbi.FreeSet(Inodes) == old(sbi.FreeSet(Inodes))
      ensures |data| <= len && (data != [] ==> offset + |data| <= inode.size)
              && (|data| < len ==> offset + |data| >= inode.size)
      ensures offset' == offset + |data| && data == FileBytes(sbi.cache.L, inode.iBlock, offset, |data|)
      ensures forall i :: 0 <= i < |data| ==>
                data[i] == FileBlock(sbi.cache.L, inode.iBlock, (offset + i) / 4096)[(offset + i) % 4096]
      ensures -0x8000_0000 <= ret < 0x8000_0000 && (|data| - ret) % 0x1_0000_0000 == 0
    {
      hide SbInfo.Valid; hide SbInfo.FreeSet; hide SbInfo.InUse; hide Trees; hide FileBlock; hide InodesOk;
      hide FileByte;
      offset' := offset;
      if offset >= inode.size {
        return 0, [], offset';
      }
      var want := len;
      if offset + want > inode.size {
        want := inode.size - offset;
      }
      var total := 0;
      data := [];
      while total < want
        invariant Valid() && Open(inode) && sbi.cache.L == old(sbi.cache.L) && sbi.cache.pins == old(sbi.cache.pins)
        invariant forall i, x :: old(sbi.cache.Pinned(i, x)) ==> sbi.cache.Pinned(i, x)
        invariant sbi.FreeSet(Blocks) == old(sbi.FreeSet(Blocks)) && sbi.FreeSet(Inodes) == old(sbi.FreeSet(Inodes))
        invariant total <= want && offset' == offset + total
        invariant data == FileBytes(sbi.cache.L, inode.iBlock, offset, total)
      {
        var lbk, blkOff := offset' / BLKSZ, offset' % BLKSZ;
        OffsetsSupported(offset');
        var ok, buf := ReadBlock(inode, lbk);
        if !ok {
          assert false;
        }
        var chunk := BLKSZ - blkOff;
        if chunk > want - total {
          chunk := want - total;
        }
        ReadChunk(sbi.cache.L, inode.iBlock, offset, total, chunk, lbk, blkOff);
        data := data + buf[blkOff..blkOff + chunk];
        total := total + chunk;
        offset' := offset' + chunk;
      }
      ret := I32(total);
      I32Value(total, ret);
      BytesInBlocks(sbi.cache.L, inode.iBlock, offset, total);
    }

    /** One round of the loop in ext2_file_write: read the block, overlay the chunk, write the block back. */
    method WriteChunk(inode: Inode, data: seq<u8>, total: nat, cur: u32, ghost offset: nat, ghost L0: seq<Block>,
        ghost files0: map<nat, Ptrs>)
      returns (failed: bool, total': nat, cur': u32)
      requires Valid() && Open(inode) && |sbi.cache.pins| + 1 < NBLKNUM
      requires total < |data| && cur == offset + total && offset + |data| < 0x1_0000_0000
      requires Overlaid(L0, files0, sbi.cache.L, files, inode.ino, offset, data[..total])
      modifies this, inode`iBlock, inode`dirty, sbi.cache, sbi.cache.slots, sbi.cache.disk`sectors, sbi.gb
      ensures Valid() && Open(inode) && sbi.cache.pins == old(sbi.cache.pins)
      ensures forall i, x :: old(sbi.cache.Pinned(i, x)) ==> sbi.cache.Pinned(i, x)
      ensures TablesSame(old(sbi.cache.L), sbi.cache.L, sbi.role) && sbi.FreeSet(Inodes) == old(sbi.FreeSet(Inodes))
      ensures failed ==> total' == total && (cur / BLKSZ >= MAX_LBK || sbi.FreeSet(Blocks) == {})
      ensures !failed ==> total < total' <= |data|
      ensures cur' == offset + total'
      ensures Overlaid(L0, files0, sbi.cache.L, files, inode.ino, offset, data[..total'])
      ensures files == old(files)[inode.ino := inode.iBlock]
      ensures old(inode.dirty) ==> inode.dirty
      ensures inode.iBlock != old(inode.iBlock) ==> inode.dirty
    {
      hide SbInfo.Valid; hide SbInfo.FreeSet; hide SbInfo.InUse; hide Trees; hide FileBlock; hide FileByte;
      hide InodesOk; hide Overlaid; hide Splice;
      hide OneBlockWritten; hide SameViews;
      var lbk, blkOff := cur / BLKSZ, cur % BLKSZ;
      total', cur' := total, cur;
      var ok, buf := ReadBlock(inode, lbk);
      if ok {
        var chunk := BLKSZ - blkOff;
        if chunk > |data| - total {
          chunk := |data| - total;
        }
        ghost var L1, files1 := sbi.cache.L, files;
        buf := Splice(buf, blkOff, data[total..total + chunk]);
        ok := WriteBlock(inode, lbk, buf);
        if ok {
          OverlayChunk(L0, files0, L1, files1, sbi.cache.L, files, inode.ino, offset, data, total, chunk, lbk, blkOff,
            buf);
          total', cur' := total + chunk, cur + chunk;
        } else {
          OverlaidSame(L0, files0, L1, files1, sbi.cache.L, files, inode.ino, offset, data[..total]);
        }
      }
      failed := !ok;
    }

    /** The end of a complete write: grow the size, and put the inode on disk if anything changed. */
    method FinishWrite(inode: Inode, end: u32)
      requires Valid() && Open(inode) && inode.valid && |sbi.cache.pins| < NBLKNUM
      modifies inode`size, inode`dirty, sbi.cache, sbi.cache.slots, sbi.cache.disk`sectors
      ensures Valid() && sbi.cache.pins == old(sbi.cache.pins)
      ensures forall i, x :: old(sbi.cache.Pinned(i, x)) ==> sbi.cache.Pinned(i, x)
      ensures sbi.InUse() == old(sbi.InUse()) && forall k: Kind :: sbi.FreeSet(k) == old(sbi.FreeSet(k))
      ensures inode.size == if end > old(inode.size) then end else old(inode.size)
      ensures !inode.dirty
      ensures old(inode.dirty) || end > old(inode.size) || old(Synced(inode)) ==> Synced(inode)
      ensures forall j :: ValidIno(sbi.geo, j) && j != inode.ino ==> Image(j) == old(Image(j))
      ensures SameViews(old(sbi.cache.L), files, sbi.cache.L, files)
    {
      hide SbInfo.Valid; hide SbInfo.FreeSet; hide SbInfo.InUse; hide Trees; hide SameViews; hide InoBlock;
      hide InoOffset;
      ViewsSelf(sbi.cache.L, files);
      if end > inode.size {
        inode.size := end;
        inode.dirty := true;
      }
      if inode.dirty {
        var _ := WriteInode(inode);
      }
    }

    /** The loop of ext2_file_write: block after block until the data is written or the disk is full. */
    method WriteChunks(inode: Inode, data: seq<u8>, offset: u32) returns (failed: bool, total: nat, offset': u32)
      requires Valid() && Open(inode) && inode.valid && |sbi.cache.pins| + 1 < NBLKNUM
      requires 0 < |data| && offset + |data| < 0x1_0000_0000
      modifies this, inode, sbi.cache, sbi.cache.slots, sbi.cache.disk`sectors, sbi.gb
      ensures Valid() && Open(inode) && inode.valid && sbi.cache.pins == old(sbi.cache.pins)
      ensures forall i, x :: old(sbi.cache.Pinned(i, x)) ==> sbi.cache.Pinned(i, x)
      ensures TablesSame(old(sbi.cache.L), sbi.cache.L, sbi.role) && sbi.FreeSet(Inodes) == old(sbi.FreeSet(Inodes))
      ensures if failed then total < |data| && sbi.FreeSet(Blocks) == {} else total == |data|
      ensures offset' == offset + total
      ensures Overlaid(old(sbi.cache.L), old(files), sbi.cache.L, files, inode.ino, offset, data[..total])
      ensures files == old(files)[inode.ino := inode.iBlock]
      ensures inode.Fields() == old(inode.Fields()).(iBlock := inode.iBlock) && inode.kind == old(inode.kind)
              && inode.ref == old(inode.ref)
      ensures old(inode.dirty) || inode.iBlock != old(inode.iBlock) ==> inode.dirty
    {
      hide SbInfo.Valid; hide SbInfo.FreeSet; hide SbInfo.InUse; hide Trees; hide FileBlock; hide FileByte;
      hide Outcome; hide Overlaid; hide SameViews; hide InodesOk;
      offset' := offset;
      ghost var L0, files0 := sbi.cache.L, files;
      OverlaidNothing(L0, files0, inode.ino, offset);
      total, failed := 0, false;
      while total < |data|
        invariant Valid() && Open(inode) && sbi.cache.pins == old(sbi.cache.pins)
        invariant forall i, x :: old(sbi.cache.Pinned(i, x)) ==> sbi.cache.Pinned(i, x)
        invariant TablesSame(L0, sbi.cache.L, sbi.role) && sbi.FreeSet(Inodes) == old(sbi.FreeSet(Inodes))
        invariant total <= |data| && !failed && offset' == offset + total
        invariant Overlaid(L0, files0, sbi.cache.L, files, inode.ino, offset, data[..total])
        invariant files == files0[inode.ino := inode.iBlock]
        invariant inode.Fields() == old(inode.Fields()).(iBlock := inode.iBlock) && inode.kind == old(inode.kind)
                  && inode.ref == old(inode.ref) && inode.valid
        invariant old(inode.dirty) || inode.iBlock != old(inode.iBlock) ==> inode.dirty
      {
        OffsetsSupported(offset');
        failed, total, offset' := WriteChunk(inode, data, total, offset', offset, L0, files0);
        if failed {
          break;
        }
      }
    }

    /** ext2_file_write: overlays the first bytes of the data at offset, as many as the offset moves on, and changes no
        other byte of any file.  A short or failed write means the disk is full; it leaves the size as it was.
        A complete write leaves size the larger of the old size and the end of the data, and the inode on disk. */
    method FileWrite(inode: Inode, data: seq<u8>, offset: u32) returns (ret: int, offset': u32)
      requires Valid() && Open(inode) && inode.valid && |sbi.cache.pins| + 1 < NBLKNUM
      requires offset + |data| < 0x1_0000_0000
      modifies this, inode, sbi.cache, sbi.cache.slots, sbi.cache.disk`sectors, sbi.gb
      ensures Valid() && Open(inode) && inode.valid && sbi.cache.pins == old(sbi.cache.pins)
      ensures forall i, x :: old(sbi.cache.Pinned(i, x)) ==> sbi.cache.Pinned(i, x)
      ensures sbi.FreeSet(Inodes) == old(sbi.FreeSet(Inodes))
      ensures var n := offset' - offset;
              && 0 <= n <= |data| && (n < |data| ==> sbi.FreeSet(Blocks) == {})
              && ret == (if n == 0 < |data| then -1 else I32(n))
              && Overlaid(old(sbi.cache.L), old(files), sbi.cache.L, files, inode.ino, offset, data[..n])
              && inode.size == if n == |data| > 0 && offset' > old(inode.size) then offset' else old(inode.size)
      ensures files == old(files)[inode.ino := inode.iBlock]
      ensures inode.Fields() == old(inode.Fields()).(size := inode.size, iBlock := inode.iBlock)
              && inode.kind == old(inode.kind) && inode.ref == old(inode.ref)
      ensures offset' == offset + |data| > offset ==> !inode.dirty
      ensures old(!inode.dirty ==> Synced(inode)) ==> !inode.dirty ==> Synced(inode)
      ensures forall j :: ValidIno(sbi.geo, j) && j != inode.ino ==> Image(j) == old(Image(j))
    {
      hide SbInfo.Valid; hide SbInfo.FreeSet; hide SbInfo.InUse; hide Trees; hide FileBlock; hide FileByte;
      hide Outcome; hide TablesOk; hide Decode; hide Truncated; hide ImageAt; hide GeometryOk; hide Overlaid;
      hide SameViews;
      offset' := offset;
      ghost var L0, files0 := sbi.cache.L, files;
      sbi.TableFacts();
      OverlaidNothing(L0, files0, inode.ino, offset);
      if |data| == 0 {
        return 0, offset';
      }
      var failed, total;
      failed, total, offset' := WriteChunks(inode, data, offset);
      sbi.TableFacts();
      ghost var L1 := sbi.cache.L;
      ImagesSame(L0, L1, sbi.geo, sbi.role, sbi.tables);
      if failed {
        ret := if total > 0 then I32(total) else -1;
        return;
      }
      FinishWrite(inode, offset');
      OverlaidSame(L0, files0, L1, files, sbi.cache.L, files, inode.ino, offset, data[..total]);
      ret := I32(total);
    }
  }
}
