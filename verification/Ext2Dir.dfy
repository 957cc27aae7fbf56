/** The directory half of fs/ext2/dir.c: searching, extending and shrinking a directory in place. */
module Ext2Dir {
  import opened Bytes
  import opened BlkCache
  import opened Layout
  import opened AllocLemmas
  import opened Balloc
  import opened FileTree
  import opened FileView
  import opened InodeImage
  import opened Ext2File
  import opened DirBlock
  import opened DirView

  /** The largest directory for which size + block_size - 1 does not wrap. */
  const MAX_DIR: nat := 0xFFFF_F000

  /** Some record from pos on could give up this much space. */
  ghost predicate Room(b: Block, pos: nat, needed: nat)
    requires Tiled(b, pos)
    decreases BLKSZ - pos
  {
    pos != BLKSZ && (Needed(NameLen(b, pos)) + needed <= RecLen(b, pos) || Room(b, pos + RecLen(b, pos), needed))
  }

  /** A block has space for a record of this size. */
  ghost predicate HasRoom(b: Block, needed: nat) {
    BlockOk(b) && RecLen(b, 0) != 0 && Room(b, 0, needed)
  }

  /** The first entry of the name is the one at pos. */
  lemma FoundHere(b: Block, pos: nat, name: seq<u8>)
    requires Tiled(b, 0) && OnChain(b, 0, pos) && pos < BLKSZ && RecordOk(b, pos)
    requires InoAt(b, pos) != 0 && NameAt(b, pos) == name && Lookup(Before(b, 0, pos), name) == 0
    ensures Lookup(Live(b, 0), name) == InoAt(b, pos)
  {
    hide Tiled; hide Live; hide OnChain; hide Before; hide Needed; hide U16At;
    Around(b, pos);
    BeforeLeads(b, 0, pos);
    var rest := Live(b, pos + RecLen(b, pos));
    assert Entry(b, pos) == [Binding(name, InoAt(b, pos))];
    assert Before(b, 0, pos) + Entry(b, pos) + rest == Before(b, 0, pos) + (Entry(b, pos) + rest);
    LookupConcat(Before(b, 0, pos), Entry(b, pos) + rest, name);
  }

  /** A record of another name, or none, does not end the search. */
  lemma PassedBy(b: Block, pos: nat, name: seq<u8>)
    requires OnChain(b, 0, pos) && RecordOk(b, pos) && Lookup(Before(b, 0, pos), name) == 0
    requires InoAt(b, pos) == 0 || NameAt(b, pos) != name
    ensures OnChain(b, 0, pos + RecLen(b, pos)) && Lookup(Before(b, 0, pos + RecLen(b, pos)), name) == 0
  {
    hide OnChain; hide Before; hide Needed; hide U16At;
    ChainExtend(b, 0, pos);
    BeforeLeads(b, 0, pos);
    LookupConcat(Before(b, 0, pos), Entry(b, pos), name);
    if InoAt(b, pos) != 0 {
      assert [Binding(NameAt(b, pos), InoAt(b, pos))][1..] == [];
    }
  }

  lemma SearchedAll(b: Block, name: seq<u8>)
    requires Tiled(b, 0) && OnChain(b, 0, BLKSZ) && Lookup(Before(b, 0, BLKSZ), name) == 0
    ensures Lookup(Live(b, 0), name) == 0
  {
    assert Tiled(b, BLKSZ);
    ChainLive(b, 0, BLKSZ);
    assert Before(b, 0, BLKSZ) + [] == Before(b, 0, BLKSZ);
  }

  /** The record loop of ext2_lookup and ext2_unlink: the first live record of that name, and the record before it. */
  method SearchBlock(buf: Block, name: seq<u8>) returns (found: bool, pos: nat, prev: int)
    requires BlockOk(buf) && 0 < |name| < 256
    ensures pos + HEADER <= BLKSZ || !found
    ensures Lookup(Bindings(buf), name) == if found then InoAt(buf, pos) else 0
    ensures found ==> RecLen(buf, 0) != 0 && InoAt(buf, pos) != 0 && OnChain(buf, 0, pos) && RecordOk(buf, pos)
                      && Entry(buf, pos) == [Binding(name, InoAt(buf, pos))]
    ensures found ==> (prev == -1 && pos == 0)
                      || (0 <= prev < BLKSZ && OnChain(buf, 0, prev) && RecordOk(buf, prev)
                         && pos == prev + RecLen(buf, prev))
  {
    hide Needed; hide U16At; hide U32At; hide Live; hide Before; hide Lookup; hide OnChain;
    found, pos, prev := false, 0, -1;
    EmptySearch(buf, name);
    while pos + HEADER <= BLKSZ
      invariant !found && pos <= BLKSZ
      invariant RecLen(buf, 0) == 0 ==> pos == 0
      invariant RecLen(buf, 0) != 0 ==>
                OnChain(buf, 0, pos) && Tiled(buf, pos) && Lookup(Before(buf, 0, pos), name) == 0
      invariant (prev == -1 && pos == 0)
                || (0 <= prev < BLKSZ && OnChain(buf, 0, prev) && RecordOk(buf, prev)
                   && pos == prev + RecLen(buf, prev))
      decreases BLKSZ - pos
    {
      if RecLen(buf, pos) == 0 {
        break;
      }
      if InoAt(buf, pos) != 0 && NameLen(buf, pos) == |name| && NameAt(buf, pos) == name {
        found := true;
        FoundHere(buf, pos, name);
        return;
      }
      PassedBy(buf, pos, name);
      prev := pos;
      pos := pos + RecLen(buf, pos);
    }
    if RecLen(buf, 0) != 0 {
      SearchedAll(buf, name);
    }
  }

  lemma EmptySearch(b: Block, name: seq<u8>)
    ensures OnChain(b, 0, 0) && Lookup(Before(b, 0, 0), name) == 0 && Lookup([], name) == 0
  {
  }

  /** The record loop of ext2_dir_add_entry: the first record with enough slack. */
  method FindSlack(buf: Block, needed: nat) returns (found: bool, pos: nat)
    requires BlockOk(buf) && 0 < needed
    ensures found <==> HasRoom(buf, needed)
    ensures found ==>
            && OnChain(buf, 0, pos) && pos < BLKSZ && RecordOk(buf, pos)
            && Needed(NameLen(buf, pos)) + needed <= RecLen(buf, pos)
  {
    hide Needed; hide U16At; hide OnChain;
    found, pos := false, 0;
    ChainStart(buf);
    while pos + HEADER <= BLKSZ
      invariant !found && pos <= BLKSZ
      invariant RecLen(buf, 0) == 0 ==> pos == 0
      invariant RecLen(buf, 0) != 0 ==>
                OnChain(buf, 0, pos) && Tiled(buf, pos) && Room(buf, 0, needed) == Room(buf, pos, needed)
      decreases BLKSZ - pos
    {
      if RecLen(buf, pos) == 0 {
        break;
      }
      var actual := Needed(NameLen(buf, pos));
      var slack := RecLen(buf, pos) - actual;
      if slack >= needed {
        return true, pos;
      }
      ChainExtend(buf, 0, pos);
      pos := pos + RecLen(buf, pos);
    }
  }

  lemma ChainStart(b: Block)
    ensures OnChain(b, 0, 0)
  {
  }

  /** The in-memory inode of a well-formed directory. */
  ghost predicate IsDir(fs: Ext2, dir: Inode)
    reads fs.sbi.cache, dir
  {
    DirOk(fs.sbi.cache.L, dir.iBlock, dir.size) && dir.size <= MAX_DIR
  }

  /** Where a name leads in a directory. */
  ghost function Leading(fs: Ext2, dir: Inode, name: seq<u8>): nat
    requires IsDir(fs, dir)
    reads fs.sbi.cache, dir
  {
    DirLookup(fs.sbi.cache.L, dir.iBlock, dir.size, name)
  }

  /** The blocks of a directory. */
  ghost function Content(fs: Ext2, dir: Inode): (bs: seq<Block>)
    requires dir.size <= MAX_DIR
    reads fs.sbi.cache, dir
  {
    FirstBlocks(fs.sbi.cache.L, dir.iBlock, NBlocks(dir.size))
  }

  /** The search of ext2_lookup over the blocks of the directory: the inode number the name leads to, 0 for none. */
  method FindEntry(fs: Ext2, dir: Inode, name: seq<u8>) returns (ino: u32)
    requires fs.Valid() && fs.Open(dir) && IsDir(fs, dir) && |fs.sbi.cache.pins| < NBLKNUM
    requires 0 < |name| < 256
    modifies fs.sbi.cache`pins, fs.sbi.cache.slots, fs.sbi.cache.disk`sectors
    ensures fs.Valid() && fs.sbi.cache.L == old(fs.sbi.cache.L) && fs.sbi.cache.pins == old(fs.sbi.cache.pins)
    ensures forall i, x :: old(fs.sbi.cache.Pinned(i, x)) ==> fs.sbi.cache.Pinned(i, x)
    ensures fs.sbi.FreeSet(Blocks) == old(fs.sbi.FreeSet(Blocks))
            && fs.sbi.FreeSet(Inodes) == old(fs.sbi.FreeSet(Inodes))
    ensures ino == Leading(fs, dir, name)
  {
    hide SbInfo.Valid; hide SbInfo.FreeSet; hide SbInfo.InUse; hide Trees; hide InodesOk; hide BlockOk;
    hide Bindings; hide All; hide Lookup; hide NoDup; hide FileBlock; hide Entry; hide U32At;
    ghost var bs := Content(fs, dir);
    var nblocks := (dir.size + BLKSZ - 1) / BLKSZ;
    SearchStart(name);
    assert bs[..0] == [];
    for lbk := 0 to nblocks
      invariant fs.Valid() && fs.sbi.cache.L == old(fs.sbi.cache.L) && fs.sbi.cache.pins == old(fs.sbi.cache.pins)
      invariant forall i, x :: old(fs.sbi.cache.Pinned(i, x)) ==> fs.sbi.cache.Pinned(i, x)
      invariant fs.sbi.FreeSet(Blocks) == old(fs.sbi.FreeSet(Blocks))
                && fs.sbi.FreeSet(Inodes) == old(fs.sbi.FreeSet(Inodes))
      invariant BlocksOk(bs[..lbk]) && Lookup(All(bs[..lbk]), name) == 0
    {
      var ok, buf := fs.ReadBlock(dir, lbk);
      if ok {
        var found, pos, _ := SearchBlock(buf, name);
        LookupStep(bs, lbk, name);
        if found {
          LookupPrefix(bs, lbk + 1, name);
          return InoAt(buf, pos);
        }
      }
    }
    assert bs[..nblocks] == bs;
    return 0;
  }

  lemma SearchStart(name: seq<u8>)
    ensures BlocksOk([]) && Lookup(All([]), name) == 0
  {
  }

  // Edits

  /** Every file but f reads as before. */
  ghost predicate OthersSame(L: seq<Block>, files: map<nat, Ptrs>, L': seq<Block>, files': map<nat, Ptrs>, f: nat) {
    files'.Keys == files.Keys &&
    forall g, k :: g in files && g != f && 0 <= k < MAX_LBK ==> FileBlock(L', files'[g], k) == FileBlock(L, files[g], k)
  }

  /** A directory with one of its blocks rewritten. */
  lemma RewrittenBlocks(L: seq<Block>, files: map<nat, Ptrs>, L': seq<Block>, files': map<nat, Ptrs>, f: nat, k: nat,
      buf: Block, n: nat)
    requires OneBlockWritten(L, files, L', files', f, k, buf) && f in files && k < n <= MAX_LBK
    ensures FirstBlocks(L', files'[f], n) == FirstBlocks(L, files[f], n)[k := buf]
    ensures OthersSame(L, files, L', files', f)
  {
    hide FileBlock; hide FirstBlocks;
  }

  /** A directory with one more block. */
  lemma AppendedBlocks(L: seq<Block>, files: map<nat, Ptrs>, L': seq<Block>, files': map<nat, Ptrs>, f: nat, buf: Block,
      n: nat)
    requires OneBlockWritten(L, files, L', files', f, n, buf) && f in files && n < MAX_LBK
    ensures FirstBlocks(L', files'[f], n + 1) == FirstBlocks(L, files[f], n) + [buf]
    ensures OthersSame(L, files, L', files', f)
  {
    hide FileBlock; hide FirstBlocks;
  }

  lemma UntouchedBlocks(L: seq<Block>, files: map<nat, Ptrs>, L': seq<Block>, files': map<nat, Ptrs>, f: nat, n: nat)
    requires SameViews(L, files, L', files') && f in files && n <= MAX_LBK
    ensures FirstBlocks(L', files'[f], n) == FirstBlocks(L, files[f], n)
    ensures forall g :: OthersSame(L, files, L', files', g)
  {
    hide FileBlock; hide FirstBlocks;
  }

  lemma OthersAfter(L0: seq<Block>, files0: map<nat, Ptrs>, L1: seq<Block>, files1: map<nat, Ptrs>, L2: seq<Block>,
      files2: map<nat, Ptrs>, f: nat)
    requires OthersSame(L0, files0, L1, files1, f) && SameViews(L1, files1, L2, files2)
    ensures OthersSame(L0, files0, L2, files2, f)
  {
    hide FileBlock;
    forall g, k | g in files0 && g != f && 0 <= k < MAX_LBK
      ensures FileBlock(L2, files2[g], k) == FileBlock(L0, files0[g], k)
    {
      assert FileBlock(L1, files1[g], k) == FileBlock(L0, files0[g], k);
    }
  }

  /** A block with records is no hole. */
  lemma RecordsNoHole(b: Block)
    requires RecLen(b, 0) != 0
    ensures b != Zeros(BLKSZ)
  {
    ZeroField(Zeros(BLKSZ), 4, 2);
  }

  /** The slack edit on the entries of the whole directory. */
  lemma InsertedAt(bs: seq<Block>, k: nat, pos: nat, ino: u32, fileType: u8, name: seq<u8>)
    requires BlocksOk(bs) && NoDup(All(bs)) && k < |bs| && 0 < |name| < 256 && ino != 0 && Lookup(All(bs), name) == 0
    requires RecLen(bs[k], 0) != 0 && OnChain(bs[k], 0, pos) && pos < BLKSZ && RecordOk(bs[k], pos)
    requires Needed(NameLen(bs[k], pos)) + Needed(|name|) <= RecLen(bs[k], pos)
    ensures var c := SplitInsert(bs[k], pos, ino, fileType, name);
            && BlocksOk(bs[k := c]) && NoDup(All(bs[k := c]))
            && forall n :: Lookup(All(bs[k := c]), n) == if n == name then ino else Lookup(All(bs), n)
  {
    hide All; hide Lookup; hide NoDup; hide Live; hide Tiled; hide OnChain; hide Before; hide Entry; hide Needed;
    hide U16At; hide SplitInsert;
    var b, c := bs[k], SplitInsert(bs[k], pos, ino, fileType, name);
    SplitInsertLive(b, pos, ino, fileType, name);
    SplitInsertRecords(b, pos, ino, fileType, name);
    var front, back := Before(b, 0, pos) + Entry(b, pos), Live(b, pos + RecLen(b, pos));
    AddInBlock(bs, k, c, front, back, Binding(name, ino));
  }

  /** The edited block still starts with a record. */
  lemma SplitInsertRecords(b: Block, pos: nat, ino: u32, fileType: u8, name: seq<u8>)
    requires RecordOk(b, pos) && |name| < 256 && Needed(NameLen(b, pos)) + Needed(|name|) <= RecLen(b, pos)
    requires Tiled(SplitInsert(b, pos, ino, fileType, name), 0)
    ensures RecLen(SplitInsert(b, pos, ino, fileType, name), 0) != 0
  {
    hide U16At;
  }

  /** The slack case of ext2_dir_add_entry, once the record at pos of block lbk was found to have room. */
  method InsertAt(fs: Ext2, dir: Inode, lbk: nat, buf: Block, pos: nat, name: seq<u8>, ino: u32, fileType: u8)
      returns (ok: bool)
    requires fs.Valid() && fs.Open(dir) && IsDir(fs, dir) && |fs.sbi.cache.pins| + 1 < NBLKNUM
    requires 0 < |name| < 256 && ino != 0 && Leading(fs, dir, name) == 0
    requires lbk < NBlocks(dir.size) && buf == FileBlock(fs.sbi.cache.L, dir.iBlock, lbk)
    requires RecLen(buf, 0) != 0 && OnChain(buf, 0, pos) && pos < BLKSZ && RecordOk(buf, pos)
    requires Needed(NameLen(buf, pos)) + Needed(|name|) <= RecLen(buf, pos)
    modifies fs, dir`iBlock, dir`dirty, fs.sbi.cache, fs.sbi.cache.slots, fs.sbi.cache.disk`sectors, fs.sbi.gb
    ensures fs.Valid() && fs.Open(dir) && fs.sbi.cache.pins == old(fs.sbi.cache.pins) && ok
    ensures forall i, x :: old(fs.sbi.cache.Pinned(i, x)) ==> fs.sbi.cache.Pinned(i, x)
    ensures TablesSame(old(fs.sbi.cache.L), fs.sbi.cache.L, fs.sbi.role)
            && fs.sbi.FreeSet(Inodes) == old(fs.sbi.FreeSet(Inodes))
    ensures IsDir(fs, dir) && forall n :: Leading(fs, dir, n) == if n == name then ino else old(Leading(fs, dir, n))
    ensures fs.files == old(fs.files)[dir.ino := dir.iBlock]
    ensures OthersSame(old(fs.sbi.cache.L), old(fs.files), fs.sbi.cache.L, fs.files, dir.ino)
    ensures old(dir.iBlock) != dir.iBlock ==> dir.dirty
    ensures old(dir.dirty) ==> dir.dirty
  {
    hide SbInfo.Valid; hide SbInfo.FreeSet; hide SbInfo.InUse; hide Trees; hide InodesOk; hide BlockOk; hide All;
    hide Lookup; hide NoDup; hide FileBlock;
    hide SplitInsert; hide OnChain; hide U16At; hide Needed; hide OneBlockWritten; hide SameViews; hide OthersSame;
    hide BlocksOk;
    ghost var L, files, n := fs.sbi.cache.L, fs.files, NBlocks(dir.size);
    ghost var bs := Content(fs, dir);
    InsertedAt(bs, lbk, pos, ino, fileType, name);
    var buf' := SplitInsert(buf, pos, ino, fileType, name);
    RecordsNoHole(buf);
    ok := fs.WriteBlock(dir, lbk, buf');
    RewrittenBlocks(L, files, fs.sbi.cache.L, fs.files, dir.ino, lbk, buf', n);
  }

  /** The last case of ext2_dir_add_entry: a new block with one record, and the directory one block longer. */
  method AppendBlock(fs: Ext2, dir: Inode, name: seq<u8>, ino: u32, fileType: u8) returns (ok: bool)
    requires fs.Valid() && fs.Open(dir) && IsDir(fs, dir) && dir.valid && |fs.sbi.cache.pins| + 1 < NBLKNUM
    requires 0 < |name| < 256 && ino != 0 && Leading(fs, dir, name) == 0 && dir.size + BLKSZ <= MAX_DIR
    modifies fs, dir`iBlock, dir`dirty, dir`size, fs.sbi.cache, fs.sbi.cache.slots, fs.sbi.cache.disk`sectors, fs.sbi.gb
    ensures fs.Valid() && fs.Open(dir) && fs.sbi.cache.pins == old(fs.sbi.cache.pins)
    ensures forall i, x :: old(fs.sbi.cache.Pinned(i, x)) ==> fs.sbi.cache.Pinned(i, x)
    ensures fs.sbi.FreeSet(Inodes) == old(fs.sbi.FreeSet(Inodes))
    ensures IsDir(fs, dir) && forall n ::
            Leading(fs, dir, n) == if ok && n == name then ino else old(Leading(fs, dir, n))
    ensures !ok ==> fs.sbi.FreeSet(Blocks) == {}
    ensures dir.size == old(dir.size) + if ok then BLKSZ else 0
    ensures fs.files == old(fs.files)[dir.ino := dir.iBlock]
    ensures OthersSame(old(fs.sbi.cache.L), old(fs.files), fs.sbi.cache.L, fs.files, dir.ino)
    ensures ok ==> !dir.dirty
    ensures old(!dir.dirty ==> fs.Synced(dir)) ==> !dir.dirty ==> fs.Synced(dir)
    ensures forall j :: ValidIno(fs.sbi.geo, j) && j != dir.ino ==> fs.Image(j) == old(fs.Image(j))
  {
    hide SbInfo.Valid; hide SbInfo.FreeSet; hide SbInfo.InUse; hide Trees; hide BlockOk; hide Bindings; hide All;
    hide Lookup; hide NoDup; hide FileBlock;
    hide Splice; hide RecordBytes; hide OneBlockWritten; hide SameViews; hide OthersSame; hide BlocksOk;
    hide TablesOk; hide Decode; hide ImageAt; hide GeometryOk; hide FirstBlocks;
    ghost var L, files, n := fs.sbi.cache.L, fs.files, NBlocks(dir.size);
    ghost var bs := Content(fs, dir);
    fs.sbi.TableFacts();
    var buf := Splice(Zeros(BLKSZ), 0, RecordBytes(ino, BLKSZ, fileType, name));
    NewBlock(bs, ino, fileType, name, buf);
    var lbk := NBlocks(dir.size);
    ok := fs.WriteBlock(dir, lbk, buf);
    ghost var L1, files1 := fs.sbi.cache.L, fs.files;
    fs.sbi.TableFacts();
    ImagesSame(L, L1, fs.sbi.geo, fs.sbi.role, fs.sbi.tables);
    if !ok {
      UntouchedBlocks(L, files, L1, files1, dir.ino, n);
      return;
    }
    AppendedBlocks(L, files, L1, files1, dir.ino, buf, n);
    Lengthen(fs, dir);
    OthersAfter(L, files, L1, files1, fs.sbi.cache.L, fs.files, dir.ino);
    UntouchedBlocks(L1, files1, fs.sbi.cache.L, fs.files, dir.ino, n + 1);
  }

  /** The directory is one block longer, and its inode goes to disk. */
  method Lengthen(fs: Ext2, dir: Inode)
    requires fs.Valid() && fs.Open(dir) && dir.valid && |fs.sbi.cache.pins| < NBLKNUM && dir.size + BLKSZ <= MAX_DIR
    modifies dir`dirty, dir`size, fs.sbi.cache, fs.sbi.cache.slots, fs.sbi.cache.disk`sectors
    ensures fs.Valid() && fs.sbi.cache.pins == old(fs.sbi.cache.pins)
    ensures forall i, x :: old(fs.sbi.cache.Pinned(i, x)) ==> fs.sbi.cache.Pinned(i, x)
    ensures fs.sbi.FreeSet(Blocks) == old(fs.sbi.FreeSet(Blocks))
            && fs.sbi.FreeSet(Inodes) == old(fs.sbi.FreeSet(Inodes))
    ensures dir.size == old(dir.size) + BLKSZ && !dir.dirty && fs.Synced(dir)
    ensures forall j :: ValidIno(fs.sbi.geo, j) && j != dir.ino ==> fs.Image(j) == old(fs.Image(j))
    ensures SameViews(old(fs.sbi.cache.L), fs.files, fs.sbi.cache.L, fs.files)
  {
    hide SbInfo.Valid; hide SbInfo.FreeSet; hide SbInfo.InUse; hide Trees; hide SameViews; hide InoBlock;
    hide InoOffset;
    dir.size := dir.size + BLKSZ;
    dir.dirty := true;
    var _ := fs.WriteInode(dir);
  }

  lemma NewBlock(bs: seq<Block>, ino: u32, fileType: u8, name: seq<u8>, buf: Block)
    requires BlocksOk(bs) && NoDup(All(bs)) && 0 < |name| < 256 && ino != 0 && Lookup(All(bs), name) == 0
    requires buf == Splice(Zeros(BLKSZ), 0, RecordBytes(ino, BLKSZ, fileType, name))
    ensures BlocksOk(bs + [buf]) && NoDup(All(bs + [buf]))
    ensures forall n :: Lookup(All(bs + [buf]), n) == if n == name then ino else Lookup(All(bs), n)
  {
    hide All; hide Lookup; hide NoDup; hide Splice; hide RecordBytes; hide Live; hide Tiled;
    FreshBlockLive(ino, fileType, name);
    AddNewBlock(bs, buf, Binding(name, ino));
  }

  /** ext2_dir_add_entry, for a name that is not there: the first record with room gives up its slack, and only
      when no block has room the directory grows.  The name then leads to ino and every other name where it led;
      failure means the disk is full, and no name leads elsewhere. */
  method AddEntry(fs: Ext2, dir: Inode, name: seq<u8>, ino: u32, fileType: u8) returns (ok: bool)
    requires fs.Valid() && fs.Open(dir) && IsDir(fs, dir) && dir.valid && |fs.sbi.cache.pins| + 1 < NBLKNUM
    requires 0 < |name| < 256 && ino != 0 && Leading(fs, dir, name) == 0 && dir.size + BLKSZ <= MAX_DIR
    modifies fs, dir`iBlock, dir`dirty, dir`size, fs.sbi.cache, fs.sbi.cache.slots, fs.sbi.cache.disk`sectors, fs.sbi.gb
    ensures fs.Valid() && fs.Open(dir) && fs.sbi.cache.pins == old(fs.sbi.cache.pins)
    ensures forall i, x :: old(fs.sbi.cache.Pinned(i, x)) ==> fs.sbi.cache.Pinned(i, x)
    ensures fs.sbi.FreeSet(Inodes) == old(fs.sbi.FreeSet(Inodes))
    ensures IsDir(fs, dir) && forall n ::
            Leading(fs, dir, n) == if ok && n == name then ino else old(Leading(fs, dir, n))
    ensures !ok ==> fs.sbi.FreeSet(Blocks) == {}
    ensures dir.size == old(dir.size) + if ok && !RoomIn(old(Content(fs, dir)), Needed(|name|)) then BLKSZ else 0
    ensures fs.files == old(fs.files)[dir.ino := dir.iBlock]
    ensures OthersSame(old(fs.sbi.cache.L), old(fs.files), fs.sbi.cache.L, fs.files, dir.ino)
    ensures old(!dir.dirty ==> fs.Synced(dir)) ==> !dir.dirty ==> fs.Synced(dir)
    ensures forall j :: ValidIno(fs.sbi.geo, j) && j != dir.ino ==> fs.Image(j) == old(fs.Image(j))
  {
    hide SbInfo.Valid; hide SbInfo.FreeSet; hide SbInfo.InUse; hide Trees; hide BlockOk; hide All; hide Lookup;
    hide NoDup; hide FileBlock;
    hide OneBlockWritten; hide SameViews; hide OthersSame; hide BlocksOk; hide TablesOk; hide Decode; hide ImageAt;
    hide GeometryOk;
    hide OnChain; hide U16At; hide Needed; hide DirLookup; hide DirOk; hide HasRoom; hide FirstBlocks; hide Room;
    var needed := Needed(|name|);
    var nblocks := (dir.size + BLKSZ - 1) / BLKSZ;
    ghost var bs, L := Content(fs, dir), fs.sbi.cache.L;
    DirBlocksOk(L, dir.iBlock, dir.size);
    fs.sbi.TableFacts();
    for lbk := 0 to nblocks
      invariant unchanged(dir) && unchanged(fs)
      invariant fs.Valid() && fs.sbi.cache.L == L && fs.sbi.cache.pins == old(fs.sbi.cache.pins)
      invariant forall i, x :: old(fs.sbi.cache.Pinned(i, x)) ==> fs.sbi.cache.Pinned(i, x)
      invariant fs.sbi.FreeSet(Inodes) == old(fs.sbi.FreeSet(Inodes))
      invariant forall k :: 0 <= k < lbk ==> !HasRoom(bs[k], needed)
    {
      var got, buf := fs.ReadBlock(dir, lbk);
      if got {
        var found, pos := FindSlack(buf, needed);
        if found {
          RoomHere(buf, needed);
          ok := InsertAt(fs, dir, lbk, buf, pos, name, ino, fileType);
          fs.sbi.TableFacts();
          ImagesSame(L, fs.sbi.cache.L, fs.sbi.geo, fs.sbi.role, fs.sbi.tables);
          return;
        }
      }
    }
    ok := AppendBlock(fs, dir, name, ino, fileType);
  }

  /** Some block of the directory has space for a record of this size. */
  ghost predicate RoomIn(bs: seq<Block>, needed: nat) {
    exists k :: 0 <= k < |bs| && HasRoom(bs[k], needed)
  }

  lemma RoomHere(b: Block, needed: nat)
    requires HasRoom(b, needed)
    ensures RecLen(b, 0) != 0
  {
  }

  lemma DirBlocksOk(L: seq<Block>, ib: Ptrs, size: u32)
    requires DirOk(L, ib, size)
    ensures forall k :: 0 <= k < NBlocks(size) ==> BlockOk(FileBlock(L, ib, k))
  {
    hide BlockOk; hide FileBlock; hide NoDup;
    var bs := FirstBlocks(L, ib, NBlocks(size));
    assert forall k :: 0 <= k < NBlocks(size) ==> BlockOk(bs[k]);
  }

  /** The edit ext2_unlink makes to a block: merge the record at pos into the one before it, or clear its inode
      number when it is the first. */
  function Unlinked(b: Block, prev: int, pos: nat): Block
    requires pos + HEADER <= BLKSZ && -1 <= prev && prev + HEADER <= BLKSZ
    requires prev >= 0 ==> RecLen(b, prev) + RecLen(b, pos) < 0x1_0000
  {
    if prev >= 0 then PutU16(b, prev + 4, RecLen(b, prev) + RecLen(b, pos)) else PutU32(b, pos, 0)
  }

  /** The unlink edit on the entries of the whole directory: exactly that entry goes. */
  lemma RemovedAt(bs: seq<Block>, k: nat, prev: int, pos: nat, name: seq<u8>)
    requires BlocksOk(bs) && NoDup(All(bs)) && k < |bs|
    requires RecLen(bs[k], 0) != 0 && OnChain(bs[k], 0, pos) && RecordOk(bs[k], pos) && InoAt(bs[k], pos) != 0
    requires Entry(bs[k], pos) == [Binding(name, InoAt(bs[k], pos))]
    requires (prev == -1 && pos == 0)
             || (0 <= prev < BLKSZ && OnChain(bs[k], 0, prev) && RecordOk(bs[k], prev)
                && pos == prev + RecLen(bs[k], prev))
    ensures prev >= 0 ==> RecLen(bs[k], prev) + RecLen(bs[k], pos) < 0x1_0000
    ensures var c := Unlinked(bs[k], prev, pos);
            && BlocksOk(bs[k := c]) && NoDup(All(bs[k := c])) && Lookup(All(bs), name) == InoAt(bs[k], pos)
            && forall n :: Lookup(All(bs[k := c]), n) == if n == name then 0 else Lookup(All(bs), n)
  {
    hide All; hide Lookup; hide NoDup; hide Live; hide Tiled; hide OnChain; hide Before; hide Entry; hide Needed;
    hide U16At; hide PutU16; hide PutU32;
    var b := bs[k];
    var x := Binding(name, InoAt(b, pos));
    UnlinkedLive(b, prev, pos);
    RemoveInBlock(bs, k, Unlinked(b, prev, pos), Before(b, 0, pos), Live(b, pos + RecLen(b, pos)), x);
  }

  lemma UnlinkedLive(b: Block, prev: int, pos: nat)
    requires Tiled(b, 0) && RecLen(b, 0) != 0 && OnChain(b, 0, pos) && RecordOk(b, pos)
    requires (prev == -1 && pos == 0)
             || (0 <= prev < BLKSZ && OnChain(b, 0, prev) && RecordOk(b, prev) && pos == prev + RecLen(b, prev))
    ensures prev >= 0 ==> RecLen(b, prev) + RecLen(b, pos) < 0x1_0000
    ensures RecLen(Unlinked(b, prev, pos), 0) != 0
    ensures RecordGone(b, Unlinked(b, prev, pos), pos, pos + RecLen(b, pos))
  {
    hide RecordGone; hide Live; hide Entry; hide Needed; hide U16At; hide PutU16; hide PutU32; hide OnChain;
    if prev >= 0 {
      MergeLive(b, prev, pos);
      KeptLength(b, Unlinked(b, prev, pos), pos, pos + RecLen(b, pos));
    } else {
      ZeroFirstLive(b);
    }
  }

  /** A tiled block is no hole. */
  lemma KeptLength(b: Block, c: Block, pos: nat, next: nat)
    requires RecordGone(b, c, pos, next)
    ensures RecLen(c, 0) != 0
  {
    hide Live; hide Entry; hide U16At; hide OnChain; hide Before;
  }

  /** The directory half of ext2_unlink: the inode number the name led to, 0 when there is no such name.  Exactly
      that name is gone; no other file changes. */
  method RemoveEntry(fs: Ext2, dir: Inode, name: seq<u8>) returns (ino: u32)
    requires fs.Valid() && fs.Open(dir) && IsDir(fs, dir) && |fs.sbi.cache.pins| + 1 < NBLKNUM
    requires 0 < |name| < 256
    modifies fs, dir`iBlock, dir`dirty, fs.sbi.cache, fs.sbi.cache.slots, fs.sbi.cache.disk`sectors, fs.sbi.gb
    ensures fs.Valid() && fs.Open(dir) && fs.sbi.cache.pins == old(fs.sbi.cache.pins)
    ensures forall i, x :: old(fs.sbi.cache.Pinned(i, x)) ==> fs.sbi.cache.Pinned(i, x)
    ensures fs.sbi.FreeSet(Inodes) == old(fs.sbi.FreeSet(Inodes))
    ensures ino == old(Leading(fs, dir, name))
    ensures IsDir(fs, dir) && forall n :: Leading(fs, dir, n) == if n == name then 0 else old(Leading(fs, dir, n))
    ensures fs.files == old(fs.files)[dir.ino := dir.iBlock]
    ensures OthersSame(old(fs.sbi.cache.L), old(fs.files), fs.sbi.cache.L, fs.files, dir.ino)
    ensures ValidIno(fs.sbi.geo, dir.ino) && (old(!dir.dirty ==> fs.Synced(dir)) ==> !dir.dirty ==> fs.Synced(dir))
    ensures forall j :: ValidIno(fs.sbi.geo, j) && j != dir.ino ==> fs.Image(j) == old(fs.Image(j))
  {
    hide SbInfo.Valid; hide SbInfo.FreeSet; hide SbInfo.InUse; hide Trees; hide TablesOk; hide Decode; hide ImageAt;
    hide GeometryOk; hide Truncated; hide BlockOk; hide Bindings; hide All; hide Lookup; hide NoDup; hide FileBlock;
    hide Entry; hide U32At;
    hide OneBlockWritten; hide SameViews; hide OthersSame; hide OnChain; hide U16At; hide Needed; hide Unlinked;
    hide FirstBlocks; hide RecordOk; hide Through; hide BlockOrHole;
    ghost var L, files, bs := fs.sbi.cache.L, fs.files, Content(fs, dir);
    fs.sbi.TableFacts();
    var nblocks := (dir.size + BLKSZ - 1) / BLKSZ;
    SearchStart(name);
    assert bs[..0] == [];
    for lbk := 0 to nblocks
      invariant unchanged(dir) && unchanged(fs)
      invariant fs.Valid() && fs.sbi.cache.L == L && fs.sbi.cache.pins == old(fs.sbi.cache.pins)
      invariant forall i, x :: old(fs.sbi.cache.Pinned(i, x)) ==> fs.sbi.cache.Pinned(i, x)
      invariant fs.sbi.FreeSet(Inodes) == old(fs.sbi.FreeSet(Inodes))
      invariant BlocksOk(bs[..lbk]) && Lookup(All(bs[..lbk]), name) == 0
    {
      var ok, buf := fs.ReadBlock(dir, lbk);
      if ok {
        var found, pos, prev := SearchBlock(buf, name);
        if found {
          ino := InoAt(buf, pos);
          RemovedAt(bs, lbk, prev, pos, name);
          RecordsNoHole(buf);
          var buf' := Unlinked(buf, prev, pos);
          ok := fs.WriteBlock(dir, lbk, buf');
          RewrittenBlocks(L, files, fs.sbi.cache.L, fs.files, dir.ino, lbk, buf', nblocks);
          fs.sbi.TableFacts();
          ImagesSame(L, fs.sbi.cache.L, fs.sbi.geo, fs.sbi.role, fs.sbi.tables);
          return;
        }
        LookupStep(bs, lbk, name);
      }
    }
    assert bs[..nblocks] == bs;
    ino := 0;
    ViewsSelf(L, files);
    UntouchedBlocks(L, files, L, files, dir.ino, nblocks);
  }
}
