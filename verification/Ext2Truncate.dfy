/** Releasing a file's blocks: ext2_free_branch and ext2_truncate_inode of fs/ext2/inode.c. */
module Ext2Truncate {
  import opened Bytes
  import opened BlkCache
  import opened Layout
  import opened AllocLemmas
  import opened Balloc
  import opened FileTree
  import opened FileView
  import opened Branches
  import opened InodeImage
  import opened Ext2File

  /** The trees as they were when the truncation began: frees touch no data block, so all pointers still read
      the same; freed holds what has been given back so far. */
  ghost predicate Freeing(L: seq<Block>, inUse: set<nat>, role: nat -> Role, L0: seq<Block>, files: map<nat, Ptrs>,
      inUse0: set<nat>, freed: set<nat>) {
    && Trees(L0, files, inUse0) && |L| == |L0| && freed <= inUse0
    && (forall b :: b in inUse0 ==> 0 < b < |L0| && L[b] == L0[b] && role(b) == Data)
    && inUse == inUse0 - freed
  }

  lemma FreeingTrees(L: seq<Block>, inUse: set<nat>, role: nat -> Role, L0: seq<Block>, files: map<nat, Ptrs>,
      inUse0: set<nat>, freed: set<nat>)
    requires Freeing(L, inUse, role, L0, files, inUse0, freed)
    ensures Trees(L0, files, inUse0)
  {
  }

  lemma FreeingAt(L: seq<Block>, inUse: set<nat>, role: nat -> Role, L0: seq<Block>, files: map<nat, Ptrs>,
      inUse0: set<nat>, freed: set<nat>, b: nat)
    requires Freeing(L, inUse, role, L0, files, inUse0, freed) && b in inUse0
    ensures 0 < b < |L| == |L0| && L[b] == L0[b] && Trees(L0, files, inUse0) && role(b) == Data
  {
  }

  /** One block of a file goes back to the allocator. */
  method FreeOne(sbi: SbInfo, b: nat, ghost L0: seq<Block>, ghost files: map<nat, Ptrs>, ghost inUse0: set<nat>,
      ghost freed: set<nat>)
    requires sbi.Valid() && |sbi.cache.pins| < NBLKNUM
    requires Freeing(sbi.cache.L, sbi.InUse(), sbi.role, L0, files, inUse0, freed) && b in inUse0 && b !in freed
    modifies sbi.cache, sbi.cache.slots, sbi.cache.disk`sectors, sbi.gb
    ensures sbi.Valid() && sbi.cache.pins == old(sbi.cache.pins)
    ensures forall i, x :: old(sbi.cache.Pinned(i, x)) ==> sbi.cache.Pinned(i, x)
    ensures TablesSame(old(sbi.cache.L), sbi.cache.L, sbi.role) && sbi.FreeSet(Inodes) == old(sbi.FreeSet(Inodes))
    ensures Freeing(sbi.cache.L, sbi.InUse(), sbi.role, L0, files, inUse0, freed + {b})
    ensures |sbi.FreeSet(Blocks)| == |old(sbi.FreeSet(Blocks))| + 1
  {
    hide Trees; hide AllocInv; hide BlockCache.Valid; hide TablesOk; hide TableSeq; hide FreeItems;
    sbi.UsedIsNotFree(b);
    sbi.FreeBlock(b);
  }

  /** ext2_free_branch: frees exactly the blocks at and below block blk, each once, depth first; the index block
      stays pinned and unchanged while its children are freed. */
  method FreeBranch(sbi: SbInfo, blk: nat, level: nat, ghost f: nat, ghost P: seq<nat>,
                    ghost L0: seq<Block>, ghost files: map<nat, Ptrs>, ghost inUse0: set<nat>, ghost freed: set<nat>)
    requires sbi.Valid() && |sbi.cache.pins| + level < NBLKNUM
    requires Freeing(sbi.cache.L, sbi.InUse(), sbi.role, L0, files, inUse0, freed)
    requires f in files && ValidPath(P) && level == 1 + Level(P[0]) - |P| && blk == Node(L0, files[f], P)
    requires Branch(L0, files[f], P) !! freed
    modifies sbi.cache, sbi.cache.slots, sbi.cache.disk`sectors, sbi.gb
    ensures sbi.Valid() && sbi.cache.pins == old(sbi.cache.pins)
    ensures forall i, x :: old(sbi.cache.Pinned(i, x)) ==> sbi.cache.Pinned(i, x)
    ensures TablesSame(old(sbi.cache.L), sbi.cache.L, sbi.role) && sbi.FreeSet(Inodes) == old(sbi.FreeSet(Inodes))
    ensures Freeing(sbi.cache.L, sbi.InUse(), sbi.role, L0, files, inUse0, freed + Branch(L0, files[f], P))
    ensures |sbi.FreeSet(Blocks)| == |old(sbi.FreeSet(Blocks))| + |Branch(L0, files[f], P)|
    decreases level, 1
  {
    hide SbInfo.Valid; hide SbInfo.FreeSet; hide SbInfo.InUse; hide Node; hide Freeing; hide Kids; hide Branch;
    hide Trees;
    FreeingTrees(sbi.cache.L, sbi.InUse(), sbi.role, L0, files, inUse0, freed);
    if blk == 0 {
      NullBranch(L0, files[f], P);
      assert freed + {} == freed;
      return;
    }
    BranchParts(L0, files, inUse0, f, P, freed);
    ghost var kids := {};
    assert freed + kids == freed;
    if level > 0 {
      kids := FreeKids(sbi, blk, level, f, P, L0, files, inUse0, freed);
    }
    FreeOne(sbi, blk, L0, files, inUse0, freed + kids);
  }

  /** The loop of ext2_free_branch over the entries of an index block. */
  method FreeKids(sbi: SbInfo, blk: nat, level: nat, ghost f: nat, ghost P: seq<nat>,
                  ghost L0: seq<Block>, ghost files: map<nat, Ptrs>, ghost inUse0: set<nat>, ghost freed: set<nat>)
    returns (ghost kids: set<nat>)
    requires sbi.Valid() && |sbi.cache.pins| + level < NBLKNUM
    requires Freeing(sbi.cache.L, sbi.InUse(), sbi.role, L0, files, inUse0, freed)
    requires f in files && ValidPath(P) && level == 1 + Level(P[0]) - |P| > 0 && blk == Node(L0, files[f], P)
             && blk in inUse0
    requires Branch(L0, files[f], P) !! freed
    modifies sbi.cache, sbi.cache.slots, sbi.cache.disk`sectors, sbi.gb
    ensures sbi.Valid() && sbi.cache.pins == old(sbi.cache.pins)
    ensures forall i, x :: old(sbi.cache.Pinned(i, x)) ==> sbi.cache.Pinned(i, x)
    ensures TablesSame(old(sbi.cache.L), sbi.cache.L, sbi.role) && sbi.FreeSet(Inodes) == old(sbi.FreeSet(Inodes))
    ensures kids == Kids(L0, files[f], P, PTRS)
    ensures Freeing(sbi.cache.L, sbi.InUse(), sbi.role, L0, files, inUse0, freed + kids)
    ensures |sbi.FreeSet(Blocks)| == |old(sbi.FreeSet(Blocks))| + |kids|
    decreases level, 0
  {
    hide Trees; hide SbInfo.Valid; hide SbInfo.FreeSet; hide SbInfo.InUse; hide Node; hide Branch; hide Freeing;
    hide Kids;
    FreeingAt(sbi.cache.L, sbi.InUse(), sbi.role, L0, files, inUse0, freed, blk);
    NoKids(L0, files[f], P);
    var c := sbi.Hold(blk);
    kids := {};
    assert freed + kids == freed;
    var i := 0;
    while i < PTRS
      invariant i <= PTRS
      invariant sbi.Valid() && sbi.cache.pins == old(sbi.cache.pins) + multiset{c}
      invariant sbi.cache.Pinned(c, blk)
      invariant forall j, x :: old(sbi.cache.Pinned(j, x)) ==> sbi.cache.Pinned(j, x)
      invariant TablesSame(old(sbi.cache.L), sbi.cache.L, sbi.role) && sbi.FreeSet(Inodes) == old(sbi.FreeSet(Inodes))
      invariant kids == Kids(L0, files[f], P, i)
      invariant Freeing(sbi.cache.L, sbi.InUse(), sbi.role, L0, files, inUse0, freed + kids)
      invariant |sbi.FreeSet(Blocks)| == |old(sbi.FreeSet(Blocks))| + |kids|
    {
      kids := FreeKid(sbi, c, blk, level, i, f, P, L0, files, inUse0, freed);
      i := i + 1;
    }
    sbi.Release(c, blk);
  }

  /** One entry of the index block held in slot c. */
  method FreeKid(sbi: SbInfo, c: nat, blk: nat, level: nat, i: nat, ghost f: nat, ghost P: seq<nat>,
                 ghost L0: seq<Block>, ghost files: map<nat, Ptrs>, ghost inUse0: set<nat>, ghost freed: set<nat>)
    returns (ghost kids: set<nat>)
    requires sbi.Valid() && |sbi.cache.pins| + level - 1 < NBLKNUM && sbi.cache.Pinned(c, blk) && i < PTRS
    requires f in files && ValidPath(P) && level == 1 + Level(P[0]) - |P| > 0 && blk == Node(L0, files[f], P)
             && blk in inUse0
    requires Freeing(sbi.cache.L, sbi.InUse(), sbi.role, L0, files, inUse0, freed + Kids(L0, files[f], P, i))
    requires Branch(L0, files[f], P) !! freed
    modifies sbi.cache, sbi.cache.slots, sbi.cache.disk`sectors, sbi.gb
    ensures sbi.Valid() && sbi.cache.pins == old(sbi.cache.pins)
    ensures forall j, x :: old(sbi.cache.Pinned(j, x)) ==> sbi.cache.Pinned(j, x)
    ensures TablesSame(old(sbi.cache.L), sbi.cache.L, sbi.role) && sbi.FreeSet(Inodes) == old(sbi.FreeSet(Inodes))
    ensures kids == Kids(L0, files[f], P, i + 1)
    ensures Freeing(sbi.cache.L, sbi.InUse(), sbi.role, L0, files, inUse0, freed + kids)
    ensures |sbi.FreeSet(Blocks)| == |old(sbi.FreeSet(Blocks))| + |kids| - |Kids(L0, files[f], P, i)|
    decreases level - 1, 2
  {
    hide Trees; hide SbInfo.Valid; hide SbInfo.FreeSet; hide SbInfo.InUse; hide Node; hide Branch; hide Freeing;
    hide Kids;
    hide PtrAt;
    ghost var before := Kids(L0, files[f], P, i);
    FreeingAt(sbi.cache.L, sbi.InUse(), sbi.role, L0, files, inUse0, freed + before, blk);
    KidStep(L0, files, inUse0, f, P, i, freed);
    ghost var child := Branch(L0, files[f], P + [i]);
    var ptr := PtrAt(sbi.cache.slots[c].data, i);
    if ptr != 0 {
      FreeBranch(sbi, ptr, level - 1, f, P + [i], L0, files, inUse0, freed + before);
    }
    assert freed + before + child == freed + (before + child);
    kids := before + child;
  }

  /** Free what hangs under inode pointer i and null the pointer. */
  method FreeTop(sbi: SbInfo, inode: Inode, i: nat, ghost L0: seq<Block>, ghost files: map<nat, Ptrs>,
      ghost inUse0: set<nat>)
    returns (ghost freed: set<nat>)
    requires sbi.Valid() && |sbi.cache.pins| + 3 < NBLKNUM
    requires i < N_BLOCKS && inode.ino in files && inode.iBlock[i] == files[inode.ino][i]
    requires Freeing(sbi.cache.L, sbi.InUse(), sbi.role, L0, files, inUse0, Tops(L0, files[inode.ino], i))
    modifies inode`iBlock, sbi.cache, sbi.cache.slots, sbi.cache.disk`sectors, sbi.gb
    ensures sbi.Valid() && sbi.cache.pins == old(sbi.cache.pins)
    ensures forall j, x :: old(sbi.cache.Pinned(j, x)) ==> sbi.cache.Pinned(j, x)
    ensures TablesSame(old(sbi.cache.L), sbi.cache.L, sbi.role) && sbi.FreeSet(Inodes) == old(sbi.FreeSet(Inodes))
    ensures freed == Tops(L0, files[inode.ino], i + 1)
    ensures Freeing(sbi.cache.L, sbi.InUse(), sbi.role, L0, files, inUse0, freed)
    ensures |sbi.FreeSet(Blocks)| == |old(sbi.FreeSet(Blocks))| + |freed| - |Tops(L0, files[inode.ino], i)|
    ensures inode.iBlock == old(inode.iBlock)[i := 0]
  {
    hide Trees; hide SbInfo.Valid; hide SbInfo.FreeSet; hide SbInfo.InUse; hide Node; hide Branch; hide Freeing;
    ghost var before := Tops(L0, files[inode.ino], i);
    FreeingTrees(sbi.cache.L, sbi.InUse(), sbi.role, L0, files, inUse0, before);
    TopNode(L0, files, inUse0, inode.ino, i);
    TopsApart(L0, files, inUse0, inode.ino, i, i);
    FreeBranch(sbi, inode.iBlock[i], Level(i), inode.ino, [i], L0, files, inUse0, before);
    inode.iBlock := inode.iBlock[i := 0];
    freed := before + Branch(L0, files[inode.ino], [i]);
  }

  /** The twelve direct pointers, then the three trees. */
  method FreePointers(sbi: SbInfo, inode: Inode, ghost L0: seq<Block>, ghost files: map<nat, Ptrs>,
      ghost inUse0: set<nat>)
    requires sbi.Valid() && |sbi.cache.pins| + 3 < NBLKNUM
    requires sbi.cache.L == L0 && sbi.InUse() == inUse0 && Trees(L0, files, inUse0)
    requires inode.ino in files && files[inode.ino] == inode.iBlock
    modifies inode`iBlock, sbi.cache, sbi.cache.slots, sbi.cache.disk`sectors, sbi.gb
    ensures sbi.Valid() && sbi.cache.pins == old(sbi.cache.pins)
    ensures forall j, x :: old(sbi.cache.Pinned(j, x)) ==> sbi.cache.Pinned(j, x)
    ensures TablesSame(L0, sbi.cache.L, sbi.role) && sbi.FreeSet(Inodes) == old(sbi.FreeSet(Inodes))
    ensures Freeing(sbi.cache.L, sbi.InUse(), sbi.role, L0, files, inUse0, Reach(L0, files[inode.ino]))
    ensures |sbi.FreeSet(Blocks)| == |old(sbi.FreeSet(Blocks))| + |Reach(L0, files[inode.ino])|
    ensures inode.iBlock == NO_BLOCKS
  {
    hide Trees; hide SbInfo.Valid; hide SbInfo.FreeSet; hide SbInfo.InUse; hide Node; hide Branch; hide Freeing;
    hide Tops;
    ghost var f := inode.ino;
    StartFreeing(sbi, L0, files, inUse0, f);
    ghost var freed := {};
    for i := 0 to NDIR_BLOCKS
      invariant sbi.Valid() && sbi.cache.pins == old(sbi.cache.pins)
      invariant forall j, x :: old(sbi.cache.Pinned(j, x)) ==> sbi.cache.Pinned(j, x)
      invariant TablesSame(L0, sbi.cache.L, sbi.role) && sbi.FreeSet(Inodes) == old(sbi.FreeSet(Inodes))
      invariant freed == Tops(L0, files[f], i)
      invariant Freeing(sbi.cache.L, sbi.InUse(), sbi.role, L0, files, inUse0, freed)
      invariant |sbi.FreeSet(Blocks)| == |old(sbi.FreeSet(Blocks))| + |freed|
      invariant forall j :: 0 <= j < N_BLOCKS ==> inode.iBlock[j] == if j < i then 0 else files[f][j]
    {
      freed := FreeTop(sbi, inode, i, L0, files, inUse0);
    }
    freed := FreeTop(sbi, inode, IND_BLOCK, L0, files, inUse0);
    freed := FreeTop(sbi, inode, DIND_BLOCK, L0, files, inUse0);
    freed := FreeTop(sbi, inode, TIND_BLOCK, L0, files, inUse0);
    assert inode.iBlock == NO_BLOCKS;
  }

  /** ext2_truncate_inode: exactly the file's blocks become free, each once; the counters rise by their number;
      no other file and no other inode changes; the inode is on disk, empty. */
  method TruncateInode(fs: Ext2, inode: Inode)
    requires fs.Valid() && fs.Open(inode) && inode.valid && |fs.sbi.cache.pins| + 3 < NBLKNUM
    modifies fs, inode`iBlock, inode`size, inode`dirty, fs.sbi.cache, fs.sbi.cache.slots, fs.sbi.cache.disk`sectors,
             fs.sbi.gb
    ensures fs.Valid() && fs.Open(inode) && fs.sbi.cache.pins == old(fs.sbi.cache.pins)
    ensures forall i, x :: old(fs.sbi.cache.Pinned(i, x)) ==> fs.sbi.cache.Pinned(i, x)
    ensures inode.iBlock == NO_BLOCKS && inode.size == 0 && !inode.dirty && fs.Synced(inode)
    ensures fs.files == old(fs.files)[inode.ino := NO_BLOCKS]
    ensures Reach(old(fs.sbi.cache.L), old(inode.iBlock)) <= old(fs.sbi.InUse())
    ensures fs.sbi.InUse() == old(fs.sbi.InUse()) - Reach(old(fs.sbi.cache.L), old(inode.iBlock))
    ensures fs.sbi.Counter(Blocks) == old(fs.sbi.Counter(Blocks)) + |Reach(old(fs.sbi.cache.L), old(inode.iBlock))|
    ensures fs.sbi.FreeSet(Inodes) == old(fs.sbi.FreeSet(Inodes))
    ensures forall g, k :: g in fs.files && g != inode.ino && 0 <= k < MAX_LBK ==>
              FileBlock(fs.sbi.cache.L, fs.files[g], k) == old(FileBlock(fs.sbi.cache.L, fs.files[g], k))
    ensures forall j :: ValidIno(fs.sbi.geo, j) && j != inode.ino ==> fs.Image(j) == old(fs.Image(j))
  {
    hide Trees; hide SbInfo.Valid; hide SbInfo.FreeSet; hide SbInfo.InUse; hide Freeing; hide Reach; hide FileBlock;
    hide SbInfo.Counter; hide TablesOk;
    hide InoBlock; hide InoOffset; hide Decode; hide ImageAt; hide GeometryOk;
    var sbi := fs.sbi;
    ghost var L0, files, f := sbi.cache.L, fs.files, inode.ino;
    sbi.CounterIsFreeCount(Blocks);
    sbi.TableFacts();
    FreePointers(sbi, inode, L0, files, sbi.InUse());
    ghost var L1 := sbi.cache.L;
    ImagesSame(L0, L1, sbi.geo, sbi.role, sbi.tables);
    Freed(L0, L1, sbi.InUse(), sbi.role, files, old(sbi.InUse()), f);
    FreeingRest(L1, sbi.InUse(), sbi.role, L0, files, old(sbi.InUse()), Reach(L0, files[f]));
    fs.files := fs.files[f := NO_BLOCKS];
    inode.size := 0;
    inode.dirty := true;
    var _ := fs.WriteInode(inode);
    sbi.CounterIsFreeCount(Blocks);
  }

  lemma FreeingRest(L: seq<Block>, inUse: set<nat>, role: nat -> Role, L0: seq<Block>, files: map<nat, Ptrs>,
      inUse0: set<nat>, freed: set<nat>)
    requires Freeing(L, inUse, role, L0, files, inUse0, freed)
    ensures inUse == inUse0 - freed && freed <= inUse0
  {
  }

  lemma StartFreeing(sbi: SbInfo, L0: seq<Block>, files: map<nat, Ptrs>, inUse0: set<nat>, f: nat)
    requires sbi.Valid() && sbi.cache.L == L0 && sbi.InUse() == inUse0 && Trees(L0, files, inUse0) && f in files
    ensures Freeing(L0, inUse0, sbi.role, L0, files, inUse0, Tops(L0, files[f], 0)) && Tops(L0, files[f], 0) == {}
  {
    hide Sound; hide NoLeak; hide NoSharing; hide SbInfo.InUse; hide SbInfo.Valid;
    sbi.InUseData();
    TreesInRange(L0, files, inUse0);
  }

  /** When all pointers are freed the trees of the remaining files stand. */
  lemma Freed(L0: seq<Block>, L: seq<Block>, inUse: set<nat>, role: nat -> Role, files: map<nat, Ptrs>,
      inUse0: set<nat>, f: nat)
    requires f in files && Freeing(L, inUse, role, L0, files, inUse0, Reach(L0, files[f]))
    ensures Trees(L, files[f := NO_BLOCKS], inUse)
    ensures forall g, k :: g in files && g != f && 0 <= k < MAX_LBK ==>
              FileBlock(L, files[f := NO_BLOCKS][g], k) == FileBlock(L0, files[g], k)
  {
    hide Trees; hide Reach; hide FileBlock;
    DropFile(L0, files, inUse0, f);
    ViewsSame(L0, L, files[f := NO_BLOCKS], inUse);
  }
}
