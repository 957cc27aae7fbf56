/** The mounted file system: the inode cache (ext2_iget, iput) and the operations on names that go through it. */
module VfsOps {
  import opened Bytes
  import opened BlkCache
  import opened Layout
  import opened AllocLemmas
  import opened Balloc
  import opened FileTree
  import opened FileView
  import opened Branches
  import opened InodeImage
  import opened Ext2File
  import opened Ext2Inodes
  import opened VfsState
  import opened InodeCache

  const ROOT_INO: nat := 2

  ghost function Snaps(c: seq<Inode>): (s: seq<Cached>)
    reads c
    ensures |s| == |c| && forall k :: 0 <= k < |c| ==> s[k] == c[k].Snapshot()
  {
    if c == [] then [] else [c[0].Snapshot()] + Snaps(c[1..])
  }

  /** list_del: the list without one node. */
  function Without(c: seq<Inode>, x: Inode): seq<Inode> {
    if c == [] then [] else if c[0] == x then c[1..] else [c[0]] + Without(c[1..], x)
  }

  lemma {:induction false} WithoutAt(c: seq<Inode>, k: nat)
    requires k < |c| && forall j :: 0 <= j < k ==> c[j] != c[k]
    ensures Without(c, c[k]) == c[..k] + c[k + 1..]
  {
    if k > 0 {
      WithoutAt(c[1..], k - 1);
      assert c[..k] + c[k + 1..] == [c[0]] + (c[1..][..k - 1] + c[1..][k..]);
    }
  }

  /** struct vfs: the mounted file system with its cache of inodes, newest first.  meta and tree say what the
      file system means: the current metadata of every file in use and the names in every directory. */
  class Vfs {
    const fs: Ext2
    const root: Inode
    var icache: seq<Inode>
    var icacheSize: nat
    ghost var meta: map<nat, Meta>
    ghost var tree: Dirs

    /** The metadata on the logical disk. */
    ghost function Disk(): nat -> Meta
      reads fs, fs.sbi, fs.sbi.cache
    {
      DiskOf(fs.sbi.cache.L, fs.sbi.geo, fs.sbi.tables)
    }

    ghost predicate CacheOk()
      reads this, icache, fs, fs.sbi, fs.sbi.cache
    {
      icacheSize == |icache| && root in icache && Coherent(Snaps(icache), Disk(), meta)
    }

    /** What the file system means, apart from the cache. */
    ghost predicate Meaning()
      requires fs.Valid()
      reads this, fs, fs.sbi, fs.sbi.gb, fs.sbi.cache, fs.sbi.cache.slots, fs.sbi.cache.disk
    {
      && MetaOk(fs.files, meta, fs.sbi.FreeSet(Inodes)) && TreeOk(fs.sbi.cache.L, meta, tree) && LinksOk(meta, tree)
    }

    ghost predicate Sound()
      reads this, icache, fs, fs.sbi, fs.sbi.gb, fs.sbi.cache, fs.sbi.cache.slots, fs.sbi.cache.disk
    {
      fs.Valid() && Meaning() && CacheOk()
    }

    /** The invariant of every run: all of the above, and an inode stays cached only while someone holds it. */
    ghost predicate Valid()
      reads this, icache, fs, fs.sbi, fs.sbi.gb, fs.sbi.cache, fs.sbi.cache.slots, fs.sbi.cache.disk
    {
      Sound() && forall i :: i in icache ==> i.ref >= 1
    }

    /** The references held on an inode number. */
    ghost function Refs(ino: nat): int
      reads this, icache
    {
      RefIn(Snaps(icache), ino)
    }

    /** The end of ext2_fs_init: an empty cache, then the root directory is read and stays. */
    constructor (fs: Ext2, ghost meta: map<nat, Meta>, ghost tree: Dirs)
      requires fs.Valid() && |fs.sbi.cache.pins| < NBLKNUM
      requires MetaOk(fs.files, meta, fs.sbi.FreeSet(Inodes)) && TreeOk(fs.sbi.cache.L, meta, tree)
               && LinksOk(meta, tree)
      requires ROOT_INO in tree && ROOT_INO <= fs.sbi.geo.inodesCount && forall f :: f in meta ==>
               DiskMeta(fs.sbi.cache.L, fs.sbi.geo, fs.sbi.tables, f) == meta[f]
      modifies fs.sbi.cache`pins, fs.sbi.cache.slots, fs.sbi.cache.disk`sectors
      ensures Valid() && this.fs == fs && this.meta == meta && this.tree == tree
      ensures fresh(root) && root.ino == ROOT_INO && root.kind == Dir && root.ref == 1 && icache == [root]
      ensures fs.sbi.cache.L == old(fs.sbi.cache.L) && fs.sbi.cache.pins == old(fs.sbi.cache.pins)
    {
      hide MetaOk; hide LinksOk; hide SbInfo.Valid; hide SbInfo.FreeSet; hide SbInfo.InUse; hide Trees; hide Decode;
      hide TypeOf; hide Truncated; hide Shows; hide DiskMeta; hide Coherent;
      var r := new Inode(ROOT_INO);
      this.fs, this.root, this.meta, this.tree := fs, r, meta, tree;
      icache, icacheSize := [r], 1;
      new;
      fs.ReadInode(root);
      DiskImage(fs, ROOT_INO);
      NothingCached(Disk(), meta);
      MissKeeps([], Disk(), meta, root.Snapshot());
      assert Snaps(icache) == [root.Snapshot()] + [];
    }

    /** ext2_iget: the cached inode with one more reference, or a new one read from disk; null for number 0 or
        when it is not cached and kmalloc has no memory for it (oom), and then nothing changed. */
    method Iget(ino: nat, memory: bool) returns (r: Inode?, ghost oom: bool)
      requires Valid() && |fs.sbi.cache.pins| < NBLKNUM && (ino == 0 || ino in meta)
      modifies this`icache, this`icacheSize, icache, fs.sbi.cache`pins, fs.sbi.cache.slots, fs.sbi.cache.disk`sectors
      ensures Valid() && fs.sbi.cache.L == old(fs.sbi.cache.L) && fs.sbi.cache.pins == old(fs.sbi.cache.pins)
      ensures forall i, x :: old(fs.sbi.cache.Pinned(i, x)) ==> fs.sbi.cache.Pinned(i, x)
      ensures fs.sbi.FreeSet(Blocks) == old(fs.sbi.FreeSet(Blocks))
              && fs.sbi.FreeSet(Inodes) == old(fs.sbi.FreeSet(Inodes))
      ensures r == null <==> ino == 0 || oom
      ensures oom <==> ino != 0 && !memory && forall i :: i in old(icache) ==> i.ino != ino
      ensures r != null ==> r.ino == ino && r in icache
      ensures forall x :: Refs(x) == old(Refs(x)) + if r != null && x == ino then 1 else 0
      ensures forall i :: i in old(icache) && i != r ==> unchanged(i)
      ensures if r != null && r !in old(icache) then fresh(r) && !r.dirty
              && icache == [r] + old(icache) else icache == old(icache)
    {
      hide Meaning; hide CacheOk; hide SbInfo.Valid; hide SbInfo.FreeSet; hide SbInfo.InUse; hide Ext2.Valid;
      hide TypeOf; hide Disk;
      hide Vfs.Sound; hide Refs; hide BlockCache.Pinned; hide Snaps;
      oom := false;
      if ino == 0 {
        return null, oom;
      }
      var k := 0;
      while k < |icache|
        invariant k <= |icache| && forall j :: 0 <= j < k ==> icache[j].ino != ino
      {
        if icache[k].ino == ino {
          r := icache[k];
          assert r in icache;
          Reference(r, 1);
          return;
        }
        k := k + 1;
      }
      if !memory {
        oom := true;
        return null, oom;
      }
      r := Fetch(ino);
    }

    /** A cached inode gains or loses references. */
    method Reference(i: Inode, change: int)
      requires Sound() && i in icache
      modifies i`ref
      ensures Sound() && i.ref == old(i.ref) + change
      ensures forall x :: Refs(x) == old(Refs(x)) + if x == i.ino then change else 0
    {
      hide Meaning; hide SbInfo.Valid; hide SbInfo.FreeSet; hide SbInfo.InUse; hide Trees; hide Decode; hide TypeOf;
      hide Truncated; hide Coherent; hide DiskMeta;
      ghost var k :| 0 <= k < |icache| && icache[k] == i;
      ghost var s := Snaps(icache);
      CoherentFacts(s, Disk(), meta);
      i.ref := i.ref + change;
      SnapsUpdate(icache, k, s);
      RefKeeps(s, Disk(), meta, k, i.ref);
      RefAt(s, k);
      forall x ensures Refs(x) == old(Refs(x)) + if x == i.ino then change else 0 {
        RefUpdate(s, k, s[k].(ref := i.ref), x);
      }
    }

    /** The miss of ext2_iget: a new in-memory inode, read from disk, at the head of the list. */
    method Fetch(ino: nat) returns (inode: Inode)
      requires Valid() && |fs.sbi.cache.pins| < NBLKNUM && ino in meta && forall i :: i in icache ==> i.ino != ino
      modifies this`icache, this`icacheSize, fs.sbi.cache`pins, fs.sbi.cache.slots, fs.sbi.cache.disk`sectors
      ensures Valid() && fs.sbi.cache.L == old(fs.sbi.cache.L) && fs.sbi.cache.pins == old(fs.sbi.cache.pins)
      ensures forall i, x :: old(fs.sbi.cache.Pinned(i, x)) ==> fs.sbi.cache.Pinned(i, x)
      ensures fs.sbi.FreeSet(Blocks) == old(fs.sbi.FreeSet(Blocks))
              && fs.sbi.FreeSet(Inodes) == old(fs.sbi.FreeSet(Inodes))
      ensures fresh(inode) && inode.ino == ino && !inode.dirty && icache == [inode] + old(icache)
      ensures forall x :: Refs(x) == old(Refs(x)) + if x == ino then 1 else 0
    {
      hide MetaOk; hide TreeOk; hide LinksOk; hide Coherent; hide SbInfo.Valid; hide SbInfo.FreeSet;
      hide SbInfo.InUse; hide Ext2.Valid; hide Ext2.Image; hide Decode; hide TypeOf;
      hide Refs; hide BlockCache.Pinned; hide Snaps; hide DiskMeta;
      NumberIsValid(ino);
      inode := new Inode(ino);
      fs.ReadInode(inode);
      DiskImage(fs, ino);
      Enlist(inode);
    }

    /** list_add into the cache of an inode just read. */
    method Enlist(inode: Inode)
      requires Sound() && inode.ino in meta && forall i :: i in icache ==> i.ino != inode.ino
      requires inode.Fields() == Disk()(inode.ino) && inode.kind == TypeOf(inode.mode) && inode.valid && inode.ref == 1
      modifies this`icache, this`icacheSize
      ensures Sound() && icache == [inode] + old(icache)
      ensures forall x :: Refs(x) == old(Refs(x)) + if x == inode.ino then 1 else 0
    {
      hide MetaOk; hide TreeOk; hide LinksOk; hide SbInfo.Valid; hide SbInfo.FreeSet; hide Ext2.Valid; hide TypeOf;
      hide Coherent; hide DiskOf; hide Inos; hide Snaps; hide RefIn;
      ghost var s, c := Snaps(icache), icache;
      NotCached(c, s, inode.ino);
      icache := [inode] + icache;
      icacheSize := icacheSize + 1;
      SnapsPush(inode, c, s);
      MissKeeps(s, Disk(), meta, inode.Snapshot());
      forall x ensures Refs(x) == old(Refs(x)) + if x == inode.ino then 1 else 0 {
        RefPush(s, inode.Snapshot(), x);
      }
    }

    /** iput: one reference the fewer.  When it was the last, and the inode is not the root, the inode leaves the
        cache: a file without links gives back exactly its blocks and its number; any other is on disk first. */
    method Iput(inode: Inode)
      requires Valid() && inode in icache && |fs.sbi.cache.pins| + 3 < NBLKNUM
      modifies this`icache, this`icacheSize, this`meta, this`tree, inode, fs, fs.sbi.cache, fs.sbi.cache.slots,
               fs.sbi.cache.disk`sectors, fs.sbi.gb
      ensures Valid() && fs.sbi.cache.pins == old(fs.sbi.cache.pins)
      ensures forall i, x :: old(fs.sbi.cache.Pinned(i, x)) ==> fs.sbi.cache.Pinned(i, x)
      ensures old(inode.ref) > 1 || inode == root ==> icache == old(icache)
      ensures old(inode.ref) == 1 && inode != root ==> icache == Without(old(icache), inode)
      ensures forall i :: i in icache <==> i in old(icache) && !(i == inode && inode != root && old(inode.ref) == 1)
      ensures forall x ::
              Refs(x) == old(Refs(x)) - if x == inode.ino && !(inode == root && old(inode.ref) == 1) then 1 else 0
      ensures if old(inode.ref) == 1 && inode != root && old(inode.nlinks) == 0
              then meta == old(meta) - {inode.ino} && tree == old(tree) - {inode.ino}
                   && fs.sbi.FreeSet(Inodes) == old(fs.sbi.FreeSet(Inodes)) + {inode.ino - 1}
                   && fs.sbi.InUse() == old(fs.sbi.InUse()) - Reach(old(fs.sbi.cache.L), old(inode.iBlock))
              else meta == old(meta) && tree == old(tree) && fs.sbi.FreeSet(Inodes) == old(fs.sbi.FreeSet(Inodes))
                   && fs.sbi.InUse() == old(fs.sbi.InUse())
      ensures Kept(old(fs.sbi.cache.L), old(fs.files), fs.sbi.cache.L, fs.files)
    {
      hide Meaning; hide CacheOk; hide SbInfo.Valid; hide SbInfo.FreeSet; hide SbInfo.InUse; hide Ext2.Valid;
      hide TypeOf; hide Disk;
      hide BlockCache.Pinned; hide Snaps; hide SameViews; hide Reach; hide Kept; hide Coherent; hide Without; hide Refs;
      ViewsSelf(fs.sbi.cache.L, fs.files);
      KeptSame(fs.sbi.cache.L, fs.files, fs.sbi.cache.L, fs.files);
      InCache(inode);
      Reference(inode, -1);
      if inode.ref > 0 {
        return;
      }
      if inode == root {
        Reference(inode, 1);
        return;
      }
      Depart(inode);
    }

    /** The end of iput, when nobody holds the inode any more. */
    method Depart(inode: Inode)
      requires Sound() && inode in icache && inode != root && |fs.sbi.cache.pins| + 3 < NBLKNUM
      modifies this`icache, this`icacheSize, this`meta, this`tree, inode`iBlock, inode`size, inode`dirty, fs,
               fs.sbi.cache, fs.sbi.cache.slots, fs.sbi.cache.disk`sectors, fs.sbi.gb
      ensures Sound() && fs.sbi.cache.pins == old(fs.sbi.cache.pins)
      ensures forall i, x :: old(fs.sbi.cache.Pinned(i, x)) ==> fs.sbi.cache.Pinned(i, x)
      ensures icache == Without(old(icache), inode) && forall i :: i in icache <==> i in old(icache) && i != inode
      ensures forall x :: Refs(x) == if x == inode.ino then 0 else old(Refs(x))
      ensures if old(inode.nlinks) == 0
              then meta == old(meta) - {inode.ino} && tree == old(tree) - {inode.ino}
                   && fs.sbi.FreeSet(Inodes) == old(fs.sbi.FreeSet(Inodes)) + {inode.ino - 1}
                   && fs.sbi.InUse() == old(fs.sbi.InUse()) - Reach(old(fs.sbi.cache.L), old(inode.iBlock))
              else meta == old(meta) && tree == old(tree) && fs.sbi.FreeSet(Inodes) == old(fs.sbi.FreeSet(Inodes))
                   && fs.sbi.InUse() == old(fs.sbi.InUse())
      ensures Kept(old(fs.sbi.cache.L), old(fs.files), fs.sbi.cache.L, fs.files)
    {
      hide Meaning; hide CacheOk; hide SbInfo.Valid; hide SbInfo.FreeSet; hide SbInfo.InUse; hide Ext2.Valid;
      hide TypeOf; hide Disk;
      hide BlockCache.Pinned; hide Snaps; hide SameViews; hide Reach; hide Kept; hide Coherent; hide Without;
      hide RefIn;
      ghost var k :| 0 <= k < |icache| && icache[k] == inode;
      ghost var s, disk, meta0 := Snaps(icache), Disk(), meta;
      DistinctCache();
      if inode.nlinks == 0 {
        Discard(inode);
        Forgotten(inode, k, s, disk, meta0);
      } else {
        Flush(inode);
        Droppable(inode, k);
      }
      Evict(inode, s, k);
    }

    lemma DistinctCache()
      requires Sound()
      ensures OnePerNumber(Snaps(icache)) && Coherent(Snaps(icache), Disk(), meta) && icacheSize == |icache|
              && root in icache
    {
      hide SbInfo.Valid; hide Trees; hide Meaning; hide Ext2.Valid; hide Disk;
    }

    /** write_inode: the disk then has these fields for this inode, and for every other file what it had. */
    method WriteBack(inode: Inode)
      requires fs.Valid() && inode.valid && inode.ino in meta && |fs.sbi.cache.pins| < NBLKNUM
      requires forall f :: f in meta ==> ValidIno(fs.sbi.geo, f)
      modifies inode`dirty, fs.sbi.cache, fs.sbi.cache.slots, fs.sbi.cache.disk`sectors
      ensures fs.Valid() && !inode.dirty && fs.sbi.cache.pins == old(fs.sbi.cache.pins)
      ensures forall i, x :: old(fs.sbi.cache.Pinned(i, x)) ==> fs.sbi.cache.Pinned(i, x)
      ensures fs.sbi.InUse() == old(fs.sbi.InUse()) && fs.sbi.FreeSet(Inodes) == old(fs.sbi.FreeSet(Inodes))
      ensures SameViews(old(fs.sbi.cache.L), fs.files, fs.sbi.cache.L, fs.files)
      ensures Disk()(inode.ino) == Truncated(inode.Fields())
      ensures forall f :: f in meta && f != inode.ino ==> Disk()(f) == old(Disk()(f))
    {
      hide SbInfo.Valid; hide SbInfo.FreeSet; hide SbInfo.InUse; hide Trees; hide Truncated; hide Decode; hide ImageAt;
      hide SameViews; hide BlockCache.Pinned; hide DiskMeta;
      var _ := fs.WriteInode(inode);
      OthersOnDisk(inode.ino);
      DiskImage(fs, inode.ino);
    }

    /** Writing a cached inode back leaves what the file system means as it was. */
    twostate lemma SameMeaning()
      requires old(fs.Valid() && Meaning()) && fs.Valid() && meta == old(meta) && tree == old(tree)
      requires fs.files == old(fs.files) && fs.sbi.FreeSet(Inodes) == old(fs.sbi.FreeSet(Inodes))
      requires SameViews(old(fs.sbi.cache.L), old(fs.files), fs.sbi.cache.L, fs.files)
      ensures Meaning()
    {
      hide SbInfo.Valid; hide SbInfo.FreeSet; hide SbInfo.InUse; hide Trees; hide MetaOk; hide TreeOk; hide LinksOk;
      hide SameViews;
      TreeSame(old(fs.sbi.cache.L), fs.sbi.cache.L, fs.files, meta, tree, fs.sbi.FreeSet(Inodes));
    }

    /** The part of iput for a file with links: write_inode when dirty. */
    method Flush(inode: Inode)
      requires Sound() && inode in icache && |fs.sbi.cache.pins| < NBLKNUM
      modifies inode`dirty, fs.sbi.cache, fs.sbi.cache.slots, fs.sbi.cache.disk`sectors
      ensures Sound() && !inode.dirty && fs.sbi.cache.pins == old(fs.sbi.cache.pins)
      ensures forall i, x :: old(fs.sbi.cache.Pinned(i, x)) ==> fs.sbi.cache.Pinned(i, x)
      ensures fs.sbi.InUse() == old(fs.sbi.InUse()) && fs.sbi.FreeSet(Inodes) == old(fs.sbi.FreeSet(Inodes))
      ensures Kept(old(fs.sbi.cache.L), fs.files, fs.sbi.cache.L, fs.files)
    {
      hide SbInfo.Valid; hide SbInfo.FreeSet; hide SbInfo.InUse; hide Ext2.Valid; hide Meaning; hide Coherent;
      hide BlockCache.Pinned; hide SameViews; hide Kept; hide Disk; hide Truncated; hide TypeOf; hide Snaps;
      ghost var k :| 0 <= k < |icache| && icache[k] == inode;
      ghost var L, s, disk := fs.sbi.cache.L, Snaps(icache), Disk();
      ViewsSelf(L, fs.files);
      KeptSame(L, fs.files, L, fs.files);
      if inode.dirty {
        InCache(inode);
        NumbersValid();
        FitsInUse(inode.ino);
        WriteBack(inode);
        KeptSame(L, fs.files, fs.sbi.cache.L, fs.files);
        SameMeaning();
        WrittenBack(s, Snaps(icache), disk, Disk(), meta, k);
      }
    }

    /** A clean inode may leave the cache. */
    lemma Droppable(inode: Inode, k: nat)
      requires Sound() && k < |icache| && icache[k] == inode && !inode.dirty
      ensures Coherent(Snaps(Without(icache, inode)), Disk(), meta)
    {
      hide SbInfo.Valid; hide Trees; hide Meaning; hide Ext2.Valid; hide Disk; hide Coherent; hide OnePerNumber;
      hide Without;
      var s := Snaps(icache);
      CoherentFacts(s, Disk(), meta);
      SnapsWithout(icache, k, s);
      DropKeeps(s, Disk(), meta, k);
    }

    /** list_del, icache_size--, destroy_inode.  s is what the cache held, inode k possibly changed since. */
    method Evict(inode: Inode, ghost s: seq<Cached>, ghost k: nat)
      requires fs.Valid() && Meaning() && Coherent(Snaps(Without(icache, inode)), Disk(), meta)
      requires root in icache && inode != root && icacheSize == |icache| && k < |icache| && icache[k] == inode
      requires |s| == |icache| && OnePerNumber(s) && forall j :: 0 <= j < |s| ==>
               s[j].ino == icache[j].ino && (icache[j] != inode ==> s[j] == icache[j].Snapshot())
      modifies this`icache, this`icacheSize
      ensures Sound() && icache == Without(old(icache), inode) && forall i :: i in icache <==>
              i in old(icache) && i != inode
      ensures forall x :: Refs(x) == if x == inode.ino then 0 else RefIn(s, x)
    {
      hide SbInfo.Valid; hide SbInfo.FreeSet; hide Ext2.Valid; hide Trees; hide MetaOk; hide TreeOk; hide LinksOk;
      hide DiskOf; hide Coherent; hide OnePerNumber; hide Without; hide Snaps; hide RefIn;
      SnapsWithout(icache, k, s);
      icache := Without(icache, inode);
      icacheSize := icacheSize - 1;
      forall x ensures Refs(x) == if x == inode.ino then 0 else RefIn(s, x) {
        RefDrop(s, k, x);
      }
    }

    /** The part of iput for a file without links: truncate and free_inode. */
    method Discard(inode: Inode)
      requires Sound() && inode in icache && inode.nlinks == 0 && |fs.sbi.cache.pins| + 3 < NBLKNUM
      modifies this`meta, this`tree, inode`iBlock, inode`size, inode`dirty, fs, fs.sbi.cache, fs.sbi.cache.slots,
               fs.sbi.cache.disk`sectors, fs.sbi.gb
      ensures fs.Valid() && Meaning() && fs.sbi.cache.pins == old(fs.sbi.cache.pins)
      ensures forall i, x :: old(fs.sbi.cache.Pinned(i, x)) ==> fs.sbi.cache.Pinned(i, x)
      ensures forall f :: f in old(meta) && f != inode.ino ==> Disk()(f) == old(Disk()(f))
      ensures meta == old(meta) - {inode.ino} && tree == old(tree) - {inode.ino} && inode.ino > 0
      ensures fs.sbi.FreeSet(Inodes) == old(fs.sbi.FreeSet(Inodes)) + {inode.ino - 1}
      ensures fs.sbi.InUse() == old(fs.sbi.InUse()) - Reach(old(fs.sbi.cache.L), old(inode.iBlock))
      ensures Kept(old(fs.sbi.cache.L), old(fs.files), fs.sbi.cache.L, fs.files)
    {
      hide SbInfo.Valid; hide SbInfo.FreeSet; hide SbInfo.InUse; hide Ext2.Valid; hide TypeOf; hide MetaOk;
      hide TreeOk; hide LinksOk; hide Truncated;
      hide BlockCache.Pinned; hide Snaps; hide SameViews; hide Reach; hide Kept; hide Coherent; hide Without;
      hide OnePerNumber; hide ImageAt; hide Decode; hide DiskOf; hide DiskMeta; hide InStep;
      ghost var meta0, L, files := meta, fs.sbi.cache.L, fs.files;
      MountedValid(fs);
      ghost var free := fs.sbi.FreeSet(Inodes);
      InCache(inode);
      NumbersValid();
      FieldsFit(files, meta, free, inode.ino);
      ReleaseFile(fs, inode);
      meta, tree := meta - {inode.ino}, tree - {inode.ino};
      NoLinks(meta0, old(tree), inode.ino);
      FileGone(L, fs.sbi.cache.L, files, meta0, old(tree), free, inode.ino);
      KeptWithout(L, files, fs.sbi.cache.L, fs.files, inode.ino);
      OthersOnDisk(inode.ino);
    }

    lemma Mounted()
      requires Sound()
      ensures fs.Valid()
    {
    }

    lemma NumbersValid()
      requires Sound()
      ensures forall f :: f in meta ==> ValidIno(fs.sbi.geo, f) && f in fs.files
    {
      hide TreeOk; hide LinksOk; hide SbInfo.Valid; hide SbInfo.FreeSet; hide SbInfo.InUse; hide Trees; hide CacheOk;
    }

    /** After Discard the rest of the cache is coherent. */
    lemma Forgotten(inode: Inode, k: nat, s: seq<Cached>, disk: nat -> Meta, meta0: map<nat, Meta>)
      requires k < |icache| && icache[k] == inode && Coherent(s, disk, meta0) && meta == meta0 - {inode.ino}
      requires |s| == |icache| && forall j :: 0 <= j < |s| ==>
               s[j].ino == icache[j].ino && (icache[j] != inode ==> s[j] == icache[j].Snapshot())
      requires forall f :: f in meta0 && f != inode.ino ==> Disk()(f) == disk(f)
      ensures Coherent(Snaps(Without(icache, inode)), Disk(), meta)
    {
      hide Coherent; hide Without; hide Snaps; hide Disk; hide OnePerNumber; hide InStep;
      CoherentFacts(s, disk, meta0);
      SnapsWithout(icache, k, s);
      ForgetKeeps(s, disk, Disk(), meta0, k);
    }

    /** Images that did not change hold the metadata they held. */
    twostate lemma OthersOnDisk(ino: nat)
      requires old(fs.Valid()) && fs.Valid()
      requires forall j :: ValidIno(fs.sbi.geo, j) && j != ino ==> fs.Image(j) == old(fs.Image(j))
      ensures forall f :: ValidIno(fs.sbi.geo, f) && f != ino ==> Disk()(f) == old(Disk()(f))
    {
      hide ImageAt; hide Decode; hide SbInfo.Valid; hide Trees;
    }

    /** What a cached inode holds. */
    lemma InCache(i: Inode)
      requires Sound() && i in icache
      ensures i.ino in meta && i.Fields() == meta[i.ino] && i.kind == TypeOf(i.mode) && i.valid
      ensures !i.dirty ==> Disk()(i.ino) == meta[i.ino]
      ensures Refs(i.ino) == i.ref
    {
      hide Meaning; hide SbInfo.Valid; hide Ext2.Valid; hide TypeOf; hide Disk; hide Inos;
      var k :| 0 <= k < |icache| && icache[k] == i;
      var s := Snaps(icache);
      assert InStep(s[k], Disk(), meta);
      RefAt(s, k);
    }

    /** Metadata in use fits its fields on disk. */
    lemma FitsInUse(ino: nat)
      requires Sound() && ino in meta
      ensures Truncated(meta[ino]) == meta[ino]
    {
      hide SbInfo.Valid; hide SbInfo.FreeSet; hide Trees; hide MetaOk; hide TreeOk; hide LinksOk; hide CacheOk;
      hide Truncated;
      FieldsFit(fs.files, meta, fs.sbi.FreeSet(Inodes), ino);
    }

    /** Files in use have valid numbers. */
    lemma NumberIsValid(ino: nat)
      requires Sound() && ino in meta
      ensures ValidIno(fs.sbi.geo, ino) && ino in fs.files
    {
      hide TreeOk; hide LinksOk; hide SbInfo.Valid; hide SbInfo.FreeSet; hide SbInfo.InUse; hide Trees; hide CacheOk;
    }
  }

  lemma SnapsPush(x: Inode, c: seq<Inode>, s: seq<Cached>)
    requires |s| == |c| && forall j :: 0 <= j < |c| ==> s[j] == c[j].Snapshot()
    ensures Snaps([x] + c) == [x.Snapshot()] + s
  {
    assert ([x] + c)[1..] == c;
    assert Snaps(c) == s;
  }

  /** Dropping one cached inode drops its entry. */
  lemma SnapsWithout(c: seq<Inode>, k: nat, s: seq<Cached>)
    requires k < |c| && |s| == |c| && OnePerNumber(s)
    requires forall j :: 0 <= j < |c| ==> s[j].ino == c[j].ino && (c[j] != c[k] ==> s[j] == c[j].Snapshot())
    ensures Snaps(Without(c, c[k])) == s[..k] + s[k + 1..]
    ensures |Without(c, c[k])| == |c| - 1 && forall i :: i in Without(c, c[k]) <==> i in c && i != c[k]
  {
    hide Without;
    WithoutAt(c, k);
    var d := c[..k] + c[k + 1..];
    forall i ensures i in d <==> i in c && i != c[k] {
      hide Snaps;
      if i in c && i != c[k] {
        var j :| 0 <= j < |c| && c[j] == i;
        assert d[if j < k then j else j - 1] == i;
      }
    }
    hide OnePerNumber;
  }

  lemma NotCached(c: seq<Inode>, s: seq<Cached>, ino: nat)
    requires s == Snaps(c) && forall i :: i in c ==> i.ino != ino
    ensures ino !in Inos(s)
  {
    assert forall k :: 0 <= k < |s| ==> s[k].ino == c[k].ino && c[k] in c;
  }

  /** After a change to one cached inode, its entry is the only one that differs. */
  lemma SnapsUpdate(c: seq<Inode>, k: nat, s: seq<Cached>)
    requires k < |c| && |s| == |c| && OnePerNumber(s)
    requires forall j :: 0 <= j < |c| ==> s[j].ino == c[j].ino && (c[j] != c[k] ==> s[j] == c[j].Snapshot())
    ensures Snaps(c) == s[k := c[k].Snapshot()]
  {
  }

  lemma MountedValid(fs: Ext2)
    requires fs.Valid()
    ensures fs.sbi.Valid()
  {
    hide SbInfo.Valid; hide Trees; hide InodesOk;
  }

  lemma DiskImage(fs: Ext2, ino: nat)
    requires fs.Valid() && ValidIno(fs.sbi.geo, ino)
    ensures DiskMeta(fs.sbi.cache.L, fs.sbi.geo, fs.sbi.tables, ino) == Decode(fs.Image(ino))
  {
    hide Decode;
    fs.sbi.TableFacts();
  }

  lemma NothingCached(disk: nat -> Meta, meta: map<nat, Meta>)
    requires forall f :: f in meta ==> disk(f) == meta[f]
    ensures Coherent([], disk, meta) && Inos([]) == {}
  {
  }

  lemma CoherentFacts(s: seq<Cached>, disk: nat -> Meta, meta: map<nat, Meta>)
    requires Coherent(s, disk, meta)
    ensures OnePerNumber(s) && forall k :: 0 <= k < |s| ==> InStep(s[k], disk, meta)
    ensures forall k :: 0 <= k < |s| ==> s[k].ino in Inos(s)
  {
  }
}
