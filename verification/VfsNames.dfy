/** Operations on names through the inode cache: ext2_lookup, ext2_create, ext2_unlink and file writes, each
    proved to do to the tree of names what it should and to keep the invariant of the mounted file system. */
module VfsNames {
  import opened Bytes
  import opened BlkCache
  import opened Layout
  import opened AllocLemmas
  import opened Balloc
  import opened FileTree
  import opened FileView
  import opened Branches
  import opened InodeImage
  import opened Ext2File
  import opened Ext2Dir
  import opened DirView
  import opened Ext2Inodes
  import opened VfsState
  import opened InodeCache
  import opened VfsOps

  /** Where a name leads in directory d, 0 for nowhere. */
  ghost function Target(tree: Dirs, d: nat, name: Name): nat {
    if d in tree && name in tree[d] then tree[d][name] else 0
  }

  /** What the cached inode of a directory is. */
  lemma DirFacts(v: Vfs, dir: Inode)
    requires v.Sound() && dir in v.icache && dir.kind == Dir
    ensures v.fs.Open(dir) && dir.valid && dir.kind == TypeOf(dir.mode) && dir.ino in v.tree && IsDir(v.fs, dir)
    ensures forall n :: Leading(v.fs, dir, n) == Target(v.tree, dir.ino, n)
    ensures v.Refs(dir.ino) == RefIn(Snaps(v.icache), dir.ino) == dir.ref && dir.ino in v.fs.files
    ensures dir.ino in v.meta && dir.Fields() == v.meta[dir.ino]
            && Shows(v.fs.sbi.cache.L, v.meta[dir.ino], v.tree[dir.ino])
    ensures forall n :: n in v.tree[dir.ino] ==> v.tree[dir.ino][n] in v.meta && v.tree[dir.ino][n] != 0
  {
    hide SbInfo.Valid; hide SbInfo.FreeSet; hide Ext2.Valid; hide Vfs.CacheOk; hide TypeOf; hide Links;
    hide Truncated; hide DirOk; hide DirLookup;
    v.InCache(dir);
    v.NumberIsValid(dir.ino);
  }

  /** Directories and cached inodes belong to files in use. */
  lemma Domains(v: Vfs)
    requires v.Sound()
    ensures forall d :: d in v.tree ==> d in v.meta
    ensures forall i :: i in v.icache ==> i.ino in v.meta
  {
    hide SbInfo.Valid; hide SbInfo.FreeSet; hide Ext2.Valid; hide Vfs.CacheOk; hide TypeOf; hide Links;
    hide Truncated; hide Shows; hide MetaOk; hide LinksOk;
    forall i | i in v.icache ensures i.ino in v.meta {
      v.InCache(i);
    }
  }

  lemma NotDir(v: Vfs, dir: Inode)
    requires v.Sound() && dir in v.icache && dir.kind != Dir
    ensures dir.ino !in v.tree
  {
    hide SbInfo.Valid; hide SbInfo.FreeSet; hide Ext2.Valid; hide Vfs.CacheOk; hide TypeOf; hide Links;
    hide Truncated; hide Shows; hide MetaOk; hide LinksOk;
    v.InCache(dir);
  }

  /** Reading blocks changes nothing the invariant speaks of. */
  twostate lemma OnlyRead(v: Vfs)
    requires old(v.Valid()) && v.fs.Valid() && unchanged(v) && unchanged(v.fs)
    requires forall i :: i in v.icache ==> unchanged(i)
    requires v.fs.sbi.cache.L == old(v.fs.sbi.cache.L) && v.fs.sbi.gb[..] == old(v.fs.sbi.gb[..])
    ensures v.Valid() && forall x :: v.Refs(x) == old(v.Refs(x))
  {
    hide SbInfo.Valid; hide FreeItems; hide Ext2.Valid; hide Coherent; hide MetaOk; hide TreeOk; hide LinksOk;
    hide RefIn; hide DiskOf;
    forall k | 0 <= k < |v.icache| ensures v.icache[k].Snapshot() == old(v.icache[k].Snapshot()) {
      assert v.icache[k] in v.icache;
    }
    assert Snaps(v.icache) == old(Snaps(v.icache));
  }

  /** ext2_lookup: the inode the name leads to, with one more reference; null when dir is no directory, when the
      name is empty or not there, or when memory is short for an inode that is not cached. */
  method Lookup(v: Vfs, dir: Inode, name: Name, memory: bool) returns (r: Inode?, ghost oom: bool)
    requires v.Valid() && dir in v.icache && |name| < 256 && |v.fs.sbi.cache.pins| < NBLKNUM
    modifies v`icache, v`icacheSize, v.icache, v.fs.sbi.cache`pins, v.fs.sbi.cache.slots, v.fs.sbi.cache.disk`sectors
    ensures v.Valid() && v.fs.sbi.cache.L == old(v.fs.sbi.cache.L) && v.fs.sbi.cache.pins == old(v.fs.sbi.cache.pins)
    ensures forall i, x :: old(v.fs.sbi.cache.Pinned(i, x)) ==> v.fs.sbi.cache.Pinned(i, x)
    ensures v.fs.sbi.FreeSet(Inodes) == old(v.fs.sbi.FreeSet(Inodes))
    ensures r == null <==> name == [] || Target(v.tree, dir.ino, name) == 0 || oom
    ensures oom <==> !memory && name != [] && Target(v.tree, dir.ino, name) != 0
                     && forall i :: i in old(v.icache) ==> i.ino != Target(v.tree, dir.ino, name)
    ensures r != null ==> r.ino == Target(v.tree, dir.ino, name) && r in v.icache
    ensures forall x :: v.Refs(x) == old(v.Refs(x)) + if r != null && x == r.ino then 1 else 0
    ensures forall i :: i in old(v.icache) && i != r ==> unchanged(i)
    ensures if r != null && r !in old(v.icache) then fresh(r) && !r.dirty
            && v.icache == [r] + old(v.icache) else v.icache == old(v.icache)
  {
    hide SbInfo.Valid; hide SbInfo.FreeSet; hide Ext2.Valid; hide Vfs.CacheOk; hide Vfs.Meaning;
    hide BlockCache.Pinned; hide Vfs.Refs; hide DirOk; hide Leading; hide Shows; hide IsDir;
    oom := false;
    if dir.kind != Dir {
      NotDir(v, dir);
      return null, oom;
    }
    if name == [] {
      return null, oom;
    }
    DirFacts(v, dir);
    var ino := FindEntry(v.fs, dir, name);
    OnlyRead(v);
    if ino == 0 {
      return null, oom;
    }
    r, oom := v.Iget(ino, memory);
  }

  /** One cached inode changed, and the current metadata with it.  s, disk and meta are what was before. */
  lemma InodeChanged(v: Vfs, inode: Inode, s: seq<Cached>, disk: nat -> Meta, meta: map<nat, Meta>)
    requires Coherent(s, disk, meta) && v.icacheSize == |v.icache| && v.root in v.icache && inode in v.icache
    requires |s| == |v.icache| && forall j :: 0 <= j < |s| ==>
             s[j].ino == v.icache[j].ino && (v.icache[j] != inode ==> s[j] == v.icache[j].Snapshot())
    requires inode.kind == TypeOf(inode.mode) && inode.valid && inode.ref == RefIn(s, inode.ino)
    requires v.meta == meta[inode.ino := inode.Fields()]
    requires forall f :: f in meta && f != inode.ino ==> v.Disk()(f) == disk(f)
    requires !inode.dirty ==> v.Disk()(inode.ino) == inode.Fields()
    ensures v.CacheOk() && forall x :: v.Refs(x) == RefIn(s, x)
  {
    hide Coherent; hide DiskOf; hide Snaps; hide RefIn; hide TypeOf; hide Vfs.Disk; hide OnePerNumber; hide InStep;
    var k :| 0 <= k < |v.icache| && v.icache[k] == inode;
    CoherentFacts(s, disk, meta);
    SnapsUpdate(v.icache, k, s);
    ChangeKeeps(s, disk, v.Disk(), meta, k, inode.Snapshot());
    forall x ensures v.Refs(x) == RefIn(s, x) {
      RefUpdate(s, k, inode.Snapshot(), x);
    }
  }

  /** A mounted file system at one moment, as a value. */
  datatype World = World(L: seq<Block>, files: map<nat, Ptrs>, free: set<nat>, meta: map<nat, Meta>, tree: Dirs,
                         cached: seq<Cached>, disk: nat -> Meta)

  ghost predicate WorldOk(w: World) {
    MetaOk(w.files, w.meta, w.free) && TreeOk(w.L, w.meta, w.tree) && LinksOk(w.meta, w.tree)
      && Coherent(w.cached, w.disk, w.meta)
  }

  /** The current state as a value. */
  ghost function Before(v: Vfs): (w: World)
    requires v.Sound()
    reads v, v.icache, v.fs, v.fs.sbi, v.fs.sbi.gb, v.fs.sbi.cache, v.fs.sbi.cache.slots, v.fs.sbi.cache.disk
    ensures WorldOk(w) && OnePerNumber(w.cached)
    ensures w.L == v.fs.sbi.cache.L && w.files == v.fs.files && w.free == v.fs.sbi.FreeSet(Inodes) && w.meta == v.meta
            && w.tree == v.tree
    ensures w.cached == Snaps(v.icache) && w.disk == v.Disk()
  {
    hide SbInfo.Valid; hide SbInfo.FreeSet; hide Ext2.Valid; hide MetaOk; hide TreeOk; hide LinksOk; hide InStep;
    hide Vfs.Disk; hide Snaps;
    MountedValid(v.fs);
    World(v.fs.sbi.cache.L, v.fs.files, v.fs.sbi.FreeSet(Inodes), v.meta, v.tree, Snaps(v.icache), v.Disk())
  }

  /** The cache is as it was, but for the contents of one inode. */
  ghost predicate CacheBut(v: Vfs, inode: Inode, cached: seq<Cached>)
    reads v, v.icache
  {
    && v.icacheSize == |v.icache| && v.root in v.icache && inode in v.icache && |cached| == |v.icache|
    && (forall j :: 0 <= j < |v.icache| ==>
       cached[j].ino == v.icache[j].ino && (v.icache[j] != inode ==> cached[j] == v.icache[j].Snapshot()))
    && inode.kind == TypeOf(inode.mode) && inode.valid && inode.ref == RefIn(cached, inode.ino)
  }

  /** The state before a change to one file, as a value, and what is known of that file then. */
  lemma Begin(v: Vfs, inode: Inode) returns (w: World)
    requires v.Valid() && inode in v.icache
    ensures WorldOk(w) && CacheBut(v, inode, w.cached)
    ensures w.L == v.fs.sbi.cache.L && w.files == v.fs.files && w.free == v.fs.sbi.FreeSet(Inodes) && w.meta == v.meta
            && w.tree == v.tree && w.disk == v.Disk()
    ensures forall x :: v.Refs(x) == RefIn(w.cached, x)
    ensures inode.ino in w.meta && w.meta[inode.ino] == inode.Fields() && inode.ino in w.files && inode.valid
    ensures forall f :: f in w.meta ==> ValidIno(v.fs.sbi.geo, f)
  {
    hide SbInfo.Valid; hide SbInfo.FreeSet; hide Ext2.Valid; hide BlockCache.Pinned; hide RefIn; hide TypeOf;
    hide Vfs.CacheOk; hide Vfs.Meaning; hide Vfs.Disk; hide Before; hide WorldOk; hide OnePerNumber;
    v.NumbersValid();
    v.InCache(inode);
    v.DistinctCache();
    w := Before(v);
  }

  /** Only the contents of the cache's inode k changed, and neither its type nor its references. */
  twostate lemma StillBut(v: Vfs, new k: nat, new cached: seq<Cached>)
    requires k < |v.icache| && v.icache == old(v.icache) && v.icacheSize == old(v.icacheSize)
    requires old(CacheBut(v, v.icache[k], cached))
    requires forall i :: i in v.icache && i != v.icache[k] ==> unchanged(i)
    requires var i := v.icache[k];
             i.kind == old(i.kind) && i.mode == old(i.mode) && i.valid && i.ref == old(i.ref)
    ensures CacheBut(v, v.icache[k], cached)
  {
    hide RefIn; hide TypeOf;
    forall j | 0 <= j < |v.icache| && v.icache[j] != v.icache[k] ensures cached[j] == v.icache[j].Snapshot() {
      assert v.icache[j] in v.icache;
      assert cached[j] == old(v.icache[j].Snapshot());
    }
  }

  /** ext2_dir_add_entry on a mounted file system: one more name, for a file that has a link to spare. */
  method AddName(v: Vfs, dir: Inode, name: Name, ino: u32, fileType: u8) returns (ok: bool)
    requires v.Valid() && dir in v.icache && dir.kind == Dir && |v.fs.sbi.cache.pins| + 1 < NBLKNUM
    requires 0 < |name| < 256 && Target(v.tree, dir.ino, name) == 0 && dir.size + BLKSZ <= MAX_DIR
    requires ino in v.meta && |Links(v.tree, ino)| < v.meta[ino].nlinks && ino != dir.ino
    modifies v`meta, v`tree, v.fs, dir`iBlock, dir`dirty, dir`size, v.fs.sbi.cache, v.fs.sbi.cache.slots,
             v.fs.sbi.cache.disk`sectors, v.fs.sbi.gb
    ensures v.Valid() && v.fs.sbi.cache.pins == old(v.fs.sbi.cache.pins)
    ensures forall i, x :: old(v.fs.sbi.cache.Pinned(i, x)) ==> v.fs.sbi.cache.Pinned(i, x)
    ensures v.fs.sbi.FreeSet(Inodes) == old(v.fs.sbi.FreeSet(Inodes))
    ensures ok && dir.ino in old(v.tree) ==> v.tree == Bound(old(v.tree), dir.ino, name, ino)
    ensures !ok ==> v.tree == old(v.tree) && v.fs.sbi.FreeSet(Blocks) == {}
    ensures v.meta == old(v.meta)[dir.ino := dir.Fields()] && v.fs.files == old(v.fs.files)[dir.ino := dir.iBlock]
    ensures OthersSame(old(v.fs.sbi.cache.L), old(v.fs.files), v.fs.sbi.cache.L, v.fs.files, dir.ino)
    ensures forall x :: v.Refs(x) == old(v.Refs(x))
  {
    hide SbInfo.Valid; hide SbInfo.FreeSet; hide Ext2.Valid; hide MetaOk; hide TreeOk; hide LinksOk;
    hide BlockCache.Pinned; hide Coherent; hide Snaps; hide RefIn; hide DiskOf; hide TypeOf; hide Truncated;
    hide DirOk; hide Shows; hide Links; hide OthersSame; hide RoomIn; hide Content; hide IsDir; hide Leading;
    hide Ext2.Synced; hide DiskMeta; hide Ext2.Image;
    hide Vfs.CacheOk; hide Vfs.Meaning; hide Vfs.Disk; hide WorldOk; hide InodesOk; hide CacheBut; hide Vfs.Sound;
    hide GeometryOk; hide NBlocks; hide SbInfo.InUse; hide Vfs.Refs;
    DirFacts(v, dir);
    ghost var w := Begin(v, dir);
    ghost var k :| 0 <= k < |v.icache| && v.icache[k] == dir;
    v.Mounted();
    CleanIsSynced(v, dir);
    ok := AddEntry(v.fs, dir, name, ino, fileType);
    v.OthersOnDisk(dir.ino);
    StillBut(v, k, w.cached);
    RecordAdded(v, dir, w, ok, name, ino);
  }

  /** What AddEntry did, recorded in the meaning of the file system. */
  ghost method RecordAdded(v: Vfs, dir: Inode, w: World, ok: bool, name: Name, ino: nat)
    requires v.fs.Valid() && WorldOk(w) && CacheBut(v, dir, w.cached) && dir.ino in w.tree && dir.ino in w.meta
             && ValidIno(v.fs.sbi.geo, dir.ino)
    requires v.fs.sbi.FreeSet(Inodes) == w.free && v.fs.files == w.files[dir.ino := dir.iBlock]
    requires v.meta == w.meta && v.tree == w.tree
             && dir.Fields().(size := w.meta[dir.ino].size, iBlock := w.meta[dir.ino].iBlock) == w.meta[dir.ino]
    requires OthersSame(w.L, w.files, v.fs.sbi.cache.L, v.fs.files, dir.ino)
    requires ino != 0 && ino in w.meta && ino != dir.ino && |Links(w.tree, ino)| < w.meta[ino].nlinks
             && name !in w.tree[dir.ino]
    requires forall n :: n in w.tree[dir.ino] ==> w.tree[dir.ino][n] != 0
    requires IsDir(v.fs, dir) && forall n ::
             Leading(v.fs, dir, n) == if ok && n == name then ino else Target(w.tree, dir.ino, n)
    requires forall f :: f in w.meta && f != dir.ino ==> v.Disk()(f) == w.disk(f)
    requires !dir.dirty ==> v.fs.Synced(dir)
    modifies v`meta, v`tree
    ensures v.Sound() && forall x :: v.Refs(x) == RefIn(w.cached, x)
    ensures v.meta == w.meta[dir.ino := dir.Fields()]
            && v.tree == if ok then Bound(w.tree, dir.ino, name, ino) else w.tree
  {
    hide SbInfo.Valid; hide SbInfo.FreeSet; hide Ext2.Valid; hide MetaOk; hide TreeOk; hide LinksOk; hide Coherent;
    hide Snaps; hide RefIn; hide TypeOf; hide Truncated; hide Shows; hide OthersSame; hide Vfs.Disk;
    hide Links; hide Ext2.Synced; hide IsDir; hide Leading; hide Vfs.Sound; hide Vfs.Refs;
    v.meta := w.meta[dir.ino := dir.Fields()];
    v.tree := if ok then Bound(w.tree, dir.ino, name, ino) else w.tree;
    FieldsFit(w.files, w.meta, w.free, dir.ino);
    if ok {
      AddLink(w.meta, w.tree, dir.ino, name, ino);
    }
    StillFits(w.meta[dir.ino], dir.Fields());
    SyncedIsClean(v, dir);
    ShowsDir(v, dir, v.tree[dir.ino]);
    SameLinkCount(w.meta, v.tree, dir.ino, dir.Fields());
    Absorbed(v, dir, w);
  }

  /** One file and its cached inode changed in step: the file system is in order again. */
  lemma Absorbed(v: Vfs, inode: Inode, w: World)
    requires v.fs.Valid() && WorldOk(w) && CacheBut(v, inode, w.cached) && inode.ino in w.files
    requires v.fs.sbi.FreeSet(Inodes) == w.free && v.fs.files == w.files[inode.ino := inode.iBlock]
    requires v.meta == w.meta[inode.ino := inode.Fields()] && TypeOf(inode.mode) == TypeOf(w.meta[inode.ino].mode)
    requires Truncated(inode.Fields()) == inode.Fields()
    requires OthersSame(w.L, w.files, v.fs.sbi.cache.L, v.fs.files, inode.ino)
    requires v.tree.Keys == w.tree.Keys && forall d :: d in v.tree && d != inode.ino ==> v.tree[d] == w.tree[d]
    requires inode.ino in v.tree ==> Shows(v.fs.sbi.cache.L, inode.Fields(), v.tree[inode.ino])
    requires LinksOk(v.meta, v.tree)
    requires forall f :: f in w.meta && f != inode.ino ==> v.Disk()(f) == w.disk(f)
    requires !inode.dirty ==> v.Disk()(inode.ino) == inode.Fields()
    ensures v.Sound() && forall x :: v.Refs(x) == RefIn(w.cached, x)
  {
    hide SbInfo.Valid; hide SbInfo.FreeSet; hide Ext2.Valid; hide MetaOk; hide TreeOk; hide LinksOk; hide Coherent;
    hide Snaps; hide RefIn; hide TypeOf; hide Truncated; hide Shows; hide OthersSame; hide Vfs.Disk;
    var f, L' := inode.ino, v.fs.sbi.cache.L;
    var names := if f in v.tree then v.tree[f] else map[];
    FileChanged(w.L, w.files, L', v.fs.files, w.meta, w.tree, w.free, f, inode.Fields(), names);
    if f in v.tree {
      assert w.tree[f := names] == v.tree;
    } else {
      assert w.tree == v.tree;
    }
    InodeChanged(v, inode, w.cached, w.disk, w.meta);
  }

  lemma StillFits(m: Meta, m': Meta)
    requires Truncated(m) == m && m'.(size := m.size, iBlock := m.iBlock) == m
    ensures Truncated(m') == m'
  {
  }

  lemma SameLinkCount(meta: map<nat, Meta>, tree: Dirs, f: nat, m: Meta)
    requires LinksOk(meta, tree) && f in meta && m.nlinks == meta[f].nlinks
    ensures LinksOk(meta[f := m], tree)
  {
    hide Links;
    Relinked(meta, tree, f, m);
  }

  lemma ShowsDir(v: Vfs, dir: Inode, names: map<Name, nat>)
    requires IsDir(v.fs, dir) && forall n :: Leading(v.fs, dir, n) == if n in names then names[n] else 0
    requires forall n :: n in names ==> names[n] != 0
    ensures Shows(v.fs.sbi.cache.L, dir.Fields(), names)
  {
    hide DirOk; hide DirLookup;
  }

  lemma CleanIsSynced(v: Vfs, inode: Inode)
    requires v.Sound() && inode in v.icache
    ensures ValidIno(v.fs.sbi.geo, inode.ino) && (!inode.dirty ==> v.fs.Synced(inode))
  {
    hide SbInfo.Valid; hide SbInfo.FreeSet; hide Ext2.Valid; hide TreeOk; hide LinksOk; hide Truncated; hide Decode;
    hide ImageAt; hide Vfs.CacheOk; hide DiskMeta;
    v.InCache(inode);
    v.NumberIsValid(inode.ino);
    DiskImage(v.fs, inode.ino);
  }

  lemma SyncedIsClean(v: Vfs, inode: Inode)
    requires v.fs.Valid() && ValidIno(v.fs.sbi.geo, inode.ino) && Truncated(inode.Fields()) == inode.Fields()
    ensures v.fs.Synced(inode) ==> v.Disk()(inode.ino) == inode.Fields()
  {
    hide SbInfo.Valid; hide Ext2.Valid; hide Truncated; hide Decode; hide ImageAt; hide DiskMeta;
    DiskImage(v.fs, inode.ino);
  }

  /** The directory half of ext2_unlink on a mounted file system: one name goes, and its target has a link to lose. */
  method RemoveName(v: Vfs, dir: Inode, name: Name) returns (ino: u32)
    requires v.Valid() && dir in v.icache && dir.kind == Dir && |v.fs.sbi.cache.pins| + 1 < NBLKNUM && 0 < |name| < 256
    modifies v`meta, v`tree, v.fs, dir`iBlock, dir`dirty, v.fs.sbi.cache, v.fs.sbi.cache.slots,
             v.fs.sbi.cache.disk`sectors, v.fs.sbi.gb
    ensures v.Valid() && v.fs.sbi.cache.pins == old(v.fs.sbi.cache.pins)
    ensures forall i, x :: old(v.fs.sbi.cache.Pinned(i, x)) ==> v.fs.sbi.cache.Pinned(i, x)
    ensures v.fs.sbi.FreeSet(Inodes) == old(v.fs.sbi.FreeSet(Inodes))
    ensures ino == old(Target(v.tree, dir.ino, name))
    ensures dir.ino in old(v.tree) && v.tree == if ino != 0 then Unbound(old(v.tree), dir.ino, name) else old(v.tree)
    ensures v.meta == old(v.meta)[dir.ino := dir.Fields()] && v.fs.files == old(v.fs.files)[dir.ino := dir.iBlock]
    ensures OthersSame(old(v.fs.sbi.cache.L), old(v.fs.files), v.fs.sbi.cache.L, v.fs.files, dir.ino)
    ensures ino != 0 ==> ino in v.meta && |Links(v.tree, ino)| + 1 <= v.meta[ino].nlinks
    ensures forall x :: v.Refs(x) == old(v.Refs(x))
  {
    hide SbInfo.Valid; hide SbInfo.FreeSet; hide Ext2.Valid; hide MetaOk; hide TreeOk; hide LinksOk;
    hide BlockCache.Pinned; hide Coherent; hide Snaps; hide RefIn; hide DiskOf; hide TypeOf; hide Truncated;
    hide DirOk; hide Shows; hide Links; hide OthersSame; hide Content; hide IsDir; hide Leading; hide Ext2.Synced;
    hide DiskMeta; hide Ext2.Image;
    hide Vfs.CacheOk; hide Vfs.Meaning; hide Vfs.Disk; hide WorldOk; hide InodesOk; hide CacheBut; hide Vfs.Sound;
    hide GeometryOk; hide NBlocks; hide SbInfo.InUse; hide Vfs.Refs;
    DirFacts(v, dir);
    ghost var w := Begin(v, dir);
    ghost var k :| 0 <= k < |v.icache| && v.icache[k] == dir;
    v.Mounted();
    CleanIsSynced(v, dir);
    ino := RemoveEntry(v.fs, dir, name);
    v.OthersOnDisk(dir.ino);
    StillBut(v, k, w.cached);
    RecordRemoved(v, dir, w, name, ino);
  }

  ghost method RecordRemoved(v: Vfs, dir: Inode, w: World, name: Name, ino: nat)
    requires v.fs.Valid() && WorldOk(w) && CacheBut(v, dir, w.cached) && dir.ino in w.tree && dir.ino in w.meta
             && ValidIno(v.fs.sbi.geo, dir.ino)
    requires v.fs.sbi.FreeSet(Inodes) == w.free && v.fs.files == w.files[dir.ino := dir.iBlock]
    requires v.meta == w.meta && v.tree == w.tree
             && dir.Fields().(size := w.meta[dir.ino].size, iBlock := w.meta[dir.ino].iBlock) == w.meta[dir.ino]
    requires OthersSame(w.L, w.files, v.fs.sbi.cache.L, v.fs.files, dir.ino)
    requires ino == Target(w.tree, dir.ino, name)
    requires forall n :: n in w.tree[dir.ino] ==> w.tree[dir.ino][n] != 0
    requires IsDir(v.fs, dir) && forall n ::
             Leading(v.fs, dir, n) == if n == name then 0 else Target(w.tree, dir.ino, n)
    requires forall f :: f in w.meta && f != dir.ino ==> v.Disk()(f) == w.disk(f)
    requires !dir.dirty ==> v.fs.Synced(dir)
    modifies v`meta, v`tree
    ensures v.Sound() && forall x :: v.Refs(x) == RefIn(w.cached, x)
    ensures v.meta == w.meta[dir.ino := dir.Fields()]
            && v.tree == if ino != 0 then Unbound(w.tree, dir.ino, name) else w.tree
    ensures ino != 0 ==> ino in v.meta && |Links(v.tree, ino)| + 1 <= v.meta[ino].nlinks
  {
    hide SbInfo.Valid; hide SbInfo.FreeSet; hide Ext2.Valid; hide MetaOk; hide TreeOk; hide LinksOk; hide Coherent;
    hide Snaps; hide RefIn; hide TypeOf; hide Truncated; hide Shows; hide OthersSame; hide Vfs.Disk;
    hide Links; hide Ext2.Synced; hide IsDir; hide Leading; hide Vfs.Sound; hide Vfs.Refs;
    v.meta := w.meta[dir.ino := dir.Fields()];
    v.tree := if ino != 0 then Unbound(w.tree, dir.ino, name) else w.tree;
    FieldsFit(w.files, w.meta, w.free, dir.ino);
    if ino != 0 {
      TargetInUse(w.meta, w.tree, dir.ino, name);
      RemoveLink(w.meta, w.tree, dir.ino, name);
    }
    StillFits(w.meta[dir.ino], dir.Fields());
    SyncedIsClean(v, dir);
    ShowsDir(v, dir, v.tree[dir.ino]);
    SameLinkCount(w.meta, v.tree, dir.ino, dir.Fields());
    Absorbed(v, dir, w);
  }

  lemma TargetInUse(meta: map<nat, Meta>, tree: Dirs, d: nat, n: Name)
    requires LinksOk(meta, tree) && Target(tree, d, n) != 0
    ensures Target(tree, d, n) in meta
  {
    hide Links;
  }

  /** The new inode of ext2_create: the lowest free number, an empty regular file with one link and no name yet. */
  method NewFile(v: Vfs, mode: u32) returns (ino: u32)
    requires v.Valid() && |v.fs.sbi.cache.pins| < NBLKNUM
    modifies v`meta, v.fs, v.fs.sbi.cache, v.fs.sbi.cache.slots, v.fs.sbi.cache.disk`sectors, v.fs.sbi.gb
    ensures v.Valid() && v.fs.sbi.cache.pins == old(v.fs.sbi.cache.pins)
    ensures forall i, x :: old(v.fs.sbi.cache.Pinned(i, x)) ==> v.fs.sbi.cache.Pinned(i, x)
    ensures v.fs.sbi.FreeSet(Blocks) == old(v.fs.sbi.FreeSet(Blocks))
    ensures ino == 0 <==> old(v.fs.sbi.FreeSet(Inodes)) == {}
    ensures ino == 0 ==>
            && v.meta == old(v.meta) && v.fs.sbi.FreeSet(Inodes) == old(v.fs.sbi.FreeSet(Inodes))
            && v.fs.files == old(v.fs.files)
    ensures ino != 0 ==> v.meta == old(v.meta)[ino := NewMeta(mode)] && ino !in old(v.meta) && Links(v.tree, ino) == {}
                         && ino !in v.tree && (forall i :: i in v.icache ==> i.ino != ino)
                         && ino !in old(v.fs.files) && v.fs.files == old(v.fs.files)[ino := NO_BLOCKS]
                         && old(v.fs.sbi.IsFreeInode(ino))
                            && v.fs.sbi.FreeSet(Inodes) == old(v.fs.sbi.FreeSet(Inodes)) - {ino - 1}
                         && forall x :: 0 <= x < ino ==> !old(v.fs.sbi.IsFreeInode(x))
    ensures SameViews(old(v.fs.sbi.cache.L), old(v.fs.files), v.fs.sbi.cache.L, old(v.fs.files))
    ensures forall x :: v.Refs(x) == old(v.Refs(x))
  {
    hide SbInfo.Valid; hide SbInfo.FreeSet; hide MetaOk; hide TreeOk; hide LinksOk; hide BlockCache.Pinned;
    hide Coherent; hide Snaps; hide RefIn; hide DiskOf; hide TypeOf; hide Truncated;
    hide Links; hide SameViews; hide DiskMeta; hide ImageAt; hide Decode; hide NewMeta; hide Trees;
    hide SbInfo.InUse; hide Before; hide WorldOk; hide InodesOk; hide OnePerNumber; hide Vfs.Meaning; hide Vfs.Disk;
    hide Ext2.Valid;
    v.NumbersValid();
    ghost var w := Before(v);
    v.DistinctCache();
    Domains(v);
    MountedValid(v.fs);
    v.fs.sbi.InodeNumbers();
    ino := NewInode(v.fs, mode);
    v.OthersOnDisk(ino);
    if ino == 0 {
      NothingChanged(v, w);
    } else {
      RecordNew(v, w, ino, mode);
    }
  }

  /** The cache is exactly as it was in w. */
  ghost predicate CacheAs(v: Vfs, w: World)
    reads v, v.icache
  {
    v.icacheSize == |v.icache| && v.root in v.icache && Snaps(v.icache) == w.cached
  }

  /** Nothing a file or an inode image shows has changed, nor has the cache. */
  lemma NothingChanged(v: Vfs, w: World)
    requires v.fs.Valid() && WorldOk(w) && CacheAs(v, w) && v.fs.files == w.files && v.meta == w.meta
             && v.tree == w.tree
    requires v.fs.sbi.FreeSet(Inodes) <= w.free && SameViews(w.L, w.files, v.fs.sbi.cache.L, w.files)
    requires forall f :: f in w.meta ==> v.Disk()(f) == w.disk(f)
    ensures v.Sound() && forall x :: v.Refs(x) == RefIn(w.cached, x)
  {
    hide SbInfo.Valid; hide SbInfo.FreeSet; hide Ext2.Valid; hide MetaOk; hide TreeOk; hide LinksOk; hide Snaps;
    hide RefIn; hide SameViews; hide Vfs.Disk; hide OnePerNumber;
    MountedValid(v.fs);
    NothingRead(w.L, v.fs.sbi.cache.L, w.files, w.meta, w.tree, w.free, v.fs.sbi.FreeSet(Inodes));
  }

  ghost method RecordNew(v: Vfs, w: World, ino: nat, mode: u32)
    requires v.fs.Valid() && WorldOk(w) && CacheAs(v, w) && v.fs.files == w.files && v.meta == w.meta
             && v.tree == w.tree
    requires ino > 0 && ValidIno(v.fs.sbi.geo, ino) && ino - 1 in w.free
             && v.fs.sbi.FreeSet(Inodes) == w.free - {ino - 1}
    requires SameViews(w.L, w.files, v.fs.sbi.cache.L, w.files)
    requires Decode(v.fs.Image(ino)) == NewMeta(mode)
    requires forall f :: f in w.meta && f != ino ==> v.Disk()(f) == w.disk(f)
    modifies v`meta, v.fs`files
    ensures v.Sound() && ino !in w.meta && Links(v.tree, ino) == {} && forall x :: v.Refs(x) == RefIn(w.cached, x)
    ensures v.meta == w.meta[ino := NewMeta(mode)] && ino !in w.files && v.fs.files == w.files[ino := NO_BLOCKS]
  {
    hide SbInfo.Valid; hide SbInfo.FreeSet; hide SbInfo.InUse; hide MetaOk; hide TreeOk; hide LinksOk; hide Links;
    hide Coherent; hide Snaps; hide RefIn; hide SameViews; hide DiskOf; hide Trees;
    hide Decode; hide NewMeta; hide Truncated; hide TypeOf; hide ImageAt; hide DiskMeta;
    NewImageDecodes(mode, GOOD_OLD_INODE_SIZE);
    ghost var L', m := v.fs.sbi.cache.L, NewMeta(mode);
    FileAdded(w.L, L', w.files, w.meta, w.tree, w.free, v.fs.sbi.FreeSet(Inodes), ino, m);
    NoFileThere(w.files, w.meta, w.free, ino);
    AddEmptyFile(L', w.files, v.fs.sbi.InUse(), ino);
    DiskImage(v.fs, ino);
    NewFileKeeps(w.cached, w.disk, v.Disk(), w.meta, ino);
    v.fs.files := w.files[ino := NO_BLOCKS];
    v.meta := w.meta[ino := m];
  }

  lemma NoFileThere(files: map<nat, Ptrs>, meta: map<nat, Meta>, free: set<nat>, f: nat)
    requires MetaOk(files, meta, free) && f !in meta
    ensures f !in files
  {
    hide Truncated;
  }

  /** The failure of ext2_create: free_inode for the file that got no name. */
  method ForgetFile(v: Vfs, ino: nat)
    requires v.Valid() && |v.fs.sbi.cache.pins| < NBLKNUM && ino in v.meta
             && (forall i :: i in v.icache ==> i.ino != ino)
    requires v.fs.files[ino] == NO_BLOCKS && Links(v.tree, ino) == {} && ino !in v.tree
    modifies v`meta, v.fs, v.fs.sbi.cache, v.fs.sbi.cache.slots, v.fs.sbi.cache.disk`sectors, v.fs.sbi.gb
    ensures v.Valid() && v.fs.sbi.cache.pins == old(v.fs.sbi.cache.pins)
    ensures forall i, x :: old(v.fs.sbi.cache.Pinned(i, x)) ==> v.fs.sbi.cache.Pinned(i, x)
    ensures v.fs.sbi.FreeSet(Blocks) == old(v.fs.sbi.FreeSet(Blocks))
            && v.fs.sbi.FreeSet(Inodes) == old(v.fs.sbi.FreeSet(Inodes)) + {ino - 1}
    ensures v.meta == old(v.meta) - {ino} && v.fs.files == old(v.fs.files) - {ino}
    ensures SameViews(old(v.fs.sbi.cache.L), v.fs.files, v.fs.sbi.cache.L, v.fs.files)
    ensures forall x :: v.Refs(x) == old(v.Refs(x))
  {
    hide SbInfo.Valid; hide SbInfo.FreeSet; hide MetaOk; hide TreeOk; hide LinksOk; hide BlockCache.Pinned;
    hide Coherent; hide Snaps; hide RefIn; hide DiskOf; hide TypeOf; hide Truncated;
    hide Links; hide SameViews; hide DiskMeta; hide ImageAt; hide Decode; hide NewMeta; hide Trees; hide SbInfo.InUse;
    v.NumbersValid();
    ghost var w := Before(v);
    v.DistinctCache();
    FieldsFit(w.files, w.meta, w.free, ino);
    NotCached(v.icache, w.cached, ino);
    GiveInode(v.fs, ino);
    v.OthersOnDisk(ino);
    RecordGone(v, w, ino);
  }

  ghost method RecordGone(v: Vfs, w: World, ino: nat)
    requires v.fs.Valid() && WorldOk(w) && CacheAs(v, w) && v.fs.files == w.files && v.meta == w.meta
             && v.tree == w.tree
    requires ino > 0 && ino in w.meta && v.fs.sbi.FreeSet(Inodes) == w.free + {ino - 1}
    requires ino in w.files && w.files[ino] == NO_BLOCKS && Links(w.tree, ino) == {} && ino !in w.tree
             && ino !in Inos(w.cached)
    requires SameViews(w.L, w.files, v.fs.sbi.cache.L, w.files)
    requires forall f :: f in w.meta && f != ino ==> v.Disk()(f) == w.disk(f)
    modifies v`meta, v.fs`files
    ensures v.Sound() && forall x :: v.Refs(x) == RefIn(w.cached, x)
    ensures v.meta == w.meta - {ino} && v.fs.files == w.files - {ino}
    ensures SameViews(w.L, v.fs.files, v.fs.sbi.cache.L, v.fs.files)
  {
    hide SbInfo.Valid; hide SbInfo.FreeSet; hide SbInfo.InUse; hide MetaOk; hide TreeOk; hide LinksOk; hide Links;
    hide Coherent; hide Snaps; hide RefIn; hide SameViews; hide DiskOf; hide Trees;
    hide Decode; hide Truncated; hide TypeOf; hide ImageAt; hide DiskMeta; hide Inos;
    FewerViews(w.L, w.files, v.fs.sbi.cache.L, ino);
    FileGone(w.L, v.fs.sbi.cache.L, w.files, w.meta, w.tree, w.free, ino);
    DropEmptyFile(v.fs.sbi.cache.L, w.files, v.fs.sbi.InUse(), ino);
    UncachedGone(w.cached, w.disk, v.Disk(), w.meta, ino);
    assert w.tree - {ino} == w.tree;
    v.fs.files := w.files - {ino};
    v.meta := w.meta - {ino};
  }

  lemma FewerViews(L: seq<Block>, files: map<nat, Ptrs>, L': seq<Block>, f: nat)
    requires SameViews(L, files, L', files)
    ensures SameViews(L, files - {f}, L', files - {f})
  {
    hide FileBlock;
  }

  /** The naming step of ext2_create: the new file gets its name, or is forgotten again. */
  method NameNew(v: Vfs, dir: Inode, name: Name, ino: u32) returns (ok: bool)
    requires v.Valid() && dir in v.icache && dir.kind == Dir && |v.fs.sbi.cache.pins| + 1 < NBLKNUM
    requires 0 < |name| < 256 && Target(v.tree, dir.ino, name) == 0 && dir.size + BLKSZ <= MAX_DIR
    requires ino in v.meta && v.meta[ino].nlinks == 1 && Links(v.tree, ino) == {}
             && (forall i :: i in v.icache ==> i.ino != ino)
    requires ino in v.fs.files && v.fs.files[ino] == NO_BLOCKS && ino !in v.tree
    modifies v`meta, v`tree, v.fs, dir`iBlock, dir`dirty, dir`size, v.fs.sbi.cache, v.fs.sbi.cache.slots,
             v.fs.sbi.cache.disk`sectors, v.fs.sbi.gb
    ensures v.Valid() && v.fs.sbi.cache.pins == old(v.fs.sbi.cache.pins)
    ensures forall i, x :: old(v.fs.sbi.cache.Pinned(i, x)) ==> v.fs.sbi.cache.Pinned(i, x)
    ensures ok ==>
            && dir.ino in old(v.tree) && v.tree == Bound(old(v.tree), dir.ino, name, ino)
            && v.meta == old(v.meta)[dir.ino := dir.Fields()]
            && v.fs.sbi.FreeSet(Inodes) == old(v.fs.sbi.FreeSet(Inodes))
    ensures !ok ==>
            && v.tree == old(v.tree) && v.fs.sbi.FreeSet(Blocks) == {}
            && v.meta == old(v.meta)[dir.ino := dir.Fields()] - {ino}
            && v.fs.sbi.FreeSet(Inodes) == old(v.fs.sbi.FreeSet(Inodes)) + {ino - 1}
    ensures Undisturbed(old(v.fs.sbi.cache.L), old(v.fs.files) - {ino}, v.fs.sbi.cache.L, v.fs.files, dir.ino)
    ensures forall x :: v.Refs(x) == old(v.Refs(x))
  {
    hide SbInfo.Valid; hide SbInfo.FreeSet; hide Ext2.Valid; hide BlockCache.Pinned; hide Vfs.CacheOk;
    hide Vfs.Meaning; hide Vfs.Refs; hide SbInfo.InUse;
    hide Undisturbed; hide SameViews; hide OthersSame; hide Links; hide TypeOf; hide Truncated;
    ghost var L0, files0 := v.fs.sbi.cache.L, v.fs.files;
    DirFacts(v, dir);
    ok := AddName(v, dir, name, ino, 1);
    ghost var L1, files1 := v.fs.sbi.cache.L, v.fs.files;
    OthersUndisturbed(L0, files0, L1, files1, dir.ino);
    FewerUndisturbed(L0, files0, L1, files1, ino, dir.ino);
    if !ok {
      ForgetFile(v, ino);
      DroppedUndisturbed(L0, files0 - {ino}, L1, files1, v.fs.sbi.cache.L, ino, dir.ino);
    }
  }

  /** The part of ext2_create on disk: a new file under this name, or 0 and no inode number lost. */
  method MakeFile(v: Vfs, dir: Inode, name: Name, mode: u32) returns (ino: u32)
    requires v.Valid() && dir in v.icache && dir.kind == Dir && |v.fs.sbi.cache.pins| + 1 < NBLKNUM
    requires 0 < |name| < 256 && Target(v.tree, dir.ino, name) == 0 && dir.size + BLKSZ <= MAX_DIR
    modifies v`meta, v`tree, v.fs, dir`iBlock, dir`dirty, dir`size, v.fs.sbi.cache, v.fs.sbi.cache.slots,
             v.fs.sbi.cache.disk`sectors, v.fs.sbi.gb
    ensures v.Valid() && v.fs.sbi.cache.pins == old(v.fs.sbi.cache.pins)
    ensures forall i, x :: old(v.fs.sbi.cache.Pinned(i, x)) ==> v.fs.sbi.cache.Pinned(i, x)
    ensures ino == 0 ==>
              && v.tree == old(v.tree) && v.fs.sbi.FreeSet(Inodes) == old(v.fs.sbi.FreeSet(Inodes))
              && v.meta == old(v.meta)[dir.ino := dir.Fields()]
              && (old(v.fs.sbi.FreeSet(Inodes)) == {} || v.fs.sbi.FreeSet(Blocks) == {})
    ensures ino != 0 ==>
              && old(v.fs.sbi.IsFreeInode(ino)) && (forall x :: 0 <= x < ino ==> !old(v.fs.sbi.IsFreeInode(x)))
              && v.fs.sbi.FreeSet(Inodes) == old(v.fs.sbi.FreeSet(Inodes)) - {ino - 1}
              && dir.ino in old(v.tree) && v.tree == Bound(old(v.tree), dir.ino, name, ino)
              && v.meta == old(v.meta)[ino := NewMeta(mode)][dir.ino := dir.Fields()]
              && forall i :: i in v.icache ==> i.ino != ino
    ensures Undisturbed(old(v.fs.sbi.cache.L), old(v.fs.files), v.fs.sbi.cache.L, v.fs.files, dir.ino)
    ensures forall x :: v.Refs(x) == old(v.Refs(x))
  {
    hide SbInfo.Valid; hide SbInfo.FreeSet; hide Ext2.Valid; hide BlockCache.Pinned; hide Vfs.CacheOk;
    hide Vfs.Meaning; hide Vfs.Refs; hide SbInfo.InUse; hide Target;
    hide Undisturbed; hide SameViews; hide OthersSame; hide Links; hide TypeOf; hide Truncated; hide Vfs.Sound;
    DirMeta(v, dir);
    ghost var L0, files0, meta0, free0 := v.fs.sbi.cache.L, v.fs.files, v.meta, v.fs.sbi.FreeSet(Inodes);
    ino := NewFile(v, mode);
    ghost var L1 := v.fs.sbi.cache.L;
    SameUndisturbed(L0, files0, L1, dir.ino);
    if ino == 0 {
      return;
    }
    ghost var n := ino;
    AddedUndisturbed(L0, files0, L1, n, NO_BLOCKS, dir.ino);
    assert files0[n := NO_BLOCKS] - {n} == files0;
    var ok := NameNew(v, dir, name, ino);
    UndisturbedTwice(L0, files0, L1, files0, v.fs.sbi.cache.L, v.fs.files, dir.ino);
    if !ok {
      ino := 0;
      assert meta0[n := NewMeta(mode)][dir.ino := dir.Fields()] - {n} == meta0[dir.ino := dir.Fields()];
      assert free0 - {n - 1} + {n - 1} == free0;
    }
  }

  /** ext2_create, for a name that is not there.  With no free inode, or no room left for the name, nothing is
      named and no inode number is lost.  Otherwise (ino is then the number) the lowest free inode becomes an empty
      regular file with one link, the name leads to it, every other name leads where it led, and no other file
      reads differently; the result is its cached inode, or null when memory is short. */
  method Create(v: Vfs, dir: Inode, name: Name, mode: u32, memory: bool)
      returns (r: Inode?, ghost ino: nat, ghost oom: bool)
    requires v.Valid() && dir in v.icache && dir.kind == Dir && |v.fs.sbi.cache.pins| + 1 < NBLKNUM
    requires |name| < 256 && Target(v.tree, dir.ino, name) == 0 && dir.size + BLKSZ <= MAX_DIR
    modifies v, v.icache, v.fs, v.fs.sbi.cache, v.fs.sbi.cache.slots, v.fs.sbi.cache.disk`sectors, v.fs.sbi.gb
    ensures v.Valid() && v.fs.sbi.cache.pins == old(v.fs.sbi.cache.pins)
    ensures forall i, x :: old(v.fs.sbi.cache.Pinned(i, x)) ==> v.fs.sbi.cache.Pinned(i, x)
    ensures name == [] ==> ino == 0
    ensures ino == 0 ==>
              && r == null && v.tree == old(v.tree) && v.fs.sbi.FreeSet(Inodes) == old(v.fs.sbi.FreeSet(Inodes))
              && v.meta == old(v.meta)[dir.ino := dir.Fields()]
              && (name == [] || old(v.fs.sbi.FreeSet(Inodes)) == {} || v.fs.sbi.FreeSet(Blocks) == {})
    ensures ino != 0 ==>
              && old(v.fs.sbi.IsFreeInode(ino)) && (forall x :: 0 <= x < ino ==> !old(v.fs.sbi.IsFreeInode(x)))
              && v.fs.sbi.FreeSet(Inodes) == old(v.fs.sbi.FreeSet(Inodes)) - {ino - 1}
              && dir.ino in old(v.tree) && v.tree == Bound(old(v.tree), dir.ino, name, ino)
              && v.meta == old(v.meta)[ino := NewMeta(mode)][dir.ino := dir.Fields()]
              && (r == null <==> oom) && (oom <==> !memory) && (r != null ==> r.ino == ino && r in v.icache)
    ensures Undisturbed(old(v.fs.sbi.cache.L), old(v.fs.files), v.fs.sbi.cache.L, v.fs.files, dir.ino)
    ensures forall x :: v.Refs(x) == old(v.Refs(x)) + if r != null && x == r.ino then 1 else 0
  {
    hide SbInfo.Valid; hide SbInfo.FreeSet; hide Ext2.Valid; hide BlockCache.Pinned; hide Vfs.CacheOk;
    hide Vfs.Meaning; hide Vfs.Refs; hide SbInfo.InUse;
    hide Undisturbed; hide SameViews; hide OthersSame; hide Links; hide TypeOf; hide Truncated; hide Vfs.Sound;
    r, ino, oom := null, 0, false;
    DirMeta(v, dir);
    ghost var L0, files0, meta0, free0 := v.fs.sbi.cache.L, v.fs.files, v.meta, v.fs.sbi.FreeSet(Inodes);
    SelfUndisturbed(L0, files0, dir.ino);
    if name == [] {
      return;
    }
    var n := MakeFile(v, dir, name, mode);
    if n == 0 {
      return;
    }
    ino := n;
    r, oom := v.Iget(n, memory);
  }

  lemma DirMeta(v: Vfs, dir: Inode)
    requires v.Valid() && dir in v.icache
    ensures dir.ino in v.meta && v.meta[dir.ino := dir.Fields()] == v.meta && dir.ino in v.fs.files
    ensures v.fs.Valid() && v.fs.sbi.Valid()
  {
    hide SbInfo.Valid; hide SbInfo.FreeSet; hide Ext2.Valid; hide Vfs.CacheOk; hide Vfs.Meaning;
    v.InCache(dir);
    v.NumberIsValid(dir.ino);
    MountedValid(v.fs);
  }

  /** The link count falls, unless it is 0, and the inode is written. */
  method LowerLinks(v: Vfs, inode: Inode)
    requires v.fs.Valid() && inode.valid && inode.ino in v.meta && |v.fs.sbi.cache.pins| < NBLKNUM
    requires forall f :: f in v.meta ==> ValidIno(v.fs.sbi.geo, f)
    modifies inode`nlinks, inode`dirty, v.fs.sbi.cache, v.fs.sbi.cache.slots, v.fs.sbi.cache.disk`sectors
    ensures v.fs.Valid() && !inode.dirty && v.fs.sbi.cache.pins == old(v.fs.sbi.cache.pins)
    ensures inode.Fields() == old(inode.Fields()).(nlinks := inode.nlinks)
            && inode.nlinks == if old(inode.nlinks) > 0 then old(inode.nlinks) - 1 else 0
    ensures forall i, x :: old(v.fs.sbi.cache.Pinned(i, x)) ==> v.fs.sbi.cache.Pinned(i, x)
    ensures v.fs.sbi.FreeSet(Inodes) == old(v.fs.sbi.FreeSet(Inodes))
    ensures SameViews(old(v.fs.sbi.cache.L), v.fs.files, v.fs.sbi.cache.L, v.fs.files)
    ensures v.Disk()(inode.ino) == Truncated(inode.Fields())
    ensures forall f :: f in v.meta && f != inode.ino ==> v.Disk()(f) == old(v.Disk()(f))
  {
    hide SbInfo.Valid; hide SbInfo.FreeSet; hide SbInfo.InUse; hide Trees; hide Truncated; hide SameViews;
    hide BlockCache.Pinned; hide Vfs.Disk;
    if inode.nlinks > 0 {
      inode.nlinks := inode.nlinks - 1;
    }
    inode.dirty := true;
    v.WriteBack(inode);
  }

  /** nlinks-- and write_inode on the target of an entry that has just gone. */
  method DropLink(v: Vfs, victim: Inode)
    requires v.Valid() && victim in v.icache && |v.fs.sbi.cache.pins| < NBLKNUM
    requires |Links(v.tree, victim.ino)| + 1 <= victim.nlinks
    modifies v`meta, victim`nlinks, victim`dirty, v.fs.sbi.cache, v.fs.sbi.cache.slots, v.fs.sbi.cache.disk`sectors
    ensures v.Valid() && v.fs.sbi.cache.pins == old(v.fs.sbi.cache.pins)
    ensures forall i, x :: old(v.fs.sbi.cache.Pinned(i, x)) ==> v.fs.sbi.cache.Pinned(i, x)
    ensures v.fs.sbi.FreeSet(Inodes) == old(v.fs.sbi.FreeSet(Inodes))
    ensures victim.nlinks == old(victim.nlinks) - 1 && !victim.dirty
    ensures v.meta == old(v.meta)[victim.ino := victim.Fields()]
    ensures Kept(old(v.fs.sbi.cache.L), v.fs.files, v.fs.sbi.cache.L, v.fs.files)
    ensures forall x :: v.Refs(x) == old(v.Refs(x))
  {
    hide SbInfo.Valid; hide SbInfo.FreeSet; hide Ext2.Valid; hide BlockCache.Pinned; hide RefIn; hide TypeOf;
    hide Truncated; hide Links; hide SameViews; hide Kept; hide Vfs.Sound; hide Vfs.Disk; hide WorldOk; hide CacheBut;
    hide SbInfo.InUse; hide Vfs.Refs;
    ghost var w := Begin(v, victim);
    ghost var k :| 0 <= k < |v.icache| && v.icache[k] == victim;
    v.Mounted();
    LowerLinks(v, victim);
    StillBut(v, k, w.cached);
    KeptSame(w.L, w.files, v.fs.sbi.cache.L, v.fs.files);
    RecordDropped(v, victim, w);
  }

  ghost method RecordDropped(v: Vfs, victim: Inode, w: World)
    requires v.fs.Valid() && WorldOk(w) && CacheBut(v, victim, w.cached) && victim.ino in w.files
             && victim.ino in w.meta && ValidIno(v.fs.sbi.geo, victim.ino)
    requires v.fs.sbi.FreeSet(Inodes) == w.free && v.fs.files == w.files && v.meta == w.meta && v.tree == w.tree
    requires victim.Fields().(nlinks := w.meta[victim.ino].nlinks) == w.meta[victim.ino]
             && |Links(w.tree, victim.ino)| <= victim.nlinks < w.meta[victim.ino].nlinks
    requires SameViews(w.L, w.files, v.fs.sbi.cache.L, v.fs.files)
    requires forall f :: f in w.meta && f != victim.ino ==> v.Disk()(f) == w.disk(f)
    requires v.Disk()(victim.ino) == Truncated(victim.Fields())
    modifies v`meta
    ensures v.Sound() && forall x :: v.Refs(x) == RefIn(w.cached, x)
    ensures v.meta == w.meta[victim.ino := victim.Fields()]
  {
    hide SbInfo.Valid; hide SbInfo.FreeSet; hide Ext2.Valid; hide MetaOk; hide TreeOk; hide LinksOk; hide Coherent;
    hide Snaps; hide RefIn; hide TypeOf; hide Shows; hide OthersSame; hide Vfs.Disk; hide SameViews;
    hide Links; hide Ext2.Synced; hide Vfs.Sound; hide Vfs.Refs;
    var f := victim.ino;
    FieldsFit(w.files, w.meta, w.free, f);
    v.meta := w.meta[f := victim.Fields()];
    Relinked(w.meta, w.tree, f, victim.Fields());
    SameOthers(w.L, w.files, v.fs.sbi.cache.L, f);
    assert w.files[f := victim.iBlock] == w.files;
    if f in w.tree {
      StillShows(w, v.fs.sbi.cache.L, f, victim.Fields());
    }
    Absorbed(v, victim, w);
  }

  lemma SameOthers(L: seq<Block>, files: map<nat, Ptrs>, L': seq<Block>, f: nat)
    requires SameViews(L, files, L', files)
    ensures OthersSame(L, files, L', files, f)
  {
    hide FileBlock;
  }

  /** A directory whose blocks and size stay says what it said. */
  lemma StillShows(w: World, L': seq<Block>, d: nat, m: Meta)
    requires WorldOk(w) && d in w.tree && d in w.meta && SameViews(w.L, w.files, L', w.files)
    requires m.size == w.meta[d].size && m.iBlock == w.meta[d].iBlock
    ensures Shows(L', m, w.tree[d])
  {
    hide Shows; hide LinksOk; hide Coherent; hide FileBlock; hide TypeOf; hide Truncated;
    ShowsSame(w.L, w.meta[d], L', m, w.tree[d]);
  }

  /** What ext2_unlink leaves of the target: one link the fewer, and nothing at all when that was the last link and
      nobody holds the inode. */
  ghost function AfterUnlink(meta: map<nat, Meta>, ino: nat, m: Meta, held: bool): map<nat, Meta> {
    if m.nlinks == 0 && !held then meta - {ino} else meta[ino := m]
  }

  /** The inode half of ext2_unlink. */
  method Abandon(v: Vfs, ino: nat, memory: bool) returns (ghost oom: bool)
    requires v.Valid() && |v.fs.sbi.cache.pins| + 3 < NBLKNUM && ino != 0 && ino in v.meta
    requires |Links(v.tree, ino)| + 1 <= v.meta[ino].nlinks
    modifies v, v.icache, v.fs, v.fs.sbi.cache, v.fs.sbi.cache.slots, v.fs.sbi.cache.disk`sectors, v.fs.sbi.gb
    ensures v.Valid() && v.fs.sbi.cache.pins == old(v.fs.sbi.cache.pins)
    ensures forall i, x :: old(v.fs.sbi.cache.Pinned(i, x)) ==> v.fs.sbi.cache.Pinned(i, x)
    ensures oom <==> !memory && forall i :: i in old(v.icache) ==> i.ino != ino
    ensures oom ==>
            v.meta == old(v.meta) && v.tree == old(v.tree) && v.fs.sbi.FreeSet(Inodes) == old(v.fs.sbi.FreeSet(Inodes))
    ensures !oom ==>
              var m := old(v.meta)[ino].(nlinks := old(v.meta)[ino].nlinks - 1);
              var held := old(v.Refs(ino)) > 0;
              && v.meta == AfterUnlink(old(v.meta), ino, m, held)
              && v.tree == (if m.nlinks == 0 && !held then old(v.tree) - {ino} else old(v.tree))
              && v.fs.sbi.FreeSet(Inodes) == if m.nlinks == 0
                 && !held then old(v.fs.sbi.FreeSet(Inodes)) + {ino - 1} else old(v.fs.sbi.FreeSet(Inodes))
    ensures Kept(old(v.fs.sbi.cache.L), old(v.fs.files), v.fs.sbi.cache.L, v.fs.files)
    ensures forall x :: v.Refs(x) == old(v.Refs(x))
  {
    hide SbInfo.Valid; hide SbInfo.FreeSet; hide Ext2.Valid; hide BlockCache.Pinned; hide Vfs.CacheOk;
    hide Vfs.Meaning; hide Vfs.Refs; hide SbInfo.InUse;
    hide SameViews; hide Links; hide TypeOf; hide Truncated; hide Vfs.Sound; hide Kept; hide Reach; hide Without;
    ghost var L, files := v.fs.sbi.cache.L, v.fs.files;
    ViewsSelf(L, files);
    KeptSame(L, files, L, files);
    RootHeld(v);
    var victim;
    victim, oom := v.Iget(ino, memory);
    if victim != null {
      HeldInode(v, victim);
      DropLink(v, victim);
      ghost var L1, files1 := v.fs.sbi.cache.L, v.fs.files;
      HeldInode(v, victim);
      assert v.meta - {ino} == old(v.meta) - {ino};
      assert victim.Fields() == old(v.meta)[ino].(nlinks := old(v.meta)[ino].nlinks - 1);
      v.Iput(victim);
      KeptTwice(L, files, L1, files1, v.fs.sbi.cache.L, v.fs.files);
    }
  }

  lemma RootHeld(v: Vfs)
    requires v.Valid()
    ensures v.Refs(v.root.ino) >= 1 && v.root in v.icache
  {
    hide SbInfo.Valid; hide SbInfo.FreeSet; hide Ext2.Valid; hide Vfs.CacheOk; hide Vfs.Meaning; hide Vfs.Refs;
    v.DistinctCache();
    HeldInode(v, v.root);
  }

  /** A cached inode shows its file's metadata and holds its references; the root is held from the mount on. */
  lemma HeldInode(v: Vfs, i: Inode)
    requires v.Valid() && i in v.icache
    ensures i.ino in v.meta && i.Fields() == v.meta[i.ino] && v.Refs(i.ino) == i.ref >= 1
  {
    hide SbInfo.Valid; hide SbInfo.FreeSet; hide Ext2.Valid; hide Vfs.CacheOk; hide Vfs.Meaning; hide Vfs.Refs;
    v.InCache(i);
  }

  /** The target ino, unless it is the directory d itself, has gone or is one link down (with oom, as before), and
      nothing else in the metadata changed but for d. */
  ghost predicate LinkDropped(meta0: map<nat, Meta>, meta: map<nat, Meta>, d: nat, ino: nat, gone: bool, oom: bool) {
    && ino in meta0 && meta.Keys == (if gone then meta0.Keys - {ino} else meta0.Keys)
    && (!gone && ino != d && !oom ==>
       meta0[ino].nlinks >= 1 && meta[ino] == meta0[ino].(nlinks := meta0[ino].nlinks - 1))
    && (!gone && ino != d && oom ==> meta[ino] == meta0[ino])
  }

  /** The metadata before an unlink (meta0), without the name (meta1), and after. */
  lemma AfterUnlinkKeys(meta0: map<nat, Meta>, meta1: map<nat, Meta>, ino: nat, d: nat, meta: map<nat, Meta>, oom: bool,
      held: bool)
    requires ino in meta0 && ino in meta1 && d in meta0 && meta1.Keys == meta0.Keys
             && (forall f :: f in meta0 && f != d ==> meta1[f] == meta0[f])
    requires meta1[ino].nlinks >= 1 && meta1[ino].nlinks == meta0[ino].nlinks
    requires meta == if oom then meta1 else AfterUnlink(meta1, ino, meta1[ino].(nlinks := meta1[ino].nlinks - 1), held)
    ensures LinkDropped(meta0, meta, d, ino, !oom && meta0[ino].nlinks == 1 && !held, oom)
    ensures forall f :: f in meta && f != d && f != ino ==> f in meta0 && meta[f] == meta0[f]
  {
  }

  /** ext2_unlink: -1 exactly when the name is empty or not there, and then nothing is named differently.  Otherwise
      exactly that name goes, its target loses a link, and the target goes, number and all, exactly when that was
      its last link and nobody holds it (when memory is short for the target's inode its link count stays).  Files
      that remain read as before, references are as before. */
  method Unlink(v: Vfs, dir: Inode, name: Name, memory: bool) returns (ret: int, ghost oom: bool)
    requires v.Valid() && dir in v.icache && dir.kind == Dir && |v.fs.sbi.cache.pins| + 3 < NBLKNUM && |name| < 256
    modifies v, v.icache, v.fs, v.fs.sbi.cache, v.fs.sbi.cache.slots, v.fs.sbi.cache.disk`sectors, v.fs.sbi.gb
    ensures v.Valid() && v.fs.sbi.cache.pins == old(v.fs.sbi.cache.pins)
    ensures forall i, x :: old(v.fs.sbi.cache.Pinned(i, x)) ==> v.fs.sbi.cache.Pinned(i, x)
    ensures ret == if name == [] || old(Target(v.tree, dir.ino, name)) == 0 then -1 else 0
    ensures ret == -1 ==>
            && v.tree == old(v.tree) && v.meta.Keys == old(v.meta).Keys
            && v.fs.sbi.FreeSet(Inodes) == old(v.fs.sbi.FreeSet(Inodes))
    ensures ret == 0 ==>
              var ino := old(Target(v.tree, dir.ino, name));
              && dir.ino in old(v.tree) && ino in old(v.meta)
                 && (oom <==> !memory && forall i :: i in old(v.icache) ==> i.ino != ino)
              && (var gone := !oom && old(v.meta)[ino].nlinks == 1 && !(old(v.Refs(ino)) > 0);
                  && v.tree == (if gone then Unbound(old(v.tree), dir.ino, name) - {ino}
                     else Unbound(old(v.tree), dir.ino, name))
                  && LinkDropped(old(v.meta), v.meta, dir.ino, ino, gone, oom)
                  && v.fs.sbi.FreeSet(Inodes) ==
                     (if gone then old(v.fs.sbi.FreeSet(Inodes)) + {ino - 1} else old(v.fs.sbi.FreeSet(Inodes))))
    ensures forall f :: f in v.meta && f != dir.ino && (name == [] || f != old(Target(v.tree, dir.ino, name))) ==>
            f in old(v.meta) && v.meta[f] == old(v.meta)[f]
    ensures KeptBut(old(v.fs.sbi.cache.L), old(v.fs.files), v.fs.sbi.cache.L, v.fs.files, dir.ino)
    ensures forall x :: v.Refs(x) == old(v.Refs(x))
  {
    hide SbInfo.Valid; hide SbInfo.FreeSet; hide Ext2.Valid; hide BlockCache.Pinned; hide Vfs.CacheOk;
    hide Vfs.Meaning; hide Vfs.Refs; hide SbInfo.InUse;
    hide SameViews; hide OthersSame; hide Links; hide TypeOf; hide Truncated; hide Vfs.Sound; hide Kept;
    hide KeptBut; hide Target; hide Unbound; hide Shows; hide AfterUnlink; hide LinkDropped;
    ghost var L, files := v.fs.sbi.cache.L, v.fs.files;
    ghost var meta0 := v.meta;
    oom := false;
    ViewsSelf(L, files);
    KeptSame(L, files, L, files);
    SameOthers(L, files, L, dir.ino);
    ChangedThenKept(L, files, L, files, L, files, dir.ino);
    if name == [] {
      return -1, oom;
    }
    DirMeta(v, dir);
    HeldInode(v, dir);
    var ino := RemoveName(v, dir, name);
    ghost var meta1 := v.meta;
    assert meta1 == meta0[dir.ino := dir.Fields()];
    ghost var L1, files1 := v.fs.sbi.cache.L, v.fs.files;
    ViewsSelf(L1, files1);
    KeptSame(L1, files1, L1, files1);
    ChangedThenKept(L, files, L1, files1, L1, files1, dir.ino);
    if ino == 0 {
      return -1, oom;
    }
    oom := Abandon(v, ino, memory);
    AfterUnlinkKeys(meta0, meta1, ino, dir.ino, v.meta, oom, old(v.Refs(ino)) > 0);
    ChangedThenKept(L, files, L1, files1, v.fs.sbi.cache.L, v.fs.files, dir.ino);
    ret := 0;
  }

  /** writei: what ext2_file_write does to the file, and nothing to any other file, name or reference. */
  method Write(v: Vfs, inode: Inode, data: seq<u8>, offset: u32) returns (ret: int, ghost n: nat)
    requires v.Valid() && inode in v.icache && inode.kind != Dir && |v.fs.sbi.cache.pins| + 1 < NBLKNUM
    requires offset + |data| < 0x1_0000_0000
    modifies v`meta, v.fs, inode, v.fs.sbi.cache, v.fs.sbi.cache.slots, v.fs.sbi.cache.disk`sectors, v.fs.sbi.gb
    ensures v.Valid() && v.fs.sbi.cache.pins == old(v.fs.sbi.cache.pins)
    ensures v.meta == old(v.meta)[inode.ino := inode.Fields()]
            && v.fs.sbi.FreeSet(Inodes) == old(v.fs.sbi.FreeSet(Inodes))
    ensures inode.Fields() == old(inode.Fields()).(size := inode.size, iBlock := inode.iBlock)
    ensures n <= |data| && (n < |data| ==> v.fs.sbi.FreeSet(Blocks) == {})
            && ret == if n == 0 < |data| then -1 else I32(n)
    ensures Overlaid(old(v.fs.sbi.cache.L), old(v.fs.files), v.fs.sbi.cache.L, v.fs.files, inode.ino, offset,
            data[..n])
    ensures inode.size == if n == |data| > 0 && offset + n > old(inode.size) then offset + n else old(inode.size)
    ensures forall x :: v.Refs(x) == old(v.Refs(x))
  {
    hide SbInfo.Valid; hide SbInfo.FreeSet; hide Ext2.Valid; hide MetaOk; hide TreeOk; hide LinksOk;
    hide BlockCache.Pinned; hide Coherent; hide Snaps; hide RefIn; hide DiskOf; hide TypeOf; hide Truncated;
    hide Links; hide Ext2.Synced; hide DiskMeta; hide Ext2.Image; hide Overlaid;
    hide Vfs.CacheOk; hide Vfs.Meaning; hide Vfs.Disk; hide OnePerNumber; hide Before; hide WorldOk; hide InodesOk;
    hide GeometryOk; hide Inos; hide SbInfo.InUse;
    v.NumbersValid();
    v.InCache(inode);
    OpenInode(v, inode);
    NotDir(v, inode);
    ghost var w := Before(v);
    v.DistinctCache();
    CleanIsSynced(v, inode);
    var end;
    ret, end := v.fs.FileWrite(inode, data, offset);
    n := end - offset;
    v.OthersOnDisk(inode.ino);
    RecordWritten(v, inode, w, offset, data[..n]);
  }

  lemma OpenInode(v: Vfs, inode: Inode)
    requires v.Sound() && inode in v.icache
    ensures v.fs.Open(inode)
  {
    hide SbInfo.Valid; hide SbInfo.FreeSet; hide Ext2.Valid; hide Vfs.CacheOk; hide TreeOk; hide LinksOk;
    hide Truncated;
    v.InCache(inode);
  }

  ghost method RecordWritten(v: Vfs, inode: Inode, w: World, offset: nat, bytes: seq<u8>)
    requires v.fs.Valid() && WorldOk(w) && CacheBut(v, inode, w.cached) && inode.ino in w.files && inode.ino in w.meta
             && ValidIno(v.fs.sbi.geo, inode.ino)
    requires v.fs.sbi.FreeSet(Inodes) == w.free && v.fs.files == w.files[inode.ino := inode.iBlock] && v.meta == w.meta
             && v.tree == w.tree
    requires inode.Fields().(size := w.meta[inode.ino].size, iBlock := w.meta[inode.ino].iBlock) == w.meta[inode.ino]
             && inode.ino !in w.tree
    requires Overlaid(w.L, w.files, v.fs.sbi.cache.L, v.fs.files, inode.ino, offset, bytes)
    requires forall f :: f in w.meta && f != inode.ino ==> v.Disk()(f) == w.disk(f)
    requires !inode.dirty ==> v.fs.Synced(inode)
    modifies v`meta
    ensures v.Sound() && forall x :: v.Refs(x) == RefIn(w.cached, x)
    ensures v.meta == w.meta[inode.ino := inode.Fields()]
  {
    hide SbInfo.Valid; hide SbInfo.FreeSet; hide Ext2.Valid; hide MetaOk; hide TreeOk; hide LinksOk; hide Coherent;
    hide Snaps; hide RefIn; hide TypeOf; hide Shows; hide OthersSame; hide Vfs.Disk; hide SameViews;
    hide Links; hide Ext2.Synced; hide Vfs.Sound; hide Vfs.Refs; hide Overlaid;
    var f := inode.ino;
    FieldsFit(w.files, w.meta, w.free, f);
    v.meta := w.meta[f := inode.Fields()];
    StillFits(w.meta[f], inode.Fields());
    SyncedIsClean(v, inode);
    SameLinkCount(w.meta, w.tree, f, inode.Fields());
    OverlaidOthers(w.L, w.files, v.fs.sbi.cache.L, v.fs.files, f, offset, bytes);
    Absorbed(v, inode, w);
  }

  lemma OverlaidOthers(L: seq<Block>, files: map<nat, Ptrs>, L': seq<Block>, files': map<nat, Ptrs>, f: nat, off: nat,
      bytes: seq<u8>)
    requires Overlaid(L, files, L', files', f, off, bytes)
    ensures OthersSame(L, files, L', files', f)
  {
    hide FileBlock; hide FileByte;
  }

  /** readi: the bytes ext2_file_read returns; nothing changes. */
  method Read(v: Vfs, inode: Inode, len: nat, offset: u32) returns (ret: int, data: seq<u8>)
    requires v.Valid() && inode in v.icache && |v.fs.sbi.cache.pins| < NBLKNUM
    requires offset + len < 0x1_0000_0000_0000_0000
    modifies v.fs.sbi.cache`pins, v.fs.sbi.cache.slots, v.fs.sbi.cache.disk`sectors
    ensures v.Valid() && v.fs.sbi.cache.L == old(v.fs.sbi.cache.L) && v.fs.sbi.cache.pins == old(v.fs.sbi.cache.pins)
    ensures |data| <= len && (data != [] ==> offset + |data| <= inode.size)
            && (|data| < len ==> offset + |data| >= inode.size)
    ensures data == FileBytes(v.fs.sbi.cache.L, inode.iBlock, offset, |data|)
    ensures forall i :: 0 <= i < |data| ==>
              data[i] == FileBlock(v.fs.sbi.cache.L, inode.iBlock, (offset + i) / 4096)[(offset + i) % 4096]
    ensures -0x8000_0000 <= ret < 0x8000_0000 && (|data| - ret) % 0x1_0000_0000 == 0
    ensures forall x :: v.Refs(x) == old(v.Refs(x))
  {
    hide SbInfo.Valid; hide SbInfo.FreeSet; hide Ext2.Valid; hide BlockCache.Pinned; hide Vfs.CacheOk;
    hide Vfs.Meaning; hide Vfs.Refs; hide FileByte; hide FileBlock;
    OpenInode(v, inode);
    var end;
    ret, data, end := v.fs.FileRead(inode, len, offset);
    OnlyRead(v);
  }

  /** The bytes just written are the bytes read back. */
  lemma WrittenReadsBack(L0: seq<Block>, files0: map<nat, Ptrs>, L: seq<Block>, files: map<nat, Ptrs>, f: nat, off: nat,
      bytes: seq<u8>)
    requires Overlaid(L0, files0, L, files, f, off, bytes) && off + |bytes| <= MAX_BYTES
    ensures f in files && FileBytes(L, files[f], off, |bytes|) == bytes
  {
    hide FileByte; hide FileBlock;
  }
}
