/** What the mounted file system means: the metadata of every file, and every directory as a map from names to
    inode numbers. */
module VfsState {
  import opened Bytes
  import opened FileTree
  import opened FileView
  import opened InodeImage
  import opened Ext2File
  import opened DirBlock
  import opened DirView
  import opened Ext2Dir

  type Name = seq<u8>
  type Dirs = map<nat, map<Name, nat>>

  /** The metadata of every file in use fits its disk format, carries the file's block pointers, and belongs to
      no free inode number (the set of free numbers is zero-based). */
  ghost predicate MetaOk(files: map<nat, Ptrs>, meta: map<nat, Meta>, free: set<nat>) {
    && meta.Keys == files.Keys
    && (forall f :: f in meta ==> files[f] == meta[f].iBlock && Truncated(meta[f]) == meta[f])
    && (forall x :: x in free ==> x + 1 !in meta)
  }

  /** A directory inode whose blocks spell exactly this map. */
  ghost predicate Shows(L: seq<Block>, m: Meta, names: map<Name, nat>) {
    && DirOk(L, m.iBlock, m.size) && m.size <= MAX_DIR
    && (forall n :: DirLookup(L, m.iBlock, m.size, n) == if n in names then names[n] else 0)
    && (forall n :: n in names ==> names[n] != 0)
  }

  ghost predicate TreeOk(L: seq<Block>, meta: map<nat, Meta>, tree: Dirs) {
    && (forall d :: d in tree <==> d in meta && TypeOf(meta[d].mode) == Dir)
    && (forall d :: d in tree ==> Shows(L, meta[d], tree[d]))
  }

  /** The tree with one more name in directory d. */
  ghost function Bound(tree: Dirs, d: nat, n: Name, ino: nat): Dirs
    requires d in tree
  {
    var names: map<Name, nat> := tree[d][n := ino];
    tree[d := names]
  }

  /** The tree with one name gone from directory d. */
  ghost function Unbound(tree: Dirs, d: nat, n: Name): Dirs
    requires d in tree
  {
    tree[d := tree[d] - {n}]
  }

  /** A directory entry. */
  datatype Link = Link(dir: nat, name: Name)

  /** The directory entries that lead to an inode. */
  ghost function Links(tree: Dirs, ino: nat): set<Link> {
    set d, n | d in tree && n in tree[d] && tree[d][n] == ino :: Link(d, n)
  }

  lemma InLinks(tree: Dirs, ino: nat, e: Link)
    ensures e in Links(tree, ino) <==> e.dir in tree && e.name in tree[e.dir] && tree[e.dir][e.name] == ino
  {
  }

  /** Every entry leads to a file in use, and no file has more entries than its link count admits. */
  ghost predicate LinksOk(meta: map<nat, Meta>, tree: Dirs) {
    && (forall d, n :: d in tree && n in tree[d] ==> tree[d][n] in meta)
    && (forall f :: f in meta ==> |Links(tree, f)| <= meta[f].nlinks)
  }

  lemma ShowsSame(L: seq<Block>, m: Meta, L': seq<Block>, m': Meta, names: map<Name, nat>)
    requires Shows(L, m, names) && m'.size == m.size
    requires forall k :: 0 <= k < MAX_LBK ==> FileBlock(L', m'.iBlock, k) == FileBlock(L, m.iBlock, k)
    ensures Shows(L', m', names)
  {
    hide FileBlock; hide FirstBlocks;
    assert FirstBlocks(L', m'.iBlock, NBlocks(m.size)) == FirstBlocks(L, m.iBlock, NBlocks(m.size));
  }

  /** When no file reads differently no directory says anything else. */
  lemma TreeSame(L: seq<Block>, L': seq<Block>, files: map<nat, Ptrs>, meta: map<nat, Meta>, tree: Dirs, free: set<nat>)
    requires TreeOk(L, meta, tree) && MetaOk(files, meta, free) && SameViews(L, files, L', files)
    ensures TreeOk(L', meta, tree)
  {
    hide FileBlock; hide Shows;
    forall d | d in tree ensures Shows(L', meta[d], tree[d]) {
      ShowsSame(L, meta[d], L', meta[d], tree[d]);
    }
  }

  /** One file changes: directories among the others say what they said. */
  lemma TreeChanged(L: seq<Block>, files: map<nat, Ptrs>, L': seq<Block>, files': map<nat, Ptrs>, meta: map<nat, Meta>,
      tree: Dirs, free: set<nat>,
                    f: nat, m: Meta, names: map<Name, nat>)
    requires TreeOk(L, meta, tree) && MetaOk(files, meta, free) && OthersSame(L, files, L', files', f) && f in files
    requires files' == files[f := m.iBlock] && TypeOf(m.mode) == TypeOf(meta[f].mode)
    requires f in tree ==> Shows(L', m, names)
    ensures TreeOk(L', meta[f := m], if f in tree then tree[f := names] else tree)
  {
    hide FileBlock; hide Shows; hide TypeOf; hide Truncated;
    forall d | d in tree && d != f ensures Shows(L', meta[d], tree[d]) {
      ShowsSame(L, meta[d], L', meta[d], tree[d]);
    }
  }

  lemma BoundLinks(tree: Dirs, d: nat, n: Name, ino: nat, f: nat)
    requires d in tree && n !in tree[d]
    ensures Links(Bound(tree, d, n, ino), f) == if f == ino then Links(tree, f) + {Link(d, n)} else Links(tree, f)
  {
    var tree' := Bound(tree, d, n, ino);
    hide Links;
    forall e: Link
      ensures e in Links(tree', f) <==> e in Links(tree, f) || (f == ino && e == Link(d, n))
    {
      InLinks(tree', f, e);
      InLinks(tree, f, e);
    }
  }

  lemma UnboundLinks(tree: Dirs, d: nat, n: Name, f: nat)
    requires d in tree && n in tree[d]
    ensures Links(Unbound(tree, d, n), f) == if f == tree[d][n] then Links(tree, f) - {Link(d, n)} else Links(tree, f)
    ensures f == tree[d][n] ==> Link(d, n) in Links(tree, f)
  {
    var tree' := Unbound(tree, d, n);
    hide Links;
    InLinks(tree, f, Link(d, n));
    forall e: Link
      ensures e in Links(tree', f) <==> e in Links(tree, f) && !(f == tree[d][n] && e == Link(d, n))
    {
      InLinks(tree', f, e);
      InLinks(tree, f, e);
    }
  }

  /** A new entry for a file with a link to spare. */
  lemma AddLink(meta: map<nat, Meta>, tree: Dirs, d: nat, n: Name, ino: nat)
    requires LinksOk(meta, tree) && d in tree && n !in tree[d] && ino in meta && |Links(tree, ino)| < meta[ino].nlinks
    ensures LinksOk(meta, Bound(tree, d, n, ino))
  {
    hide Links;
    forall f | f in meta ensures |Links(Bound(tree, d, n, ino), f)| <= meta[f].nlinks {
      BoundLinks(tree, d, n, ino, f);
    }
  }

  /** An entry goes, and its target has one link the fewer; other files keep theirs. */
  lemma RemoveLink(meta: map<nat, Meta>, tree: Dirs, d: nat, n: Name)
    requires LinksOk(meta, tree) && d in tree && n in tree[d]
    ensures LinksOk(meta, Unbound(tree, d, n))
    ensures |Links(Unbound(tree, d, n), tree[d][n])| + 1 <= meta[tree[d][n]].nlinks
  {
    hide Links;
    forall f | f in meta ensures |Links(Unbound(tree, d, n), f)| + (if f == tree[d][n] then 1 else 0) <=
      meta[f].nlinks {
      UnboundLinks(tree, d, n, f);
    }
  }

  lemma DropLinks(meta: map<nat, Meta>, tree: Dirs, f: nat)
    requires LinksOk(meta, tree) && f in meta && Links(tree, f) == {}
    ensures LinksOk(meta - {f}, tree - {f})
  {
    hide Links;
    var meta', tree' := meta - {f}, tree - {f};
    forall d, n | d in tree' && n in tree'[d] ensures tree'[d][n] in meta' {
      InLinks(tree, f, Link(d, n));
    }
    forall g | g in meta' ensures |Links(tree', g)| <= meta'[g].nlinks {
      forall e | e in Links(tree', g) ensures e in Links(tree, g) {
        InLinks(tree', g, e);
        InLinks(tree, g, e);
      }
      FewerLinks(Links(tree', g), Links(tree, g));
    }
  }

  lemma {:induction false} FewerLinks<T>(a: set<T>, b: set<T>)
    requires a <= b
    ensures |a| <= |b|
  {
    if a != {} {
      var x :| x in a;
      FewerLinks(a - {x}, b - {x});
    }
  }

  /** Metadata changes that keep names and link counts high enough keep the links right. */
  lemma Relinked(meta: map<nat, Meta>, tree: Dirs, f: nat, m: Meta)
    requires LinksOk(meta, tree) && f in meta && |Links(tree, f)| <= m.nlinks
    ensures LinksOk(meta[f := m], tree)
  {
    hide Links;
  }

  /** A new file has no entries. */
  lemma NewFileLinks(meta: map<nat, Meta>, tree: Dirs, f: nat, m: Meta)
    requires LinksOk(meta, tree) && f !in meta
    ensures Links(tree, f) == {} && LinksOk(meta[f := m], tree)
  {
    hide Links;
    forall e ensures e !in Links(tree, f) {
      InLinks(tree, f, e);
    }
  }

  lemma FieldsFit(files: map<nat, Ptrs>, meta: map<nat, Meta>, free: set<nat>, f: nat)
    requires MetaOk(files, meta, free) && f in meta
    ensures Truncated(meta[f]) == meta[f] && f in files && files[f] == meta[f].iBlock
    ensures f > 0 ==> f - 1 !in free
  {
    hide Truncated;
  }

  // Whole steps

  /** The files that remain read as before. */
  ghost predicate Kept(L: seq<Block>, files: map<nat, Ptrs>, L': seq<Block>, files': map<nat, Ptrs>) {
    files'.Keys <= files.Keys &&
    forall g, k :: g in files' && 0 <= k < MAX_LBK ==> FileBlock(L', files'[g], k) == FileBlock(L, files[g], k)
  }

  /** Every file but f is still there and reads as before. */
  ghost predicate Undisturbed(L: seq<Block>, files: map<nat, Ptrs>, L': seq<Block>, files': map<nat, Ptrs>, f: nat) {
    && (forall g :: g in files && g != f ==> g in files')
    && (forall g, k :: g in files && g != f && 0 <= k < MAX_LBK ==>
       FileBlock(L', files'[g], k) == FileBlock(L, files[g], k))
  }

  lemma UndisturbedTwice(L0: seq<Block>, files0: map<nat, Ptrs>, L1: seq<Block>, files1: map<nat, Ptrs>, L2: seq<Block>,
      files2: map<nat, Ptrs>, f: nat)
    requires Undisturbed(L0, files0, L1, files1, f) && Undisturbed(L1, files1, L2, files2, f)
    ensures Undisturbed(L0, files0, L2, files2, f)
  {
    hide FileBlock;
    forall g, k | g in files0 && g != f && 0 <= k < MAX_LBK
      ensures g in files2 && FileBlock(L2, files2[g], k) == FileBlock(L0, files0[g], k)
    {
      assert g in files1 && FileBlock(L1, files1[g], k) == FileBlock(L0, files0[g], k);
    }
  }

  lemma SelfUndisturbed(L: seq<Block>, files: map<nat, Ptrs>, f: nat)
    ensures Undisturbed(L, files, L, files, f)
  {
  }

  lemma SameUndisturbed(L: seq<Block>, files: map<nat, Ptrs>, L': seq<Block>, f: nat)
    requires SameViews(L, files, L', files)
    ensures Undisturbed(L, files, L', files, f)
  {
    hide FileBlock;
  }

  lemma FewerUndisturbed(L: seq<Block>, files: map<nat, Ptrs>, L': seq<Block>, files': map<nat, Ptrs>, g: nat, f: nat)
    requires Undisturbed(L, files, L', files', f)
    ensures Undisturbed(L, files - {g}, L', files', f)
  {
    hide FileBlock;
  }

  lemma OthersUndisturbed(L: seq<Block>, files: map<nat, Ptrs>, L': seq<Block>, files': map<nat, Ptrs>, f: nat)
    requires OthersSame(L, files, L', files', f)
    ensures Undisturbed(L, files, L', files', f)
  {
    hide FileBlock;
  }

  /** The same files, and one more. */
  lemma AddedUndisturbed(L: seq<Block>, files: map<nat, Ptrs>, L': seq<Block>, ino: nat, ib: Ptrs, f: nat)
    requires SameViews(L, files, L', files) && ino !in files
    ensures Undisturbed(L, files, L', files[ino := ib], f)
  {
    hide FileBlock;
  }

  /** The one more goes again. */
  lemma DroppedUndisturbed(L0: seq<Block>, files0: map<nat, Ptrs>, L1: seq<Block>, files1: map<nat, Ptrs>,
      L2: seq<Block>, ino: nat, f: nat)
    requires Undisturbed(L0, files0, L1, files1, f) && ino !in files0
             && SameViews(L1, files1 - {ino}, L2, files1 - {ino})
    ensures Undisturbed(L0, files0, L2, files1 - {ino}, f)
  {
    hide FileBlock;
    forall g, k | g in files0 && g != f && 0 <= k < MAX_LBK
      ensures g in files1 - {ino} && FileBlock(L2, (files1 - {ino})[g], k) == FileBlock(L0, files0[g], k)
    {
      assert g in files1 && FileBlock(L1, files1[g], k) == FileBlock(L0, files0[g], k);
      assert (files1 - {ino})[g] == files1[g];
    }
  }

  /** One file changed, then some files went: those that remain, but for that one, read as before. */
  lemma ChangedThenKept(L0: seq<Block>, files0: map<nat, Ptrs>, L1: seq<Block>, files1: map<nat, Ptrs>, L2: seq<Block>,
      files2: map<nat, Ptrs>, f: nat)
    requires OthersSame(L0, files0, L1, files1, f) && Kept(L1, files1, L2, files2)
    ensures KeptBut(L0, files0, L2, files2, f)
  {
    hide FileBlock;
    forall g, k | g in files2 && g != f && 0 <= k < MAX_LBK
      ensures FileBlock(L2, files2[g], k) == FileBlock(L0, files0[g], k)
    {
      assert FileBlock(L1, files1[g], k) == FileBlock(L0, files0[g], k);
      assert FileBlock(L2, files2[g], k) == FileBlock(L1, files1[g], k);
    }
  }

  lemma KeptTwice(L0: seq<Block>, files0: map<nat, Ptrs>, L1: seq<Block>, files1: map<nat, Ptrs>, L2: seq<Block>,
      files2: map<nat, Ptrs>)
    requires Kept(L0, files0, L1, files1) && Kept(L1, files1, L2, files2)
    ensures Kept(L0, files0, L2, files2)
  {
    hide FileBlock;
    forall g, k | g in files2 && 0 <= k < MAX_LBK
      ensures FileBlock(L2, files2[g], k) == FileBlock(L0, files0[g], k)
    {
      assert FileBlock(L1, files1[g], k) == FileBlock(L0, files0[g], k);
      assert FileBlock(L2, files2[g], k) == FileBlock(L1, files1[g], k);
    }
  }

  /** The files that remain, but for f, read as before. */
  ghost predicate KeptBut(L: seq<Block>, files: map<nat, Ptrs>, L': seq<Block>, files': map<nat, Ptrs>, f: nat) {
    files'.Keys <= files.Keys &&
    forall g, k :: g in files' && g != f && 0 <= k < MAX_LBK ==>
      FileBlock(L', files'[g], k) == FileBlock(L, files[g], k)
  }

  lemma KeptSame(L: seq<Block>, files: map<nat, Ptrs>, L': seq<Block>, files': map<nat, Ptrs>)
    requires SameViews(L, files, L', files')
    ensures Kept(L, files, L', files')
  {
    hide FileBlock;
  }

  lemma KeptWithout(L: seq<Block>, files: map<nat, Ptrs>, L': seq<Block>, files': map<nat, Ptrs>, f: nat)
    requires SameViews(L, files - {f}, L', files')
    ensures Kept(L, files, L', files')
  {
    hide FileBlock;
  }

  lemma NoLinks(meta: map<nat, Meta>, tree: Dirs, f: nat)
    requires LinksOk(meta, tree) && f in meta && meta[f].nlinks == 0
    ensures Links(tree, f) == {}
  {
    hide Links;
  }

  /** A file without links goes away. */
  lemma FileGone(L: seq<Block>, L': seq<Block>, files: map<nat, Ptrs>, meta: map<nat, Meta>, tree: Dirs, free: set<nat>,
      f: nat)
    requires MetaOk(files, meta, free) && TreeOk(L, meta, tree) && LinksOk(meta, tree)
    requires f > 0 && f in meta && Links(tree, f) == {} && SameViews(L, files - {f}, L', files - {f})
    ensures MetaOk(files - {f}, meta - {f}, free + {f - 1})
    ensures TreeOk(L', meta - {f}, tree - {f}) && LinksOk(meta - {f}, tree - {f})
  {
    hide TypeOf; hide Shows; hide SameViews; hide Links;
    DropLinks(meta, tree, f);
    hide LinksOk;
    TreeSame(L, L', files - {f}, meta - {f}, tree - {f}, free + {f - 1});
  }

  /** One file changes, contents and metadata; names is what it shows if it is a directory. */
  lemma FileChanged(L: seq<Block>, files: map<nat, Ptrs>, L': seq<Block>, files': map<nat, Ptrs>, meta: map<nat, Meta>,
      tree: Dirs, free: set<nat>,
                    f: nat, m: Meta, names: map<Name, nat>)
    requires MetaOk(files, meta, free) && TreeOk(L, meta, tree) && f in files && OthersSame(L, files, L', files', f)
    requires files' == files[f := m.iBlock] && TypeOf(m.mode) == TypeOf(meta[f].mode) && Truncated(m) == m
    requires f in tree ==> Shows(L', m, names)
    ensures MetaOk(files', meta[f := m], free)
    ensures TreeOk(L', meta[f := m], if f in tree then tree[f := names] else tree)
  {
    hide TypeOf; hide Shows; hide OthersSame; hide Truncated;
    TreeChanged(L, files, L', files', meta, tree, free, f, m, names);
  }

  /** A new file with no blocks; what the others say stays. */
  lemma FileAdded(L: seq<Block>, L': seq<Block>, files: map<nat, Ptrs>, meta: map<nat, Meta>, tree: Dirs,
      free: set<nat>, free': set<nat>, f: nat, m: Meta)
    requires MetaOk(files, meta, free) && TreeOk(L, meta, tree) && LinksOk(meta, tree) && SameViews(L, files, L', files)
    requires f > 0 && f - 1 in free && free' == free - {f - 1} && Truncated(m) == m && TypeOf(m.mode) != Dir
    ensures f !in meta && MetaOk(files[f := m.iBlock], meta[f := m], free')
    ensures TreeOk(L', meta[f := m], tree) && LinksOk(meta[f := m], tree) && Links(tree, f) == {}
  {
    hide TypeOf; hide Shows; hide SameViews; hide Links; hide Truncated;
    assert f !in meta;
    NewFileLinks(meta, tree, f, m);
    hide LinksOk;
    TreeSame(L, L', files, meta, tree, free);
  }

  /** Other inode numbers leave the free set, or nothing happens at all. */
  lemma NothingRead(L: seq<Block>, L': seq<Block>, files: map<nat, Ptrs>, meta: map<nat, Meta>, tree: Dirs,
      free: set<nat>, free': set<nat>)
    requires MetaOk(files, meta, free) && TreeOk(L, meta, tree) && SameViews(L, files, L', files) && free' <= free
    ensures MetaOk(files, meta, free') && TreeOk(L', meta, tree)
  {
    hide TypeOf; hide Shows; hide SameViews; hide Truncated;
    TreeSame(L, L', files, meta, tree, free);
  }
}
