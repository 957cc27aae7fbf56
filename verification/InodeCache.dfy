/** Coherence of the inode cache: what it means for the cached inodes, the disk and the files to agree, and what
    each step of ext2_iget and iput does to it. */
module InodeCache {
  import opened Bytes
  import opened Layout
  import opened FileTree
  import opened InodeImage
  import opened Ext2File

  /** The metadata the logical disk holds for inode f. */
  ghost function DiskMeta(L: seq<Block>, geo: Geometry, tables: seq<u32>, f: nat): Meta {
    if GeometryOk(geo) && |tables| == geo.groups && ValidIno(geo, f) then Decode(ImageAt(L, geo, tables, f))
    else Decode(Zeros(GOOD_OLD_INODE_SIZE))
  }

  ghost function DiskOf(L: seq<Block>, geo: Geometry, tables: seq<u32>): (d: nat -> Meta)
    ensures forall f: nat :: d(f) == DiskMeta(L, geo, tables, f)
  {
    (f: nat) => DiskMeta(L, geo, tables, f)
  }

  ghost function Inos(s: seq<Cached>): set<nat> {
    set k | 0 <= k < |s| :: s[k].ino
  }

  /** At most one cached inode per number. */
  ghost predicate OnePerNumber(s: seq<Cached>) {
    forall i, j :: 0 <= i < j < |s| ==> s[i].ino != s[j].ino
  }

  /** The references held on an inode number. */
  ghost function RefIn(s: seq<Cached>, ino: nat): int {
    if s == [] then 0 else if s[0].ino == ino then s[0].ref else RefIn(s[1..], ino)
  }

  /** A cached inode holds the current metadata of its file; a clean one agrees with the disk. */
  ghost predicate InStep(c: Cached, disk: nat -> Meta, meta: map<nat, Meta>) {
    && c.ino in meta && c.fields == meta[c.ino] && c.kind == TypeOf(c.fields.mode) && c.valid
    && (!c.dirty ==> disk(c.ino) == meta[c.ino])
  }

  /** The cache, the disk and the current metadata agree: one cached inode per number, each with its file's
      metadata, clean ones and files not cached as on the disk. */
  ghost predicate Coherent(s: seq<Cached>, disk: nat -> Meta, meta: map<nat, Meta>) {
    && OnePerNumber(s)
    && (forall k :: 0 <= k < |s| ==> InStep(s[k], disk, meta))
    && (forall f :: f in meta && f !in Inos(s) ==> disk(f) == meta[f])
  }

  lemma RefAt(s: seq<Cached>, k: nat)
    requires OnePerNumber(s) && k < |s|
    ensures RefIn(s, s[k].ino) == s[k].ref
  {
    if k > 0 {
      RefAt(s[1..], k - 1);
    }
  }

  lemma RefNone(s: seq<Cached>, ino: nat)
    requires ino !in Inos(s)
    ensures RefIn(s, ino) == 0
  {
    if s != [] {
      assert s[0].ino in Inos(s);
      assert forall k :: 0 <= k < |s[1..]| ==> s[1..][k] == s[k + 1];
      RefNone(s[1..], ino);
    }
  }

  /** A new entry at the head. */
  lemma RefPush(s: seq<Cached>, c: Cached, ino: nat)
    requires c.ino !in Inos(s)
    ensures RefIn([c] + s, ino) == RefIn(s, ino) + if ino == c.ino then c.ref else 0
  {
    assert ([c] + s)[1..] == s;
    if ino == c.ino {
      RefNone(s, ino);
    }
  }

  /** Rewriting entry k without changing its number. */
  lemma RefUpdate(s: seq<Cached>, k: nat, c: Cached, ino: nat)
    requires OnePerNumber(s) && k < |s| && c.ino == s[k].ino
    ensures RefIn(s[k := c], ino) == if ino == c.ino then c.ref else RefIn(s, ino)
  {
    if k == 0 {
      assert s[0 := c][1..] == s[1..];
    } else {
      assert s[k := c][1..] == s[1..][k - 1 := c];
      RefUpdate(s[1..], k - 1, c, ino);
    }
  }

  /** Dropping entry k. */
  lemma RefDrop(s: seq<Cached>, k: nat, ino: nat)
    requires OnePerNumber(s) && k < |s|
    ensures RefIn(s[..k] + s[k + 1..], ino) == if ino == s[k].ino then 0 else RefIn(s, ino)
  {
    if k == 0 {
      assert s[..0] + s[1..] == s[1..];
      if ino == s[0].ino {
        RefNone(s[1..], ino);
      }
    } else {
      assert (s[..k] + s[k + 1..])[1..] == s[1..][..k - 1] + s[1..][k..];
      RefDrop(s[1..], k - 1, ino);
    }
  }

  lemma InosUpdate(s: seq<Cached>, k: nat, c: Cached)
    requires k < |s| && c.ino == s[k].ino
    ensures Inos(s[k := c]) == Inos(s)
  {
    var t := s[k := c];
    assert forall j :: 0 <= j < |s| ==> t[j].ino == s[j].ino;
    forall x | x in Inos(s) ensures x in Inos(t) {
      var j :| 0 <= j < |s| && s[j].ino == x;
      assert t[j].ino == x;
    }
  }

  /** ext2_iget finds the inode cached. */
  lemma RefKeeps(s: seq<Cached>, disk: nat -> Meta, meta: map<nat, Meta>, k: nat, ref: int)
    requires Coherent(s, disk, meta) && k < |s|
    ensures Coherent(s[k := s[k].(ref := ref)], disk, meta)
  {
    hide TypeOf;
    InosUpdate(s, k, s[k].(ref := ref));
  }

  /** ext2_iget reads the inode from disk. */
  lemma MissKeeps(s: seq<Cached>, disk: nat -> Meta, meta: map<nat, Meta>, c: Cached)
    requires Coherent(s, disk, meta) && c.ino in meta && c.ino !in Inos(s)
    requires c.fields == disk(c.ino) && c.kind == TypeOf(c.fields.mode) && c.valid
    ensures Coherent([c] + s, disk, meta) && Inos([c] + s) == Inos(s) + {c.ino}
  {
    hide TypeOf;
    var t := [c] + s;
    assert forall j :: 1 <= j < |t| ==> t[j] == s[j - 1];
    assert forall j :: 0 <= j < |s| ==> s[j].ino in Inos(s);
    forall x ensures x in Inos(t) <==> x == c.ino || x in Inos(s) {
      if x == c.ino {
        assert t[0].ino == x;
      }
      if x in Inos(s) {
        var j :| 0 <= j < |s| && s[j].ino == x;
        assert t[j + 1].ino == x;
      }
    }
  }

  /** iput drops a clean inode: fetching it again would give the same. */
  lemma DropKeeps(s: seq<Cached>, disk: nat -> Meta, meta: map<nat, Meta>, k: nat)
    requires Coherent(s, disk, meta) && k < |s| && disk(s[k].ino) == meta[s[k].ino]
    ensures Coherent(s[..k] + s[k + 1..], disk, meta)
  {
    hide TypeOf;
    DropInos(s, k);
  }

  lemma DropInos(s: seq<Cached>, k: nat)
    requires OnePerNumber(s) && k < |s|
    ensures Inos(s[..k] + s[k + 1..]) == Inos(s) - {s[k].ino}
  {
    var t := s[..k] + s[k + 1..];
    forall x ensures x in Inos(t) <==> x in Inos(s) && x != s[k].ino {
      if x in Inos(s) && x != s[k].ino {
        var j :| 0 <= j < |s| && s[j].ino == x;
        assert t[if j < k then j else j - 1].ino == x;
      }
    }
  }

  /** iput drops an inode whose file is gone. */
  lemma ForgetKeeps(s: seq<Cached>, disk: nat -> Meta, disk': nat -> Meta, meta: map<nat, Meta>, k: nat)
    requires Coherent(s, disk, meta) && k < |s|
    requires forall f :: f in meta && f != s[k].ino ==> disk'(f) == disk(f)
    ensures Coherent(s[..k] + s[k + 1..], disk', meta - {s[k].ino})
  {
    hide TypeOf;
    DropInos(s, k);
  }

  /** The metadata of a cached file changes, in memory and perhaps on disk. */
  lemma ChangeKeeps(s: seq<Cached>, disk: nat -> Meta, disk': nat -> Meta, meta: map<nat, Meta>, k: nat, c: Cached)
    requires Coherent(s, disk, meta) && k < |s| && c.ino == s[k].ino
    requires forall f :: f in meta && f != c.ino ==> disk'(f) == disk(f)
    requires c.kind == TypeOf(c.fields.mode) && c.valid && (!c.dirty ==> disk'(c.ino) == c.fields)
    ensures Coherent(s[k := c], disk', meta[c.ino := c.fields])
  {
    hide TypeOf;
    InosUpdate(s, k, c);
    assert s[k].ino in Inos(s);
  }

  /** A cached inode written back: the cache stays coherent. */
  lemma WrittenBack(s: seq<Cached>, s': seq<Cached>, disk: nat -> Meta, disk': nat -> Meta, meta: map<nat, Meta>,
      k: nat)
    requires Coherent(s, disk, meta) && k < |s| == |s'| && s'[k] == s[k].(dirty := false) && s[k].ino in meta
    requires forall j :: 0 <= j < |s| && s[j].ino != s[k].ino ==> s'[j] == s[j]
    requires disk'(s[k].ino) == meta[s[k].ino] && forall f :: f in meta && f != s[k].ino ==> disk'(f) == disk(f)
    ensures Coherent(s', disk', meta)
  {
    hide TypeOf;
    assert InStep(s[k], disk, meta);
    assert s' == s[k := s'[k]];
    ChangeKeeps(s, disk, disk', meta, k, s'[k]);
    assert meta[s[k].ino := s'[k].fields] == meta;
  }

  /** A file that is not cached comes into being on disk. */
  lemma NewFileKeeps(s: seq<Cached>, disk: nat -> Meta, disk': nat -> Meta, meta: map<nat, Meta>, f: nat)
    requires Coherent(s, disk, meta) && f !in meta
    requires forall g :: g in meta ==> disk'(g) == disk(g)
    ensures Coherent(s, disk', meta[f := disk'(f)]) && f !in Inos(s)
  {
    hide TypeOf;
  }

  /** A file that is not cached goes. */
  lemma UncachedGone(s: seq<Cached>, disk: nat -> Meta, disk': nat -> Meta, meta: map<nat, Meta>, f: nat)
    requires Coherent(s, disk, meta) && f !in Inos(s)
    requires forall g :: g in meta && g != f ==> disk'(g) == disk(g)
    ensures Coherent(s, disk', meta - {f})
  {
    hide TypeOf;
    assert forall k :: 0 <= k < |s| ==> s[k].ino in Inos(s);
  }
}
