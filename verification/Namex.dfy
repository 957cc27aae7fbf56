/** Path resolution: skipslash, path_next and namex of fs/vfs.c. */
module Namex {
  import opened Bytes
  import opened BlkCache
  import opened Layout
  import opened Balloc
  import opened FileTree
  import opened FileView
  import opened Ext2File
  import opened VfsState
  import opened VfsOps
  import opened InodeCache
  import opened VfsNames

  const SLASH: u8 := 0x2F
  const MAXPATHLEN: nat := 256

  /** The part of a path before its first slash. */
  function Head(p: seq<u8>): (h: seq<u8>)
    ensures |h| <= |p| && h == p[..|h|] && SLASH !in h && (|h| < |p| ==> p[|h|] == SLASH)
  {
    if p == [] || p[0] == SLASH then [] else [p[0]] + Head(p[1..])
  }

  /** A component as path_next copies it: at most 255 bytes. */
  function Cut(s: seq<u8>): (name: Name)
    ensures |name| < MAXPATHLEN && (s != [] ==> name != [])
  {
    if |s| >= MAXPATHLEN then s[..MAXPATHLEN - 1] else s
  }

  /** The names in a path: its non-empty pieces between slashes. */
  function Components(p: seq<u8>): (cs: seq<Name>)
    ensures forall k :: 0 <= k < |cs| ==> 0 < |cs[k]| < MAXPATHLEN
    decreases |p|
  {
    if p == [] then []
    else if p[0] == SLASH then Components(p[1..])
    else [Cut(Head(p))] + Components(p[|Head(p)|..])
  }

  lemma {:induction false} HeadAppend(a: seq<u8>, b: seq<u8>)
    ensures Head(a + [SLASH] + b) == Head(a)
    decreases |a|
  {
    if a != [] && a[0] != SLASH {
      HeadAppend(a[1..], b);
      assert (a + [SLASH] + b)[1..] == a[1..] + [SLASH] + b;
    }
  }

  /** A slash separates: the names of a path are the names before it and the names after it.  So repeated, leading
      and trailing slashes make no difference. */
  lemma {:induction false} ComponentsConcat(a: seq<u8>, b: seq<u8>)
    ensures Components(a + [SLASH] + b) == Components(a) + Components(b)
    decreases |a|
  {
    var p := a + [SLASH] + b;
    if a == [] {
      assert p[1..] == b;
    } else if a[0] == SLASH {
      assert p[1..] == a[1..] + [SLASH] + b;
      ComponentsConcat(a[1..], b);
    } else {
      HeadAppend(a, b);
      var n := |Head(a)|;
      assert p[n..] == a[n..] + [SLASH] + b;
      ComponentsConcat(a[n..], b);
      assert [Cut(Head(a))] + (Components(a[n..]) + Components(b)) ==
             [Cut(Head(a))] + Components(a[n..]) + Components(b);
    }
  }

  /** A piece of a path between slashes is one name: the piece itself up to 255 bytes, its first 255 bytes beyond. */
  lemma OneName(p: seq<u8>)
    requires 0x2F !in p
    ensures p == [] ==> Components(p) == []
    ensures 0 < |p| <= 255 ==> Components(p) == [p]
    ensures |p| > 255 ==> Components(p) == [p[..255]]
  {
    if p != [] {
      assert p[0] in p;
      WholeHead(p);
      assert p[|p|..] == [];
    }
  }

  lemma {:induction false} WholeHead(p: seq<u8>)
    requires 0x2F !in p
    ensures Head(p) == p
  {
    if p != [] {
      assert p[0] in p;
      WholeHead(p[1..]);
    }
  }

  /** Doubling a slash anywhere, or adding one at the end, names the same thing. */
  lemma SlashesIrrelevant(a: seq<u8>, b: seq<u8>)
    ensures Components(a + [SLASH] + ([SLASH] + b)) == Components(a + [SLASH] + b)
    ensures Components(a + [SLASH]) == Components(a)
  {
    ComponentsConcat(a, [SLASH] + b);
    ComponentsConcat(a, b);
    ComponentsConcat(a, []);
    assert ([SLASH] + b)[1..] == b;
    assert a + [SLASH] + [] == a + [SLASH];
  }

  /** The inode that names lead to from directory d, 0 when one is missing on the way. */
  ghost function Resolve(tree: Dirs, d: nat, cs: seq<Name>): nat
    decreases |cs|
  {
    if cs == [] then d else if Target(tree, d, cs[0]) == 0 then 0 else Resolve(tree, Target(tree, d, cs[0]), cs[1..])
  }

  /** The inode the walk gets to: as Resolve, but 0 also when kmalloc has no memory for an inode on the way.  Memory is
      needed for what is neither cached from the start (held) nor the directory it is found in; memory says, for each
      lookup counted from k, whether there is some. */
  ghost function Reached(tree: Dirs, held: set<nat>, d: nat, cs: seq<Name>, memory: nat -> bool, k: nat): nat
    decreases |cs|
  {
    if cs == [] then d
    else if Target(tree, d, cs[0]) == 0 || Starved(held, d, Target(tree, d, cs[0]), memory(k)) then 0
    else Reached(tree, held, Target(tree, d, cs[0]), cs[1..], memory, k + 1)
  }

  /** The inode f, looked up in directory d, is not cached and there is no memory for it. */
  predicate Starved(held: set<nat>, d: nat, f: nat, memory: bool) {
    !memory && f !in held && f != d
  }

  /** Only short memory keeps the walk from where the names lead, and it never leads elsewhere. */
  lemma {:induction false} ReachedResolves(tree: Dirs, held: set<nat>, d: nat, cs: seq<Name>, memory: nat -> bool,
      k: nat)
    requires d != 0
    ensures Reached(tree, held, d, cs, memory, k) == 0 || Reached(tree, held, d, cs, memory, k) == Resolve(tree, d, cs)
    ensures (forall n :: n >= k ==> memory(n)) ==> Reached(tree, held, d, cs, memory, k) == Resolve(tree, d, cs)
    decreases |cs|
  {
    hide Target;
    if cs != [] && Target(tree, d, cs[0]) != 0 {
      ReachedResolves(tree, held, Target(tree, d, cs[0]), cs[1..], memory, k + 1);
    }
  }

  lemma SkipStep(path: seq<u8>, pos: nat)
    requires pos < |path| && path[pos] == SLASH
    ensures Components(path[pos..]) == Components(path[pos + 1..])
  {
    assert path[pos..][1..] == path[pos + 1..];
  }

  /** skipslash */
  method SkipSlash(path: seq<u8>, start: nat) returns (pos: nat)
    requires start <= |path|
    ensures start <= pos <= |path| && (pos < |path| ==> path[pos] != SLASH)
    ensures Components(path[pos..]) == Components(path[start..])
  {
    hide Components;
    pos := start;
    while pos < |path| && path[pos] == SLASH
      invariant start <= pos <= |path| && Components(path[pos..]) == Components(path[start..])
    {
      SkipStep(path, pos);
      pos := pos + 1;
    }
  }

  /** Without a slash up to rest, and one there or the end, the head is what lies before rest. */
  lemma {:induction false} HeadIs(p: seq<u8>, n: nat)
    requires n <= |p| && SLASH !in p[..n] && (n == |p| || p[n] == SLASH)
    ensures Head(p) == p[..n]
    decreases n
  {
    if n > 0 {
      assert p[0] == p[..n][0];
      assert p[..n][1..] == p[1..][..n - 1];
      HeadIs(p[1..], n - 1);
    }
  }

  lemma NextComponent(path: seq<u8>, start: nat, rest: nat)
    requires start < rest <= |path| && SLASH !in path[start..rest] && (rest == |path| || path[rest] == SLASH)
    ensures Components(path[start..]) == [Cut(path[start..rest])] + Components(path[rest..])
  {
    var p := path[start..];
    assert p[..rest - start] == path[start..rest] && p[rest - start..] == path[rest..];
    hide Head; hide Cut;
    HeadIs(p, rest - start);
    assert p[0] == path[start] && path[start] in path[start..rest];
  }

  /** path_next: the next component and the position after it; none at the end of the path.  The component is copied
      whole up to the next slash or the end, or its first 255 bytes when it is longer. */
  method PathNext(path: seq<u8>, start: nat) returns (some: bool, name: Name, rest: nat)
    requires start <= |path| && (start < |path| ==> path[start] != SLASH)
    ensures some <==> start < |path|
    ensures start <= rest <= |path| && |name| < MAXPATHLEN
    ensures if some then Components(path[start..]) == [name] + Components(path[rest..]) && name != [] && start < rest
            else Components(path[start..]) == []
    ensures some ==> 0x2F !in path[start..rest] && (rest == |path| || path[rest] == 0x2F)
    ensures some ==> |name| == (if rest - start > 255 then 255 else rest - start) && name == path[start..start + |name|]
  {
    some, name, rest := start < |path|, [], start;
    if !some {
      return;
    }
    hide Components; hide Head;
    while rest < |path| && path[rest] != SLASH
      invariant start <= rest <= |path| && SLASH !in path[start..rest]
    {
      rest := rest + 1;
    }
    NextComponent(path, start, rest);
    var len := rest - start;
    if len >= MAXPATHLEN {
      len := MAXPATHLEN - 1;
    }
    name := path[start..start + len];
    assert name == Cut(path[start..rest]);
  }

  lemma EmptyPath(path: seq<u8>)
    ensures Components(path[|path|..]) == []
  {
  }

  lemma RestNotEmpty(path: seq<u8>, rest: nat)
    requires rest <= |path| && (rest < |path| ==> path[rest] != SLASH)
    ensures rest < |path| ==> Components(path[rest..]) != []
  {
  }

  /** path_next and the slashes behind the name; last tells whether that was the end of the path. */
  method NextName(path: seq<u8>, pos: nat) returns (some: bool, last: bool, name: Name, rest: nat)
    requires pos <= |path| && (pos < |path| ==> path[pos] != SLASH)
    ensures some ==> pos < rest <= |path| && (rest < |path| ==> path[rest] != SLASH)
    ensures if some then Components(path[pos..]) == [name] + Components(path[rest..]) && 0 < |name| < MAXPATHLEN
            else Components(path[pos..]) == []
    ensures some ==> (last <==> rest == |path|) && (last <==> Components(path[rest..]) == [])
  {
    hide Components;
    some, name, rest := PathNext(path, pos);
    rest := SkipSlash(path, rest);
    last := rest == |path|;
    EmptyPath(path);
    RestNotEmpty(path, rest);
  }

  /** One step of the walk: look the name up, then let go of the directory. */
  method Descend(v: Vfs, cur: Inode, name: Name, memory: bool) returns (next: Inode?, ghost oom: bool)
    requires v.Valid() && cur in v.icache && 0 < |name| < 256 && |v.fs.sbi.cache.pins| + 3 < NBLKNUM
    requires if cur == v.root then v.Refs(cur.ino) >= 2 else cur.ino in v.meta && v.meta[cur.ino].nlinks >= 1
    modifies v, v.icache, v.fs, v.fs.sbi.cache, v.fs.sbi.cache.slots, v.fs.sbi.cache.disk`sectors, v.fs.sbi.gb
    ensures v.Valid() && v.fs.sbi.cache.pins == old(v.fs.sbi.cache.pins)
    ensures v.meta == old(v.meta) && v.tree == old(v.tree) && v.fs.sbi.FreeSet(Inodes) == old(v.fs.sbi.FreeSet(Inodes))
    ensures Kept(old(v.fs.sbi.cache.L), old(v.fs.files), v.fs.sbi.cache.L, v.fs.files)
    ensures next == null <==> Target(v.tree, cur.ino, name) == 0 || oom
    ensures oom <==> !memory && Target(v.tree, cur.ino, name) != 0
                     && forall i :: i in old(v.icache) ==> i.ino != Target(v.tree, cur.ino, name)
    ensures next != null ==>
            && next.ino == Target(v.tree, cur.ino, name) && next in v.icache && next.ino in v.meta
            && v.meta[next.ino].nlinks >= 1
    ensures forall x ::
            && v.Refs(x) == old(v.Refs(x)) - (if x == cur.ino then 1 else 0) + if next != null
            && x == next.ino then 1 else 0
    ensures forall i :: i in v.icache ==> i in old(v.icache) || fresh(i)
  {
    hide SbInfo.Valid; hide SbInfo.FreeSet; hide Ext2.Valid; hide BlockCache.Pinned; hide Vfs.CacheOk;
    hide Vfs.Meaning; hide Vfs.Refs; hide SbInfo.InUse;
    hide Vfs.Sound; hide Kept; hide Target; hide Without; hide SameViews;
    ghost var L, files := v.fs.sbi.cache.L, v.fs.files;
    ViewsSelf(L, files);
    KeptSame(L, files, L, files);
    HeldInode(v, cur);
    next, oom := Lookup(v, cur, name, memory);
    HeldInode(v, cur);
    if next != null {
      HeldInode(v, next);
      LinkedTarget(v, cur.ino, name);
    }
    LetGo(v, cur);
  }

  /** iput of an inode on the path: it is the root, or has a link, so no file goes away. */
  method LetGo(v: Vfs, cur: Inode)
    requires v.Valid() && cur in v.icache && |v.fs.sbi.cache.pins| + 3 < NBLKNUM
    requires if cur == v.root then v.Refs(cur.ino) >= 2 else cur.ino in v.meta && v.meta[cur.ino].nlinks >= 1
    modifies v`icache, v`icacheSize, v`meta, v`tree, cur, v.fs, v.fs.sbi.cache, v.fs.sbi.cache.slots,
             v.fs.sbi.cache.disk`sectors, v.fs.sbi.gb
    ensures v.Valid() && v.fs.sbi.cache.pins == old(v.fs.sbi.cache.pins)
    ensures v.meta == old(v.meta) && v.tree == old(v.tree) && v.fs.sbi.FreeSet(Inodes) == old(v.fs.sbi.FreeSet(Inodes))
    ensures Kept(old(v.fs.sbi.cache.L), old(v.fs.files), v.fs.sbi.cache.L, v.fs.files)
    ensures forall x :: v.Refs(x) == old(v.Refs(x)) - if x == cur.ino then 1 else 0
    ensures forall i :: i in v.icache <==> i in old(v.icache) && !(i == cur && cur != v.root && old(cur.ref) == 1)
  {
    hide SbInfo.Valid; hide SbInfo.FreeSet; hide Ext2.Valid; hide BlockCache.Pinned; hide Vfs.CacheOk;
    hide Vfs.Meaning; hide Vfs.Refs; hide SbInfo.InUse;
    hide Vfs.Sound; hide Kept; hide Without;
    HeldInode(v, cur);
    v.Iput(cur);
  }

  /** What a name leads to is in use and has a link. */
  lemma LinkedTarget(v: Vfs, d: nat, name: Name)
    requires v.Valid() && Target(v.tree, d, name) != 0
    ensures Target(v.tree, d, name) in v.meta && v.meta[Target(v.tree, d, name)].nlinks >= 1
  {
    hide SbInfo.Valid; hide SbInfo.FreeSet; hide Ext2.Valid; hide Vfs.CacheOk; hide MetaOk; hide TreeOk; hide Links;
    var f := Target(v.tree, d, name);
    InLinks(v.tree, f, Link(d, name));
    assert Link(d, name) in Links(v.tree, f);
  }

  /** The names to follow: all, or all but the last. */
  function Wanted(cs: seq<Name>, parent: bool): seq<Name> {
    if parent && cs != [] then cs[..|cs| - 1] else cs
  }

  /** What is asked for: where the walk over those names gets to. */
  ghost function Goal(tree: Dirs, held: set<nat>, d: nat, cs: seq<Name>, parent: bool, memory: nat -> bool,
      k: nat): nat {
    Reached(tree, held, d, Wanted(cs, parent), memory, k)
  }

  lemma GoalStep(tree: Dirs, held: set<nat>, d: nat, name: Name, cs: seq<Name>, parent: bool, memory: nat -> bool,
      k: nat)
    requires !(parent && cs == [])
    ensures var f := Target(tree, d, name);
            Goal(tree, held, d, [name] + cs, parent, memory, k)
            == if f == 0 || Starved(held, d, f, memory(k)) then 0 else Goal(tree, held, f, cs, parent, memory, k + 1)
    ensures cs != [] ==> ([name] + cs)[|cs|] == cs[|cs| - 1]
  {
    hide Target; hide Starved;
    var all := [name] + cs;
    assert all[1..] == cs;
    assert Wanted(all, parent)[1..] == Wanted(cs, parent);
  }

  lemma GoalHere(tree: Dirs, held: set<nat>, d: nat, name: Name, memory: nat -> bool, k: nat)
    ensures Goal(tree, held, d, [], false, memory, k) == d && Goal(tree, held, d, [name], true, memory, k) == d
  {
    assert [name][..0] == [];
  }

  /** What namex answers for names cs whose goal is known. */
  ghost predicate Answer(r: Inode?, namebuf: Name, goal: nat, cs: seq<Name>, parent: bool) {
    if parent && cs == [] then r == null
    else
      && (r == null <==> goal == 0) && (r != null ==> r.ino == goal)
      && (r != null && parent ==> namebuf == cs[|cs| - 1])
  }

  /** The numbers of the inodes in the cache. */
  ghost function Numbers(v: Vfs): set<nat>
    reads v
  {
    set i | i in v.icache :: i.ino
  }

  /** References are counted for cached inodes, and for no others. */
  lemma RefsOfNumbers(v: Vfs)
    requires v.Valid()
    ensures forall x :: v.Refs(x) >= 0 && (v.Refs(x) > 0 <==> x in Numbers(v))
  {
    hide SbInfo.Valid; hide SbInfo.FreeSet; hide Ext2.Valid; hide Vfs.CacheOk; hide Vfs.Meaning; hide Vfs.Refs;
    forall x ensures v.Refs(x) >= 0 && (v.Refs(x) > 0 <==> x in Numbers(v)) {
      if x in Numbers(v) {
        var i :| i in v.icache && i.ino == x;
        HeldInode(v, i);
      } else {
        NotHeld(v, x);
      }
    }
  }

  lemma NotHeld(v: Vfs, x: nat)
    requires x !in Numbers(v)
    ensures v.Refs(x) == 0
  {
    hide RefIn;
    forall i | i in v.icache ensures i.ino != x {
      assert i.ino in Numbers(v);
    }
    NotCached(v.icache, Snaps(v.icache), x);
    RefNone(Snaps(v.icache), x);
  }

  /** cur is held, and letting it go removes no file. */
  ghost predicate Holding(v: Vfs, cur: Inode)
    reads v, v.icache
  {
    cur in v.icache && if cur == v.root then v.Refs(cur.ino) >= 2 else cur.ino in v.meta && v.meta[cur.ino].nlinks >= 1
  }

  /** One round of the loop of namex. */
  method Step(v: Vfs, cur: Inode, path: seq<u8>, pos: nat, parent: bool, memory: nat -> bool, n: nat,
      ghost held: set<nat>)
    returns (done: bool, r: Inode?, namebuf: Name, next: Inode, rest: nat)
    requires v.Valid() && |v.fs.sbi.cache.pins| + 3 < NBLKNUM && Holding(v, cur)
             && v.Refs(v.root.ino) >= 1 + (if cur.ino == v.root.ino then 1 else 0)
    requires pos <= |path| && (pos < |path| ==> path[pos] != SLASH)
    requires forall x :: x in Numbers(v) <==> x in held || x == cur.ino
    modifies v, v.icache, v.fs, v.fs.sbi.cache, v.fs.sbi.cache.slots, v.fs.sbi.cache.disk`sectors, v.fs.sbi.gb
    ensures v.Valid() && v.fs.sbi.cache.pins == old(v.fs.sbi.cache.pins)
    ensures v.meta == old(v.meta) && v.tree == old(v.tree) && v.fs.sbi.FreeSet(Inodes) == old(v.fs.sbi.FreeSet(Inodes))
    ensures Kept(old(v.fs.sbi.cache.L), old(v.fs.files), v.fs.sbi.cache.L, v.fs.files)
    ensures forall i :: i in v.icache ==> i in old(v.icache) || fresh(i)
    ensures done ==>
            Answer(r, namebuf, Goal(v.tree, held, cur.ino, Components(path[pos..]), parent, memory, n),
              Components(path[pos..]), parent)
                     && (r != null ==> r in v.icache)
                     && forall x ::
                        && v.Refs(x) == old(v.Refs(x)) - (if x == cur.ino then 1 else 0) + if r != null
                        && x == r.ino then 1 else 0
    ensures !done ==>
              && Holding(v, next) && pos < rest <= |path| && (rest < |path| ==> path[rest] != SLASH)
              && (forall x ::
                 v.Refs(x) == old(v.Refs(x)) - (if x == cur.ino then 1 else 0) + if x == next.ino then 1 else 0)
              && (var cs, cs' := Components(path[pos..]), Components(path[rest..]);
                  && Goal(v.tree, held, cur.ino, cs, parent, memory, n) ==
                     Goal(v.tree, held, next.ino, cs', parent, memory, n + 1)
                  && cs != [] && (parent ==> cs' != [] && cs[|cs| - 1] == cs'[|cs'| - 1]))
  {
    hide SbInfo.Valid; hide SbInfo.FreeSet; hide Ext2.Valid; hide BlockCache.Pinned; hide Vfs.CacheOk;
    hide Vfs.Meaning; hide Vfs.Refs; hide SbInfo.InUse;
    hide Vfs.Sound; hide Kept; hide Target; hide Without; hide SameViews; hide Components; hide Goal; hide InodesOk;
    ghost var L, files, cs := v.fs.sbi.cache.L, v.fs.files, Components(path[pos..]);
    ViewsSelf(L, files);
    KeptSame(L, files, L, files);
    done, r, namebuf, next := true, null, [], cur;
    var some, last, name;
    some, last, name, rest := NextName(path, pos);
    FilesInUse(v, cur);
    if !some {
      GoalHere(v.tree, held, cur.ino, [], memory, n);
      if parent {
        LetGo(v, cur);
        return;
      }
      r := cur;
      return;
    }
    ghost var cs' := Components(path[rest..]);
    if parent && last {
      assert cs == [name];
      GoalHere(v.tree, held, cur.ino, name, memory, n);
      namebuf := name;
      r := cur;
      return;
    }
    GoalStep(v.tree, held, cur.ino, name, cs', parent, memory, n);
    if cur.kind != Dir {
      NoTarget(v, cur, name);
      LetGo(v, cur);
      return;
    }
    ghost var cached := v.icache;
    ghost var f := Target(v.tree, cur.ino, name);
    assert f in Numbers(v) <==> exists i :: i in cached && i.ino == f;
    var found, oom := Descend(v, cur, name, memory(n));
    if found == null {
      return;
    }
    next, done := found, false;
  }

  lemma FilesInUse(v: Vfs, cur: Inode)
    requires v.Valid() && cur in v.icache
    ensures cur.ino > 0
  {
    hide SbInfo.Valid; hide SbInfo.FreeSet; hide Ext2.Valid; hide Vfs.CacheOk; hide Vfs.Meaning;
    v.InCache(cur);
    v.NumberIsValid(cur.ino);
  }

  lemma NoTarget(v: Vfs, cur: Inode, name: Name)
    requires v.Valid() && cur in v.icache && cur.kind != Dir
    ensures Target(v.tree, cur.ino, name) == 0
  {
    hide SbInfo.Valid; hide SbInfo.FreeSet; hide Ext2.Valid; hide Vfs.CacheOk; hide Vfs.Meaning;
    NotDir(v, cur);
  }

  /** namex.  The path must start at the root.  Without parent: the inode the names of the path lead to.  With
      parent: the inode that all names but the last lead to, and that last name.  Null exactly when the path is not
      absolute, has no last name to spare, or does not get there: a name leads nowhere, or memory is short for an inode
      on the way that is not cached.  The one inode returned has one more
      reference, every other as many as before, on every exit; nothing else changes. */
  method Walk(v: Vfs, path: seq<u8>, parent: bool, memory: nat -> bool)
    returns (r: Inode?, namebuf: Name)
    requires v.Valid() && |v.fs.sbi.cache.pins| + 3 < NBLKNUM
    modifies v, v.icache, v.fs, v.fs.sbi.cache, v.fs.sbi.cache.slots, v.fs.sbi.cache.disk`sectors, v.fs.sbi.gb
    ensures v.Valid() && v.fs.sbi.cache.pins == old(v.fs.sbi.cache.pins)
    ensures v.meta == old(v.meta) && v.tree == old(v.tree) && v.fs.sbi.FreeSet(Inodes) == old(v.fs.sbi.FreeSet(Inodes))
    ensures Kept(old(v.fs.sbi.cache.L), old(v.fs.files), v.fs.sbi.cache.L, v.fs.files)
    ensures path == [] || path[0] != SLASH ==> r == null
    ensures path != [] && path[0] == SLASH ==>
              Answer(r, namebuf, Goal(v.tree, old(Numbers(v)), v.root.ino, Components(path), parent, memory, 0),
                Components(path), parent)
    ensures r != null ==> r in v.icache
    ensures forall x :: v.Refs(x) == old(v.Refs(x)) + if r != null && x == r.ino then 1 else 0
  {
    hide SbInfo.Valid; hide SbInfo.FreeSet; hide Ext2.Valid; hide BlockCache.Pinned; hide Vfs.CacheOk;
    hide Vfs.Meaning; hide Vfs.Refs; hide SbInfo.InUse;
    hide Kept; hide SameViews; hide Components; hide Goal; hide Answer;
    r, namebuf := null, [];
    ghost var L, files, cs, held := v.fs.sbi.cache.L, v.fs.files, Components(path), Numbers(v);
    ViewsSelf(L, files);
    KeptSame(L, files, L, files);
    if path == [] || path[0] != SLASH {
      return;
    }
    RootHeld(v);
    var cur := v.root;
    v.Reference(cur, 1);
    assert Numbers(v) == held;
    SkipStep(path, 0);
    assert path[0..] == path;
    var pos := SkipSlash(path, 1);
    r, namebuf := WalkFrom(v, cur, path, pos, parent, memory);
    KeptTwice(L, files, L, files, v.fs.sbi.cache.L, v.fs.files);
  }

  /** The loop of namex, from the root already held. */
  method WalkFrom(v: Vfs, start: Inode, path: seq<u8>, from: nat, parent: bool, memory: nat -> bool)
    returns (r: Inode?, namebuf: Name)
    requires v.Valid() && |v.fs.sbi.cache.pins| + 3 < NBLKNUM && start == v.root && start in v.icache
             && v.Refs(start.ino) >= 2
    requires from <= |path| && (from < |path| ==> path[from] != SLASH)
    modifies v, v.icache, v.fs, v.fs.sbi.cache, v.fs.sbi.cache.slots, v.fs.sbi.cache.disk`sectors, v.fs.sbi.gb
    ensures v.Valid() && v.fs.sbi.cache.pins == old(v.fs.sbi.cache.pins)
    ensures v.meta == old(v.meta) && v.tree == old(v.tree) && v.fs.sbi.FreeSet(Inodes) == old(v.fs.sbi.FreeSet(Inodes))
    ensures Kept(old(v.fs.sbi.cache.L), old(v.fs.files), v.fs.sbi.cache.L, v.fs.files)
    ensures Answer(r, namebuf, Goal(v.tree, old(Numbers(v)), start.ino, Components(path[from..]), parent, memory, 0),
            Components(path[from..]), parent)
    ensures r != null ==> r in v.icache
    ensures forall x ::
            v.Refs(x) == old(v.Refs(x)) - (if x == start.ino then 1 else 0) + if r != null && x == r.ino then 1 else 0
  {
    hide SbInfo.Valid; hide SbInfo.FreeSet; hide Trees; hide InodesOk; hide BlockCache.Pinned; hide Vfs.CacheOk;
    hide Vfs.Meaning; hide Vfs.Refs; hide SbInfo.InUse;
    hide Kept; hide SameViews; hide Components; hide Goal; hide Answer; hide Holding;
    ghost var L, files, cs, held := v.fs.sbi.cache.L, v.fs.files, Components(path[from..]), Numbers(v);
    RefsOfNumbers(v);
    ViewsSelf(L, files);
    KeptSame(L, files, L, files);
    HoldingRoot(v);
    var cur, pos, done := start, from, false;
    r, namebuf := null, [];
    var n := 0;
    while !done
      invariant v.Valid() && v.fs.sbi.cache.pins == old(v.fs.sbi.cache.pins)
      invariant v.meta == old(v.meta) && v.tree == old(v.tree)
                && v.fs.sbi.FreeSet(Inodes) == old(v.fs.sbi.FreeSet(Inodes))
      invariant Kept(L, files, v.fs.sbi.cache.L, v.fs.files)
      invariant forall i :: i in v.icache ==> i in old(v.icache) || fresh(i)
      invariant 0 <= pos <= |path| && (pos < |path| ==> path[pos] != SLASH)
      invariant !done ==> Holding(v, cur)
      invariant !done ==>
                forall x :: v.Refs(x) ==
                  old(v.Refs(x)) - (if x == start.ino then 1 else 0) + if x == cur.ino then 1 else 0
      invariant !done ==>
                Goal(v.tree, held, start.ino, cs, parent, memory, 0) ==
                  Goal(v.tree, held, cur.ino, Components(path[pos..]), parent, memory, n)
      invariant !done && parent ==> SameLast(cs, Components(path[pos..]))
      invariant done ==>
                && Answer(r, namebuf, Goal(v.tree, held, start.ino, cs, parent, memory, 0), cs, parent)
                && (r != null ==> r in v.icache)
      invariant done ==>
                forall x :: v.Refs(x) == old(v.Refs(x)) - (if x == start.ino then 1 else 0) + if r != null
                  && x == r.ino then 1 else 0
      decreases if done then 0 else 1, |path| - pos
    {
      assert forall k :: 0 <= k < |v.icache| ==> v.icache[k] in v.icache;
      ghost var L1, files1, rest := v.fs.sbi.cache.L, v.fs.files, Components(path[pos..]);
      var next, pos';
      RefsOfNumbers(v);
      done, r, namebuf, next, pos' := Step(v, cur, path, pos, parent, memory, n, held);
      KeptTwice(L, files, L1, files1, v.fs.sbi.cache.L, v.fs.files);
      if done {
        AnswerFor(r, namebuf, Goal(v.tree, held, start.ino, cs, parent, memory, 0), rest, cs, parent);
      } else {
        cur, pos, n := next, pos', n + 1;
      }
    }
  }

  /** Both have a last name, and it is the same, or neither has one. */
  ghost predicate SameLast(a: seq<Name>, b: seq<Name>) {
    (a == [] <==> b == []) && (a != [] ==> a[|a| - 1] == b[|b| - 1])
  }

  lemma AnswerFor(r: Inode?, namebuf: Name, goal: nat, rest: seq<Name>, cs: seq<Name>, parent: bool)
    requires Answer(r, namebuf, goal, rest, parent) && (parent ==> SameLast(cs, rest))
    ensures Answer(r, namebuf, goal, cs, parent)
  {
  }

  lemma HoldingRoot(v: Vfs)
    requires v.root in v.icache && v.Refs(v.root.ino) >= 2
    ensures Holding(v, v.root)
  {
    hide Vfs.Refs;
  }
}
