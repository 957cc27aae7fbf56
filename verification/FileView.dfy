/** What a file contains: logical block lbk is the data block at the end of its path, or zeros for a hole. */
module FileView {
  import opened Bytes
  import opened FileTree

  /** Blocks reachable without the triple indirect tree: 12 + 1024 + 1024 * 1024. */
  const MAX_LBK: nat := 1049612

  /** The arithmetic of ext2_read_block and ext2_write_block. */
  function PathOf(lbk: nat): (p: seq<nat>)
    requires lbk < MAX_LBK
  {
    if lbk < NDIR_BLOCKS then [lbk]
    else if lbk - NDIR_BLOCKS < PTRS then [IND_BLOCK, lbk - NDIR_BLOCKS]
    else [DIND_BLOCK, (lbk - NDIR_BLOCKS - PTRS) / PTRS, (lbk - NDIR_BLOCKS - PTRS) % PTRS]
  }

  lemma PathOfLeaf(lbk: nat)
    requires lbk < MAX_LBK
    ensures LeafPath(PathOf(lbk))
  {
  }

  /** Different logical blocks have different paths. */
  lemma PathOfInjective(a: nat, b: nat)
    requires a < MAX_LBK && b < MAX_LBK && PathOf(a) == PathOf(b)
    ensures a == b
  {
    var p, q := PathOf(a), PathOf(b);
    assert |p| == |q| && p[0] == q[0] && p[|p| - 1] == q[|q| - 1] && (|p| == 3 ==> p[1] == q[1]);
  }

  /** Every byte offset a 32-bit file offset can name lies in the supported range, so the -1 for triple indirect
      blocks is never returned for one. */
  lemma OffsetsSupported(offset: u32)
    ensures offset / BLKSZ < MAX_LBK
  {
  }

  /** The contents of logical block lbk. */
  ghost function FileBlock(L: seq<Block>, ib: Ptrs, lbk: nat): (b: Block)
    requires lbk < MAX_LBK
  {
    var n := Node(L, ib, PathOf(lbk));
    if 0 < n < |L| then L[n] else Zeros(BLKSZ)
  }

  /** Block n of the disk, zeros when there is none. */
  ghost function BlockOrHole(L: seq<Block>, n: nat): Block {
    if 0 < n < |L| then L[n] else Zeros(BLKSZ)
  }

  /** The block whose number is the little-endian word k of block n. */
  ghost function Through(L: seq<Block>, n: nat, k: nat): nat
    requires k < PTRS
  {
    if 0 < n < |L| then L[n][4 * k] as nat + 0x100 * L[n][4 * k + 1] as nat + 0x1_0000 * L[n][4 * k + 2] as nat
                        + 0x100_0000 * L[n][4 * k + 3] as nat
    else 0
  }

  /** Where the contents of a logical block lie: behind one of the first twelve pointers of the inode, behind a word of
      the block the thirteenth leads to, or behind a word of a block found through a word of the one the fourteenth
      leads to. */
  lemma BlockPlaces(L: seq<Block>, ib: Ptrs, lbk: nat)
    requires lbk < MAX_LBK
    ensures lbk < 12 ==> FileBlock(L, ib, lbk) == BlockOrHole(L, ib[lbk])
    ensures 12 <= lbk < 1036 ==> FileBlock(L, ib, lbk) == BlockOrHole(L, Through(L, ib[12], lbk - 12))
    ensures 1036 <= lbk ==>
              FileBlock(L, ib, lbk)
              == BlockOrHole(L, Through(L, Through(L, ib[13], (lbk - 1036) / 1024), (lbk - 1036) % 1024))
  {
    hide PtrAt;
    var p := PathOf(lbk);
    NodeThrough(L, ib, p);
    if |p| > 1 {
      NodeThrough(L, ib, p[..|p| - 1]);
    }
    if |p| > 2 {
      assert p[..2][..1] == p[..1];
      NodeThrough(L, ib, p[..1]);
    }
  }

  lemma NodeThrough(L: seq<Block>, ib: Ptrs, p: seq<nat>)
    requires ValidPath(p)
    ensures |p| == 1 ==> Node(L, ib, p) == ib[p[0]]
    ensures |p| > 1 ==> Node(L, ib, p) == Through(L, Node(L, ib, p[..|p| - 1]), p[|p| - 1])
  {
    var up := Node(L, ib, p[..|p| - 1]);
    if |p| > 1 && 0 < up < |L| {
      PtrIsWord(L[up], p[|p| - 1]);
    }
  }

  /** Byte o of the file. */
  ghost function FileByte(L: seq<Block>, ib: Ptrs, o: nat): u8
    requires o / BLKSZ < MAX_LBK
  {
    FileBlock(L, ib, o / BLKSZ)[o % BLKSZ]
  }

  ghost predicate SameViews(L: seq<Block>, files: map<nat, Ptrs>, L': seq<Block>, files': map<nat, Ptrs>) {
    files'.Keys == files.Keys &&
    forall g, k :: g in files && 0 <= k < MAX_LBK ==> FileBlock(L', files'[g], k) == FileBlock(L, files[g], k)
  }

  /** Logical block lbk of file f now holds buf; all other blocks of all files are as before. */
  ghost predicate OneBlockWritten(L: seq<Block>, files: map<nat, Ptrs>, L': seq<Block>, files': map<nat, Ptrs>, f: nat,
      lbk: nat, buf: Block) {
    files'.Keys == files.Keys &&
    forall g, k :: g in files && 0 <= k < MAX_LBK ==>
      FileBlock(L', files'[g], k) == if g == f && k == lbk then buf else FileBlock(L, files[g], k)
  }

  /** Changes outside the blocks in use show in no file. */
  lemma ViewsSame(L: seq<Block>, L': seq<Block>, files: map<nat, Ptrs>, inUse: set<nat>)
    requires Trees(L, files, inUse) && |L'| == |L|
    requires forall b :: b in inUse ==> L'[b] == L[b]
    ensures Trees(L', files, inUse)
    ensures SameViews(L, files, L', files)
    ensures forall f, p :: f in files && ValidPath(p) ==> Node(L', files[f], p) == Node(L, files[f], p)
  {
    TreesSame(L, L', files, inUse);
    forall g, k | g in files && 0 <= k < MAX_LBK
      ensures FileBlock(L', files[g], k) == FileBlock(L, files[g], k)
    {
      PathOfLeaf(k);
      NodeIn(L, files, inUse, g, PathOf(k));
    }
  }

  /** Hanging an empty index block into a tree shows in no file. */
  lemma AttachIndexView(L: seq<Block>, L': seq<Block>, files: map<nat, Ptrs>, ib': Ptrs, inUse: set<nat>, f: nat,
      P: seq<nat>, nb: u32)
    requires Trees(L, files, inUse) && Attached(L, L', files, ib', inUse, f, P, nb) && !LeafPath(P)
    ensures SameViews(L, files, L', files[f := ib'])
  {
    hide PathOf; hide Trees; hide FileBlock; hide LeafPath; hide Attached;
    PathsAreLeaves();
    TreesInRange(L, files, inUse);
    InFiles(L, L', files, ib', inUse, f, P, nb);
    forall g, k | g in files && 0 <= k < MAX_LBK
      ensures FileBlock(L', files[f := ib'][g], k) == FileBlock(L, files[g], k)
    {
      AttachedBlock(L, L', files, ib', inUse, f, P, nb, g, k);
    }
  }

  lemma PathsAreLeaves()
    ensures forall k :: 0 <= k < MAX_LBK ==> LeafPath(PathOf(k))
  {
    forall k | 0 <= k < MAX_LBK ensures LeafPath(PathOf(k)) {
      PathOfLeaf(k);
    }
  }

  lemma TreesInRange(L: seq<Block>, files: map<nat, Ptrs>, inUse: set<nat>)
    requires Trees(L, files, inUse)
    ensures InRange(L, inUse)
  {
  }

  lemma InFiles(L: seq<Block>, L': seq<Block>, files: map<nat, Ptrs>, ib': Ptrs, inUse: set<nat>, f: nat, P: seq<nat>,
      nb: u32)
    requires InRange(L, inUse) && Attached(L, L', files, ib', inUse, f, P, nb)
    ensures f in files
  {
  }

  /** What attaching at P does to logical block k of file g, unless k is the block at P itself. */
  lemma AttachedBlock(L: seq<Block>, L': seq<Block>, files: map<nat, Ptrs>, ib': Ptrs, inUse: set<nat>, f: nat,
      P: seq<nat>, nb: u32, g: nat, k: nat)
    requires Trees(L, files, inUse) && Attached(L, L', files, ib', inUse, f, P, nb)
    requires g in files && k < MAX_LBK && !(g == f && PathOf(k) == P)
    ensures FileBlock(L', files[f := ib'][g], k) == FileBlock(L, files[g], k)
  {
    hide NoSharing; hide PtrAt; hide PathOf;
    PathOfLeaf(k);
    var p := PathOf(k);
    AttachNode(L, L', files, ib', inUse, f, P, nb, g, p);
    NodeIn(L, files, inUse, g, p);
    if |P| > 1 {
      ValidPrefix(P);
      Unshared(L, files, f, P[..|P| - 1], g, p);
    }
  }

  /** Hanging a data block with contents buf under the empty place of logical block lbk. */
  lemma AttachLeafView(L: seq<Block>, L': seq<Block>, files: map<nat, Ptrs>, ib': Ptrs, inUse: set<nat>, f: nat,
      lbk: nat, nb: u32, buf: Block)
    requires lbk < MAX_LBK
    requires Trees(L, files, inUse) && Attached(L, L', files, ib', inUse, f, PathOf(lbk), nb) && L'[nb] == buf
    ensures OneBlockWritten(L, files, L', files[f := ib'], f, lbk, buf)
  {
    hide PathOf; hide Attached; hide Trees; hide FileBlock;
    PathOfLeaf(lbk);
    AttachedHere(L, L', files, ib', inUse, f, lbk, nb, buf);
    forall g, k | g in files && 0 <= k < MAX_LBK
      ensures FileBlock(L', files[f := ib'][g], k) == if g == f && k == lbk then buf else FileBlock(L, files[g], k)
    {
      if g != f || k != lbk {
        if PathOf(k) == PathOf(lbk) {
          PathOfInjective(k, lbk);
        }
        AttachedBlock(L, L', files, ib', inUse, f, PathOf(lbk), nb, g, k);
      }
    }
  }

  lemma AttachedHere(L: seq<Block>, L': seq<Block>, files: map<nat, Ptrs>, ib': Ptrs, inUse: set<nat>, f: nat, lbk: nat,
      nb: u32, buf: Block)
    requires lbk < MAX_LBK
    requires Trees(L, files, inUse) && Attached(L, L', files, ib', inUse, f, PathOf(lbk), nb) && L'[nb] == buf
    ensures f in files && FileBlock(L', files[f := ib'][f], lbk) == buf
  {
    hide NoSharing; hide PtrAt; hide PathOf;
    PathOfLeaf(lbk);
    AttachNode(L, L', files, ib', inUse, f, PathOf(lbk), nb, f, PathOf(lbk));
  }

  /** Overwriting the data block that logical block lbk already has. */
  lemma LeafWriteView(L: seq<Block>, L': seq<Block>, files: map<nat, Ptrs>, inUse: set<nat>, f: nat, lbk: nat,
      buf: Block)
    requires Trees(L, files, inUse) && |L'| == |L| && f in files && lbk < MAX_LBK
    requires var n := Node(L, files[f], PathOf(lbk));
             n != 0 && n < |L| && L'[n] == buf && forall b :: b in inUse && b != n ==> L'[b] == L[b]
    ensures Trees(L', files, inUse)
    ensures OneBlockWritten(L, files, L', files, f, lbk, buf)
  {
    hide PathOf; hide NoLeak;
    PathOfLeaf(lbk);
    LeafWrite(L, L', files, inUse, f, PathOf(lbk));
    forall g, k | g in files && 0 <= k < MAX_LBK
      ensures FileBlock(L', files[g], k) == if g == f && k == lbk then buf else FileBlock(L, files[g], k)
    {
      PathOfLeaf(k);
      NodeIn(L, files, inUse, g, PathOf(k));
      Unshared(L, files, f, PathOf(lbk), g, PathOf(k));
      if PathOf(k) == PathOf(lbk) {
        PathOfInjective(k, lbk);
      }
    }
  }

  /** Putting nb into the empty inode pointer idx, with data as its contents. */
  lemma AttachedTop(L: seq<Block>, L1: seq<Block>, files: map<nat, Ptrs>, inUse: set<nat>, f: nat, idx: nat, nb: u32,
      data: Block)
    requires Trees(L, files, inUse) && f in files && idx < N_BLOCKS && files[f][idx] == 0
    requires |L1| == |L| && 0 < nb < |L| && nb !in inUse && forall b :: b in inUse ==> L1[b] == L[b]
    requires Level(idx) == 0 || data == Zeros(BLKSZ)
    ensures Attached(L, L1[nb := data], files, files[f][idx := nb], inUse, f, [idx], nb)
  {
    hide NoSharing; hide NoLeak; hide PtrAt;
    if Level(idx) != 0 {
      ZeroPtrs(data);
    }
  }

  /** Putting nb into empty entry k of the index block at path P. */
  lemma AttachedBelow(L: seq<Block>, L1: seq<Block>, files: map<nat, Ptrs>, inUse: set<nat>, f: nat, P: seq<nat>,
      up: nat, k: nat, nb: u32, data: Block)
    requires Trees(L, files, inUse) && f in files && ValidPath(P) && !LeafPath(P) && k < PTRS
    requires |L1| == |L| && 0 < nb < |L| && nb !in inUse && forall b :: b in inUse ==> L1[b] == L[b]
    requires 0 < up < |L| && up == Node(L, files[f], P) && PtrAt(L[up], k) == 0
    requires LeafPath(P + [k]) || data == Zeros(BLKSZ)
    ensures Attached(L, L1[up := PutPtr(L[up], k, nb)][nb := data], files, files[f], inUse, f, P + [k], nb)
  {
    hide NoSharing; hide NoLeak; hide PtrAt;
    NodeIn(L, files, inUse, f, P);
    PutPtrAt(L[up], k, nb);
    assert (P + [k])[..|P|] == P;
    ZeroPtrs(Zeros(BLKSZ));
  }

  /** A fresh zeroed index block under inode pointer idx. */
  lemma GrowTop(L: seq<Block>, L1: seq<Block>, files: map<nat, Ptrs>, inUse: set<nat>, f: nat, idx: nat, nb: u32)
    requires Trees(L, files, inUse) && f in files && idx < N_BLOCKS && files[f][idx] == 0 && Level(idx) != 0
    requires |L1| == |L| && 0 < nb < |L| && nb !in inUse && forall b :: b in inUse ==> b < |L| && L1[b] == L[b]
    ensures Trees(L1[nb := Zeros(BLKSZ)], files[f := files[f][idx := nb]], inUse + {nb})
    ensures SameViews(L, files, L1[nb := Zeros(BLKSZ)], files[f := files[f][idx := nb]])
  {
    hide Trees; hide Attached; hide SameViews;
    TreesInRange(L, files, inUse);
    AttachedTop(L, L1, files, inUse, f, idx, nb, Zeros(BLKSZ));
    AttachKeeps(L, L1[nb := Zeros(BLKSZ)], files, files[f][idx := nb], inUse, f, [idx], nb);
    AttachIndexView(L, L1[nb := Zeros(BLKSZ)], files, files[f][idx := nb], inUse, f, [idx], nb);
  }

  /** A fresh zeroed index block under entry k of the index block at P. */
  lemma GrowBelow(L: seq<Block>, L1: seq<Block>, files: map<nat, Ptrs>, inUse: set<nat>, f: nat, P: seq<nat>, up: nat,
      k: nat, nb: u32)
    requires Trees(L, files, inUse) && f in files && ValidPath(P) && k < PTRS && ValidPath(P + [k])
             && !LeafPath(P + [k])
    requires 0 < up < |L| && up == Node(L, files[f], P) && PtrAt(L[up], k) == 0
    requires |L1| == |L| && 0 < nb < |L| && nb !in inUse && forall b :: b in inUse ==> b < |L| && L1[b] == L[b]
    ensures var L2 := L1[up := PutPtr(L[up], k, nb)][nb := Zeros(BLKSZ)];
            Trees(L2, files, inUse + {nb}) && SameViews(L, files, L2, files) && Node(L2, files[f], P + [k]) == nb
  {
    hide Trees; hide Attached; hide SameViews; hide PtrAt; hide PutPtr; hide Node;
    TreesInRange(L, files, inUse);
    var L2 := L1[up := PutPtr(L[up], k, nb)][nb := Zeros(BLKSZ)];
    AttachedBelow(L, L1, files, inUse, f, P, up, k, nb, Zeros(BLKSZ));
    AttachKeeps(L, L2, files, files[f], inUse, f, P + [k], nb);
    AttachIndexView(L, L2, files, files[f], inUse, f, P + [k], nb);
    AttachNode(L, L2, files, files[f], inUse, f, P + [k], nb, f, P + [k]);
    assert files[f := files[f]] == files;
  }

  /** A fresh data block holding buf for direct logical block lbk. */
  lemma GrowDirect(L: seq<Block>, L1: seq<Block>, files: map<nat, Ptrs>, inUse: set<nat>, f: nat, lbk: nat, nb: u32,
      buf: Block)
    requires Trees(L, files, inUse) && f in files && lbk < NDIR_BLOCKS && files[f][lbk] == 0
    requires |L1| == |L| && 0 < nb < |L| && nb !in inUse && forall b :: b in inUse ==> b < |L| && L1[b] == L[b]
    ensures Trees(L1[nb := buf], files[f := files[f][lbk := nb]], inUse + {nb})
    ensures OneBlockWritten(L, files, L1[nb := buf], files[f := files[f][lbk := nb]], f, lbk, buf)
  {
    hide Trees; hide Attached; hide OneBlockWritten;
    TreesInRange(L, files, inUse);
    AttachedTop(L, L1, files, inUse, f, lbk, nb, buf);
    AttachKeeps(L, L1[nb := buf], files, files[f][lbk := nb], inUse, f, [lbk], nb);
    AttachLeafView(L, L1[nb := buf], files, files[f][lbk := nb], inUse, f, lbk, nb, buf);
  }

  /** A fresh data block holding buf under entry k of the last index block on the way to logical block lbk. */
  lemma GrowLeaf(L: seq<Block>, L1: seq<Block>, files: map<nat, Ptrs>, inUse: set<nat>, f: nat, lbk: nat, P: seq<nat>,
      up: nat, k: nat, nb: u32, buf: Block)
    requires Trees(L, files, inUse) && f in files && ValidPath(P) && k < PTRS && lbk < MAX_LBK && PathOf(lbk) == P + [k]
    requires 0 < up < |L| && up == Node(L, files[f], P) && PtrAt(L[up], k) == 0
    requires |L1| == |L| && 0 < nb < |L| && nb !in inUse && forall b :: b in inUse ==> b < |L| && L1[b] == L[b]
    ensures var L2 := L1[up := PutPtr(L[up], k, nb)][nb := buf];
            Trees(L2, files, inUse + {nb}) && OneBlockWritten(L, files, L2, files, f, lbk, buf)
  {
    hide Trees; hide Attached; hide OneBlockWritten; hide PtrAt; hide PutPtr; hide Node; hide PathOf;
    TreesInRange(L, files, inUse);
    PathOfLeaf(lbk);
    var L2 := L1[up := PutPtr(L[up], k, nb)][nb := buf];
    AttachedBelow(L, L1, files, inUse, f, P, up, k, nb, buf);
    AttachKeeps(L, L2, files, files[f], inUse, f, P + [k], nb);
    AttachLeafView(L, L2, files, files[f], inUse, f, lbk, nb, buf);
    assert files[f := files[f]] == files;
  }

  lemma ViewsSelf(L: seq<Block>, files: map<nat, Ptrs>)
    ensures SameViews(L, files, L, files)
  {
  }

  /** Logical block lbk of file f has no block of its own. */
  ghost predicate IsHole(L: seq<Block>, files: map<nat, Ptrs>, f: nat, lbk: nat) {
    f in files && lbk < MAX_LBK ==> FileBlock(L, files[f], lbk) == Zeros(BLKSZ)
  }

  /** What a block write did: on success logical block lbk of file f holds buf and nothing else changed in any
      file; on failure, which needs a hole, nothing changed in any file. */
  ghost predicate Outcome(ok: bool, L: seq<Block>, files: map<nat, Ptrs>, L': seq<Block>, files': map<nat, Ptrs>,
      f: nat, lbk: nat, buf: Block) {
    if ok then OneBlockWritten(L, files, L', files', f, lbk, buf)
    else SameViews(L, files, L', files') && IsHole(L, files, f, lbk)
  }

  /** A file with no pointer at p has a hole at every place below p. */
  lemma {:induction false} HoleBelow(L: seq<Block>, files: map<nat, Ptrs>, f: nat, p: seq<nat>, lbk: nat)
    requires f in files && p != [] && Node(L, files[f], p) == 0
    requires lbk < MAX_LBK && |p| <= |PathOf(lbk)| && PathOf(lbk)[..|p|] == p
    ensures IsHole(L, files, f, lbk)
    decreases 3 - |p|
  {
    var q := PathOf(lbk);
    if |p| == |q| {
      assert q == p;
    } else {
      assert q[..|p| + 1][..|p|] == p;
      HoleBelow(L, files, f, q[..|p| + 1], lbk);
    }
  }

  lemma OutcomeAfter(ok: bool, L0: seq<Block>, files0: map<nat, Ptrs>, L1: seq<Block>, files1: map<nat, Ptrs>,
      L2: seq<Block>, files2: map<nat, Ptrs>, f: nat, lbk: nat, buf: Block)
    requires SameViews(L0, files0, L1, files1) && Outcome(ok, L1, files1, L2, files2, f, lbk, buf)
    ensures Outcome(ok, L0, files0, L2, files2, f, lbk, buf)
  {
    hide FileBlock;
    forall g, k | g in files0 && 0 <= k < MAX_LBK
      ensures FileBlock(L2, files2[g], k) == if ok && g == f && k == lbk then buf else FileBlock(L0, files0[g], k)
    {
      assert FileBlock(L1, files1[g], k) == FileBlock(L0, files0[g], k);
    }
  }

  /** The pointers on the way to logical block lbk, read one level at a time. */
  lemma TopNode(L: seq<Block>, files: map<nat, Ptrs>, inUse: set<nat>, f: nat, idx: nat)
    requires Trees(L, files, inUse) && f in files && idx < N_BLOCKS
    ensures Node(L, files[f], [idx]) == files[f][idx]
    ensures files[f][idx] != 0 ==> files[f][idx] in inUse && 0 < files[f][idx] < |L|
  {
    NodeIn(L, files, inUse, f, [idx]);
  }

  lemma NextNode(L: seq<Block>, files: map<nat, Ptrs>, inUse: set<nat>, f: nat, p: seq<nat>, k: nat)
    requires Trees(L, files, inUse) && f in files && ValidPath(p) && !LeafPath(p) && k < PTRS
    ensures var n := Node(L, files[f], p);
            && (n == 0 ==> Node(L, files[f], p + [k]) == 0)
            && (n != 0 ==> n < |L| && Node(L, files[f], p + [k]) == PtrAt(L[n], k))
            && (Node(L, files[f], p + [k]) != 0 ==>
               Node(L, files[f], p + [k]) in inUse && 0 < Node(L, files[f], p + [k]) < |L|)
  {
    hide Trees; hide PtrAt;
    assert (p + [k])[..|p|] == p;
    NodeIn(L, files, inUse, f, p);
    NodeIn(L, files, inUse, f, p + [k]);
  }

  /** Rewriting the data block logical block lbk already has. */
  lemma Rewrite(L: seq<Block>, files: map<nat, Ptrs>, inUse: set<nat>, f: nat, lbk: nat, n: nat, buf: Block)
    requires Trees(L, files, inUse) && f in files && lbk < MAX_LBK && n == Node(L, files[f], PathOf(lbk)) && 0 < n < |L|
    ensures Trees(L[n := buf], files, inUse) && OneBlockWritten(L, files, L[n := buf], files, f, lbk, buf)
  {
    hide Trees; hide OneBlockWritten; hide PathOf; hide Node;
    TreesInRange(L, files, inUse);
    LeafWriteView(L, L[n := buf], files, inUse, f, lbk, buf);
  }

  lemma FailedOutcome(L: seq<Block>, files: map<nat, Ptrs>, f: nat, lbk: nat, buf: Block)
    requires IsHole(L, files, f, lbk)
    ensures Outcome(false, L, files, L, files, f, lbk, buf)
  {
  }

  /** Without its first index block an indirect logical block is a hole. */
  lemma NoIndexBlock(L: seq<Block>, files: map<nat, Ptrs>, f: nat, lbk: nat, idx: nat)
    requires f in files && NDIR_BLOCKS <= lbk < MAX_LBK
    requires idx == (if lbk < NDIR_BLOCKS + PTRS then IND_BLOCK else DIND_BLOCK) && files[f][idx] == 0
    ensures IsHole(L, files, f, lbk)
  {
    assert PathOf(lbk)[..1] == [idx];
    HoleBelow(L, files, f, [idx], lbk);
  }

  /** Without its second index block a double indirect logical block is a hole. */
  lemma NoSecondBlock(L: seq<Block>, files: map<nat, Ptrs>, f: nat, lbk: nat, k: nat)
    requires f in files && k < PTRS * PTRS && lbk == NDIR_BLOCKS + PTRS + k
    requires Node(L, files[f], [DIND_BLOCK, k / PTRS]) == 0
    ensures IsHole(L, files, f, lbk)
  {
    DoublePath(lbk, k);
    HoleBelow(L, files, f, [DIND_BLOCK, k / PTRS], lbk);
  }

  lemma IndirectPath(lbk: nat)
    requires NDIR_BLOCKS <= lbk < NDIR_BLOCKS + PTRS
    ensures PathOf(lbk) == [IND_BLOCK] + [lbk - NDIR_BLOCKS] && ValidPath([IND_BLOCK])
  {
  }

  lemma DoublePath(lbk: nat, k: nat)
    requires k < PTRS * PTRS && lbk == NDIR_BLOCKS + PTRS + k
    ensures PathOf(lbk) == [DIND_BLOCK, k / PTRS] + [k % PTRS] && ValidPath([DIND_BLOCK, k / PTRS])
  {
  }

  // Bytes

  /** The largest file offset reachable without the triple indirect tree is beyond 32 bits. */
  const MAX_BYTES: nat := MAX_LBK * BLKSZ

  /** File f reads as before except that bytes lie at off; every other file reads as before. */
  ghost predicate Overlaid(L0: seq<Block>, files0: map<nat, Ptrs>, L: seq<Block>, files: map<nat, Ptrs>, f: nat,
      off: nat, bytes: seq<u8>) {
    && files.Keys == files0.Keys && f in files
    && (forall o :: 0 <= o < MAX_BYTES ==>
          FileByte(L, files[f], o) == if off <= o < off + |bytes| then bytes[o - off] else FileByte(L0, files0[f], o))
    && (forall g, k :: g in files && g != f && 0 <= k < MAX_LBK ==>
       FileBlock(L, files[g], k) == FileBlock(L0, files0[g], k))
  }

  /** What a write left, byte by byte in the blocks of the files. */
  lemma WrittenBytes(L0: seq<Block>, files0: map<nat, Ptrs>, L: seq<Block>, files: map<nat, Ptrs>, f: nat, off: nat,
      bytes: seq<u8>)
    requires Overlaid(L0, files0, L, files, f, off, bytes) && f in files0
    ensures forall o :: 0 <= o < MAX_BYTES ==>
              FileBlock(L, files[f], o / 4096)[o % 4096]
              == if off <= o < off + |bytes| then bytes[o - off] else FileBlock(L0, files0[f], o / 4096)[o % 4096]
    ensures forall g, k :: g in files && g in files0 && g != f && 0 <= k < MAX_LBK ==>
              FileBlock(L, files[g], k) == FileBlock(L0, files0[g], k)
  {
    hide FileBlock;
    forall o | 0 <= o < MAX_BYTES
      ensures FileBlock(L, files[f], o / 4096)[o % 4096]
              == if off <= o < off + |bytes| then bytes[o - off] else FileBlock(L0, files0[f], o / 4096)[o % 4096]
    {
      assert FileByte(L, files[f], o)
          == if off <= o < off + |bytes| then bytes[o - off] else FileByte(L0, files0[f], o);
    }
  }

  lemma OverlaidNothing(L: seq<Block>, files: map<nat, Ptrs>, f: nat, off: nat)
    requires f in files
    ensures Overlaid(L, files, L, files, f, off, [])
  {
    hide FileByte; hide FileBlock;
  }

  lemma OverlaidSame(L0: seq<Block>, files0: map<nat, Ptrs>, L1: seq<Block>, files1: map<nat, Ptrs>, L2: seq<Block>,
      files2: map<nat, Ptrs>, f: nat, off: nat, bytes: seq<u8>)
    requires Overlaid(L0, files0, L1, files1, f, off, bytes) && SameViews(L1, files1, L2, files2)
    ensures Overlaid(L0, files0, L2, files2, f, off, bytes)
  {
    hide FileBlock;
    forall o | 0 <= o < MAX_BYTES
      ensures FileByte(L2, files2[f], o) == FileByte(L1, files1[f], o)
    {
      assert FileBlock(L2, files2[f], o / BLKSZ) == FileBlock(L1, files1[f], o / BLKSZ);
    }
  }

  /** One round of the write loop: read a block, overlay the next chunk, write it back. */
  lemma OverlayChunk(L0: seq<Block>, files0: map<nat, Ptrs>, L1: seq<Block>, files1: map<nat, Ptrs>, L2: seq<Block>,
      files2: map<nat, Ptrs>,
                     f: nat, off: nat, src: seq<u8>, total: nat, chunk: nat, lbk: nat, blkOff: nat, buf: Block)
    requires total + chunk <= |src| && lbk < MAX_LBK && blkOff + chunk <= BLKSZ && off + total == lbk * BLKSZ + blkOff
    requires Overlaid(L0, files0, L1, files1, f, off, src[..total])
    requires buf == Splice(FileBlock(L1, files1[f], lbk), blkOff, src[total..total + chunk])
    requires OneBlockWritten(L1, files1, L2, files2, f, lbk, buf)
    ensures Overlaid(L0, files0, L2, files2, f, off, src[..total + chunk])
  {
    hide FileBlock; hide Splice;
    SpliceBytes(FileBlock(L1, files1[f], lbk), blkOff, src[total..total + chunk]);
    forall o | 0 <= o < MAX_BYTES
      ensures FileByte(L2, files2[f], o) ==
              if off <= o < off + total + chunk then src[o - off] else FileByte(L0, files0[f], o)
    {
      assert FileBlock(L2, files2[f], o / BLKSZ) ==
             if o / BLKSZ == lbk then buf else FileBlock(L1, files1[f], o / BLKSZ);
      assert FileByte(L1, files1[f], o) ==
             if off <= o < off + total then src[..total][o - off] else FileByte(L0, files0[f], o);
    }
  }

  /** The bytes [off, off + n) of a file. */
  ghost function FileBytes(L: seq<Block>, ib: Ptrs, off: nat, n: nat): (r: seq<u8>)
    requires off + n <= MAX_BYTES
    ensures |r| == n
    ensures forall i :: 0 <= i < n ==> r[i] == FileByte(L, ib, off + i)
  {
    if n == 0 then [] else FileBytes(L, ib, off, n - 1) + [FileByte(L, ib, off + n - 1)]
  }

  /** Byte off + i lies in logical block (off + i) / 4096. */
  lemma BytesInBlocks(L: seq<Block>, ib: Ptrs, off: nat, n: nat)
    requires off + n <= MAX_BYTES
    ensures forall i :: 0 <= i < n ==>
              FileBytes(L, ib, off, n)[i] == FileBlock(L, ib, (off + i) / 4096)[(off + i) % 4096]
  {
    hide FileBlock;
  }

  /** One round of the read loop. */
  lemma ReadChunk(L: seq<Block>, ib: Ptrs, off: nat, total: nat, chunk: nat, lbk: nat, blkOff: nat)
    requires off + total + chunk <= MAX_BYTES && lbk < MAX_LBK && blkOff + chunk <= BLKSZ
             && off + total == lbk * BLKSZ + blkOff
    ensures FileBytes(L, ib, off, total) + FileBlock(L, ib, lbk)[blkOff..blkOff + chunk] ==
            FileBytes(L, ib, off, total + chunk)
  {
    hide FileBlock;
    var left := FileBytes(L, ib, off, total) + FileBlock(L, ib, lbk)[blkOff..blkOff + chunk];
    forall i | 0 <= i < total + chunk
      ensures left[i] == FileBytes(L, ib, off, total + chunk)[i]
    {
      if total <= i {
        assert (off + i) / BLKSZ == lbk && (off + i) % BLKSZ == blkOff + i - total;
      }
    }
  }
}
