/** The block-pointer trees of ext2 files over the logical disk: twelve direct pointers, then one single,
    one double and one triple indirect tree.  A pointer's place in a file is a path: the index among the
    inode's fifteen pointers, then an index into each index block on the way down. */
module FileTree {
  import opened Bytes

  const NDIR_BLOCKS: nat := 12
  const IND_BLOCK: nat := 12
  const DIND_BLOCK: nat := 13
  const TIND_BLOCK: nat := 14
  const N_BLOCKS: nat := 15
  const PTRS: nat := 1024

  type Ptrs = s: seq<u32> | |s| == N_BLOCKS witness seq(N_BLOCKS, _ => 0)

  /** ((u32 *)data)[k] */
  function PtrAt(b: Block, k: nat): u32
    requires k < PTRS
  {
    U32At(b, 4 * k)
  }

  function PutPtr(b: Block, k: nat, v: u32): Block
    requires k < PTRS
  {
    PutU32(b, 4 * k, v)
  }

  /** Pointer k is the little-endian word of bytes 4k to 4k + 3. */
  lemma PtrIsWord(b: Block, k: nat)
    requires k < PTRS
    ensures PtrAt(b, k) == b[4 * k] as nat + 0x100 * b[4 * k + 1] as nat + 0x1_0000 * b[4 * k + 2] as nat
                           + 0x100_0000 * b[4 * k + 3] as nat
  {
    FieldBytes(b, 4 * k);
  }

  /** Storing it writes these four bytes and no other. */
  lemma PutPtrBytes(b: Block, k: nat, v: u32)
    requires k < PTRS
    ensures var c := PutPtr(b, k, v);
            && c[4 * k] == v % 256 && c[4 * k + 1] == v / 0x100 % 256 && c[4 * k + 2] == v / 0x1_0000 % 256
            && c[4 * k + 3] == v / 0x100_0000 % 256
            && forall i :: 0 <= i < BLKSZ && !(4 * k <= i < 4 * k + 4) ==> c[i] == b[i]
  {
    PutU32Bytes(b, 4 * k, v);
  }

  /** Storing one pointer leaves the other 1023 of the block alone. */
  lemma PutPtrAt(b: Block, k: nat, v: u32)
    requires k < PTRS
    ensures forall j :: 0 <= j < PTRS ==> PtrAt(PutPtr(b, k, v), j) == if j == k then v else PtrAt(b, j)
  {
    PutU32Get(b, 4 * k, v);
    forall j | 0 <= j < PTRS && j != k
      ensures PtrAt(PutPtr(b, k, v), j) == PtrAt(b, j)
    {
      FieldFrame(PutPtr(b, k, v), b, 4 * j, 4);
    }
  }

  /** A zeroed index block points nowhere. */
  lemma ZeroPtrs(b: Block)
    requires forall i :: 0 <= i < BLKSZ ==> b[i] == 0
    ensures forall j :: 0 <= j < PTRS ==> PtrAt(b, j) == 0
  {
    forall j | 0 <= j < PTRS ensures PtrAt(b, j) == 0 {
      ZeroField(b, 4 * j, 4);
    }
  }

  /** How many levels of index blocks hang below inode pointer i. */
  function Level(i: nat): nat {
    if i < NDIR_BLOCKS then 0 else i - NDIR_BLOCKS + 1
  }

  ghost predicate ValidPath(p: seq<nat>) {
    p != [] && p[0] < N_BLOCKS && |p| <= 1 + Level(p[0]) && forall k :: 1 <= k < |p| ==> p[k] < PTRS
  }

  /** A path that ends at a data block. */
  ghost predicate LeafPath(p: seq<nat>) {
    ValidPath(p) && |p| == 1 + Level(p[0])
  }

  /** The block number stored at path p, 0 for none. */
  ghost function Node(L: seq<Block>, ib: Ptrs, p: seq<nat>): (n: nat)
    decreases |p|
  {
    if p == [] then
      0
    else if |p| == 1 then
      if p[0] < N_BLOCKS then ib[p[0]] else 0
    else
      var parent := Node(L, ib, p[..|p| - 1]);
      if parent == 0 || parent >= |L| || p[|p| - 1] >= PTRS then 0 else PtrAt(L[parent], p[|p| - 1])
  }

  /** The block at path p of file f. */
  ghost function At(L: seq<Block>, files: map<nat, Ptrs>, f: nat, p: seq<nat>): nat
    requires f in files
  {
    Node(L, files[f], p)
  }

  ghost predicate InRange(L: seq<Block>, inUse: set<nat>) {
    forall b :: b in inUse ==> 0 < b < |L|
  }

  /** Every non-zero pointer of every file leads to a block in use. */
  ghost predicate Sound(L: seq<Block>, files: map<nat, Ptrs>, inUse: set<nat>) {
    && InRange(L, inUse)
    && forall f, p :: f in files && ValidPath(p) && At(L, files, f, p) != 0 ==> At(L, files, f, p) in inUse
  }

  /** No block is reached twice: not by two files and not by two pointers of one file. */
  ghost predicate NoSharing(L: seq<Block>, files: map<nat, Ptrs>) {
    forall f, p, g, q :: (f in files && g in files && ValidPath(p) && ValidPath(q)
                          && At(L, files, f, p) == At(L, files, g, q) != 0) ==> f == g && p == q
  }

  ghost predicate Reached(L: seq<Block>, files: map<nat, Ptrs>, b: nat) {
    exists f, p :: f in files && ValidPath(p) && At(L, files, f, p) == b
  }

  /** Every data block in use belongs to some file. */
  ghost predicate NoLeak(L: seq<Block>, files: map<nat, Ptrs>, inUse: set<nat>) {
    forall b :: b in inUse ==> Reached(L, files, b)
  }

  ghost predicate Trees(L: seq<Block>, files: map<nat, Ptrs>, inUse: set<nat>) {
    Sound(L, files, inUse) && NoSharing(L, files) && NoLeak(L, files, inUse)
  }

  lemma Unshared(L: seq<Block>, files: map<nat, Ptrs>, f: nat, p: seq<nat>, g: nat, q: seq<nat>)
    requires NoSharing(L, files) && f in files && g in files && ValidPath(p) && ValidPath(q)
    ensures Node(L, files[f], p) == Node(L, files[g], q) != 0 ==> f == g && p == q
  {
    assert At(L, files, f, p) == Node(L, files[f], p) && At(L, files, g, q) == Node(L, files[g], q);
  }

  /** Files whose pointers are the same reach the same blocks. */
  lemma ReachedSame(L: seq<Block>, files: map<nat, Ptrs>, L': seq<Block>, files': map<nat, Ptrs>, b: nat)
    requires files'.Keys == files.Keys
    requires forall f, p :: f in files && ValidPath(p) && Node(L, files[f], p) == b ==> Node(L', files'[f], p) == b
    requires Reached(L, files, b)
    ensures Reached(L', files', b)
  {
    var f, p :| f in files && ValidPath(p) && At(L, files, f, p) == b;
    assert At(L', files', f, p) == b;
  }

  /** The places above a place in a tree are index blocks. */
  lemma ValidPrefix(p: seq<nat>)
    requires ValidPath(p) && |p| > 1
    ensures ValidPath(p[..|p| - 1]) && !LeafPath(p[..|p| - 1])
  {
  }

  /** No index block of a file changed. */
  ghost predicate IndexSame(L: seq<Block>, L': seq<Block>, ib: Ptrs) {
    |L'| == |L| &&
    forall q :: ValidPath(q) && !LeafPath(q) && 0 < Node(L, ib, q) < |L| ==> L'[Node(L, ib, q)] == L[Node(L, ib, q)]
  }

  /** If no index block of a file changed, its tree did not change. */
  lemma {:induction false} NodeSame(L: seq<Block>, L': seq<Block>, ib: Ptrs, p: seq<nat>)
    requires ValidPath(p) && IndexSame(L, L', ib)
    ensures Node(L', ib, p) == Node(L, ib, p)
    decreases |p|
  {
    if |p| > 1 {
      ValidPrefix(p);
      NodeSame(L, L', ib, p[..|p| - 1]);
    }
  }

  /** Trees speaks about pointers only. */
  lemma TreesOfNodes(L: seq<Block>, L': seq<Block>, files: map<nat, Ptrs>, inUse: set<nat>)
    requires Trees(L, files, inUse) && |L'| == |L|
    requires forall f, p :: f in files && ValidPath(p) ==> At(L', files, f, p) == At(L, files, f, p)
    ensures Trees(L', files, inUse)
  {
    hide At; hide ValidPath;
    forall b | b in inUse ensures Reached(L', files, b) {
      var f, p :| f in files && ValidPath(p) && At(L, files, f, p) == b;
      assert At(L', files, f, p) == b;
    }
  }

  lemma NodeIn(L: seq<Block>, files: map<nat, Ptrs>, inUse: set<nat>, f: nat, p: seq<nat>)
    requires Trees(L, files, inUse) && f in files && ValidPath(p)
    ensures Node(L, files[f], p) != 0 ==> Node(L, files[f], p) in inUse && Node(L, files[f], p) < |L|
  {
    assert At(L, files, f, p) == Node(L, files[f], p);
  }

  /** Blocks outside the trees may change freely. */
  lemma TreesSame(L: seq<Block>, L': seq<Block>, files: map<nat, Ptrs>, inUse: set<nat>)
    requires Trees(L, files, inUse) && |L'| == |L|
    requires forall b :: b in inUse ==> L'[b] == L[b]
    ensures Trees(L', files, inUse)
    ensures forall f, p :: f in files && ValidPath(p) ==> Node(L', files[f], p) == Node(L, files[f], p)
  {
    hide Trees; hide ValidPath; hide IndexSame;
    forall f, p | f in files && ValidPath(p)
      ensures Node(L', files[f], p) == Node(L, files[f], p)
    {
      IndexSameInUse(L, L', files, inUse, f);
      NodeSame(L, L', files[f], p);
    }
    TreesOfNodes(L, L', files, inUse);
  }

  lemma IndexSameInUse(L: seq<Block>, L': seq<Block>, files: map<nat, Ptrs>, inUse: set<nat>, f: nat)
    requires Trees(L, files, inUse) && |L'| == |L| && f in files
    requires forall b :: b in inUse ==> L'[b] == L[b]
    ensures IndexSame(L, L', files[f])
  {
    hide Trees; hide ValidPath;
    forall q | ValidPath(q) && !LeafPath(q) && 0 < Node(L, files[f], q) < |L|
      ensures L'[Node(L, files[f], q)] == L[Node(L, files[f], q)]
    {
      NodeIn(L, files, inUse, f, q);
    }
  }

  /** Overwriting a data block changes no pointer. */
  lemma LeafWrite(L: seq<Block>, L': seq<Block>, files: map<nat, Ptrs>, inUse: set<nat>, f: nat, leaf: seq<nat>)
    requires Trees(L, files, inUse) && |L'| == |L|
    requires f in files && LeafPath(leaf) && Node(L, files[f], leaf) != 0
    requires forall b :: b in inUse && b != Node(L, files[f], leaf) ==> L'[b] == L[b]
    ensures Trees(L', files, inUse)
    ensures forall g, p :: g in files && ValidPath(p) ==> Node(L', files[g], p) == Node(L, files[g], p)
  {
    hide Trees; hide ValidPath; hide IndexSame; hide LeafPath;
    forall g, p | g in files && ValidPath(p)
      ensures Node(L', files[g], p) == Node(L, files[g], p)
    {
      IndexSameAtLeaf(L, L', files, inUse, f, leaf, g);
      NodeSame(L, L', files[g], p);
    }
    TreesOfNodes(L, L', files, inUse);
  }

  /** A data block is nobody's index block. */
  lemma IndexSameAtLeaf(L: seq<Block>, L': seq<Block>, files: map<nat, Ptrs>, inUse: set<nat>, f: nat, leaf: seq<nat>,
      g: nat)
    requires Trees(L, files, inUse) && |L'| == |L| && g in files
    requires f in files && LeafPath(leaf) && Node(L, files[f], leaf) != 0
    requires forall b :: b in inUse && b != Node(L, files[f], leaf) ==> L'[b] == L[b]
    ensures IndexSame(L, L', files[g])
  {
    hide Sound; hide NoSharing; hide NoLeak; hide ValidPath;
    forall q | ValidPath(q) && !LeafPath(q) && 0 < Node(L, files[g], q) < |L|
      ensures L'[Node(L, files[g], q)] == L[Node(L, files[g], q)]
    {
      NodeIn(L, files, inUse, g, q);
      Unshared(L, files, f, leaf, g, q);
    }
  }

  /** What it means to hang block nb under the empty place P of file f. */
  ghost predicate Attached(L: seq<Block>, L': seq<Block>, files: map<nat, Ptrs>, ib': Ptrs, inUse: set<nat>, f: nat,
      P: seq<nat>, nb: u32)
    requires InRange(L, inUse)
  {
    && f in files && ValidPath(P) && |L'| == |L| && 0 < nb < |L| && nb !in inUse
    && Node(L, files[f], P) == 0
    && (|P| == 1 ==> ib' == files[f][P[0] := nb] && forall b :: b in inUse ==> L'[b] == L[b])
    && (|P| > 1 ==>
          var up := Node(L, files[f], P[..|P| - 1]);
          && ib' == files[f] && up != 0
          && (up in inUse ==> forall k :: 0 <= k < PTRS ==>
             PtrAt(L'[up], k) == if k == P[|P| - 1] then nb else PtrAt(L[up], k))
          && (forall b :: b in inUse && b != up ==> L'[b] == L[b]))
    && (!LeafPath(P) ==> forall k :: 0 <= k < PTRS ==> PtrAt(L'[nb], k) == 0)
  }

  lemma {:induction false} AttachNode(L: seq<Block>, L': seq<Block>, files: map<nat, Ptrs>, ib': Ptrs, inUse: set<nat>,
      f: nat, P: seq<nat>, nb: u32, g: nat, q: seq<nat>)
    requires Trees(L, files, inUse) && Attached(L, L', files, ib', inUse, f, P, nb)
    requires g in files && ValidPath(q)
    ensures Node(L', files[f := ib'][g], q) == if g == f && q == P then nb else Node(L, files[g], q)
    decreases |q|
  {
    hide NoSharing; hide PtrAt; hide NoLeak; hide Sound;
    var files' := files[f := ib'];
    if |q| > 1 {
      ValidPrefix(q);
      var q' := q[..|q| - 1];
      AttachNode(L, L', files, ib', inUse, f, P, nb, g, q');
      NodeIn(L, files, inUse, g, q');
      NodeStep(L, files[g], q);
      NodeStep(L', files'[g], q);
      if |P| > 1 {
        ValidPrefix(P);
        NodeStep(L, files[f], P);
        NodeIn(L, files, inUse, f, P[..|P| - 1]);
        Unshared(L, files, f, P[..|P| - 1], g, q');
        assert q == q' + [q[|q| - 1]] && P == P[..|P| - 1] + [P[|P| - 1]];
      }
      hide Node;
      hide ValidPath;
    } else {
      hide ValidPath;
    }
  }

  /** A place below the top, one step from the block above it. */
  lemma NodeStep(L: seq<Block>, ib: Ptrs, q: seq<nat>)
    requires ValidPath(q) && |q| > 1
    ensures var up := Node(L, ib, q[..|q| - 1]);
            Node(L, ib, q) == if up == 0 || up >= |L| then 0 else PtrAt(L[up], q[|q| - 1])
  {
    hide PtrAt;
  }

  /** Hanging a fresh block into an empty place keeps every tree sound and unshared, and changes that place only. */
  lemma AttachKeeps(L: seq<Block>, L': seq<Block>, files: map<nat, Ptrs>, ib': Ptrs, inUse: set<nat>, f: nat,
      P: seq<nat>, nb: u32)
    requires Trees(L, files, inUse) && Attached(L, L', files, ib', inUse, f, P, nb)
    ensures Trees(L', files[f := ib'], inUse + {nb})
    ensures forall g, q :: g in files && ValidPath(q) ==>
              Node(L', files[f := ib'][g], q) == if g == f && q == P then nb else Node(L, files[g], q)
  {
    hide PtrAt; hide NoLeak; hide NoSharing; hide Sound;
    AttachNodes(L, L', files, ib', inUse, f, P, nb);
    AttachSound(L, L', files, ib', inUse, f, P, nb);
    AttachNoLeak(L, L', files, ib', inUse, f, P, nb);
  }

  lemma AttachNodes(L: seq<Block>, L': seq<Block>, files: map<nat, Ptrs>, ib': Ptrs, inUse: set<nat>, f: nat,
      P: seq<nat>, nb: u32)
    requires Trees(L, files, inUse) && Attached(L, L', files, ib', inUse, f, P, nb)
    ensures forall g, q :: g in files && ValidPath(q) ==>
              Node(L', files[f := ib'][g], q) == if g == f && q == P then nb else Node(L, files[g], q)
  {
    hide NoLeak; hide NoSharing; hide Attached; hide Sound;
    forall g, q | g in files && ValidPath(q)
      ensures Node(L', files[f := ib'][g], q) == if g == f && q == P then nb else Node(L, files[g], q)
    {
      AttachNode(L, L', files, ib', inUse, f, P, nb, g, q);
    }
  }

  lemma AttachSound(L: seq<Block>, L': seq<Block>, files: map<nat, Ptrs>, ib': Ptrs, inUse: set<nat>, f: nat,
      P: seq<nat>, nb: u32)
    requires Trees(L, files, inUse) && Attached(L, L', files, ib', inUse, f, P, nb)
    ensures Sound(L', files[f := ib'], inUse + {nb}) && NoSharing(L', files[f := ib'])
  {
    hide NoLeak; hide PtrAt; hide Node; hide NoSharing; hide ValidPath;
    AttachNodes(L, L', files, ib', inUse, f, P, nb);
    AttachUnshared(L, L', files, ib', inUse, f, P, nb);
  }

  lemma AttachUnshared(L: seq<Block>, L': seq<Block>, files: map<nat, Ptrs>, ib': Ptrs, inUse: set<nat>, f: nat,
      P: seq<nat>, nb: u32)
    requires Trees(L, files, inUse) && f in files && nb !in inUse
    requires forall g, q :: g in files && ValidPath(q) ==>
               Node(L', files[f := ib'][g], q) == if g == f && q == P then nb else Node(L, files[g], q)
    ensures NoSharing(L', files[f := ib'])
  {
    hide NoLeak; hide Node; hide ValidPath; hide InRange;
    var files' := files[f := ib'];
    forall g, p, h, q | g in files' && h in files' && ValidPath(p) && ValidPath(q)
                        && At(L', files', g, p) == At(L', files', h, q) != 0
      ensures g == h && p == q
    {
      assert At(L, files, g, p) == Node(L, files[g], p) && At(L, files, h, q) == Node(L, files[h], q);
    }
  }

  lemma AttachNoLeak(L: seq<Block>, L': seq<Block>, files: map<nat, Ptrs>, ib': Ptrs, inUse: set<nat>, f: nat,
      P: seq<nat>, nb: u32)
    requires Trees(L, files, inUse) && Attached(L, L', files, ib', inUse, f, P, nb)
    ensures NoLeak(L', files[f := ib'], inUse + {nb})
  {
    hide NoSharing; hide PtrAt;
    AttachNodes(L, L', files, ib', inUse, f, P, nb);
    assert At(L', files[f := ib'], f, P) == nb;
    forall b | b in inUse ensures Reached(L', files[f := ib'], b) {
      ReachedSame(L, files, L', files[f := ib'], b);
    }
  }
}
