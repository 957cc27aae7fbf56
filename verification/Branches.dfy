/** The set of blocks hanging below a place of a file's pointer tree. */
module Branches {
  import opened Bytes
  import opened FileTree

  /** The blocks reachable at or below path P. */
  ghost function Branch(L: seq<Block>, ib: Ptrs, P: seq<nat>): set<nat>
    requires ValidPath(P)
    decreases 1 + Level(P[0]) - |P|, PTRS + 1
  {
    if Node(L, ib, P) == 0 then {}
    else if LeafPath(P) then {Node(L, ib, P)}
    else Kids(L, ib, P, PTRS) + {Node(L, ib, P)}
  }

  /** The blocks reachable below the first k entries of the index block at P. */
  ghost function Kids(L: seq<Block>, ib: Ptrs, P: seq<nat>, k: nat): set<nat>
    requires ValidPath(P) && !LeafPath(P) && k <= PTRS
    decreases 1 + Level(P[0]) - |P|, k
  {
    if k == 0 then {} else Kids(L, ib, P, k - 1) + Branch(L, ib, P + [k - 1])
  }

  /** The blocks reachable below the first k inode pointers. */
  ghost function Tops(L: seq<Block>, ib: Ptrs, k: nat): set<nat>
    requires k <= N_BLOCKS
  {
    if k == 0 then {} else Tops(L, ib, k - 1) + Branch(L, ib, [k - 1])
  }

  /** All blocks of a file. */
  ghost function Reach(L: seq<Block>, ib: Ptrs): set<nat> {
    Tops(L, ib, N_BLOCKS)
  }

  /** b sits at some path that starts with P. */
  ghost predicate Below(L: seq<Block>, ib: Ptrs, P: seq<nat>, b: nat) {
    exists q :: ValidPath(q) && P <= q && Node(L, ib, q) == b && b != 0
  }

  /** Nothing hangs below a null pointer. */
  lemma {:induction false} NullBelow(L: seq<Block>, ib: Ptrs, P: seq<nat>, q: seq<nat>)
    requires ValidPath(P) && ValidPath(q) && P <= q && Node(L, ib, P) == 0
    ensures Node(L, ib, q) == 0
    decreases |q|
  {
    if |q| > |P| {
      ValidPrefix(q);
      NullBelow(L, ib, P, q[..|q| - 1]);
    } else {
      assert P == q;
    }
  }

  /** Branch(P) is exactly the set of blocks at P and its extensions. */
  lemma {:induction false} BranchIsBelow(L: seq<Block>, ib: Ptrs, P: seq<nat>, b: nat)
    requires ValidPath(P)
    ensures b in Branch(L, ib, P) <==> Below(L, ib, P, b)
    decreases 1 + Level(P[0]) - |P|, PTRS + 1
  {
    hide Node;
    if Below(L, ib, P, b) {
      var q :| ValidPath(q) && P <= q && Node(L, ib, q) == b && b != 0;
      if Node(L, ib, P) == 0 {
        NullBelow(L, ib, P, q);
      } else if q != P {
        KidsIsBelow(L, ib, P, PTRS, b);
        assert q[..|P| + 1] == P + [q[|P|]];
        assert Below(L, ib, P + [q[|P|]], b);
      }
    }
    if b in Branch(L, ib, P) {
      if b != Node(L, ib, P) {
        KidsIsBelow(L, ib, P, PTRS, b);
        var i :| 0 <= i < PTRS && Below(L, ib, P + [i], b);
        var q :| ValidPath(q) && P + [i] <= q && Node(L, ib, q) == b && b != 0;
        assert P <= q;
      }
    }
  }

  lemma {:induction false} KidsIsBelow(L: seq<Block>, ib: Ptrs, P: seq<nat>, k: nat, b: nat)
    requires ValidPath(P) && !LeafPath(P) && k <= PTRS
    ensures b in Kids(L, ib, P, k) <==> exists i :: 0 <= i < k && Below(L, ib, P + [i], b)
    decreases 1 + Level(P[0]) - |P|, k
  {
    if k > 0 {
      KidsIsBelow(L, ib, P, k - 1, b);
      BranchIsBelow(L, ib, P + [k - 1], b);
      assert Below(L, ib, P + [k - 1], b) ==> exists i :: 0 <= i < k && Below(L, ib, P + [i], b);
    }
  }

  /** The blocks below one place are in use. */
  lemma BranchInUse(L: seq<Block>, files: map<nat, Ptrs>, inUse: set<nat>, f: nat, P: seq<nat>)
    requires Trees(L, files, inUse) && f in files && ValidPath(P)
    ensures Branch(L, files[f], P) <= inUse
  {
    hide Trees; hide Branch;
    forall b | b in Branch(L, files[f], P) ensures b in inUse {
      BranchIsBelow(L, files[f], P, b);
      var q :| ValidPath(q) && P <= q && Node(L, files[f], q) == b && b != 0;
      NodeIn(L, files, inUse, f, q);
    }
  }

  /** Two places neither of which extends the other have nothing in common below them. */
  lemma BranchesApart(L: seq<Block>, files: map<nat, Ptrs>, inUse: set<nat>, f: nat, P: seq<nat>, Q: seq<nat>)
    requires Trees(L, files, inUse) && f in files && ValidPath(P) && ValidPath(Q) && !(P <= Q) && !(Q <= P)
    ensures Branch(L, files[f], P) !! Branch(L, files[f], Q)
  {
    hide Branch; hide Node; hide ValidPath; hide Sound; hide NoLeak; hide NoSharing;
    forall b | b in Branch(L, files[f], P) && b in Branch(L, files[f], Q) ensures false {
      BranchIsBelow(L, files[f], P, b);
      BranchIsBelow(L, files[f], Q, b);
      var p :| ValidPath(p) && P <= p && Node(L, files[f], p) == b && b != 0;
      var q :| ValidPath(q) && Q <= q && Node(L, files[f], q) == b && b != 0;
      Unshared(L, files, f, p, f, q);
      CommonExtension(P, Q, p);
    }
  }

  lemma CommonExtension(P: seq<nat>, Q: seq<nat>, p: seq<nat>)
    requires P <= p && Q <= p
    ensures P <= Q || Q <= P
  {
    if |P| <= |Q| {
      assert P == Q[..|P|];
    } else {
      assert Q == P[..|Q|];
    }
  }

  /** A block is not below its own children. */
  lemma NodeNotInKids(L: seq<Block>, files: map<nat, Ptrs>, inUse: set<nat>, f: nat, P: seq<nat>, k: nat)
    requires Trees(L, files, inUse) && f in files && ValidPath(P) && !LeafPath(P) && k <= PTRS
    ensures Node(L, files[f], P) !in Kids(L, files[f], P, k)
    ensures Kids(L, files[f], P, k) <= inUse
  {
    hide Branch; hide Kids; hide Sound; hide NoLeak; hide NoSharing;
    var n := Node(L, files[f], P);
    forall b | b in Kids(L, files[f], P, k) ensures b != n && b in inUse {
      KidsIsBelow(L, files[f], P, k, b);
      var i :| 0 <= i < k && Below(L, files[f], P + [i], b);
      var q :| ValidPath(q) && P + [i] <= q && Node(L, files[f], q) == b && b != 0;
      NodeIn(L, files, inUse, f, q);
      if b == n {
        Unshared(L, files, f, P, f, q);
      }
    }
  }

  /** Child k shares nothing with the children before it. */
  lemma KidsApart(L: seq<Block>, files: map<nat, Ptrs>, inUse: set<nat>, f: nat, P: seq<nat>, k: nat)
    requires Trees(L, files, inUse) && f in files && ValidPath(P) && !LeafPath(P) && k < PTRS
    ensures ValidPath(P + [k]) && Branch(L, files[f], P + [k]) !! Kids(L, files[f], P, k)
  {
    hide Branch; hide Trees; hide Node;
    forall b | b in Branch(L, files[f], P + [k]) && b in Kids(L, files[f], P, k) ensures false {
      KidsIsBelow(L, files[f], P, k, b);
      var i :| 0 <= i < k && Below(L, files[f], P + [i], b);
      BranchIsBelow(L, files[f], P + [i], b);
      assert (P + [i])[|P|] != (P + [k])[|P|];
      BranchesApart(L, files, inUse, f, P + [i], P + [k]);
    }
  }

  lemma {:induction false} TopsApart(L: seq<Block>, files: map<nat, Ptrs>, inUse: set<nat>, f: nat, k: nat, j: nat)
    requires Trees(L, files, inUse) && f in files && k <= j < N_BLOCKS
    ensures Branch(L, files[f], [j]) !! Tops(L, files[f], k)
    ensures Tops(L, files[f], k) <= inUse
  {
    hide Branch; hide Trees; hide Node;
    if k > 0 {
      TopsApart(L, files, inUse, f, k - 1, j);
      BranchesApart(L, files, inUse, f, [k - 1], [j]);
      BranchInUse(L, files, inUse, f, [k - 1]);
    }
  }

  lemma {:induction false} TopsIsBelow(L: seq<Block>, ib: Ptrs, k: nat, b: nat)
    requires k <= N_BLOCKS
    ensures b in Tops(L, ib, k) <==> exists i :: 0 <= i < k && Below(L, ib, [i], b)
  {
    hide Branch;
    if k > 0 {
      TopsIsBelow(L, ib, k - 1, b);
      BranchIsBelow(L, ib, [k - 1], b);
      assert Below(L, ib, [k - 1], b) ==> exists i :: 0 <= i < k && Below(L, ib, [i], b);
    }
  }

  /** Reach is exactly the set of blocks the file's non-null pointers lead to. */
  lemma ReachIsNodes(L: seq<Block>, ib: Ptrs, b: nat)
    ensures b in Reach(L, ib) <==> b != 0 && exists q :: ValidPath(q) && Node(L, ib, q) == b
  {
    hide Branch; hide Tops; hide Node;
    TopsIsBelow(L, ib, N_BLOCKS, b);
    if b in Reach(L, ib) {
      var i :| 0 <= i < N_BLOCKS && Below(L, ib, [i], b);
    }
    if b != 0 && exists q :: ValidPath(q) && Node(L, ib, q) == b {
      var q :| ValidPath(q) && Node(L, ib, q) == b;
      assert [q[0]] <= q;
      assert Below(L, ib, [q[0]], b);
    }
  }

  /** The block pointers of an empty file. */
  const NO_BLOCKS: Ptrs := seq(N_BLOCKS, _ => 0)

  lemma {:induction false} EmptyNode(L: seq<Block>, p: seq<nat>)
    requires ValidPath(p)
    ensures Node(L, NO_BLOCKS, p) == 0
    decreases |p|
  {
    if |p| > 1 {
      ValidPrefix(p);
      EmptyNode(L, p[..|p| - 1]);
    }
  }

  /** Dropping all pointers of file f and freeing all its blocks leaves the other files sound, unshared and
      without leak. */
  lemma DropFile(L: seq<Block>, files: map<nat, Ptrs>, inUse: set<nat>, f: nat)
    requires Trees(L, files, inUse) && f in files
    ensures Trees(L, files[f := NO_BLOCKS], inUse - Reach(L, files[f]))
    ensures Reach(L, files[f]) <= inUse
  {
    hide Node; hide Reach;
    var files' := files[f := NO_BLOCKS];
    forall g, p | g in files' && ValidPath(p)
      ensures At(L, files', g, p) == if g == f then 0 else At(L, files, g, p)
    {
      EmptyNode(L, p);
    }
    forall g, p | g in files' && ValidPath(p) && At(L, files', g, p) != 0
      ensures At(L, files', g, p) in inUse - Reach(L, files[f])
    {
      var b := At(L, files', g, p);
      ReachIsNodes(L, files[f], b);
      if b in Reach(L, files[f]) {
        var q :| ValidPath(q) && Node(L, files[f], q) == b;
        Unshared(L, files, g, p, f, q);
      }
    }
    forall b | b in inUse - Reach(L, files[f]) ensures Reached(L, files', b) {
      var g, p :| g in files && ValidPath(p) && At(L, files, g, p) == b;
      ReachIsNodes(L, files[f], b);
      assert At(L, files', g, p) == b;
    }
    forall b | b in Reach(L, files[f]) ensures b in inUse {
      ReachIsNodes(L, files[f], b);
      var q :| ValidPath(q) && Node(L, files[f], q) == b;
      NodeIn(L, files, inUse, f, q);
    }
  }

  lemma ChildInBranch(L: seq<Block>, ib: Ptrs, P: seq<nat>, k: nat)
    requires ValidPath(P) && !LeafPath(P) && k < PTRS && Node(L, ib, P) != 0
    ensures Branch(L, ib, P + [k]) <= Branch(L, ib, P)
  {
    hide Branch; hide Node;
    forall b | b in Branch(L, ib, P + [k]) ensures b in Branch(L, ib, P) {
      BranchIsBelow(L, ib, P + [k], b);
      BranchIsBelow(L, ib, P, b);
      var q :| ValidPath(q) && P + [k] <= q && Node(L, ib, q) == b && b != 0;
      assert P <= q;
    }
  }

  lemma NullBranch(L: seq<Block>, ib: Ptrs, P: seq<nat>)
    requires ValidPath(P) && Node(L, ib, P) == 0
    ensures Branch(L, ib, P) == {}
  {
  }

  /** A branch is its block and what hangs below it. */
  lemma BranchParts(L: seq<Block>, files: map<nat, Ptrs>, inUse: set<nat>, f: nat, P: seq<nat>, freed: set<nat>)
    requires Trees(L, files, inUse) && f in files && ValidPath(P) && Node(L, files[f], P) != 0
    requires Branch(L, files[f], P) !! freed
    ensures var n, kids := Node(L, files[f], P), if LeafPath(P) then {} else Kids(L, files[f], P, PTRS);
            && n in inUse && n !in freed + kids && freed + kids + {n} == freed + Branch(L, files[f], P)
            && |Branch(L, files[f], P)| == |kids| + 1
  {
    hide Trees; hide Kids; hide Node; hide ValidPath;
    NodeIn(L, files, inUse, f, P);
    if LeafPath(P) {
      assert Branch(L, files[f], P) == {} + {Node(L, files[f], P)};
    } else {
      NodeNotInKids(L, files, inUse, f, P, PTRS);
    }
  }

  /** One round of the loop over an index block's entries. */
  lemma KidStep(L: seq<Block>, files: map<nat, Ptrs>, inUse: set<nat>, f: nat, P: seq<nat>, k: nat, freed: set<nat>)
    requires Trees(L, files, inUse) && f in files && ValidPath(P) && !LeafPath(P) && k < PTRS
    requires 0 < Node(L, files[f], P) < |L|
    requires Branch(L, files[f], P) !! freed
    ensures ValidPath(P + [k]) && Level((P + [k])[0]) == Level(P[0]) && |P + [k]| == |P| + 1
    ensures Node(L, files[f], P + [k]) == PtrAt(L[Node(L, files[f], P)], k)
    ensures Branch(L, files[f], P + [k]) !! freed + Kids(L, files[f], P, k)
    ensures Kids(L, files[f], P, k + 1) == Kids(L, files[f], P, k) + Branch(L, files[f], P + [k])
    ensures |Kids(L, files[f], P, k + 1)| == |Kids(L, files[f], P, k)| + |Branch(L, files[f], P + [k])|
    ensures Node(L, files[f], P + [k]) == 0 ==> Branch(L, files[f], P + [k]) == {}
  {
    hide Node; hide Branch; hide PtrAt; hide Trees;
    KidsApart(L, files, inUse, f, P, k);
    ChildInBranch(L, files[f], P, k);
    NodeOfChild(L, files[f], P, k);
    if Node(L, files[f], P + [k]) == 0 {
      NullBranch(L, files[f], P + [k]);
    }
  }

  lemma NodeOfChild(L: seq<Block>, ib: Ptrs, P: seq<nat>, k: nat)
    requires P != [] && k < PTRS && 0 < Node(L, ib, P) < |L|
    ensures Node(L, ib, P + [k]) == PtrAt(L[Node(L, ib, P)], k)
  {
    assert (P + [k])[..|P|] == P;
  }

  lemma NoKids(L: seq<Block>, ib: Ptrs, P: seq<nat>)
    requires ValidPath(P) && !LeafPath(P)
    ensures Kids(L, ib, P, 0) == {}
  {
  }
}
