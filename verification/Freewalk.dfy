/** freewalk of mm/vm.c: giving back a whole page-table tree. */
module Freewalk {
  import opened Bytes
  import opened Kalloc
  import opened PageTree
  import opened Vm
  import opened Seqs

  /** x is a table at P or below. */
  ghost predicate Under(mem: Mem, root: nat, P: seq<nat>, x: nat) {
    x != 0 && exists p :: TablePath(p) && P <= p && Tbl(mem, root, p) == x
  }

  /** x lies under one of the first n entries of the table at P. */
  ghost predicate UnderKids(mem: Mem, root: nat, P: seq<nat>, n: nat, x: nat) {
    exists j :: 0 <= j < n && Under(mem, root, P + [j], x)
  }

  lemma UnderIsTable(mem: Mem, root: nat, tables: set<nat>, P: seq<nat>, x: nat)
    requires TreeOk(mem, root, tables) && Under(mem, root, P, x)
    ensures x in tables && x in mem
  {
    hide Tbl; hide NoSharing; hide NoLeak; hide EntriesOk;
    var p :| TablePath(p) && P <= p && Tbl(mem, root, p) == x;
    TblIn(mem, root, tables, p);
  }

  /** Everything is under the root. */
  lemma AllUnderRoot(mem: Mem, root: nat, tables: set<nat>)
    requires TreeOk(mem, root, tables)
    ensures forall x :: Under(mem, root, [], x) <==> x in tables
  {
    hide Tbl; hide NoSharing; hide EntriesOk;
    forall x ensures Under(mem, root, [], x) <==> x in tables {
      if Under(mem, root, [], x) {
        UnderIsTable(mem, root, tables, [], x);
      }
      if x in tables {
        var p :| TablePath(p) && Tbl(mem, root, p) == x;
        assert [] <= p;
      }
    }
  }

  /** Different entries have different subtrees, none of which holds the table itself. */
  lemma SubtreesApart(mem: Mem, root: nat, P: seq<nat>, j: nat, x: nat)
    requires NoSharing(mem, root) && TablePath(P) && Under(mem, root, P + [j], x)
    ensures x != Tbl(mem, root, P)
    ensures forall l :: Under(mem, root, P + [l], x) ==> l == j
  {
    hide Tbl;
    var p :| TablePath(p) && P + [j] <= p && Tbl(mem, root, p) == x;
    assert p != P;
    assert p[|P|] == j;
    forall l | Under(mem, root, P + [l], x) ensures l == j {
      var q :| TablePath(q) && P + [l] <= q && Tbl(mem, root, q) == x;
      assert p == q && q[|P|] == l;
    }
  }

  /** A table and its subtrees make up what is under it. */
  lemma UnderSplit(mem: Mem, root: nat, P: seq<nat>, x: nat)
    requires TablePath(P) && Tbl(mem, root, P) != 0
    ensures Under(mem, root, P, x) <==> x == Tbl(mem, root, P) || UnderKids(mem, root, P, WORDS, x)
  {
    hide Tbl;
    if Under(mem, root, P, x) {
      var p :| TablePath(p) && P <= p && Tbl(mem, root, p) == x;
      if p != P {
        var j := p[|P|];
        assert P + [j] <= p;
        assert Under(mem, root, P + [j], x);
      }
    }
    if UnderKids(mem, root, P, WORDS, x) {
      var j :| 0 <= j < WORDS && Under(mem, root, P + [j], x);
      var p :| TablePath(p) && P + [j] <= p && Tbl(mem, root, p) == x;
      assert P <= p;
    }
  }

  lemma NothingUnder(mem: Mem, root: nat, P: seq<nat>, j: nat)
    requires Tbl(mem, root, P + [j]) == 0
    ensures forall x :: !Under(mem, root, P + [j], x)
  {
    forall x ensures !Under(mem, root, P + [j], x) {
      if Under(mem, root, P + [j], x) {
        var p :| TablePath(p) && P + [j] <= p && Tbl(mem, root, p) == x;
        MissingBelow(mem, root, P, j, p);
      }
    }
  }

  lemma NextKid(mem: Mem, root: nat, P: seq<nat>, j: nat, x: nat)
    ensures UnderKids(mem, root, P, j + 1, x) <==> UnderKids(mem, root, P, j, x) || Under(mem, root, P + [j], x)
    ensures !UnderKids(mem, root, P, 0, x)
  {
    hide Under;
  }

  /** All leaf entries are cleared. */
  ghost predicate NoLeaves(mem: Mem, root: nat) {
    forall p :: LeafPath(p) ==> !Present(Entry(mem, root, p))
  }

  /** What is under P is as in mem0 and not free. */
  ghost predicate Intact(mem0: Mem, mem: Mem, root: nat, P: seq<nat>, free: seq<nat>) {
    forall x :: Under(mem0, root, P, x) ==> x in mem0 && x in mem && mem[x] == mem0[x] && x !in free
  }

  /** freewalk from the table t at path P: exactly the tables at P and below go back, each once; nothing else changes.
      The panic for a leaf is out of reach. */
  method Free(k: Kmem, t: nat, ghost P: seq<nat>, ghost mem0: Mem, ghost root: nat, ghost tables: set<nat>)
    requires k.Valid() && TreeOk(mem0, root, tables) && NoLeaves(mem0, root) && TablePath(P)
             && t == Tbl(mem0, root, P) != 0
    requires Intact(mem0, k.mem, root, P, k.free)
    modifies k
    ensures k.Valid() && k.mem.Keys == old(k.mem).Keys
    ensures forall x :: x in k.free <==> x in old(k.free) || Under(mem0, root, P, x)
    ensures forall x :: x in old(k.mem) && !Under(mem0, root, P, x) ==> x in k.mem && k.mem[x] == old(k.mem)[x]
    decreases 2 - |P|, 1
  {
    hide Tbl; hide TreeOk; hide Entry; hide Chain; hide Distinct; hide WordAt; hide PutWord; hide Under; hide UnderKids;
    ghost var mem1, free1 := k.mem, k.free;
    TableHere(mem0, root, tables, P);
    UnderSplit(mem0, root, P, t);
    forall x ensures !UnderKids(mem0, root, P, 0, x) {
      NextKid(mem0, root, P, 0, x);
    }
    var i := 0;
    while i < WORDS
      invariant 0 <= i <= WORDS
      invariant k.Valid() && k.mem.Keys == mem1.Keys && t in k.mem && t !in k.free
      invariant forall x :: x in k.free <==> x in free1 || UnderKids(mem0, root, P, i, x)
      invariant forall x :: x in mem1 && x != t && !UnderKids(mem0, root, P, i, x) ==> x in k.mem && k.mem[x] == mem1[x]
      invariant forall j :: i <= j < WORDS ==> WordAt(k.mem[t], j) == WordAt(mem0[t], j)
    {
      FreeEntry(k, t, i, P, mem0, root, tables, mem1, free1);
      i := i + 1;
    }
    k.Kfree(t);
    forall x ensures Under(mem0, root, P, x) <==> x == t || UnderKids(mem0, root, P, WORDS, x) {
      UnderSplit(mem0, root, P, x);
    }
  }

  lemma TableHere(mem: Mem, root: nat, tables: set<nat>, P: seq<nat>)
    requires TreeOk(mem, root, tables) && TablePath(P) && Tbl(mem, root, P) != 0
    ensures Under(mem, root, P, Tbl(mem, root, P)) && Tbl(mem, root, P) in mem && NoSharing(mem, root)
    ensures forall j: nat :: !Under(mem, root, P + [j], Tbl(mem, root, P))
  {
    hide Tbl; hide NoLeak; hide EntriesOk;
    TblIn(mem, root, tables, P);
    assert P <= P;
    forall j: nat ensures !Under(mem, root, P + [j], Tbl(mem, root, P)) {
      if Under(mem, root, P + [j], Tbl(mem, root, P)) {
        SubtreesApart(mem, root, P, j, Tbl(mem, root, P));
      }
    }
  }

  /** What entry i of the table at P can be, when no leaf entry is left. */
  lemma EntryCases(mem: Mem, root: nat, tables: set<nat>, P: seq<nat>, i: nat)
    requires TreeOk(mem, root, tables) && NoLeaves(mem, root) && TablePath(P) && Tbl(mem, root, P) != 0
             && Tbl(mem, root, P) in mem && i < WORDS
    ensures var e := WordAt(mem[Tbl(mem, root, P)], i);
            && (Present(e) ==> !IsLeaf(e) && |P| < 2 && TablePath(P + [i]) && Pa(e) == Tbl(mem, root, P + [i]) != 0)
            && (!Present(e) ==> forall x :: !Under(mem, root, P + [i], x))
  {
    hide WordAt; hide NoSharing; hide NoLeak; hide Pa; hide IsLeaf;
    var e := WordAt(mem[Tbl(mem, root, P)], i);
    if |P| == 2 {
      LowestEntry(mem, root, P, i);
    } else {
      Below(mem, root, tables, P, i);
      if !Present(e) {
        NothingUnder(mem, root, P, i);
      }
    }
  }

  lemma LowestEntry(mem: Mem, root: nat, P: seq<nat>, i: nat)
    requires NoLeaves(mem, root) && TablePath(P) && |P| == 2 && Tbl(mem, root, P) != 0 && Tbl(mem, root, P) in mem
             && i < WORDS
    ensures !Present(WordAt(mem[Tbl(mem, root, P)], i)) && forall x :: !Under(mem, root, P + [i], x)
  {
    hide WordAt; hide Tbl; hide Present;
    assert (P + [i])[..2] == P;
    assert LeafPath(P + [i]);
    assert Entry(mem, root, P + [i]) == WordAt(mem[Tbl(mem, root, P)], i);
  }

  /** One round of the loop: the subtree under entry i goes back. */
  method FreeEntry(k: Kmem, t: nat, i: nat, ghost P: seq<nat>, ghost mem0: Mem, ghost root: nat, ghost tables: set<nat>,
      ghost mem1: Mem, ghost free1: seq<nat>)
    requires k.Valid() && TreeOk(mem0, root, tables) && NoLeaves(mem0, root) && TablePath(P)
             && t == Tbl(mem0, root, P) != 0 && i < WORDS
    requires Intact(mem0, mem1, root, P, free1)
    requires k.mem.Keys == mem1.Keys && t in k.mem && t !in k.free
    requires forall x :: x in k.free <==> x in free1 || UnderKids(mem0, root, P, i, x)
    requires forall x :: x in mem1 && x != t && !UnderKids(mem0, root, P, i, x) ==> x in k.mem && k.mem[x] == mem1[x]
    requires t in mem0 && forall j :: i <= j < WORDS ==> WordAt(k.mem[t], j) == WordAt(mem0[t], j)
    modifies k
    ensures k.Valid() && k.mem.Keys == mem1.Keys && t in k.mem && t !in k.free
    ensures forall x :: x in k.free <==> x in free1 || UnderKids(mem0, root, P, i + 1, x)
    ensures forall x :: x in mem1 && x != t && !UnderKids(mem0, root, P, i + 1, x) ==> x in k.mem && k.mem[x] == mem1[x]
    ensures forall j :: i + 1 <= j < WORDS ==> WordAt(k.mem[t], j) == WordAt(mem0[t], j)
    decreases 2 - |P|, 0
  {
    hide Tbl; hide TreeOk; hide Entry; hide Chain; hide Distinct; hide WordAt; hide PutWord; hide Under;
    hide UnderKids; hide NoLeaves; hide Pa; hide IsLeaf; hide Present; hide Intact;
    EntryCases(mem0, root, tables, P, i);
    TableHere(mem0, root, tables, P);
    forall x ensures UnderKids(mem0, root, P, i + 1, x) <==>
      UnderKids(mem0, root, P, i, x) || Under(mem0, root, P + [i], x) {
      NextKid(mem0, root, P, i, x);
    }
    var pte := WordAt(k.mem[t], i);
    if Present(pte) && !IsLeaf(pte) {
      KidIntact(mem0, mem1, k.mem, root, P, i, free1, k.free, t);
      Free(k, Pa(pte), P + [i], mem0, root, tables);
      PutWordAt(k.mem[t], i, 0);
      StoreEntry(k, t, i, 0);
    } else if Present(pte) {
      assert false;
    }
  }

  lemma KidIntact(mem0: Mem, mem1: Mem, mem: Mem, root: nat, P: seq<nat>, i: nat, free1: seq<nat>, free: seq<nat>,
      t: nat)
    requires NoSharing(mem0, root) && TablePath(P) && t == Tbl(mem0, root, P) != 0 && Intact(mem0, mem1, root, P, free1)
             && i < WORDS
    requires forall x :: x in free <==> x in free1 || UnderKids(mem0, root, P, i, x)
    requires forall x :: x in mem1 && x != t && !UnderKids(mem0, root, P, i, x) ==> x in mem && mem[x] == mem1[x]
    ensures Intact(mem0, mem, root, P + [i], free)
  {
    hide Tbl; hide Under; hide TablePath;
    forall x | Under(mem0, root, P + [i], x) ensures x in mem0 && x in mem && mem[x] == mem0[x] && x !in free {
      SubtreesApart(mem0, root, P, i, x);
      UnderSplit(mem0, root, P, x);
      assert UnderKids(mem0, root, P, WORDS, x);
    }
  }

  /** freewalk: with all leaves cleared, exactly the tables of the tree go back to the freelist, each once, and no
      other page changes: free pages and tables together are what they were. */
  method FreeTree(k: Kmem, root: nat, ghost tables: set<nat>)
    requires Space(k, root, tables) && NoLeaves(k.mem, root)
    modifies k
    ensures k.Valid() && k.mem.Keys == old(k.mem).Keys
    ensures forall x :: x in k.free <==> x in old(k.free) || x in tables
    ensures OnlyIn(old(k.mem), k.mem, tables)
  {
    hide Tbl; hide Entry; hide Chain; hide Distinct; hide WordAt; hide Under; hide NoLeaves; hide NoSharing;
    hide NoLeak; hide EntriesOk;
    ghost var mem0 := k.mem;
    TblIn(mem0, root, tables, []);
    AllUnderRoot(mem0, root, tables);
    Free(k, root, [], mem0, root, tables);
  }
}
