/** A directory as a finite map from names to inode numbers: the live entries of its blocks, in order. */
module DirView {
  import opened Bytes
  import opened FileTree
  import opened FileView
  import opened DirBlock

  ghost predicate BlocksOk(bs: seq<Block>) {
    forall k :: 0 <= k < |bs| ==> BlockOk(bs[k])
  }

  /** The entries of all blocks, one block after the other. */
  ghost function All(bs: seq<Block>): seq<Binding>
    requires BlocksOk(bs)
  {
    if bs == [] then [] else All(bs[..|bs| - 1]) + Bindings(bs[|bs| - 1])
  }

  /** The inode a name leads to, 0 for none. */
  ghost function Lookup(es: seq<Binding>, name: seq<u8>): nat {
    if es == [] then 0 else if es[0].name == name then es[0].ino else Lookup(es[1..], name)
  }

  ghost predicate NoDup(es: seq<Binding>) {
    forall i, j :: 0 <= i < j < |es| ==> es[i].name != es[j].name
  }

  ghost predicate Leads(es: seq<Binding>) {
    forall i :: 0 <= i < |es| ==> es[i].ino != 0
  }

  lemma {:induction false} LookupConcat(a: seq<Binding>, b: seq<Binding>, name: seq<u8>)
    requires Leads(a)
    ensures Lookup(a + b, name) == if Lookup(a, name) != 0 then Lookup(a, name) else Lookup(b, name)
  {
    if a == [] {
      assert a + b == b;
    } else {
      LookupConcat(a[1..], b, name);
      assert (a + b)[1..] == a[1..] + b;
    }
  }

  lemma {:induction false} LookupAbsent(es: seq<Binding>, name: seq<u8>)
    requires Leads(es)
    ensures Lookup(es, name) == 0 <==> forall i :: 0 <= i < |es| ==> es[i].name != name
  {
    if es != [] {
      LookupAbsent(es[1..], name);
      assert forall i :: 1 <= i < |es| ==> es[i] == es[1..][i - 1];
    }
  }

  /** A new name put in anywhere: it is found, and every other name leads where it led. */
  lemma InsertLookup(a: seq<Binding>, b: seq<Binding>, x: Binding, name: seq<u8>)
    requires Leads(a) && Leads(b) && x.ino != 0 && Lookup(a + b, x.name) == 0
    ensures Lookup(a + [x] + b, name) == if name == x.name then x.ino else Lookup(a + b, name)
  {
    LookupConcat(a, b, name);
    LookupConcat(a, b, x.name);
    LookupConcat(a, [x] + b, name);
    assert a + [x] + b == a + ([x] + b);
    assert ([x] + b)[1..] == b;
  }

  lemma InsertNoDup(a: seq<Binding>, b: seq<Binding>, x: Binding)
    requires Leads(a) && Leads(b) && NoDup(a + b) && Lookup(a + b, x.name) == 0
    ensures NoDup(a + [x] + b)
  {
    LookupAbsent(a + b, x.name);
    var old', new' := a + b, a + [x] + b;
    forall i, j | 0 <= i < j < |new'|
      ensures new'[i].name != new'[j].name
    {
      var i', j' := if i < |a| then i else i - 1, if j < |a| then j else j - 1;
      if i == |a| {
        assert new'[j] == old'[j'];
      } else if j == |a| {
        assert new'[i] == old'[i'];
      } else {
        assert new'[i] == old'[i'] && new'[j] == old'[j'];
      }
    }
  }

  /** An entry taken out, names being distinct: its name is gone, every other name leads where it led. */
  lemma RemoveLookup(a: seq<Binding>, b: seq<Binding>, x: Binding, name: seq<u8>)
    requires Leads(a) && Leads(b) && x.ino != 0 && NoDup(a + [x] + b)
    ensures Lookup(a + b, name) == if name == x.name then 0 else Lookup(a + [x] + b, name)
    ensures Lookup(a + [x] + b, x.name) == x.ino
  {
    var whole := a + [x] + b;
    assert whole == a + ([x] + b) && ([x] + b)[1..] == b;
    LookupConcat(a, b, name);
    LookupConcat(a, [x] + b, name);
    LookupConcat(a, [x] + b, x.name);
    OthersDiffer(a, b, x);
    LookupAbsent(a, x.name);
    LookupAbsent(b, x.name);
  }

  lemma OthersDiffer(a: seq<Binding>, b: seq<Binding>, x: Binding)
    requires NoDup(a + [x] + b)
    ensures forall i :: 0 <= i < |a| ==> a[i].name != x.name
    ensures forall i :: 0 <= i < |b| ==> b[i].name != x.name
  {
    var whole := a + [x] + b;
    assert forall i :: 0 <= i < |a| ==> whole[i] == a[i];
    assert forall i :: 0 <= i < |b| ==> whole[|a| + 1 + i] == b[i];
    assert whole[|a|] == x;
  }

  lemma RemoveNoDup(a: seq<Binding>, b: seq<Binding>, x: Binding)
    requires NoDup(a + [x] + b)
    ensures NoDup(a + b)
  {
    var whole := a + [x] + b;
    assert forall i, j :: 0 <= i < j < |a + b| ==>
      (a + b)[i] == whole[if i < |a| then i else i + 1] && (a + b)[j] == whole[if j < |a| then j else j + 1];
  }

  // Blocks

  lemma {:induction false} BeforeLeads(b: Block, p: nat, pos: nat)
    requires OnChain(b, p, pos)
    ensures Leads(Before(b, p, pos))
    decreases BLKSZ - p
  {
    hide U16At; hide U32At; hide Needed; hide NameAt;
    if p != pos {
      BeforeLeads(b, p + RecLen(b, p), pos);
    }
  }

  lemma {:induction false} LiveLeads(b: Block, pos: nat)
    requires Tiled(b, pos)
    ensures Leads(Live(b, pos))
    decreases BLKSZ - pos
  {
    if pos != BLKSZ {
      LiveLeads(b, pos + RecLen(b, pos));
    }
  }

  lemma {:induction false} AllLeads(bs: seq<Block>)
    requires BlocksOk(bs)
    ensures Leads(All(bs))
  {
    if bs != [] {
      AllLeads(bs[..|bs| - 1]);
      var b := bs[|bs| - 1];
      if RecLen(b, 0) != 0 {
        LiveLeads(b, 0);
      }
    }
  }

  /** The entries around block k. */
  lemma {:induction false} AllSplit(bs: seq<Block>, k: nat)
    requires BlocksOk(bs) && k < |bs|
    ensures BlocksOk(bs[..k]) && BlocksOk(bs[k + 1..])
    ensures All(bs) == All(bs[..k]) + Bindings(bs[k]) + All(bs[k + 1..])
    decreases |bs|
  {
    hide Bindings; hide BlockOk;
    var n := |bs| - 1;
    if k == n {
      assert bs[k + 1..] == [];
    } else {
      AllSplit(bs[..n], k);
      assert bs[..n][..k] == bs[..k] && bs[..n][k + 1..] == bs[k + 1..][..n - k - 1];
      assert bs[k + 1..][|bs[k + 1..]| - 1] == bs[n];
      Reassoc(All(bs[..k]) + Bindings(bs[k]), All(bs[..n][k + 1..]), Bindings(bs[n]));
    }
  }

  /** Rewriting block k. */
  lemma AllUpdate(bs: seq<Block>, k: nat, c: Block)
    requires BlocksOk(bs) && k < |bs| && BlockOk(c)
    ensures BlocksOk(bs[k := c]) && BlocksOk(bs[..k]) && BlocksOk(bs[k + 1..])
    ensures All(bs) == All(bs[..k]) + Bindings(bs[k]) + All(bs[k + 1..])
    ensures All(bs[k := c]) == All(bs[..k]) + Bindings(c) + All(bs[k + 1..])
  {
    AllSplit(bs, k);
    AllSplit(bs[k := c], k);
    assert bs[k := c][..k] == bs[..k] && bs[k := c][k + 1..] == bs[k + 1..];
  }

  // A directory of the file system

  /** The first n blocks of a file. */
  ghost function FirstBlocks(L: seq<Block>, ib: Ptrs, n: nat): (r: seq<Block>)
    requires n <= MAX_LBK
    ensures |r| == n
    ensures forall k :: 0 <= k < n ==> r[k] == FileBlock(L, ib, k)
  {
    if n == 0 then [] else FirstBlocks(L, ib, n - 1) + [FileBlock(L, ib, n - 1)]
  }

  /** How many blocks a directory of this size has. */
  function NBlocks(size: u32): nat {
    (size + BLKSZ - 1) / BLKSZ
  }

  /** Just enough blocks for the size. */
  lemma BlocksOfSize(size: u32)
    ensures size <= NBlocks(size) * 4096 < size + 4096
  {
  }

  /** A well-formed directory: every block a hole or tiled with records, no name twice. */
  ghost predicate DirOk(L: seq<Block>, ib: Ptrs, size: u32) {
    && BlocksOk(FirstBlocks(L, ib, NBlocks(size)))
    && NoDup(All(FirstBlocks(L, ib, NBlocks(size))))
  }

  /** Where a name leads in a directory. */
  ghost function DirLookup(L: seq<Block>, ib: Ptrs, size: u32, name: seq<u8>): nat
    requires DirOk(L, ib, size)
  {
    Lookup(All(FirstBlocks(L, ib, NBlocks(size))), name)
  }

  // Whole operations, seen on the block sequence of a directory

  /** Block k gains an entry of a name that was not there. */
  lemma AddInBlock(bs: seq<Block>, k: nat, c: Block, front: seq<Binding>, back: seq<Binding>, x: Binding)
    requires BlocksOk(bs) && NoDup(All(bs)) && k < |bs| && BlockOk(c)
    requires Bindings(bs[k]) == front + back && Bindings(c) == front + [x] + back
    requires x.ino != 0 && Lookup(All(bs), x.name) == 0
    ensures BlocksOk(bs[k := c]) && NoDup(All(bs[k := c]))
    ensures forall name :: Lookup(All(bs[k := c]), name) == if name == x.name then x.ino else Lookup(All(bs), name)
  {
    hide All; hide Lookup; hide NoDup; hide Bindings; hide BlockOk; hide Leads;
    AllUpdate(bs, k, c);
    AllLeads(bs);
    var a, b := All(bs[..k]) + front, back + All(bs[k + 1..]);
    Regroup(All(bs[..k]), front, [x], back, All(bs[k + 1..]));
    LeadsParts(a, b);
    InsertNoDup(a, b, x);
    forall name ensures Lookup(All(bs[k := c]), name) == if name == x.name then x.ino else Lookup(All(bs), name) {
      InsertLookup(a, b, x, name);
    }
  }

  lemma Regroup<T>(p: seq<T>, f: seq<T>, m: seq<T>, b: seq<T>, s: seq<T>)
    ensures p + (f + m + b) + s == (p + f) + m + (b + s)
    ensures p + (f + b) + s == (p + f) + (b + s)
    ensures (p + f) + m + (b + s) == (p + f) + (m + (b + s))
  {
  }

  lemma LeadsParts(a: seq<Binding>, b: seq<Binding>)
    ensures Leads(a + b) ==> Leads(a) && Leads(b)
  {
    if Leads(a + b) {
      assert forall i :: 0 <= i < |a| ==> (a + b)[i] == a[i];
      assert forall i :: 0 <= i < |b| ==> (a + b)[|a| + i] == b[i];
    }
  }

  lemma NoEntriesLead()
    ensures Leads([])
  {
  }

  lemma AllAppend(bs: seq<Block>, c: Block)
    requires BlocksOk(bs) && BlockOk(c)
    ensures BlocksOk(bs + [c]) && All(bs + [c]) == All(bs) + Bindings(c)
  {
    hide Bindings; hide BlockOk;
    assert (bs + [c])[..|bs|] == bs;
  }

  /** A block is appended that holds one entry, of a name that was not there. */
  lemma AddNewBlock(bs: seq<Block>, c: Block, x: Binding)
    requires BlocksOk(bs) && NoDup(All(bs)) && BlockOk(c) && Bindings(c) == [x]
    requires x.ino != 0 && Lookup(All(bs), x.name) == 0
    ensures BlocksOk(bs + [c]) && NoDup(All(bs + [c]))
    ensures forall name :: Lookup(All(bs + [c]), name) == if name == x.name then x.ino else Lookup(All(bs), name)
  {
    hide Lookup; hide Bindings; hide BlockOk; hide NoDup; hide Leads;
    AllAppend(bs, c);
    AllLeads(bs);
    hide All;
    var a := All(bs);
    NoEntriesLead();
    assert a + [x] + [] == a + [x] && a + [] == a;
    InsertNoDup(a, [], x);
    forall name ensures Lookup(All(bs + [c]), name) == if name == x.name then x.ino else Lookup(All(bs), name) {
      InsertLookup(a, [], x, name);
    }
  }

  /** Block k loses the entry x. */
  lemma RemoveInBlock(bs: seq<Block>, k: nat, c: Block, front: seq<Binding>, back: seq<Binding>, x: Binding)
    requires BlocksOk(bs) && NoDup(All(bs)) && k < |bs| && BlockOk(c)
    requires Bindings(bs[k]) == front + [x] + back && Bindings(c) == front + back && x.ino != 0
    ensures BlocksOk(bs[k := c]) && NoDup(All(bs[k := c]))
    ensures Lookup(All(bs), x.name) == x.ino
    ensures forall name :: Lookup(All(bs[k := c]), name) == if name == x.name then 0 else Lookup(All(bs), name)
  {
    hide All; hide Lookup; hide NoDup; hide Bindings; hide BlockOk; hide Leads;
    AllUpdate(bs, k, c);
    AllLeads(bs);
    var a, b := All(bs[..k]) + front, back + All(bs[k + 1..]);
    Regroup(All(bs[..k]), front, [x], back, All(bs[k + 1..]));
    LeadsParts(a, [x] + b);
    LeadsParts([x], b);
    RemoveNoDup(a, b, x);
    forall name ensures Lookup(All(bs[k := c]), name) == if name == x.name then 0 else Lookup(All(bs), name) {
      RemoveLookup(a, b, x, name);
    }
    RemoveLookup(a, b, x, x.name);
  }

  /** The search goes block by block: what is not in the first k blocks may be in block k. */
  lemma LookupStep(bs: seq<Block>, k: nat, name: seq<u8>)
    requires BlocksOk(bs) && k < |bs|
    ensures BlocksOk(bs[..k]) && BlocksOk(bs[..k + 1])
    ensures Lookup(All(bs[..k + 1]), name)
         == if Lookup(All(bs[..k]), name) != 0 then Lookup(All(bs[..k]), name) else Lookup(Bindings(bs[k]), name)
  {
    assert bs[..k + 1][..k] == bs[..k];
    AllLeads(bs[..k]);
    LookupConcat(All(bs[..k]), Bindings(bs[k]), name);
  }

  /** A name found in the first k blocks is found in all of them. */
  lemma LookupPrefix(bs: seq<Block>, k: nat, name: seq<u8>)
    requires BlocksOk(bs) && k <= |bs|
    ensures BlocksOk(bs[..k])
    ensures Lookup(All(bs[..k]), name) != 0 ==> Lookup(All(bs), name) == Lookup(All(bs[..k]), name)
    ensures k == |bs| ==> bs[..k] == bs
    decreases |bs| - k
  {
    if k < |bs| {
      LookupStep(bs, k, name);
      LookupPrefix(bs, k + 1, name);
    } else {
      assert bs[..k] == bs;
    }
  }
}
