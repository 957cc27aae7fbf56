/** mm/vm.c: walking, mapping, unmapping and growing an Sv39 address space over the page freelist. */
module Vm {
  import opened Bytes
  import opened Kalloc
  import opened PageTree
  import opened Seqs

  /** A page table over the allocator's memory: no table is on the freelist. */
  ghost predicate Space(k: Kmem, root: nat, tables: set<nat>)
    reads k
  {
    k.Valid() && TreeOk(k.mem, root, tables) && forall t :: t in tables ==> t !in k.free
  }

  /** The pages in use as tables and the free pages are, together, the same as before. */
  ghost predicate SamePool(tables: set<nat>, free: seq<nat>, tables': set<nat>, free': seq<nat>) {
    tables <= tables' && (forall p :: p in tables' || p in free' <==> p in tables || p in free)
    && (forall p :: p in free' ==> p in free)
  }

  /** Only pages of S changed. */
  ghost predicate OnlyIn(mem: Mem, mem': Mem, S: set<nat>) {
    mem'.Keys == mem.Keys && forall p :: p in mem && p !in S ==> mem'[p] == mem[p]
  }

  /** The allocating step of walk: a zeroed table for an empty entry of an upper level. */
  method Grow(k: Kmem, root: nat, ghost tables: set<nat>, ghost P: seq<nat>, ptes: nat, i: nat)
    returns (nb: nat, ghost tables': set<nat>)
    requires Space(k, root, tables) && TablePath(P) && |P| < 2 && i < WORDS && ptes == Tbl(k.mem, root, P)
             && ptes in tables && ptes in k.mem
    requires !Present(WordAt(k.mem[ptes], i))
    modifies k
    ensures Space(k, root, tables') && SamePool(tables, old(k.free), tables', k.free)
    ensures SameEntries(old(k.mem), k.mem, root) && OnlyIn(old(k.mem), k.mem, tables')
    ensures nb == 0 <==> old(k.free) == []
    ensures nb == 0 ==> k.mem == old(k.mem) && k.free == old(k.free) && tables' == tables
    ensures nb != 0 ==> nb in tables' && nb in k.mem && TablePath(P + [i]) && Tbl(k.mem, root, P + [i]) == nb
  {
    hide TreeOk; hide WordAt; hide PutWord; hide Chain; hide Entry; hide Tbl;
    ghost var mem0, free0 := k.mem, k.free;
    tables' := tables;
    nb := k.Kalloc();
    if nb == 0 {
      return;
    }
    tables' := tables + {nb};
    PageFacts(k, nb);
    OldHead(k, mem0, nb);
    StoreEntry(k, ptes, i, Pte(nb, 1));
    assert ptes != nb;
    Attach(mem0, k.mem, root, tables, P, i, nb);
    TblIn(k.mem, root, tables', P + [i]);
  }

  lemma OldHead(k: Kmem, mem0: Mem, nb: nat)
    requires k.Valid() && nb in k.mem && nb !in k.free && k.mem == mem0[nb := Zeros(PGSIZE)]
    ensures forall p :: p in k.free ==> p != nb
  {
  }

  /** *pte = v */
  method StoreEntry(k: Kmem, t: nat, i: nat, v: u64)
    requires k.Valid() && t in k.mem && t !in k.free && i < WORDS
    modifies k`mem
    ensures k.Valid() && k.mem == old(k.mem)[t := PutWord(old(k.mem)[t], i, v)]
  {
    hide PutWord; hide Distinct;
    ghost var mem0 := k.mem;
    k.mem := k.mem[t := PutWord(k.mem[t], i, v)];
    ChainFrame(mem0, k.mem, k.memlist, k.free);
  }

  /** walk: the table and index of the leaf entry for va.  Without alloc it only reads, and is null exactly when a
      table is missing on the way.  With alloc missing tables are added, and it is null only when memory ran out;
      either way no translation changes and no page but tables is touched. */
  method Walk(k: Kmem, root: nat, va: nat, alloc: bool, ghost tables: set<nat>)
      returns (t: nat, i: nat, ghost tables': set<nat>)
    requires Space(k, root, tables) && va < MAXVA
    modifies k
    ensures Space(k, root, tables') && SamePool(tables, old(k.free), tables', k.free)
    ensures SameEntries(old(k.mem), k.mem, root) && OnlyIn(old(k.mem), k.mem, tables')
    ensures t == 0 && alloc ==> k.free == []
    ensures !alloc ==>
            k.mem == old(k.mem) && k.free == old(k.free) && tables' == tables && t == Tbl(k.mem, root, PathOf(va)[..2])
    ensures t != 0 ==> t == Tbl(k.mem, root, PathOf(va)[..2]) && i == PathOf(va)[2] && t in tables' && t in k.mem
  {
    hide TreeOk; hide WordAt; hide Chain; hide Entry; hide PathOf; hide Distinct; hide Pa; hide Present; hide Tbl;
    tables' := tables;
    var ptes := root;
    ghost var P: seq<nat> := [];
    TblIn(k.mem, root, tables, []);
    i := PathOf(va)[2];
    var level := 2;
    assert PathOf(va)[..0] == [];
    while level > 0
      invariant 0 <= level <= 2 && P == PathOf(va)[..2 - level] && TablePath(P)
      invariant Space(k, root, tables') && SamePool(tables, old(k.free), tables', k.free)
      invariant SameEntries(old(k.mem), k.mem, root) && OnlyIn(old(k.mem), k.mem, tables')
      invariant !alloc ==> k.mem == old(k.mem) && k.free == old(k.free) && tables' == tables
      invariant ptes == Tbl(k.mem, root, P) && ptes in tables' && ptes in k.mem && ptes != 0
    {
      var idx := PathOf(va)[2 - level];
      var pte := WordAt(k.mem[ptes], idx);
      assert P + [idx] == PathOf(va)[..3 - level];
      Below(k.mem, root, tables', P, idx);
      if Present(pte) {
        ptes := Pa(pte);
      } else {
        if !alloc {
          MissingBelow(k.mem, root, P, idx, PathOf(va)[..2]);
          return 0, i, tables';
        }
        ghost var mem1, free1, tables1 := k.mem, k.free, tables';
        var nb;
        nb, tables' := Grow(k, root, tables', P, ptes, idx);
        PoolTwice(tables, old(k.free), tables1, free1, tables', k.free);
        OnlyInTwice(old(k.mem), mem1, k.mem, tables1, tables');
        EntriesTwice(old(k.mem), mem1, k.mem, root);
        if nb == 0 {
          return 0, i, tables';
        }
        ptes := nb;
      }
      P := P + [idx];
      level := level - 1;
    }
    t := ptes;
  }

  /** One level down. */
  lemma Below(mem: Mem, root: nat, tables: set<nat>, P: seq<nat>, k: nat)
    requires TreeOk(mem, root, tables) && TablePath(P) && |P| < 2 && k < WORDS && Tbl(mem, root, P) != 0
             && Tbl(mem, root, P) in mem
    ensures TablePath(P + [k])
    ensures var e := WordAt(mem[Tbl(mem, root, P)], k);
            && Tbl(mem, root, P + [k]) == (if Present(e) then Pa(e) else 0)
            && (Present(e) ==> Pa(e) != 0 && Pa(e) in tables && Pa(e) in mem)
  {
    hide WordAt; hide NoSharing; hide NoLeak; hide Pa; hide IsLeaf;
    assert (P + [k])[..|P|] == P;
    TblIn(mem, root, tables, P + [k]);
  }

  /** Below a missing table there is none. */
  lemma {:induction false} MissingBelow(mem: Mem, root: nat, P: seq<nat>, k: nat, Q: seq<nat>)
    requires Tbl(mem, root, P + [k]) == 0 && P + [k] <= Q
    ensures Tbl(mem, root, Q) == 0
    decreases |Q|
  {
    if |Q| > |P| + 1 {
      MissingBelow(mem, root, P, k, Q[..|Q| - 1]);
    } else {
      assert Q == P + [k];
    }
  }

  lemma PoolTwice(t0: set<nat>, f0: seq<nat>, t1: set<nat>, f1: seq<nat>, t2: set<nat>, f2: seq<nat>)
    requires SamePool(t0, f0, t1, f1) && SamePool(t1, f1, t2, f2)
    ensures SamePool(t0, f0, t2, f2)
  {
  }

  lemma OnlyInTwice(m0: Mem, m1: Mem, m2: Mem, S1: set<nat>, S2: set<nat>)
    requires OnlyIn(m0, m1, S1) && OnlyIn(m1, m2, S2) && S1 <= S2
    ensures OnlyIn(m0, m2, S2)
  {
  }

  lemma EntriesTwice(m0: Mem, m1: Mem, m2: Mem, root: nat)
    requires SameEntries(m0, m1, root) && SameEntries(m1, m2, root)
    ensures SameEntries(m0, m2, root)
  {
    hide Entry;
  }

  // Mapping

  /** Exactly the addresses in [va, end) translate anew, page after page from pa on; all others as before. */
  ghost predicate Mapped(mem0: Mem, mem: Mem, root: nat, va: nat, end: nat, pa: nat, flags: u8) {
    forall p :: LeafPath(p) ==>
      Entry(mem, root, p) == if va <= VaOf(p) < end then Pte(pa + VaOf(p) - va, flags) else Entry(mem0, root, p)
  }

  lemma PathIs(va: nat, p: seq<nat>)
    requires va < MAXVA && va % PGSIZE == 0 && LeafPath(p)
    ensures p == PathOf(va) <==> VaOf(p) == va
    ensures PathOf(va)[..2] + [PathOf(va)[2]] == PathOf(va) && TablePath(PathOf(va)[..2])
  {
    VaOfPathOf(va);
    PathOfVaOf(p);
  }

  /** A store through the pointer walk returned changes that one translation. */
  method StoreLeaf(k: Kmem, root: nat, va: nat, t: nat, i: nat, v: u64, ghost tables: set<nat>)
    requires Space(k, root, tables) && va < MAXVA && va % PGSIZE == 0 && (Present(v) ==> IsLeaf(v))
    requires t == Tbl(k.mem, root, PathOf(va)[..2]) && i == PathOf(va)[2] && t in tables && t in k.mem
    modifies k`mem
    ensures Space(k, root, tables) && OnlyIn(old(k.mem), k.mem, tables)
    ensures forall p :: LeafPath(p) ==> Entry(k.mem, root, p) == if VaOf(p) == va then v else Entry(old(k.mem), root, p)
  {
    hide WordAt; hide Chain; hide Entry; hide PathOf; hide Distinct; hide Present; hide Tbl; hide PutWord;
    hide NoSharing; hide NoLeak; hide EntriesOk; hide VaOf; hide IsLeaf;
    ghost var mem0, P := k.mem, PathOf(va)[..2];
    LeafPlace(va);
    StoreEntry(k, t, i, v);
    SetLeaf(mem0, k.mem, root, tables, P, i, v);
    forall p | LeafPath(p) ensures Entry(k.mem, root, p) == if VaOf(p) == va then v else Entry(mem0, root, p) {
      PathIs(va, p);
    }
  }

  lemma LeafPlace(va: nat)
    requires va < MAXVA && va % PGSIZE == 0
    ensures TablePath(PathOf(va)[..2]) && |PathOf(va)[..2]| == 2 && LeafPath(PathOf(va)) && VaOf(PathOf(va)) == va
  {
    VaOfPathOf(va);
  }

  /** One round of vmmap. */
  method MapOne(k: Kmem, root: nat, va: nat, pa: nat, perm: u8, ghost tables: set<nat>)
      returns (ok: bool, ghost tables': set<nat>)
    requires Space(k, root, tables) && va < MAXVA && va % PGSIZE == 0 && pa % PGSIZE == 0 && pa < 0x100_0000_0000_0000
             && IsLeaf(perm)
    requires forall p :: LeafPath(p) && VaOf(p) == va ==> !Present(Entry(k.mem, root, p))
    modifies k
    ensures Space(k, root, tables') && SamePool(tables, old(k.free), tables', k.free)
            && OnlyIn(old(k.mem), k.mem, tables')
    ensures !ok ==> SameEntries(old(k.mem), k.mem, root) && k.free == []
    ensures ok ==> forall p :: LeafPath(p) ==>
            Entry(k.mem, root, p) == if VaOf(p) == va then Pte(pa, WithV(perm)) else Entry(old(k.mem), root, p)
  {
    hide Space; hide Chain; hide Entry; hide PathOf; hide Tbl; hide LeafPath; hide VaOf; hide Pte; hide IsLeaf;
    LeafPlace(va);
    var t, i;
    t, i, tables' := Walk(k, root, va, true, tables);
    if t == 0 {
      return false, tables';
    }
    ghost var mem1 := k.mem;
    MapEntry(pa, perm);
    PlaceIsFree(old(k.mem), mem1, root, va, t, i);
    if Present(WordAt(k.mem[t], i)) {
      assert false;
    }
    StoreLeaf(k, root, va, t, i, Pte(pa, WithV(perm)), tables');
    OnlyInTwice(old(k.mem), mem1, k.mem, tables', tables');
    ok := true;
  }

  /** The entry of an address that was not mapped is still not present: the panic for a remap is out of reach. */
  lemma PlaceIsFree(mem0: Mem, mem1: Mem, root: nat, va: nat, t: nat, i: nat)
    requires SameEntries(mem0, mem1, root) && va < MAXVA && va % PGSIZE == 0 && t != 0 && t in mem1
    requires t == Tbl(mem1, root, PathOf(va)[..2]) && i == PathOf(va)[2]
    requires forall p :: LeafPath(p) && VaOf(p) == va ==> !Present(Entry(mem0, root, p))
    ensures !Present(WordAt(mem1[t], i))
  {
    hide WordAt; hide Present; hide Tbl;
    LeafPlace(va);
    hide VaOf;
    assert !Present(Entry(mem1, root, PathOf(va)));
  }

  lemma MapEntry(pa: nat, perm: u8)
    requires pa % PGSIZE == 0 && pa < 0x100_0000_0000_0000 && IsLeaf(perm)
    ensures var e := Pte(pa, WithV(perm)); Present(e) && IsLeaf(e) && Pa(e) == pa
  {
    PteRoundTrip(pa, WithV(perm));
  }

  /** vmmap: for an aligned range that is not mapped, success maps exactly that range, page after page; failure means
      memory ran out, and leaves exactly a prefix mapped.  The panics for a misaligned or mapped range are out of
      reach for the arguments required here. */
  method Vmmap(k: Kmem, root: nat, va: nat, size: nat, pa: nat, perm: u8, ghost tables: set<nat>)
    returns (ok: bool, ghost tables': set<nat>, ghost end: nat)
    requires Space(k, root, tables) && va % PGSIZE == 0 && size % PGSIZE == 0 && size != 0 && va + size <= MAXVA
    requires pa % PGSIZE == 0 && pa + size <= 0x100_0000_0000_0000 && IsLeaf(perm)
    requires forall p :: LeafPath(p) && va <= VaOf(p) < va + size ==> !Present(Entry(k.mem, root, p))
    modifies k
    ensures Space(k, root, tables') && SamePool(tables, old(k.free), tables', k.free)
            && OnlyIn(old(k.mem), k.mem, tables')
    ensures va <= end <= va + size && end % PGSIZE == 0 && (ok <==> end == va + size) && (!ok ==> k.free == [])
    ensures Mapped(old(k.mem), k.mem, root, va, end, pa, WithV(perm))
  {
    hide Space; hide Chain; hide Entry; hide PathOf; hide Tbl; hide LeafPath; hide VaOf; hide Pte; hide IsLeaf;
    hide Present; hide SamePool; hide OnlyIn; hide SameEntries; hide Mapped;
    ghost var mem0, free0 := k.mem, k.free;
    tables', end := tables, va;
    NothingMapped(k, root, tables, va, pa, WithV(perm));
    var vaddr, paddr := va, pa;
    var last := va + size - PGSIZE;
    var done := false;
    ok := true;
    while !done
      invariant vaddr % PGSIZE == 0 && va <= vaddr <= last && paddr == pa + vaddr - va
      invariant Space(k, root, tables') && SamePool(tables, free0, tables', k.free) && OnlyIn(mem0, k.mem, tables')
      invariant !done ==> ok && end == vaddr
      invariant done ==>
                va <= end <= va + size && end % PGSIZE == 0 && (ok <==> end == va + size) && (!ok ==> k.free == [])
      invariant Mapped(mem0, k.mem, root, va, end, pa, WithV(perm))
      decreases if done then 0 else 1, last - vaddr
    {
      ghost var mem1, free1, tables1 := k.mem, k.free, tables';
      StillUnmapped(mem0, k.mem, root, va, end, va + size, pa, WithV(perm));
      ok, tables' := MapOne(k, root, vaddr, paddr, perm, tables');
      PoolTwice(tables, free0, tables1, free1, tables', k.free);
      PoolGrows(tables1, free1, tables', k.free);
      OnlyInTwice(mem0, mem1, k.mem, tables1, tables');
      MappedNext(mem0, mem1, k.mem, root, va, end, pa, WithV(perm), ok);
      if !ok {
        done := true;
      } else {
        end := end + PGSIZE;
        if vaddr == last {
          done := true;
        } else {
          vaddr := vaddr + PGSIZE;
          paddr := paddr + PGSIZE;
        }
      }
    }
  }

  lemma PoolGrows(t0: set<nat>, f0: seq<nat>, t1: set<nat>, f1: seq<nat>)
    requires SamePool(t0, f0, t1, f1)
    ensures t0 <= t1
  {
  }

  lemma NothingMapped(k: Kmem, root: nat, tables: set<nat>, va: nat, pa: nat, flags: u8)
    ensures Mapped(k.mem, k.mem, root, va, va, pa, flags) && SamePool(tables, k.free, tables, k.free)
            && OnlyIn(k.mem, k.mem, tables)
  {
    hide Entry; hide Pte;
  }

  lemma StillUnmapped(mem0: Mem, mem: Mem, root: nat, va: nat, end: nat, top: nat, pa: nat, flags: u8)
    requires Mapped(mem0, mem, root, va, end, pa, flags)
    requires forall p :: LeafPath(p) && va <= VaOf(p) < top ==> !Present(Entry(mem0, root, p))
    ensures forall p :: LeafPath(p) && va <= end <= VaOf(p) < top ==> !Present(Entry(mem, root, p))
  {
    hide Entry; hide Pte; hide Present; hide VaOf; hide LeafPath;
  }

  lemma MappedNext(mem0: Mem, mem1: Mem, mem2: Mem, root: nat, va: nat, end: nat, pa: nat, flags: u8, ok: bool)
    requires Mapped(mem0, mem1, root, va, end, pa, flags) && va <= end && end % PGSIZE == 0
    requires !ok ==> SameEntries(mem1, mem2, root)
    requires ok ==> forall p :: LeafPath(p) ==>
             Entry(mem2, root, p) == if VaOf(p) == end then Pte(pa + end - va, flags) else Entry(mem1, root, p)
    ensures Mapped(mem0, mem2, root, va, if ok then end + PGSIZE else end, pa, flags)
  {
    hide Entry; hide Pte; hide VaOf; hide LeafPath;
    OnePage(end);
    var end' := if ok then end + PGSIZE else end;
    forall p | LeafPath(p)
      ensures Entry(mem2, root, p) ==
              if va <= VaOf(p) < end' then Pte(pa + VaOf(p) - va, flags) else Entry(mem0, root, p)
    {
    }
  }

  /** Paths stand for whole pages. */
  lemma OnePage(va: nat)
    requires va % PGSIZE == 0
    ensures forall p :: LeafPath(p) ==> |p| == 3 && (va <= VaOf(p) < va + PGSIZE ==> VaOf(p) == va)
  {
    forall p | LeafPath(p) ensures va <= VaOf(p) < va + PGSIZE ==> VaOf(p) == va {
      PathOfVaOf(p);
      hide VaOf; hide LeafPath; hide PathOf;
      if va < VaOf(p) {
        WholePages(va, VaOf(p));
      }
    }
  }

  // Unmapping

  /** Every address translates as before. */
  ghost predicate SameTranslation(mem: Mem, mem': Mem, root: nat) {
    forall p :: LeafPath(p) ==> Translates(mem', root, p) == Translates(mem, root, p)
  }

  /** The entry a present address translates through, 0 for an address that does not translate. */
  ghost function Translates(mem: Mem, root: nat, p: seq<nat>): u64
    requires LeafPath(p)
  {
    if Present(Entry(mem, root, p)) then Entry(mem, root, p) else 0
  }

  /** p is mapped and lies in [va, end). */
  ghost predicate MappedIn(mem: Mem, root: nat, va: nat, end: nat, p: seq<nat>) {
    LeafPath(p) && va <= VaOf(p) < end && Present(Entry(mem, root, p))
  }

  /** Page x backs some address in [va, end). */
  ghost predicate Backs(mem: Mem, root: nat, va: nat, end: nat, x: nat) {
    exists p :: MappedIn(mem, root, va, end, p) && Pa(Entry(mem, root, p)) == x
  }

  /** The addresses in [va, end) are backed by allocated pages of their own, that are no tables. */
  ghost predicate OwnPages(mem: Mem, root: nat, tables: set<nat>, free: seq<nat>, va: nat, end: nat) {
    && (forall p :: MappedIn(mem, root, va, end, p) ==>
          Pa(Entry(mem, root, p)) in mem && Pa(Entry(mem, root, p)) !in tables && Pa(Entry(mem, root, p)) !in free)
    && (forall p, q :: (MappedIn(mem, root, va, end, p) && MappedIn(mem, root, va, end, q)
                        && Pa(Entry(mem, root, p)) == Pa(Entry(mem, root, q))) ==> p == q)
  }

  /** Exactly the mapped addresses in [va, end) translate no more. */
  ghost predicate Cleared(mem0: Mem, mem: Mem, root: nat, va: nat, end: nat) {
    forall p :: LeafPath(p) ==>
      Entry(mem, root, p) == if MappedIn(mem0, root, va, end, p) then 0 else Entry(mem0, root, p)
  }

  /** One round of uvmunmap. */
  method UnmapOne(k: Kmem, root: nat, va: nat, free: bool, ghost tables: set<nat>) returns (ghost page: nat)
    requires Space(k, root, tables) && va < MAXVA && va % PGSIZE == 0
    requires free ==> OwnPages(k.mem, root, tables, k.free, va, va + PGSIZE)
    modifies k
    ensures Space(k, root, tables) && Cleared(old(k.mem), k.mem, root, va, va + PGSIZE)
    ensures page != 0 <==> free && MappedIn(old(k.mem), root, va, va + PGSIZE, PathOf(va))
    ensures page != 0 ==> page == Pa(Entry(old(k.mem), root, PathOf(va))) && k.free == [page] + old(k.free)
    ensures page == 0 ==> k.free == old(k.free)
    ensures OnlyIn(old(k.mem), k.mem, tables + {page})
  {
    hide Chain; hide Tbl; hide TreeOk; hide PathOf; hide VaOf; hide WordAt; hide PutWord; hide Distinct; hide Pa;
    hide IsLeaf;
    LeafPlace(va);
    OnePage(va);
    ghost var mem0 := k.mem;
    var t, i;
    ghost var tables';
    t, i, tables' := Walk(k, root, va, false, tables);
    page := 0;
    NotMapped(k.mem, root, va, va + PGSIZE);
    if t == 0 || !Present(WordAt(k.mem[t], i)) {
      return;
    }
    assert MappedIn(mem0, root, va, va + PGSIZE, PathOf(va));
    if free {
      page := Pa(WordAt(k.mem[t], i));
      assert page == Pa(Entry(mem0, root, PathOf(va))) && page !in tables;
      k.Kfree(Pa(WordAt(k.mem[t], i)));
      TablesAreMemory(mem0, root, tables);
      OtherPages(mem0, k.mem, root, tables);
    }
    StoreLeaf(k, root, va, t, i, 0, tables);
    PagePath(va);
  }

  /** What it takes for va not to be mapped, in terms of the walk. */
  lemma NotMapped(mem: Mem, root: nat, va: nat, end: nat)
    requires va < MAXVA && va % PGSIZE == 0 && end == va + PGSIZE
    ensures var t, i := Tbl(mem, root, PathOf(va)[..2]), PathOf(va)[2];
            && (t == 0 ==> !Present(Entry(mem, root, PathOf(va))))
            && (t != 0 && t in mem ==> Entry(mem, root, PathOf(va)) == WordAt(mem[t], i))
    ensures forall p :: MappedIn(mem, root, va, end, p) ==> p == PathOf(va)
  {
    hide Tbl; hide WordAt;
    OnePage(va);
    forall p | LeafPath(p) && VaOf(p) == va ensures p == PathOf(va) {
      PathIs(va, p);
    }
    hide VaOf; hide PathOf; hide LeafPath;
  }

  lemma TablesAreMemory(mem: Mem, root: nat, tables: set<nat>)
    requires TreeOk(mem, root, tables)
    ensures forall t :: t in tables ==> t in mem
  {
    hide Tbl; hide WordAt; hide EntriesOk; hide NoLeak; hide NoSharing;
  }

  lemma PagePath(va: nat)
    requires va < MAXVA && va % PGSIZE == 0
    ensures forall p :: LeafPath(p) ==> (p == PathOf(va) <==> VaOf(p) == va)
  {
    forall p | LeafPath(p) ensures p == PathOf(va) <==> VaOf(p) == va {
      PathIs(va, p);
    }
  }

  /** Pages that are neither tables nor free hold what they held. */
  ghost predicate DataKept(mem0: Mem, mem: Mem, tables: set<nat>, free: seq<nat>) {
    mem.Keys == mem0.Keys && forall p :: p in mem0 && p !in tables && p !in free ==> mem[p] == mem0[p]
  }

  lemma ClearedNext(mem0: Mem, mem1: Mem, mem2: Mem, root: nat, va: nat, cur: nat, next: nat)
    requires Cleared(mem0, mem1, root, va, cur) && Cleared(mem1, mem2, root, cur, next) && va <= cur <= next
    ensures Cleared(mem0, mem2, root, va, next)
    ensures forall p :: MappedIn(mem1, root, cur, next, p) <==> MappedIn(mem0, root, cur, next, p)
  {
    hide Entry; hide VaOf; hide Present;
    assert !Present(0) by { ZeroIsAbsent(); }
    forall p ensures MappedIn(mem1, root, cur, next, p) <==> MappedIn(mem0, root, cur, next, p) {
    }
    forall p | LeafPath(p) ensures Entry(mem2, root, p) ==
      if MappedIn(mem0, root, va, next, p) then 0 else Entry(mem0, root, p) {
      assert Entry(mem1, root, p) == if MappedIn(mem0, root, va, cur, p) then 0 else Entry(mem0, root, p);
      assert Entry(mem2, root, p) == if MappedIn(mem1, root, cur, next, p) then 0 else Entry(mem1, root, p);
    }
  }

  lemma ZeroIsAbsent()
    ensures !Present(0)
  {
  }

  /** What is left to unmap still has pages of its own. */
  lemma OwnPagesNext(mem1: Mem, mem2: Mem, root: nat, tables: set<nat>, free1: seq<nat>, free2: seq<nat>, cur: nat,
      next: nat, end: nat, page: nat)
    requires OwnPages(mem1, root, tables, free1, cur, end) && Cleared(mem1, mem2, root, cur, next) && cur <= next <= end
             && mem2.Keys == mem1.Keys
    requires page == 0 ==> free2 == free1
    requires page != 0 ==>
             free2 == [page] + free1 && exists q ::
               MappedIn(mem1, root, cur, next, q) && Pa(Entry(mem1, root, q)) == page
    ensures OwnPages(mem2, root, tables, free2, next, end)
  {
    hide Entry; hide VaOf; hide Pa; hide Present;
    forall p | MappedIn(mem2, root, next, end, p)
      ensures Entry(mem2, root, p) == Entry(mem1, root, p) && MappedIn(mem1, root, cur, end, p)
      ensures page != 0 ==> Pa(Entry(mem1, root, p)) != page
    {
      assert Entry(mem2, root, p) == if MappedIn(mem1, root, cur, next, p) then 0 else Entry(mem1, root, p);
      if page != 0 {
        var q :| MappedIn(mem1, root, cur, next, q) && Pa(Entry(mem1, root, q)) == page;
        assert MappedIn(mem1, root, cur, end, q);
      }
    }
  }

  /** Entries not yet reached are as at the start. */
  lemma BacksNext(mem0: Mem, mem1: Mem, root: nat, va: nat, cur: nat, next: nat, page: nat, q: seq<nat>)
    requires va <= cur <= next && (forall p :: MappedIn(mem1, root, cur, next, p) <==>
             MappedIn(mem0, root, cur, next, p))
    requires forall p :: MappedIn(mem0, root, cur, next, p) ==> p == q && Entry(mem1, root, p) == Entry(mem0, root, p)
    requires page != 0 <==> MappedIn(mem1, root, cur, next, q)
    requires page != 0 ==> LeafPath(q) && page == Pa(Entry(mem1, root, q))
    ensures forall x :: Backs(mem0, root, va, next, x) <==> Backs(mem0, root, va, cur, x) || (page != 0 && x == page)
  {
    hide Entry; hide VaOf; hide Pa; hide Present;
    forall x ensures Backs(mem0, root, va, next, x) <==> Backs(mem0, root, va, cur, x) || (page != 0 && x == page) {
      if Backs(mem0, root, va, next, x) {
        var p :| MappedIn(mem0, root, va, next, p) && Pa(Entry(mem0, root, p)) == x;
        assert MappedIn(mem0, root, va, cur, p) || MappedIn(mem0, root, cur, next, p);
      }
      if Backs(mem0, root, va, cur, x) {
        var p :| MappedIn(mem0, root, va, cur, p) && Pa(Entry(mem0, root, p)) == x;
        assert MappedIn(mem0, root, va, next, p);
      }
      if page != 0 && x == page {
        assert MappedIn(mem0, root, va, next, q);
      }
    }
  }

  /** uvmunmap: exactly the mapped addresses of the range translate no more; with free, exactly the pages behind them
      go to the freelist, each once. */
  method Uvmunmap(k: Kmem, root: nat, va: nat, pagenum: nat, free: bool, ghost tables: set<nat>)
    requires Space(k, root, tables) && va % PGSIZE == 0 && va + pagenum * PGSIZE <= MAXVA
    requires free ==> OwnPages(k.mem, root, tables, k.free, va, va + pagenum * PGSIZE)
    modifies k
    ensures Space(k, root, tables) && Cleared(old(k.mem), k.mem, root, va, va + pagenum * PGSIZE)
    ensures DataKept(old(k.mem), k.mem, tables, k.free)
    ensures forall x ::
            x in k.free <==> x in old(k.free) || (free && Backs(old(k.mem), root, va, va + pagenum * PGSIZE, x))
    ensures !free ==> k.free == old(k.free)
  {
    hide Space; hide Chain; hide Entry; hide Tbl; hide TreeOk; hide PathOf; hide VaOf; hide Cleared; hide OwnPages;
    hide Backs; hide MappedIn; hide LeafPath; hide OnlyIn; hide Pa;
    ghost var mem0, free0, end := k.mem, k.free, va + pagenum * PGSIZE;
    NothingCleared(mem0, root, va);
    NoPageZero(k, root, tables);
    var vaddr := va;
    while vaddr < va + pagenum * PGSIZE
      invariant va <= vaddr <= end && vaddr % PGSIZE == 0
      invariant Space(k, root, tables) && Cleared(mem0, k.mem, root, va, vaddr) && DataKept(mem0, k.mem, tables, k.free)
      invariant free ==> OwnPages(k.mem, root, tables, k.free, vaddr, end)
      invariant forall x :: x in k.free <==> x in free0 || (free && Backs(mem0, root, va, vaddr, x))
      invariant !free ==> k.free == free0
    {
      ghost var mem1, free1, next := k.mem, k.free, vaddr + PGSIZE;
      WholePages(vaddr, end);
      if free {
        OwnPagesPrefix(mem1, root, tables, free1, vaddr, next, end);
      }
      ghost var page := UnmapOne(k, root, vaddr, free, tables);
      UnmapRound(mem0, mem1, k.mem, root, tables, free1, k.free, va, vaddr, next, end, free, page);
      vaddr := vaddr + PGSIZE;
    }
  }

  lemma NoPageZero(k: Kmem, root: nat, tables: set<nat>)
    requires Space(k, root, tables)
    ensures 0 !in k.mem
  {
    hide TreeOk; hide Chain; hide Distinct;
  }

  lemma NothingCleared(mem: Mem, root: nat, va: nat)
    ensures Cleared(mem, mem, root, va, va) && forall x :: !Backs(mem, root, va, va, x)
  {
    hide Entry; hide VaOf;
  }

  lemma OwnPagesPrefix(mem: Mem, root: nat, tables: set<nat>, free: seq<nat>, va: nat, mid: nat, end: nat)
    requires OwnPages(mem, root, tables, free, va, end) && mid <= end
    ensures OwnPages(mem, root, tables, free, va, mid)
  {
    hide Entry; hide VaOf; hide Pa; hide Present;
    forall p | MappedIn(mem, root, va, mid, p) ensures MappedIn(mem, root, va, end, p) {
    }
  }

  lemma UnmapRound(mem0: Mem, mem1: Mem, mem2: Mem, root: nat, tables: set<nat>, free1: seq<nat>, free2: seq<nat>,
                   va: nat, cur: nat, next: nat, end: nat, free: bool, page: nat)
    requires cur % PGSIZE == 0 && cur < MAXVA && va <= cur && next == cur + PGSIZE <= end
    requires Cleared(mem0, mem1, root, va, cur) && Cleared(mem1, mem2, root, cur, next)
    requires DataKept(mem0, mem1, tables, free1) && OnlyIn(mem1, mem2, tables + {page})
    requires free ==> OwnPages(mem1, root, tables, free1, cur, end)
    requires page != 0 <==> free && MappedIn(mem1, root, cur, next, PathOf(cur))
    requires page != 0 ==> page == Pa(Entry(mem1, root, PathOf(cur))) && free2 == [page] + free1
    requires page == 0 ==> free2 == free1 && 0 !in mem0
    ensures Cleared(mem0, mem2, root, va, next) && DataKept(mem0, mem2, tables, free2)
    ensures free ==> OwnPages(mem2, root, tables, free2, next, end)
    ensures free ==>
            forall x :: Backs(mem0, root, va, next, x) <==> Backs(mem0, root, va, cur, x) || (page != 0 && x == page)
  {
    hide Entry; hide VaOf; hide Pa; hide PathOf; hide Cleared; hide OwnPages; hide Backs; hide MappedIn;
    LeafPlace(cur);
    NotMapped(mem1, root, cur, next);
    ClearedNext(mem0, mem1, mem2, root, va, cur, next);
    if free {
      OwnPagesNext(mem1, mem2, root, tables, free1, free2, cur, next, end, page);
      Unreached(mem0, mem1, root, va, cur, next);
      BacksNext(mem0, mem1, root, va, cur, next, page, PathOf(cur));
    }
  }

  lemma Unreached(mem0: Mem, mem1: Mem, root: nat, va: nat, cur: nat, next: nat)
    requires Cleared(mem0, mem1, root, va, cur)
    ensures forall p :: MappedIn(mem0, root, cur, next, p) ==>
            LeafPath(p) && Entry(mem1, root, p) == Entry(mem0, root, p)
  {
    hide Entry; hide VaOf;
  }

  // Growing and shrinking

  /** PGROUNDUP */
  function RoundUp(sz: nat): (r: nat)
    ensures r % PGSIZE == 0 && sz <= r < sz + PGSIZE
  {
    (sz + PGSIZE - 1) / PGSIZE * PGSIZE
  }

  lemma RoundUpMonotone(a: nat, b: nat)
    requires a <= b
    ensures RoundUp(a) <= RoundUp(b) && (a % PGSIZE == 0 ==> RoundUp(a) == a) && (b <= MAXVA ==> RoundUp(b) <= MAXVA)
  {
  }

  lemma PagesBetween(lo: nat, hi: nat)
    requires lo % PGSIZE == 0 && hi % PGSIZE == 0 && lo <= hi
    ensures lo + (hi - lo) / PGSIZE * PGSIZE == hi
  {
  }

  /** uvmdealloc: the pages between the two sizes, rounded up, are unmapped and go back. */
  method Uvmdealloc(k: Kmem, root: nat, oldsz: nat, newsz: nat, ghost tables: set<nat>) returns (ret: nat)
    requires Space(k, root, tables) && oldsz <= MAXVA
    requires newsz < oldsz ==> OwnPages(k.mem, root, tables, k.free, RoundUp(newsz), RoundUp(oldsz))
    modifies k
    ensures Space(k, root, tables) && ret == if newsz < oldsz then newsz else oldsz
    ensures newsz >= oldsz ==> k.mem == old(k.mem) && k.free == old(k.free)
    ensures newsz < oldsz ==> Cleared(old(k.mem), k.mem, root, RoundUp(newsz), RoundUp(oldsz))
                              && forall x ::
                                 x in k.free <==>
                                   x in old(k.free) || Backs(old(k.mem), root, RoundUp(newsz), RoundUp(oldsz), x)
    ensures DataKept(old(k.mem), k.mem, tables, k.free)
  {
    hide Space; hide Cleared; hide OwnPages; hide Backs; hide RoundUp;
    if newsz >= oldsz {
      return oldsz;
    }
    RoundUpMonotone(newsz, oldsz);
    if RoundUp(newsz) < RoundUp(oldsz) {
      var pagenum := (RoundUp(oldsz) - RoundUp(newsz)) / PGSIZE;
      PagesBetween(RoundUp(newsz), RoundUp(oldsz));
      Uvmunmap(k, root, RoundUp(newsz), pagenum, true, tables);
    } else {
      NothingCleared(k.mem, root, RoundUp(newsz));
    }
    ret := newsz;
  }

  /** The pages given to the addresses of pages, and to no other. */
  ghost predicate Given(mem0: Mem, mem: Mem, root: nat, tables: set<nat>, free: seq<nat>, pages: map<nat, nat>,
      flags: u8) {
    && (forall p :: LeafPath(p) ==>
       Entry(mem, root, p) == if VaOf(p) in pages then Pte(pages[VaOf(p)], flags) else Entry(mem0, root, p))
    && (forall v :: v in pages ==>
       pages[v] in mem && pages[v] !in tables && pages[v] !in free && mem[pages[v]] == Zeros(PGSIZE)
                                   && pages[v] % PGSIZE == 0 && pages[v] < 0x100_0000_0000_0000)
    && (forall v, w :: v in pages && w in pages && pages[v] == pages[w] ==> v == w)
  }

  /** Tables, free pages and given pages are the tables and free pages of before. */
  ghost predicate Pool(tables0: set<nat>, free0: seq<nat>, tables: set<nat>, free: seq<nat>, given: set<nat>) {
    && tables0 <= tables
    && (forall x :: x in free ==> x in free0)
    && (forall x :: x in tables || x in free || x in given <==> x in tables0 || x in free0)
  }

  /** Memory that was neither table nor free holds what it held. */
  ghost predicate OldDataKept(mem0: Mem, free0: seq<nat>, mem: Mem, tables: set<nat>) {
    mem.Keys == mem0.Keys && forall p :: p in mem0 && p !in tables && p !in free0 ==> mem[p] == mem0[p]
  }

  /** One round of uvmalloc: a zeroed page for one address, or nothing. */
  method GrowOne(k: Kmem, root: nat, va: nat, perm: u8, ghost tables: set<nat>)
      returns (ok: bool, ghost page: nat, ghost tables': set<nat>)
    requires Space(k, root, tables) && va % PGSIZE == 0 && va < MAXVA && IsLeaf(perm)
    requires forall p :: LeafPath(p) && VaOf(p) == va ==> !Present(Entry(k.mem, root, p))
    modifies k
    ensures Space(k, root, tables') && Pool(tables, old(k.free), tables', k.free, if ok then {page} else {})
    ensures OldDataKept(old(k.mem), old(k.free), k.mem, tables')
    ensures forall p :: p in old(k.mem) && p !in tables' && p !in old(k.free) ==>
            p in k.mem && k.mem[p] == old(k.mem)[p]
    ensures ok ==>
            page in old(k.free) && page in k.mem && page !in tables' && page !in k.free && k.mem[page] == Zeros(PGSIZE)
                   && page % PGSIZE == 0 && 0 < page < 0x100_0000_0000_0000
    ensures ok ==> forall p :: LeafPath(p) ==>
            Entry(k.mem, root, p) == if VaOf(p) == va then Pte(page, WithV(perm)) else Entry(old(k.mem), root, p)
    ensures !ok ==> SameEntries(old(k.mem), k.mem, root) && |k.free| <= 1
  {
    hide Space; hide Entry; hide LeafPath; hide VaOf; hide Pte; hide IsLeaf; hide Present; hide Zeros; hide Mapped;
    hide SameEntries; hide PutWord; hide RoundUp;
    ghost var mem0, free0 := k.mem, k.free;
    ok, page, tables' := false, 0, tables;
    EntriesSelf(mem0, root);
    var mem := TakePage(k, root, tables);
    if mem == 0 {
      return;
    }
    ghost var mem1, free1, end := k.mem, k.free, 0;
    StillAbsent(mem0, mem1, root, va, va + PGSIZE);
    ok, tables', end := Vmmap(k, root, va, PGSIZE, mem, perm, tables);
    page := mem;
    ghost var mem2 := k.mem;
    MappedOne(mem1, mem2, root, va, end, page, WithV(perm), ok);
    if ok {
      AfterSame(mem0, mem1, mem2, root, va, Pte(page, WithV(perm)));
    } else {
      EntriesTwice(mem0, mem1, mem2, root);
      GivePage(k, root, mem, tables');
      EntriesTwice(mem0, mem2, k.mem, root);
    }
  }

  /** kalloc beside an address space. */
  method TakePage(k: Kmem, root: nat, ghost tables: set<nat>) returns (pa: nat)
    requires Space(k, root, tables)
    modifies k
    ensures Space(k, root, tables) && SameEntries(old(k.mem), k.mem, root)
    ensures pa == 0 ==> k.mem == old(k.mem) && k.free == old(k.free) == []
    ensures pa != 0 ==>
            && old(k.free) != [] && pa == old(k.free)[0] && k.free == old(k.free)[1..] && pa !in k.free && pa !in tables
            && pa in old(k.mem) && k.mem == old(k.mem)[pa := Zeros(PGSIZE)] && pa % PGSIZE == 0
            && pa < 0x100_0000_0000_0000
  {
    hide Chain; hide Entry; hide TreeOk; hide Zeros; hide PutWord; hide Distinct; hide SameEntries;
    ghost var mem0 := k.mem;
    EntriesSelf(mem0, root);
    AllPages(k);
    pa := k.Kalloc();
    if pa != 0 {
      PageFacts(k, pa);
      TablesAreMemory(mem0, root, tables);
      OtherPages(mem0, k.mem, root, tables);
    }
  }

  lemma AllPages(k: Kmem)
    requires k.Valid()
    ensures forall p :: p in k.free ==> p in k.mem
  {
    ChainPages(k.mem, k.memlist, k.free);
  }

  /** kfree beside an address space. */
  method GivePage(k: Kmem, root: nat, pa: nat, ghost tables: set<nat>)
    requires Space(k, root, tables) && pa in k.mem && pa !in k.free && pa !in tables
    modifies k
    ensures Space(k, root, tables) && SameEntries(old(k.mem), k.mem, root)
    ensures k.free == [pa] + old(k.free) && OnlyIn(old(k.mem), k.mem, {pa})
  {
    hide Chain; hide Entry; hide TreeOk; hide PutWord; hide Distinct; hide SameEntries;
    ghost var mem0 := k.mem;
    k.Kfree(pa);
    TablesAreMemory(mem0, root, tables);
    OtherPages(mem0, k.mem, root, tables);
  }

  lemma StillAbsent(mem0: Mem, mem1: Mem, root: nat, va: nat, end: nat)
    requires SameEntries(mem0, mem1, root) && va % PGSIZE == 0 && end == va + PGSIZE
    requires forall p :: LeafPath(p) && VaOf(p) == va ==> !Present(Entry(mem0, root, p))
    ensures forall p :: LeafPath(p) && va <= VaOf(p) < end ==> !Present(Entry(mem1, root, p))
  {
    hide Entry; hide VaOf; hide LeafPath; hide Present;
    OnePage(va);
  }

  lemma AfterSame(mem0: Mem, mem1: Mem, mem2: Mem, root: nat, va: nat, e: u64)
    requires SameEntries(mem0, mem1, root)
    requires forall p :: LeafPath(p) ==> Entry(mem2, root, p) == if VaOf(p) == va then e else Entry(mem1, root, p)
    ensures forall p :: LeafPath(p) ==> Entry(mem2, root, p) == if VaOf(p) == va then e else Entry(mem0, root, p)
  {
    hide Entry; hide VaOf;
  }

  lemma EntriesSelf(mem: Mem, root: nat)
    ensures SameEntries(mem, mem, root)
  {
  }

  lemma MappedOne(mem0: Mem, mem: Mem, root: nat, va: nat, end: nat, pa: nat, flags: u8, ok: bool)
    requires Mapped(mem0, mem, root, va, end, pa, flags) && va % PGSIZE == 0 && end % PGSIZE == 0
             && va <= end <= va + PGSIZE
    requires ok <==> end == va + PGSIZE
    ensures !ok ==> SameEntries(mem0, mem, root)
    ensures ok ==> forall p :: LeafPath(p) ==>
            Entry(mem, root, p) == if VaOf(p) == va then Pte(pa, flags) else Entry(mem0, root, p)
  {
    hide Entry; hide Pte; hide VaOf; hide LeafPath;
    OnePage(va);
    if va < end {
      WholePages(va, end);
    }
  }

  /** PTE_R | PTE_V | perm */
  function Readable(perm: u8): (f: u8) {
    WithV(if perm / 2 % 2 == 1 then perm else perm + 2)
  }

  /** PTE_V and PTE_R are added, no other bit changes. */
  lemma ReadableBits(perm: u8)
    ensures Readable(perm) % 4 == 3 && Readable(perm) / 4 == perm / 4
  {
  }

  lemma ReadableLeaf(perm: u8)
    ensures IsLeaf(Readable(perm)) && WithV(Readable(perm)) == Readable(perm) && Present(Readable(perm))
  {
  }

  /** The page addresses of [lo, hi). */
  ghost predicate Addresses(pages: map<nat, nat>, lo: nat, hi: nat) {
    forall v :: v in pages <==> v % PGSIZE == 0 && lo <= v < hi
  }

  /** uvmalloc: all or nothing.  On success every page address from the rounded old size up to the new size has a
      zeroed page of its own, taken from the free pages, and no other address translates differently.  On failure
      every address translates as before, and every page but new tables is back on the freelist, which then holds no
      more pages than
      the range wanted: memory really was short. */
  method Uvmalloc(k: Kmem, root: nat, oldsz: nat, newsz: nat, perm: u8, ghost tables: set<nat>)
    returns (ret: nat, ghost ok: bool, ghost pages: map<nat, nat>, ghost tables': set<nat>)
    requires Space(k, root, tables) && newsz <= MAXVA
    requires forall p :: LeafPath(p) && RoundUp(oldsz) <= VaOf(p) < newsz ==> !Present(Entry(k.mem, root, p))
    modifies k
    ensures Space(k, root, tables') && OldDataKept(old(k.mem), old(k.free), k.mem, tables')
    ensures newsz < oldsz ==> ret == oldsz && k.mem == old(k.mem) && k.free == old(k.free)
    ensures newsz >= oldsz && ok ==>
              && ret == newsz && Addresses(pages, RoundUp(oldsz), newsz)
              && Given(old(k.mem), k.mem, root, tables', k.free, pages, Readable(perm))
              && Pool(tables, old(k.free), tables', k.free, pages.Values)
    ensures newsz >= oldsz && !ok ==>
            && ret == 0 && SameTranslation(old(k.mem), k.mem, root) && Pool(tables, old(k.free), tables', k.free, {})
            && |k.free| * PGSIZE < newsz + PGSIZE - RoundUp(oldsz)
  {
    hide Space; hide Chain; hide Entry; hide Tbl; hide TreeOk; hide LeafPath; hide VaOf; hide Pte; hide IsLeaf;
    hide Present; hide Zeros; hide RoundUp; hide Given; hide Pool; hide OldDataKept;
    hide SameTranslation; hide Cleared; hide OwnPages; hide Backs; hide WithV; hide Readable; hide Addresses;
    hide SameEntries;
    ghost var mem0, free0, lo := k.mem, k.free, RoundUp(oldsz);
    ok, pages, tables' := true, map[], tables;
    NothingGiven(k, root, tables, Readable(perm));
    if newsz < oldsz {
      return oldsz, ok, pages, tables';
    }
    ReadableLeaf(perm);
    var size := RoundUp(oldsz);
    NoAddresses(lo);
    while size < newsz
      invariant size % PGSIZE == 0 && lo <= size && (size == lo || size < newsz + PGSIZE) && ok
      invariant Space(k, root, tables') && OldDataKept(mem0, free0, k.mem, tables')
      invariant Addresses(pages, lo, size) && |pages| * PGSIZE == size - lo
      invariant Given(mem0, k.mem, root, tables', k.free, pages, Readable(perm))
      invariant Pool(tables, free0, tables', k.free, pages.Values)
    {
      ghost var mem1, free1, tables1, page := k.mem, k.free, tables', 0;
      WholePages(size, MAXVA);
      NotYetGiven(pages, lo, size);
      GivenElsewhere(mem0, mem1, root, tables1, free1, pages, Readable(perm), size);
      var got;
      got, page, tables' := GrowOne(k, root, size, Readable(perm), tables');
      ok := got;
      if !got {
        GivenSame(mem0, free0, mem1, k.mem, root, tables, tables1, tables', free1, k.free, pages, Readable(perm));
        Rollback(k, root, size, RoundUp(oldsz), mem0, free0, tables, tables', pages, Readable(perm));
        return 0, ok, pages, tables';
      }
      GivenNext(mem0, free0, mem1, k.mem, root, tables, tables1, tables', free1, k.free, pages, size, page,
        Readable(perm));
      NextAddress(pages, lo, size, page);
      pages := pages[size := page];
      size := size + PGSIZE;
    }
    LastAddress(pages, lo, size, newsz);
    ret := newsz;
  }

  lemma NoAddresses(lo: nat)
    ensures Addresses(map[], lo, lo)
  {
  }

  lemma NotYetGiven(pages: map<nat, nat>, lo: nat, size: nat)
    requires Addresses(pages, lo, size)
    ensures size !in pages
  {
  }

  lemma NextAddress(pages: map<nat, nat>, lo: nat, size: nat, page: nat)
    requires Addresses(pages, lo, size) && size % PGSIZE == 0 && lo <= size
    ensures Addresses(pages[size := page], lo, size + PGSIZE)
  {
    forall v: nat ensures v in pages[size := page] <==> v % PGSIZE == 0 && lo <= v < size + PGSIZE {
      if v % PGSIZE == 0 && size < v {
        WholePages(size, v);
      }
    }
  }

  lemma LastAddress(pages: map<nat, nat>, lo: nat, size: nat, newsz: nat)
    requires Addresses(pages, lo, size) && size % PGSIZE == 0 && newsz <= size && (size == lo || size < newsz + PGSIZE)
    ensures Addresses(pages, lo, newsz)
  {
    forall v: nat ensures v in pages <==> v % PGSIZE == 0 && lo <= v < newsz {
      if v % PGSIZE == 0 && v < size {
        WholePages(v, size);
      }
    }
  }

  /** The failure exit of uvmalloc: uvmdealloc back to the old size. */
  method Rollback(k: Kmem, root: nat, size: nat, lo: nat, ghost mem0: Mem, ghost free0: seq<nat>,
      ghost tables0: set<nat>, ghost tables: set<nat>,
                  ghost pages: map<nat, nat>, ghost flags: u8)
    requires Space(k, root, tables) && lo % PGSIZE == 0 && size % PGSIZE == 0 && lo <= size <= MAXVA && IsLeaf(flags)
             && Present(flags)
    requires Given(mem0, k.mem, root, tables, k.free, pages, flags) && Addresses(pages, lo, size)
    requires Pool(tables0, free0, tables, k.free, pages.Values) && OldDataKept(mem0, free0, k.mem, tables)
    requires forall p :: LeafPath(p) && lo <= VaOf(p) < size ==> !Present(Entry(mem0, root, p))
    modifies k
    ensures Space(k, root, tables) && SameTranslation(mem0, k.mem, root)
    ensures Pool(tables0, free0, tables, k.free, {}) && OldDataKept(mem0, free0, k.mem, tables)
    ensures |k.free| <= |old(k.free)| + |pages|
  {
    hide Space; hide Chain; hide Entry; hide Tbl; hide TreeOk; hide LeafPath; hide VaOf; hide Pte; hide IsLeaf;
    hide Present; hide Zeros; hide RoundUp; hide Given; hide Pool; hide OldDataKept;
    hide SameTranslation; hide Cleared; hide OwnPages; hide Backs;
    ghost var mem2, free2 := k.mem, k.free;
    GivenOwn(mem0, mem2, root, tables, free2, pages, flags, lo, size);
    RoundUpMonotone(lo, size);
    RoundUpMonotone(size, size);
    var back := Uvmdealloc(k, root, size, lo, tables);
    if lo == size {
      NothingCleared(mem2, root, lo);
    }
    GivenBack(mem0, free0, mem2, k.mem, root, tables0, tables, free2, k.free, pages, flags, lo, size);
    NoneTwice(k, root, tables);
    FewFree(k.free, free2, pages);
  }

  lemma NoneTwice(k: Kmem, root: nat, tables: set<nat>)
    requires Space(k, root, tables)
    ensures Distinct(k.free)
  {
    hide Chain; hide TreeOk;
  }

  /** A list without repetition is no longer than the pages it is drawn from. */
  lemma FewFree(free: seq<nat>, free2: seq<nat>, pages: map<nat, nat>)
    requires Distinct(free) && forall x :: x in free ==> x in free2 || x in pages.Values
    ensures |free| <= |free2| + |pages|
  {
    SetOfSeq(free);
    SetOfSeq(free2);
    FewValues(pages);
    Subset(SetOf(free), SetOf(free2) + pages.Values);
    assert |SetOf(free2) + pages.Values| == |SetOf(free2)| + |pages.Values| - |SetOf(free2) * pages.Values|;
  }

  ghost function SetOf(s: seq<nat>): set<nat> {
    set x | x in s
  }

  lemma {:induction false} SetOfSeq(s: seq<nat>)
    ensures |SetOf(s)| <= |s| && (Distinct(s) ==> |SetOf(s)| == |s|)
  {
    if s == [] {
      assert SetOf(s) == {};
    } else {
      SetOfSeq(s[1..]);
      assert SetOf(s) == SetOf(s[1..]) + {s[0]};
    }
  }

  lemma {:induction false} FewValues(m: map<nat, nat>)
    ensures |m.Values| <= |m|
    decreases |m|
  {
    if m != map[] {
      var k :| k in m;
      var rest := m - {k};
      assert m.Keys == rest.Keys + {k};
      FewValues(rest);
      assert m.Values <= rest.Values + {m[k]} by {
        forall v | v in m.Values ensures v in rest.Values + {m[k]} {
          var j :| j in m && m[j] == v;
          if j != k {
            assert rest[j] == v;
          }
        }
      }
      Subset(m.Values, rest.Values + {m[k]});
    } else {
      assert m.Values == {};
    }
  }

  lemma {:induction false} Subset(a: set<nat>, b: set<nat>)
    requires a <= b
    ensures |a| <= |b|
  {
    assert b == a + (b - a);
  }

  lemma GivenSame(mem0: Mem, free0: seq<nat>, mem1: Mem, mem2: Mem, root: nat, tables0: set<nat>, tables1: set<nat>,
      tables2: set<nat>, free1: seq<nat>, free2: seq<nat>,
                  pages: map<nat, nat>, flags: u8)
    requires Given(mem0, mem1, root, tables1, free1, pages, flags) && SameEntries(mem1, mem2, root)
    requires Pool(tables0, free0, tables1, free1, pages.Values) && Pool(tables1, free1, tables2, free2, {})
    requires OldDataKept(mem0, free0, mem1, tables1) && OldDataKept(mem1, free1, mem2, tables2)
    ensures Given(mem0, mem2, root, tables2, free2, pages, flags) && Pool(tables0, free0, tables2, free2, pages.Values)
            && OldDataKept(mem0, free0, mem2, tables2)
  {
    hide Entry; hide Pte; hide VaOf; hide LeafPath; hide Zeros;
    assert forall v :: v in pages ==> pages[v] in pages.Values;
  }

  /** Present addresses of the range are the given ones, each backed by its own page. */
  lemma GivenOwn(mem0: Mem, mem: Mem, root: nat, tables: set<nat>, free: seq<nat>, pages: map<nat, nat>, flags: u8,
      lo: nat, size: nat)
    requires Given(mem0, mem, root, tables, free, pages, flags) && Addresses(pages, lo, size) && size <= MAXVA
             && IsLeaf(flags) && Present(flags)
    ensures OwnPages(mem, root, tables, free, lo, size)
    ensures forall p :: MappedIn(mem, root, lo, size, p) ==>
            VaOf(p) in pages && Pa(Entry(mem, root, p)) == pages[VaOf(p)]
    ensures forall v :: v in pages ==>
            MappedIn(mem, root, lo, size, PathOf(v)) && Pa(Entry(mem, root, PathOf(v))) == pages[v]
    ensures forall p :: LeafPath(p) && lo <= VaOf(p) < size ==> VaOf(p) in pages && Present(Entry(mem, root, p))
  {
    hide Entry; hide Pte; hide Zeros; hide VaOf; hide Pa; hide IsLeaf; hide Present; hide PathOf; hide LeafPath;
    PathsHaveThree();
    forall p | LeafPath(p) && lo <= VaOf(p) < size
      ensures |p| == 3 && VaOf(p) in pages && Present(Entry(mem, root, p)) && Pa(Entry(mem, root, p)) == pages[VaOf(p)]
              && PathOf(VaOf(p)) == p
    {
      PathOfVaOf(p);
      PteRoundTrip(pages[VaOf(p)], flags);
    }
    forall v | v in pages ensures MappedIn(mem, root, lo, size, PathOf(v))
      && Pa(Entry(mem, root, PathOf(v))) == pages[v] {
      LeafPlace(v);
    }
  }

  lemma GivenBack(mem0: Mem, free0: seq<nat>, mem2: Mem, mem3: Mem, root: nat, tables0: set<nat>, tables: set<nat>,
      free2: seq<nat>, free3: seq<nat>,
                  pages: map<nat, nat>, flags: u8, lo: nat, size: nat)
    requires Given(mem0, mem2, root, tables, free2, pages, flags) && Addresses(pages, lo, size) && size <= MAXVA
             && IsLeaf(flags) && Present(flags)
    requires Pool(tables0, free0, tables, free2, pages.Values) && OldDataKept(mem0, free0, mem2, tables)
    requires Cleared(mem2, mem3, root, lo, size) && DataKept(mem2, mem3, tables, free3)
    requires forall x :: x in free3 <==> x in free2 || Backs(mem2, root, lo, size, x)
    requires forall p :: LeafPath(p) && lo <= VaOf(p) < size ==> !Present(Entry(mem0, root, p))
    ensures SameTranslation(mem0, mem3, root) && Pool(tables0, free0, tables, free3, {})
            && OldDataKept(mem0, free0, mem3, tables)
    ensures forall x :: x in free3 ==> x in free2 || x in pages.Values
  {
    hide Entry; hide Pte; hide Zeros; hide VaOf; hide Pa; hide IsLeaf; hide Present; hide PathOf; hide LeafPath;
    GivenOwn(mem0, mem2, root, tables, free2, pages, flags, lo, size);
    ZeroIsAbsent();
    forall x ensures Backs(mem2, root, lo, size, x) <==> x in pages.Values {
      if x in pages.Values {
        var v :| v in pages && pages[v] == x;
        assert MappedIn(mem2, root, lo, size, PathOf(v));
      }
    }
    PathsHaveThree();
    forall p | LeafPath(p) ensures Translates(mem3, root, p) == Translates(mem0, root, p) {
      assert Entry(mem3, root, p) == if MappedIn(mem2, root, lo, size, p) then 0 else Entry(mem2, root, p);
    }
  }

  lemma PathsHaveThree()
    ensures forall p :: LeafPath(p) ==> |p| == 3
  {
  }

  lemma NothingGiven(k: Kmem, root: nat, tables: set<nat>, flags: u8)
    ensures Given(k.mem, k.mem, root, tables, k.free, map[], flags) && OldDataKept(k.mem, k.free, k.mem, tables)
    ensures var none: map<nat, nat> := map[]; Pool(tables, k.free, tables, k.free, none.Values)
    ensures Pool(tables, k.free, tables, k.free, {}) && SameTranslation(k.mem, k.mem, root)
  {
    hide Entry; hide Pte; hide VaOf;
  }

  /** An address with no page yet translates as at the start. */
  lemma GivenElsewhere(mem0: Mem, mem: Mem, root: nat, tables: set<nat>, free: seq<nat>, pages: map<nat, nat>,
      flags: u8, va: nat)
    requires Given(mem0, mem, root, tables, free, pages, flags) && va !in pages
    ensures forall p :: LeafPath(p) && VaOf(p) == va ==> Entry(mem, root, p) == Entry(mem0, root, p)
  {
    hide Entry; hide Pte; hide VaOf; hide LeafPath;
  }

  /** One more page given. */
  lemma GivenNext(mem0: Mem, free0: seq<nat>, mem1: Mem, mem2: Mem, root: nat, tables0: set<nat>, tables1: set<nat>,
      tables2: set<nat>, free1: seq<nat>, free2: seq<nat>,
                  pages: map<nat, nat>, va: nat, page: nat, flags: u8)
    requires Given(mem0, mem1, root, tables1, free1, pages, flags) && va !in pages
    requires Pool(tables0, free0, tables1, free1, pages.Values) && Pool(tables1, free1, tables2, free2, {page})
    requires OldDataKept(mem0, free0, mem1, tables1) && OldDataKept(mem1, free1, mem2, tables2)
    requires page in free1 && page in mem2 && page !in tables2 && page !in free2 && mem2[page] == Zeros(PGSIZE)
             && page % PGSIZE == 0 && page < 0x100_0000_0000_0000
    requires forall p :: LeafPath(p) ==>
             Entry(mem2, root, p) == if VaOf(p) == va then Pte(page, flags) else Entry(mem1, root, p)
    ensures Given(mem0, mem2, root, tables2, free2, pages[va := page], flags)
    ensures Pool(tables0, free0, tables2, free2, pages[va := page].Values)
    ensures OldDataKept(mem0, free0, mem2, tables2)
  {
    hide Entry; hide Pte; hide VaOf; hide LeafPath; hide Zeros;
    var pages' := pages[va := page];
    assert forall v :: v in pages ==> pages[v] in pages.Values;
    assert pages'.Values == pages.Values + {page} by {
      assert va in pages' && pages'[va] == page;
      forall x | x in pages.Values ensures x in pages'.Values {
        var v :| v in pages && pages[v] == x;
        assert pages'[v] == x;
      }
    }
  }
}
