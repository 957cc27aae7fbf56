/** copyout of mm/vm.c: writing into user memory through its page table. */
module Argv {
  import opened Bytes
  import opened Kalloc
  import opened PageTree
  import opened Vm
  import opened Seqs

  /** ALIGNDOWN(a, PGSIZE) */
  function PageOf(a: nat): (va: nat)
    ensures va % PGSIZE == 0 && va <= a < va + PGSIZE
  {
    a / PGSIZE * PGSIZE
  }

  /** The leaf entry for address a. */
  ghost function EntryOf(mem: Mem, root: nat, a: nat): u64 {
    Entry(mem, root, PathOf(PageOf(a)))
  }

  /** The user may touch address a. */
  ghost predicate Accessible(mem: Mem, root: nat, a: nat) {
    Present(EntryOf(mem, root, a)) && IsUser(EntryOf(mem, root, a))
  }

  /** The physical page behind address a. */
  ghost function Frame(mem: Mem, root: nat, a: nat): nat {
    Pa(EntryOf(mem, root, a))
  }

  /** Over the tables in memory: the hardware's walk ends at a word whose bits 0 (V) and 4 (U) are set, and the page
      behind the address starts at the page number in its bits from 10 on. */
  lemma AccessBits(mem: Mem, root: nat, a: nat)
    requires a < 0x80_0000_0000
    ensures var e2 := WordIn(mem, root, a / 0x4000_0000);
            var e1 := if e2 % 2 == 1 then WordIn(mem, e2 / 0x400 * 0x1000 % 0x1_0000_0000_0000_0000,
                                                 a / 0x20_0000 % 512) else 0;
            var e0 := if e1 % 2 == 1 then WordIn(mem, e1 / 0x400 * 0x1000 % 0x1_0000_0000_0000_0000,
                                                 a / 0x1000 % 512) else 0;
            && (Accessible(mem, root, a) <==> e0 % 2 == 1 && e0 / 16 % 2 == 1)
            && Frame(mem, root, a) == e0 / 0x400 * 0x1000 % 0x1_0000_0000_0000_0000
  {
    hide Entry; hide WordIn; hide PathOf;
    EntryWalk(mem, root, a);
    PathOfPage(a);
  }

  lemma PathOfPage(a: nat)
    requires a < 0x80_0000_0000
    ensures PathOf(PageOf(a)) == PathOf(a) && LeafPath(PathOf(a))
  {
    var n := a / 0x1000;
    assert PageOf(a) / 0x1000 == n;
    assert a / 0x20_0000 == n / 512 == PageOf(a) / 0x20_0000;
    assert a / 0x4000_0000 == n / 512 / 512 == PageOf(a) / 0x4000_0000;
  }

  /** What vmmap mapped the user may touch exactly when bit 4 (PTE_U) of the permission is set; every other address is
      as accessible as before. */
  lemma MappedAccess(mem0: Mem, mem: Mem, root: nat, va: nat, end: nat, pa: nat, perm: u8)
    requires Mapped(mem0, mem, root, va, end, pa, WithV(perm)) && va % PGSIZE == 0 && end % PGSIZE == 0
    requires pa % PGSIZE == 0 && va <= end <= MAXVA && pa + end - va <= 0x100_0000_0000_0000
    ensures forall a: nat :: va <= a < end ==>
              (Accessible(mem, root, a) <==> perm / 16 % 2 == 1) && Frame(mem, root, a) == pa + PageOf(a) - va
    ensures forall a: nat :: a < MAXVA && !(va <= a < end) ==>
              Accessible(mem, root, a) == Accessible(mem0, root, a) && Frame(mem, root, a) == Frame(mem0, root, a)
  {
    hide Entry; hide PathOf; hide PageOf; hide VaOf; hide LeafPath; hide Pte; hide Present; hide IsUser; hide Pa;
    hide WithV;
    forall a: nat | a < MAXVA
      ensures EntryOf(mem, root, a) == if va <= a < end then Pte(pa + PageOf(a) - va, WithV(perm))
                                       else EntryOf(mem0, root, a)
      ensures va <= a < end ==> va <= PageOf(a) < end
    {
      PagePlace(a, va, end);
      assert Entry(mem, root, PathOf(PageOf(a))) ==
        if va <= VaOf(PathOf(PageOf(a))) < end then Pte(pa + VaOf(PathOf(PageOf(a))) - va, WithV(perm))
        else Entry(mem0, root, PathOf(PageOf(a)));
    }
    forall a: nat | va <= a < end
      ensures (Accessible(mem, root, a) <==> perm / 16 % 2 == 1) && Frame(mem, root, a) == pa + PageOf(a) - va
    {
      MappedBits(pa + PageOf(a) - va, perm);
    }
  }

  lemma MappedBits(pa: nat, perm: u8)
    requires pa < 0x100_0000_0000_0000 && pa % PGSIZE == 0
    ensures var e := Pte(pa, WithV(perm)); Present(e) && (IsUser(e) <==> perm / 16 % 2 == 1) && Pa(e) == pa
  {
    hide Pte; hide Present; hide IsUser; hide Pa;
    FlagBits(pa, WithV(perm));
  }

  lemma PagePlace(a: nat, va: nat, end: nat)
    requires a < MAXVA && va % PGSIZE == 0 && end % PGSIZE == 0 && va <= end
    ensures va <= PageOf(a) < end <==> va <= a < end
    ensures LeafPath(PathOf(PageOf(a))) && VaOf(PathOf(PageOf(a))) == PageOf(a)
  {
    hide PathOf; hide VaOf;
    VaOfPathOf(PageOf(a));
  }

  /** What the user reads at address a. */
  ghost function UserByte(mem: Mem, root: nat, a: nat): u8 {
    if a < MAXVA && Accessible(mem, root, a)
       && Frame(mem, root, a) in mem then mem[Frame(mem, root, a)][a - PageOf(a)] else 0
  }

  /** User pages are memory of their own: no tables, not free, and none behind two pages of addresses. */
  ghost predicate UserPages(mem: Mem, root: nat, tables: set<nat>, free: seq<nat>) {
    && (forall a: nat :: a < MAXVA && Accessible(mem, root, a) ==>
          Frame(mem, root, a) in mem && Frame(mem, root, a) !in tables && Frame(mem, root, a) !in free)
    && (forall a: nat, b: nat :: (a < MAXVA && b < MAXVA && Accessible(mem, root, a) && Accessible(mem, root, b)
                        && Frame(mem, root, a) == Frame(mem, root, b)) ==> PageOf(a) == PageOf(b))
  }

  /** User memory reads as before except that bytes lie at the address. */
  ghost predicate Wrote(mem0: Mem, mem: Mem, root: nat, at: nat, bytes: seq<u8>) {
    forall a: nat :: UserByte(mem, root, a) == if at <= a < at + |bytes| then bytes[a - at] else UserByte(mem0, root, a)
  }

  /** Writing part of one user page. */
  lemma CopyChunk(mem: Mem, mem': Mem, root: nat, tables: set<nat>, free: seq<nat>, at: nat, chunk: seq<u8>)
    requires TreeOk(mem, root, tables) && UserPages(mem, root, tables, free) && at < MAXVA && Accessible(mem, root, at)
    requires at - PageOf(at) + |chunk| <= PGSIZE
    requires Frame(mem, root, at) in mem
             && mem' == mem[Frame(mem, root, at) := Splice(mem[Frame(mem, root, at)], at - PageOf(at), chunk)]
    ensures TreeOk(mem', root, tables) && SameEntries(mem, mem', root) && UserPages(mem', root, tables, free)
    ensures Wrote(mem, mem', root, at, chunk)
    ensures forall a: nat :: Accessible(mem', root, a) == Accessible(mem, root, a)
  {
    hide TreeOk; hide Entry; hide Present; hide IsUser; hide Pa; hide Splice; hide PathOf; hide PageOf; hide LeafPath;
    var f := Frame(mem, root, at);
    TablesAreMemory(mem, root, tables);
    OtherPages(mem, mem', root, tables);
    SpliceBytes(mem[f], at - PageOf(at), chunk);
    SameEntryOf(mem, mem', root);
    hide EntryOf;
    forall a: nat ensures UserByte(mem', root, a) ==
      if at <= a < at + |chunk| then chunk[a - at] else UserByte(mem, root, a) {
      SamePage(a, at);
      if a < MAXVA && Accessible(mem, root, a) && Frame(mem, root, a) == f {
        assert PageOf(a) == PageOf(at);
      }
      LastPage(at);
    }
  }

  lemma SameEntryOf(mem: Mem, mem': Mem, root: nat)
    requires SameEntries(mem, mem', root)
    ensures forall a: nat :: EntryOf(mem', root, a) == EntryOf(mem, root, a)
  {
    hide Entry;
  }

  lemma SamePage(a: nat, b: nat)
    ensures PageOf(b) <= a < PageOf(b) + PGSIZE ==> PageOf(a) == PageOf(b)
  {
    if PageOf(a) < PageOf(b) {
      WholePages(PageOf(a), PageOf(b));
    } else if PageOf(b) < PageOf(a) {
      WholePages(PageOf(b), PageOf(a));
    }
  }

  lemma LastPage(a: nat)
    requires a < MAXVA
    ensures PageOf(a) + PGSIZE <= MAXVA
  {
    WholePages(PageOf(a), MAXVA);
  }

  /** memcpy into a page that is not free. */
  method StoreBytes(k: Kmem, pa: nat, off: nat, bytes: seq<u8>)
    requires k.Valid() && pa in k.mem && pa !in k.free && off + |bytes| <= PGSIZE
    modifies k`mem
    ensures k.Valid() && k.mem == old(k.mem)[pa := Splice(old(k.mem)[pa], off, bytes)]
  {
    hide Splice; hide Distinct;
    ghost var mem0 := k.mem;
    k.mem := k.mem[pa := Splice(k.mem[pa], off, bytes)];
    ChainFrame(mem0, k.mem, k.memlist, k.free);
  }

  lemma WroteNothing(mem: Mem, root: nat, at: nat)
    ensures Wrote(mem, mem, root, at, [])
  {
    hide UserByte;
  }

  lemma WroteNext(m0: Mem, m1: Mem, m2: Mem, root: nat, at: nat, src: seq<u8>, n: nat, c: nat)
    requires n + c <= |src| && Wrote(m0, m1, root, at, src[..n]) && Wrote(m1, m2, root, at + n, src[n..n + c])
    ensures Wrote(m0, m2, root, at, src[..n + c])
  {
    hide UserByte;
  }

  /** The walk finds the entry of the address. */
  lemma WalkedEntry(mem: Mem, root: nat, a: nat)
    ensures var t := Tbl(mem, root, PathOf(PageOf(a))[..2]);
            && (t == 0 ==> !Present(EntryOf(mem, root, a)))
            && (t != 0 && t in mem ==> EntryOf(mem, root, a) == WordAt(mem[t], PathOf(PageOf(a))[2]))
  {
    hide Tbl; hide WordAt;
  }

  /** One round of copyout: up to the end of the page, or false when the user may not touch it. */
  method CopyPage(k: Kmem, root: nat, dst: nat, src: seq<u8>, ghost tables: set<nat>) returns (ok: bool, n: nat)
    requires Space(k, root, tables) && UserPages(k.mem, root, tables, k.free) && 0 < |src| && dst + |src| <= MAXVA
    modifies k
    ensures Space(k, root, tables) && UserPages(k.mem, root, tables, k.free) && k.free == old(k.free)
    ensures ok <==> old(Accessible(k.mem, root, dst))
    ensures if ok then 0 < n <= |src| && Wrote(old(k.mem), k.mem, root, dst, src[..n])
            && dst - PageOf(dst) + n <= PGSIZE else n == 0 && k.mem == old(k.mem)
    ensures forall a: nat :: Accessible(k.mem, root, a) == Accessible(old(k.mem), root, a)
  {
    hide Chain; hide TreeOk; hide Tbl; hide EntryOf; hide WordAt; hide PathOf; hide PageOf; hide Present;
    hide IsUser; hide Pa; hide Splice; hide Wrote; hide Entry; hide UserPages; hide SameEntries; hide Distinct;
    hide Frame;
    ghost var mem0 := k.mem;
    n := 0;
    LastPage(dst);
    var va := PageOf(dst);
    var t, i;
    ghost var tables';
    t, i, tables' := Walk(k, root, va, false, tables);
    WalkedEntry(mem0, root, dst);
    if t == 0 || !Present(WordAt(k.mem[t], i)) || !IsUser(WordAt(k.mem[t], i)) {
      return false, n;
    }
    var pa := Pa(WordAt(k.mem[t], i));
    FrameOf(mem0, root, tables, k.free, dst);
    var offset := dst - va;
    n := PGSIZE - offset;
    if n > |src| {
      n := |src|;
    }
    StoreBytes(k, pa, offset, src[..n]);
    CopyChunk(mem0, k.mem, root, tables, k.free, dst, src[..n]);
    ok := true;
  }

  lemma FrameOf(mem: Mem, root: nat, tables: set<nat>, free: seq<nat>, a: nat)
    requires UserPages(mem, root, tables, free) && a < MAXVA && Accessible(mem, root, a)
    ensures Frame(mem, root, a) == Pa(EntryOf(mem, root, a)) && Frame(mem, root, a) in mem
            && Frame(mem, root, a) !in tables && Frame(mem, root, a) !in free
  {
    hide EntryOf;
  }

  /** copyout: copies everything when the user may touch the whole range.  Otherwise it copies up to the first address
      the user may not touch, and says so.  User memory elsewhere reads as before. */
  method Copyout(k: Kmem, root: nat, dstva: nat, src: seq<u8>, ghost tables: set<nat>) returns (ok: bool, ghost n: nat)
    requires Space(k, root, tables) && UserPages(k.mem, root, tables, k.free) && dstva + |src| <= MAXVA
    modifies k
    ensures Space(k, root, tables) && UserPages(k.mem, root, tables, k.free) && k.free == old(k.free)
    ensures n <= |src| && Wrote(old(k.mem), k.mem, root, dstva, src[..n])
    ensures ok <==> n == |src|
    ensures forall a: nat :: dstva <= a < dstva + n ==> Accessible(old(k.mem), root, a)
    ensures n < |src| ==> !Accessible(old(k.mem), root, dstva + n)
    ensures forall a: nat :: Accessible(k.mem, root, a) == Accessible(old(k.mem), root, a)
  {
    hide Space; hide UserPages; hide Wrote; hide Accessible; hide PageOf;
    ghost var mem0 := k.mem;
    var done := 0;
    ok := true;
    n := 0;
    WroteNothing(mem0, root, dstva);
    while done < |src| && ok
      invariant 0 <= done <= |src| && n == done
      invariant Space(k, root, tables) && UserPages(k.mem, root, tables, k.free) && k.free == old(k.free)
      invariant Wrote(mem0, k.mem, root, dstva, src[..done])
      invariant forall a: nat :: dstva <= a < dstva + done ==> Accessible(mem0, root, a)
      invariant !ok ==> done < |src| && !Accessible(mem0, root, dstva + done)
      invariant forall a: nat :: Accessible(k.mem, root, a) == Accessible(mem0, root, a)
      decreases if ok then 1 else 0, |src| - done
    {
      ghost var mem1 := k.mem;
      var c;
      ok, c := CopyPage(k, root, dstva + done, src[done..], tables);
      if ok {
        assert src[done..][..c] == src[done..done + c];
        WroteNext(mem0, mem1, k.mem, root, dstva, src, done, c);
        AccessiblePage(mem0, root, dstva + done, c);
        done := done + c;
        n := done;
      }
    }
    assert src[..n] == src[..done];
  }

  /** The rest of the page is as accessible as its first byte. */
  lemma AccessiblePage(mem: Mem, root: nat, at: nat, c: nat)
    requires Accessible(mem, root, at) && at - PageOf(at) + c <= PGSIZE
    ensures forall a: nat :: at <= a < at + c ==> Accessible(mem, root, a)
  {
    hide Entry; hide PageOf;
    forall a: nat | at <= a < at + c ensures Accessible(mem, root, a) {
      SamePage(a, at);
    }
  }
}
