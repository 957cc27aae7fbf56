/** mm/slab.c: a cache of equal-sized objects on three lists of slabs. */
module Slab {
  import opened Arith
  import opened Bytes
  import opened Kalloc
  import opened SlabMem
  import opened SlabHeld
  import opened SlabPage
  import opened SlabList
  import opened Seqs

  const MAX_EMPTY_SLABS: nat := 2

  ghost predicate Apart(a: seq<nat>, b: seq<nat>) {
    forall x :: x in a ==> x !in b
  }

  ghost function FreePages(free: seq<nat>): set<nat> {
    set i | 0 <= i < |free| :: free[i]
  }

  /** Three lists that share no slab. */
  ghost predicate ThreeLists(mem: Mem, a: seq<nat>, b: seq<nat>, c: seq<nat>) {
    DList(mem, a) && DList(mem, b) && DList(mem, c) && Apart(a, b) && Apart(a, c) && Apart(b, c)
  }

  /** No page outside S changed. */
  ghost predicate PagesKept(mem: Mem, mem': Mem, S: set<nat>) {
    mem'.Keys == mem.Keys && forall p :: p in mem && p !in S ==> mem'[p] == mem[p]
  }

  lemma KeptTwice(m0: Mem, m1: Mem, m2: Mem, S: set<nat>, T: set<nat>)
    requires PagesKept(m0, m1, S) && PagesKept(m1, m2, T)
    ensures PagesKept(m0, m2, S + T)
  {
  }

  lemma KeptSelf(m: Mem, S: set<nat>)
    ensures PagesKept(m, m, S)
  {
  }

  lemma KeptWider(m0: Mem, m1: Mem, S: set<nat>, T: set<nat>)
    requires PagesKept(m0, m1, S) && forall p :: p in S ==> p in T
    ensures PagesKept(m0, m1, T)
  {
  }

  lemma NewHead(s: nat, q: seq<nat>)
    ensures HeadOf([s] + q) == s
  {
  }

  /** A slab moved from list a to list b. */
  lemma MovedPages(m0: Mem, m1: Mem, a: seq<nat>, b: seq<nat>, s: nat, T: set<nat>)
    requires PagesKept(m0, m1, Pages(a) + ({s} + Pages(b))) && s in T
    requires (forall i :: 0 <= i < |a| ==> a[i] in T) && forall i :: 0 <= i < |b| ==> b[i] in T
    ensures PagesKept(m0, m1, T)
  {
    hide PagesKept;
    KeptWider(m0, m1, Pages(a) + ({s} + Pages(b)), T);
  }

  lemma LinksKept(m0: Mem, m1: Mem, S: set<nat>)
    requires OnlyLinksOf(m0, m1, S)
    ensures PagesKept(m0, m1, S)
  {
    hide W; hide LinkWord; hide Aligned8; hide Page;
  }

  /** The slabs of a cache, each with its free objects. */
  ghost predicate SlabsOk(mem: Mem, objsz: nat, addr: nat, fl: map<nat, seq<nat>>) {
    forall s :: s in fl ==> SlabOk(mem, s, objsz, addr, fl[s])
  }

  /** Every slab is on exactly one list, and the list tells how many of its objects are free. */
  ghost predicate Partition(n: nat, full: seq<nat>, partial: seq<nat>, empty: seq<nat>, fl: map<nat, seq<nat>>) {
    && (forall s :: s in fl <==> s in full || s in partial || s in empty)
    && (forall s :: s in full ==> fl[s] == [])
    && (forall s :: s in partial ==> fl[s] != [])
    && (forall s :: s in empty ==> |fl[s]| == n)
  }

  lemma ListsRotate(mem: Mem, a: seq<nat>, b: seq<nat>, c: seq<nat>)
    requires ThreeLists(mem, a, b, c)
    ensures ThreeLists(mem, b, a, c) && ThreeLists(mem, b, c, a) && ThreeLists(mem, a, c, b) && ThreeLists(mem, c, a, b)
            && ThreeLists(mem, c, b, a)
  {
    hide DList;
  }

  /** List surgery leaves slab headers and objects alone. */
  lemma LinksKeepSlabs(mem: Mem, mem': Mem, objsz: nat, addr: nat, fl: map<nat, seq<nat>>)
    requires SizeOk(objsz) && SlabsOk(mem, objsz, addr, fl) && OnlyLinkWords(mem, mem')
    ensures SlabsOk(mem', objsz, addr, fl)
  {
    hide SlabOk; hide W; hide LinkWord; hide Page; hide Aligned8; hide SizeOk;
    forall s | s in fl ensures SlabOk(mem', s, objsz, addr, fl[s]) {
      SlabFrame(mem, mem', s, objsz, addr, fl[s]);
    }
  }

  /** Work inside one slab leaves the lists and the other slabs alone. */
  lemma BodyKeepsRest(mem: Mem, mem': Mem, objsz: nat, addr: nat, fl: map<nat, seq<nat>>, s: nat, free: seq<nat>)
    requires SizeOk(objsz) && SlabsOk(mem, objsz, addr, fl) && OnlyBody(mem, mem', s)
             && SlabOk(mem', s, objsz, addr, free)
    ensures SlabsOk(mem', objsz, addr, fl[s := free])
  {
    hide SlabOk; hide W; hide LinkWord; hide Page; hide Aligned8; hide SizeOk;
    forall t | t in fl && t != s ensures SlabOk(mem', t, objsz, addr, fl[t]) {
      SlabFrame(mem, mem', t, objsz, addr, fl[t]);
    }
  }

  lemma BodyKeepsList(mem: Mem, mem': Mem, s: nat, q: seq<nat>)
    requires DList(mem, q) && OnlyBody(mem, mem', s)
    ensures DList(mem', q)
  {
    hide W; hide IsBase; hide Aligned8; hide NextOf; hide PrevOf; hide Page; hide LinkWord;
    forall i | 0 <= i < |q| ensures W(mem', q[i]) == NextOf(q, i) && W(mem', q[i] + 8) == PrevOf(q, i) {
      LinkWordFacts(q[i]);
    }
  }

  lemma BodyKeepsLists(mem: Mem, mem': Mem, s: nat, a: seq<nat>, b: seq<nat>, c: seq<nat>)
    requires ThreeLists(mem, a, b, c) && OnlyBody(mem, mem', s)
    ensures ThreeLists(mem', a, b, c)
  {
    hide DList; hide OnlyBody;
    BodyKeepsList(mem, mem', s, a);
    BodyKeepsList(mem, mem', s, b);
    BodyKeepsList(mem, mem', s, c);
  }

  /** list_remove from one list and list_insert into another. */
  method MoveSlab(k: Kmem, headA: nat, headB: nat, s: nat, ghost a: seq<nat>, ghost i: nat, ghost b: seq<nat>,
      ghost c: seq<nat>,
                  ghost objsz: nat, ghost addr: nat, ghost fl: map<nat, seq<nat>>)
    returns (headA': nat, headB': nat)
    requires k.Valid() && ThreeLists(k.mem, a, b, c) && headA == HeadOf(a) && headB == HeadOf(b) && i < |a| && a[i] == s
    requires (forall x :: x in a || x in b ==> x !in k.free) && SizeOk(objsz) && SlabsOk(k.mem, objsz, addr, fl)
    modifies k`mem
    ensures k.Valid() && ThreeLists(k.mem, a[..i] + a[i + 1..], [s] + b, c) && headA' == HeadOf(a[..i] + a[i + 1..])
            && headB' == s
    ensures SlabsOk(k.mem, objsz, addr, fl) && OnlyLinkWords(old(k.mem), k.mem)
    ensures PagesKept(old(k.mem), k.mem, Pages(a) + ({s} + Pages(b)))
    ensures forall x :: x in a[..i] + a[i + 1..] <==> x in a && x != s
  {
    hide SlabsOk; hide OnlyLinksOf; hide OnlyLinkWords; hide DList; hide Kmem.Valid; hide SizeOk;
    ghost var m0, rest := k.mem, a[..i] + a[i + 1..];
    RestOf(m0, a, i);
    PagesApart(a, b);
    PagesApart(a, c);
    PagesApart(b, c);
    headA' := ListRemove(k, headA, s, a, i);
    ghost var m1 := k.mem;
    OtherList(m0, m1, Pages(a), b);
    OtherList(m0, m1, Pages(a), c);
    ListPages(k, m0, m1, a, b, s);
    headB' := ListInsert(k, headB, s, b);
    PagesApart(b, rest);
    OtherList(m1, k.mem, {s} + Pages(b), rest);
    OtherList(m1, k.mem, {s} + Pages(b), c);
    LinkWordsTwice(m0, m1, k.mem, Pages(a), {s} + Pages(b));
    LinksKept(m0, m1, Pages(a));
    LinksKept(m1, k.mem, {s} + Pages(b));
    KeptTwice(m0, m1, k.mem, Pages(a), {s} + Pages(b));
    LinksKeepSlabs(m0, k.mem, objsz, addr, fl);
  }

  lemma PagesApart(a: seq<nat>, q: seq<nat>)
    requires Apart(a, q) || Apart(q, a)
    ensures forall i :: 0 <= i < |q| ==> q[i] !in Pages(a)
    ensures Apart(a, q) && Apart(q, a)
  {
    assert forall j :: 0 <= j < |a| ==> a[j] in a;
    assert forall j :: 0 <= j < |q| ==> q[j] in q;
  }

  lemma RestOf(mem: Mem, a: seq<nat>, i: nat)
    requires DList(mem, a) && i < |a|
    ensures var rest := a[..i] + a[i + 1..]; (forall x :: x in rest <==> x in a && x != a[i]) && a[i] !in rest
  {
    hide W; hide IsBase; hide NextOf; hide PrevOf;
    RestMembers(a, i);
  }

  lemma RestMembers(a: seq<nat>, i: nat)
    requires Distinct(a) && i < |a|
    ensures forall x :: x in a[..i] + a[i + 1..] <==> x in a && x != a[i]
  {
    var rest := a[..i] + a[i + 1..];
    forall x ensures x in rest <==> x in a && x != a[i] {
      if x in rest {
        var j :| 0 <= j < |rest| && rest[j] == x;
        assert x == a[if j < i then j else j + 1];
      }
      if x in a && x != a[i] {
        var j :| 0 <= j < |a| && a[j] == x;
        assert rest[if j < i then j else j - 1] == x;
      }
    }
  }

  lemma ListPages(k: Kmem, m0: Mem, m1: Mem, a: seq<nat>, b: seq<nat>, s: nat)
    requires k.Valid() && k.mem == m1 && DList(m0, a) && s in a && DList(m1, b) && OnlyLinksOf(m0, m1, Pages(a))
    ensures s != 0 && IsBase(s) && s in m1 && s < 0x1_0000_0000_0000_0000 && HeadOf(b) < 0x1_0000_0000_0000_0000
  {
    hide W; hide Chain;
    PageFacts(k, s);
    if b != [] {
      PageFacts(k, b[0]);
    }
  }

  lemma LinkWordsTwice(m0: Mem, m1: Mem, m2: Mem, S: set<nat>, T: set<nat>)
    requires OnlyLinksOf(m0, m1, S) && OnlyLinksOf(m1, m2, T)
    ensures OnlyLinkWords(m0, m2)
  {
    hide W; hide LinkWord; hide Aligned8; hide Page;
  }

  /** struct cache.  The ghost fields give the three lists and, for each slab, its free objects by number, in
      freelist order. */
  class Cache {
    const k: Kmem
    const objsz: nat
    const addr: nat
    var slabsFull: nat
    var slabsPartial: nat
    var slabsEmpty: nat
    var emptySlabs: int
    ghost var full: seq<nat>
    ghost var partial: seq<nat>
    ghost var empty: seq<nat>
    ghost var fl: map<nat, seq<nat>>

    /** The lists are linked and the slabs are well formed. */
    ghost predicate Parts()
      reads this, k
    {
      && k.Valid() && SizeOk(objsz) && addr < 0x100_0000_0000_0000
      && slabsFull == HeadOf(full) && slabsPartial == HeadOf(partial) && slabsEmpty == HeadOf(empty)
         && emptySlabs == |empty|
      && ThreeLists(k.mem, full, partial, empty) && SlabsOk(k.mem, objsz, addr, fl)
      && (forall s :: s in fl ==> s !in k.free)
    }

    ghost predicate Inv()
      reads this, k
    {
      Parts() && Partition(ObjectsNum(objsz), full, partial, empty, fl)
    }

    /** Between calls at most two slabs are kept empty. */
    ghost predicate Valid()
      reads this, k
    {
      Inv() && |empty| <= MAX_EMPTY_SLABS
    }

    /** The pages the cache may write: its slabs and the free pages. */
    ghost function Own(): set<nat>
      reads this, k
    {
      fl.Keys + FreePages(k.free)
    }

    /** Object j of slab s is handed out. */
    ghost predicate Live(s: nat, j: nat)
      reads this
    {
      s in fl && j < ObjectsNum(objsz) && j !in fl[s]
    }

    /** cache_create: a cache with no slabs, for any size; addr is the page taken for the struct.  It is in order when
        the rounded size leaves room for the sentinel. */
    constructor (k: Kmem, size: u32, addr: nat)
      requires k.Valid() && addr < 0x100_0000_0000_0000
      ensures SizeOk(Rounded(size)) ==> Valid()
      ensures this.k == k && objsz == Rounded(size) && (size <= ROOM ==> size <= objsz) && this.addr == addr
      ensures fl == map[] && full == partial == empty == []
    {
      RoundedSizes(size);
      this.k, this.objsz, this.addr := k, Rounded(size), addr;
      slabsFull, slabsPartial, slabsEmpty, emptySlabs := 0, 0, 0, 0;
      full, partial, empty, fl := [], [], [], map[];
    }

    /** Live objects of the cache do not overlap, and lie in slabs, after the header and before the sentinel. */
    lemma LiveApart(s: nat, i: nat, t: nat, j: nat)
      requires Inv() && Live(s, i) && Live(t, j) && (s != t || i != j)
      ensures SlotAt(s, objsz, i) + objsz <= SlotAt(t, objsz, j) || SlotAt(t, objsz, j) + objsz <= SlotAt(s, objsz, i)
      ensures Page(SlotAt(s, objsz, i)) == s && s + HEADER <= SlotAt(s, objsz, i)
              && SlotAt(s, objsz, i) + objsz + 8 <= s + PGSIZE && s !in k.free
    {
      hide W; hide Chain; hide SlotAt; hide Page; hide SlotChain; hide ThreeLists; hide Partition; hide SizeOk;
      SlotsApart(s, i, t, j, objsz);
      SlotFacts(s, objsz, i);
      TailInPage(s, objsz);
    }

    /** slabinit: a fresh page becomes a slab with all objects free, in order.  No other page changes exactly when the
        sentinel fits: otherwise it overwrites the first word of the next page. */
    method SlabInit(s: nat)
      requires k.Valid() && HasObjects(objsz) && addr < 0x100_0000_0000_0000 && s in k.mem && s !in k.free
      requires !SizeOk(objsz) ==> s + PGSIZE in k.mem && s + PGSIZE !in k.free
      modifies k`mem
      ensures k.Valid() && SlabOk(k.mem, s, objsz, addr, Indices(0, ObjectsNum(objsz)))
      ensures k.mem.Keys == old(k.mem).Keys
      ensures forall p :: p in k.mem && p != s && (SizeOk(objsz) || p != s + PGSIZE) ==> k.mem[p] == old(k.mem)[p]
      ensures !SizeOk(objsz) ==> W(k.mem, s + PGSIZE) == 0 && OthersOfPage(old(k.mem), k.mem, s + PGSIZE)
      ensures (forall a: nat :: Aligned8(a) && Page(a) != s ==> W(k.mem, a) == W(old(k.mem), a))
              <==> SizeOk(objsz) || W(old(k.mem), s + PGSIZE) == 0
    {
      hide W; hide Page; hide LinkWord; hide IsBase; hide Aligned8; hide SlotAt; hide SizeOk; hide HasObjects;
      hide Kmem.Valid;
      hide ObjectsNum; hide OnlyWords;
      var n := ObjectsNum(objsz);
      InitFacts(k, s, objsz);
      ghost var m0 := k.mem;
      Store(k, s + 16, s + HEADER);
      ghost var m1 := k.mem;
      Store(k, s + 24, n + n * 0x1_0000_0000);
      ghost var m2 := k.mem;
      Store(k, s, 0);
      ghost var m3 := k.mem;
      Store(k, s + 8, 0);
      ghost var m4 := k.mem;
      Store(k, s + 32, addr);
      HeaderWords(m1, m2, m3, m4, k.mem, s);
      ghost var m5 := k.mem;
      Thread(s);
      ThreadedChain(k.mem, s, objsz, n, 0);
      OtherWords(m0, m5, k.mem, s, objsz);
    }

    /** The loop of slabinit: each object's word points to the next, and the sentinel is null. */
    method Thread(s: nat)
      requires k.Valid() && HasObjects(objsz) && s in k.mem && s !in k.free
      requires !SizeOk(objsz) ==> s + PGSIZE in k.mem && s + PGSIZE !in k.free
      modifies k`mem
      ensures k.Valid() && k.mem.Keys == old(k.mem).Keys
      ensures forall j :: 0 <= j < ObjectsNum(objsz) ==> W(k.mem, SlotAt(s, objsz, j)) == SlotAt(s, objsz, j + 1)
      ensures SameHeader(old(k.mem), k.mem, s)
      ensures forall p :: p in k.mem && p != s && (SizeOk(objsz) || p != s + PGSIZE) ==> k.mem[p] == old(k.mem)[p]
      ensures !SizeOk(objsz) ==> W(k.mem, s + PGSIZE) == 0 && OthersOfPage(old(k.mem), k.mem, s + PGSIZE)
    {
      hide W; hide Page; hide LinkWord; hide IsBase; hide Aligned8; hide SlotAt; hide SizeOk; hide HasObjects;
      hide Kmem.Valid;
      hide ObjectsNum;
      InitFacts(k, s, objsz);
      var n := ObjectsNum(objsz);
      var p := s + HEADER;
      ghost var mem0 := k.mem;
      for i := 0 to n
        invariant p == SlotAt(s, objsz, i) && k.Valid() && SameHeader(mem0, k.mem, s)
        invariant forall j :: 0 <= j < i ==> W(k.mem, SlotAt(s, objsz, j)) == SlotAt(s, objsz, j + 1)
        invariant k.mem.Keys == mem0.Keys && forall q :: q in k.mem && q != s ==> k.mem[q] == mem0[q]
      {
        NextSlot(s, objsz, i);
        var next := p + objsz;
        Store(k, p, next);
        p := next;
      }
      LastSlot(s, objsz);
      ghost var mem1 := k.mem;
      SamePageWords(mem0, mem1, s);
      Store(k, p, 0);
    }

    /** The first part of cache_alloc: a slab with a free object at the head of the partial list, taken from there,
        from the empty list, or made of a fresh page; null only when there is no page either. */
    method Ready() returns (s: nat)
      requires Inv()
      modifies this`slabsPartial, this`slabsEmpty, this`emptySlabs, this`partial, this`empty, this`fl, k
      ensures Inv() && |empty| <= |old(empty)|
      ensures s == 0 <==> old(partial) == [] && old(empty) == [] && old(k.free) == []
      ensures if s == 0 then fl == old(fl) && k.mem == old(k.mem) && k.free == old(k.free)
              else partial != [] && partial[0] == s
      ensures PagesKept(old(k.mem), k.mem, old(Own()))
      ensures forall x, j :: Live(x, j) <==> old(Live(x, j))
      ensures forall p :: p in k.free || p in fl <==> p in old(k.free) || p in old(fl)
      ensures ObjectsKept(old(k.mem), k.mem, objsz, old(fl))
    {
      hide Kmem.Valid; hide SizeOk; hide ThreeLists; hide SlabsOk; hide Partition; hide ObjectsNum;
      hide OnlyLinkWords; hide ObjectsKept;
      SameKeepsObjects(k.mem, objsz, fl);
      s := slabsPartial;
      HeadsExist(k.mem, full, partial, empty, objsz, fl);
      if s != 0 {
        return;
      }
      s := slabsEmpty;
      if s != 0 {
        FromEmpty(s);
        LinksKeepObjects(old(k.mem), k.mem, objsz, fl);
        return;
      }
      s := FreshSlab();
    }

    /** The second case: the first empty slab becomes partial. */
    method FromEmpty(s: nat)
      requires Inv() && empty != [] && s == empty[0]
      modifies this`slabsPartial, this`slabsEmpty, this`emptySlabs, this`partial, this`empty, k`mem
      ensures Inv() && |empty| == |old(empty)| - 1 && partial == [s] + old(partial) && OnlyLinkWords(old(k.mem), k.mem)
      ensures PagesKept(old(k.mem), k.mem, old(Own()))
    {
      hide Kmem.Valid; hide SizeOk; hide ThreeLists; hide SlabsOk; hide Partition; hide ObjectsNum;
      hide OnlyLinkWords; hide PagesKept; hide Pages; hide HeadOf; hide SlabOk; hide DList; hide FreePages;
      ListsRotate(k.mem, full, partial, empty);
      SizeFacts(objsz);
      SmallNumber(objsz);
      OnLists(ObjectsNum(objsz), full, partial, empty, fl);
      slabsEmpty, slabsPartial := MoveSlab(k, slabsEmpty, slabsPartial, s, empty, 0, partial, full, objsz, addr, fl);
      MovedPages(old(k.mem), k.mem, empty, partial, s, old(Own()));
      NewHead(s, partial);
      EmptyToPartial(ObjectsNum(objsz), full, partial, empty, fl, empty[..0] + empty[1..]);
      empty, partial := empty[..0] + empty[1..], [s] + partial;
      emptySlabs := emptySlabs - 1;
      ListsRotate(k.mem, empty, partial, full);
    }

    /** The third case: a fresh page, or null. */
    method FreshSlab() returns (s: nat)
      requires Inv()
      modifies this`slabsPartial, this`partial, this`fl, k
      ensures Inv()
      ensures s == 0 <==> old(k.free) == []
      ensures if s == 0 then fl == old(fl) && partial == old(partial) && k.mem == old(k.mem) && k.free == old(k.free)
              else partial == [s] + old(partial) && s !in old(fl) && fl == old(fl)[s := Indices(0, ObjectsNum(objsz))]
                   && s in old(k.free) && k.free == old(k.free)[1..]
      ensures PagesKept(old(k.mem), k.mem, old(Own()))
      ensures forall p :: p in k.free || p in fl <==> p in old(k.free) || p in old(fl)
      ensures forall x, j :: Live(x, j) <==> old(Live(x, j))
      ensures ObjectsKept(old(k.mem), k.mem, objsz, old(fl))
    {
      hide SizeOk; hide ThreeLists; hide SlabsOk; hide Partition; hide ObjectsNum; hide OnlyLinkWords;
      hide Kmem.Valid; hide SlabOk; hide OnlyLinksOf; hide PagesKept; hide ObjectsKept;
      ghost var m0, n := k.mem, ObjectsNum(objsz);
      InFreePages(k.free);
      s := NewPage();
      if s == 0 {
        KeptSelf(m0, old(Own()));
        SameKeepsObjects(m0, objsz, fl);
        return;
      }
      ghost var m2 := k.mem;
      OnLists(n, full, partial, empty, fl);
      FreshPage(m0, m2, full, partial, empty, objsz, addr, fl, s, Indices(0, n));
      FreshHead(k, full, partial, empty, s);
      AllIndices(n);
      ListsRotate(m2, full, partial, empty);
      slabsPartial := InsertFirst(k, slabsPartial, s, partial, full, empty, objsz, addr, fl[s := Indices(0, n)]);
      fl := fl[s := Indices(0, n)];
      SizeFacts(objsz);
      SmallNumber(objsz);
      FreshToPartial(n, full, partial, empty, old(fl), s);
      FreshThenLinks(m0, m2, k.mem, objsz, old(fl), s);
      KeptTwice(m0, m2, k.mem, {s}, {s} + Pages(partial));
      KeptWider(m0, k.mem, {s} + ({s} + Pages(partial)), old(Own()));
      partial := [s] + partial;
    }

    /** kalloc and slabinit. */
    method NewPage() returns (s: nat)
      requires k.Valid() && SizeOk(objsz) && addr < 0x100_0000_0000_0000
      modifies k
      ensures k.Valid() && PagesKept(old(k.mem), k.mem, {s})
      ensures s == 0 <==> old(k.free) == []
      ensures if s == 0 then k.mem == old(k.mem) && k.free == old(k.free)
              else s == old(k.free)[0] && k.free == old(k.free)[1..] && s !in k.free && s in k.mem
                   && SlabOk(k.mem, s, objsz, addr, Indices(0, ObjectsNum(objsz)))
    {
      hide SizeOk; hide ObjectsNum; hide Chain; hide Distinct; hide SlabOk; hide Zeros;
      s := k.Kalloc();
      if s != 0 {
        SizeFacts(objsz);
        SlabInit(s);
      }
    }

    /** The second part of cache_alloc: take the first free object of the first partial slab; a slab with none left
        moves to the full list. */
    method Take(s: nat) returns (obj: nat, ghost j: nat)
      requires Inv() && partial != [] && s == partial[0]
      modifies this`slabsFull, this`slabsPartial, this`full, this`partial, this`fl, k`mem
      ensures Inv() && s in old(fl) && fl.Keys == old(fl).Keys
      ensures PagesKept(old(k.mem), k.mem, fl.Keys)
      ensures j < ObjectsNum(objsz) && obj == SlotAt(s, objsz, j) && !old(Live(s, j))
      ensures forall x, y :: Live(x, y) <==> old(Live(x, y)) || (x == s && y == j)
      ensures ObjectsKept(old(k.mem), k.mem, objsz, old(fl))
    {
      hide ObjectsKept;
      hide W; hide Kmem.Valid; hide SizeOk; hide ThreeLists; hide SlabsOk; hide Partition; hide ObjectsNum;
      hide OnlyLinkWords; hide Page; hide Aligned8; hide SlotAt; hide SlabOk; hide OnlyWords; hide OnlyBody;
      hide Distinct;
      ghost var m0, n := k.mem, ObjectsNum(objsz);
      OnLists(n, full, partial, empty, fl);
      PartialFree(n, full, partial, empty, fl);
      OneSlab(m0, objsz, addr, fl, s);
      SlabWords(m0, s, objsz, addr, fl[s]);
      obj := W(k.mem, s + 16);
      j := fl[s][0];
      Store(k, s + 16, W(k.mem, obj));
      ghost var m1 := k.mem;
      Decrement(m0, m1, s, objsz, addr, fl[s]);
      Store(k, s + 24, W(k.mem, s + 24) - 1);
      TakeBody(m0, m1, k.mem, s, objsz, addr, fl[s]);
      BodyKeepsRest(m0, k.mem, objsz, addr, fl, s, fl[s][1..]);
      BodyKeepsLists(m0, k.mem, s, full, partial, empty);
      SlabWords(k.mem, s, objsz, addr, fl[s][1..]);
      PartialTake(m0, n, full, partial, empty, fl, s);
      ghost var fl0, m2 := fl, k.mem;
      HeadersKeepObjects(m0, m1, m2, objsz, fl0, s);
      fl := fl[s := fl[s][1..]];
      if W(k.mem, s + 24) % 0x1_0000_0000 == 0 {
        Exhausted(s, fl0);
        LinksKeepObjects(m2, k.mem, objsz, fl0);
        KeptObjectsTwice(m0, m2, k.mem, objsz, fl0);
      }
    }

    /** A partial slab with nothing free left moves to the full list. */
    method Exhausted(s: nat, ghost fl0: map<nat, seq<nat>>)
      requires Parts() && partial != [] && s == partial[0] && s in fl && fl[s] == []
      requires Partition(ObjectsNum(objsz), full, partial, empty, fl0) && s in fl0 && fl == fl0[s := []]
      modifies this`slabsFull, this`slabsPartial, this`full, this`partial, k`mem
      ensures Inv() && OnlyLinkWords(old(k.mem), k.mem)
      ensures PagesKept(old(k.mem), k.mem, fl.Keys)
    {
      hide W; hide Kmem.Valid; hide SizeOk; hide ThreeLists; hide SlabsOk; hide Partition; hide ObjectsNum;
      hide OnlyLinkWords; hide SlabOk;
      ghost var m0, n := k.mem, ObjectsNum(objsz);
      OnLists(n, full, partial, empty, fl0);
      ListsRotate(m0, full, partial, empty);
      slabsPartial, slabsFull := MoveSlab(k, slabsPartial, slabsFull, s, partial, 0, full, empty, objsz, addr, fl);
      PartialToFull(m0, n, full, partial, empty, fl0, s, partial[..0] + partial[1..]);
      partial, full := partial[..0] + partial[1..], [s] + full;
      ListsRotate(k.mem, partial, full, empty);
    }

    /** cache_alloc: null exactly when no slab has a free object and there is no page; otherwise an object that was
        not handed out. */
    method Alloc() returns (obj: nat, ghost s: nat, ghost j: nat)
      requires Valid()
      modifies this, k
      ensures Valid()
      ensures obj == 0 <==> old(partial) == [] && old(empty) == [] && old(k.free) == []
      ensures obj == 0 ==> fl == old(fl) && k.mem == old(k.mem) && k.free == old(k.free)
      ensures obj != 0 ==> !old(Live(s, j)) && Live(s, j) && obj == SlotAt(s, objsz, j)
      ensures forall x, y :: Live(x, y) <==> old(Live(x, y)) || (obj != 0 && x == s && y == j)
      ensures PagesKept(old(k.mem), k.mem, old(Own()))
      ensures forall p :: p in k.free || p in fl <==> p in old(k.free) || p in old(fl)
      ensures ObjectsKept(old(k.mem), k.mem, objsz, old(fl))
    {
      hide Kmem.Valid; hide SizeOk; hide ThreeLists; hide SlabsOk; hide Partition; hide ObjectsNum; hide SlotAt;
      hide ObjectsKept;
      obj, s, j := 0, 0, 0;
      var first := Ready();
      if first == 0 {
        return;
      }
      s := first;
      ghost var m1, fl1 := k.mem, fl;
      forall x, y: nat | x in old(fl) && y < ObjectsNum(objsz) && y !in old(fl)[x] ensures x in fl1 && y !in fl1[x] {
        assert old(Live(x, y));
        assert Live(x, y);
      }
      obj, j := Take(first);
      MoreObjects(m1, k.mem, objsz, old(fl), fl1);
      KeptObjectsTwice(old(k.mem), m1, k.mem, objsz, old(fl));
      SlotNotNull(first, objsz, j);
      InFreePages(old(k.free));
      KeptTwice(old(k.mem), m1, k.mem, old(Own()), fl.Keys);
      KeptWider(old(k.mem), k.mem, old(Own()) + fl.Keys, old(Own()));
    }

    /** One round of cache_shrink: the first empty slab, in which nothing is live, goes back to kfree. */
    method DropEmpty(s: nat)
      requires Inv() && empty != [] && s == empty[0]
      modifies this`slabsEmpty, this`emptySlabs, this`empty, this`fl, k
      ensures Inv() && s in old(fl) && fl == old(fl) - {s} && empty == old(empty)[1..] && k.free == [s] + old(k.free)
      ensures PagesKept(old(k.mem), k.mem, old(fl).Keys)
      ensures forall x, y :: Live(x, y) <==> old(Live(x, y))
      ensures OnlyLinkWords(old(k.mem), k.mem)
    {
      hide W; hide SizeOk; hide ThreeLists; hide SlabsOk; hide Partition; hide ObjectsNum; hide OnlyLinkWords;
      hide OnlyLinksOf; hide Chain; hide Distinct; hide PutWord; hide DList; hide SlabOk;
      hide Kmem.Valid; hide PagesKept; hide IsBase; hide Pages; hide HeadOf; hide FreePages;
      ghost var m0 := k.mem;
      EmptyFacts(m0, full, partial, empty, objsz, addr, fl, s);
      slabsEmpty := ListRemove(k, slabsEmpty, s, empty, 0);
      ghost var m1, link := k.mem, k.memlist;
      SameMemory(m0, m1, Pages(empty));
      assert empty[..0] + empty[1..] == empty[1..];
      emptySlabs := emptySlabs - 1;
      k.Kfree(s);
      GivenBack(m0, m1, k.mem, Pages(empty), s, link);
      Dropped(m0, m1, k.mem, full, partial, empty, objsz, addr, fl, s);
      fl := fl - {s};
      empty := empty[1..];
    }

    /** cache_shrink: empty slabs go back until two are left; nothing that is handed out is touched. */
    method Shrink()
      requires Inv()
      modifies this`slabsEmpty, this`emptySlabs, this`empty, this`fl, k
      ensures Valid()
      ensures forall x, y :: Live(x, y) <==> old(Live(x, y))
      ensures forall p :: p in k.free || p in fl <==> p in old(k.free) || p in old(fl)
      ensures forall x :: x in fl ==> x in old(fl) && fl[x] == old(fl)[x]
      ensures PagesKept(old(k.mem), k.mem, old(fl).Keys) && OnlyLinkWords(old(k.mem), k.mem)
    {
      hide W; hide Kmem.Valid; hide SizeOk; hide ThreeLists; hide SlabsOk; hide Partition; hide ObjectsNum;
      hide OnlyLinkWords;
      LinkWordsSelf(k.mem);
      var s := slabsEmpty;
      while s != 0 && emptySlabs > MAX_EMPTY_SLABS
        invariant Inv() && s == slabsEmpty
        invariant forall x, y :: Live(x, y) <==> old(Live(x, y))
        invariant forall p :: p in k.free || p in fl <==> p in old(k.free) || p in old(fl)
        invariant forall x :: x in fl ==> x in old(fl) && fl[x] == old(fl)[x]
        invariant PagesKept(old(k.mem), k.mem, old(fl).Keys) && OnlyLinkWords(old(k.mem), k.mem)
        decreases |empty|
      {
        HeadsExist(k.mem, full, partial, empty, objsz, fl);
        NextEmpty(k.mem, full, partial, empty);
        var next := W(k.mem, s);
        ghost var m := k.mem;
        DropEmpty(s);
        LinkWordsTrans(old(k.mem), m, k.mem);
        s := next;
      }
      HeadsExist(k.mem, full, partial, empty, objsz, fl);
    }

    /** cache_free of a live object: it is free again and every other object is as live as before; at most two slabs
        stay empty, and only slabs with nothing live go back.  A slab that was full becomes partial, even when its
        one object was all it had. */
    method Free(obj: nat, ghost j: nat)
      requires Valid() && Live(Page(obj), j) && obj == SlotAt(Page(obj), objsz, j)
      modifies this, k
      ensures Valid()
      ensures forall x, y :: Live(x, y) <==> old(Live(x, y)) && !(x == Page(obj) && y == j)
      ensures PagesKept(old(k.mem), k.mem, old(fl).Keys)
      ensures forall p :: p in k.free || p in fl <==> p in old(k.free) || p in old(fl)
      ensures old(fl)[Page(obj)] == [] ==> Page(obj) in partial
      ensures ObjectsKept(old(k.mem), k.mem, objsz, old(fl)[Page(obj) := [j] + old(fl)[Page(obj)]])
    {
      hide ObjectsKept; hide OnlyLinkWords; hide PagesKept;
      hide W; hide Kmem.Valid; hide SizeOk; hide ThreeLists; hide SlabsOk; hide Partition; hide ObjectsNum;
      hide Page; hide SlotAt;
      var s := Page(obj);
      ghost var m0, fl0 := k.mem, fl;
      PutBack(obj, s, j);
      ghost var m1, fl1 := k.mem, fl;
      Settle(s, fl0);
      LinksKeepObjects(m1, k.mem, objsz, fl1);
      KeptObjectsTwice(m0, m1, k.mem, objsz, fl1);
      KeptTwice(m0, m1, k.mem, {s}, fl1.Keys);
      KeptWider(m0, k.mem, {s} + fl1.Keys, fl0.Keys);
    }

    /** The three words cache_free writes in the slab: the object goes first on its freelist and the count rises. */
    method PutBack(obj: nat, s: nat, ghost j: nat)
      requires Inv() && s == Page(obj) && Live(s, j) && obj == SlotAt(s, objsz, j)
      modifies this`fl, k`mem
      ensures Parts() && fl == old(fl)[s := [j] + old(fl)[s]] && j < ObjectsNum(objsz)
      ensures if |fl[s]| == 1 then s in full else s in partial
      ensures PagesKept(old(k.mem), k.mem, {s}) && ObjectsKept(old(k.mem), k.mem, objsz, fl)
    {
      hide ObjectsKept;
      hide W; hide Kmem.Valid; hide SizeOk; hide ThreeLists; hide SlabsOk; hide Partition; hide ObjectsNum;
      hide Page; hide Aligned8; hide SlotAt; hide SlabOk; hide OnlyWords; hide OnlyBody;
      hide Distinct;
      ghost var m0, n, free := k.mem, ObjectsNum(objsz), fl[s];
      OneSlab(m0, objsz, addr, fl, s);
      SlabWords(m0, s, objsz, addr, free);
      SlotWord(m0, k, s, objsz, addr, free, j);
      Store(k, obj, W(k.mem, s + 16));
      ghost var m1 := k.mem;
      Store(k, s + 16, obj);
      ghost var m2 := k.mem;
      GiveBody(m0, m1, m2, s, objsz, addr, free, j);
      Store(k, s + 24, W(k.mem, s + 24) + 1);
      GiveDone(m0, m1, m2, k.mem, s, objsz, addr, free, j);
      BodyKeepsRest(m0, k.mem, objsz, addr, fl, s, [j] + free);
      BodyKeepsLists(m0, k.mem, s, full, partial, empty);
      FreeCount(m0, s, objsz, addr, free, j);
      WhichList(k.mem, n, full, partial, empty, fl, s, j);
      GivenKeepsObjects(m0, m1, objsz, fl, s, j);
      fl := fl[s := [j] + free];
      HeadersKeepObjects(m1, m2, k.mem, objsz, fl, s);
      KeptObjectsTwice(m0, m1, k.mem, objsz, fl);
    }

    /** The list moves of cache_free.  fl0 is what was free before. */
    method Settle(s: nat, ghost fl0: map<nat, seq<nat>>)
      requires Parts() && |empty| <= MAX_EMPTY_SLABS && s in fl && fl[s] != []
      requires Partition(ObjectsNum(objsz), full, partial, empty, fl0) && s in fl0 && fl == fl0[s := fl[s]]
      requires if |fl[s]| == 1 then s in full else s in partial
      modifies this`slabsFull, this`slabsPartial, this`slabsEmpty, this`emptySlabs, this`full, this`partial, this`empty,
               this`fl, k
      ensures Valid()
      ensures forall x, y :: Live(x, y) <==> old(Live(x, y))
      ensures forall p :: p in k.free || p in fl <==> p in old(k.free) || p in old(fl)
      ensures |old(fl)[s]| == 1 ==> s in partial
      ensures PagesKept(old(k.mem), k.mem, old(fl).Keys) && OnlyLinkWords(old(k.mem), k.mem)
    {
      hide W; hide Kmem.Valid; hide SizeOk; hide ThreeLists; hide SlabsOk; hide Partition; hide ObjectsNum;
      hide SlabOk; hide OnlyLinkWords;
      LinkWordsSelf(k.mem);
      OneSlab(k.mem, objsz, addr, fl, s);
      SlabWords(k.mem, s, objsz, addr, fl[s]);
      var word := W(k.mem, s + 24);
      if word % 0x1_0000_0000 == 1 {
        NoLongerFull(s, fl0);
      } else if word % 0x1_0000_0000 == word / 0x1_0000_0000 {
        AllBack(s, fl0);
        if emptySlabs > MAX_EMPTY_SLABS {
          ghost var m := k.mem;
          Shrink();
          LinkWordsTrans(old(k.mem), m, k.mem);
        }
      } else {
        StaysPartial(k.mem, ObjectsNum(objsz), full, partial, empty, fl0, fl[s], s);
      }
    }

    /** A full slab with one object free again becomes partial. */
    method NoLongerFull(s: nat, ghost fl0: map<nat, seq<nat>>)
      requires Parts() && s in fl && fl[s] != [] && s in full
      requires Partition(ObjectsNum(objsz), full, partial, empty, fl0) && s in fl0 && fl == fl0[s := fl[s]]
      modifies this`slabsFull, this`slabsPartial, this`full, this`partial, k`mem
      ensures Inv() && s in partial && OnlyLinkWords(old(k.mem), k.mem)
      ensures PagesKept(old(k.mem), k.mem, fl.Keys)
    {
      hide W; hide Kmem.Valid; hide SizeOk; hide ThreeLists; hide SlabsOk; hide Partition; hide ObjectsNum;
      hide OnlyLinkWords; hide SlabOk; hide PagesKept; hide Pages; hide HeadOf; hide DList;
      ghost var m0, n := k.mem, ObjectsNum(objsz);
      OnLists(n, full, partial, empty, fl0);
      ghost var i :| 0 <= i < |full| && full[i] == s;
      slabsFull, slabsPartial := MoveSlab(k, slabsFull, slabsPartial, s, full, i, partial, empty, objsz, addr, fl);
      MovedPages(m0, k.mem, full, partial, s, fl.Keys);
      NewHead(s, partial);
      FullToPartial(m0, n, full, partial, empty, fl0, fl[s], s, full[..i] + full[i + 1..]);
      full, partial := full[..i] + full[i + 1..], [s] + partial;
    }

    /** A partial slab with all objects free again becomes empty. */
    method AllBack(s: nat, ghost fl0: map<nat, seq<nat>>)
      requires Parts() && s in fl && |fl[s]| == ObjectsNum(objsz) && s in partial
      requires Partition(ObjectsNum(objsz), full, partial, empty, fl0) && s in fl0 && fl == fl0[s := fl[s]]
      modifies this`slabsPartial, this`slabsEmpty, this`emptySlabs, this`partial, this`empty, k`mem
      ensures Inv() && |empty| == |old(empty)| + 1 && OnlyLinkWords(old(k.mem), k.mem)
      ensures PagesKept(old(k.mem), k.mem, fl.Keys)
    {
      hide W; hide Kmem.Valid; hide SizeOk; hide ThreeLists; hide SlabsOk; hide Partition; hide ObjectsNum;
      hide OnlyLinkWords; hide SlabOk; hide PagesKept; hide Pages; hide HeadOf; hide DList;
      ghost var m0, n := k.mem, ObjectsNum(objsz);
      OnLists(n, full, partial, empty, fl0);
      ghost var i :| 0 <= i < |partial| && partial[i] == s;
      ListsRotate(m0, full, partial, empty);
      slabsPartial, slabsEmpty := MoveSlab(k, slabsPartial, slabsEmpty, s, partial, i, empty, full, objsz, addr, fl);
      MovedPages(m0, k.mem, partial, empty, s, fl.Keys);
      NewHead(s, empty);
      PartialToEmpty(m0, n, full, partial, empty, fl0, fl[s], s, partial[..i] + partial[i + 1..]);
      partial, empty := partial[..i] + partial[i + 1..], [s] + empty;
      ListsRotate(k.mem, partial, empty, full);
      emptySlabs := emptySlabs + 1;
    }
  }

  lemma SameKeepsObjects(m: Mem, objsz: nat, fl: map<nat, seq<nat>>)
    ensures ObjectsKept(m, m, objsz, fl)
  {
  }

  lemma FreshThenLinks(m0: Mem, m1: Mem, m2: Mem, objsz: nat, fl: map<nat, seq<nat>>, s: nat)
    requires PagesKept(m0, m1, {s}) && OnlyLinkWords(m1, m2) && s !in fl
    ensures ObjectsKept(m0, m2, objsz, fl)
  {
    hide ObjectsKept; hide OnlyLinkWords;
    FreshKeepsObjects(m0, m1, objsz, fl, s);
    LinksKeepObjects(m1, m2, objsz, fl);
    KeptObjectsTwice(m0, m1, m2, objsz, fl);
  }

  lemma ListsParts(mem: Mem, full: seq<nat>, partial: seq<nat>, empty: seq<nat>)
    requires ThreeLists(mem, full, partial, empty)
    ensures DList(mem, full) && DList(mem, partial) && DList(mem, empty)
  {
    hide DList;
  }

  lemma NextEmpty(mem: Mem, full: seq<nat>, partial: seq<nat>, empty: seq<nat>)
    requires ThreeLists(mem, full, partial, empty) && empty != []
    ensures W(mem, empty[0]) == HeadOf(empty[1..]) && HeadOf(empty) == empty[0]
  {
    hide W;
  }

  /** In an empty slab every object is free. */
  lemma AllFree(mem: Mem, s: nat, objsz: nat, addr: nat, fl: seq<nat>)
    requires SlabOk(mem, s, objsz, addr, fl) && |fl| == ObjectsNum(objsz)
    ensures forall j: nat :: j < ObjectsNum(objsz) ==> j in fl
    ensures s in mem
  {
    hide W;
    forall j: nat | j < ObjectsNum(objsz) ensures j in fl {
      FreeCount(mem, s, objsz, addr, fl, j);
    }
  }

  lemma EmptyDrop(mem: Mem, n: nat, full: seq<nat>, partial: seq<nat>, empty: seq<nat>, fl: map<nat, seq<nat>>, s: nat)
    requires Partition(n, full, partial, empty, fl) && ThreeLists(mem, full, partial, empty) && empty != []
             && s == empty[0]
    ensures s in fl && |fl[s]| == n && Partition(n, full, partial, empty[1..], fl - {s}) && s !in full && s !in partial
            && s !in empty[1..]
  {
    hide Partition; hide DList;
    FirstEmpty(mem, full, partial, empty);
    WithoutEmpty(n, full, partial, empty, empty[1..], fl, s);
  }

  lemma FirstEmpty(mem: Mem, full: seq<nat>, partial: seq<nat>, empty: seq<nat>)
    requires ThreeLists(mem, full, partial, empty) && empty != []
    ensures empty[0] in empty && empty[0] !in full && empty[0] !in partial && empty[0] !in empty[1..]
    ensures forall x :: x in empty[1..] <==> x in empty && x != empty[0]
  {
    hide DList;
    ListsParts(mem, full, partial, empty);
    RestOf(mem, empty, 0);
    assert empty[..0] + empty[1..] == empty[1..];
  }

  lemma WithoutEmpty(n: nat, full: seq<nat>, partial: seq<nat>, empty: seq<nat>, rest: seq<nat>, fl: map<nat, seq<nat>>,
      s: nat)
    requires Partition(n, full, partial, empty, fl) && s in empty && s !in full && s !in partial
             && forall x :: x in rest <==> x in empty && x != s
    ensures s in fl && |fl[s]| == n && Partition(n, full, partial, rest, fl - {s})
  {
  }

  lemma EmptyRemoved(m0: Mem, m1: Mem, full: seq<nat>, partial: seq<nat>, empty: seq<nat>, objsz: nat, addr: nat,
      fl: map<nat, seq<nat>>)
    requires ThreeLists(m0, full, partial, empty) && empty != [] && SlabsOk(m0, objsz, addr, fl) && SizeOk(objsz)
    requires OnlyLinksOf(m0, m1, Pages(empty)) && DList(m1, empty[1..])
    ensures ThreeLists(m1, full, partial, empty[1..]) && SlabsOk(m1, objsz, addr, fl)
  {
    hide DList; hide OnlyLinksOf; hide OnlyLinkWords; hide SlabsOk; hide SizeOk;
    PagesApart(empty, full);
    PagesApart(empty, partial);
    OtherList(m0, m1, Pages(empty), full);
    OtherList(m0, m1, Pages(empty), partial);
    LinksAreLinkWords(m0, m1, Pages(empty));
    LinksKeepSlabs(m0, m1, objsz, addr, fl);
    assert forall x :: x in empty[1..] ==> x in empty;
  }

  /** What dropping the first empty slab rests on. */
  lemma EmptyFacts(mem: Mem, full: seq<nat>, partial: seq<nat>, empty: seq<nat>, objsz: nat, addr: nat,
      fl: map<nat, seq<nat>>, s: nat)
    requires SizeOk(objsz) && ThreeLists(mem, full, partial, empty) && SlabsOk(mem, objsz, addr, fl)
    requires Partition(ObjectsNum(objsz), full, partial, empty, fl) && empty != [] && s == empty[0]
    ensures s in fl && s in mem && IsBase(s) && s !in full && s !in partial && s !in empty[1..]
    ensures Partition(ObjectsNum(objsz), full, partial, empty[1..], fl - {s}) && DList(mem, empty)
    ensures forall i :: 0 <= i < |empty| ==> empty[i] in fl
    ensures forall j: nat :: j < ObjectsNum(objsz) ==> j in fl[s]
  {
    hide W; hide SizeOk; hide ThreeLists; hide SlabsOk; hide Partition; hide ObjectsNum; hide Chain; hide Distinct;
    hide DList; hide SlabOk; hide Page; hide SlotAt; hide Aligned8; hide IsBase;
    OnLists(ObjectsNum(objsz), full, partial, empty, fl);
    EmptyDrop(mem, ObjectsNum(objsz), full, partial, empty, fl, s);
    OneSlab(mem, objsz, addr, fl, s);
    AllFree(mem, s, objsz, addr, fl[s]);
    ListsParts(mem, full, partial, empty);
    SlabWords(mem, s, objsz, addr, fl[s]);
  }

  /** list_remove and kfree write link words only. */
  lemma GivenBack(m0: Mem, m1: Mem, m2: Mem, S: set<nat>, s: nat, link: u64)
    requires OnlyLinksOf(m0, m1, S) && s in m1 && IsBase(s) && m2 == m1[s := PutWord(m1[s], 0, link)]
    ensures OnlyLinkWords(m0, m2)
  {
    hide OnlyLinksOf; hide OnlyLinkWords; hide PutWord; hide IsBase;
    LinksAreLinkWords(m0, m1, S);
    FirstWord(m1, m2, s, link);
    LinkWordsTrans(m0, m1, m2);
  }

  lemma SameMemory(m0: Mem, m1: Mem, S: set<nat>)
    requires OnlyLinksOf(m0, m1, S)
    ensures m1.Keys == m0.Keys
  {
    hide W;
  }

  /** An empty slab taken off its list and given to kfree. */
  lemma Dropped(m0: Mem, m1: Mem, m2: Mem, full: seq<nat>, partial: seq<nat>, empty: seq<nat>, objsz: nat, addr: nat,
      fl: map<nat, seq<nat>>, s: nat)
    requires ThreeLists(m0, full, partial, empty) && empty != [] && SlabsOk(m0, objsz, addr, fl) && SizeOk(objsz)
    requires OnlyLinksOf(m0, m1, Pages(empty)) && DList(m1, empty[1..]) && s in m1 && m2.Keys == m1.Keys
             && forall p :: p in m1 && p != s ==> m2[p] == m1[p]
    requires s in fl && s !in full && s !in partial && s !in empty[1..] && forall i :: 0 <= i < |empty| ==>
             empty[i] in fl
    ensures ThreeLists(m2, full, partial, empty[1..]) && SlabsOk(m2, objsz, addr, fl - {s})
            && PagesKept(m0, m2, fl.Keys)
  {
    hide DList; hide OnlyLinksOf; hide SlabsOk; hide SizeOk; hide ThreeLists;
    EmptyRemoved(m0, m1, full, partial, empty, objsz, addr, fl);
    GoneSlab(m1, m2, full, partial, empty[1..], objsz, addr, fl, s);
    LinksKept(m0, m1, Pages(empty));
    assert PagesKept(m1, m2, {s});
    KeptTwice(m0, m1, m2, Pages(empty), {s});
    KeptWider(m0, m2, Pages(empty) + {s}, fl.Keys);
  }

  /** The page of a dropped slab may change freely. */
  lemma GoneSlab(mem: Mem, mem': Mem, full: seq<nat>, partial: seq<nat>, empty: seq<nat>, objsz: nat, addr: nat,
      fl: map<nat, seq<nat>>, s: nat)
    requires ThreeLists(mem, full, partial, empty) && SlabsOk(mem, objsz, addr, fl) && SizeOk(objsz)
             && mem'.Keys == mem.Keys
    requires forall p :: p in mem && p != s ==> mem'[p] == mem[p]
    requires s !in full && s !in partial && s !in empty
    ensures ThreeLists(mem', full, partial, empty) && SlabsOk(mem', objsz, addr, fl - {s})
  {
    hide SlabOk; hide DList; hide SizeOk;
    OtherPageList(mem, mem', full, s);
    OtherPageList(mem, mem', partial, s);
    OtherPageList(mem, mem', empty, s);
    forall t | t in fl && t != s ensures SlabOk(mem', t, objsz, addr, fl[t]) {
      OtherPageSlab(mem, mem', t, objsz, addr, fl[t], s);
    }
  }

  /** What cache_free needs to know of the object's word. */
  lemma SlotWord(mem: Mem, k: Kmem, s: nat, objsz: nat, addr: nat, fl: seq<nat>, j: nat)
    requires k.Valid() && k.mem == mem && SlabOk(mem, s, objsz, addr, fl) && SizeOk(objsz) && j < ObjectsNum(objsz)
    ensures Page(SlotAt(s, objsz, j)) == s && Aligned8(SlotAt(s, objsz, j))
            && SlotAt(s, objsz, j) < 0x1_0000_0000_0000_0000
  {
    hide W; hide Chain; hide SlotChain; hide SizeOk;
    PageFacts(k, s);
    SlotFacts(s, objsz, j);
  }

  lemma GiveBody(m0: Mem, m1: Mem, m2: Mem, s: nat, objsz: nat, addr: nat, fl: seq<nat>, j: nat)
    requires SlabOk(m0, s, objsz, addr, fl) && SizeOk(objsz) && j < ObjectsNum(objsz)
    requires OnlyWords(m0, m1, {SlotAt(s, objsz, j)}) && OnlyWords(m1, m2, {s + 16})
    ensures W(m2, s + 24) == W(m0, s + 24) < 0x1_0000_0000_0000_0000 - 1
  {
    hide W; hide SlotAt; hide ObjectsNum; hide SizeOk; hide Page; hide Aligned8; hide LinkWord; hide SlabOk;
    hide IsBase;
    SlabWords(m0, s, objsz, addr, fl);
    BodyWords(s, objsz, j);
  }

  lemma GiveDone(m0: Mem, m1: Mem, m2: Mem, m3: Mem, s: nat, objsz: nat, addr: nat, fl: seq<nat>, j: nat)
    requires SlabOk(m0, s, objsz, addr, fl) && SizeOk(objsz) && j < ObjectsNum(objsz) && j !in fl
    requires OnlyWords(m0, m1, {SlotAt(s, objsz, j)}) && W(m1, SlotAt(s, objsz, j)) == W(m0, s + 16)
    requires OnlyWords(m1, m2, {s + 16}) && W(m2, s + 16) == SlotAt(s, objsz, j)
    requires OnlyWords(m2, m3, {s + 24}) && W(m3, s + 24) == W(m2, s + 24) + 1
    ensures SlabOk(m3, s, objsz, addr, [j] + fl) && OnlyBody(m0, m3, s)
  {
    hide W; hide SlotAt; hide ObjectsNum; hide SizeOk; hide Page; hide Aligned8; hide LinkWord; hide SlabOk;
    hide IsBase;
    SlabWords(m0, s, objsz, addr, fl);
    BodyWords(s, objsz, j);
    SlotFacts(s, objsz, j);
    GiveObject(m0, m3, s, objsz, addr, fl, j);
  }

  /** A slab with a live object is full or partial: full exactly when nothing in it is free. */
  lemma WhichList(mem: Mem, n: nat, full: seq<nat>, partial: seq<nat>, empty: seq<nat>, fl: map<nat, seq<nat>>, s: nat,
      j: nat)
    requires Partition(n, full, partial, empty, fl) && s in fl && |fl[s]| < n
    ensures if fl[s] == [] then s in full else s in partial
  {
  }

  lemma FullToPartial(mem: Mem, n: nat, full: seq<nat>, partial: seq<nat>, empty: seq<nat>, fl: map<nat, seq<nat>>,
      free: seq<nat>, s: nat, rest: seq<nat>)
    requires Partition(n, full, partial, empty, fl) && ThreeLists(mem, full, partial, empty) && s in full && free != []
    requires forall x :: x in rest <==> x in full && x != s
    ensures Partition(n, rest, [s] + partial, empty, fl[s := free])
  {
    hide DList;
  }

  lemma PartialToEmpty(mem: Mem, n: nat, full: seq<nat>, partial: seq<nat>, empty: seq<nat>, fl: map<nat, seq<nat>>,
      free: seq<nat>, s: nat, rest: seq<nat>)
    requires Partition(n, full, partial, empty, fl) && ThreeLists(mem, full, partial, empty) && s in partial
             && |free| == n
    requires forall x :: x in rest <==> x in partial && x != s
    ensures Partition(n, full, rest, [s] + empty, fl[s := free])
  {
    hide DList;
  }

  lemma StaysPartial(mem: Mem, n: nat, full: seq<nat>, partial: seq<nat>, empty: seq<nat>, fl: map<nat, seq<nat>>,
      free: seq<nat>, s: nat)
    requires Partition(n, full, partial, empty, fl) && ThreeLists(mem, full, partial, empty) && s in partial
             && free != []
    ensures Partition(n, full, partial, empty, fl[s := free])
  {
    hide DList;
  }

  lemma InFreePages(free: seq<nat>)
    ensures forall p :: p in FreePages(free) <==> p in free
  {
    forall p | p in free ensures p in FreePages(free) {
      var i :| 0 <= i < |free| && free[i] == p;
    }
  }

  lemma SlotNotNull(s: nat, objsz: nat, j: nat)
    ensures SlotAt(s, objsz, j) != 0
  {
  }

  lemma OneSlab(mem: Mem, objsz: nat, addr: nat, fl: map<nat, seq<nat>>, s: nat)
    requires SlabsOk(mem, objsz, addr, fl) && s in fl
    ensures SlabOk(mem, s, objsz, addr, fl[s])
  {
    hide SlabOk;
  }

  /** The header words of a slab, and where its list starts. */
  lemma SlabWords(mem: Mem, s: nat, objsz: nat, addr: nat, fl: seq<nat>)
    requires SlabOk(mem, s, objsz, addr, fl) && SizeOk(objsz)
    ensures W(mem, s + 24) == |fl| + ObjectsNum(objsz) * 0x1_0000_0000 && |fl| <= ObjectsNum(objsz) < 0x1000
    ensures W(mem, s + 24) % 0x1_0000_0000 == |fl| && W(mem, s + 24) / 0x1_0000_0000 == ObjectsNum(objsz)
    ensures W(mem, s + 16) == SlotAt(s, objsz, if fl == [] then ObjectsNum(objsz) else fl[0])
    ensures fl != [] ==> fl[0] < ObjectsNum(objsz)
    ensures IsBase(s) && s in mem && s != 0 && W(mem, s + 32) == addr && Distinct(fl)
    ensures Page(s + 16) == s && Page(s + 24) == s && Aligned8(s + 16) && Aligned8(s + 24)
    ensures forall i :: 0 <= i < |fl| ==> fl[i] < ObjectsNum(objsz)
  {
    hide W; hide Page; hide Aligned8; hide SlotAt; hide ObjectsNum; hide LinkWord; hide SizeOk;
    FreeCount(mem, s, objsz, addr, fl, 0);
    SizeFacts(objsz);
    SmallNumber(objsz);
    ChainInRange(mem, s, objsz, ObjectsNum(objsz), W(mem, s + 16), fl);
    BodyWords(s, objsz, 0);
  }

  lemma Decrement(m0: Mem, m1: Mem, s: nat, objsz: nat, addr: nat, fl: seq<nat>)
    requires SlabOk(m0, s, objsz, addr, fl) && SizeOk(objsz) && fl != [] && OnlyWords(m0, m1, {s + 16})
    ensures W(m1, s + 24) == W(m0, s + 24) >= 1
  {
    hide W; hide SlotAt; hide ObjectsNum;
    SlabWords(m0, s, objsz, addr, fl);
  }

  lemma TakeBody(m0: Mem, m1: Mem, m2: Mem, s: nat, objsz: nat, addr: nat, fl: seq<nat>)
    requires SlabOk(m0, s, objsz, addr, fl) && SizeOk(objsz) && fl != []
    requires OnlyWords(m0, m1, {s + 16}) && W(m1, s + 16) == W(m0, W(m0, s + 16))
    requires OnlyWords(m1, m2, {s + 24}) && W(m2, s + 24) == W(m1, s + 24) - 1
    ensures SlabOk(m2, s, objsz, addr, fl[1..]) && OnlyBody(m0, m2, s)
  {
    hide W; hide SlotAt; hide ObjectsNum; hide SizeOk; hide Page; hide Aligned8; hide LinkWord; hide SlabOk;
    hide IsBase;
    SlabWords(m0, s, objsz, addr, fl);
    BodyWords(s, objsz, 0);
    TakeObject(m0, m2, s, objsz, addr, fl);
  }

  lemma PartialFree(n: nat, full: seq<nat>, partial: seq<nat>, empty: seq<nat>, fl: map<nat, seq<nat>>)
    requires Partition(n, full, partial, empty, fl) && partial != []
    ensures partial[0] in fl && fl[partial[0]] != []
  {
  }

  /** One object fewer in the first partial slab. */
  lemma PartialTake(mem: Mem, n: nat, full: seq<nat>, partial: seq<nat>, empty: seq<nat>, fl: map<nat, seq<nat>>,
      s: nat)
    requires Partition(n, full, partial, empty, fl) && ThreeLists(mem, full, partial, empty) && partial != []
             && s == partial[0] && s in fl && fl[s] != [] && Distinct(fl[s])
    ensures fl[s][1..] != [] ==> Partition(n, full, partial, empty, fl[s := fl[s][1..]])
    ensures fl[s][0] !in fl[s][1..] && forall y :: y in fl[s][1..] <==> y in fl[s] && y != fl[s][0]
  {
    hide DList;
    assert s in partial;
    assert fl[s] == [fl[s][0]] + fl[s][1..];
  }

  lemma PartialToFull(mem: Mem, n: nat, full: seq<nat>, partial: seq<nat>, empty: seq<nat>, fl: map<nat, seq<nat>>,
      s: nat, rest: seq<nat>)
    requires Partition(n, full, partial, empty, fl) && ThreeLists(mem, full, partial, empty) && s in partial
    requires forall x :: x in rest <==> x in partial && x != s
    ensures Partition(n, [s] + full, rest, empty, fl[s := []])
  {
    hide DList;
  }

  /** list_insert into one of three lists. */
  method InsertFirst(k: Kmem, head: nat, s: nat, ghost a: seq<nat>, ghost b: seq<nat>, ghost c: seq<nat>,
      ghost objsz: nat, ghost addr: nat, ghost fl: map<nat, seq<nat>>)
    returns (head': nat)
    requires k.Valid() && ThreeLists(k.mem, a, b, c) && head == HeadOf(a) && s !in a && s !in b && s !in c && s != 0
             && IsBase(s) && s in k.mem && s !in k.free
    requires head < 0x1_0000_0000_0000_0000 && s < 0x1_0000_0000_0000_0000
    requires (forall x :: x in a ==> x !in k.free) && SizeOk(objsz) && SlabsOk(k.mem, objsz, addr, fl)
    modifies k`mem
    ensures k.Valid() && ThreeLists(k.mem, b, [s] + a, c) && head' == s && SlabsOk(k.mem, objsz, addr, fl)
    ensures PagesKept(old(k.mem), k.mem, {s} + Pages(a)) && OnlyLinkWords(old(k.mem), k.mem)
  {
    hide SlabsOk; hide OnlyLinksOf; hide OnlyLinkWords; hide DList; hide Kmem.Valid; hide SizeOk;
    ghost var m0 := k.mem;
    PagesApart(a, b);
    PagesApart(a, c);
    assert forall j :: 0 <= j < |b| ==> b[j] in b;
    assert forall j :: 0 <= j < |c| ==> c[j] in c;
    head' := ListInsert(k, head, s, a);
    OtherList(m0, k.mem, {s} + Pages(a), b);
    OtherList(m0, k.mem, {s} + Pages(a), c);
    LinksAreLinkWords(m0, k.mem, {s} + Pages(a));
    LinksKept(m0, k.mem, {s} + Pages(a));
    LinksKeepSlabs(m0, k.mem, objsz, addr, fl);
  }

  lemma LinksAreLinkWords(m0: Mem, m1: Mem, S: set<nat>)
    requires OnlyLinksOf(m0, m1, S)
    ensures OnlyLinkWords(m0, m1)
  {
  }

  /** Null heads are empty lists. */
  lemma HeadsExist(mem: Mem, full: seq<nat>, partial: seq<nat>, empty: seq<nat>, objsz: nat, fl: map<nat, seq<nat>>)
    requires ThreeLists(mem, full, partial, empty)
    ensures (HeadOf(full) == 0 <==> full == []) && (HeadOf(partial) == 0 <==> partial == [])
            && (HeadOf(empty) == 0 <==> empty == [])
  {
    hide DList;
    HeadNull(mem, full);
    HeadNull(mem, partial);
    HeadNull(mem, empty);
  }

  lemma OnLists(n: nat, full: seq<nat>, partial: seq<nat>, empty: seq<nat>, fl: map<nat, seq<nat>>)
    requires Partition(n, full, partial, empty, fl)
    ensures forall x :: x in full || x in partial || x in empty <==> x in fl
    ensures forall i :: 0 <= i < |full| ==> full[i] in fl
    ensures forall i :: 0 <= i < |partial| ==> partial[i] in fl
    ensures forall i :: 0 <= i < |empty| ==> empty[i] in fl
  {
  }

  lemma EmptyToPartial(n: nat, full: seq<nat>, partial: seq<nat>, empty: seq<nat>, fl: map<nat, seq<nat>>,
      rest: seq<nat>)
    requires Partition(n, full, partial, empty, fl) && n > 0 && empty != [] && forall x :: x in rest <==>
             x in empty && x != empty[0]
    ensures Partition(n, full, [empty[0]] + partial, rest, fl)
  {
  }

  lemma FreshToPartial(n: nat, full: seq<nat>, partial: seq<nat>, empty: seq<nat>, fl: map<nat, seq<nat>>, s: nat)
    requires Partition(n, full, partial, empty, fl) && n > 0 && s !in fl
    ensures Partition(n, full, [s] + partial, empty, fl[s := Indices(0, n)])
  {
  }

  /** A page that is no slab becomes one. */
  lemma FreshPage(mem: Mem, mem': Mem, full: seq<nat>, partial: seq<nat>, empty: seq<nat>, objsz: nat, addr: nat,
      fl: map<nat, seq<nat>>, s: nat, free: seq<nat>)
    requires ThreeLists(mem, full, partial, empty) && SlabsOk(mem, objsz, addr, fl) && SizeOk(objsz) && s !in fl
             && PagesKept(mem, mem', {s})
    requires SlabOk(mem', s, objsz, addr, free)
    requires forall x :: x in full || x in partial || x in empty <==> x in fl
    ensures ThreeLists(mem', full, partial, empty) && SlabsOk(mem', objsz, addr, fl[s := free])
  {
    hide SlabOk; hide DList; hide SizeOk;
    OtherPageList(mem, mem', full, s);
    OtherPageList(mem, mem', partial, s);
    OtherPageList(mem, mem', empty, s);
    forall t | t in fl ensures SlabOk(mem', t, objsz, addr, fl[t]) {
      OtherPageSlab(mem, mem', t, objsz, addr, fl[t], s);
    }
  }

  lemma OtherPageList(mem: Mem, mem': Mem, q: seq<nat>, s: nat)
    requires DList(mem, q) && s !in q && mem'.Keys == mem.Keys && forall p :: p in mem && p != s ==> mem'[p] == mem[p]
    ensures DList(mem', q)
  {
    hide WordAt; hide IsBase; hide NextOf; hide PrevOf; hide Page;
    forall i | 0 <= i < |q| ensures W(mem', q[i]) == NextOf(q, i) && W(mem', q[i] + 8) == PrevOf(q, i) {
      LinkWordFacts(q[i]);
      assert q[i] in q;
    }
  }

  lemma OtherPageSlab(mem: Mem, mem': Mem, t: nat, objsz: nat, addr: nat, free: seq<nat>, s: nat)
    requires SlabOk(mem, t, objsz, addr, free) && SizeOk(objsz) && t != s && mem'.Keys == mem.Keys
             && forall p :: p in mem && p != s ==> mem'[p] == mem[p]
    ensures SlabOk(mem', t, objsz, addr, free)
  {
    hide SlotChain; hide SizeOk; hide ObjectsNum;
    SlabFrame(mem, mem', t, objsz, addr, free);
  }

  lemma AllIndices(n: nat)
    ensures forall j :: 0 <= j < n ==> j in Indices(0, n)
  {
    forall j | 0 <= j < n ensures j in Indices(0, n) {
      assert Indices(0, n)[j] == j;
    }
  }

  lemma FreshHead(k: Kmem, full: seq<nat>, q: seq<nat>, empty: seq<nat>, s: nat)
    requires k.Valid() && ThreeLists(k.mem, full, q, empty) && s in k.mem
    ensures HeadOf(q) < 0x1_0000_0000_0000_0000 && 0 < s < 0x1_0000_0000_0000_0000 && IsBase(s)
  {
    hide W; hide Chain;
    PageFacts(k, s);
    if q != [] {
      PageFacts(k, q[0]);
    }
  }

  lemma HeaderWords(m1: Mem, m2: Mem, m3: Mem, m4: Mem, m5: Mem, s: nat)
    requires OnlyWords(m1, m2, {s + 24}) && OnlyWords(m2, m3, {s}) && OnlyWords(m3, m4, {s + 8})
             && OnlyWords(m4, m5, {s + 32})
    requires Aligned8(s + 16) && Aligned8(s + 24)
    ensures W(m5, s + 16) == W(m1, s + 16) && W(m5, s + 24) == W(m2, s + 24)
  {
    hide W; hide Aligned8;
  }

  /** The three header words behind the links. */
  ghost predicate SameHeader(mem: Mem, mem': Mem, s: nat) {
    W(mem', s + 16) == W(mem, s + 16) && W(mem', s + 24) == W(mem, s + 24) && W(mem', s + 32) == W(mem, s + 32)
  }

  /** Words of page p behind the first. */
  ghost predicate OthersOfPage(mem: Mem, mem': Mem, p: nat) {
    forall a: nat :: Aligned8(a) && Page(a) == p && a != p ==> W(mem', a) == W(mem, a)
  }

  /** Outside s, a page that did not change shows the same words. */
  lemma SamePageWords(mem: Mem, mem': Mem, s: nat)
    requires mem'.Keys == mem.Keys && forall p :: p in mem && p != s ==> mem'[p] == mem[p]
    ensures forall a: nat :: Aligned8(a) && Page(a) != s ==> W(mem', a) == W(mem, a)
  {
    hide WordAt; hide Page; hide Aligned8;
  }

  /** What slabinit leaves of the other pages: m5 after the header, m6 after the loop. */
  lemma OtherWords(m0: Mem, m5: Mem, m6: Mem, s: nat, objsz: nat)
    requires m5.Keys == m0.Keys && forall p :: p in m0 && p != s ==> m5[p] == m0[p]
    requires m6.Keys == m5.Keys && forall p :: p in m5 && p != s && (SizeOk(objsz) || p != s + PGSIZE) ==>
             m6[p] == m5[p]
    requires !SizeOk(objsz) ==> W(m6, s + PGSIZE) == 0 && OthersOfPage(m5, m6, s + PGSIZE)
    requires IsBase(s)
    ensures !SizeOk(objsz) ==> OthersOfPage(m0, m6, s + PGSIZE)
    ensures (forall a: nat :: Aligned8(a) && Page(a) != s ==> W(m6, a) == W(m0, a))
            <==> SizeOk(objsz) || W(m0, s + PGSIZE) == 0
  {
    PageOfNext(s);
    SamePageWords(m0, m5, s);
    hide Page; hide Aligned8; hide SizeOk; hide IsBase;
    if SizeOk(objsz) {
      SamePageWords(m5, m6, s);
      hide WordAt;
    } else {
      hide WordAt;
      forall a: nat | Aligned8(a) && Page(a) != s && a != s + PGSIZE ensures W(m6, a) == W(m0, a) {
        if Page(a) != s + PGSIZE {
          assert W(m6, a) == W(m5, a);
        }
      }
    }
  }

  lemma PageOfNext(s: nat)
    requires IsBase(s)
    ensures Page(s + PGSIZE) == s + PGSIZE && Aligned8(s + PGSIZE)
  {
    PageOfOffset(s + PGSIZE, 0);
  }

  lemma InitFacts(k: Kmem, s: nat, objsz: nat)
    requires k.Valid() && HasObjects(objsz) && s in k.mem
    ensures IsBase(s) && 0 < s < 0x100_0000_0000_0000 && SlotAt(s, objsz, 0) == s + HEADER && ObjectsNum(objsz) < 0x1000
    ensures Page(s) == Page(s + 8) == Page(s + 16) == Page(s + 24) == Page(s + 32) == s
    ensures Aligned8(s) && Aligned8(s + 8) && Aligned8(s + 16) && Aligned8(s + 24) && Aligned8(s + 32)
  {
    PageFacts(k, s);
    hide Chain; hide Page; hide Aligned8; hide SizeOk;
    PageOfOffset(s, 0); PageOfOffset(s, 8); PageOfOffset(s, 16); PageOfOffset(s, 24); PageOfOffset(s, 32);
    SmallNumber(objsz);
  }

  lemma SmallNumber(objsz: nat)
    requires HasObjects(objsz)
    ensures 0 < ObjectsNum(objsz) < 0x1000 && objsz <= ROOM
  {
    DivModSum(ROOM, objsz);
    if ObjectsNum(objsz) >= 0x1000 {
      TimesMonotone(0x1000, ObjectsNum(objsz), objsz);
      TimesIsProduct(0x1000, objsz);
    }
  }

  /** Where slot i lies, and that its word is none of the earlier ones and none of the header. */
  lemma NextSlot(s: nat, objsz: nat, i: nat)
    requires IsBase(s) && HasObjects(objsz) && i < ObjectsNum(objsz)
    ensures Page(SlotAt(s, objsz, i)) == s && Aligned8(SlotAt(s, objsz, i))
    ensures SlotAt(s, objsz, i + 1) == SlotAt(s, objsz, i) + objsz <= s + PGSIZE
    ensures SlotAt(s, objsz, i) >= s + HEADER && objsz <= ROOM
    ensures forall j: nat :: j < i ==> SlotAt(s, objsz, j) != SlotAt(s, objsz, i) && Aligned8(SlotAt(s, objsz, j))
    ensures Aligned8(s + 16) && Aligned8(s + 24) && Aligned8(s + 32)
  {
    HeaderPlaces(s);
    SentinelFits(s, objsz);
    TimesMonotone(i + 1, ObjectsNum(objsz), objsz);
    ObjectFacts(s, objsz, i);
    hide Page; hide Aligned8; hide ObjectsNum; hide SizeOk; hide IsBase;
    forall j: nat | j < i ensures SlotAt(s, objsz, j) != SlotAt(s, objsz, i) && Aligned8(SlotAt(s, objsz, j)) {
      SlotsDiffer(s, objsz, j, i);
      ObjectFacts(s, objsz, j);
    }
  }

  /** Where the sentinel lies: behind all objects, in the page or just after it. */
  lemma LastSlot(s: nat, objsz: nat)
    requires IsBase(s) && HasObjects(objsz)
    ensures var e := SlotAt(s, objsz, ObjectsNum(objsz));
            && (if SizeOk(objsz) then Page(e) == s else e == s + PGSIZE && Page(e) == e)
            && Aligned8(e) && e >= s + HEADER
            && forall j: nat :: j < ObjectsNum(objsz) ==>
               SlotAt(s, objsz, j) != e && Aligned8(SlotAt(s, objsz, j)) && Page(SlotAt(s, objsz, j)) == s
    ensures Aligned8(s + 16) && Aligned8(s + 24) && Aligned8(s + 32)
    ensures Page(s + 16) == s && Page(s + 24) == s && Page(s + 32) == s
  {
    HeaderPlaces(s);
    PageOfNext(s);
    SentinelFits(s, objsz);
    hide Page; hide Aligned8; hide ObjectsNum; hide IsBase;
    if SizeOk(objsz) {
      SlotFacts(s, objsz, ObjectsNum(objsz));
    }
    hide SizeOk;
    forall j: nat | j < ObjectsNum(objsz)
      ensures SlotAt(s, objsz, j) != SlotAt(s, objsz, ObjectsNum(objsz)) && Aligned8(SlotAt(s, objsz, j))
              && Page(SlotAt(s, objsz, j)) == s
    {
      ObjectFacts(s, objsz, j);
    }
  }

  lemma HeaderPlaces(s: nat)
    requires IsBase(s)
    ensures Aligned8(s + 16) && Aligned8(s + 24) && Aligned8(s + 32)
    ensures Page(s + 16) == s && Page(s + 24) == s && Page(s + 32) == s
  {
    hide Page; hide Aligned8;
    PageOfOffset(s, 16);
    PageOfOffset(s, 24);
    PageOfOffset(s, 32);
  }
}
