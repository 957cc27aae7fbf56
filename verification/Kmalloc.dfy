/** mm/kmalloc.c: routing by size, and back by what the page of a pointer says. */
module Kmalloc {
  import opened Bytes
  import opened Kalloc
  import opened SlabMem
  import opened SlabHeld
  import opened SlabPage
  import opened SlabList
  import opened Slab
  import opened Seqs

  const NUM_CACHES: nat := 9
  const MAX_CACHE_SIZE: nat := 2048
  const LARGE_ALLOC_MAGIC: u64 := 0xDEADBEEFCAFEBABE

  function Sizes(i: nat): nat
    requires i < NUM_CACHES
  {
    [8, 16, 32, 64, 128, 256, 512, 1024, 2048][i]
  }

  /** The nine classes are the powers of two from 8 to 2048. */
  lemma ClassSizes()
    ensures Sizes(0) == 8 && Sizes(8) == 2048 && forall i :: 0 <= i < 8 ==> Sizes(i + 1) == 2 * Sizes(i)
  {
  }

  /** Class i is the smallest that holds this many bytes. */
  predicate Fits(i: nat, size: nat) {
    i < NUM_CACHES && size <= Sizes(i) && (i > 0 ==> Sizes(i - 1) < size)
  }

  /** Something handed out: object j of slab s of class i, or a whole page. */
  datatype Piece = Object(i: nat, s: nat, j: nat) | Whole(page: nat)

  /** Its first byte, and the byte after its last. */
  ghost function Start(a: Piece): nat {
    match a
    case Object(i, s, j) => if i < NUM_CACHES then SlotAt(s, Sizes(i), j) else 0
    case Whole(page) => page + 8
  }

  ghost function End(a: Piece): nat {
    match a
    case Object(i, s, j) => if i < NUM_CACHES then SlotAt(s, Sizes(i), j) + Sizes(i) else 0
    case Whole(page) => page + PGSIZE
  }

  /** What kmalloc hands out for this size. */
  function PieceFor(size: nat, i: nat, s: nat, j: nat): Piece {
    if size <= MAX_CACHE_SIZE then Object(i, s, j) else Whole(s)
  }

  /** A piece holds the bytes asked for up to what a whole page has room for. */
  lemma RoomFor(size: nat, i: nat, s: nat, j: nat)
    requires size <= MAX_CACHE_SIZE ==> i < NUM_CACHES && size <= Sizes(i)
    ensures var a := PieceFor(size, i, s, j); Start(a) + size <= End(a) <==> size <= PGSIZE - 8
  {
    hide SlotAt;
  }

  /** The search for the smallest class that holds size bytes. */
  method FindClass(size: nat) returns (c: nat)
    requires size <= MAX_CACHE_SIZE
    ensures c < NUM_CACHES && size <= Sizes(c) && (c > 0 ==> Sizes(c - 1) < size)
    ensures forall i :: Fits(i, size) <==> i == c
  {
    c := 0;
    while c < NUM_CACHES && size > Sizes(c)
      invariant 0 <= c <= NUM_CACHES && forall d :: 0 <= d < c ==> Sizes(d) < size
    {
      c := c + 1;
    }
    assert Sizes(8) == 2048;
  }

  /** The page it lies in. */
  function Base(a: Piece): nat {
    if a.Object? then a.s else a.page
  }

  /** It holds what it held. */
  ghost predicate PieceKept(mem: Mem, mem': Mem, a: Piece) {
    forall w: nat :: Aligned8(w) && Start(a) <= w < End(a) ==> W(mem', w) == W(mem, w)
  }

  ghost predicate InItsPage(a: Piece) {
    IsBase(Base(a)) && Base(a) <= Start(a) && End(a) <= Base(a) + PGSIZE
  }

  lemma AllKept(mem: Mem)
    ensures forall a :: PieceKept(mem, mem, a)
  {
  }

  /** What lies in a page that did not change. */
  lemma PagePieceKept(mem: Mem, mem': Mem, S: set<nat>, a: Piece)
    requires PagesKept(mem, mem', S) && Base(a) !in S && Base(a) in mem && IsBase(Base(a)) && Base(a) <= Start(a)
             && End(a) <= Base(a) + PGSIZE
    ensures PieceKept(mem, mem', a)
  {
    hide WordAt; hide Page; hide IsBase; hide Start; hide End;
    forall w: nat | Aligned8(w) && Start(a) <= w < End(a) ensures W(mem', w) == W(mem, w) {
      PageOfOffset(Base(a), w - Base(a));
    }
  }

  /** What is handed out by a cache that kept such objects. */
  lemma ObjectPieceKept(mem: Mem, mem': Mem, fl: map<nat, seq<nat>>, i: nat, s: nat, j: nat)
    requires i < NUM_CACHES && ObjectsKept(mem, mem', Sizes(i), fl) && s in fl && j < ObjectsNum(Sizes(i))
             && j !in fl[s]
    requires IsBase(s) && s <= SlotAt(s, Sizes(i), j) && SlotAt(s, Sizes(i), j) + Sizes(i) <= s + PGSIZE
    ensures PieceKept(mem, mem', Object(i, s, j))
  {
    hide W; hide Page; hide IsBase; hide SlotAt; hide Sizes; hide ObjectsNum; hide Aligned8;
    forall w: nat | Aligned8(w) && SlotAt(s, Sizes(i), j) <= w < SlotAt(s, Sizes(i), j) + Sizes(i)
      ensures W(mem', w) == W(mem, w) {
      PageOfOffset(s, w - s);
      assert InObject(Sizes(i), fl[Page(w)], Page(w), j, w);
    }
  }

  /** After an operation of cache i that kept the objects of fl. */
  lemma OnePieceKept(mem: Mem, mem': Mem, own: set<nat>, fl: map<nat, seq<nat>>, i: nat, a: Piece)
    requires i < NUM_CACHES && PagesKept(mem, mem', own) && ObjectsKept(mem, mem', Sizes(i), fl) && InItsPage(a)
             && Base(a) in mem
    requires if a.Object? && a.i == i then a.s in fl && a.j < ObjectsNum(Sizes(i))
             && a.j !in fl[a.s] else Base(a) !in own
    ensures PieceKept(mem, mem', a)
  {
    hide PieceKept; hide ObjectsKept; hide Sizes; hide ObjectsNum; hide PagesKept; hide SlotAt;
    if a.Object? && a.i == i {
      ObjectPieceKept(mem, mem', fl, i, a.s, a.j);
    } else {
      PagePieceKept(mem, mem', own, a);
    }
  }

  /** A slab's first word is a link, so it is never the magic. */
  lemma SlabWordNotMagic(mem: Mem, full: seq<nat>, partial: seq<nat>, empty: seq<nat>, s: nat)
    requires ThreeLists(mem, full, partial, empty) && (s in full || s in partial || s in empty)
    ensures W(mem, s) != LARGE_ALLOC_MAGIC
  {
    hide W; hide Apart;
    LinkNotMagic(mem, full);
    LinkNotMagic(mem, partial);
    LinkNotMagic(mem, empty);
  }

  lemma LinkNotMagic(mem: Mem, q: seq<nat>)
    requires DList(mem, q)
    ensures forall s :: s in q ==> W(mem, s) != LARGE_ALLOC_MAGIC
  {
    hide W; hide PrevOf;
    forall s | s in q ensures W(mem, s) != LARGE_ALLOC_MAGIC {
      var i :| 0 <= i < |q| && q[i] == s;
      assert W(mem, q[i]) == NextOf(q, i);
    }
  }

  /** The allocator: nine caches (the 8-byte one is out of use, see SlabPage.EightByteClass) and the pages handed out
      whole. */
  class Allocator {
    const k: Kmem
    const caches: seq<Cache>
    ghost var large: set<nat>

    /** Nine different caches, one per size, over the same pages. */
    ghost predicate Shape()
      reads this
    {
      && |caches| == NUM_CACHES
      && (forall i :: 0 <= i < NUM_CACHES ==> caches[i].k == k && caches[i].objsz == Sizes(i))
      && (forall i, j :: 0 <= i < j < NUM_CACHES ==> caches[i] != caches[j] && caches[i].addr != caches[j].addr)
    }

    /** No page has two owners. */
    ghost predicate Owners()
      reads this, k, caches
      requires |caches| == NUM_CACHES
    {
      && (forall i, j, p :: 1 <= i < NUM_CACHES && 1 <= j < NUM_CACHES && i != j && p in caches[i].fl ==>
         p !in caches[j].fl)
      && (forall i, p :: 1 <= i < NUM_CACHES && p in caches[i].fl ==> p !in large && p !in k.free)
      && (forall p :: p in large ==> p in k.mem && p !in k.free)
    }

    ghost predicate Valid()
      reads this, k, caches
    {
      && k.Valid() && Shape() && Owners()
      && (forall i :: 1 <= i < NUM_CACHES ==> caches[i].Valid())
      && (forall p :: p in large ==> W(k.mem, p) == LARGE_ALLOC_MAGIC)
    }

    /** Object j of slab s of class i is handed out. */
    ghost predicate Live(i: nat, s: nat, j: nat)
      reads caches
      requires i < |caches|
    {
      caches[i].Live(s, j)
    }

    /** Every page of the pool: free, a slab, or handed out whole. */
    ghost predicate InPool(p: nat)
      reads this, k, caches
    {
      p in k.free || p in large || exists i :: 1 <= i < |caches| && p in caches[i].fl
    }

    /** Memory is short for a request of this size. */
    ghost predicate NoRoom(size: nat)
      reads this, k, caches
    {
      k.free == [] && forall i :: 0 <= i < |caches| && Fits(i, size) ==>
        caches[i].partial == [] && caches[i].empty == []
    }

    ghost predicate Handed(a: Piece)
      reads this, caches
    {
      match a
      case Object(i, s, j) => 1 <= i < NUM_CACHES && i < |caches| && Live(i, s, j)
      case Whole(page) => page in large
    }

    /** Whatever is handed out lies inside one page that is not free, behind that page's first word; and no two things
        handed out overlap, of whatever classes. */
    lemma AllocationsApart(a: Piece, b: Piece)
      requires Valid() && Handed(a) && Handed(b) && a != b
      ensures End(a) <= Start(b) || End(b) <= Start(a)
      ensures Page(Start(a)) + 8 <= Start(a) && End(a) <= Page(Start(a)) + PGSIZE && Page(Start(a)) !in k.free
    {
      hide W; hide Kmem.Valid; hide Cache.Inv; hide SlotAt; hide Page; hide Sizes; hide ObjectsNum;
      var p, q := Base(a), Base(b);
      PieceInPage(a);
      PieceInPage(b);
      if p < q {
        WholeBases(p, q);
      } else if q < p {
        WholeBases(q, p);
      } else {
        OnePageOneOwner(a, b, p);
        caches[a.i].LiveApart(a.s, a.j, b.s, b.j);
      }
    }

    lemma PieceInPage(a: Piece)
      requires Valid() && Handed(a)
      ensures IsBase(Base(a)) && Base(a) !in k.free && Base(a) in k.mem
      ensures Base(a) == Page(Start(a)) && Base(a) + 8 <= Start(a) && End(a) <= Base(a) + PGSIZE
    {
      hide W; hide Kmem.Valid; hide SlotAt; hide Page; hide Sizes; hide ThreeLists; hide SlabsOk; hide Partition;
      hide Cache.Live;
      match a
      case Object(i, s, j) =>
        SlabIsBase(caches[i], s, j);
      case Whole(page) =>
        LargeBases();
        PageOfOffset(page, 8);
    }

    /** Where everything handed out lies, seen from cache i. */
    lemma AllInPages(i: nat)
      requires Valid() && 1 <= i < NUM_CACHES
      ensures forall a :: Handed(a) ==> InItsPage(a) && Base(a) in k.mem && Base(a) !in k.free
      ensures forall a :: Handed(a) ==>
                if a.Object? && a.i == i then a.s in caches[i].fl && a.j < ObjectsNum(Sizes(i))
                   && a.j !in caches[i].fl[a.s]
                else Base(a) !in caches[i].Own()
    {
      hide W; hide Kmem.Valid; hide Cache.Inv; hide SlotAt; hide Page; hide Sizes; hide ObjectsNum; hide Start;
      hide End; hide IsBase;
      Facts(i);
      forall a | Handed(a) ensures InItsPage(a) && Base(a) in k.mem && Base(a) !in k.free {
        PieceInPage(a);
      }
    }

    lemma IsHanded(page: nat)
      requires page in large
      ensures Handed(Whole(page))
    {
    }

    lemma OnePageOneOwner(a: Piece, b: Piece, p: nat)
      requires Valid() && Handed(a) && Handed(b) && a != b
      requires p == Base(a) == Base(b)
      ensures a.Object? && b.Object? && a.i == b.i && a.j != b.j && 1 <= a.i < NUM_CACHES && caches[a.i].Inv()
              && caches[a.i].Live(a.s, a.j) && caches[a.i].Live(b.s, b.j)
      ensures caches[a.i].objsz == Sizes(a.i)
    {
      hide W; hide Kmem.Valid; hide SlotAt; hide Page; hide Sizes; hide ThreeLists; hide SlabsOk; hide Partition;
      hide ObjectsNum;
    }

    /** After kmallocinit, when no allocation has been made. */
    constructor (k: Kmem, caches: seq<Cache>)
      requires k.Valid() && |caches| == NUM_CACHES
      requires forall i :: 0 <= i < NUM_CACHES ==> caches[i].k == k && caches[i].objsz == Sizes(i)
      requires forall i, j :: 0 <= i < j < NUM_CACHES ==> caches[i] != caches[j] && caches[i].addr != caches[j].addr
      requires forall i :: 1 <= i < NUM_CACHES ==> caches[i].Valid() && caches[i].fl == map[]
      ensures Valid() && this.k == k && this.caches == caches && large == {}
    {
      this.k, this.caches, large := k, caches, {};
    }

    /** kmalloc.  Size 0 is null.  Up to 2048 bytes come from the smallest class that fits, as an object that was
        not handed out; more comes as a whole page behind its magic word, with room
        for 4088 bytes: up to that size, and no further, what is handed out holds the bytes asked for.  Nothing handed
        out before is lost, and
        the pool of pages is the same. */
    method Malloc(size: nat) returns (ptr: nat, ghost i: nat, ghost s: nat, ghost j: nat)
      requires Valid() && (size == 0 || size > 8)
      modifies this, k, caches
      ensures Valid() && forall p :: InPool(p) <==> old(InPool(p))
      ensures ptr == 0 <==> size == 0 || old(NoRoom(size))
      ensures ptr == 0 ==> large == old(large) && forall x, y, z :: 0 <= x < NUM_CACHES ==>
              (Live(x, y, z) <==> old(Live(x, y, z)))
      ensures ptr != 0 && size <= MAX_CACHE_SIZE ==>
                && 1 <= i < NUM_CACHES && Sizes(i - 1) < size <= Sizes(i) && ptr == SlotAt(s, Sizes(i), j)
                && Live(i, s, j) && !old(Live(i, s, j)) && large == old(large)
                && forall x, y, z :: 0 <= x < NUM_CACHES ==>
                   (Live(x, y, z) <==> old(Live(x, y, z)) || (x == i && y == s && z == j))
      ensures ptr != 0 && size > MAX_CACHE_SIZE ==>
                && s !in old(large) && large == old(large) + {s} && ptr == s + 8 && s in old(k.free)
                && forall x, y, z :: 0 <= x < NUM_CACHES ==> (Live(x, y, z) <==> old(Live(x, y, z)))
      ensures forall a :: old(Handed(a)) ==> PieceKept(old(k.mem), k.mem, a)
      ensures ptr != 0 ==>
                var a := PieceFor(size, i, s, j);
                Handed(a) && !old(Handed(a)) && Start(a) == ptr && (ptr + size <= End(a) <==> size <= PGSIZE - 8)
    {
      hide Allocator.Valid; hide InPool; hide Allocator.Live; hide SlotAt; hide PieceKept; hide Sizes; hide Fits;
      hide End;
      assert forall a :: PieceKept(k.mem, k.mem, a) by {
        AllKept(k.mem);
      }
      NineCaches();
      NoneFits(size);
      ptr, i, s, j := 0, 0, 0, 0;
      if size == 0 {
        return;
      }
      if size > MAX_CACHE_SIZE {
        ptr := LargePage();
        s := if ptr == 0 then 0 else ptr - 8;
        RoomFor(size, i, s, j);
        return;
      }
      var c := FindClass(size);
      i := c;
      NotSmallest(size, c);
      assert caches[c] in caches;
      ptr, s, j := FromCache(c);
      RoomFor(size, i, s, j);
    }

    lemma NoneFits(size: nat)
      ensures size > MAX_CACHE_SIZE ==> forall i :: !Fits(i, size)
    {
    }

    lemma NotSmallest(size: nat, i: nat)
      requires size > 8 && i < NUM_CACHES && size <= Sizes(i)
      ensures i > 0
    {
    }

    lemma NineCaches()
      requires Valid()
      ensures |caches| == NUM_CACHES && Shape()
    {
    }

    /** The object case of kmalloc. */
    method FromCache(i: nat) returns (ptr: nat, ghost s: nat, ghost j: nat)
      requires Valid() && 1 <= i < NUM_CACHES
      modifies caches[i], k
      ensures Valid() && large == old(large) && forall p :: InPool(p) <==> old(InPool(p))
      ensures ptr == 0 <==> old(k.free) == [] && old(caches[i].partial) == [] && old(caches[i].empty) == []
      ensures ptr == 0 ==> forall x, y, z :: 0 <= x < NUM_CACHES ==> (Live(x, y, z) <==> old(Live(x, y, z)))
      ensures ptr != 0 ==>
                && ptr == SlotAt(s, Sizes(i), j) && Live(i, s, j) && !old(Live(i, s, j))
                && forall x, y, z :: 0 <= x < NUM_CACHES ==>
                   (Live(x, y, z) <==> old(Live(x, y, z)) || (x == i && y == s && z == j))
      ensures forall a :: old(Handed(a)) ==> PieceKept(old(k.mem), k.mem, a)
    {
      hide PieceKept; hide ObjectsKept; hide Handed; hide Start; hide End; hide IsBase;
      hide Cache.Inv; hide Kmem.Valid; hide Sizes; hide SlotAt; hide ObjectsNum; hide CacheAt; hide W;
      hide PagesKept; hide Cache.Valid;
      ghost var mem0, own := k.mem, caches[i].Own();
      Facts(i);
      LargeBases();
      ghost var fl0 := caches[i].fl;
      AllInPages(i);
      ptr, s, j := caches[i].Alloc();
      PagesAreValid(caches[i]);
      OthersStand(i, mem0, own);
      forall a | old(Handed(a)) ensures PieceKept(mem0, k.mem, a) {
        OnePieceKept(mem0, k.mem, own, fl0, i, a);
      }
    }

    /** Each cache against the memory of now, and what the operations of cache i may write. */
    lemma Facts(i: nat)
      requires Valid() && 1 <= i < NUM_CACHES
      ensures forall d :: 1 <= d < NUM_CACHES ==> CacheAt(caches[d], k.mem)
      ensures forall p :: p in caches[i].Own() <==> p in caches[i].fl || p in k.free
      ensures forall p :: p in large ==> p !in caches[i].Own() && W(k.mem, p) == LARGE_ALLOC_MAGIC
      ensures forall d, p :: 1 <= d < NUM_CACHES && d != i && p in caches[d].fl ==> p !in caches[i].Own()
    {
      hide W; hide Kmem.Valid; hide ThreeLists; hide SlabsOk; hide Partition; hide SizeOk; hide ObjectsNum; hide Sizes;
      InFreePages(k.free);
    }

    /** After an operation of cache i everything else stands as it did. */
    lemma OthersStand(i: nat, mem0: Mem, own: set<nat>)
      requires k.Valid() && Shape() && 1 <= i < NUM_CACHES && caches[i].Valid()
      requires forall d :: 1 <= d < NUM_CACHES && d != i ==> CacheAt(caches[d], mem0)
      requires PagesKept(mem0, k.mem, own)
      requires forall p :: p in k.free || p in caches[i].fl <==> p in own
      requires forall d, p :: 1 <= d < NUM_CACHES && d != i && p in caches[d].fl ==> p !in own && p !in large
      requires forall d, e, p ::
               1 <= d < NUM_CACHES && 1 <= e < NUM_CACHES && d != e && d != i && e != i && p in caches[d].fl ==>
                 p !in caches[e].fl
      requires forall p :: p in large ==> p !in own && p in mem0 && IsBase(p) && W(mem0, p) == LARGE_ALLOC_MAGIC
      ensures Valid()
    {
      hide W; hide Kmem.Valid; hide Cache.Valid; hide CacheAt; hide PagesKept; hide Sizes; hide IsBase;
      forall d | 1 <= d < NUM_CACHES && d != i ensures caches[d].Valid() {
        OtherCache(caches[d], k, mem0, own);
      }
      forall p | p in large ensures p in k.mem && W(k.mem, p) == LARGE_ALLOC_MAGIC {
        KeptWord(mem0, k.mem, own, p);
      }
      NotFree(i);
    }

    lemma NotFree(i: nat)
      requires |caches| == NUM_CACHES && i < NUM_CACHES && caches[i].Valid() && caches[i].k == k
      ensures forall p :: p in caches[i].fl ==> p !in k.free
    {
      hide W; hide Kmem.Valid; hide ThreeLists; hide SlabsOk; hide Partition; hide SizeOk; hide ObjectsNum;
    }

    /** The large case of kmalloc. */
    method LargePage() returns (ptr: nat)
      requires Valid()
      modifies this`large, k
      ensures Valid() && forall p :: InPool(p) <==> old(InPool(p))
      ensures ptr == 0 <==> old(k.free) == []
      ensures ptr == 0 ==> large == old(large)
      ensures ptr != 0 ==>
              ptr >= 8 && ptr - 8 !in old(large) && large == old(large) + {ptr - 8} && ptr - 8 in old(k.free)
      ensures forall a :: old(Handed(a)) ==> PieceKept(old(k.mem), k.mem, a)
    {
      hide PieceKept; hide Handed; hide Start; hide End;
      hide Cache.Inv; hide Sizes; hide CacheAt; hide W; hide Cache.Valid; hide Kmem.Valid; hide PagesKept;
      hide IsBase; hide Page;
      ghost var mem0, free0 := k.mem, k.free;
      Facts(1);
      LargeBases();
      SlabsAreTaken();
      AllKept(k.mem);
      AllInPages(1);
      var page := MarkedPage();
      forall a | old(Handed(a)) ensures PieceKept(mem0, k.mem, a) {
        if page != 0 {
          PagePieceKept(mem0, k.mem, {page}, a);
        }
      }
      ptr := 0;
      if page != 0 {
        ptr := page + 8;
        assert free0 == [page] + k.free;
        AllStand(mem0, {page});
        large := large + {page};
      } else {
        KeptSelf(mem0, {});
        AllStand(mem0, {});
      }
    }

    /** kalloc, and the magic word. */
    method MarkedPage() returns (page: nat)
      requires k.Valid()
      modifies k
      ensures k.Valid() && k.mem.Keys == old(k.mem).Keys && (page == 0 <==> old(k.free) == [])
      ensures page == 0 ==> k.mem == old(k.mem) && k.free == old(k.free)
      ensures page != 0 ==>
              page == old(k.free)[0] && k.free == old(k.free)[1..] && page in k.mem && page !in k.free && IsBase(page)
                            && W(k.mem, page) == LARGE_ALLOC_MAGIC && PagesKept(old(k.mem), k.mem, {page})
    {
      hide W; hide Chain; hide Distinct; hide Zeros; hide IsBase; hide Page;
      page := k.Kalloc();
      if page != 0 {
        FreshBase(k, page);
        LinkWordFacts(page);
        Store(k, page, LARGE_ALLOC_MAGIC);
      }
    }

    lemma SlabsAreTaken()
      requires Valid()
      ensures forall d, p :: 1 <= d < NUM_CACHES && p in caches[d].fl ==> p !in k.free && p !in large
      ensures forall p :: p in large ==> p in k.mem && p !in k.free
    {
    }

    /** A page that was free changed, and no cache knows it. */
    lemma AllStand(mem0: Mem, own: set<nat>)
      requires k.Valid() && Shape() && Owners() && PagesKept(mem0, k.mem, own)
      requires forall d :: 1 <= d < NUM_CACHES ==> CacheAt(caches[d], mem0)
      requires forall d, p :: 1 <= d < NUM_CACHES && p in caches[d].fl ==> p !in own
      requires forall p :: p in large ==> p !in own && p in mem0 && IsBase(p) && W(mem0, p) == LARGE_ALLOC_MAGIC
      ensures Valid()
    {
      hide W; hide Kmem.Valid; hide Cache.Valid; hide CacheAt; hide PagesKept; hide Sizes; hide IsBase;
      forall d | 1 <= d < NUM_CACHES ensures caches[d].Valid() {
        OtherCache(caches[d], k, mem0, own);
      }
      forall p | p in large ensures p in k.mem && W(k.mem, p) == LARGE_ALLOC_MAGIC {
        KeptWord(mem0, k.mem, own, p);
      }
    }

    lemma LargeBases()
      requires Valid()
      ensures forall p :: p in large ==> IsBase(p)
    {
    }

    /** The pointer s->cache followed: the cache object at the address a slab's header holds. */
    method FindCache(addr: nat) returns (i: nat)
      requires Shape() && exists d :: 1 <= d < NUM_CACHES && caches[d].addr == addr
      ensures i < NUM_CACHES && caches[i].addr == addr
      ensures forall d :: 0 <= d < NUM_CACHES && caches[d].addr == addr ==> d == i
    {
      i := 0;
      while caches[i].addr != addr
        invariant i < NUM_CACHES && forall d :: 0 <= d < i ==> caches[d].addr != addr
        decreases NUM_CACHES - i
      {
        i := i + 1;
      }
    }

    /** kmfree of a large page: the word at its start is the magic, and the page goes back. */
    method FreeLarge(ptr: nat)
      requires Valid() && Page(ptr) in large && ptr == Page(ptr) + 8
      modifies this`large, k
      ensures forall x, y, z :: 0 <= x < NUM_CACHES ==> (Live(x, y, z) <==> old(Live(x, y, z)))
      ensures Valid() && large == old(large) - {Page(ptr)} && k.free == [Page(ptr)] + old(k.free)
      ensures forall p :: InPool(p) <==> old(InPool(p))
      ensures forall a :: old(Handed(a)) && a != Whole(Page(ptr)) ==> PieceKept(old(k.mem), k.mem, a)
    {
      hide PieceKept; hide Handed; hide Start; hide End;
      hide Cache.Inv; hide Sizes; hide CacheAt; hide W; hide Cache.Valid; hide Kmem.Valid; hide PutWord; hide IsBase;
      hide Page;
      ghost var mem0 := k.mem;
      Facts(1);
      LargeBases();
      SlabsAreTaken();
      AllInPages(1);
      assert Handed(Whole(Page(ptr))) by {
        IsHanded(Page(ptr));
      }
      forall a | Handed(a) && a != Whole(Page(ptr)) ensures Base(a) != Page(ptr) {
        if Base(a) == Page(ptr) {
          OnePageOneOwner(a, Whole(Page(ptr)), Page(ptr));
        }
      }
      large := large - {Page(ptr)};
      k.Kfree(Page(ptr));
      forall a | old(Handed(a)) && a != Whole(Page(ptr)) ensures PieceKept(mem0, k.mem, a) {
        PagePieceKept(mem0, k.mem, {Page(ptr)}, a);
      }
      AllStand(mem0, {Page(ptr)});
    }

    /** kmfree.  The first word of the pointer's page tells a whole page from a slab, and the slab names its cache:
        each pointer goes back to where it came from. */
    method Mfree(ptr: nat, ghost i: nat, ghost j: nat)
      requires Valid()
      requires ptr != 0 ==> (Page(ptr) in large && ptr == Page(ptr) + 8)
                            || (1 <= i < NUM_CACHES && Live(i, Page(ptr), j) && ptr == SlotAt(Page(ptr), Sizes(i), j))
      modifies this, k, caches
      ensures Valid() && forall p :: InPool(p) <==> old(InPool(p))
      ensures ptr == 0 ==> large == old(large) && k.free == old(k.free)
      ensures ptr != 0 && Page(ptr) in old(large) ==>
                && large == old(large) - {Page(ptr)} && k.free == [Page(ptr)] + old(k.free)
                && forall x, y, z :: 0 <= x < NUM_CACHES ==> (Live(x, y, z) <==> old(Live(x, y, z)))
      ensures ptr != 0 && Page(ptr) !in old(large) ==>
                && large == old(large)
                && forall x, y, z :: 0 <= x < NUM_CACHES ==>
                   (Live(x, y, z) <==> old(Live(x, y, z)) && !(x == i && y == Page(ptr) && z == j))
      ensures forall a :: old(Handed(a)) && Start(a) != ptr ==> PieceKept(old(k.mem), k.mem, a)
    {
      hide W; hide Page; hide SlotAt; hide Sizes; hide Allocator.Valid; hide InPool; hide Allocator.Live;
      hide Handed; hide PieceKept;
      AllKept(k.mem);
      NineCaches();
      if ptr == 0 {
        return;
      }
      Discriminator(ptr, i, j);
      var page := Page(ptr);
      if W(k.mem, page) == LARGE_ALLOC_MAGIC {
        FreeLarge(ptr);
        return;
      }
      var c := FindCache(W(k.mem, page + 32));
      assert caches[c] in caches;
      FreeObject(c, ptr, j);
    }

    /** The object case of kmfree. */
    method FreeObject(i: nat, ptr: nat, ghost j: nat)
      requires Valid() && 1 <= i < NUM_CACHES && Live(i, Page(ptr), j) && ptr == SlotAt(Page(ptr), Sizes(i), j)
      modifies caches[i], k
      ensures Valid() && large == old(large) && forall p :: InPool(p) <==> old(InPool(p))
      ensures forall x, y, z :: 0 <= x < NUM_CACHES ==>
              (Live(x, y, z) <==> old(Live(x, y, z)) && !(x == i && y == Page(ptr) && z == j))
      ensures forall a :: old(Handed(a)) && a != Object(i, Page(ptr), j) ==> PieceKept(old(k.mem), k.mem, a)
    {
      hide PieceKept; hide ObjectsKept; hide Handed; hide Start; hide End; hide IsBase;
      hide Cache.Inv; hide Kmem.Valid; hide Sizes; hide SlotAt; hide ObjectsNum; hide CacheAt; hide W;
      hide PagesKept; hide Cache.Valid; hide Page;
      ghost var mem0, own := k.mem, caches[i].Own();
      Facts(i);
      LargeBases();
      ghost var slabs, fl0 := caches[i].fl.Keys, caches[i].fl;
      ghost var fl1 := fl0[Page(ptr) := [j] + fl0[Page(ptr)]];
      AllInPages(i);
      caches[i].Free(ptr, j);
      PagesAreValid(caches[i]);
      KeptWider(mem0, k.mem, slabs, own);
      OthersStand(i, mem0, own);
      forall a | old(Handed(a)) && a != Object(i, Page(ptr), j) ensures PieceKept(mem0, k.mem, a) {
        assert a.Object? && a.i == i ==> a.s in fl1 && a.j !in fl1[a.s];
        OnePieceKept(mem0, k.mem, own, fl1, i, a);
      }
    }

    /** The word at the start of the page tells the two kinds of pointer apart, and a slab names its cache. */
    lemma Discriminator(ptr: nat, i: nat, j: nat)
      requires Valid()
      requires (Page(ptr) in large && ptr == Page(ptr) + 8)
               || (1 <= i < NUM_CACHES && Live(i, Page(ptr), j) && ptr == SlotAt(Page(ptr), Sizes(i), j))
      ensures W(k.mem, Page(ptr)) == LARGE_ALLOC_MAGIC <==> Page(ptr) in large
      ensures Page(ptr) in large ==> ptr == Page(ptr) + 8
      ensures Page(ptr) !in large ==>
              && 1 <= i < NUM_CACHES && Live(i, Page(ptr), j) && ptr == SlotAt(Page(ptr), Sizes(i), j)
              && W(k.mem, Page(ptr) + 32) == caches[i].addr
    {
      hide W; hide Page; hide SlotAt; hide Sizes; hide ThreeLists; hide SlabsOk; hide Partition; hide Kmem.Valid;
      hide SizeOk; hide ObjectsNum;
      if Page(ptr) !in large {
        var c := caches[i];
        OnLists(ObjectsNum(c.objsz), c.full, c.partial, c.empty, c.fl);
        SlabWordNotMagic(k.mem, c.full, c.partial, c.empty, Page(ptr));
        OneSlab(k.mem, c.objsz, c.addr, c.fl, Page(ptr));
        SlabWords(k.mem, Page(ptr), c.objsz, c.addr, c.fl[Page(ptr)]);
      }
    }
  }

  lemma SlabIsBase(c: Cache, s: nat, j: nat)
    requires c.Inv() && c.Live(s, j)
    ensures IsBase(s) && s !in c.k.free && s in c.k.mem && Page(SlotAt(s, c.objsz, j)) == s
    ensures s + 8 <= SlotAt(s, c.objsz, j) && SlotAt(s, c.objsz, j) + c.objsz <= s + PGSIZE
  {
    hide W; hide Kmem.Valid; hide SlotAt; hide Page; hide ThreeLists; hide Partition; hide ObjectsNum;
    hide SlotChain; hide SizeOk;
    SlotFacts(s, c.objsz, j);
    TailInPage(s, c.objsz);
  }

  lemma PagesAreValid(c: Cache)
    requires c.Valid()
    ensures c.k.Valid()
  {
    hide W; hide Kmem.Valid; hide ThreeLists; hide SlabsOk; hide Partition; hide SizeOk; hide ObjectsNum;
  }

  lemma FreshBase(k: Kmem, page: nat)
    requires k.Valid() && page in k.mem
    ensures IsBase(page) && page != 0
  {
    hide Chain;
    PageFacts(k, page);
  }

  lemma KeptWord(mem: Mem, mem': Mem, S: set<nat>, p: nat)
    requires PagesKept(mem, mem', S) && p in mem && p !in S && IsBase(p)
    ensures p in mem' && W(mem', p) == W(mem, p)
  {
    LinkWordFacts(p);
  }

  /** All a cache's validity says, against a memory. */
  ghost predicate CacheAt(c: Cache, mem: Mem)
    reads c
  {
    && SizeOk(c.objsz) && c.addr < 0x100_0000_0000_0000
    && ThreeLists(mem, c.full, c.partial, c.empty) && SlabsOk(mem, c.objsz, c.addr, c.fl)
    && c.slabsFull == HeadOf(c.full) && c.slabsPartial == HeadOf(c.partial) && c.slabsEmpty == HeadOf(c.empty)
       && c.emptySlabs == |c.empty| <= MAX_EMPTY_SLABS
    && Partition(ObjectsNum(c.objsz), c.full, c.partial, c.empty, c.fl)
  }

  /** What one cache did leaves another in order, as it never wrote its pages. */
  lemma OtherCache(c: Cache, k: Kmem, mem0: Mem, S: set<nat>)
    requires c.k == k && k.Valid() && CacheAt(c, mem0)
    requires PagesKept(mem0, k.mem, S) && forall p :: p in c.fl ==> p !in S && p !in k.free
    ensures c.Valid()
  {
    hide W; hide Chain; hide SlabOk; hide DList; hide SizeOk; hide Partition; hide ObjectsNum; hide Distinct;
    hide PagesKept;
    OnLists(ObjectsNum(c.objsz), c.full, c.partial, c.empty, c.fl);
    KeptList(mem0, k.mem, S, c.full);
    KeptList(mem0, k.mem, S, c.partial);
    KeptList(mem0, k.mem, S, c.empty);
    KeptSlabs(mem0, k.mem, S, c.objsz, c.addr, c.fl);
  }

  lemma KeptList(mem: Mem, mem': Mem, S: set<nat>, q: seq<nat>)
    requires DList(mem, q) && PagesKept(mem, mem', S) && forall i :: 0 <= i < |q| ==> q[i] !in S
    ensures DList(mem', q)
  {
    hide WordAt; hide IsBase; hide NextOf; hide PrevOf; hide Page;
    forall i | 0 <= i < |q| ensures W(mem', q[i]) == NextOf(q, i) && W(mem', q[i] + 8) == PrevOf(q, i) {
      LinkWordFacts(q[i]);
    }
  }

  lemma KeptSlabs(mem: Mem, mem': Mem, S: set<nat>, objsz: nat, addr: nat, fl: map<nat, seq<nat>>)
    requires SlabsOk(mem, objsz, addr, fl) && SizeOk(objsz) && PagesKept(mem, mem', S) && forall p :: p in fl ==>
             p !in S
    ensures SlabsOk(mem', objsz, addr, fl)
  {
    hide SlabOk; hide SizeOk; hide WordAt; hide Page; hide LinkWord;
    forall t | t in fl ensures SlabOk(mem', t, objsz, addr, fl[t]) {
      InMemory(mem, t, objsz, addr, fl[t]);
      SlabFrame(mem, mem', t, objsz, addr, fl[t]);
    }
  }

  lemma InMemory(mem: Mem, t: nat, objsz: nat, addr: nat, fl: seq<nat>)
    requires SlabOk(mem, t, objsz, addr, fl)
    ensures t in mem
  {
  }
}
