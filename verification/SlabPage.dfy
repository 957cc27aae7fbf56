/** One slab of mm/slab.c: a page with a header, equal-sized objects, and a freelist threaded through the free ones. */
module SlabPage {
  import opened Arith
  import opened Bytes
  import opened Kalloc
  import opened SlabMem
  import opened Seqs

  const HEADER: nat := 40
  const ROOM: nat := 4056

  /** (PGSIZE - sizeof(struct slab)) / objsz */
  function ObjectsNum(objsz: nat): nat {
    if objsz == 0 then 0 else ROOM / objsz
  }

  /** The address of object j; for j == ObjectsNum it is the end of the last object, where the list's sentinel goes. */
  ghost function SlotAt(s: nat, objsz: nat, j: nat): nat {
    s + HEADER + Times(j, objsz)
  }

  /** The objects lie one behind the other from byte 40 of the page on, as many as fit. */
  lemma SlotPlaces(s: nat, objsz: nat, j: nat)
    ensures SlotAt(s, objsz, j) == s + 40 + j * objsz
    ensures objsz > 0 ==> ObjectsNum(objsz) == (4096 - 40) / objsz
  {
    TimesIsProduct(j, objsz);
  }

  /** ALIGNUP(size, alignof(void *)) on 32 bits, the object size cache_create chooses. */
  function Rounded(size: u32): (objsz: u32) {
    (size + 7) / 8 * 8 % 0x1_0000_0000
  }

  /** A slab has at least one object of this rounded size. */
  predicate HasObjects(objsz: nat) {
    8 <= objsz <= ROOM && objsz % 8 == 0
  }

  /** Object sizes whose page tail holds the sentinel word. */
  predicate SizeOk(objsz: nat) {
    HasObjects(objsz) && ROOM % objsz >= 8
  }

  /** From one byte up to all the room of a slab, cache_create chooses a size of which a slab has objects, and the
      smallest multiple of 8 that holds the bytes asked for.  It does so for no other size. */
  lemma RoundedSizes(size: u32)
    ensures HasObjects(Rounded(size)) <==> 1 <= size <= ROOM
    ensures 1 <= size <= ROOM ==> size <= Rounded(size) < size + 8
  {
  }

  /** Larger objects do not fit at all: the list of such a slab starts with its sentinel. */
  lemma NoObject(s: nat, objsz: nat)
    requires objsz > 0
    ensures ObjectsNum(objsz) == 0 <==> objsz > ROOM
    ensures objsz > ROOM ==> SlotAt(s, objsz, 0) == SlotAt(s, objsz, ObjectsNum(objsz)) == s + HEADER
  {
  }

  /** The sentinel word lies inside the page exactly for such sizes; otherwise it is the first word of the next page. */
  lemma SentinelFits(s: nat, objsz: nat)
    requires HasObjects(objsz)
    ensures SizeOk(objsz) <==> SlotAt(s, objsz, ObjectsNum(objsz)) + 8 <= s + PGSIZE
    ensures !SizeOk(objsz) <==> SlotAt(s, objsz, ObjectsNum(objsz)) == s + PGSIZE
    ensures ObjectsNum(objsz) > 0
  {
    DivModSum(ROOM, objsz);
    TimesAligned(ObjectsNum(objsz), objsz);
  }

  /** For 8-byte objects slabinit writes its last word one past the page: into the next page's first word. */
  lemma EightByteClass(s: nat)
    requires IsBase(s)
    ensures !SizeOk(8) && SlotAt(s, 8, ObjectsNum(8)) == s + PGSIZE && Page(SlotAt(s, 8, ObjectsNum(8))) != s
  {
    TimesIsProduct(507, 8);
  }

  /** When that next page is free and not the last on the freelist, the list is cut there. */
  lemma {:induction false} FreelistCut(mem: Mem, head: nat, free: seq<nat>, i: nat)
    requires Chain(mem, head, free) && Distinct(free) && i + 1 < |free|
    ensures free[i] in mem && !Chain(mem[free[i] := PutWord(mem[free[i]], 0, 0)], head, free)
    decreases i
  {
    if i == 0 {
      PutWordAt(mem[head], 0, 0);
    } else {
      var rest := free[1..];
      assert forall j, k :: 0 <= j < k < |rest| ==> rest[j] == free[j + 1] && rest[k] == free[k + 1];
      FreelistCut(mem, WordAt(mem[head], 0), rest, i - 1);
      assert rest[i - 1] == free[i] != free[0];
    }
  }

  /** The other size classes of kmalloc are good. */
  lemma GoodClasses()
    ensures SizeOk(16) && SizeOk(32) && SizeOk(64) && SizeOk(128) && SizeOk(256) && SizeOk(512) && SizeOk(1024)
            && SizeOk(2048)
  {
  }

  /** Objects lie after the header and before the sentinel, aligned, in their own page. */
  lemma ObjectFacts(s: nat, objsz: nat, j: nat)
    requires IsBase(s) && HasObjects(objsz) && j < ObjectsNum(objsz)
    ensures s + HEADER <= SlotAt(s, objsz, j)
    ensures SlotAt(s, objsz, j) + objsz <= SlotAt(s, objsz, ObjectsNum(objsz)) <= s + PGSIZE
    ensures Page(SlotAt(s, objsz, j)) == s && Aligned8(SlotAt(s, objsz, j))
  {
    hide Page; hide Aligned8; hide SizeOk; hide ObjectsNum; hide IsBase;
    SentinelFits(s, objsz);
    TimesMonotone(j, ObjectsNum(objsz), objsz);
    TimesAligned(j, objsz);
    HeaderAligned(Times(j, objsz));
    PageOfOffset(s, HEADER + Times(j, objsz));
  }

  lemma HeaderAligned(t: nat)
    requires t % 8 == 0
    ensures (HEADER + t) % 8 == 0
  {
  }

  /** The same of objects and sentinel, where the sentinel fits. */
  lemma SlotFacts(s: nat, objsz: nat, j: nat)
    requires IsBase(s) && SizeOk(objsz) && j <= ObjectsNum(objsz)
    ensures s + HEADER <= SlotAt(s, objsz, j) && SlotAt(s, objsz, j) + 8 <= s + PGSIZE
    ensures j < ObjectsNum(objsz) ==> SlotAt(s, objsz, j) + objsz <= SlotAt(s, objsz, ObjectsNum(objsz))
    ensures Page(SlotAt(s, objsz, j)) == s && Aligned8(SlotAt(s, objsz, j))
  {
    SizeFacts(objsz);
    hide Page; hide Aligned8; hide SizeOk; hide ObjectsNum; hide IsBase;
    SentinelFits(s, objsz);
    if j < ObjectsNum(objsz) {
      ObjectFacts(s, objsz, j);
    } else {
      TimesAligned(j, objsz);
      HeaderAligned(Times(j, objsz));
      PageOfOffset(s, HEADER + Times(j, objsz));
    }
  }

  lemma SizeFacts(objsz: nat)
    requires SizeOk(objsz)
    ensures HasObjects(objsz) && objsz % 8 == 0
  {
  }

  lemma {:induction false} TimesAligned(j: nat, objsz: nat)
    requires objsz % 8 == 0
    ensures Times(j, objsz) % 8 == 0
  {
    if j > 0 {
      TimesAligned(j - 1, objsz);
    }
  }

  /** Different objects do not overlap, in one slab or in two. */
  lemma SlotsApart(s: nat, i: nat, t: nat, j: nat, objsz: nat)
    requires IsBase(s) && IsBase(t) && SizeOk(objsz) && i < ObjectsNum(objsz) && j <= ObjectsNum(objsz)
             && (s != t || i != j)
    ensures SlotAt(s, objsz, i) + objsz <= SlotAt(t, objsz, j)
            || SlotAt(t, objsz, j) + (if j < ObjectsNum(objsz) then objsz else 8) <= SlotAt(s, objsz, i)
  {
    hide Page; hide Aligned8; hide SizeOk;
    SlotFacts(s, objsz, i);
    SlotFacts(t, objsz, j);
    SlotFacts(s, objsz, ObjectsNum(objsz));
    if s == t {
      if i < j {
        TimesMonotone(i, j, objsz);
      } else {
        TimesMonotone(j, i, objsz);
      }
    } else {
      TailInPage(s, objsz);
      TailInPage(t, objsz);
      hide IsBase;
      if s < t {
        WholeBases(s, t);
      } else {
        WholeBases(t, s);
      }
    }
  }

  lemma TailInPage(s: nat, objsz: nat)
    requires IsBase(s) && SizeOk(objsz)
    ensures SlotAt(s, objsz, ObjectsNum(objsz)) + 8 <= s + PGSIZE
  {
    SentinelFits(s, objsz);
  }

  lemma WholeBases(p: nat, q: nat)
    requires IsBase(p) && IsBase(q) && p < q
    ensures p + PGSIZE <= q
  {
    WholePages(p, q);
  }

  /** From head on, the links spell the free objects, then the sentinel. */
  ghost predicate SlotChain(mem: Mem, s: nat, objsz: nat, n: nat, head: nat, fl: seq<nat>)
    decreases |fl|
  {
    if fl == [] then head == SlotAt(s, objsz, n)
    else fl[0] < n && head == SlotAt(s, objsz, fl[0])
         && SlotChain(mem, s, objsz, n, W(mem, SlotAt(s, objsz, fl[0])), fl[1..])
  }

  /** A slab whose free objects are fl, in freelist order. */
  ghost predicate SlabOk(mem: Mem, s: nat, objsz: nat, cache: nat, fl: seq<nat>) {
    && IsBase(s) && s != 0 && s in mem && Distinct(fl)
    && W(mem, s + 24) == |fl| + ObjectsNum(objsz) * 0x1_0000_0000
    && W(mem, s + 32) == cache
    && SlotChain(mem, s, objsz, ObjectsNum(objsz), W(mem, s + 16), fl)
  }

  /** The two link words of a page. */
  predicate LinkWord(a: nat) {
    a == Page(a) || a == Page(a) + 8
  }

  /** Only list links changed. */
  ghost predicate OnlyLinkWords(mem: Mem, mem': Mem) {
    mem'.Keys == mem.Keys && forall a: nat :: Aligned8(a) && !LinkWord(a) ==> W(mem', a) == W(mem, a)
  }

  /** Only page s changed, and not its links. */
  ghost predicate OnlyBody(mem: Mem, mem': Mem, s: nat) {
    mem'.Keys == mem.Keys && forall a: nat :: Aligned8(a) && (Page(a) != s || LinkWord(a)) ==> W(mem', a) == W(mem, a)
  }

  lemma {:induction false} SlotChainFrame(mem: Mem, mem': Mem, s: nat, objsz: nat, head: nat, fl: seq<nat>)
    requires SlotChain(mem, s, objsz, ObjectsNum(objsz), head, fl)
    requires forall i :: 0 <= i < |fl| ==> W(mem', SlotAt(s, objsz, fl[i])) == W(mem, SlotAt(s, objsz, fl[i]))
    ensures SlotChain(mem', s, objsz, ObjectsNum(objsz), head, fl)
    decreases |fl|
  {
    hide W; hide ObjectsNum;
    if fl != [] {
      assert forall i :: 0 <= i < |fl| - 1 ==> fl[1..][i] == fl[i + 1];
      SlotChainFrame(mem, mem', s, objsz, W(mem, SlotAt(s, objsz, fl[0])), fl[1..]);
    }
  }

  lemma {:induction false} ChainInRange(mem: Mem, s: nat, objsz: nat, n: nat, head: nat, fl: seq<nat>)
    requires SlotChain(mem, s, objsz, n, head, fl)
    ensures forall i :: 0 <= i < |fl| ==> fl[i] < n
    ensures head == SlotAt(s, objsz, if fl == [] then n else fl[0])
    decreases |fl|
  {
    hide W;
    if fl != [] {
      ChainInRange(mem, s, objsz, n, W(mem, SlotAt(s, objsz, fl[0])), fl[1..]);
      assert forall i :: 1 <= i < |fl| ==> fl[i] == fl[1..][i - 1];
    }
  }

  /** Header and object words are no link words. */
  lemma BodyWords(s: nat, objsz: nat, j: nat)
    requires IsBase(s) && SizeOk(objsz) && j <= ObjectsNum(objsz)
    ensures !LinkWord(SlotAt(s, objsz, j)) && !LinkWord(s + 16) && !LinkWord(s + 24) && !LinkWord(s + 32)
    ensures Aligned8(s + 16) && Aligned8(s + 24) && Aligned8(s + 32) && Page(s + 16) == s && Page(s + 24) == s
            && Page(s + 32) == s
    ensures SlotAt(s, objsz, j) != s + 16 && SlotAt(s, objsz, j) != s + 24 && SlotAt(s, objsz, j) != s + 32
  {
    SlotFacts(s, objsz, j);
    PageOfOffset(s, 16);
    PageOfOffset(s, 24);
    PageOfOffset(s, 32);
    hide Page;
  }

  /** Whatever leaves a slab's own words alone keeps the slab. */
  lemma SlabFrame(mem: Mem, mem': Mem, s: nat, objsz: nat, cache: nat, fl: seq<nat>)
    requires SizeOk(objsz) && SlabOk(mem, s, objsz, cache, fl) && mem'.Keys == mem.Keys
    requires forall a: nat :: Aligned8(a) && Page(a) == s && !LinkWord(a) ==> W(mem', a) == W(mem, a)
    ensures SlabOk(mem', s, objsz, cache, fl)
  {
    hide W; hide LinkWord; hide Page; hide Aligned8; hide SlotAt; hide SizeOk; hide ObjectsNum; hide IsBase;
    var n := ObjectsNum(objsz);
    ChainInRange(mem, s, objsz, n, W(mem, s + 16), fl);
    BodyWords(s, objsz, 0);
    forall i | 0 <= i < |fl| ensures W(mem', SlotAt(s, objsz, fl[i])) == W(mem, SlotAt(s, objsz, fl[i])) {
      SlotFacts(s, objsz, fl[i]);
      BodyWords(s, objsz, fl[i]);
    }
    SlotChainFrame(mem, mem', s, objsz, W(mem, s + 16), fl);
  }

  lemma {:induction false} Pigeonhole(fl: seq<nat>, n: nat)
    requires Distinct(fl) && forall i :: 0 <= i < |fl| ==> fl[i] < n
    ensures |fl| <= n
    decreases n
  {
    if fl != [] {
      assert fl[0] < n;
      if i :| 0 <= i < |fl| && fl[i] == n - 1 {
        Pigeonhole(fl[..i] + fl[i + 1..], n - 1);
      } else {
        Pigeonhole(fl, n - 1);
      }
    }
  }

  /** At most all objects are free, and an object that is not makes it fewer. */
  lemma FreeCount(mem: Mem, s: nat, objsz: nat, cache: nat, fl: seq<nat>, j: nat)
    requires SlabOk(mem, s, objsz, cache, fl)
    ensures |fl| <= ObjectsNum(objsz) && (j < ObjectsNum(objsz) && j !in fl ==> |fl| < ObjectsNum(objsz))
    ensures forall i :: 0 <= i < |fl| ==> fl[i] < ObjectsNum(objsz)
  {
    hide W; hide ObjectsNum;
    var n := ObjectsNum(objsz);
    ChainInRange(mem, s, objsz, n, W(mem, s + 16), fl);
    Pigeonhole(fl, n);
    if j < n && j !in fl {
      Pigeonhole(fl + [j], n);
    }
  }

  /** cache_alloc takes the first free object off the list. */
  lemma TakeObject(mem: Mem, mem': Mem, s: nat, objsz: nat, cache: nat, fl: seq<nat>)
    requires SizeOk(objsz) && SlabOk(mem, s, objsz, cache, fl) && fl != [] && mem'.Keys == mem.Keys
    requires W(mem', s + 16) == W(mem, SlotAt(s, objsz, fl[0])) && W(mem', s + 24) == W(mem, s + 24) - 1
    requires forall a: nat :: Aligned8(a) && a != s + 16 && a != s + 24 ==> W(mem', a) == W(mem, a)
    ensures SlabOk(mem', s, objsz, cache, fl[1..])
  {
    hide W; hide LinkWord; hide Page; hide Aligned8; hide SlotAt; hide SizeOk; hide ObjectsNum; hide IsBase;
    var n, rest := ObjectsNum(objsz), fl[1..];
    ChainInRange(mem, s, objsz, n, W(mem, s + 16), fl);
    BodyWords(s, objsz, 0);
    forall i | 0 <= i < |rest| ensures W(mem', SlotAt(s, objsz, rest[i])) == W(mem, SlotAt(s, objsz, rest[i])) {
      assert rest[i] == fl[i + 1];
      SlotFacts(s, objsz, rest[i]);
      BodyWords(s, objsz, rest[i]);
    }
    SlotChainFrame(mem, mem', s, objsz, W(mem', s + 16), rest);
  }

  /** cache_free puts an object back at the head of the list. */
  lemma GiveObject(mem: Mem, mem': Mem, s: nat, objsz: nat, cache: nat, fl: seq<nat>, j: nat)
    requires SizeOk(objsz) && SlabOk(mem, s, objsz, cache, fl) && j < ObjectsNum(objsz) && j !in fl
             && mem'.Keys == mem.Keys
    requires W(mem', SlotAt(s, objsz, j)) == W(mem, s + 16) && W(mem', s + 16) == SlotAt(s, objsz, j)
             && W(mem', s + 24) == W(mem, s + 24) + 1
    requires forall a: nat :: Aligned8(a) && a != s + 16 && a != s + 24 && a != SlotAt(s, objsz, j) ==>
             W(mem', a) == W(mem, a)
    ensures SlabOk(mem', s, objsz, cache, [j] + fl)
  {
    hide W; hide LinkWord; hide Page; hide Aligned8; hide SlotAt; hide SizeOk; hide ObjectsNum; hide IsBase;
    var n := ObjectsNum(objsz);
    ChainInRange(mem, s, objsz, n, W(mem, s + 16), fl);
    BodyWords(s, objsz, j);
    SlotFacts(s, objsz, j);
    forall i | 0 <= i < |fl| ensures W(mem', SlotAt(s, objsz, fl[i])) == W(mem, SlotAt(s, objsz, fl[i])) {
      SlotFacts(s, objsz, fl[i]);
      BodyWords(s, objsz, fl[i]);
      SizeFacts(objsz);
      SlotsDiffer(s, objsz, fl[i], j);
    }
    SlotChainFrame(mem, mem', s, objsz, W(mem, s + 16), fl);
    assert ([j] + fl)[1..] == fl;
  }

  lemma SlotsDiffer(s: nat, objsz: nat, i: nat, j: nat)
    requires HasObjects(objsz) && i != j
    ensures SlotAt(s, objsz, i) != SlotAt(s, objsz, j)
  {
    if i < j {
      TimesMonotone(i, j, objsz);
    } else {
      TimesMonotone(j, i, objsz);
    }
  }

  /** The indices from i up to n. */
  ghost function Indices(i: nat, n: nat): (r: seq<nat>)
    requires i <= n
    ensures |r| == n - i && forall k :: 0 <= k < n - i ==> r[k] == i + k
    decreases n - i
  {
    if i == n then [] else [i] + Indices(i + 1, n)
  }

  /** Objects threaded in order, the last one to the sentinel: all of them free. */
  lemma {:induction false} ThreadedChain(mem: Mem, s: nat, objsz: nat, n: nat, i: nat)
    requires i <= n && forall j :: i <= j < n ==> W(mem, SlotAt(s, objsz, j)) == SlotAt(s, objsz, j + 1)
    ensures SlotChain(mem, s, objsz, n, SlotAt(s, objsz, i), Indices(i, n))
    decreases n - i
  {
    hide W; hide SlotAt;
    if i < n {
      ThreadedChain(mem, s, objsz, n, i + 1);
      assert Indices(i, n)[1..] == Indices(i + 1, n);
    }
  }
}
