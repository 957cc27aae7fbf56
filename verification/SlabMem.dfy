/** Memory as 8-byte words, and the doubly linked lists of slabs threaded through the first two words of each. */
module SlabMem {
  import opened Bytes
  import opened Kalloc
  import opened Seqs

  function Page(a: nat): (p: nat)
    ensures p % PGSIZE == 0 && p <= a < p + PGSIZE
  {
    a / PGSIZE * PGSIZE
  }

  predicate IsBase(p: nat) {
    p % PGSIZE == 0
  }

  predicate Aligned8(a: nat) {
    a % 8 == 0
  }

  /** The word at an 8-byte aligned address. */
  function W(mem: Mem, a: nat): u64 {
    if Page(a) in mem then WordAt(mem[Page(a)], (a - Page(a)) / 8) else 0
  }

  function PutW(mem: Mem, a: nat, v: u64): Mem
    requires Page(a) in mem
  {
    mem[Page(a) := PutWord(mem[Page(a)], (a - Page(a)) / 8, v)]
  }

  /** The eight bytes from a on, the least significant first. */
  lemma WordAtAddress(mem: Mem, a: nat)
    requires Aligned8(a)
    ensures a / 4096 * 4096 in mem ==>
              var b, o := mem[a / 4096 * 4096], a % 4096;
              && o + 8 <= 4096
              && W(mem, a) == b[o] as nat + 0x100 * b[o + 1] as nat + 0x1_0000 * b[o + 2] as nat
                              + 0x100_0000 * b[o + 3] as nat + 0x1_0000_0000 * b[o + 4] as nat
                              + 0x100_0000_0000 * b[o + 5] as nat + 0x1_0000_0000_0000 * b[o + 6] as nat
                              + 0x100_0000_0000_0000 * b[o + 7] as nat
  {
    hide WordAt;
    if a / 4096 * 4096 in mem {
      WordBytes(mem[a / 4096 * 4096], a % 4096 / 8);
    }
  }

  /** A store changes one word. */
  lemma PutWGet(mem: Mem, a: nat, v: u64)
    requires Page(a) in mem && Aligned8(a)
    ensures PutW(mem, a, v).Keys == mem.Keys
    ensures forall b: nat :: Aligned8(b) ==> W(PutW(mem, a, v), b) == if b == a then v else W(mem, b)
    ensures forall p :: p in mem && p != Page(a) ==> PutW(mem, a, v)[p] == mem[p]
  {
    hide WordAt; hide PutWord; hide Page;
    PutWordAt(mem[Page(a)], (a - Page(a)) / 8, v);
    forall b: nat | Aligned8(b) ensures W(PutW(mem, a, v), b) == if b == a then v else W(mem, b) {
      if Page(a) == Page(b) && b != a {
        OtherWord(a, b);
      }
    }
  }

  lemma OtherWord(a: nat, b: nat)
    requires Aligned8(a) && Aligned8(b) && a != b && Page(a) == Page(b)
    ensures (a - Page(a)) / 8 != (b - Page(b)) / 8
  {
    hide Page;
    WordMultiple(Page(a));
    WordsDiffer(Page(a), a, b);
  }

  lemma WordsDiffer(p: nat, a: nat, b: nat)
    requires p % 8 == 0 && a % 8 == 0 && b % 8 == 0 && p <= a && p <= b && a != b
    ensures (a - p) / 8 != (b - p) / 8
  {
  }

  lemma PageOfOffset(s: nat, d: nat)
    requires IsBase(s) && d < PGSIZE
    ensures Page(s + d) == s && (d % 8 == 0 ==> Aligned8(s + d))
  {
    assert (s + d) / PGSIZE == s / PGSIZE;
    WordMultiple(s);
  }

  lemma WordMultiple(s: nat)
    requires IsBase(s)
    ensures s % 8 == 0
  {
  }

  /** The words that changed. */
  ghost predicate OnlyWords(mem: Mem, mem': Mem, A: set<nat>) {
    mem'.Keys == mem.Keys && forall a: nat :: Aligned8(a) && a !in A ==> W(mem', a) == W(mem, a)
  }

  /** A store to a page in use. */
  method Store(k: Kmem, a: nat, v: u64)
    requires k.Valid() && Page(a) in k.mem && Page(a) !in k.free && Aligned8(a)
    modifies k`mem
    ensures k.Valid() && OnlyWords(old(k.mem), k.mem, {a}) && W(k.mem, a) == v
    ensures k.mem.Keys == old(k.mem).Keys && forall p :: p in old(k.mem) && p != Page(a) ==>
            p in k.mem && k.mem[p] == old(k.mem)[p]
  {
    hide W; hide Page; hide Distinct;
    ghost var mem0 := k.mem;
    PutWGet(mem0, a, v);
    k.mem := PutW(k.mem, a, v);
    ChainFrame(mem0, k.mem, k.memlist, k.free);
  }

  // Lists of slabs

  ghost function NextOf(q: seq<nat>, i: nat): nat
    requires i < |q|
  {
    if i + 1 < |q| then q[i + 1] else 0
  }

  ghost function PrevOf(q: seq<nat>, i: nat): nat
    requires i < |q|
  {
    if i > 0 then q[i - 1] else 0
  }

  ghost function HeadOf(q: seq<nat>): nat {
    if q == [] then 0 else q[0]
  }

  /** The pages of q are linked both ways, in order, between null pointers. */
  ghost predicate DList(mem: Mem, q: seq<nat>) {
    && Distinct(q)
    && (forall i :: 0 <= i < |q| ==> q[i] != 0 && IsBase(q[i]) && q[i] in mem)
    && (forall i :: 0 <= i < |q| ==> W(mem, q[i]) == NextOf(q, i) && W(mem, q[i] + 8) == PrevOf(q, i))
  }

  lemma BaseWords(p: nat)
    requires IsBase(p)
    ensures Aligned8(p) && Aligned8(p + 8)
  {
  }

  lemma ApartPages(p: nat, q: nat)
    requires IsBase(p) && IsBase(q)
    ensures p != q + 8 && p + 8 != q && (p != q ==> p + 8 != q + 8)
  {
  }

  /** What list_insert writes: the links of s, and the back link of the old first. */
  ghost predicate InsertWrites(mem: Mem, mem': Mem, q: seq<nat>, s: nat) {
    && mem'.Keys == mem.Keys
    && W(mem', s) == HeadOf(q) && W(mem', s + 8) == 0 && (q != [] ==> W(mem', q[0] + 8) == s)
    && (forall a: nat :: Aligned8(a) && a != s && a != s + 8 && (q != [] ==> a != q[0] + 8) ==> W(mem', a) == W(mem, a))
  }

  lemma InsertedAt(mem: Mem, mem': Mem, q: seq<nat>, s: nat, i: nat)
    requires DList(mem, q) && s !in q && IsBase(s) && InsertWrites(mem, mem', q, s) && i < |q|
    ensures var q' := [s] + q; W(mem', q[i]) == NextOf(q', i + 1) && W(mem', q[i] + 8) == PrevOf(q', i + 1)
  {
    hide W; hide IsBase; hide Aligned8;
    BaseWords(q[i]);
    ApartPages(s, q[i]);
    ApartPages(q[0], q[i]);
  }

  /** list_insert: s becomes the first. */
  lemma Inserted(mem: Mem, mem': Mem, q: seq<nat>, s: nat)
    requires DList(mem, q) && s !in q && s != 0 && IsBase(s) && s in mem && InsertWrites(mem, mem', q, s)
    ensures DList(mem', [s] + q)
  {
    hide W; hide IsBase; hide Aligned8; hide NextOf; hide PrevOf;
    var q' := [s] + q;
    forall i | 0 <= i < |q'| ensures W(mem', q'[i]) == NextOf(q', i) && W(mem', q'[i] + 8) == PrevOf(q', i) {
      if i > 0 {
        InsertedAt(mem, mem', q, s, i - 1);
      } else {
        FirstOf(q, s);
      }
    }
  }

  lemma FirstOf(q: seq<nat>, s: nat)
    ensures NextOf([s] + q, 0) == HeadOf(q) && PrevOf([s] + q, 0) == 0
  {
  }

  /** What list_remove writes: the forward link before s and the back link after it. */
  ghost predicate RemoveWrites(mem: Mem, mem': Mem, q: seq<nat>, i: nat)
    requires i < |q|
  {
    && mem'.Keys == mem.Keys
    && (i > 0 ==> W(mem', q[i - 1]) == NextOf(q, i))
    && (i + 1 < |q| ==> W(mem', q[i + 1] + 8) == PrevOf(q, i))
    && (forall a: nat :: Aligned8(a) && (i > 0 ==> a != q[i - 1]) && (i + 1 < |q| ==> a != q[i + 1] + 8) ==>
       W(mem', a) == W(mem, a))
  }

  lemma RemovedNeighbours(q: seq<nat>, i: nat, l: nat)
    requires i < |q| && l < |q| && l != i
    ensures var q', j := q[..i] + q[i + 1..], if l < i then l else l - 1;
            && q'[j] == q[l]
            && NextOf(q', j) == (if l + 1 == i then NextOf(q, i) else NextOf(q, l))
            && PrevOf(q', j) == if l == i + 1 then PrevOf(q, i) else PrevOf(q, l)
  {
  }

  lemma RemovedAt(mem: Mem, mem': Mem, q: seq<nat>, i: nat, l: nat)
    requires DList(mem, q) && i < |q| && RemoveWrites(mem, mem', q, i) && l < |q| && l != i
    ensures var q', j := q[..i] + q[i + 1..], if l < i then l else l - 1;
            q'[j] == q[l] && W(mem', q[l]) == NextOf(q', j) && W(mem', q[l] + 8) == PrevOf(q', j)
  {
    hide W; hide IsBase; hide Aligned8; hide NextOf; hide PrevOf;
    RemovedNeighbours(q, i, l);
    BaseWords(q[l]);
    if i > 0 {
      ApartPages(q[i - 1], q[l]);
    }
    if i + 1 < |q| {
      ApartPages(q[i + 1], q[l]);
    }
  }

  /** list_remove: the i-th leaves, its neighbours join. */
  lemma Removed(mem: Mem, mem': Mem, q: seq<nat>, i: nat)
    requires DList(mem, q) && i < |q| && RemoveWrites(mem, mem', q, i)
    ensures DList(mem', q[..i] + q[i + 1..])
  {
    hide W; hide IsBase; hide Aligned8; hide NextOf; hide PrevOf;
    var q' := q[..i] + q[i + 1..];
    forall j | 0 <= j < |q'|
      ensures W(mem', q'[j]) == NextOf(q', j) && W(mem', q'[j] + 8) == PrevOf(q', j)
    {
      RemovedAt(mem, mem', q, i, if j < i then j else j + 1);
    }
  }
}
