/** mm/kalloc.c: the page freelist threaded through the first word of each free page. */
module Kalloc {
  import opened Bytes
  import opened Seqs

  const PGSIZE: nat := 4096
  const WORDS: nat := 512

  type Mem = map<nat, Block>

  /** Word i of a page. */
  function WordAt(b: Block, i: nat): u64
    requires i < WORDS
  {
    Pow256Values();
    Field(b, 8 * i, 8)
  }

  function PutWord(b: Block, i: nat, v: u64): Block
    requires i < WORDS
  {
    Splice(b, 8 * i, ToLe(v, 8))
  }

  /** Word i is bytes 8i to 8i + 7, the least significant first. */
  lemma WordBytes(b: Block, i: nat)
    requires i < WORDS
    ensures WordAt(b, i) == b[8 * i] as nat + 0x100 * b[8 * i + 1] as nat + 0x1_0000 * b[8 * i + 2] as nat
                            + 0x100_0000 * b[8 * i + 3] as nat + 0x1_0000_0000 * b[8 * i + 4] as nat
                            + 0x100_0000_0000 * b[8 * i + 5] as nat + 0x1_0000_0000_0000 * b[8 * i + 6] as nat
                            + 0x100_0000_0000_0000 * b[8 * i + 7] as nat
  {
    LeBytes(b[8 * i..8 * i + 8]);
  }

  /** Storing one word leaves the others of the page alone. */
  lemma PutWordAt(b: Block, i: nat, v: u64)
    requires i < WORDS
    ensures forall j :: 0 <= j < WORDS ==> WordAt(PutWord(b, i, v), j) == if j == i then v else WordAt(b, j)
    ensures forall k :: 0 <= k < PGSIZE && !(8 * i <= k < 8 * i + 8) ==> PutWord(b, i, v)[k] == b[k]
  {
    Pow256Values();
    LeRoundTrip(v, 8);
    SpliceBytes(b, 8 * i, ToLe(v, 8));
    forall j | 0 <= j < WORDS && j != i ensures WordAt(PutWord(b, i, v), j) == WordAt(b, j) {
      FieldFrame(PutWord(b, i, v), b, 8 * j, 8);
    }
  }

  lemma ZeroWords()
    ensures forall j :: 0 <= j < WORDS ==> WordAt(Zeros(PGSIZE), j) == 0
  {
    forall j | 0 <= j < WORDS ensures WordAt(Zeros(PGSIZE), j) == 0 {
      ZeroField(Zeros(PGSIZE), 8 * j, 8);
    }
  }

  /** From head on, the links in the first words spell the pages of free, ending in the null pointer. */
  ghost predicate Chain(mem: Mem, head: nat, free: seq<nat>)
    decreases |free|
  {
    if free == [] then head == 0
    else head == free[0] && head != 0 && head in mem && Chain(mem, WordAt(mem[head], 0), free[1..])
  }

  /** Pages outside the list may change freely. */
  lemma {:induction false} ChainFrame(mem: Mem, mem': Mem, head: nat, free: seq<nat>)
    requires Chain(mem, head, free)
    requires forall p :: p in free ==> p in mem ==> p in mem' && WordAt(mem'[p], 0) == WordAt(mem[p], 0)
    ensures Chain(mem', head, free)
    decreases |free|
  {
    if free != [] {
      assert free[0] in free;
      assert forall p :: p in free[1..] ==> p in free;
      ChainFrame(mem, mem', WordAt(mem[head], 0), free[1..]);
    }
  }

  /** Every page on the list is memory. */
  lemma {:induction false} ChainPages(mem: Mem, head: nat, free: seq<nat>)
    requires Chain(mem, head, free)
    ensures forall p :: p in free ==> p in mem && p != 0
    decreases |free|
  {
    if free != [] {
      ChainPages(mem, WordAt(mem[head], 0), free[1..]);
      assert free == [free[0]] + free[1..];
    }
  }

  predicate PageBetween(q: nat, start: nat, end: nat) {
    q % PGSIZE == 0 && start <= q < end
  }

  lemma FirstPage(start: nat, p: nat)
    requires p == (start + PGSIZE - 1) / PGSIZE * PGSIZE
    ensures p % PGSIZE == 0 && start <= p < start + PGSIZE && forall q :: !PageBetween(q, start, p)
  {
  }

  lemma NextPage(start: nat, p: nat)
    requires p % PGSIZE == 0 && start <= p
    ensures forall q: nat :: PageBetween(q, start, p + PGSIZE) <==> PageBetween(q, start, p) || q == p
    ensures !PageBetween(p, start, p)
  {
    forall q: nat ensures PageBetween(q, start, p + PGSIZE) <==> PageBetween(q, start, p) || q == p {
      if q % PGSIZE == 0 && p < q {
        WholePages(p, q);
      }
    }
  }

  lemma WholePages(p: nat, q: nat)
    requires p % PGSIZE == 0 && q % PGSIZE == 0 && p < q
    ensures p + PGSIZE <= q
  {
  }

  lemma LastPage(start: nat, p: nat, end: nat)
    requires p % PGSIZE == 0 && start <= p && (p < start + PGSIZE || p <= end) && end < p + PGSIZE
    ensures forall q: nat :: PageBetween(q, start, p) <==> q % PGSIZE == 0 && start <= q && q + PGSIZE <= end
  {
  }

  /** The allocator: kmem.memlist and the pages between ekernel and PHYEND. */
  class Kmem {
    const ekernel: nat
    const phyend: nat
    var mem: Mem
    var memlist: u64
    ghost var free: seq<nat>

    predicate IsPage(pa: nat) {
      pa % PGSIZE == 0 && ekernel <= pa < phyend
    }

    ghost predicate Valid()
      reads this
    {
      && 0 < ekernel && phyend <= 0x100_0000_0000_0000
      && (forall p :: p in mem <==> IsPage(p))
      && Chain(mem, memlist, free) && Distinct(free)
    }

    /** The pages not on the freelist. */
    ghost function Taken(): set<nat>
      reads this
    {
      mem.Keys - (set p | p in free)
    }

    /** Before kinit: memory with nothing on the list. */
    constructor (ekernel: nat, phyend: nat, mem: Mem)
      requires 0 < ekernel && phyend <= 0x100_0000_0000_0000
      requires forall p :: p in mem <==> p % PGSIZE == 0 && ekernel <= p < phyend
      ensures Valid() && this.ekernel == ekernel && this.phyend == phyend && this.mem == mem && free == []
    {
      this.ekernel, this.phyend, this.mem, memlist, free := ekernel, phyend, mem, 0, [];
    }

    /** kfree: the page goes to the head of the list; only its first word changes.  The panic for an address that is
        no page is out of reach for the addresses required here. */
    method Kfree(pa: nat)
      requires Valid() && pa in mem && pa !in free
      modifies this
      ensures Valid() && free == [pa] + old(free)
      ensures mem == old(mem)[pa := PutWord(old(mem)[pa], 0, old(memlist))]
    {
      ChainPages(mem, memlist, free);
      var next := memlist;
      PutWordAt(mem[pa], 0, next);
      ghost var mem0 := mem;
      mem := mem[pa := PutWord(mem[pa], 0, next)];
      ChainFrame(mem0, mem, memlist, free);
      memlist := pa;
      free := [pa] + free;
      assert free[1..] == old(free);
      assert mem == mem0[pa := PutWord(mem0[pa], 0, next)];
    }

    /** kalloc: null exactly when the list is empty; otherwise its first page, zeroed. */
    method Kalloc() returns (pa: nat)
      requires Valid()
      modifies this
      ensures Valid()
      ensures pa == 0 <==> old(free) == []
      ensures pa == 0 ==> mem == old(mem) && free == old(free)
      ensures pa != 0 ==>
              && pa == old(free)[0] && free == old(free)[1..] && pa in old(mem) && pa !in free
              && mem == old(mem)[pa := Zeros(PGSIZE)]
    {
      pa := memlist;
      if pa != 0 {
        ChainPages(mem, memlist, free);
        ghost var mem0 := mem;
        memlist := WordAt(mem[pa], 0);
        mem := mem[pa := Zeros(PGSIZE)];
        free := free[1..];
        ChainFrame(mem0, mem, memlist, free);
      }
    }

    lemma InMemory(p: nat)
      requires Valid() && IsPage(p)
      ensures p in mem
    {
      hide Chain; hide Distinct;
    }

    /** freerange: exactly the whole pages between the two addresses join the list, each once. */
    method FreeRange(start: nat, end: nat)
      requires Valid() && ekernel <= start && end <= phyend
      requires forall p :: p in free ==> p < start
      modifies this
      ensures Valid()
      ensures forall p: nat :: p in free <==> p in old(free) || (p % PGSIZE == 0 && start <= p && p + PGSIZE <= end)
      ensures forall p :: p in old(mem) && p in old(free) ==> p in mem && mem[p] == old(mem)[p]
    {
      hide PageBetween; hide Valid; hide PutWord;
      var p := (start + PGSIZE - 1) / PGSIZE * PGSIZE;
      FirstPage(start, p);
      while p + PGSIZE <= end
        invariant Valid() && p % PGSIZE == 0 && start <= p && (p < start + PGSIZE || p <= end)
        invariant forall q: nat :: q in free <==> q in old(free) || PageBetween(q, start, p)
        invariant forall q: nat :: q in old(free) ==> q < start
        invariant forall q :: q in old(mem) && q in old(free) ==> q in mem && mem[q] == old(mem)[q]
      {
        NextPage(start, p);
        InMemory(p);
        Kfree(p);
        p := p + PGSIZE;
      }
      LastPage(start, p, end);
    }
  }

  lemma PageFacts(k: Kmem, p: nat)
    requires k.Valid() && p in k.mem
    ensures 0 < p < 0x100_0000_0000_0000 && p % PGSIZE == 0
  {
    hide Chain; hide Distinct;
  }
}
