/** list_remove and list_insert of mm/slab.c over memory. */
module SlabList {
  import opened Bytes
  import opened Kalloc
  import opened SlabMem
  import opened SlabPage
  import opened Seqs

  ghost function Pages(q: seq<nat>): set<nat> {
    set i | 0 <= i < |q| :: q[i]
  }

  /** Only list links in pages of S changed. */
  ghost predicate OnlyLinksOf(mem: Mem, mem': Mem, S: set<nat>) {
    && OnlyLinkWords(mem, mem')
    && (forall a: nat :: Aligned8(a) && Page(a) !in S ==> W(mem', a) == W(mem, a))
    && (forall p :: p in mem && p !in S ==> p in mem' && mem'[p] == mem[p])
  }

  /** A list with no page in S does not notice. */
  lemma OtherList(mem: Mem, mem': Mem, S: set<nat>, q: seq<nat>)
    requires DList(mem, q) && OnlyLinksOf(mem, mem', S) && forall i :: 0 <= i < |q| ==> q[i] !in S
    ensures DList(mem', q)
  {
    hide W; hide IsBase; hide Aligned8; hide NextOf; hide PrevOf; hide Page; hide LinkWord;
    forall i | 0 <= i < |q| ensures W(mem', q[i]) == NextOf(q, i) && W(mem', q[i] + 8) == PrevOf(q, i) {
      BaseWords(q[i]);
      PageOfOffset(q[i], 0);
      PageOfOffset(q[i], 8);
    }
  }

  /** The words a list operation may write. */
  lemma LinkWordFacts(p: nat)
    requires IsBase(p)
    ensures LinkWord(p) && LinkWord(p + 8) && Page(p) == p && Page(p + 8) == p && Aligned8(p) && Aligned8(p + 8)
  {
    PageOfOffset(p, 0);
    PageOfOffset(p, 8);
    BaseWords(p);
  }

  /** Stores to link words of pages of S. */
  lemma LinkStores(mem: Mem, mem': Mem, S: set<nat>, a: nat)
    requires OnlyWords(mem, mem', {a}) && LinkWord(a) && Page(a) in S
    requires forall p :: p in mem && p != Page(a) ==> p in mem' && mem'[p] == mem[p]
    ensures OnlyLinksOf(mem, mem', S)
  {
    hide W; hide Aligned8; hide Page; hide LinkWord;
  }

  lemma LinksTwice(m0: Mem, m1: Mem, m2: Mem, S: set<nat>)
    requires OnlyLinksOf(m0, m1, S) && OnlyLinksOf(m1, m2, S)
    ensures OnlyLinksOf(m0, m2, S)
  {
    hide W; hide Aligned8; hide Page; hide LinkWord;
  }

  lemma LinksSelf(mem: Mem, S: set<nat>)
    ensures OnlyLinksOf(mem, mem, S)
  {
    hide W;
  }

  /** list_insert */
  method ListInsert(k: Kmem, head: nat, s: nat, ghost q: seq<nat>) returns (head': nat)
    requires k.Valid() && DList(k.mem, q) && head == HeadOf(q) && s !in q && s != 0 && IsBase(s) && s in k.mem
             && s !in k.free
    requires head < 0x1_0000_0000_0000_0000 && s < 0x1_0000_0000_0000_0000
    requires forall i :: 0 <= i < |q| ==> q[i] !in k.free
    modifies k`mem
    ensures k.Valid() && DList(k.mem, [s] + q) && head' == s && OnlyLinksOf(old(k.mem), k.mem, {s} + Pages(q))
  {
    hide W; hide Aligned8; hide Page; hide LinkWord; hide IsBase; hide Kmem.Valid; hide NextOf; hide PrevOf;
    hide OnlyLinksOf;
    ghost var m0, S := k.mem, {s} + Pages(q);
    LinkWordFacts(s);
    Store(k, s, head);
    ghost var m1 := k.mem;
    LinkStores(m0, m1, S, s);
    Store(k, s + 8, 0);
    ghost var m2 := k.mem;
    LinkStores(m1, m2, S, s + 8);
    LinksTwice(m0, m1, m2, S);
    if head != 0 {
      LinkWordFacts(head);
      ApartPages(s, head);
      Store(k, head + 8, s);
      LinkStores(m2, k.mem, S, head + 8);
      LinksTwice(m0, m2, k.mem, S);
    }
    head' := s;
    HeadNull(m0, q);
    Inserted(m0, k.mem, q, s);
  }

  lemma HeadNull(mem: Mem, q: seq<nat>)
    requires DList(mem, q)
    ensures HeadOf(q) == 0 <==> q == []
  {
    hide W;
  }

  /** list_remove */
  method ListRemove(k: Kmem, head: nat, s: nat, ghost q: seq<nat>, ghost i: nat) returns (head': nat)
    requires k.Valid() && DList(k.mem, q) && head == HeadOf(q) && i < |q| && q[i] == s
    requires forall i :: 0 <= i < |q| ==> q[i] !in k.free
    modifies k`mem
    ensures k.Valid() && DList(k.mem, q[..i] + q[i + 1..]) && head' == HeadOf(q[..i] + q[i + 1..])
            && OnlyLinksOf(old(k.mem), k.mem, Pages(q))
  {
    hide W; hide Aligned8; hide Page; hide LinkWord; hide IsBase; hide Kmem.Valid; hide OnlyLinksOf; hide DList;
    hide NextOf; hide PrevOf; hide HeadOf; hide OnlyWords;
    ghost var m0, S := k.mem, Pages(q);
    LinksSelf(m0, S);
    NoWords(m0);
    Neighbours(m0, q, i);
    head' := head;
    LinkWordFacts(s);
    var prev, next := W(k.mem, s + 8), W(k.mem, s);
    if prev != 0 {
      LinkWordFacts(prev);
      Store(k, prev, next);
      LinkStores(m0, k.mem, S, prev);
    } else {
      head' := next;
    }
    ghost var m1 := k.mem;
    LinksKeys(m0, m1, S);
    if next != 0 {
      LinkWordFacts(next);
      Store(k, next + 8, prev);
      LinkStores(m1, k.mem, S, next + 8);
      LinksTwice(m0, m1, k.mem, S);
    } else {
      NoWords(m1);
    }
    RemoveDone(m0, m1, k.mem, q, i);
    Removed(m0, k.mem, q, i);
  }

  lemma NoWords(mem: Mem)
    ensures OnlyWords(mem, mem, {})
  {
  }

  lemma LinksKeys(m0: Mem, m1: Mem, S: set<nat>)
    requires OnlyLinksOf(m0, m1, S)
    ensures m1.Keys == m0.Keys
  {
    hide W;
  }

  /** The two stores of list_remove are what it has to write. */
  lemma RemoveDone(m0: Mem, m1: Mem, m2: Mem, q: seq<nat>, i: nat)
    requires DList(m0, q) && i < |q|
    requires OnlyWords(m0, m1, if i > 0 then {q[i - 1]} else {})
             && OnlyWords(m1, m2, if i + 1 < |q| then {q[i + 1] + 8} else {})
    requires i > 0 ==> W(m1, q[i - 1]) == NextOf(q, i)
    requires i + 1 < |q| ==> W(m2, q[i + 1] + 8) == PrevOf(q, i)
    ensures RemoveWrites(m0, m2, q, i)
  {
    hide W; hide IsBase; hide Aligned8; hide NextOf; hide PrevOf; hide Distinct;
    if i > 0 {
      BaseWords(q[i - 1]);
      if i + 1 < |q| {
        SecondStore(q, i);
      }
    }
  }

  lemma Neighbours(mem: Mem, q: seq<nat>, i: nat)
    requires DList(mem, q) && i < |q|
    ensures W(mem, q[i]) == NextOf(q, i) && W(mem, q[i] + 8) == PrevOf(q, i) && IsBase(q[i])
    ensures if i + 1 < |q| then NextOf(q, i) == q[i + 1] != 0 && q[i + 1] in Pages(q) && IsBase(q[i + 1])
            && q[i + 1] in mem else NextOf(q, i) == 0
    ensures if i > 0 then PrevOf(q, i) == q[i - 1] != 0 && q[i - 1] in Pages(q) && IsBase(q[i - 1])
            && q[i - 1] in mem else PrevOf(q, i) == 0
    ensures HeadOf(q[..i] + q[i + 1..]) == if i > 0 then HeadOf(q) else NextOf(q, i)
  {
    hide W; hide IsBase; hide Distinct;
  }

  lemma SecondStore(q: seq<nat>, i: nat)
    requires i + 1 < |q| && forall j :: 0 <= j < |q| ==> IsBase(q[j])
    ensures i > 0 ==> q[i - 1] != q[i + 1] + 8
  {
    if i > 0 {
      ApartPages(q[i - 1], q[i + 1]);
    }
  }
}
