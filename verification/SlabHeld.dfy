/** The words of objects that are handed out, which no operation of the allocator writes. */
module SlabHeld {
  import opened Arith
  import opened Bytes
  import opened Kalloc
  import opened SlabMem
  import opened SlabPage

  /** a lies in object j of slab s, which is not among the free ones. */
  ghost predicate InObject(objsz: nat, free: seq<nat>, s: nat, j: nat, a: nat) {
    j < ObjectsNum(objsz) && j !in free && SlotAt(s, objsz, j) <= a < SlotAt(s, objsz, j) + objsz
  }

  /** a is a word of an object that is handed out, with these free objects in each slab. */
  ghost predicate HeldWord(objsz: nat, fl: map<nat, seq<nat>>, a: nat) {
    Aligned8(a) && Page(a) in fl && exists j: nat :: InObject(objsz, fl[Page(a)], Page(a), j, a)
  }

  /** Objects that are handed out hold what they held. */
  ghost predicate ObjectsKept(mem: Mem, mem': Mem, objsz: nat, fl: map<nat, seq<nat>>) {
    forall a: nat :: HeldWord(objsz, fl, a) ==> W(mem', a) == W(mem, a)
  }

  /** Words of objects are neither list links nor counters. */
  lemma HeldIsNoHeader(objsz: nat, fl: map<nat, seq<nat>>, a: nat)
    requires HeldWord(objsz, fl, a)
    ensures !LinkWord(a) && a >= Page(a) + HEADER
  {
    hide Page; hide ObjectsNum;
  }

  lemma LinksKeepObjects(m0: Mem, m1: Mem, objsz: nat, fl: map<nat, seq<nat>>)
    requires OnlyLinkWords(m0, m1)
    ensures ObjectsKept(m0, m1, objsz, fl)
  {
    hide W; hide LinkWord; hide Page;
    forall a: nat | HeldWord(objsz, fl, a) ensures W(m1, a) == W(m0, a) {
      HeldIsNoHeader(objsz, fl, a);
    }
  }

  lemma LinkWordsTrans(m0: Mem, m1: Mem, m2: Mem)
    requires OnlyLinkWords(m0, m1) && OnlyLinkWords(m1, m2)
    ensures OnlyLinkWords(m0, m2)
  {
    hide W; hide LinkWord; hide Aligned8;
  }

  lemma LinkWordsSelf(m: Mem)
    ensures OnlyLinkWords(m, m)
  {
  }

  /** A store to the first word of a page, as kfree makes it, is a store to a link word. */
  lemma FirstWord(m0: Mem, m1: Mem, s: nat, v: u64)
    requires s in m0 && IsBase(s) && m1 == m0[s := PutWord(m0[s], 0, v)]
    ensures OnlyLinkWords(m0, m1)
  {
    PageOfOffset(s, 0);
    PutWGet(m0, s, v);
    assert m1 == PutW(m0, s, v);
    hide W; hide PutW; hide PutWord;
  }

  /** Work in a page that is no slab. */
  lemma FreshKeepsObjects(m0: Mem, m1: Mem, objsz: nat, fl: map<nat, seq<nat>>, s: nat)
    requires m1.Keys == m0.Keys && (forall p :: p in m0 && p != s ==> m1[p] == m0[p]) && s !in fl
    ensures ObjectsKept(m0, m1, objsz, fl)
  {
    hide WordAt; hide Page; hide Aligned8; hide InObject;
  }

  /** The two counter words of a header. */
  lemma HeadersKeepObjects(m0: Mem, m1: Mem, m2: Mem, objsz: nat, fl: map<nat, seq<nat>>, s: nat)
    requires OnlyWords(m0, m1, {s + 16}) && OnlyWords(m1, m2, {s + 24}) && IsBase(s)
    ensures ObjectsKept(m0, m2, objsz, fl)
  {
    PageOfOffset(s, 16);
    PageOfOffset(s, 24);
    hide W; hide LinkWord; hide Page;
    forall a: nat | HeldWord(objsz, fl, a) ensures W(m2, a) == W(m0, a) {
      HeldIsNoHeader(objsz, fl, a);
    }
  }

  /** The store to an object that is given back. */
  lemma GivenKeepsObjects(m0: Mem, m1: Mem, objsz: nat, fl: map<nat, seq<nat>>, s: nat, j: nat)
    requires SizeOk(objsz) && IsBase(s) && s in fl && j < ObjectsNum(objsz) && OnlyWords(m0, m1, {SlotAt(s, objsz, j)})
    ensures ObjectsKept(m0, m1, objsz, fl[s := [j] + fl[s]])
  {
    hide W; hide SlotAt; hide Page; hide SizeOk; hide ObjectsNum; hide IsBase;
    ghost var fl' := fl[s := [j] + fl[s]];
    forall a: nat | HeldWord(objsz, fl', a) ensures W(m1, a) == W(m0, a) {
      var t := Page(a);
      var i: nat :| InObject(objsz, fl'[t], t, i, a);
      assert t != s || i != j;
      PageIsBase(a);
      SlotsApart(t, i, s, j, objsz);
    }
  }

  lemma PageIsBase(a: nat)
    ensures IsBase(Page(a))
  {
  }

  lemma KeptObjectsTwice(m0: Mem, m1: Mem, m2: Mem, objsz: nat, fl: map<nat, seq<nat>>)
    requires ObjectsKept(m0, m1, objsz, fl) && ObjectsKept(m1, m2, objsz, fl)
    ensures ObjectsKept(m0, m2, objsz, fl)
  {
    hide W; hide HeldWord;
  }

  /** Whatever is handed out by fl0 is handed out by fl1. */
  lemma MoreObjects(m0: Mem, m1: Mem, objsz: nat, fl0: map<nat, seq<nat>>, fl1: map<nat, seq<nat>>)
    requires ObjectsKept(m0, m1, objsz, fl1)
    requires forall s, j: nat :: s in fl0 && j < ObjectsNum(objsz) && j !in fl0[s] ==> s in fl1 && j !in fl1[s]
    ensures ObjectsKept(m0, m1, objsz, fl0)
  {
    hide W; hide Page; hide SlotAt; hide ObjectsNum; hide Aligned8;
    forall a: nat | HeldWord(objsz, fl0, a) ensures W(m1, a) == W(m0, a) {
      var s := Page(a);
      var j: nat :| InObject(objsz, fl0[s], s, j, a);
      assert InObject(objsz, fl1[s], s, j, a);
    }
  }
}
