/** Sv39 page tables as a tree over physical memory.  A place is a path of 9-bit indices from the root; a path of
    three leads to a leaf entry.  The format is section 4.4 of the RISC-V privileged architecture. */
module PageTree {
  import opened Bytes
  import opened Kalloc

  /** PTE_V, PTE_U, and whether any of PTE_R, PTE_W, PTE_X is set. */
  predicate Present(e: u64) {
    e % 2 == 1
  }

  predicate IsUser(e: u64) {
    e / 16 % 2 == 1
  }

  predicate IsLeaf(e: u64) {
    e / 2 % 8 != 0
  }

  /** PTE2PA */
  function Pa(e: u64): u64 {
    e / 1024 * 4096 % 0x1_0000_0000_0000_0000
  }

  /** PA2PTE(pa) | flags: the flags lie in bits the shifted address leaves clear. */
  function Pte(pa: nat, flags: nat): u64 {
    (pa / 4096 * 1024 + flags) % 0x1_0000_0000_0000_0000
  }

  /** perm | PTE_V */
  function WithV(perm: u8): (f: u8) {
    if perm % 2 == 1 then perm else perm + 1
  }

  /** Address and flags survive in the entry. */
  lemma PteRoundTrip(pa: nat, flags: u8)
    requires pa < 0x100_0000_0000_0000 && pa % PGSIZE == 0
    ensures Pa(Pte(pa, flags)) == pa
    ensures Present(Pte(pa, flags)) == Present(flags) && IsUser(Pte(pa, flags)) == IsUser(flags)
            && IsLeaf(Pte(pa, flags)) == IsLeaf(flags)
  {
    LowBits(pa / 4096, flags);
    assert Pte(pa, flags) == pa / 4096 * 1024 + flags;
  }

  /** The bits of an entry: the flags are its low byte, V bit 0, R, W and X bits 1 to 3, U bit 4; the page number
      starts at bit 10. */
  lemma FlagBits(pa: nat, f: u8)
    requires pa < 0x100_0000_0000_0000 && pa % PGSIZE == 0
    ensures Present(Pte(pa, f)) <==> f % 2 == 1
    ensures IsLeaf(Pte(pa, f)) <==> f / 2 % 2 == 1 || f / 4 % 2 == 1 || f / 8 % 2 == 1
    ensures IsUser(Pte(pa, f)) <==> f / 16 % 2 == 1
    ensures Pte(pa, f) == pa / 4 + f && Pa(Pte(pa, f)) == pa
  {
    PteRoundTrip(pa, f);
    ThreeBits(f / 2);
    PteSum(pa, f);
    hide Pte; hide Pa;
  }

  lemma ThreeBits(q: nat)
    ensures q % 8 != 0 <==> q % 2 == 1 || q / 2 % 2 == 1 || q / 4 % 2 == 1
  {
    var m := q / 8;
    assert q == 8 * m + q % 8;
    assert q / 2 == 4 * m + q % 8 / 2 && q / 4 == 2 * m + q % 8 / 4;
  }

  lemma PteSum(pa: nat, f: u8)
    requires pa < 0x100_0000_0000_0000 && pa % PGSIZE == 0
    ensures Pte(pa, f) == pa / 4 + f
  {
  }

  /** PTE_V is added, no other bit changes. */
  lemma WithVBits(perm: u8)
    ensures WithV(perm) % 2 == 1 && WithV(perm) / 2 == perm / 2
  {
  }

  lemma LowBits(n: nat, f: u8)
    ensures (n * 1024 + f) / 1024 == n && (n * 1024 + f) % 2 == f % 2
    ensures (n * 1024 + f) / 16 % 2 == f / 16 % 2 && (n * 1024 + f) / 2 % 8 == f / 2 % 8
  {
    PageNumber(n, f);
    Bit4(n, f);
    Bits1To3(n, f);
  }

  lemma PageNumber(n: nat, f: u8)
    ensures (n * 1024 + f) / 1024 == n && (n * 1024 + f) % 2 == f % 2
  {
  }

  lemma Bit4(n: nat, f: u8)
    ensures (n * 1024 + f) / 16 % 2 == f / 16 % 2
  {
    var q := f / 16;
    assert (n * 1024 + f) / 16 == n * 64 + q;
  }

  lemma Bits1To3(n: nat, f: u8)
    ensures (n * 1024 + f) / 2 % 8 == f / 2 % 8
  {
    var q := f / 2;
    assert (n * 1024 + f) / 2 == n * 512 + q;
    assert q == q / 8 * 8 + q % 8;
    assert (n * 512 + q) / 8 == n * 64 + q / 8;
  }

  /** PX(level, va) for the three levels, from the root down. */
  function PathOf(va: nat): (p: seq<nat>)
    ensures |p| == 3 && forall k :: 0 <= k < 3 ==> p[k] < WORDS
  {
    [va / 0x4000_0000 % 512, va / 0x20_0000 % 512, va / 0x1000 % 512]
  }

  /** The three indices are nine bits each, above the twelve bits of the offset, the root's highest. */
  lemma PathBits(va: nat)
    requires va < 0x80_0000_0000
    ensures var p := PathOf(va);
            && va == p[0] * 0x4000_0000 + p[1] * 0x20_0000 + p[2] * 0x1000 + va % 0x1000
            && p[0] < 512 && p[1] < 512 && p[2] < 512
  {
    var n := va / 0x1000;
    assert va / 0x20_0000 == n / 512 && va / 0x4000_0000 == n / 512 / 512;
    assert n == n / 512 * 512 + n % 512 && n / 512 == n / 512 / 512 * 512 + n / 512 % 512;
  }

  predicate LeafPath(p: seq<nat>) {
    |p| == 3 && p[0] < WORDS && p[1] < WORDS && p[2] < WORDS
  }

  /** The page address a leaf path stands for. */
  function VaOf(p: seq<nat>): nat
    requires |p| == 3
  {
    p[0] * 0x4000_0000 + p[1] * 0x20_0000 + p[2] * 0x1000
  }

  const MAXVA: nat := 0x80_0000_0000

  lemma VaOfPathOf(va: nat)
    requires va < MAXVA && va % PGSIZE == 0
    ensures VaOf(PathOf(va)) == va
  {
    var n := va / 0x1000;
    assert va / 0x20_0000 == n / 512 && va / 0x4000_0000 == n / 512 / 512;
    assert n == n / 512 * 512 + n % 512 && n / 512 == n / 512 / 512 * 512 + n / 512 % 512;
  }

  lemma PathOfVaOf(p: seq<nat>)
    requires LeafPath(p)
    ensures PathOf(VaOf(p)) == p && VaOf(p) < MAXVA && VaOf(p) % PGSIZE == 0
  {
    assert VaOf(p) == (p[0] * 0x4_0000 + p[1] * 512 + p[2]) * 0x1000;
    assert VaOf(p) / 0x1000 == p[0] * 0x4_0000 + p[1] * 512 + p[2];
    assert VaOf(p) / 0x20_0000 == p[0] * 512 + p[1];
    assert VaOf(p) / 0x4000_0000 == p[0];
  }

  /** The paths of page tables: the root, and one or two indices below it. */
  ghost predicate TablePath(p: seq<nat>) {
    |p| <= 2 && forall k :: 0 <= k < |p| ==> p[k] < WORDS
  }

  /** The page table at path p, 0 for none. */
  ghost function Tbl(mem: Mem, root: nat, p: seq<nat>): nat
    decreases |p|
  {
    if p == [] then root
    else
      var up, i := Tbl(mem, root, p[..|p| - 1]), p[|p| - 1];
      if up == 0 || up !in mem || i >= WORDS || !Present(WordAt(mem[up], i)) then 0 else Pa(WordAt(mem[up], i))
  }

  ghost predicate Reached(mem: Mem, root: nat, t: nat) {
    exists p :: TablePath(p) && Tbl(mem, root, p) == t
  }

  ghost predicate TablesIn(mem: Mem, root: nat, tables: set<nat>) {
    && (forall t :: t in tables ==> t in mem && t != 0)
    && (forall p :: TablePath(p) && Tbl(mem, root, p) != 0 ==> Tbl(mem, root, p) in tables)
    && root != 0
  }

  /** No table hangs in two places. */
  ghost predicate NoSharing(mem: Mem, root: nat) {
    forall p, q :: TablePath(p) && TablePath(q) && Tbl(mem, root, p) == Tbl(mem, root, q) != 0 ==> p == q
  }

  ghost predicate NoLeak(mem: Mem, root: nat, tables: set<nat>) {
    forall t :: t in tables ==> Reached(mem, root, t)
  }

  /** Entries of the upper two levels lead to tables, entries of the lowest to pages. */
  ghost predicate EntriesOk(mem: Mem, root: nat) {
    forall p, i ::
      TablePath(p) && Tbl(mem, root, p) != 0 && Tbl(mem, root, p) in mem && 0 <= i < WORDS
        && Present(WordAt(mem[Tbl(mem, root, p)], i)) ==>
      && (IsLeaf(WordAt(mem[Tbl(mem, root, p)], i)) <==> |p| == 2)
      && (|p| < 2 ==> Pa(WordAt(mem[Tbl(mem, root, p)], i)) != 0)
  }

  ghost predicate TreeOk(mem: Mem, root: nat, tables: set<nat>) {
    TablesIn(mem, root, tables) && NoSharing(mem, root) && NoLeak(mem, root, tables) && EntriesOk(mem, root)
  }

  /** The leaf entry for a path, 0 when no table reaches it. */
  ghost function Entry(mem: Mem, root: nat, p: seq<nat>): u64
    requires LeafPath(p)
  {
    var t := Tbl(mem, root, p[..2]);
    if t == 0 || t !in mem then 0 else WordAt(mem[t], p[2])
  }

  /** Word i of the table at t, 0 when there is no such table. */
  ghost function WordIn(mem: Mem, t: nat, i: nat): u64
    requires i < WORDS
  {
    if t != 0 && t in mem then WordAt(mem[t], i) else 0
  }

  /** The walk of the hardware: bits 30 to 38 of the address select the word of the root, bits 21 to 29 that of the
      table it leads to, bits 12 to 20 that of the last; a word whose bit 0 is clear leads nowhere. */
  lemma EntryWalk(mem: Mem, root: nat, va: nat)
    requires va < 0x80_0000_0000
    ensures var e2 := WordIn(mem, root, va / 0x4000_0000);
            var e1 := if e2 % 2 == 1 then WordIn(mem, e2 / 0x400 * 0x1000 % 0x1_0000_0000_0000_0000,
                                                 va / 0x20_0000 % 512) else 0;
            var e0 := if e1 % 2 == 1 then WordIn(mem, e1 / 0x400 * 0x1000 % 0x1_0000_0000_0000_0000,
                                                 va / 0x1000 % 512) else 0;
            Entry(mem, root, PathOf(va)) == e0
  {
    var p := PathOf(va);
    assert p[..2][..1] == p[..1] && p[..1][..0] == [] && p[..2][1] == p[1] && p[..1][0] == p[0];
    TblStep(mem, root, p[..1]);
    TblStep(mem, root, p[..2]);
    hide WordAt; hide Tbl; hide WordIn; hide Present; hide Pa;
    assert p[0] == va / 0x4000_0000;
    NoWord(mem);
  }

  lemma TblStep(mem: Mem, root: nat, p: seq<nat>)
    requires p != [] && p[|p| - 1] < WORDS
    ensures var e := WordIn(mem, Tbl(mem, root, p[..|p| - 1]), p[|p| - 1]);
            Tbl(mem, root, p) == if e % 2 == 1 then e / 0x400 * 0x1000 % 0x1_0000_0000_0000_0000 else 0
    ensures |p| == 1 ==> Tbl(mem, root, p[..0]) == root
  {
    hide WordAt;
  }

  lemma NoWord(mem: Mem)
    ensures forall i: nat :: i < WORDS ==> WordIn(mem, 0, i) == 0
  {
  }

  /** Every address translates the same. */
  ghost predicate SameEntries(mem: Mem, mem': Mem, root: nat) {
    forall p :: LeafPath(p) ==> Entry(mem', root, p) == Entry(mem, root, p)
  }

  lemma TblIn(mem: Mem, root: nat, tables: set<nat>, p: seq<nat>)
    requires TreeOk(mem, root, tables) && TablePath(p)
    ensures Tbl(mem, root, p) != 0 ==> Tbl(mem, root, p) in tables && Tbl(mem, root, p) in mem
    ensures root in tables && root in mem && Tbl(mem, root, []) == root
  {
    assert Tbl(mem, root, []) == root;
  }

  lemma Unshared(mem: Mem, root: nat, p: seq<nat>, q: seq<nat>)
    requires NoSharing(mem, root) && TablePath(p) && TablePath(q)
    ensures Tbl(mem, root, p) == Tbl(mem, root, q) != 0 ==> p == q
  {
  }

  // Changes

  lemma {:induction false} TblFrame(mem: Mem, mem': Mem, root: nat, tables: set<nat>, p: seq<nat>)
    requires TablesIn(mem, root, tables) && TablePath(p)
    requires forall t :: t in tables ==> t in mem' && mem'[t] == mem[t]
    ensures Tbl(mem', root, p) == Tbl(mem, root, p)
    decreases |p|
  {
    if p != [] {
      TblFrame(mem, mem', root, tables, p[..|p| - 1]);
    }
  }

  /** Pages that are no tables may change freely. */
  lemma OtherPages(mem: Mem, mem': Mem, root: nat, tables: set<nat>)
    requires TreeOk(mem, root, tables)
    requires forall t :: t in tables ==> t in mem' && mem'[t] == mem[t]
    ensures TreeOk(mem', root, tables) && SameEntries(mem, mem', root)
    ensures forall p :: TablePath(p) ==> Tbl(mem', root, p) == Tbl(mem, root, p)
  {
    hide WordAt; hide Tbl;
    forall p | TablePath(p) ensures Tbl(mem', root, p) == Tbl(mem, root, p) {
      TblFrame(mem, mem', root, tables, p);
    }
    hide TablePath;
    forall t | t in tables ensures Reached(mem', root, t) {
      var p :| TablePath(p) && Tbl(mem, root, p) == t;
      assert Tbl(mem', root, p) == t;
    }
    EntriesFrame(mem, mem', root, tables);
    forall p | LeafPath(p) ensures Entry(mem', root, p) == Entry(mem, root, p) {
      PrefixTable(p);
    }
  }

  lemma PrefixTable(p: seq<nat>)
    requires LeafPath(p)
    ensures TablePath(p[..2]) && |p[..2]| == 2 && p == p[..2] + [p[2]]
  {
  }

  lemma EntriesFrame(mem: Mem, mem': Mem, root: nat, tables: set<nat>)
    requires EntriesOk(mem, root) && TablesIn(mem, root, tables)
    requires forall t :: t in tables ==> t in mem' && mem'[t] == mem[t]
    requires forall p :: TablePath(p) ==> Tbl(mem', root, p) == Tbl(mem, root, p)
    ensures EntriesOk(mem', root)
  {
    hide WordAt; hide Tbl; hide TablePath;
  }

  /** A leaf entry is written: no table moves, and only that address translates differently. */
  lemma {:induction false} TblSetLeaf(mem: Mem, mem': Mem, root: nat, tables: set<nat>, P: seq<nat>, k: nat, v: u64,
      p: seq<nat>)
    requires TreeOk(mem, root, tables) && TablePath(P) && |P| == 2 && k < WORDS && TablePath(p)
    requires var t := Tbl(mem, root, P); t != 0 && t in mem && mem' == mem[t := PutWord(mem[t], k, v)]
    ensures Tbl(mem', root, p) == Tbl(mem, root, p)
    decreases |p|
  {
    hide WordAt; hide PutWord; hide NoLeak; hide EntriesOk;
    if p != [] {
      var up := p[..|p| - 1];
      TblSetLeaf(mem, mem', root, tables, P, k, v, up);
      Unshared(mem, root, P, up);
    }
  }

  lemma SetLeaf(mem: Mem, mem': Mem, root: nat, tables: set<nat>, P: seq<nat>, k: nat, v: u64)
    requires TreeOk(mem, root, tables) && TablePath(P) && |P| == 2 && k < WORDS
    requires var t := Tbl(mem, root, P); t != 0 && t in mem && mem' == mem[t := PutWord(mem[t], k, v)]
    requires Present(v) ==> IsLeaf(v)
    ensures TreeOk(mem', root, tables)
    ensures forall p :: LeafPath(p) ==> Entry(mem', root, p) == if p == P + [k] then v else Entry(mem, root, p)
    ensures forall p :: TablePath(p) ==> Tbl(mem', root, p) == Tbl(mem, root, p)
  {
    hide WordAt; hide PutWord; hide Tbl; hide EntriesOk; hide NoSharing; hide IsLeaf; hide Pa;
    var t := Tbl(mem, root, P);
    forall p | TablePath(p) ensures Tbl(mem', root, p) == Tbl(mem, root, p) {
      TblSetLeaf(mem, mem', root, tables, P, k, v, p);
    }
    PutWordAt(mem[t], k, v);
    hide TablePath;
    forall s | s in tables ensures Reached(mem', root, s) {
      var p :| TablePath(p) && Tbl(mem, root, p) == s;
      assert Tbl(mem', root, p) == s;
    }
    forall p | LeafPath(p) ensures Entry(mem', root, p) == if p == P + [k] then v else Entry(mem, root, p) {
      PrefixTable(p);
      Unshared(mem, root, P, p[..2]);
      assert (P + [k])[..2] == P;
    }
    SetLeafEntries(mem, mem', root, P, k, v);
    SharingFrame(mem, mem', root);
  }

  lemma SharingFrame(mem: Mem, mem': Mem, root: nat)
    requires NoSharing(mem, root) && forall p :: TablePath(p) ==> Tbl(mem', root, p) == Tbl(mem, root, p)
    ensures NoSharing(mem', root)
  {
    hide Tbl; hide TablePath;
  }

  lemma SetLeafEntries(mem: Mem, mem': Mem, root: nat, P: seq<nat>, k: nat, v: u64)
    requires EntriesOk(mem, root) && NoSharing(mem, root) && TablePath(P) && |P| == 2 && k < WORDS
    requires var t := Tbl(mem, root, P); t != 0 && t in mem && mem' == mem[t := PutWord(mem[t], k, v)]
    requires Present(v) ==> IsLeaf(v)
    requires forall p :: TablePath(p) ==> Tbl(mem', root, p) == Tbl(mem, root, p)
    ensures EntriesOk(mem', root)
  {
    hide WordAt; hide PutWord; hide Tbl; hide TablePath; hide IsLeaf; hide Pa;
    PutWordAt(mem[Tbl(mem, root, P)], k, v);
  }

  /** A zeroed page nb is entered at index k of the table at P, in the upper two levels. */
  ghost predicate Attached(mem: Mem, mem': Mem, root: nat, tables: set<nat>, P: seq<nat>, k: nat, nb: nat) {
    && TablePath(P) && |P| < 2 && k < WORDS && Tbl(mem, root, P) in tables && Tbl(mem, root, P) in mem
    && nb !in tables && 0 < nb < 0x100_0000_0000_0000 && nb % PGSIZE == 0
    && !Present(WordAt(mem[Tbl(mem, root, P)], k))
    && mem' == mem[nb := Zeros(PGSIZE)][Tbl(mem, root, P) := PutWord(mem[Tbl(mem, root, P)], k, Pte(nb, 1))]
  }

  lemma {:induction false} TblAttach(mem: Mem, mem': Mem, root: nat, tables: set<nat>, P: seq<nat>, k: nat, nb: nat,
      p: seq<nat>)
    requires TreeOk(mem, root, tables) && Attached(mem, mem', root, tables, P, k, nb) && TablePath(p)
    ensures Tbl(mem', root, p) == if p == P + [k] then nb else Tbl(mem, root, p)
    decreases |p|
  {
    hide WordAt; hide PutWord; hide NoLeak; hide EntriesOk; hide Zeros;
    var t := Tbl(mem, root, P);
    PutWordAt(mem[t], k, Pte(nb, 1));
    PteRoundTrip(nb, 1);
    ZeroWords();
    hide Pte; hide Pa; hide Present;
    if p != [] {
      var up, i := p[..|p| - 1], p[|p| - 1];
      TblAttach(mem, mem', root, tables, P, k, nb, up);
      Unshared(mem, root, P, up);
      assert p == up + [i] && (P + [k])[..|P|] == P;
      assert (P + [k])[|P|] == k;
      AttachStep(mem, mem', root, tables, P, k, nb, up, i);
    }
  }

  /** The words of the two pages that change. */
  lemma AttachWords(mem: Mem, mem': Mem, root: nat, tables: set<nat>, P: seq<nat>, k: nat, nb: nat)
    requires TablesIn(mem, root, tables) && Attached(mem, mem', root, tables, P, k, nb)
    ensures var t := Tbl(mem, root, P);
            && nb != t && nb in mem' && t in mem'
            && (forall i :: 0 <= i < WORDS ==> WordAt(mem'[nb], i) == 0)
            && (forall i :: 0 <= i < WORDS && i != k ==> WordAt(mem'[t], i) == WordAt(mem[t], i))
            && Present(WordAt(mem'[t], k)) && !IsLeaf(WordAt(mem'[t], k)) && Pa(WordAt(mem'[t], k)) == nb
            && (forall x :: x in mem && x != t && x != nb ==> x in mem' && mem'[x] == mem[x])
            && (forall x :: x in mem' ==> x in mem || x == nb)
  {
    hide WordAt; hide PutWord; hide Zeros; hide Tbl;
    PutWordAt(mem[Tbl(mem, root, P)], k, Pte(nb, 1));
    PteRoundTrip(nb, 1);
    ZeroWords();
    hide Pte; hide Pa;
  }

  lemma AttachStep(mem: Mem, mem': Mem, root: nat, tables: set<nat>, P: seq<nat>, k: nat, nb: nat, up: seq<nat>, i: nat)
    requires TablesIn(mem, root, tables) && Attached(mem, mem', root, tables, P, k, nb) && TablePath(up) && i < WORDS
    requires Tbl(mem', root, up) == if up == P + [k] then nb else Tbl(mem, root, up)
    requires Tbl(mem, root, P) == Tbl(mem, root, up) ==> P == up
    requires up == P + [k] ==> Tbl(mem, root, up) == 0
    requires |up| < 2
    ensures Tbl(mem', root, up + [i]) == if up == P && i == k then nb else Tbl(mem, root, up + [i])
  {
    AttachWords(mem, mem', root, tables, P, k, nb);
    hide WordAt; hide Attached; hide Pa; hide IsLeaf; hide TablePath;
    assert (up + [i])[..|up|] == up;
    var t := Tbl(mem, root, up);
    assert t != 0 ==> t in tables;
  }

  /** Entering a fresh zeroed table keeps the tree in order and every translation the same. */
  lemma Attach(mem: Mem, mem': Mem, root: nat, tables: set<nat>, P: seq<nat>, k: nat, nb: nat)
    requires TreeOk(mem, root, tables) && Attached(mem, mem', root, tables, P, k, nb)
    ensures TreeOk(mem', root, tables + {nb}) && SameEntries(mem, mem', root)
    ensures forall p :: TablePath(p) ==> Tbl(mem', root, p) == if p == P + [k] then nb else Tbl(mem, root, p)
    ensures TablePath(P + [k])
  {
    hide WordAt; hide Tbl; hide EntriesOk; hide NoSharing; hide IsLeaf; hide Pa;
    forall p | TablePath(p) ensures Tbl(mem', root, p) == if p == P + [k] then nb else Tbl(mem, root, p) {
      TblAttach(mem, mem', root, tables, P, k, nb, p);
    }
    AttachWords(mem, mem', root, tables, P, k, nb);
    EmptyPlace(mem, root, P, k);
    assert TablePath(P + [k]);
    AttachTables(mem, mem', root, tables, P, k, nb);
    AttachEntries(mem, mem', root, tables, P, k, nb);
    hide TablePath; hide Attached;
    forall p | LeafPath(p) ensures Entry(mem', root, p) == Entry(mem, root, p) {
      PrefixTable(p);
      Unshared(mem, root, P, p[..2]);
      TblIn(mem, root, tables, p[..2]);
    }
  }

  lemma EmptyPlace(mem: Mem, root: nat, P: seq<nat>, k: nat)
    requires TablePath(P) && k < WORDS && Tbl(mem, root, P) in mem && !Present(WordAt(mem[Tbl(mem, root, P)], k))
    ensures Tbl(mem, root, P + [k]) == 0
  {
    assert (P + [k])[..|P|] == P;
  }

  lemma AttachTables(mem: Mem, mem': Mem, root: nat, tables: set<nat>, P: seq<nat>, k: nat, nb: nat)
    requires TreeOk(mem, root, tables) && Attached(mem, mem', root, tables, P, k, nb) && TablePath(P + [k])
             && Tbl(mem, root, P + [k]) == 0
    requires forall p :: TablePath(p) ==> Tbl(mem', root, p) == if p == P + [k] then nb else Tbl(mem, root, p)
    ensures TablesIn(mem', root, tables + {nb}) && NoSharing(mem', root) && NoLeak(mem', root, tables + {nb})
  {
    hide WordAt; hide Tbl; hide EntriesOk; hide TablePath; hide PutWord; hide Pte; hide Present; hide Zeros;
    forall t | t in tables + {nb} ensures Reached(mem', root, t) {
      if t == nb {
        assert Tbl(mem', root, P + [k]) == nb;
      } else {
        var p :| TablePath(p) && Tbl(mem, root, p) == t;
        assert Tbl(mem', root, p) == t;
      }
    }
  }

  lemma AttachEntries(mem: Mem, mem': Mem, root: nat, tables: set<nat>, P: seq<nat>, k: nat, nb: nat)
    requires TreeOk(mem, root, tables) && Attached(mem, mem', root, tables, P, k, nb) && TablePath(P + [k])
             && Tbl(mem, root, P + [k]) == 0
    requires forall p :: TablePath(p) ==> Tbl(mem', root, p) == if p == P + [k] then nb else Tbl(mem, root, p)
    ensures EntriesOk(mem', root)
  {
    AttachWords(mem, mem', root, tables, P, k, nb);
    ShortPath(P, k);
    hide WordAt; hide Tbl; hide PutWord; hide Pte; hide Zeros; hide NoLeak; hide Pa; hide IsLeaf; hide TablePath;
    assert !Present(0);
    hide Present;
  }

  lemma ShortPath(P: seq<nat>, k: nat)
    requires TablePath(P + [k])
    ensures |P| < 2
  {
  }
}
