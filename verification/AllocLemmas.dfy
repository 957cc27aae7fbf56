/** Why the allocators keep the allocation invariant. */
module AllocLemmas {
  import opened Arith
  import opened Bytes
  import opened Bitmap
  import opened Layout

  lemma {:induction false} SumFreeUpdate(gb: seq<Desc>, k: Kind, g: nat, d: Desc)
    requires g < |gb|
    ensures SumFree(gb[g := d], k) == SumFree(gb, k) - Free(gb[g], k) + Free(d, k)
  {
    var n := |gb| - 1;
    if g == n {
      assert gb[g := d][..n] == gb[..n];
    } else {
      SumFreeUpdate(gb[..n], k, g, d);
      assert gb[g := d][..n] == gb[..n][g := d];
    }
  }

  /** No sum of group counts exceeds what the groups can hold. */
  lemma {:induction false} SumFreeBound(gb: seq<Desc>, k: Kind, per: nat)
    requires forall g :: 0 <= g < |gb| ==> Free(gb[g], k) <= per
    ensures SumFree(gb, k) <= Times(|gb|, per)
  {
    if gb != [] {
      SumFreeBound(gb[..|gb| - 1], k, per);
    }
  }

  lemma CountsBound(geo: Geometry, L: seq<Block>, gb: seq<Desc>, k: Kind)
    requires GeometryOk(geo) && |gb| == geo.groups && GroupCounts(geo, L, gb)
    ensures SumFree(gb, k) < 0x1_0000_0000
    ensures forall g :: 0 <= g < |gb| ==> Free(gb[g], k) <= SumFree(gb, k)
  {
    SumFreeBound(gb, k, Per(geo, k));
    assert Times(geo.groups, Per(geo, k)) == Times(geo.groups - 1, Per(geo, k)) + Per(geo, k);
    forall g | 0 <= g < |gb| ensures Free(gb[g], k) <= SumFree(gb, k) {
      PartOfSum(gb, k, g);
    }
  }

  lemma CountsBoundAfter(geo: Geometry, L: seq<Block>, gb: seq<Desc>, k: Kind, g: nat, d: Desc)
    requires GeometryOk(geo) && |gb| == geo.groups && GroupCounts(geo, L, gb)
    requires g < |gb| && Free(d, k) <= Per(geo, k)
    ensures SumFree(gb, k) - Free(gb[g], k) + Free(d, k) < 0x1_0000_0000
  {
    hide ClearCount; hide SumFree;
    var gb' := gb[g := d];
    SumFreeUpdate(gb, k, g, d);
    forall h | 0 <= h < |gb'| ensures Free(gb'[h], k) <= Per(geo, k) {
      assert InGroup(geo, k, h) <= Per(geo, k);
    }
    SumFreeBound(gb', k, Per(geo, k));
    assert Times(geo.groups, Per(geo, k)) == Times(geo.groups - 1, Per(geo, k)) + Per(geo, k);
  }

  lemma {:induction false} PartOfSum(gb: seq<Desc>, k: Kind, g: nat)
    requires g < |gb|
    ensures Free(gb[g], k) <= SumFree(gb, k)
  {
    if g < |gb| - 1 {
      PartOfSum(gb[..|gb| - 1], k, g);
    }
  }

  /** No item from lo up to hi is free. */
  ghost predicate NoneFrom(lo: nat, hi: nat, free: set<nat>) {
    forall x :: lo <= x < hi ==> x !in free
  }

  function Other(k: Kind): Kind {
    if k == Blocks then Inodes else Blocks
  }

  /** The state after group g's map became bm and its descriptor d. */
  ghost predicate Steps(geo: Geometry, role: nat -> Role, L: seq<Block>, gb: seq<Desc>, k: Kind, g: nat, bm: Block,
      d: Desc, total: nat) {
    && GeometryOk(geo) && RolesOk(geo, role, |L|, gb) && g < geo.groups
    && d == WithFree(gb[g], k, Free(d, k))
    && Free(d, k) == ClearCount(bm, InGroup(geo, k, g))
    && total == SumFree(gb, k) - Free(gb[g], k) + Free(d, k)
    && total < 0x1_0000_0000
  }

  lemma UpdatedAt(geo: Geometry, role: nat -> Role, L: seq<Block>, gb: seq<Desc>, k: Kind, g: nat, bm: Block, d: Desc,
      total: u32)
    requires Steps(geo, role, L, gb, k, g, bm, d, total)
    ensures GdtBlock(geo, g) < |L| && Map(d, k) == Map(gb[g], k) < |L|
    ensures var L' := Updated(geo, L, k, g, bm, d, total);
            && L'[Map(d, k)] == bm
            && L'[GdtBlock(geo, g)] == Splice(L[GdtBlock(geo, g)], GdtOffset(g), DescBytes(d))
            && L'[SUPER_BLOCK] == PutU32(L[SUPER_BLOCK], CounterOffset(k), total)
            && forall b :: 0 <= b < |L| && b != Map(d, k) && b != GdtBlock(geo, g) && b != SUPER_BLOCK ==> L'[b] == L[b]
  {
    assert role(Map(gb[g], k)) == BitmapOf(k, g) && role(GdtBlock(geo, g)) == Gdt(g / DESCS_PER_BLOCK);
  }

  /** The descriptor images stay equal to the table in memory. */
  lemma ImagesKept(geo: Geometry, role: nat -> Role, L: seq<Block>, gb: seq<Desc>, k: Kind, g: nat, bm: Block, d: Desc,
      total: u32)
    requires Steps(geo, role, L, gb, k, g, bm, d, total) && GdtImages(geo, L, gb)
    ensures GdtBlock(geo, g) < |L| && Map(d, k) < |L|
    ensures GdtImages(geo, Updated(geo, L, k, g, bm, d, total), gb[g := d])
  {
    hide DescBytes; hide Updated; hide ClearCount; hide InGroup; hide GeometryOk; hide SumFree;
    UpdatedAt(geo, role, L, gb, k, g, bm, d, total);
    var L' := Updated(geo, L, k, g, bm, d, total);
    SpliceBytes(L[GdtBlock(geo, g)], GdtOffset(g), DescBytes(d));
    forall h | 0 <= h < |gb|
      ensures L'[GdtBlock(geo, h)][GdtOffset(h)..GdtOffset(h) + DESC_SIZE] == DescBytes(gb[g := d][h])
    {
      assert role(GdtBlock(geo, h)) == Gdt(h / DESCS_PER_BLOCK);
      if h != g {
        assert L'[GdtBlock(geo, h)][GdtOffset(h)..GdtOffset(h) + DESC_SIZE]
            == L[GdtBlock(geo, h)][GdtOffset(h)..GdtOffset(h) + DESC_SIZE];
      }
    }
  }

  /** Every group's counts stay equal to the clear bits of its maps. */
  lemma GroupCountsKept(geo: Geometry, role: nat -> Role, L: seq<Block>, gb: seq<Desc>, k: Kind, g: nat, bm: Block,
      d: Desc, total: u32)
    requires Steps(geo, role, L, gb, k, g, bm, d, total) && GroupCounts(geo, L, gb)
    ensures GdtBlock(geo, g) < |L| && Map(d, k) < |L|
    ensures GroupCounts(geo, Updated(geo, L, k, g, bm, d, total), gb[g := d])
  {
    UpdatedAt(geo, role, L, gb, k, g, bm, d, total);
    var L', gb' := Updated(geo, L, k, g, bm, d, total), gb[g := d];
    forall h, j: Kind | 0 <= h < |gb|
      ensures Map(gb'[h], j) < |L'| && Free(gb'[h], j) == ClearCount(L'[Map(gb'[h], j)], InGroup(geo, j, h))
    {
      assert Map(gb'[h], j) == Map(gb[h], j);
      assert role(Map(gb[h], j)) == BitmapOf(j, h) && role(Map(gb[g], k)) == BitmapOf(k, g);
      if h != g || j != k {
        assert L'[Map(gb[h], j)] == L[Map(gb[h], j)];
        assert Free(gb'[h], j) == Free(gb[h], j);
      }
    }
  }

  /** The superblock's counters stay equal to the sums over the groups. */
  lemma SuperCountsKept(geo: Geometry, role: nat -> Role, L: seq<Block>, gb: seq<Desc>, k: Kind, g: nat, bm: Block,
      d: Desc, total: u32)
    requires Steps(geo, role, L, gb, k, g, bm, d, total) && SuperCounts(L, gb)
    ensures GdtBlock(geo, g) < |L| && Map(d, k) < |L|
    ensures SuperCounts(Updated(geo, L, k, g, bm, d, total), gb[g := d])
  {
    UpdatedAt(geo, role, L, gb, k, g, bm, d, total);
    var L', gb' := Updated(geo, L, k, g, bm, d, total), gb[g := d];
    forall j: Kind
      ensures U32At(L'[SUPER_BLOCK], CounterOffset(j)) == SumFree(gb', j)
    {
      SumFreeUpdate(gb, j, g, d);
      PutU32Get(L[SUPER_BLOCK], CounterOffset(k), total);
      if j != k {
        FieldFrame(L'[SUPER_BLOCK], L[SUPER_BLOCK], CounterOffset(j), 4);
      }
    }
  }

  /** Which items are in use afterwards: those of group g by the new map, all others as before. */
  lemma ItemsAfter(geo: Geometry, role: nat -> Role, L: seq<Block>, gb: seq<Desc>, k: Kind, g: nat, bm: Block, d: Desc,
      total: u32, j: Kind, x: nat)
    requires Steps(geo, role, L, gb, k, g, bm, d, total) && x < Total(geo, j)
    ensures GdtBlock(geo, g) < |L| && Map(d, k) < |L|
    ensures ItemUsed(geo, Updated(geo, L, k, g, bm, d, total), gb[g := d], j, x)
       <==> if j == k && GroupOf(geo, j, x) == g then BmBit(bm, BitOf(geo, j, x)) else ItemUsed(geo, L, gb, j, x)
  {
    UpdatedAt(geo, role, L, gb, k, g, bm, d, total);
    var h := GroupOf(geo, j, x);
    assert role(Map(gb[h], j)) == BitmapOf(j, h) && role(Map(gb[g], k)) == BitmapOf(k, g);
    assert Map(gb[g := d][h], j) == Map(gb[h], j);
  }

  lemma OneItem(geo: Geometry, role: nat -> Role, L: seq<Block>, gb: seq<Desc>, k: Kind, g: nat, bm: Block, d: Desc,
      total: u32, bit: nat, x: nat, j: Kind, y: nat)
    requires Steps(geo, role, L, gb, k, g, bm, d, total)
    requires bit < InGroup(geo, k, g) && x == Times(g, Per(geo, k)) + bit && y < Total(geo, j)
    requires forall i :: 0 <= i < BITS && i != bit ==> (BmBit(bm, i) <==> BmBit(L[Map(gb[g], k)], i))
    ensures GdtBlock(geo, g) < |L| && Map(d, k) < |L|
    ensures ItemUsed(geo, Updated(geo, L, k, g, bm, d, total), gb[g := d], j, y)
       <==> if j == k && y == x then BmBit(bm, bit) else ItemUsed(geo, L, gb, j, y)
  {
    hide Updated; hide InGroup; hide ClearCount;
    ItemsAfter(geo, role, L, gb, k, g, bm, d, total, j, y);
    ItemInGroup(geo, j, y);
    GroupItem(geo, k, g, bit);
  }

  /** Flipping bit `bit` of group g's map flips item x = g * per + bit and nothing else. */
  lemma OneItemFlips(geo: Geometry, role: nat -> Role, L: seq<Block>, gb: seq<Desc>, k: Kind, g: nat, bm: Block,
      d: Desc, total: u32, bit: nat, x: nat, j: Kind)
    requires Steps(geo, role, L, gb, k, g, bm, d, total)
    requires bit < InGroup(geo, k, g) && x == Times(g, Per(geo, k)) + bit
    requires forall i :: 0 <= i < BITS && i != bit ==> (BmBit(bm, i) <==> BmBit(L[Map(gb[g], k)], i))
    ensures x < Total(geo, k) && GdtBlock(geo, g) < |L| && Map(d, k) < |L|
    ensures FreeItems(geo, Updated(geo, L, k, g, bm, d, total), gb[g := d], j)
         == Flipped(FreeItems(geo, L, gb, j), if j == k then {x} else {}, BmBit(bm, bit))
  {
    hide Updated; hide InGroup; hide ClearCount; hide ItemUsed; hide BmBit; hide FreeItems;
    GroupItem(geo, k, g, bit);
    UpdatedAt(geo, role, L, gb, k, g, bm, d, total);
    var L' := Updated(geo, L, k, g, bm, d, total);
    var after, expected := FreeItems(geo, L', gb[g := d], j),
      Flipped(FreeItems(geo, L, gb, j), if j == k then {x} else {}, BmBit(bm, bit));
    forall y: nat
      ensures y in after <==> y in expected
    {
      IsFreeItem(geo, L, gb, j, y);
      IsFreeItem(geo, L', gb[g := d], j, y);
      if y < Total(geo, j) {
        OneItem(geo, role, L, gb, k, g, bm, d, total, bit, x, j, y);
      }
    }
  }

  lemma IsFreeItem(geo: Geometry, L: seq<Block>, gb: seq<Desc>, k: Kind, x: nat)
    requires GeometryOk(geo) && |gb| == geo.groups
    ensures x in FreeItems(geo, L, gb, k) <==> x < Total(geo, k) && !ItemUsed(geo, L, gb, k, x)
  {
  }

  /** The free set without the items xs, or with them. */
  ghost function Flipped(free: set<nat>, xs: set<nat>, used: bool): set<nat> {
    if used then free - xs else free + xs
  }

  lemma RolesKept(geo: Geometry, role: nat -> Role, n: nat, gb: seq<Desc>, k: Kind, g: nat, d: Desc)
    requires RolesOk(geo, role, n, gb) && g < geo.groups && d == WithFree(gb[g], k, Free(d, k))
    ensures RolesOk(geo, role, n, gb[g := d])
  {
    var gb' := gb[g := d];
    forall h, j: Kind | 0 <= h < |gb|
      ensures Map(gb'[h], j) < n && role(Map(gb'[h], j)) == BitmapOf(j, h)
    {
      assert Map(gb'[h], j) == Map(gb[h], j);
    }
  }

  /** Any such step keeps the invariant as long as metadata stays marked used. */
  lemma StepKeeps(geo: Geometry, role: nat -> Role, L: seq<Block>, gb: seq<Desc>, k: Kind, g: nat, bm: Block, d: Desc,
      total: u32)
    requires AllocInv(geo, role, L, gb) && Steps(geo, role, L, gb, k, g, bm, d, total)
    requires Map(d, k) < |L| && GdtBlock(geo, g) < |L|
    requires MetaUsed(geo, role, FreeItems(geo, Updated(geo, L, k, g, bm, d, total), gb[g := d], Blocks))
    ensures AllocInv(geo, role, Updated(geo, L, k, g, bm, d, total), gb[g := d])
  {
    hide Updated; hide RolesOk; hide FreeItems;
    hide GdtImages; hide GroupCounts; hide SuperCounts; hide MetaUsed;
    ImagesKept(geo, role, L, gb, k, g, bm, d, total);
    GroupCountsKept(geo, role, L, gb, k, g, bm, d, total);
    SuperCountsKept(geo, role, L, gb, k, g, bm, d, total);
    RolesKept(geo, role, |L|, gb, k, g, d);
  }

  /** A clear bit means the group's count is positive, and taking it is a step. */
  lemma TakeSteps(geo: Geometry, role: nat -> Role, L: seq<Block>, gb: seq<Desc>, k: Kind, g: nat, bit: nat)
    requires AllocInv(geo, role, L, gb) && g < geo.groups && bit < InGroup(geo, k, g)
    requires !BmBit(L[Map(gb[g], k)], bit)
    ensures Free(gb[g], k) > 0 && 0 < SumFree(gb, k) < 0x1_0000_0000
    ensures Steps(geo, role, L, gb, k, g, BmSet(L[Map(gb[g], k)], bit), WithFree(gb[g], k, Free(gb[g], k) - 1),
            SumFree(gb, k) - 1)
  {
    BmSetBits(L[Map(gb[g], k)], bit);
    CountDiffer(L[Map(gb[g], k)], BmSet(L[Map(gb[g], k)], bit), bit, InGroup(geo, k, g));
    CountsBound(geo, L, gb, k);
  }

  /** A set bit leaves room in the 16-bit count and the 32-bit total, and clearing it is a step. */
  lemma GiveSteps(geo: Geometry, role: nat -> Role, L: seq<Block>, gb: seq<Desc>, k: Kind, g: nat, bit: nat)
    requires AllocInv(geo, role, L, gb) && g < geo.groups && bit < InGroup(geo, k, g)
    requires BmBit(L[Map(gb[g], k)], bit)
    ensures Free(gb[g], k) + 1 < 0x1_0000 && SumFree(gb, k) + 1 < 0x1_0000_0000
    ensures Steps(geo, role, L, gb, k, g, BmClear(L[Map(gb[g], k)], bit), WithFree(gb[g], k, Free(gb[g], k) + 1),
            SumFree(gb, k) + 1)
  {
    BmClearBits(L[Map(gb[g], k)], bit);
    CountDiffer(BmClear(L[Map(gb[g], k)], bit), L[Map(gb[g], k)], bit, InGroup(geo, k, g));
    CountsBoundAfter(geo, L, gb, k, g, WithFree(gb[g], k, Free(gb[g], k) + 1));
  }

  /** Taking item x: the writes keep the invariant and take x alone out of the free items. */
  lemma TakeKeeps(geo: Geometry, role: nat -> Role, L: seq<Block>, gb: seq<Desc>, k: Kind, g: nat, bit: nat, x: nat)
    requires AllocInv(geo, role, L, gb) && g < geo.groups && bit < InGroup(geo, k, g)
             && x == Times(g, Per(geo, k)) + bit
    requires !BmBit(L[Map(gb[g], k)], bit)
    ensures Free(gb[g], k) > 0 && 0 < SumFree(gb, k) < 0x1_0000_0000
    ensures x < Total(geo, k) && GdtBlock(geo, g) < |L|
    ensures var d := WithFree(gb[g], k, Free(gb[g], k) - 1);
            Map(d, k) == Map(gb[g], k) &&
            var L' := Updated(geo, L, k, g, BmSet(L[Map(d, k)], bit), d, SumFree(gb, k) - 1);
            && AllocInv(geo, role, L', gb[g := d])
            && forall j: Kind ::
               FreeItems(geo, L', gb[g := d], j) == FreeItems(geo, L, gb, j) - if j == k then {x} else {}
  {
    hide Updated; hide FreeItems; hide Committed;
    hide GdtImages; hide GroupCounts; hide SuperCounts; hide InGroup; hide ClearCount; hide BmBit;
    GroupItem(geo, k, g, bit);
    TakeSteps(geo, role, L, gb, k, g, bit);
    var bm := BmSet(L[Map(gb[g], k)], bit);
    var d, total := WithFree(gb[g], k, Free(gb[g], k) - 1), SumFree(gb, k) - 1;
    BmSetBits(L[Map(gb[g], k)], bit);
    assert BmBit(bm, bit);
    forall j: Kind
      ensures FreeItems(geo, Updated(geo, L, k, g, bm, d, total), gb[g := d], j)
           == FreeItems(geo, L, gb, j) - if j == k then {x} else {}
    {
      OneItemFlips(geo, role, L, gb, k, g, bm, d, total, bit, x, j);
    }
    StepKeeps(geo, role, L, gb, k, g, bm, d, total);
  }

  /** Giving back an item in use that no metadata occupies. */
  lemma GiveKeeps(geo: Geometry, role: nat -> Role, L: seq<Block>, gb: seq<Desc>, k: Kind, g: nat, bit: nat, x: nat)
    requires AllocInv(geo, role, L, gb) && g < geo.groups && bit < InGroup(geo, k, g)
             && x == Times(g, Per(geo, k)) + bit
    requires BmBit(L[Map(gb[g], k)], bit)
    requires k == Blocks ==> role(geo.firstDataBlock + x) == Data
    ensures Free(gb[g], k) + 1 < 0x1_0000 && SumFree(gb, k) + 1 < 0x1_0000_0000
    ensures x < Total(geo, k) && GdtBlock(geo, g) < |L|
    ensures var d := WithFree(gb[g], k, Free(gb[g], k) + 1);
            Map(d, k) == Map(gb[g], k) &&
            var L' := Updated(geo, L, k, g, BmClear(L[Map(d, k)], bit), d, SumFree(gb, k) + 1);
            && AllocInv(geo, role, L', gb[g := d])
            && forall j: Kind ::
               FreeItems(geo, L', gb[g := d], j) == FreeItems(geo, L, gb, j) + if j == k then {x} else {}
  {
    hide Updated; hide FreeItems; hide Committed;
    hide GdtImages; hide GroupCounts; hide SuperCounts; hide InGroup; hide ClearCount; hide BmBit;
    GroupItem(geo, k, g, bit);
    GiveSteps(geo, role, L, gb, k, g, bit);
    var bm := BmClear(L[Map(gb[g], k)], bit);
    var d, total := WithFree(gb[g], k, Free(gb[g], k) + 1), SumFree(gb, k) + 1;
    BmClearBits(L[Map(gb[g], k)], bit);
    assert !BmBit(bm, bit);
    forall j: Kind
      ensures FreeItems(geo, Updated(geo, L, k, g, bm, d, total), gb[g := d], j)
           == FreeItems(geo, L, gb, j) + if j == k then {x} else {}
    {
      OneItemFlips(geo, role, L, gb, k, g, bm, d, total, bit, x, j);
    }
    StepKeeps(geo, role, L, gb, k, g, bm, d, total);
  }

  /** A group whose count is zero has no free item. */
  lemma EmptyGroup(geo: Geometry, role: nat -> Role, L: seq<Block>, gb: seq<Desc>, k: Kind, g: nat)
    requires AllocInv(geo, role, L, gb) && g < geo.groups
    ensures Map(gb[g], k) < |L| && Map(gb[g], k) != SUPER_BLOCK && GdtBlock(geo, g) < |L| && InGroup(geo, k, g) <= BITS
    ensures Free(gb[g], k) == 0 ==> forall i :: 0 <= i < InGroup(geo, k, g) ==> BmBit(L[Map(gb[g], k)], i)
  {
    CountZero(L[Map(gb[g], k)], InGroup(geo, k, g));
  }

  /** Bit i of group g is the bit of item g * per + i. */
  lemma ItemBit(geo: Geometry, role: nat -> Role, L: seq<Block>, gb: seq<Desc>, k: Kind, g: nat, i: nat)
    requires AllocInv(geo, role, L, gb) && g < geo.groups && i < InGroup(geo, k, g)
    ensures Map(gb[g], k) < |L| && i < BITS && Times(g, Per(geo, k)) + i < Total(geo, k)
    ensures ItemUsed(geo, L, gb, k, Times(g, Per(geo, k)) + i) <==> BmBit(L[Map(gb[g], k)], i)
  {
    hide GdtImages; hide GroupCounts; hide SuperCounts; hide MetaUsed; hide BmBit;
    GroupItem(geo, k, g, i);
  }

  /** When every bit of group g below `bit` is set, no item from the group's start up to there is free. */
  lemma NoFreeBefore(geo: Geometry, role: nat -> Role, L: seq<Block>, gb: seq<Desc>, k: Kind, g: nat, bit: nat)
    requires AllocInv(geo, role, L, gb) && g < geo.groups && bit <= InGroup(geo, k, g) && Map(gb[g], k) < |L|
    requires forall i :: 0 <= i < bit && i < BITS ==> BmBit(L[Map(gb[g], k)], i)
    ensures NoneFrom(Times(g, Per(geo, k)), Times(g, Per(geo, k)) + bit, FreeItems(geo, L, gb, k))
  {
    hide RolesOk; hide GdtImages; hide GroupCounts; hide SuperCounts; hide MetaUsed; hide ItemUsed; hide BmBit;
    hide InGroup;
    var t := Times(g, Per(geo, k));
    forall x | t <= x < t + bit
      ensures x !in FreeItems(geo, L, gb, k)
    {
      ItemBit(geo, role, L, gb, k, g, x - t);
    }
  }

  /** The end of group g is the start of the next, or the end of all items. */
  lemma GroupEnd(geo: Geometry, k: Kind, g: nat)
    requires GeometryOk(geo) && g < geo.groups
    ensures var e := Times(g, Per(geo, k)) + InGroup(geo, k, g);
            e == Times(g + 1, Per(geo, k)) || e == Total(geo, k) <= Times(g + 1, Per(geo, k))
  {
  }

  /** The superblock's count is the number of free items. */
  lemma CounterIsCardinality(geo: Geometry, role: nat -> Role, L: seq<Block>, gb: seq<Desc>, k: Kind)
    requires AllocInv(geo, role, L, gb)
    ensures U32At(L[SUPER_BLOCK], CounterOffset(k)) == |FreeItems(geo, L, gb, k)|
  {
    FreeBelowSum(geo, role, L, gb, k, geo.groups);
    assert FreeBelow(geo, L, gb, k, Times(geo.groups, Per(geo, k))) == FreeItems(geo, L, gb, k);
    assert gb[..geo.groups] == gb;
  }

  ghost function FreeBelow(geo: Geometry, L: seq<Block>, gb: seq<Desc>, k: Kind, n: nat): set<nat>
    requires GeometryOk(geo) && |gb| == geo.groups
  {
    set x | 0 <= x < n && x < Total(geo, k) && !ItemUsed(geo, L, gb, k, x)
  }

  lemma FreeBelowStep(geo: Geometry, L: seq<Block>, gb: seq<Desc>, k: Kind, x: nat)
    requires GeometryOk(geo) && |gb| == geo.groups && x < Total(geo, k)
    ensures |FreeBelow(geo, L, gb, k, x + 1)| ==
            |FreeBelow(geo, L, gb, k, x)| + if ItemUsed(geo, L, gb, k, x) then 0 else 1
  {
    hide ItemUsed; hide GeometryOk;
    var less := FreeBelow(geo, L, gb, k, x);
    assert FreeBelow(geo, L, gb, k, x + 1) == if ItemUsed(geo, L, gb, k, x) then less else less + {x};
  }

  lemma CountedFree(geo: Geometry, role: nat -> Role, L: seq<Block>, gb: seq<Desc>, k: Kind, g: nat)
    requires AllocInv(geo, role, L, gb) && g < |gb|
    ensures Map(gb[g], k) < |L| && InGroup(geo, k, g) <= BITS
    ensures Free(gb[g], k) == ClearCount(L[Map(gb[g], k)], InGroup(geo, k, g))
  {
  }

  lemma {:induction false} FreeBelowSum(geo: Geometry, role: nat -> Role, L: seq<Block>, gb: seq<Desc>, k: Kind, g: nat)
    requires AllocInv(geo, role, L, gb) && g <= geo.groups
    ensures |FreeBelow(geo, L, gb, k, Times(g, Per(geo, k)))| == SumFree(gb[..g], k)
  {
    hide AllocInv; hide FreeBelow; hide InGroup; hide ClearCount; hide GeometryOk; hide Times; hide SumFree;
    AllocFacts(geo, role, L, gb);
    if g == 0 {
      NoneBelow(geo, L, gb, k);
    } else {
      CountedFree(geo, role, L, gb, k, g - 1);
      FreeBelowSum(geo, role, L, gb, k, g - 1);
      FreeInGroup(geo, role, L, gb, k, g - 1, InGroup(geo, k, g - 1));
      FreeBelowGroup(geo, L, gb, k, g - 1, g);
      SumOneMore(gb, k, g);
    }
  }

  lemma SumOneMore(gb: seq<Desc>, k: Kind, g: nat)
    requires 0 < g <= |gb|
    ensures SumFree(gb[..g], k) == SumFree(gb[..g - 1], k) + Free(gb[g - 1], k)
  {
    assert gb[..g][..g - 1] == gb[..g - 1];
  }

  lemma NoneBelow(geo: Geometry, L: seq<Block>, gb: seq<Desc>, k: Kind)
    requires GeometryOk(geo) && |gb| == geo.groups
    ensures FreeBelow(geo, L, gb, k, Times(0, Per(geo, k))) == {} && SumFree(gb[..0], k) == 0
  {
  }

  lemma FreeBelowGroup(geo: Geometry, L: seq<Block>, gb: seq<Desc>, k: Kind, g: nat, next: nat)
    requires GeometryOk(geo) && |gb| == geo.groups && g < geo.groups && next == g + 1
    ensures FreeBelow(geo, L, gb, k, Times(next, Per(geo, k)))
         == FreeBelow(geo, L, gb, k, Times(g, Per(geo, k)) + InGroup(geo, k, g))
  {
    hide GeometryOk; hide FreeBelow; hide Times; hide InGroup;
    GroupEnd(geo, k, g);
    FreeBelowEnd(geo, L, gb, k, Times(next, Per(geo, k)), Times(g, Per(geo, k)) + InGroup(geo, k, g));
  }

  /** Behind the last item there is nothing more to count. */
  lemma FreeBelowEnd(geo: Geometry, L: seq<Block>, gb: seq<Desc>, k: Kind, n: nat, m: nat)
    requires GeometryOk(geo) && |gb| == geo.groups && (n == m || (n >= Total(geo, k) && m >= Total(geo, k)))
    ensures FreeBelow(geo, L, gb, k, n) == FreeBelow(geo, L, gb, k, m)
  {
    hide ItemUsed;
  }

  lemma {:induction false} FreeInGroup(geo: Geometry, role: nat -> Role, L: seq<Block>, gb: seq<Desc>, k: Kind, g: nat,
      n: nat)
    requires AllocInv(geo, role, L, gb) && g < geo.groups && n <= InGroup(geo, k, g) && Map(gb[g], k) < |L|
    ensures |FreeBelow(geo, L, gb, k, Times(g, Per(geo, k)) + n)|
         == |FreeBelow(geo, L, gb, k, Times(g, Per(geo, k)))| + ClearCount(L[Map(gb[g], k)], n)
  {
    hide RolesOk; hide GdtImages; hide GroupCounts; hide SuperCounts; hide MetaUsed; hide ItemUsed; hide InGroup;
    hide BmBit;
    hide FreeBelow; hide Times;
    if n > 0 {
      FreeInGroup(geo, role, L, gb, k, g, n - 1);
      ItemBit(geo, role, L, gb, k, g, n - 1);
      FreeBelowStep(geo, L, gb, k, Times(g, Per(geo, k)) + n - 1);
    }
  }

  /** The parts of the invariant the allocators' code relies on directly. */
  lemma AllocFacts(geo: Geometry, role: nat -> Role, L: seq<Block>, gb: seq<Desc>)
    requires AllocInv(geo, role, L, gb)
    ensures GeometryOk(geo) && |gb| == geo.groups && |L| >= geo.blocksCount
    ensures forall k: Kind :: U32At(L[SUPER_BLOCK], CounterOffset(k)) == SumFree(gb, k)
  {
  }

  /** The 32-bit arithmetic of the allocators does not wrap, and gives the start and size of group g. */
  lemma GroupArithmetic(geo: Geometry, k: Kind, g: nat)
    requires GeometryOk(geo) && g < geo.groups
    ensures g * Per(geo, k) == Times(g, Per(geo, k)) < Total(geo, k)
    ensures Total(geo, k) + Per(geo, k) < 0x1_0000_0000
    ensures k == Blocks ==> geo.firstDataBlock + Total(geo, k) + Per(geo, k) < 0x1_0000_0000
    ensures InGroup(geo, k, g) == if Times(g, Per(geo, k)) + Per(geo, k) > Total(geo, k)
                                  then Total(geo, k) - Times(g, Per(geo, k)) else Per(geo, k)
  {
    TimesIsProduct(g, Per(geo, k));
    TimesMonotone(g, geo.groups - 1, Per(geo, k));
  }

  /** Free items lie below the end of the last group, and block 0 is never free. */
  lemma FreeItemsRange(geo: Geometry, role: nat -> Role, L: seq<Block>, gb: seq<Desc>, k: Kind)
    requires AllocInv(geo, role, L, gb)
    ensures forall x :: x in FreeItems(geo, L, gb, k) ==> 0 <= x < Total(geo, k) <= Times(geo.groups, Per(geo, k))
    ensures forall x :: x in FreeItems(geo, L, gb, Blocks) ==> geo.firstDataBlock + x != 0
  {
  }

  lemma CountOfGroup(geo: Geometry, role: nat -> Role, L: seq<Block>, gb: seq<Desc>, k: Kind, g: nat)
    requires AllocInv(geo, role, L, gb) && g < geo.groups
    ensures Map(gb[g], k) < |L| && InGroup(geo, k, g) <= BITS
    ensures Free(gb[g], k) == ClearCount(L[Map(gb[g], k)], InGroup(geo, k, g))
    ensures GdtBlock(geo, g) < |L| && L[GdtBlock(geo, g)][GdtOffset(g)..GdtOffset(g) + DESC_SIZE] == DescBytes(gb[g])
  {
    hide SuperCounts; hide MetaUsed; hide DescBytes; hide ClearCount;
  }

  /** Which bit says that an item is free. */
  lemma FreeItemBit(geo: Geometry, role: nat -> Role, L: seq<Block>, gb: seq<Desc>, k: Kind, g: nat, i: nat)
    requires AllocInv(geo, role, L, gb) && i < Per(geo, k) && g * Per(geo, k) + i < Total(geo, k)
    ensures g < |gb| && Map(gb[g], k) < |L| && i / 8 < BLKSZ
    ensures g * Per(geo, k) + i in FreeItems(geo, L, gb, k) <==> !ByteBit(L[Map(gb[g], k)][i / 8], i % 8)
  {
    hide ByteBit; hide GdtImages; hide GroupCounts; hide SuperCounts; hide MetaUsed; hide BmBit; hide GroupOf;
    hide BitOf;
    TimesIsProduct(g, Per(geo, k));
    ItemPlace(geo, k, g, i);
    BitBytes(L[Map(gb[g], k)], i);
  }

  /** The writes touch nothing but superblock, descriptor table and that bitmap. */
  lemma UpdatedOutside(geo: Geometry, role: nat -> Role, L: seq<Block>, gb: seq<Desc>, k: Kind, g: nat, bm: Block,
      d: Desc, total: u32)
    requires AllocInv(geo, role, L, gb) && g < geo.groups && Map(d, k) == Map(gb[g], k) < |L| && GdtBlock(geo, g) < |L|
    ensures SameOutsideAllocator(L, Updated(geo, L, k, g, bm, d, total), role)
  {
    hide GdtImages; hide GroupCounts; hide SuperCounts; hide MetaUsed; hide DescBytes; hide GeometryOk;
  }

  lemma NothingBefore(n: nat)
    ensures Times(0, n) == 0
  {
  }

  /** Group g exhausted: nothing is free up to the start of the next group. */
  lemma WholeGroup(geo: Geometry, role: nat -> Role, L: seq<Block>, gb: seq<Desc>, k: Kind, g: nat)
    requires AllocInv(geo, role, L, gb) && g < geo.groups
    requires NoneFrom(Times(g, Per(geo, k)), Times(g, Per(geo, k)) + InGroup(geo, k, g), FreeItems(geo, L, gb, k))
    ensures NoneFrom(Times(g, Per(geo, k)), Times(g + 1, Per(geo, k)), FreeItems(geo, L, gb, k))
  {
    hide RolesOk; hide GdtImages; hide GroupCounts; hide SuperCounts; hide MetaUsed; hide ItemUsed;
    FreeItemsRange(geo, role, L, gb, k);
    GroupEnd(geo, k, g);
    hide FreeItems; hide InGroup; hide Times; hide GeometryOk;
  }

  lemma SameOutsideSelf(L: seq<Block>, role: nat -> Role)
    ensures SameOutsideAllocator(L, L, role)
  {
  }

  /** An item of group g that is not free has its bit set. */
  lemma UsedBit(geo: Geometry, role: nat -> Role, L: seq<Block>, gb: seq<Desc>, k: Kind, g: nat, bit: nat)
    requires AllocInv(geo, role, L, gb) && g < geo.groups && bit < InGroup(geo, k, g)
    requires Times(g, Per(geo, k)) + bit !in FreeItems(geo, L, gb, k)
    ensures Map(gb[g], k) < |L| && bit < BITS && BmBit(L[Map(gb[g], k)], bit)
  {
    hide RolesOk; hide GdtImages; hide GroupCounts; hide SuperCounts; hide MetaUsed; hide ItemUsed; hide InGroup;
    hide BmBit;
    ItemBit(geo, role, L, gb, k, g, bit);
  }

  /** Where the release functions find item x. */
  lemma UsedItem(geo: Geometry, role: nat -> Role, L: seq<Block>, gb: seq<Desc>, k: Kind, x: nat)
    requires AllocInv(geo, role, L, gb) && x < Total(geo, k)
    ensures Per(geo, k) > 0 && x / Per(geo, k) < geo.groups
    ensures x % Per(geo, k) < InGroup(geo, k, x / Per(geo, k))
    ensures Times(x / Per(geo, k), Per(geo, k)) + x % Per(geo, k) == x
  {
    hide RolesOk; hide GdtImages; hide GroupCounts; hide SuperCounts; hide MetaUsed;
    ItemInGroup(geo, k, x);
    assert GroupOf(geo, k, x) == x / Per(geo, k);
  }

  /** The first clear bit of group g is its first free item. */
  lemma FirstClear(geo: Geometry, role: nat -> Role, L: seq<Block>, gb: seq<Desc>, k: Kind, g: nat, bit: nat)
    requires AllocInv(geo, role, L, gb) && g < geo.groups && bit < InGroup(geo, k, g) && Map(gb[g], k) < |L|
    requires !BmBit(L[Map(gb[g], k)], bit) && forall i :: 0 <= i < bit ==> BmBit(L[Map(gb[g], k)], i)
    ensures Times(g, Per(geo, k)) + bit in FreeItems(geo, L, gb, k)
    ensures NoneFrom(Times(g, Per(geo, k)), Times(g, Per(geo, k)) + bit, FreeItems(geo, L, gb, k))
  {
    hide RolesOk; hide GdtImages; hide GroupCounts; hide SuperCounts; hide MetaUsed; hide ItemUsed; hide InGroup;
    hide BmBit;
    ItemBit(geo, role, L, gb, k, g, bit);
    NoFreeBefore(geo, role, L, gb, k, g, bit);
  }

  /** A free block is a data block, and taking it makes it one in use. */
  lemma FreeIsData(geo: Geometry, role: nat -> Role, L: seq<Block>, gb: seq<Desc>, b: nat)
    requires AllocInv(geo, role, L, gb) && geo.firstDataBlock <= b
             && b - geo.firstDataBlock in FreeItems(geo, L, gb, Blocks)
    ensures 0 < b < geo.blocksCount <= |L| && role(b) == Data
    ensures var free := FreeItems(geo, L, gb, Blocks);
            && b !in UsedData(geo, role, free)
            && UsedData(geo, role, free - {b - geo.firstDataBlock}) == UsedData(geo, role, free) + {b}
  {
    hide ItemUsed; hide GdtImages; hide GroupCounts; hide SuperCounts;
    FreeItemsRange(geo, role, L, gb, Blocks);
    hide FreeItems;
    UsedWithout(geo, role, FreeItems(geo, L, gb, Blocks), b);
  }

  lemma UsedWithout(geo: Geometry, role: nat -> Role, free: set<nat>, b: nat)
    requires geo.firstDataBlock <= b < geo.blocksCount && role(b) == Data && b - geo.firstDataBlock in free
    ensures b !in UsedData(geo, role, free)
    ensures UsedData(geo, role, free - {b - geo.firstDataBlock}) == UsedData(geo, role, free) + {b}
  {
  }

  /** Blocks of the allocator are none of those others write. */
  lemma OtherBlocks(geo: Geometry, role: nat -> Role, L: seq<Block>, gb: seq<Desc>, b: nat)
    requires RolesOk(geo, role, |L|, gb) && b < |L| && NotAllocator(role(b))
    ensures b != SUPER_BLOCK
    ensures forall g :: 0 <= g < |gb| ==> GdtBlock(geo, g) != b
    ensures forall g, k: Kind :: 0 <= g < |gb| ==> Map(gb[g], k) < |L| && Map(gb[g], k) != b
  {
    hide GdtBlock;
  }

  lemma OtherCounts(geo: Geometry, L: seq<Block>, gb: seq<Desc>, b: nat, data: Block)
    requires GeometryOk(geo) && |gb| == geo.groups && b < |L| && GroupCounts(geo, L, gb)
    requires forall g, k: Kind :: 0 <= g < |gb| ==> Map(gb[g], k) < |L| && Map(gb[g], k) != b
    ensures GroupCounts(geo, L[b := data], gb)
  {
    hide ClearCount; hide Free;
    forall g, k: Kind | 0 <= g < |gb|
      ensures Map(gb[g], k) < |L| && Free(gb[g], k) == ClearCount(L[b := data][Map(gb[g], k)], InGroup(geo, k, g))
    {
      assert L[b := data][Map(gb[g], k)] == L[Map(gb[g], k)];
    }
  }

  lemma OtherItems(geo: Geometry, L: seq<Block>, gb: seq<Desc>, b: nat, data: Block, k: Kind)
    requires GeometryOk(geo) && |gb| == geo.groups && b < |L|
    requires forall g, k: Kind :: 0 <= g < |gb| ==> Map(gb[g], k) < |L| && Map(gb[g], k) != b
    ensures FreeItems(geo, L[b := data], gb, k) == FreeItems(geo, L, gb, k)
  {
    hide BmBit; hide Map;
    forall x: nat | x < Total(geo, k) ensures ItemUsed(geo, L[b := data], gb, k, x) == ItemUsed(geo, L, gb, k, x) {
      ItemInGroup(geo, k, x);
      assert L[b := data][Map(gb[GroupOf(geo, k, x)], k)] == L[Map(gb[GroupOf(geo, k, x)], k)];
    }
    hide ItemUsed; hide GeometryOk;
  }

  /** Writes to file data and to the inode table do not concern the allocators. */
  lemma OtherWriteKeeps(geo: Geometry, role: nat -> Role, L: seq<Block>, gb: seq<Desc>, b: nat, data: Block)
    requires AllocInv(geo, role, L, gb) && b < |L| && NotAllocator(role(b))
    ensures AllocInv(geo, role, L[b := data], gb)
    ensures forall k: Kind :: FreeItems(geo, L[b := data], gb, k) == FreeItems(geo, L, gb, k)
  {
    OtherBlocks(geo, role, L, gb, b);
    OtherCounts(geo, L, gb, b, data);
    OtherItems(geo, L, gb, b, data, Blocks);
    OtherItems(geo, L, gb, b, data, Inodes);
    hide GeometryOk; hide RolesOk; hide GroupCounts; hide FreeItems; hide MetaUsed; hide DescBytes; hide GdtBlock;
    hide U32At; hide SumFree; hide Map;
  }

  /** Data blocks in use are on the disk and no allocator touches them. */
  lemma UsedDataKept(geo: Geometry, role: nat -> Role, free: set<nat>, L: seq<Block>, L': seq<Block>)
    requires SameOutsideAllocator(L, L', role) && geo.blocksCount <= |L|
    ensures forall b :: b in UsedData(geo, role, free) ==> b < |L| && L'[b] == L[b] && role(b) == Data
  {
  }

  /** Copying a whole block over a block. */
  lemma SpliceWhole(b: Block, data: Block)
    ensures Splice(b, 0, data) == data
  {
  }

  /** The inode table locations, which no allocation moves. */
  lemma TableSeqKept(gb: seq<Desc>, k: Kind, g: nat, d: Desc)
    requires g < |gb| && d == WithFree(gb[g], k, Free(d, k))
    ensures TableSeq(gb[g := d]) == TableSeq(gb)
  {
  }

  /** What one allocation or release leaves: invariant kept, free items changed as told, nothing else touched. */
  ghost predicate Stepped(geo: Geometry, role: nat -> Role, L: seq<Block>, gb: seq<Desc>, L': seq<Block>,
      gb': seq<Desc>, k: Kind, free: set<nat>) {
    && AllocInv(geo, role, L, gb) && AllocInv(geo, role, L', gb')
    && FreeItems(geo, L', gb', k) == free
    && (forall j: Kind :: j != k ==> FreeItems(geo, L', gb', j) == FreeItems(geo, L, gb, j))
    && SameOutsideAllocator(L, L', role)
    && TableSeq(gb') == TableSeq(gb)
  }

  /** What clearing a bit of group g's map, with all counters following, leaves. */
  ghost predicate GiveDone(geo: Geometry, role: nat -> Role, L: seq<Block>, gb: seq<Desc>, k: Kind, g: nat, bit: nat) {
    && g < |gb| && Map(gb[g], k) < |L| && GdtBlock(geo, g) < |L| && bit < BITS && GeometryOk(geo) && |gb| == geo.groups
    && Free(gb[g], k) + 1 < 0x1_0000 && SumFree(gb, k) + 1 < 0x1_0000_0000
    && var d := WithFree(gb[g], k, Free(gb[g], k) + 1);
       && Map(d, k) == Map(gb[g], k)
       && Stepped(geo, role, L, gb, Updated(geo, L, k, g, BmClear(L[Map(gb[g], k)], bit), d, SumFree(gb, k) + 1),
                  gb[g := d], k, FreeItems(geo, L, gb, k) + {Times(g, Per(geo, k)) + bit})
  }

  /** What setting one leaves. */
  ghost predicate TakeDone(geo: Geometry, role: nat -> Role, L: seq<Block>, gb: seq<Desc>, k: Kind, g: nat, bit: nat) {
    && g < |gb| && Map(gb[g], k) < |L| && GdtBlock(geo, g) < |L| && bit < BITS && GeometryOk(geo) && |gb| == geo.groups
    && Free(gb[g], k) > 0 && 0 < SumFree(gb, k) < 0x1_0000_0000
    && var d := WithFree(gb[g], k, Free(gb[g], k) - 1);
       && Map(d, k) == Map(gb[g], k)
       && Stepped(geo, role, L, gb, Updated(geo, L, k, g, BmSet(L[Map(gb[g], k)], bit), d, SumFree(gb, k) - 1),
                  gb[g := d], k, FreeItems(geo, L, gb, k) - {Times(g, Per(geo, k)) + bit})
  }

  /** The writes of a release, all consequences at once. */
  lemma GiveStep(geo: Geometry, role: nat -> Role, L: seq<Block>, gb: seq<Desc>, k: Kind, g: nat, bit: nat)
    requires AllocInv(geo, role, L, gb) && g < geo.groups && bit < InGroup(geo, k, g)
    requires Times(g, Per(geo, k)) + bit !in FreeItems(geo, L, gb, k)
    requires k == Blocks ==> role(geo.firstDataBlock + Times(g, Per(geo, k)) + bit) == Data
    ensures Map(gb[g], k) < |L| && Map(gb[g], k) != SUPER_BLOCK && GdtBlock(geo, g) < |L| && bit < BITS
    ensures Free(gb[g], k) + 1 < 0x1_0000 && SumFree(gb, k) + 1 < 0x1_0000_0000
    ensures U32At(L[SUPER_BLOCK], CounterOffset(k)) == SumFree(gb, k)
    ensures GiveDone(geo, role, L, gb, k, g, bit)
  {
    hide Updated; hide FreeItems; hide AllocInv; hide InGroup; hide BmBit; hide BmClear; hide SameOutsideAllocator;
    hide Times; hide TableSeq; hide U32At;
    AllocFacts(geo, role, L, gb);
    EmptyGroup(geo, role, L, gb, k, g);
    UsedBit(geo, role, L, gb, k, g, bit);
    GiveKeeps(geo, role, L, gb, k, g, bit, Times(g, Per(geo, k)) + bit);
    var d := WithFree(gb[g], k, Free(gb[g], k) + 1);
    TableSeqKept(gb, k, g, d);
    UpdatedOutside(geo, role, L, gb, k, g, BmClear(L[Map(gb[g], k)], bit), d, SumFree(gb, k) + 1);
  }

  /** The writes of an allocation. */
  lemma TakeStep(geo: Geometry, role: nat -> Role, L: seq<Block>, gb: seq<Desc>, k: Kind, g: nat, bit: nat)
    requires AllocInv(geo, role, L, gb) && g < geo.groups && bit < InGroup(geo, k, g) && Map(gb[g], k) < |L|
    requires !BmBit(L[Map(gb[g], k)], bit) && forall i :: 0 <= i < bit ==> BmBit(L[Map(gb[g], k)], i)
    ensures Times(g, Per(geo, k)) + bit in FreeItems(geo, L, gb, k)
    ensures NoneFrom(Times(g, Per(geo, k)), Times(g, Per(geo, k)) + bit, FreeItems(geo, L, gb, k))
    ensures Map(gb[g], k) != SUPER_BLOCK && GdtBlock(geo, g) < |L| && bit < BITS
    ensures Free(gb[g], k) > 0 && 0 < SumFree(gb, k) < 0x1_0000_0000
    ensures U32At(L[SUPER_BLOCK], CounterOffset(k)) == SumFree(gb, k)
    ensures TakeDone(geo, role, L, gb, k, g, bit)
  {
    hide Updated; hide FreeItems; hide AllocInv; hide InGroup; hide BmBit; hide BmSet; hide SameOutsideAllocator;
    hide Times; hide TableSeq; hide U32At;
    AllocFacts(geo, role, L, gb);
    EmptyGroup(geo, role, L, gb, k, g);
    FirstClear(geo, role, L, gb, k, g, bit);
    TakeKeeps(geo, role, L, gb, k, g, bit, Times(g, Per(geo, k)) + bit);
    var d := WithFree(gb[g], k, Free(gb[g], k) - 1);
    TableSeqKept(gb, k, g, d);
    UpdatedOutside(geo, role, L, gb, k, g, BmSet(L[Map(gb[g], k)], bit), d, SumFree(gb, k) - 1);
  }

  /** Freeing a block takes it out of the data blocks in use. */
  lemma FreedIsUnused(geo: Geometry, role: nat -> Role, free: set<nat>, x: nat)
    ensures UsedData(geo, role, free + {x}) == UsedData(geo, role, free) - {geo.firstDataBlock + x}
  {
  }
}
