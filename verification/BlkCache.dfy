/** block/blk_cache.c over the sector driver: a pinned, dirty-tracking, write-back cache
    that refines a plain array of blocks. */
module BlkCache {
  import opened Bytes

  const SECTOR: nat := 512
  const SECTORS_PER_BLOCK: nat := 8
  const NBLKNUM: nat := 64

  /** Sectors laid one after the other. */
  ghost function Joined(ss: seq<seq<u8>>): (r: seq<u8>)
    requires forall i :: 0 <= i < |ss| ==> |ss[i]| == SECTOR
    ensures |r| == |ss| * SECTOR
  {
    if ss == [] then [] else Joined(ss[..|ss| - 1]) + ss[|ss| - 1]
  }

  /** Byte j of the run lies in sector j / 512. */
  lemma {:induction false} JoinedAt(ss: seq<seq<u8>>, j: nat)
    requires (forall i :: 0 <= i < |ss| ==> |ss[i]| == SECTOR) && j < |ss| * 512
    ensures Joined(ss)[j] == ss[j / 512][j % 512]
  {
    if j < (|ss| - 1) * 512 {
      JoinedAt(ss[..|ss| - 1], j);
    }
  }

  /** The block device as the driver sees it: a flat run of 512-byte sectors. */
  class Disk {
    var sectors: seq<seq<u8>>
    const nblocks: nat

    ghost predicate Valid()
      reads this
    {
      |sectors| == nblocks * SECTORS_PER_BLOCK &&
      forall i :: 0 <= i < |sectors| ==> |sectors[i]| == SECTOR
    }

    /** Block no is the concatenation of its eight sectors. */
    ghost function BlockAt(no: nat): (r: Block)
      requires Valid() && no < nblocks
      reads this
    {
      Joined(sectors[no * SECTORS_PER_BLOCK..(no + 1) * SECTORS_PER_BLOCK])
    }

    /** Byte j of block no is byte j % 512 of sector 8 * no + j / 512. */
    lemma BytesOfBlock(no: nat, j: nat)
      requires Valid() && no < nblocks && j < 4096
      ensures 8 * no + j / 512 < |sectors| && BlockAt(no)[j] == sectors[8 * no + j / 512][j % 512]
    {
      JoinedAt(sectors[no * 8..(no + 1) * 8], j);
    }

    /** The whole device as an array of blocks. */
    ghost function Blocks(): (r: seq<Block>)
      requires Valid()
      reads this
      ensures |r| == nblocks
      ensures forall no :: 0 <= no < nblocks ==> r[no] == BlockAt(no)
    {
      seq(nblocks, no requires 0 <= no < nblocks && Valid() reads this => BlockAt(no))
    }

    /** blkread: eight sector reads fill the buffer with the block. */
    method BlkRead(no: nat) returns (data: Block)
      requires Valid() && no < nblocks
      ensures data == Blocks()[no]
    {
      var buf: seq<u8> := [];
      for i := 0 to SECTORS_PER_BLOCK
        invariant buf == Joined(sectors[no * SECTORS_PER_BLOCK..no * SECTORS_PER_BLOCK + i])
      {
        var first := no * SECTORS_PER_BLOCK;
        assert sectors[first..first + i + 1][..i] == sectors[first..first + i];
        buf := buf + sectors[no * SECTORS_PER_BLOCK + i];
      }
      data := buf;
    }

    /** blkwrite: eight sector writes replace this block and no other. */
    method BlkWrite(no: nat, data: Block)
      requires Valid() && no < nblocks
      modifies this`sectors
      ensures Valid()
      ensures Blocks() == old(Blocks())[no := data]
    {
      for i := 0 to SECTORS_PER_BLOCK
        invariant Valid()
        invariant Joined(sectors[no * SECTORS_PER_BLOCK..no * SECTORS_PER_BLOCK + i]) == data[..i * SECTOR]
        invariant forall s :: 0 <= s < |sectors| && s / SECTORS_PER_BLOCK != no ==> sectors[s] == old(sectors[s])
      {
        var first := no * SECTORS_PER_BLOCK;
        ghost var done := sectors[first..first + i];
        sectors := sectors[first + i := data[i * SECTOR..(i + 1) * SECTOR]];
        assert sectors[first..first + i + 1][..i] == done;
        assert data[..i * SECTOR] + data[i * SECTOR..(i + 1) * SECTOR] == data[..(i + 1) * SECTOR];
      }
      assert data[..SECTORS_PER_BLOCK * SECTOR] == data;
      forall b | 0 <= b < nblocks && b != no
        ensures BlockAt(b) == old(BlockAt(b))
      {
        assert sectors[b * SECTORS_PER_BLOCK..(b + 1) * SECTORS_PER_BLOCK]
            == old(sectors)[b * SECTORS_PER_BLOCK..(b + 1) * SECTORS_PER_BLOCK];
      }
    }
  }

  datatype Slot = Slot(blkNo: nat, valid: bool, dirty: bool, refcnt: nat, data: Block)

  /** The slot currently stands for block no. */
  predicate Holds(s: Slot, no: nat) {
    s.valid && s.blkNo == no
  }

  ghost predicate Resident(ss: seq<Slot>, no: nat) {
    exists i :: 0 <= i < |ss| && Holds(ss[i], no)
  }

  ghost predicate HasFreeSlot(ss: seq<Slot>) {
    exists i :: 0 <= i < |ss| && ss[i].refcnt == 0
  }

  /** The slots ss over the disk D stand for the logical disk L: at most one slot per block, every slot shows
      the logical contents, every clean slot that nobody is in the middle of changing equals the disk, and
      blocks without a slot are on the disk.  pins counts references per slot; loose holds the slots whose
      data was stored to and not yet passed to bwrite. */
  ghost predicate CacheInv(ss: seq<Slot>, D: seq<Block>, L: seq<Block>, pins: multiset<nat>, loose: set<nat>) {
    && |ss| == NBLKNUM
    && |D| == |L|
    && (forall i :: 0 <= i < NBLKNUM ==> ss[i].refcnt == pins[i])
    && (forall i :: i in pins ==> i < NBLKNUM && ss[i].valid)
    && (forall i :: i in loose ==> i in pins)
    && (forall i :: 0 <= i < NBLKNUM && ss[i].valid ==> ss[i].blkNo < |L| && ss[i].data == L[ss[i].blkNo])
    && (forall i, j :: 0 <= i < j < NBLKNUM && ss[i].valid && ss[j].valid ==> ss[i].blkNo != ss[j].blkNo)
    && (forall i :: 0 <= i < NBLKNUM && ss[i].valid && !ss[i].dirty && i !in loose ==> ss[i].data == D[ss[i].blkNo])
    && (forall no :: 0 <= no < |L| && !Resident(ss, no) ==> L[no] == D[no])
  }

  /** Slots that agree on valid and blkNo make the same blocks resident. */
  lemma SameResidents(a: seq<Slot>, b: seq<Slot>)
    requires |a| == |b|
    requires forall i :: 0 <= i < |a| ==> a[i].valid == b[i].valid && a[i].blkNo == b[i].blkNo
    ensures forall no :: Resident(a, no) <==> Resident(b, no)
  {
    forall no | Resident(a, no) ensures Resident(b, no) {
      var i :| 0 <= i < |a| && Holds(a[i], no);
      assert Holds(b[i], no);
    }
    forall no | Resident(b, no) ensures Resident(a, no) {
      var i :| 0 <= i < |a| && Holds(b[i], no);
      assert Holds(a[i], no);
    }
  }

  /** A hit only counts one more reference. */
  lemma HitKeeps(ss: seq<Slot>, D: seq<Block>, L: seq<Block>, pins: multiset<nat>, loose: set<nat>, i: nat)
    requires CacheInv(ss, D, L, pins, loose) && i < NBLKNUM && ss[i].valid
    ensures CacheInv(ss[i := ss[i].(refcnt := ss[i].refcnt + 1)], D, L, pins + multiset{i}, loose)
  {
    SameResidents(ss, ss[i := ss[i].(refcnt := ss[i].refcnt + 1)]);
  }

  /** Evicting an unpinned slot, with the write-back when it is dirty, loses nothing: the slot's old block is
      on the disk afterwards, and what is loaded for the new block is its logical contents. */
  lemma EvictKeeps(ss: seq<Slot>, D: seq<Block>, L: seq<Block>, pins: multiset<nat>, loose: set<nat>, c: nat, no: nat)
    requires CacheInv(ss, D, L, pins, loose) && c < NBLKNUM && ss[c].refcnt == 0
    requires no < |L| && !Resident(ss, no)
    ensures c !in pins && (ss[c].valid ==> ss[c].blkNo < |L|)
    ensures var D' := if ss[c].valid && ss[c].dirty then D[ss[c].blkNo := ss[c].data] else D;
            D'[no] == L[no] && CacheInv(ss[c := Slot(no, true, false, 1, D'[no])], D', L, pins + multiset{c}, loose)
  {
    var D' := if ss[c].valid && ss[c].dirty then D[ss[c].blkNo := ss[c].data] else D;
    var ss' := ss[c := Slot(no, true, false, 1, D'[no])];
    assert ss[c].valid ==> Holds(ss[c], ss[c].blkNo);
    forall b, i | 0 <= i < NBLKNUM && i != c && Holds(ss[i], b)
      ensures Resident(ss', b)
    {
      assert Holds(ss'[i], b);
    }
    forall i | 0 <= i < NBLKNUM && i != c && ss'[i].valid
      ensures ss'[i].blkNo != no
    {
      assert !Holds(ss[i], no);
    }
  }

  /** Storing through a pinned slot changes the logical disk at that block only. */
  lemma StoreKeeps(ss: seq<Slot>, D: seq<Block>, L: seq<Block>, pins: multiset<nat>, loose: set<nat>, c: nat,
      data: Block)
    requires CacheInv(ss, D, L, pins, loose) && c in pins
    ensures CacheInv(ss[c := ss[c].(data := data)], D, L[ss[c].blkNo := data], pins, loose + {c})
  {
    SameResidents(ss, ss[c := ss[c].(data := data)]);
    assert Holds(ss[c], ss[c].blkNo);
  }

  lemma BwriteKeeps(ss: seq<Slot>, D: seq<Block>, L: seq<Block>, pins: multiset<nat>, loose: set<nat>, c: nat)
    requires CacheInv(ss, D, L, pins, loose) && c < NBLKNUM && ss[c].valid
    ensures CacheInv(ss[c := ss[c].(dirty := true)], D, L, pins, loose - {c})
  {
    SameResidents(ss, ss[c := ss[c].(dirty := true)]);
  }

  lemma BrelseKeeps(ss: seq<Slot>, D: seq<Block>, L: seq<Block>, pins: multiset<nat>, loose: set<nat>, c: nat)
    requires CacheInv(ss, D, L, pins, loose) && c in pins
    requires pins[c] > 1 || c !in loose
    ensures CacheInv(ss[c := ss[c].(refcnt := ss[c].refcnt - 1)], D, L, pins - multiset{c}, loose)
  {
    SameResidents(ss, ss[c := ss[c].(refcnt := ss[c].refcnt - 1)]);
  }

  lemma SyncKeeps(ss: seq<Slot>, D: seq<Block>, L: seq<Block>, pins: multiset<nat>, loose: set<nat>, c: nat)
    requires CacheInv(ss, D, L, pins, loose) && c < NBLKNUM && ss[c].valid
    ensures ss[c].blkNo < |L|
    ensures CacheInv(ss[c := ss[c].(dirty := false)], D[ss[c].blkNo := ss[c].data], L, pins, loose)
  {
    SameResidents(ss, ss[c := ss[c].(dirty := false)]);
    assert Holds(ss[c], ss[c].blkNo);
  }

  /** A multiset that contains every index below n has at least n elements. */
  lemma {:induction false} AllPinned(pins: multiset<nat>, n: nat)
    requires forall i :: 0 <= i < n ==> pins[i] > 0
    ensures |pins| >= n
  {
    if n > 0 {
      var rest := pins[n - 1 := 0];
      AllPinned(rest, n - 1);
      assert pins == rest + multiset{}[n - 1 := pins[n - 1]];
    }
  }

  /** With fewer references out than slots, some slot is unpinned. */
  lemma FewPinsFreeSlot(ss: seq<Slot>, D: seq<Block>, L: seq<Block>, pins: multiset<nat>, loose: set<nat>)
    requires CacheInv(ss, D, L, pins, loose) && |pins| < NBLKNUM
    ensures HasFreeSlot(ss)
  {
    if !HasFreeSlot(ss) {
      forall i | 0 <= i < NBLKNUM ensures pins[i] > 0 {
        assert ss[i].refcnt != 0;
      }
      AllPinned(pins, NBLKNUM);
    }
  }

  /** The block of a pinned slot is in no other valid slot. */
  lemma PinnedApart(ss: seq<Slot>, D: seq<Block>, L: seq<Block>, pins: multiset<nat>, loose: set<nat>, c: nat)
    requires CacheInv(ss, D, L, pins, loose) && c in pins
    ensures forall i :: 0 <= i < |ss| && i != c && ss[i].valid ==> ss[i].blkNo != ss[c].blkNo
  {
  }

  /** With every slot clean, the disk differs from the logical disk at most where a slot is loose. */
  lemma SyncedDisk(ss: seq<Slot>, D: seq<Block>, L: seq<Block>, pins: multiset<nat>, loose: set<nat>)
    requires CacheInv(ss, D, L, pins, loose)
    requires forall i :: 0 <= i < NBLKNUM && ss[i].valid ==> !ss[i].dirty
    ensures forall no ::
            0 <= no < |L| ==> D[no] == L[no] || exists i :: 0 <= i < |ss| && i in loose && ss[i].blkNo == no
    ensures loose == {} ==> D == L
  {
    forall no | 0 <= no < |L| && D[no] != L[no]
      ensures exists i :: 0 <= i < |ss| && i in loose && ss[i].blkNo == no
    {
      var i :| 0 <= i < NBLKNUM && Holds(ss[i], no);
      assert i in loose;
    }
  }

  /** What a reference to slot c guarantees its holder. */
  lemma PinnedSlot(ss: seq<Slot>, D: seq<Block>, L: seq<Block>, pins: multiset<nat>, loose: set<nat>, c: nat)
    requires CacheInv(ss, D, L, pins, loose) && c in pins
    ensures c < |ss| == NBLKNUM && ss[c].valid && ss[c].refcnt > 0
    ensures ss[c].blkNo < |L| && ss[c].data == L[ss[c].blkNo]
  {
  }

  /** blk_caches[NBLKNUM] with the disk behind it. */
  class BlockCache {
    const disk: Disk
    const slots: array<Slot>
    ghost var L: seq<Block>
    ghost var pins: multiset<nat>
    ghost var loose: set<nat>

    ghost predicate Valid()
      reads this, slots, disk
    {
      disk.Valid() && slots.Length == NBLKNUM && |L| == disk.nblocks
        && CacheInv(slots[..], disk.Blocks(), L, pins, loose)
    }

    /** Slot c is referenced and stands for block no. */
    ghost predicate Pinned(c: nat, no: nat)
      reads this, slots
    {
      c in pins && c < slots.Length && slots[c].valid && slots[c].blkNo == no && no < |L| && slots[c].data == L[no]
    }

    constructor (d: Disk)
      requires d.Valid()
      ensures Valid() && disk == d && fresh(slots)
      ensures L == d.Blocks() && pins == multiset{} && loose == {}
    {
      disk := d;
      slots := new Slot[NBLKNUM](_ => Slot(0, false, false, 0, Zeros(BLKSZ)));
      L := d.Blocks();
      pins, loose := multiset{}, {};
    }

    /** bread: hit, or evict the first unpinned slot (writing it back when dirty) and load the block.
        The second precondition is exactly what keeps the panic for an exhausted pool out of reach. */
    method Bread(no: nat) returns (c: nat)
      requires Valid() && no < |L|
      requires |pins| < NBLKNUM || Resident(slots[..], no) || HasFreeSlot(slots[..])
      modifies this`pins, slots, disk`sectors
      ensures Valid()
      ensures Pinned(c, no)
      ensures pins == old(pins) + multiset{c}
      ensures forall i, b :: old(Pinned(i, b)) ==> Pinned(i, b)
    {
      hide CacheInv;
      for i := 0 to NBLKNUM
        invariant forall j :: 0 <= j < i ==> !Holds(slots[j], no)
      {
        if slots[i].valid && slots[i].blkNo == no {
          HitKeeps(slots[..], disk.Blocks(), L, pins, loose, i);
          pins := pins + multiset{i};
          slots[i] := slots[i].(refcnt := slots[i].refcnt + 1);
          PinnedSlot(slots[..], disk.Blocks(), L, pins, loose, i);
          return i;
        }
      }
      if |pins| < NBLKNUM {
        FewPinsFreeSlot(slots[..], disk.Blocks(), L, pins, loose);
      }
      c := FirstFree();
      EvictKeeps(slots[..], disk.Blocks(), L, pins, loose, c, no);
      if slots[c].valid && slots[c].dirty {
        disk.BlkWrite(slots[c].blkNo, slots[c].data);
      }
      var data := disk.BlkRead(no);
      pins := pins + multiset{c};
      slots[c] := Slot(no, true, false, 1, data);
      PinnedSlot(slots[..], disk.Blocks(), L, pins, loose, c);
    }

    /** The victim search of bread. */
    method FirstFree() returns (c: nat)
      requires HasFreeSlot(slots[..])
      ensures c < slots.Length && slots[c].refcnt == 0
      ensures forall j :: 0 <= j < c ==> slots[j].refcnt != 0
    {
      ghost var f :| 0 <= f < slots.Length && slots[..][f].refcnt == 0;
      c := 0;
      while slots[c].refcnt != 0
        invariant c <= f
        invariant forall j :: 0 <= j < c ==> slots[j].refcnt != 0
        decreases f - c
      {
        c := c + 1;
      }
    }

    /** A holder of slot c writes through the data pointer. */
    method Store(c: nat, ghost no: nat, data: Block)
      requires Valid() && Pinned(c, no)
      modifies this`L, this`loose, slots
      ensures Valid()
      ensures L == old(L)[no := data]
      ensures loose == old(loose) + {c}
      ensures slots[..] == old(slots[..])[c := old(slots[c]).(data := data)]
      ensures forall i, b :: old(Pinned(i, b)) ==> Pinned(i, b)
    {
      hide CacheInv;
      StoreKeeps(slots[..], disk.Blocks(), L, pins, loose, c, data);
      PinnedApart(slots[..], disk.Blocks(), L, pins, loose, c);
      L := L[no := data];
      loose := loose + {c};
      slots[c] := slots[c].(data := data);
    }

    /** bwrite: mark dirty; nothing is written now. */
    method Bwrite(c: nat)
      requires Valid() && c in pins
      modifies this`loose, slots
      ensures Valid()
      ensures loose == old(loose) - {c}
      ensures slots[..] == old(slots[..])[c := old(slots[c]).(dirty := true)]
      ensures forall i, b :: old(Pinned(i, b)) ==> Pinned(i, b)
    {
      hide CacheInv;
      PinnedSlot(slots[..], disk.Blocks(), L, pins, loose, c);
      BwriteKeeps(slots[..], disk.Blocks(), L, pins, loose, c);
      loose := loose - {c};
      slots[c] := slots[c].(dirty := true);
    }

    /** brelse: drop one reference.  The last reference to a slot must not be dropped while it is loose. */
    method Brelse(c: nat)
      requires Valid() && c in pins
      requires pins[c] > 1 || c !in loose
      modifies this`pins, slots
      ensures Valid()
      ensures pins == old(pins) - multiset{c}
      ensures slots[..] == old(slots[..])[c := old(slots[c]).(refcnt := old(slots[c].refcnt) - 1)]
      ensures forall i, b :: old(Pinned(i, b)) && i in pins ==> Pinned(i, b)
    {
      hide CacheInv;
      PinnedSlot(slots[..], disk.Blocks(), L, pins, loose, c);
      BrelseKeeps(slots[..], disk.Blocks(), L, pins, loose, c);
      pins := pins - multiset{c};
      slots[c] := slots[c].(refcnt := slots[c].refcnt - 1);
    }

    /** bread, copy the data out, brelse. */
    method Fetch(no: nat) returns (data: Block)
      requires Valid() && no < |L| && |pins| < NBLKNUM && loose == {}
      modifies this`pins, slots, disk`sectors
      ensures Valid()
      ensures data == L[no]
      ensures pins == old(pins)
      ensures forall i, b :: old(Pinned(i, b)) ==> Pinned(i, b)
    {
      hide Valid;
      hide CacheInv;
      var c := Bread(no);
      data := slots[c].data;
      Brelse(c);
      assert pins == old(pins);
    }

    /** bread, copy bytes over the data at off, bwrite, brelse. */
    method Patch(no: nat, off: nat, bytes: seq<u8>)
      requires Valid() && no < |L| && |pins| < NBLKNUM && loose == {}
      requires off + |bytes| <= BLKSZ
      modifies this, slots, disk`sectors
      ensures Valid() && loose == {}
      ensures L == old(L)[no := Splice(old(L)[no], off, bytes)]
      ensures pins == old(pins)
      ensures forall i, b :: old(Pinned(i, b)) ==> Pinned(i, b)
    {
      hide Valid;
      hide CacheInv;
      var c := Bread(no);
      Store(c, no, Splice(slots[c].data, off, bytes));
      Bwrite(c);
      Brelse(c);
      assert pins == old(pins);
    }

    /** A store through a pinned slot, bwrite. */
    method Put(c: nat, ghost no: nat, data: Block)
      requires Valid() && Pinned(c, no) && loose == {}
      modifies this`L, this`loose, slots
      ensures Valid() && loose == {} && L == old(L)[no := data]
      ensures forall i, b :: old(Pinned(i, b)) ==> Pinned(i, b)
    {
      hide Valid;
      hide CacheInv;
      Store(c, no, data);
      Bwrite(c);
    }

    /** The same, and brelse. */
    method PutAndRelease(c: nat, ghost no: nat, data: Block)
      requires Valid() && Pinned(c, no) && loose == {}
      modifies this`L, this`loose, this`pins, slots
      ensures Valid() && loose == {} && L == old(L)[no := data] && pins == old(pins) - multiset{c}
      ensures forall i, b :: old(Pinned(i, b)) && i in pins ==> Pinned(i, b)
    {
      hide Valid;
      hide CacheInv;
      Put(c, no, data);
      Brelse(c);
    }

    /** bsync: afterwards the disk shows the logical contents of every block, except one that is being
        modified through a slot still waiting for its bwrite. */
    method Bsync()
      requires Valid()
      modifies slots, disk`sectors
      ensures Valid()
      ensures forall i :: 0 <= i < NBLKNUM ==>
              slots[i] == old(slots[i]).(dirty := !slots[i].valid && old(slots[i].dirty))
      ensures forall no :: 0 <= no < |L| ==>
                disk.Blocks()[no] == L[no] || exists i ::
                  0 <= i < slots.Length && i in loose && slots[..][i].blkNo == no
      ensures loose == {} ==> disk.Blocks() == L
    {
      hide CacheInv;
      for i := 0 to NBLKNUM
        invariant Valid()
        invariant forall j :: 0 <= j < NBLKNUM ==>
                    slots[j] == old(slots[j]).(dirty := (i <= j || !slots[j].valid) && old(slots[j].dirty))
      {
        if slots[i].valid && slots[i].dirty {
          SyncKeeps(slots[..], disk.Blocks(), L, pins, loose, i);
          disk.BlkWrite(slots[i].blkNo, slots[i].data);
          slots[i] := slots[i].(dirty := false);
        }
      }
      SyncedDisk(slots[..], disk.Blocks(), L, pins, loose);
    }
  }
}
