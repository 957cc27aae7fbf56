/** The part of ext2_fs_init in fs/ext2/super.c that loads the group descriptor table. */
module Mount {
  import opened Bytes
  import opened BlkCache
  import opened Layout

  /** bytes are the first of the table whose descriptors are gb. */
  ghost predicate Loaded(bytes: seq<u8>, gb: seq<Desc>) {
    forall g :: 0 <= g < |gb| && (g + 1) * DESC_SIZE <= |bytes| ==>
      bytes[g * DESC_SIZE..(g + 1) * DESC_SIZE] == DescBytes(gb[g])
  }

  /** Where descriptor g lies when the table is read block after block. */
  lemma DescPlace(geo: Geometry, g: nat, copied: nat, chunk: nat)
    requires copied % BLKSZ == 0 && copied <= g * DESC_SIZE && (g + 1) * DESC_SIZE <= copied + chunk <= copied + BLKSZ
    ensures GdtBlock(geo, g) == geo.firstDataBlock + 1 + copied / BLKSZ
    ensures GdtOffset(g) == g * DESC_SIZE - copied
  {
  }

  /** One more block of the table. */
  lemma NextChunk(geo: Geometry, L: seq<Block>, gb: seq<Desc>, bytes: seq<u8>, blk: nat, chunk: nat)
    requires GdtImages(geo, L, gb) && Loaded(bytes, gb) && |bytes| % BLKSZ == 0 && chunk <= BLKSZ
    requires blk == geo.firstDataBlock + 1 + |bytes| / BLKSZ < |L|
    ensures Loaded(bytes + L[blk][..chunk], gb)
  {
    hide DescBytes; hide GdtBlock; hide GdtOffset;
    var more := bytes + L[blk][..chunk];
    forall g | 0 <= g < |gb| && (g + 1) * DESC_SIZE <= |more|
      ensures more[g * DESC_SIZE..(g + 1) * DESC_SIZE] == DescBytes(gb[g])
    {
      if (g + 1) * DESC_SIZE <= |bytes| {
        assert more[g * DESC_SIZE..(g + 1) * DESC_SIZE] == bytes[g * DESC_SIZE..(g + 1) * DESC_SIZE];
      } else {
        WholeDescs(|bytes|, g);
        DescPlace(geo, g, |bytes|, chunk);
        assert more[g * DESC_SIZE..(g + 1) * DESC_SIZE] ==
               L[blk][g * DESC_SIZE - |bytes|..(g + 1) * DESC_SIZE - |bytes|];
      }
    }
  }

  /** No descriptor straddles two blocks. */
  lemma WholeDescs(copied: nat, g: nat)
    requires copied % BLKSZ == 0 && copied < (g + 1) * DESC_SIZE
    ensures copied <= g * DESC_SIZE
  {
  }

  lemma BlockOfTable(geo: Geometry, L: seq<Block>, gb: seq<Desc>, copied: nat)
    requires GdtImages(geo, L, gb) && copied % BLKSZ == 0 && copied < |gb| * DESC_SIZE
    ensures geo.firstDataBlock + 1 + copied / BLKSZ < |L|
  {
    hide DescBytes;
    var g := copied / DESC_SIZE;
    assert GdtBlock(geo, g) == geo.firstDataBlock + 1 + copied / BLKSZ;
  }

  /** The loop of ext2_fs_init: block after block from the first data block's successor on is copied behind what was
      copied so far.  The table in memory is then the one whose images are on the logical disk, which the allocators
      keep in step with their own. */
  method LoadTable(cache: BlockCache, geo: Geometry, ghost gb: seq<Desc>) returns (table: array<Desc>)
    requires cache.Valid() && cache.loose == {} && |cache.pins| < NBLKNUM
    requires |gb| == geo.groups && GdtImages(geo, cache.L, gb)
    modifies cache`pins, cache.slots, cache.disk`sectors
    ensures cache.Valid() && cache.L == old(cache.L) && cache.pins == old(cache.pins)
    ensures forall i, x :: old(cache.Pinned(i, x)) ==> cache.Pinned(i, x)
    ensures fresh(table) && table[..] == gb
  {
    hide BlockCache.Valid; hide BlockCache.Pinned; hide GdtImages; hide Loaded; hide DescOf;
    var size := geo.groups * DESC_SIZE;
    var bytes: seq<u8> := [];
    var blk := geo.firstDataBlock + 1;
    NothingLoaded(gb);
    while |bytes| < size
      invariant |bytes| <= size && (|bytes| < size ==>
                |bytes| % BLKSZ == 0 && blk == geo.firstDataBlock + 1 + |bytes| / BLKSZ)
      invariant cache.Valid() && cache.L == old(cache.L) && cache.pins == old(cache.pins)
      invariant forall i, x :: old(cache.Pinned(i, x)) ==> cache.Pinned(i, x)
      invariant Loaded(bytes, gb)
    {
      BlockOfTable(geo, cache.L, gb, |bytes|);
      var data := cache.Fetch(blk);
      var chunk := size - |bytes|;
      if chunk > BLKSZ {
        chunk := BLKSZ;
      }
      NextChunk(geo, cache.L, gb, bytes, blk, chunk);
      bytes := bytes + data[..chunk];
      blk := blk + 1;
    }
    AllLoaded(bytes, gb);
    table := new Desc[geo.groups](g requires 0 <= g < geo.groups && |bytes| == geo.groups * DESC_SIZE =>
      DescOf(bytes[g * DESC_SIZE..(g + 1) * DESC_SIZE]));
  }

  lemma NothingLoaded(gb: seq<Desc>)
    ensures Loaded([], gb)
  {
  }

  lemma AllLoaded(bytes: seq<u8>, gb: seq<Desc>)
    requires Loaded(bytes, gb) && |bytes| == |gb| * DESC_SIZE
    ensures forall g :: 0 <= g < |gb| ==> DescOf(bytes[g * DESC_SIZE..(g + 1) * DESC_SIZE]) == gb[g]
  {
    hide DescBytes; hide DescOf;
    forall g | 0 <= g < |gb| ensures DescOf(bytes[g * DESC_SIZE..(g + 1) * DESC_SIZE]) == gb[g] {
      DescRoundTrip(gb[g]);
    }
  }
}
