/** The bitmap of a block group: one bit per item, bit set = in use. */
module Bitmap {
  import opened Bytes

  const BITS: nat := 8 * BLKSZ

  predicate BmBit(bm: Block, i: nat)
    requires i < BITS
  {
    Bit(bm[i / 8], i % 8)
  }

  lemma ByteUpdate(bm: Block, i: nat)
    requires i < BITS
    ensures 0 <= SetBit(bm[i / 8], i % 8) < 256
    ensures 0 <= ClearBit(bm[i / 8], i % 8) < 256
  {
    Pow2Values();
    SetBitBits(bm[i / 8], i % 8, 0, 8);
    ClearBitBits(bm[i / 8], i % 8, 0, 8);
  }

  /** bm->data[i / 8] |= 1 << (i % 8) */
  function BmSet(bm: Block, i: nat): (r: Block)
    requires i < BITS
  {
    ByteUpdate(bm, i);
    bm[i / 8 := SetBit(bm[i / 8], i % 8)]
  }

  /** bm->data[i / 8] &= ~(1 << (i % 8)) */
  function BmClear(bm: Block, i: nat): (r: Block)
    requires i < BITS
  {
    ByteUpdate(bm, i);
    bm[i / 8 := ClearBit(bm[i / 8], i % 8)]
  }

  /** x & (1u << j) for a byte. */
  predicate ByteBit(x: u8, j: nat)
    requires j < 8
  {
    match j
    case 0 => x % 2 == 1
    case 1 => x / 2 % 2 == 1
    case 2 => x / 4 % 2 == 1
    case 3 => x / 8 % 2 == 1
    case 4 => x / 16 % 2 == 1
    case 5 => x / 32 % 2 == 1
    case 6 => x / 64 % 2 == 1
    case _ => x / 128 % 2 == 1
  }

  /** Item i is bit i % 8 of byte i / 8, counted from the least significant. */
  lemma BitBytes(bm: Block, i: nat)
    requires i < BITS
    ensures BmBit(bm, i) <==> bm[i / 8] / [1, 2, 4, 8, 16, 32, 64, 128][i % 8] % 2 == 1
    ensures BmBit(bm, i) <==> ByteBit(bm[i / 8], i % 8)
  {
    Pow2Byte();
    BitValue(bm[i / 8], i % 8);
  }

  /** Setting a clear bit adds its worth to its byte, clearing a set one takes it off; no other byte changes. */
  lemma SetBytes(bm: Block, i: nat)
    requires i < BITS
    ensures var c := BmSet(bm, i);
            && c[i / 8] as int == bm[i / 8] as int + (if BmBit(bm, i) then 0 else [1, 2, 4, 8, 16, 32, 64, 128][i % 8])
            && forall j :: 0 <= j < BLKSZ && j != i / 8 ==> c[j] == bm[j]
  {
    Pow2Byte();
    BitValue(bm[i / 8], i % 8);
  }

  lemma ClearBytes(bm: Block, i: nat)
    requires i < BITS
    ensures var c := BmClear(bm, i);
            && c[i / 8] as int == bm[i / 8] as int - (if BmBit(bm, i) then [1, 2, 4, 8, 16, 32, 64, 128][i % 8] else 0)
            && forall j :: 0 <= j < BLKSZ && j != i / 8 ==> c[j] == bm[j]
  {
    Pow2Byte();
    BitValue(bm[i / 8], i % 8);
  }

  /** Setting one bit of the map changes that bit alone. */
  lemma BmSetBits(bm: Block, i: nat)
    requires i < BITS
    ensures forall j :: 0 <= j < BITS ==> (BmBit(BmSet(bm, i), j) <==> j == i || BmBit(bm, j))
  {
    forall j | 0 <= j < BITS
      ensures BmBit(BmSet(bm, i), j) <==> j == i || BmBit(bm, j)
    {
      Pow2Values();
      SetBitBits(bm[i / 8], i % 8, j % 8, 8);
    }
  }

  lemma BmClearBits(bm: Block, i: nat)
    requires i < BITS
    ensures forall j :: 0 <= j < BITS ==> (BmBit(BmClear(bm, i), j) <==> j != i && BmBit(bm, j))
  {
    forall j | 0 <= j < BITS
      ensures BmBit(BmClear(bm, i), j) <==> j != i && BmBit(bm, j)
    {
      Pow2Values();
      ClearBitBits(bm[i / 8], i % 8, j % 8, 8);
    }
  }

  /** How many of the first n bits are clear. */
  ghost function ClearCount(bm: Block, n: nat): (r: nat)
    requires n <= BITS
    ensures r <= n
  {
    if n == 0 then 0 else ClearCount(bm, n - 1) + if BmBit(bm, n - 1) then 0 else 1
  }

  lemma {:induction false} CountSame(a: Block, b: Block, n: nat)
    requires n <= BITS
    requires forall j :: 0 <= j < n ==> (BmBit(a, j) <==> BmBit(b, j))
    ensures ClearCount(a, n) == ClearCount(b, n)
  {
    if n > 0 {
      CountSame(a, b, n - 1);
    }
  }

  /** Two maps that differ in one in-range bit differ by one in their counts. */
  lemma {:induction false} CountDiffer(a: Block, b: Block, i: nat, n: nat)
    requires i < n <= BITS
    requires !BmBit(a, i) && BmBit(b, i)
    requires forall j :: 0 <= j < BITS && j != i ==> (BmBit(a, j) <==> BmBit(b, j))
    ensures ClearCount(a, n) == ClearCount(b, n) + 1
  {
    if i == n - 1 {
      CountSame(a, b, n - 1);
    } else {
      CountDiffer(a, b, i, n - 1);
    }
  }

  lemma {:induction false} CountZero(bm: Block, n: nat)
    requires n <= BITS
    ensures ClearCount(bm, n) == 0 <==> forall j :: 0 <= j < n ==> BmBit(bm, j)
  {
    if n > 0 {
      CountZero(bm, n - 1);
    }
  }

  /** The search both allocators run over a group's bitmap: skip full bytes, take the first clear bit below n
      and set it.  It finds a bit exactly when one is clear, and then the lowest. */
  method TakeFirstClear(bm: Block, n: nat) returns (found: bool, bit: nat, bm': Block)
    requires n <= BITS
    ensures found <==> exists j :: 0 <= j < n && !BmBit(bm, j)
    ensures found ==> bit < n && !BmBit(bm, bit) && (forall j :: 0 <= j < bit ==> BmBit(bm, j))
    ensures bm' == if found then BmSet(bm, bit) else bm
    ensures found ==>
              && bm'[bit / 8] as int == bm[bit / 8] as int + [1, 2, 4, 8, 16, 32, 64, 128][bit % 8]
              && forall j :: 0 <= j < BLKSZ && j != bit / 8 ==> bm'[j] == bm[j]
  {
    found, bit, bm' := false, 0, bm;
    var nbytes := (n + 7) / 8;
    var byte := 0;
    while byte < nbytes && !found
      invariant byte <= nbytes
      invariant !found ==> bm' == bm && forall j :: 0 <= j < 8 * byte && j < n ==> BmBit(bm, j)
      invariant found ==>
                bit < n && !BmBit(bm, bit) && (forall j :: 0 <= j < bit ==> BmBit(bm, j)) && bm' == BmSet(bm, bit)
      decreases nbytes - byte, !found
    {
      var b := bm'[byte];
      if b == 0xFF {
        forall j | 8 * byte <= j < 8 * byte + 8
          ensures BmBit(bm, j)
        {
          FullByte(j % 8);
        }
        byte := byte + 1;
        continue;
      }
      var k := 0;
      while k < 8
        invariant k <= 8 && !found && bm' == bm
        invariant forall j :: 0 <= j < 8 * byte + k && j < n ==> BmBit(bm, j)
      {
        if Bit(b, k) {
          assert BmBit(bm, 8 * byte + k);
          k := k + 1;
          continue;
        }
        bit := byte * 8 + k;
        if n <= bit {
          break;
        }
        assert !BmBit(bm, bit);
        ByteUpdate(bm, bit);
        bm' := bm'[byte := SetBit(b, k)];
        found := true;
        break;
      }
      byte := byte + 1;
    }
    if found {
      BitBytes(bm, bit);
      SetBytes(bm, bit);
    }
  }
}
