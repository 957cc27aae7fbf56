/** Little-endian fields inside byte buffers, and single bits inside bytes.
    Every on-disk structure and every page-table flag of the model is read and written through these. */
module Bytes {
  import opened Arith

  type u8 = x: int | 0 <= x < 0x100
  type u16 = x: int | 0 <= x < 0x1_0000
  type u32 = x: int | 0 <= x < 0x1_0000_0000
  type u64 = x: int | 0 <= x < 0x1_0000_0000_0000_0000

  const BLKSZ: nat := 4096

  type Block = b: seq<u8> | |b| == BLKSZ witness seq(BLKSZ, _ => 0)

  function Pow256(n: nat): (r: nat)
    ensures r > 0
  {
    if n == 0 then 1 else 256 * Pow256(n - 1)
  }

  /** The number whose little-endian digits are s. */
  function Le(s: seq<u8>): (r: nat)
    ensures r < Pow256(|s|)
  {
    if s == [] then 0 else s[0] + 256 * Le(s[1..])
  }

  /** The n little-endian digits of v (v is truncated when it does not fit, as a C store does). */
  function ToLe(v: nat, n: nat): (s: seq<u8>)
    ensures |s| == n
  {
    if n == 0 then [] else [v % 256] + ToLe(v / 256, n - 1)
  }

  lemma {:induction false} LeRoundTrip(v: nat, n: nat)
    requires v < Pow256(n)
    ensures Le(ToLe(v, n)) == v
  {
    if n > 0 {
      LeRoundTrip(v / 256, n - 1);
      assert ToLe(v, n)[1..] == ToLe(v / 256, n - 1);
    }
  }

  lemma {:induction false} LeZeros(n: nat)
    ensures Le(seq(n, _ => 0)) == 0
  {
    if n > 0 {
      LeZeros(n - 1);
      assert seq(n, _ => 0)[1..] == seq(n - 1, _ => 0);
    }
  }

  lemma Pow256Values()
    ensures Pow256(2) == 0x1_0000
    ensures Pow256(4) == 0x1_0000_0000
    ensures Pow256(8) == 0x1_0000_0000_0000_0000
  {
    assert Pow256(2) == 256 * Pow256(1);
    assert Pow256(3) == 256 * Pow256(2);
    assert Pow256(4) == 256 * Pow256(3);
    assert Pow256(5) == 256 * Pow256(4);
    assert Pow256(6) == 256 * Pow256(5);
    assert Pow256(7) == 256 * Pow256(6);
    assert Pow256(8) == 256 * Pow256(7);
  }

  // Fields, digit by digit

  /** The first byte is the least significant. */
  lemma LeBytes(s: seq<u8>)
    ensures |s| == 2 ==> Le(s) == s[0] as nat + 0x100 * s[1] as nat
    ensures |s| == 4 ==>
              Le(s) == s[0] as nat + 0x100 * s[1] as nat + 0x1_0000 * s[2] as nat + 0x100_0000 * s[3] as nat
    ensures |s| == 8 ==>
              Le(s) == s[0] as nat + 0x100 * s[1] as nat + 0x1_0000 * s[2] as nat + 0x100_0000 * s[3] as nat
                       + 0x1_0000_0000 * s[4] as nat + 0x100_0000_0000 * s[5] as nat
                       + 0x1_0000_0000_0000 * s[6] as nat + 0x100_0000_0000_0000 * s[7] as nat
  {
    LeEnd(s);
    forall i | 0 <= i < |s| ensures Le(s[i..]) == s[i] + 256 * Le(s[i + 1..]) {
      LeStep(s, i);
    }
    hide Le;
  }

  lemma LeEnd(s: seq<u8>)
    ensures Le(s[|s|..]) == 0 && s[0..] == s
  {
  }

  lemma LeStep(s: seq<u8>, i: nat)
    requires i < |s|
    ensures Le(s[i..]) == s[i] + 256 * Le(s[i + 1..])
  {
    assert s[i..][1..] == s[i + 1..];
  }

  /** Byte i of a stored number is its digit i, counted from the least significant. */
  lemma {:induction false} DigitAt(v: nat, n: nat, i: nat)
    requires i < n
    ensures ToLe(v, n)[i] == v / Pow256(i) % 256
    decreases i
  {
    if i > 0 {
      DigitAt(v / 256, n - 1, i - 1);
      DivDiv(v, 256, Pow256(i - 1));
    }
  }

  lemma DigitsOf(v: nat, n: nat)
    ensures n >= 2 ==> ToLe(v, n)[0] == v % 256 && ToLe(v, n)[1] == v / 0x100 % 256
    ensures n >= 4 ==> ToLe(v, n)[2] == v / 0x1_0000 % 256 && ToLe(v, n)[3] == v / 0x100_0000 % 256
    ensures n >= 8 ==>
              && ToLe(v, n)[4] == v / 0x1_0000_0000 % 256 && ToLe(v, n)[5] == v / 0x100_0000_0000 % 256
              && ToLe(v, n)[6] == v / 0x1_0000_0000_0000 % 256 && ToLe(v, n)[7] == v / 0x100_0000_0000_0000 % 256
  {
    PowersOf256();
    forall i | 0 <= i < n ensures ToLe(v, n)[i] == v / Pow256(i) % 256 {
      DigitAt(v, n, i);
    }
    hide ToLe; hide Pow256;
  }

  lemma PowersOf256()
    ensures Pow256(0) == 1 && Pow256(1) == 0x100 && Pow256(2) == 0x1_0000 && Pow256(3) == 0x100_0000
    ensures Pow256(4) == 0x1_0000_0000 && Pow256(5) == 0x100_0000_0000
    ensures Pow256(6) == 0x1_0000_0000_0000 && Pow256(7) == 0x100_0000_0000_0000
  {
    assert Pow256(2) == 256 * Pow256(1);
    assert Pow256(3) == 256 * Pow256(2);
    assert Pow256(4) == 256 * Pow256(3);
    assert Pow256(5) == 256 * Pow256(4);
    assert Pow256(6) == 256 * Pow256(5);
    assert Pow256(7) == 256 * Pow256(6);
  }

  /** memcpy(b + off, s, |s|). */
  function Splice(b: seq<u8>, off: nat, s: seq<u8>): (r: seq<u8>)
    requires off + |s| <= |b|
    ensures |r| == |b|
  {
    b[..off] + s + b[off + |s|..]
  }

  /** The copied bytes are there, and every other byte is as before. */
  lemma SpliceBytes(b: seq<u8>, off: nat, s: seq<u8>)
    requires off + |s| <= |b|
    ensures Splice(b, off, s)[off..off + |s|] == s
    ensures forall i :: 0 <= i < |b| ==> Splice(b, off, s)[i] == if off <= i < off + |s| then s[i - off] else b[i]
  {
  }

  /** The n-byte little-endian field of b at off. */
  function Field(b: seq<u8>, off: nat, n: nat): (r: nat)
    requires off + n <= |b|
  {
    Le(b[off..off + n])
  }

  function U16At(b: seq<u8>, off: nat): (r: u16)
    requires off + 2 <= |b|
  {
    Pow256Values();
    Field(b, off, 2)
  }

  function U32At(b: seq<u8>, off: nat): (r: u32)
    requires off + 4 <= |b|
  {
    Pow256Values();
    Field(b, off, 4)
  }

  function PutU16(b: seq<u8>, off: nat, v: u16): (r: seq<u8>)
    requires off + 2 <= |b|
    ensures |r| == |b|
  {
    Splice(b, off, ToLe(v, 2))
  }

  function PutU32(b: seq<u8>, off: nat, v: u32): (r: seq<u8>)
    requires off + 4 <= |b|
    ensures |r| == |b|
  {
    Splice(b, off, ToLe(v, 4))
  }

  /** A store changes its own field to the stored value and no byte outside it. */
  lemma PutU32Get(b: seq<u8>, off: nat, v: u32)
    requires off + 4 <= |b|
    ensures U32At(PutU32(b, off, v), off) == v
    ensures forall i :: 0 <= i < |b| && !(off <= i < off + 4) ==> PutU32(b, off, v)[i] == b[i]
  {
    Pow256Values();
    LeRoundTrip(v, 4);
    SpliceBytes(b, off, ToLe(v, 4));
  }

  lemma PutU16Get(b: seq<u8>, off: nat, v: u16)
    requires off + 2 <= |b|
    ensures U16At(PutU16(b, off, v), off) == v
    ensures forall i :: 0 <= i < |b| && !(off <= i < off + 2) ==> PutU16(b, off, v)[i] == b[i]
  {
    Pow256Values();
    LeRoundTrip(v, 2);
    SpliceBytes(b, off, ToLe(v, 2));
  }

  /** The bytes of the fields read and written. */
  lemma FieldBytes(b: seq<u8>, off: nat)
    ensures off + 2 <= |b| ==> U16At(b, off) == b[off] as nat + 0x100 * b[off + 1] as nat
    ensures off + 4 <= |b| ==> U32At(b, off) == b[off] as nat + 0x100 * b[off + 1] as nat
                                                + 0x1_0000 * b[off + 2] as nat + 0x100_0000 * b[off + 3] as nat
  {
    if off + 2 <= |b| {
      LeBytes(b[off..off + 2]);
    }
    if off + 4 <= |b| {
      LeBytes(b[off..off + 4]);
    }
  }

  lemma PutU32Bytes(b: seq<u8>, off: nat, v: u32)
    requires off + 4 <= |b|
    ensures var c := PutU32(b, off, v);
            && c[off] == v % 256 && c[off + 1] == v / 0x100 % 256 && c[off + 2] == v / 0x1_0000 % 256
            && c[off + 3] == v / 0x100_0000 % 256
            && forall i :: 0 <= i < |b| && !(off <= i < off + 4) ==> c[i] == b[i]
  {
    DigitsOf(v, 4);
    SpliceBytes(b, off, ToLe(v, 4));
  }

  lemma PutU16Bytes(b: seq<u8>, off: nat, v: u16)
    requires off + 2 <= |b|
    ensures var c := PutU16(b, off, v);
            && c[off] == v % 256 && c[off + 1] == v / 0x100 % 256
            && forall i :: 0 <= i < |b| && !(off <= i < off + 2) ==> c[i] == b[i]
  {
    DigitsOf(v, 2);
    SpliceBytes(b, off, ToLe(v, 2));
  }

  /** Reading a field only looks at its own bytes. */
  lemma FieldFrame(b: seq<u8>, c: seq<u8>, off: nat, n: nat)
    requires off + n <= |b| && off + n <= |c|
    requires forall i :: off <= i < off + n ==> b[i] == c[i]
    ensures Field(b, off, n) == Field(c, off, n)
  {
    assert b[off..off + n] == c[off..off + n];
  }

  lemma PartOfPart(s: seq<u8>, lo: nat, hi: nat, i: nat, n: nat)
    requires lo <= hi <= |s| && i + n <= hi - lo
    ensures s[lo..hi][i..i + n] == s[lo + i..lo + i + n]
  {
    var part, whole := s[lo..hi][i..i + n], s[lo + i..lo + i + n];
    assert |part| == |whole| && forall k :: 0 <= k < n ==> part[k] == whole[k];
  }

  /** The field at off, and the bytes behind it. */
  lemma FieldAt(s: seq<u8>, off: nat, field: seq<u8>, rest: seq<u8>)
    requires off <= |s| && s[off..] == field + rest
    ensures off + |field| <= |s| && s[off..off + |field|] == field && s[off + |field|..] == rest
  {
    assert s[off + |field|..] == s[off..][|field|..];
    assert s[off..off + |field|] == s[off..][..|field|];
  }

  /** The cast of a length to a signed 32-bit return value. */
  function I32(n: nat): int {
    if n % 0x1_0000_0000 < 0x8000_0000 then n % 0x1_0000_0000 else n % 0x1_0000_0000 - 0x1_0000_0000
  }

  /** It is the one signed 32-bit number that agrees with n modulo 2^32, n itself below 2^31. */
  lemma I32Value(n: nat, r: int)
    requires -0x8000_0000 <= r < 0x8000_0000
    ensures r == I32(n) <==> (n - r) % 0x1_0000_0000 == 0
    ensures n < 0x8000_0000 ==> I32(n) == n
  {
  }

  /** A buffer of zero bytes, what memset(p, 0, n) leaves behind. */
  function Zeros(n: nat): (r: seq<u8>)
    ensures |r| == n
    ensures forall i :: 0 <= i < n ==> r[i] == 0
  {
    seq(n, _ => 0)
  }

  lemma ZeroField(b: seq<u8>, off: nat, n: nat)
    requires off + n <= |b|
    requires forall i :: off <= i < off + n ==> b[i] == 0
    ensures Field(b, off, n) == 0
  {
    LeZeros(n);
    assert b[off..off + n] == seq(n, _ => 0);
  }

  // Bits

  /** Bit k of x: x & (1 << k). */
  predicate Bit(x: nat, k: nat)
    decreases k
  {
    if k == 0 then x % 2 == 1 else Bit(x / 2, k - 1)
  }

  /** x | (1 << k). */
  function SetBit(x: nat, k: nat): (r: nat)
    decreases k
  {
    if k == 0 then x - x % 2 + 1 else x % 2 + 2 * SetBit(x / 2, k - 1)
  }

  /** x & ~(1 << k). */
  function ClearBit(x: nat, k: nat): (r: nat)
    decreases k
  {
    if k == 0 then x - x % 2 else x % 2 + 2 * ClearBit(x / 2, k - 1)
  }

  function Pow2(k: nat): (r: nat)
    ensures r > 0
  {
    if k == 0 then 1 else 2 * Pow2(k - 1)
  }

  lemma Pow2Values()
    ensures Pow2(8) == 256
    ensures Pow2(10) == 1024
  {
    assert Pow2(5) == 2 * Pow2(4) == 32;
    assert Pow2(8) == 2 * Pow2(7) == 4 * Pow2(6) == 8 * Pow2(5);
    assert Pow2(10) == 2 * Pow2(9) == 4 * Pow2(8);
  }

  /** 1 << k for the bits of a byte. */
  lemma Pow2Byte()
    ensures Pow2(0) == 1 && Pow2(1) == 2 && Pow2(2) == 4 && Pow2(3) == 8 && Pow2(4) == 16 && Pow2(5) == 32
            && Pow2(6) == 64 && Pow2(7) == 128
  {
    assert Pow2(2) == 2 * Pow2(1);
    assert Pow2(3) == 2 * Pow2(2);
    assert Pow2(4) == 2 * Pow2(3);
    assert Pow2(5) == 2 * Pow2(4);
    assert Pow2(6) == 2 * Pow2(5);
    assert Pow2(7) == 2 * Pow2(6);
  }

  /** Bit k is worth 2^k, and setting or clearing it adds or takes off just that. */
  lemma {:induction false} BitValue(x: nat, k: nat)
    ensures Bit(x, k) <==> x / Pow2(k) % 2 == 1
    ensures SetBit(x, k) == x + if Bit(x, k) then 0 else Pow2(k)
    ensures ClearBit(x, k) == x - if Bit(x, k) then Pow2(k) else 0
    decreases k
  {
    if k > 0 {
      BitValue(x / 2, k - 1);
      DivDiv(x, 2, Pow2(k - 1));
    }
  }

  /** Setting bit k sets it, keeps every other bit and stays inside the width. */
  lemma {:induction false} SetBitBits(x: nat, k: nat, j: nat, w: nat)
    requires k < w && x < Pow2(w)
    ensures SetBit(x, k) < Pow2(w)
    ensures Bit(SetBit(x, k), j) <==> j == k || Bit(x, j)
    decreases k
  {
    if k > 0 {
      SetBitBits(x / 2, k - 1, if j == 0 then 0 else j - 1, w - 1);
    }
  }

  lemma {:induction false} ClearBitBits(x: nat, k: nat, j: nat, w: nat)
    requires k < w && x < Pow2(w)
    ensures ClearBit(x, k) < Pow2(w)
    ensures Bit(ClearBit(x, k), j) <==> j != k && Bit(x, j)
    decreases k
  {
    if k > 0 {
      ClearBitBits(x / 2, k - 1, if j == 0 then 0 else j - 1, w - 1);
    }
  }

  /** 0xFF has all eight bits set. */
  lemma FullByte(k: nat)
    requires k < 8
    ensures Bit(255, k)
  {
    Pow2Values();
    FullBits(k, 8);
  }

  lemma {:induction false} FullBits(k: nat, w: nat)
    requires k < w
    ensures Bit(Pow2(w) - 1, k)
    decreases k
  {
    if k > 0 {
      FullBits(k - 1, w - 1);
    }
  }
}
