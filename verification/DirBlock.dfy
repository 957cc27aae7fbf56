/** One block of an ext2 directory: variable-length records laid end to end, edited in place. */
module DirBlock {
  import opened Bytes

  const HEADER: nat := 8

  /** A live directory entry: a name and the inode it leads to. */
  datatype Binding = Binding(name: seq<u8>, ino: nat)

  function InoAt(b: Block, pos: nat): u32
    requires pos + HEADER <= BLKSZ
  {
    U32At(b, pos)
  }

  function RecLen(b: Block, pos: nat): u16
    requires pos + HEADER <= BLKSZ
  {
    U16At(b, pos + 4)
  }

  function NameLen(b: Block, pos: nat): u8
    requires pos + HEADER <= BLKSZ
  {
    b[pos + 6]
  }

  /** The space a record with an n-byte name needs: header and name, rounded up to 4. */
  function Needed(n: nat): (r: nat)
    ensures HEADER + n <= r < HEADER + n + 4 && r % 4 == 0
  {
    (HEADER + n + 3) / 4 * 4
  }

  function NameAt(b: Block, pos: nat): seq<u8>
    requires pos + HEADER <= BLKSZ && pos + HEADER + NameLen(b, pos) <= BLKSZ
  {
    b[pos + HEADER..pos + HEADER + NameLen(b, pos)]
  }

  /** struct ext2_dir_entry, byte by byte: inode at 0, rec_len at 4, name_len at 6, the name from 8 on. */
  lemma RecordFields(b: Block, pos: nat)
    requires pos + 8 <= BLKSZ && pos + 8 + b[pos + 6] as nat <= BLKSZ
    ensures InoAt(b, pos) == b[pos] as nat + 0x100 * b[pos + 1] as nat + 0x1_0000 * b[pos + 2] as nat
                             + 0x100_0000 * b[pos + 3] as nat
    ensures RecLen(b, pos) == b[pos + 4] as nat + 0x100 * b[pos + 5] as nat
    ensures NameAt(b, pos) == b[pos + 8..pos + 8 + b[pos + 6] as nat]
  {
    FieldBytes(b, pos);
    FieldBytes(b, pos + 4);
  }

  /** A well-formed record at pos: room for its name, and inside the block. */
  ghost predicate RecordOk(b: Block, pos: nat) {
    pos + HEADER <= BLKSZ && Needed(NameLen(b, pos)) <= RecLen(b, pos) && pos + RecLen(b, pos) <= BLKSZ
  }

  /** From pos on, well-formed records fill the block exactly. */
  ghost predicate Tiled(b: Block, pos: nat)
    decreases BLKSZ - pos
  {
    pos == BLKSZ || (RecordOk(b, pos) && Tiled(b, pos + RecLen(b, pos)))
  }

  /** What the record at pos contributes: nothing when its inode is 0. */
  ghost function Entry(b: Block, pos: nat): seq<Binding>
    requires RecordOk(b, pos)
  {
    if InoAt(b, pos) == 0 then [] else [Binding(NameAt(b, pos), InoAt(b, pos))]
  }

  /** The live entries from pos on. */
  ghost function Live(b: Block, pos: nat): seq<Binding>
    requires Tiled(b, pos)
    decreases BLKSZ - pos
  {
    if pos == BLKSZ then [] else Entry(b, pos) + Live(b, pos + RecLen(b, pos))
  }

  /** A directory block is a hole (its first record length reads 0) or tiled with records. */
  ghost predicate BlockOk(b: Block) {
    RecLen(b, 0) == 0 || Tiled(b, 0)
  }

  ghost function Bindings(b: Block): seq<Binding>
    requires BlockOk(b)
  {
    if RecLen(b, 0) == 0 then [] else Live(b, 0)
  }

  /** pos is reached from p by following record lengths. */
  ghost predicate OnChain(b: Block, p: nat, pos: nat)
    decreases BLKSZ - p
  {
    p == pos || (p < pos && RecordOk(b, p) && OnChain(b, p + RecLen(b, p), pos))
  }

  /** The live entries from p up to pos. */
  ghost function Before(b: Block, p: nat, pos: nat): seq<Binding>
    requires OnChain(b, p, pos)
    decreases BLKSZ - p
  {
    if p == pos then [] else Entry(b, p) + Before(b, p + RecLen(b, p), pos)
  }

  lemma {:induction false} ChainTiled(b: Block, p: nat, pos: nat)
    requires OnChain(b, p, pos)
    ensures pos <= BLKSZ ==> (Tiled(b, p) <==> Tiled(b, pos))
    ensures Tiled(b, p) ==> Tiled(b, pos)
    decreases BLKSZ - p
  {
    hide U16At; hide Needed;
    if p != pos {
      ChainTiled(b, p + RecLen(b, p), pos);
    }
  }

  lemma {:induction false} ChainLive(b: Block, p: nat, pos: nat)
    requires OnChain(b, p, pos) && Tiled(b, p) && Tiled(b, pos)
    ensures Live(b, p) == Before(b, p, pos) + Live(b, pos)
    decreases BLKSZ - p
  {
    hide U16At; hide Needed; hide Entry;
    if p != pos {
      ChainTiled(b, p + RecLen(b, p), pos);
      ChainLive(b, p + RecLen(b, p), pos);
      assert Entry(b, p) + (Before(b, p + RecLen(b, p), pos) + Live(b, pos)) ==
             Entry(b, p) + Before(b, p + RecLen(b, p), pos) + Live(b, pos);
    }
  }

  lemma {:induction false} ChainExtend(b: Block, p: nat, pos: nat)
    requires OnChain(b, p, pos) && RecordOk(b, pos)
    ensures OnChain(b, p, pos + RecLen(b, pos))
    ensures Before(b, p, pos + RecLen(b, pos)) == Before(b, p, pos) + Entry(b, pos)
    decreases BLKSZ - p
  {
    if p != pos {
      ChainExtend(b, p + RecLen(b, p), pos);
    }
  }

  /** A record reads only its own bytes. */
  lemma RecordFrame(b: Block, c: Block, pos: nat)
    requires RecordOk(b, pos)
    requires forall i :: pos <= i < pos + RecLen(b, pos) ==> c[i] == b[i]
    ensures RecordOk(c, pos) && RecLen(c, pos) == RecLen(b, pos) && Entry(c, pos) == Entry(b, pos)
  {
    FieldFrame(b, c, pos, 4);
    FieldFrame(b, c, pos + 4, 2);
    assert c[pos + HEADER..pos + HEADER + NameLen(b, pos)] == b[pos + HEADER..pos + HEADER + NameLen(b, pos)];
  }

  /** Records before pos do not notice changes from pos on. */
  lemma {:induction false} ChainFrame(b: Block, c: Block, p: nat, pos: nat)
    requires OnChain(b, p, pos)
    requires forall i :: p <= i < pos && i < BLKSZ ==> c[i] == b[i]
    ensures OnChain(c, p, pos) && Before(c, p, pos) == Before(b, p, pos)
    decreases BLKSZ - p
  {
    hide U16At; hide Needed; hide Entry;
    if p != pos {
      ChainBound(b, p + RecLen(b, p), pos);
      RecordFrame(b, c, p);
      ChainFrame(b, c, p + RecLen(b, p), pos);
    }
  }

  lemma {:induction false} ChainBound(b: Block, p: nat, pos: nat)
    requires OnChain(b, p, pos)
    ensures p <= pos
  {
  }

  lemma RecordAt(b: Block, pos: nat)
    requires Tiled(b, pos) && pos != BLKSZ
    ensures RecordOk(b, pos) && pos < pos + RecLen(b, pos) <= BLKSZ && Tiled(b, pos + RecLen(b, pos))
    ensures Live(b, pos) == Entry(b, pos) + Live(b, pos + RecLen(b, pos))
  {
    hide U16At; hide Needed; hide Entry;
  }

  lemma RecordThenTail(b: Block, pos: nat)
    requires RecordOk(b, pos) && Tiled(b, pos + RecLen(b, pos))
    ensures Tiled(b, pos) && Live(b, pos) == Entry(b, pos) + Live(b, pos + RecLen(b, pos))
  {
    hide U16At; hide Needed; hide Entry;
  }

  lemma NoTail(b: Block)
    ensures Tiled(b, BLKSZ) && Live(b, BLKSZ) == []
  {
  }

  /** Records from pos on do not notice changes before pos. */
  lemma {:induction false} TailFrame(b: Block, c: Block, pos: nat)
    requires Tiled(b, pos)
    requires forall i :: pos <= i < BLKSZ ==> c[i] == b[i]
    ensures Tiled(c, pos) && Live(c, pos) == Live(b, pos)
    decreases BLKSZ - pos
  {
    hide Tiled; hide Live; hide RecordOk; hide RecLen; hide Entry;
    if pos == BLKSZ {
      NoTail(b);
      NoTail(c);
    } else {
      RecordAt(b, pos);
      RecordFrame(b, c, pos);
      TailFrame(b, c, pos + RecLen(b, pos));
      RecordThenTail(c, pos);
    }
  }

  // Edits

  /** The bytes of a record up to the end of its name. */
  function RecordBytes(ino: u32, recLen: u16, fileType: u8, name: seq<u8>): (s: seq<u8>)
    requires |name| < 256
    ensures |s| == HEADER + |name|
  {
    ToLe(ino, 4) + ToLe(recLen, 2) + [|name|, fileType] + name
  }

  /** The bytes written: the type of the file at 7. */
  lemma BytesOfRecord(ino: u32, recLen: u16, fileType: u8, name: seq<u8>)
    requires |name| < 256
    ensures var s := RecordBytes(ino, recLen, fileType, name);
            && s[0] == ino % 256 && s[1] == ino / 0x100 % 256 && s[2] == ino / 0x1_0000 % 256
            && s[3] == ino / 0x100_0000 % 256 && s[4] == recLen % 256 && s[5] == recLen / 0x100 % 256
            && s[6] == |name| && s[7] == fileType && s[8..] == name
  {
    DigitsOf(ino, 4);
    DigitsOf(recLen, 2);
  }

  /** The record just written reads back, and bytes outside it are as before. */
  lemma NewRecord(b: Block, pos: nat, ino: u32, recLen: u16, fileType: u8, name: seq<u8>)
    requires 0 < |name| < 256 && Needed(|name|) <= recLen && pos + recLen <= BLKSZ && ino != 0
    ensures var c := Splice(b, pos, RecordBytes(ino, recLen, fileType, name));
            && RecordOk(c, pos) && RecLen(c, pos) == recLen && Entry(c, pos) == [Binding(name, ino)]
            && forall i :: 0 <= i < BLKSZ && !(pos <= i < pos + HEADER + |name|) ==> c[i] == b[i]
  {
    Pow256Values();
    var rec := RecordBytes(ino, recLen, fileType, name);
    var c := Splice(b, pos, rec);
    SpliceBytes(b, pos, rec);
    LeRoundTrip(ino, 4);
    LeRoundTrip(recLen, 2);
    assert c[pos..pos + 4] == ToLe(ino, 4) by {
      assert forall i :: 0 <= i < 4 ==> c[pos + i] == rec[i];
    }
    assert c[pos + 4..pos + 6] == ToLe(recLen, 2) by {
      assert forall i :: 4 <= i < 6 ==> c[pos + i] == rec[i];
    }
    assert c[pos + 6] == rec[6] == |name|;
    assert c[pos + HEADER..pos + HEADER + |name|] == name by {
      assert forall i :: HEADER <= i < HEADER + |name| ==> c[pos + i] == rec[i];
    }
  }

  /** Changing a record's length keeps what it says, as long as its name still fits. */
  lemma Relength(b: Block, pos: nat, recLen: u16)
    requires RecordOk(b, pos) && Needed(NameLen(b, pos)) <= recLen && pos + recLen <= BLKSZ
    ensures var c := PutU16(b, pos + 4, recLen);
            && RecordOk(c, pos) && RecLen(c, pos) == recLen && Entry(c, pos) == Entry(b, pos)
            && forall i :: 0 <= i < BLKSZ && !(pos + 4 <= i < pos + 6) ==> c[i] == b[i]
  {
    var c := PutU16(b, pos + 4, recLen);
    PutU16Get(b, pos + 4, recLen);
    FieldFrame(b, c, pos, 4);
    assert c[pos + HEADER..pos + HEADER + NameLen(b, pos)] == b[pos + HEADER..pos + HEADER + NameLen(b, pos)];
  }

  /** Where a record stands among the entries of its block. */
  lemma Around(b: Block, pos: nat)
    requires Tiled(b, 0) && OnChain(b, 0, pos) && pos < BLKSZ
    ensures RecordOk(b, pos) && Tiled(b, pos + RecLen(b, pos))
    ensures Live(b, 0) == Before(b, 0, pos) + Entry(b, pos) + Live(b, pos + RecLen(b, pos))
  {
    hide Entry; hide Needed; hide U16At;
    ChainTiled(b, 0, pos);
    ChainLive(b, 0, pos);
    assert Before(b, 0, pos) + (Entry(b, pos) + Live(b, pos + RecLen(b, pos)))
        == Before(b, 0, pos) + Entry(b, pos) + Live(b, pos + RecLen(b, pos));
  }

  /** A block that agrees with b before pos and continues with one good record and then a good tail. */
  lemma Assemble(b: Block, c: Block, pos: nat)
    requires OnChain(b, 0, pos) && pos < BLKSZ && (forall i :: 0 <= i < pos ==> c[i] == b[i])
    requires RecordOk(c, pos) && Tiled(c, pos + RecLen(c, pos))
    ensures Tiled(c, 0) && OnChain(c, 0, pos)
    ensures Live(c, 0) == Before(b, 0, pos) + Entry(c, pos) + Live(c, pos + RecLen(c, pos))
  {
    ChainFrame(b, c, 0, pos);
    hide Entry; hide Needed; hide U16At;
    assert Tiled(c, pos);
    ChainTiled(c, 0, pos);
    Around(c, pos);
  }

  /** The add edit: shorten the record at pos to what it needs and put the new record into the slack. */
  function SplitInsert(b: Block, pos: nat, ino: u32, fileType: u8, name: seq<u8>): Block
    requires RecordOk(b, pos) && |name| < 256
    requires Needed(NameLen(b, pos)) + Needed(|name|) <= RecLen(b, pos)
  {
    var actual := Needed(NameLen(b, pos));
    Splice(PutU16(b, pos + 4, actual), pos + actual, RecordBytes(ino, RecLen(b, pos) - actual, fileType, name))
  }

  /** The entry x appears in c right after the record at pos, and nothing else changes. */
  ghost predicate Inserted(b: Block, c: Block, pos: nat, x: Binding)
    requires OnChain(b, 0, pos) && RecordOk(b, pos)
  {
    var next := pos + RecLen(b, pos);
    && Tiled(b, 0) && Tiled(c, 0) && Tiled(b, next)
    && Live(b, 0) == Before(b, 0, pos) + Entry(b, pos) + Live(b, next)
    && Live(c, 0) == Before(b, 0, pos) + Entry(b, pos) + [x] + Live(b, next)
  }

  /** Exactly the new entry appears, right after the record that gave up its slack. */
  lemma SplitInsertLive(b: Block, pos: nat, ino: u32, fileType: u8, name: seq<u8>)
    requires Tiled(b, 0) && OnChain(b, 0, pos) && pos < BLKSZ && RecordOk(b, pos)
    requires 0 < |name| < 256 && ino != 0 && Needed(NameLen(b, pos)) + Needed(|name|) <= RecLen(b, pos)
    ensures Inserted(b, SplitInsert(b, pos, ino, fileType, name), pos, Binding(name, ino))
  {
    hide Tiled; hide Live; hide OnChain; hide Before; hide Entry; hide Needed; hide U16At; hide Splice; hide PutU16;
    hide RecordBytes;
    Around(b, pos);
    var actual, r := Needed(NameLen(b, pos)), RecLen(b, pos);
    var b1 := PutU16(b, pos + 4, actual);
    var c := SplitInsert(b, pos, ino, fileType, name);
    Relength(b, pos, actual);
    NewRecord(b1, pos + actual, ino, r - actual, fileType, name);
    RecordFrame(b1, c, pos);
    TailFrame(b, c, pos + r);
    Cons(c, pos + actual);
    Assemble(b, c, pos);
    Reassoc(Before(b, 0, pos) + Entry(b, pos), [Binding(name, ino)], Live(b, pos + r));
  }

  lemma Reassoc<T>(a: seq<T>, b: seq<T>, c: seq<T>)
    ensures a + (b + c) == a + b + c
  {
  }

  lemma Cons(b: Block, pos: nat)
    requires RecordOk(b, pos) && Tiled(b, pos + RecLen(b, pos))
    ensures Tiled(b, pos) && Live(b, pos) == Entry(b, pos) + Live(b, pos + RecLen(b, pos))
  {
  }

  /** Block c says what b says without the record at pos, which next follows. */
  ghost predicate RecordGone(b: Block, c: Block, pos: nat, next: nat) {
    && Tiled(b, 0) && OnChain(b, 0, pos) && RecordOk(b, pos) && Tiled(b, next) && Tiled(c, 0)
    && Live(b, 0) == Before(b, 0, pos) + Entry(b, pos) + Live(b, next)
    && Live(c, 0) == Before(b, 0, pos) + Live(b, next)
  }

  /** The unlink edit for a record with a predecessor in its block. */
  lemma MergeLive(b: Block, prev: nat, pos: nat)
    requires Tiled(b, 0) && OnChain(b, 0, prev) && prev < BLKSZ && RecordOk(b, prev)
    requires pos == prev + RecLen(b, prev) && RecordOk(b, pos)
    ensures RecLen(b, prev) + RecLen(b, pos) < 0x1_0000
    ensures RecordGone(b, PutU16(b, prev + 4, RecLen(b, prev) + RecLen(b, pos)), pos, pos + RecLen(b, pos))
  {
    hide Tiled; hide Live; hide OnChain; hide Before; hide Entry; hide Needed; hide U16At; hide PutU16;
    ChainExtend(b, 0, prev);
    Around(b, pos);
    var both := RecLen(b, prev) + RecLen(b, pos);
    var c := PutU16(b, prev + 4, both);
    Relength(b, prev, both);
    TailFrame(b, c, pos + RecLen(b, pos));
    Assemble(b, c, prev);
  }

  /** The unlink edit for the first record of a block. */
  lemma ZeroFirstLive(b: Block)
    requires Tiled(b, 0)
    ensures RecLen(PutU32(b, 0, 0), 0) == RecLen(b, 0) && RecordGone(b, PutU32(b, 0, 0), 0, RecLen(b, 0))
  {
    hide Tiled; hide Live; hide RecordOk; hide RecLen; hide Entry; hide PutU32; hide OnChain; hide Before;
    var c := PutU32(b, 0, 0);
    RecordAt(b, 0);
    ZeroedRecord(b);
    TailFrame(b, c, RecLen(b, 0));
    RecordThenTail(c, 0);
    NothingBeforeFirst(b);
    assert [] + Live(b, RecLen(b, 0)) == Live(b, RecLen(b, 0));
    assert [] + Entry(b, 0) == Entry(b, 0);
  }

  lemma NothingBeforeFirst(b: Block)
    ensures OnChain(b, 0, 0) && Before(b, 0, 0) == []
  {
  }

  /** The first record with its inode number cleared. */
  lemma ZeroedRecord(b: Block)
    requires RecordOk(b, 0)
    ensures var c := PutU32(b, 0, 0);
            && RecordOk(c, 0) && RecLen(c, 0) == RecLen(b, 0) && Entry(c, 0) == []
            && forall i :: RecLen(b, 0) <= i < BLKSZ ==> c[i] == b[i]
  {
    hide ToLe; hide Le;
    var c := PutU32(b, 0, 0);
    PutU32Get(b, 0, 0);
    FieldFrame(b, c, 4, 2);
    hide PutU32; hide U32At; hide Needed;
  }

  /** A new block holding one record that fills it. */
  lemma FreshBlockLive(ino: u32, fileType: u8, name: seq<u8>)
    requires 0 < |name| < 256 && ino != 0
    ensures var c := Splice(Zeros(BLKSZ), 0, RecordBytes(ino, BLKSZ, fileType, name));
            RecLen(c, 0) != 0 && Tiled(c, 0) && Live(c, 0) == [Binding(name, ino)]
  {
    NewRecord(Zeros(BLKSZ), 0, ino, BLKSZ, fileType, name);
    hide Splice;
    var c := Splice(Zeros(BLKSZ), 0, RecordBytes(ino, BLKSZ, fileType, name));
    assert Tiled(c, BLKSZ);
  }
}
