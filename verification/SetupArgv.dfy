/** setup_argv of kernel/syscall/proccall.c: the argument block on a new user stack. */
module SetupArgv {
  import opened Bytes
  import opened Kalloc
  import opened PageTree
  import opened Vm
  import opened Argv

  /** Where string i of the block starts: the strings are stacked downwards from sp, the last one first. */
  function StrAt(argv: seq<seq<u8>>, sp: int, i: nat): int
    requires i <= |argv|
    decreases |argv| - i
  {
    if i == |argv| then sp else StrAt(argv, sp, i + 1) - |argv[i]| - 1
  }

  lemma {:induction false} StrAtDescends(argv: seq<seq<u8>>, sp: int, i: nat, j: nat)
    requires i < j <= |argv|
    ensures StrAt(argv, sp, i) + |argv[i]| + 1 <= StrAt(argv, sp, j) <= sp
    decreases |argv| - i
  {
    if i + 1 < j {
      StrAtDescends(argv, sp, i + 1, j);
    } else if j < |argv| {
      StrAtDescends(argv, sp, j, |argv|);
    }
  }

  /** ALIGNDOWN(StrAt(0), 16) less the pointer array. */
  function ArgvBase(argv: seq<seq<u8>>, sp: int): int {
    StrAt(argv, sp, 0) / 16 * 16 - 8 * (|argv| + 1)
  }

  /** The strings lie one behind the other with their terminators and end at sp; the pointer array, with a null after
      the last, ends at the next address below them that is a multiple of 16. */
  lemma BaseFacts(argv: seq<seq<u8>>, sp: int)
    requires argv != []
    ensures StrAt(argv, sp, |argv|) == sp
    ensures forall i :: 0 <= i < |argv| ==> StrAt(argv, sp, i) + |argv[i]| + 1 == StrAt(argv, sp, i + 1)
    ensures (ArgvBase(argv, sp) + 8 * (|argv| + 1)) % 16 == 0
    ensures ArgvBase(argv, sp) + 8 * (|argv| + 1) <= StrAt(argv, sp, 0) < ArgvBase(argv, sp) + 8 * (|argv| + 1) + 16
    ensures ArgvBase(argv, sp) % 8 == 0 && StrAt(argv, sp, 0) < sp
  {
    StrAtDescends(argv, sp, 0, |argv|);
    hide StrAt;
    forall i | 0 <= i < |argv| ensures StrAt(argv, sp, i) + |argv[i]| + 1 == StrAt(argv, sp, i + 1) {
      NextString(argv, sp, i);
    }
    LastString(argv, sp);
    Down16(StrAt(argv, sp, 0), |argv| + 1);
  }

  lemma NextString(argv: seq<seq<u8>>, sp: int, i: nat)
    requires i < |argv|
    ensures StrAt(argv, sp, i) + |argv[i]| + 1 == StrAt(argv, sp, i + 1)
  {
  }

  lemma LastString(argv: seq<seq<u8>>, sp: int)
    ensures StrAt(argv, sp, |argv|) == sp
  {
  }

  lemma Down16(a: int, n: nat)
    ensures a / 16 * 16 % 16 == 0 && a / 16 * 16 <= a < a / 16 * 16 + 16 && (a / 16 * 16 - 8 * n) % 8 == 0
  {
  }

  /** The user reads these bytes at the address. */
  ghost predicate Shows(mem: Mem, root: nat, at: int, bytes: seq<u8>) {
    at >= 0 && forall j :: 0 <= j < |bytes| ==> UserByte(mem, root, at + j) == bytes[j]
  }

  /** Outside [lo, hi) the user reads what was there before. */
  ghost predicate Outside(mem0: Mem, mem: Mem, root: nat, lo: int, hi: int) {
    forall a: nat :: !(lo <= a < hi) ==> UserByte(mem, root, a) == UserByte(mem0, root, a)
  }

  lemma ShowsWritten(mem0: Mem, mem: Mem, root: nat, at: nat, bytes: seq<u8>)
    requires Wrote(mem0, mem, root, at, bytes)
    ensures Shows(mem, root, at, bytes)
  {
    hide UserByte;
  }

  lemma ShowsKept(mem0: Mem, mem: Mem, root: nat, at: nat, bytes: seq<u8>, x: int, shown: seq<u8>)
    requires Wrote(mem0, mem, root, at, bytes) && Shows(mem0, root, x, shown)
             && (x + |shown| <= at || at + |bytes| <= x)
    ensures Shows(mem, root, x, shown)
  {
    hide UserByte;
  }

  lemma OutsideNext(mem0: Mem, mem1: Mem, mem2: Mem, root: nat, lo: int, hi: int, at: nat, bytes: seq<u8>, lo': int)
    requires Outside(mem0, mem1, root, lo, hi) && Wrote(mem1, mem2, root, at, bytes) && lo' <= at && lo' <= lo
             && at + |bytes| <= hi
    ensures Outside(mem0, mem2, root, lo', hi)
  {
    hide UserByte;
  }

  /** Strings from number i on are in place. */
  ghost predicate Strings(mem: Mem, root: nat, argv: seq<seq<u8>>, sp: int, i: nat) {
    forall l :: i <= l < |argv| ==> Shows(mem, root, StrAt(argv, sp, l), argv[l] + [0])
  }

  /** Pointers below number i are in place. */
  ghost predicate Pointers(mem: Mem, root: nat, argv: seq<seq<u8>>, sp: int, i: nat) {
    forall l :: 0 <= l < i && l < |argv| ==>
      StrAt(argv, sp, l) >= 0 && Shows(mem, root, ArgvBase(argv, sp) + 8 * l, ToLe(StrAt(argv, sp, l), 8))
  }

  /** The user may touch all of [lo, hi). */
  ghost predicate CanTouch(mem: Mem, root: nat, lo: int, hi: int) {
    forall a: nat :: lo <= a < hi ==> Accessible(mem, root, a)
  }

  ghost predicate SameAccess(mem0: Mem, mem: Mem, root: nat) {
    forall a: nat :: Accessible(mem, root, a) == Accessible(mem0, root, a)
  }

  /** The user may touch the strings and the pointer array. */
  ghost predicate Writable(mem: Mem, root: nat, argv: seq<seq<u8>>, sp: int) {
    CanTouch(mem, root, StrAt(argv, sp, 0), sp)
      && CanTouch(mem, root, ArgvBase(argv, sp), ArgvBase(argv, sp) + 8 * (|argv| + 1))
  }

  lemma AccessSelf(mem: Mem, root: nat, a: int)
    ensures SameAccess(mem, mem, root) && CanTouch(mem, root, a, a)
  {
  }

  /** One copyout of len bytes, n of them done, beside what was copied before: [at + len, hi) or [lo, at). */
  lemma Touched(mem0: Mem, mem1: Mem, mem2: Mem, root: nat, at: nat, len: nat, n: nat, lo: int, hi: int)
    requires SameAccess(mem0, mem1, root) && SameAccess(mem1, mem2, root) && n <= len && lo <= at && at + len <= hi
    requires CanTouch(mem1, root, at, at + n) && (n < len ==> !Accessible(mem1, root, at + n))
    ensures SameAccess(mem0, mem2, root)
    ensures n < len ==> !CanTouch(mem0, root, lo, hi)
    ensures n == len && CanTouch(mem0, root, at + len, hi) ==> CanTouch(mem0, root, at, hi)
    ensures n == len && CanTouch(mem0, root, lo, at) ==> CanTouch(mem0, root, lo, at + len)
  {
    hide Accessible;
  }

  /** A write below all strings in place keeps them. */
  lemma StringsKept(mem0: Mem, mem: Mem, root: nat, argv: seq<seq<u8>>, sp: int, i: nat, at: nat, bytes: seq<u8>)
    requires i <= |argv| && Strings(mem0, root, argv, sp, i) && Wrote(mem0, mem, root, at, bytes)
             && at + |bytes| <= StrAt(argv, sp, i)
    ensures Strings(mem, root, argv, sp, i)
  {
    hide Wrote; hide Shows;
    forall l | i <= l < |argv| ensures Shows(mem, root, StrAt(argv, sp, l), argv[l] + [0]) {
      if i < l {
        StrAtDescends(argv, sp, i, l);
      }
      ShowsKept(mem0, mem, root, at, bytes, StrAt(argv, sp, l), argv[l] + [0]);
    }
  }

  lemma PointersKept(mem0: Mem, mem: Mem, root: nat, argv: seq<seq<u8>>, sp: int, i: nat, at: nat, bytes: seq<u8>)
    requires i <= |argv| && Pointers(mem0, root, argv, sp, i) && Wrote(mem0, mem, root, at, bytes)
             && at == ArgvBase(argv, sp) + 8 * i
    ensures Pointers(mem, root, argv, sp, i)
  {
    hide Wrote; hide Shows; hide ArgvBase;
    forall l | 0 <= l < i && l < |argv|
      ensures StrAt(argv, sp, l) >= 0 && Shows(mem, root, ArgvBase(argv, sp) + 8 * l, ToLe(StrAt(argv, sp, l), 8)) {
      ShowsKept(mem0, mem, root, at, bytes, ArgvBase(argv, sp) + 8 * l, ToLe(StrAt(argv, sp, l), 8));
    }
  }

  /** The first loop: strings from the top of the stack down. */
  method PutStrings(k: Kmem, root: nat, sp: nat, argv: seq<seq<u8>>, ptrs: array<int>, ghost tables: set<nat>)
      returns (ok: bool, base: int)
    requires Space(k, root, tables) && UserPages(k.mem, root, tables, k.free) && sp <= MAXVA && StrAt(argv, sp, 0) >= 0
    requires ptrs.Length == |argv| && ptrs as object != k
    modifies k, ptrs
    ensures Space(k, root, tables) && UserPages(k.mem, root, tables, k.free) && k.free == old(k.free)
    ensures Outside(old(k.mem), k.mem, root, StrAt(argv, sp, 0), sp)
    ensures SameAccess(old(k.mem), k.mem, root) && (ok <==> CanTouch(old(k.mem), root, StrAt(argv, sp, 0), sp))
    ensures ok ==> base == StrAt(argv, sp, 0) && Strings(k.mem, root, argv, sp, 0) && forall l :: 0 <= l < |argv| ==>
            ptrs[l] == StrAt(argv, sp, l)
  {
    hide Space; hide UserPages; hide Wrote; hide Accessible; hide Shows; hide Strings; hide Outside;
    ghost var mem0 := k.mem;
    AccessSelf(mem0, root, sp);
    var i := |argv|;
    base := sp;
    StringsStart(mem0, root, argv, sp);
    ok := true;
    while i > 0 && ok
      invariant 0 <= i <= |argv| && (ok ==> base == StrAt(argv, sp, i))
      invariant Space(k, root, tables) && UserPages(k.mem, root, tables, k.free) && k.free == old(k.free)
      invariant Outside(mem0, k.mem, root, if ok then StrAt(argv, sp, i) else StrAt(argv, sp, 0), sp)
      invariant SameAccess(mem0, k.mem, root)
      invariant if ok then CanTouch(mem0, root, StrAt(argv, sp, i), sp)
                else !CanTouch(mem0, root, StrAt(argv, sp, 0), sp)
      invariant ok ==> Strings(k.mem, root, argv, sp, i) && forall l :: i <= l < |argv| ==>
                ptrs[l] == StrAt(argv, sp, l)
      decreases if ok then 1 else 0, i
    {
      i := i - 1;
      var len := |argv[i]| + 1;
      base := base - len;
      if i > 0 {
        StrAtDescends(argv, sp, 0, i);
      }
      StrAtDescends(argv, sp, i, |argv|);
      ghost var mem1, n := k.mem, 0;
      ok, n := Copyout(k, root, base, argv[i] + [0], tables);
      StringPut(mem0, mem1, k.mem, root, argv, sp, i, base, n, ok);
      Touched(mem0, mem1, k.mem, root, base, len, n, StrAt(argv, sp, 0), sp);
      ptrs[i] := base;
    }
  }

  lemma StringsStart(mem: Mem, root: nat, argv: seq<seq<u8>>, sp: int)
    ensures Strings(mem, root, argv, sp, |argv|) && Outside(mem, mem, root, sp, sp)
  {
    hide UserByte;
  }

  lemma StringPut(mem0: Mem, mem1: Mem, mem2: Mem, root: nat, argv: seq<seq<u8>>, sp: nat, i: nat, base: nat, n: nat,
      ok: bool)
    requires i < |argv| && base == StrAt(argv, sp, i) && n <= |argv[i]| + 1 && (ok <==> n == |argv[i]| + 1)
             && StrAt(argv, sp, 0) >= 0
    requires Wrote(mem1, mem2, root, base, (argv[i] + [0])[..n]) && Strings(mem1, root, argv, sp, i + 1)
    requires Outside(mem0, mem1, root, StrAt(argv, sp, i + 1), sp) && StrAt(argv, sp, 0) <= base
    ensures Outside(mem0, mem2, root, if ok then base else StrAt(argv, sp, 0), sp)
    ensures ok ==> Strings(mem2, root, argv, sp, i)
  {
    hide Wrote; hide Shows; hide Outside;
    var put := (argv[i] + [0])[..n];
    StrAtDescends(argv, sp, i, |argv|);
    StrAtDescends(argv, sp, i, i + 1);
    OutsideNext(mem0, mem1, mem2, root, StrAt(argv, sp, i + 1), sp, base, put, base);
    OutsideNext(mem0, mem1, mem2, root, StrAt(argv, sp, i + 1), sp, base, put, StrAt(argv, sp, 0));
    if ok {
      assert put == argv[i] + [0];
      StringsKept(mem1, mem2, root, argv, sp, i + 1, base, put);
      ShowsWritten(mem1, mem2, root, base, put);
    }
  }

  /** The second loop and the null terminator. */
  method PutPointers(k: Kmem, root: nat, sp: nat, argv: seq<seq<u8>>, ptrs: array<int>, argvBase: nat,
      ghost tables: set<nat>) returns (ok: bool)
    requires Space(k, root, tables) && UserPages(k.mem, root, tables, k.free) && argv != [] && sp <= MAXVA
             && argvBase == ArgvBase(argv, sp)
    requires ptrs.Length == |argv| && (forall l :: 0 <= l < |argv| ==> ptrs[l] == StrAt(argv, sp, l))
             && Strings(k.mem, root, argv, sp, 0)
    modifies k
    ensures Space(k, root, tables) && UserPages(k.mem, root, tables, k.free) && k.free == old(k.free)
    ensures Outside(old(k.mem), k.mem, root, argvBase, sp)
    ensures ok <==> CanTouch(old(k.mem), root, argvBase, argvBase + 8 * (|argv| + 1))
    ensures ok ==> Strings(k.mem, root, argv, sp, 0) && Pointers(k.mem, root, argv, sp, |argv|)
                   && Shows(k.mem, root, argvBase + 8 * |argv|, ToLe(0, 8))
  {
    hide Space; hide UserPages; hide Wrote; hide Accessible; hide Shows; hide Strings; hide Outside; hide ArgvBase;
    hide Pointers;
    BaseFacts(argv, sp);
    ghost var mem0 := k.mem;
    PointersStart(mem0, root, argv, sp, argvBase);
    AccessSelf(mem0, root, argvBase);
    ok := true;
    var i := 0;
    while i < |argv| && ok
      invariant 0 <= i <= |argv|
      invariant Space(k, root, tables) && UserPages(k.mem, root, tables, k.free) && k.free == old(k.free)
      invariant Outside(mem0, k.mem, root, argvBase, sp)
      invariant SameAccess(mem0, k.mem, root)
      invariant if ok then CanTouch(mem0, root, argvBase, argvBase + 8 * i)
                else !CanTouch(mem0, root, argvBase, argvBase + 8 * (|argv| + 1))
      invariant ok ==> Strings(k.mem, root, argv, sp, 0) && Pointers(k.mem, root, argv, sp, i)
      decreases if ok then 1 else 0, |argv| - i
    {
      ghost var mem1, n := k.mem, 0;
      StringsAbove(mem1, root, argv, sp, i);
      ok, n := Copyout(k, root, argvBase + i * 8, ToLe(ptrs[i], 8), tables);
      PointerPut(mem0, mem1, k.mem, root, argv, sp, i, ToLe(StrAt(argv, sp, i), 8), n, ok);
      Touched(mem0, mem1, k.mem, root, argvBase + i * 8, 8, n, argvBase, argvBase + 8 * (|argv| + 1));
      i := i + 1;
    }
    if ok {
      ghost var mem1, n := k.mem, 0;
      ok, n := Copyout(k, root, argvBase + |argv| * 8, ToLe(0, 8), tables);
      PointerPut(mem0, mem1, k.mem, root, argv, sp, |argv|, ToLe(0, 8), n, ok);
      Touched(mem0, mem1, k.mem, root, argvBase + |argv| * 8, 8, n, argvBase, argvBase + 8 * (|argv| + 1));
    }
  }

  lemma StringsAbove(mem: Mem, root: nat, argv: seq<seq<u8>>, sp: int, i: nat)
    requires Strings(mem, root, argv, sp, 0) && i < |argv|
    ensures StrAt(argv, sp, i) >= 0
  {
    hide UserByte;
  }

  lemma PointersStart(mem: Mem, root: nat, argv: seq<seq<u8>>, sp: int, lo: int)
    ensures Pointers(mem, root, argv, sp, 0) && Outside(mem, mem, root, lo, sp)
  {
    hide UserByte;
  }

  /** One word of the pointer array, or the terminator when i is the argument count. */
  lemma PointerPut(mem0: Mem, mem1: Mem, mem2: Mem, root: nat, argv: seq<seq<u8>>, sp: nat, i: nat, word: seq<u8>,
      n: nat, ok: bool)
    requires argv != [] && i <= |argv| && |word| == 8 && n <= 8 && (ok <==> n == 8) && ArgvBase(argv, sp) >= 0
    requires i < |argv| ==> StrAt(argv, sp, i) >= 0 && word == ToLe(StrAt(argv, sp, i), 8)
    requires Wrote(mem1, mem2, root, ArgvBase(argv, sp) + 8 * i, word[..n]) && Strings(mem1, root, argv, sp, 0)
             && Pointers(mem1, root, argv, sp, i)
    requires Outside(mem0, mem1, root, ArgvBase(argv, sp), sp)
    ensures Outside(mem0, mem2, root, ArgvBase(argv, sp), sp)
    ensures ok ==>
            && Strings(mem2, root, argv, sp, 0) && Pointers(mem2, root, argv, sp, i)
            && Pointers(mem2, root, argv, sp, i + 1) && Shows(mem2, root, ArgvBase(argv, sp) + 8 * i, word)
  {
    hide Wrote; hide Shows; hide Outside; hide ArgvBase; hide Strings;
    BaseFacts(argv, sp);
    var at := ArgvBase(argv, sp) + 8 * i;
    OutsideNext(mem0, mem1, mem2, root, ArgvBase(argv, sp), sp, at, word[..n], ArgvBase(argv, sp));
    if ok {
      assert word[..n] == word;
      StringsKept(mem1, mem2, root, argv, sp, 0, at, word);
      PointersKept(mem1, mem2, root, argv, sp, i, at, word);
      ShowsWritten(mem1, mem2, root, at, word);
    }
  }

  /** setup_argv.  No arguments: nothing is written.  On success the new stack pointer is 8-byte aligned and is the
      argument array: pointer i, read as a little-endian word, leads to an exact copy of argument i with its
      terminator, a null word follows the last, strings and array are apart and below the old stack pointer, and
      user memory outside reads as before.  It fails exactly when kmalloc has no memory or the user may
      not touch some byte of a string or of the array. */
  method Setup(k: Kmem, root: nat, sp: nat, argv: seq<seq<u8>>, memory: bool, ghost tables: set<nat>)
    returns (ok: bool, sp': nat, argc: nat, argvOut: nat)
    requires Space(k, root, tables) && UserPages(k.mem, root, tables, k.free) && sp <= MAXVA
    requires argv != [] ==> ArgvBase(argv, sp) >= 0
    modifies k
    ensures Space(k, root, tables) && UserPages(k.mem, root, tables, k.free) && k.free == old(k.free)
    ensures ok <==> argv == [] || (memory && Writable(old(k.mem), root, argv, sp))
    ensures argv == [] ==> ok && sp' == sp && argc == 0 && argvOut == 0 && k.mem == old(k.mem)
    ensures argv != [] ==> Outside(old(k.mem), k.mem, root, ArgvBase(argv, sp), sp)
    ensures argv != [] && ok ==>
              && sp' == argvOut == ArgvBase(argv, sp) && sp' % 8 == 0 && argc == |argv|
              && Strings(k.mem, root, argv, sp, 0) && Pointers(k.mem, root, argv, sp, argc)
              && Shows(k.mem, root, argvOut + 8 * argc, ToLe(0, 8))
    ensures !ok ==> sp' == sp
  {
    hide Space; hide UserPages; hide Wrote; hide Accessible; hide Shows; hide Strings; hide Outside; hide Pointers;
    hide CanTouch; hide ArgvBase;
    ok, sp', argc, argvOut := true, sp, 0, 0;
    if |argv| == 0 {
      return;
    }
    BaseFacts(argv, sp);
    PointersStart(k.mem, root, argv, sp, ArgvBase(argv, sp));
    if !memory {
      ok := false;
      return;
    }
    var ptrs := new int[|argv|];
    ghost var mem0 := k.mem;
    var base;
    ok, base := PutStrings(k, root, sp, argv, ptrs, tables);
    ghost var mem1 := k.mem;
    OutsideWider(mem0, mem1, root, StrAt(argv, sp, 0), ArgvBase(argv, sp), sp);
    if !ok {
      return;
    }
    base := base / 16 * 16;
    var argvBase := base - (|argv| + 1) * 8;
    BaseIs(argv, sp, argvBase);
    SameTouch(mem0, mem1, root, argvBase, argvBase + 8 * (|argv| + 1));
    ok := PutPointers(k, root, sp, argv, ptrs, argvBase, tables);
    OutsideTwice(mem0, mem1, k.mem, root, ArgvBase(argv, sp), sp);
    if !ok {
      return;
    }
    sp', argc, argvOut := argvBase, |argv|, argvBase;
  }

  lemma BaseIs(argv: seq<seq<u8>>, sp: int, base: int)
    requires base == StrAt(argv, sp, 0) / 16 * 16 - (|argv| + 1) * 8
    ensures base == ArgvBase(argv, sp)
  {
  }

  lemma SameTouch(mem0: Mem, mem1: Mem, root: nat, lo: int, hi: int)
    requires SameAccess(mem0, mem1, root)
    ensures CanTouch(mem1, root, lo, hi) == CanTouch(mem0, root, lo, hi)
  {
    hide Accessible;
  }

  lemma OutsideWider(mem0: Mem, mem: Mem, root: nat, lo: int, lo': int, hi: int)
    requires Outside(mem0, mem, root, lo, hi) && lo' <= lo
    ensures Outside(mem0, mem, root, lo', hi)
  {
    hide UserByte;
  }

  lemma OutsideTwice(mem0: Mem, mem1: Mem, mem2: Mem, root: nat, lo: int, hi: int)
    requires Outside(mem0, mem1, root, lo, hi) && Outside(mem1, mem2, root, lo, hi)
    ensures Outside(mem0, mem2, root, lo, hi)
  {
    hide UserByte;
  }

  /** Reading a pointer back as a word gives the address that was stored. */
  lemma PointerWord(mem: Mem, root: nat, argv: seq<seq<u8>>, sp: int, l: nat)
    requires Pointers(mem, root, argv, sp, |argv|) && l < |argv| && sp <= MAXVA
    ensures 0 <= StrAt(argv, sp, l) && Le(UserRead(mem, root, ArgvBase(argv, sp) + 8 * l, 8)) == StrAt(argv, sp, l)
  {
    hide UserByte; hide ArgvBase;
    Pow256Values();
    StrAtDescends(argv, sp, l, |argv|);
    LeRoundTrip(StrAt(argv, sp, l), 8);
    var at := ArgvBase(argv, sp) + 8 * l;
    ReadIsBytes(mem, root, at, ToLe(StrAt(argv, sp, l), 8));
  }

  /** n bytes of user memory. */
  ghost function UserRead(mem: Mem, root: nat, at: int, n: nat): (r: seq<u8>)
    ensures |r| == n
  {
    if n == 0 then []
    else UserRead(mem, root, at, n - 1) + [if at + n - 1 >= 0 then UserByte(mem, root, at + n - 1) else 0]
  }

  lemma {:induction false} ReadIsBytes(mem: Mem, root: nat, at: int, bytes: seq<u8>)
    requires Shows(mem, root, at, bytes)
    ensures UserRead(mem, root, at, |bytes|) == bytes
  {
    hide UserByte;
    if bytes != [] {
      var front := bytes[..|bytes| - 1];
      assert Shows(mem, root, at, front);
      ReadIsBytes(mem, root, at, front);
    }
  }
}
