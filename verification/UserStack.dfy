/** The user stack of kexec in kernel/syscall/proccall.c: pages from kalloc mapped for the user, and the argument block
    copied onto them. */
module UserStack {
  import opened Bytes
  import opened Kalloc
  import opened PageTree
  import opened Vm
  import opened Argv
  import opened SetupArgv

  const KERNBASE: nat := 0x8020_0000
  const STACK_SIZE: nat := 2 * PGSIZE

  /** PTE_R | PTE_W | PTE_U | PTE_V */
  const STACK_PERM: u8 := 0x17

  /** At [lo, hi) there is fresh zeroed memory, for the user when user is set; all other addresses are as before. */
  ghost predicate Opened(mem0: Mem, mem: Mem, root: nat, lo: nat, hi: nat, user: bool) {
    && (forall a: nat :: a < MAXVA ==>
          (Accessible(mem, root, a) <==> if lo <= a < hi then user else Accessible(mem0, root, a)))
    && (forall a: nat :: UserByte(mem, root, a) == if lo <= a < hi then 0 else UserByte(mem0, root, a))
  }

  lemma OpenedNothing(mem: Mem, root: nat, lo: nat, user: bool)
    ensures Opened(mem, mem, root, lo, lo, user)
  {
    hide Accessible; hide UserByte;
  }

  lemma OpenedNext(mem0: Mem, mem1: Mem, mem2: Mem, root: nat, lo: nat, mid: nat, hi: nat, user: bool)
    requires Opened(mem0, mem1, root, lo, mid, user) && Opened(mem1, mem2, root, mid, hi, user) && lo <= mid <= hi
    ensures Opened(mem0, mem2, root, lo, hi, user)
  {
    hide Accessible; hide UserByte;
  }

  /** User pages stay memory of their own when one of the free pages joins them and others become tables. */
  lemma OneMore(mem0: Mem, mem1: Mem, mem: Mem, root: nat, tables: set<nat>, free0: seq<nat>, free1: seq<nat>,
      tables': set<nat>, free: seq<nat>, va: nat, end: nat, pa: nat, perm: u8)
    requires UserPages(mem0, root, tables, free0) && SameEntries(mem0, mem1, root)
    requires pa in free0 && pa !in free1 && pa !in tables && (forall p :: p in free1 ==> p in free0)
    requires pa in mem0 && mem1 == mem0[pa := Zeros(PGSIZE)] && pa % PGSIZE == 0 && pa + PGSIZE <= 0x100_0000_0000_0000
    requires SamePool(tables, free1, tables', free) && OnlyIn(mem1, mem, tables')
    requires Mapped(mem1, mem, root, va, end, pa, WithV(perm)) && va % PGSIZE == 0 && va + PGSIZE <= MAXVA
    requires end == va || end == va + PGSIZE
    ensures UserPages(mem, root, tables', free)
    ensures Opened(mem0, mem, root, va, end, perm / 16 % 2 == 1)
  {
    hide Accessible; hide Frame; hide Mapped; hide SameEntries; hide Zeros; hide PageOf; hide WithV;
    SameAccessible(mem0, mem1, root);
    MappedAccess(mem1, mem, root, va, end, pa, perm);
    forall a: nat | va <= a < end ensures PageOf(a) == va {
      SamePage(a, va);
      Aligned(va);
    }
    forall a: nat ensures UserByte(mem, root, a) == if va <= a < end then 0 else UserByte(mem0, root, a) {
      InPage(a);
    }
  }

  lemma Aligned(va: nat)
    requires va % PGSIZE == 0
    ensures PageOf(va) == va
  {
  }

  lemma InPage(a: nat)
    ensures 0 <= a - PageOf(a) < PGSIZE
  {
  }

  lemma SameAccessible(mem0: Mem, mem1: Mem, root: nat)
    requires SameEntries(mem0, mem1, root)
    ensures forall a: nat :: Accessible(mem1, root, a) == Accessible(mem0, root, a)
    ensures forall a: nat :: Frame(mem1, root, a) == Frame(mem0, root, a)
  {
    hide Present; hide IsUser; hide Pa;
    SameEntryOf(mem0, mem1, root);
    hide EntryOf;
  }

  /** One round of the loops of kexec that give the process memory: kalloc, then vmmap.  On success the user finds one
      zeroed page at va, which he may touch exactly when bit 4 (PTE_U) of perm is set.  On failure memory was short and
      user memory is as it was; when it was vmmap that failed, nobody gives the page back: it is lost. */
  method MapPage(k: Kmem, root: nat, va: nat, perm: u8, ghost tables: set<nat>)
    returns (ok: bool, ghost tables': set<nat>, ghost lost: set<nat>)
    requires Space(k, root, tables) && UserPages(k.mem, root, tables, k.free)
    requires va % PGSIZE == 0 && va + PGSIZE <= MAXVA && IsLeaf(perm)
    requires forall p :: LeafPath(p) && VaOf(p) == va ==> !Present(Entry(k.mem, root, p))
    modifies k
    ensures Space(k, root, tables') && UserPages(k.mem, root, tables', k.free)
    ensures Opened(old(k.mem), k.mem, root, va, if ok then va + PGSIZE else va, perm / 16 % 2 == 1)
    ensures forall p :: LeafPath(p) && VaOf(p) != va ==> Entry(k.mem, root, p) == Entry(old(k.mem), root, p)
    ensures tables <= tables' && (!ok ==> k.free == [])
    ensures !ok ==> forall x :: x in tables' || x in k.free || x in lost <==> x in tables || x in old(k.free)
    ensures !ok ==> (lost == {} <==> old(k.free) == []) && |lost| <= 1
  {
    hide Space; hide Entry; hide LeafPath; hide VaOf; hide IsLeaf; hide Present; hide Zeros; hide Mapped;
    hide SameEntries; hide UserPages; hide Opened; hide WithV; hide SamePool; hide OnlyIn;
    ghost var mem0, free0 := k.mem, k.free;
    ok, tables', lost := false, tables, {};
    OpenedNothing(mem0, root, va, perm / 16 % 2 == 1);
    var pa := TakePage(k, root, tables);
    if pa == 0 {
      return;
    }
    ghost var mem1, free1, end := k.mem, k.free, 0;
    StillAbsent(mem0, mem1, root, va, va + PGSIZE);
    TopOfMemory(pa);
    ok, tables', end := Vmmap(k, root, va, PGSIZE, pa, perm, tables);
    Steps(va, end);
    OneMore(mem0, mem1, k.mem, root, tables, free0, free1, tables', k.free, va, end, pa, perm);
    EntriesElsewhere(mem0, mem1, k.mem, root, va, end, pa, WithV(perm));
    Accounted(tables, free0, free1, tables', k.free, pa);
    if !ok {
      lost := {pa};
    }
  }

  lemma Steps(va: nat, end: nat)
    requires va % PGSIZE == 0 && end % PGSIZE == 0 && va <= end <= va + PGSIZE
    ensures end == va || end == va + PGSIZE
  {
    if va < end {
      WholePages(va, end);
    }
  }

  lemma TopOfMemory(pa: nat)
    requires pa % PGSIZE == 0 && pa < 0x100_0000_0000_0000
    ensures pa + PGSIZE <= 0x100_0000_0000_0000
  {
    WholePages(pa, 0x100_0000_0000_0000);
  }

  lemma EntriesElsewhere(mem0: Mem, mem1: Mem, mem: Mem, root: nat, va: nat, end: nat, pa: nat, flags: u8)
    requires SameEntries(mem0, mem1, root) && Mapped(mem1, mem, root, va, end, pa, flags)
    requires va % PGSIZE == 0 && end <= va + PGSIZE
    ensures forall p :: LeafPath(p) && VaOf(p) != va ==> Entry(mem, root, p) == Entry(mem0, root, p)
  {
    hide Entry; hide VaOf; hide LeafPath; hide Pte;
    OnePage(va);
  }

  lemma Accounted(tables: set<nat>, free0: seq<nat>, free1: seq<nat>, tables': set<nat>, free: seq<nat>, pa: nat)
    requires SamePool(tables, free1, tables', free) && free0 != [] && pa == free0[0] && free1 == free0[1..]
    ensures tables <= tables'
    ensures forall x :: x in tables' || x in free || x == pa <==> x in tables || x in free0
  {
    assert free0 == [pa] + free1;
  }

  /** The loop that maps the stack: every address of it is the user's and reads zero, or memory was short and only a
      part of it is there. */
  method MapStack(k: Kmem, root: nat, ghost tables: set<nat>)
    returns (ok: bool, ghost tables': set<nat>, ghost end: nat)
    requires Space(k, root, tables) && UserPages(k.mem, root, tables, k.free)
    requires forall p :: LeafPath(p) && KERNBASE - STACK_SIZE <= VaOf(p) < KERNBASE ==> !Present(Entry(k.mem, root, p))
    modifies k
    ensures Space(k, root, tables') && UserPages(k.mem, root, tables', k.free)
    ensures KERNBASE - STACK_SIZE <= end <= KERNBASE && (ok <==> end == KERNBASE) && (!ok ==> k.free == [])
    ensures Opened(old(k.mem), k.mem, root, KERNBASE - STACK_SIZE, end, true)
  {
    hide Space; hide Entry; hide VaOf; hide Present; hide UserPages; hide Opened;
    ghost var mem0, bottom := k.mem, KERNBASE - STACK_SIZE;
    var v := KERNBASE - STACK_SIZE;
    ok, tables', end := true, tables, v;
    OpenedNothing(mem0, root, bottom, true);
    StackPerm();
    while v < KERNBASE && ok
      invariant bottom <= v <= KERNBASE && v % PGSIZE == 0 && end == v && (!ok ==> v < KERNBASE && k.free == [])
      invariant Space(k, root, tables') && UserPages(k.mem, root, tables', k.free)
      invariant Opened(mem0, k.mem, root, bottom, end, true)
      invariant forall p :: LeafPath(p) && v <= VaOf(p) < KERNBASE && ok ==> !Present(Entry(k.mem, root, p))
      decreases if ok then 1 else 0, KERNBASE - v
    {
      ghost var mem1, lost := k.mem, {};
      WholePages(v, KERNBASE);
      ok, tables', lost := MapPage(k, root, v, STACK_PERM, tables');
      OpenedNext(mem0, mem1, k.mem, root, bottom, v, if ok then v + PGSIZE else v, true);
      if ok {
        v := v + PGSIZE;
        end := v;
      }
    }
  }

  lemma StackPerm()
    ensures IsLeaf(STACK_PERM) && STACK_PERM / 16 % 2 == 1
    ensures KERNBASE % PGSIZE == 0 && KERNBASE < MAXVA
  {
  }

  /** The stack and the argument block of a new process.  Once the stack is mapped, a block that fits on it is set up
      whenever kmalloc has memory for the pointer array; the process then finds its arguments through sp, and every
      other byte of its stack is zero. */
  method StartStack(k: Kmem, root: nat, argv: seq<seq<u8>>, memory: bool, ghost tables: set<nat>)
    returns (ok: bool, sp: nat, argc: nat, argvOut: nat, ghost mapped: bool, ghost tables': set<nat>)
    requires Space(k, root, tables) && UserPages(k.mem, root, tables, k.free)
    requires forall p :: LeafPath(p) && KERNBASE - STACK_SIZE <= VaOf(p) < KERNBASE ==> !Present(Entry(k.mem, root, p))
    requires argv != [] ==> ArgvBase(argv, KERNBASE) >= 0
    modifies k
    ensures Space(k, root, tables') && UserPages(k.mem, root, tables', k.free)
    ensures !mapped ==> !ok && k.free == []
    ensures mapped && (argv == [] || KERNBASE - STACK_SIZE <= ArgvBase(argv, KERNBASE)) ==>
              (ok <==> argv == [] || memory)
    ensures argv == [] && ok ==> sp == KERNBASE && argc == 0 && argvOut == 0
    ensures argv != [] && ok ==>
              && sp == argvOut == ArgvBase(argv, KERNBASE) && argc == |argv|
              && Strings(k.mem, root, argv, KERNBASE, 0) && Pointers(k.mem, root, argv, KERNBASE, argc)
              && Shows(k.mem, root, argvOut + 8 * argc, ToLe(0, 8))
    ensures ok ==> forall a: nat :: KERNBASE - STACK_SIZE <= a < KERNBASE && a < sp ==> UserByte(k.mem, root, a) == 0
  {
    hide Space; hide Entry; hide LeafPath; hide VaOf; hide Present; hide UserPages; hide Opened; hide Writable;
    hide Outside; hide Strings; hide Pointers; hide Shows; hide UserByte; hide ArgvBase;
    ghost var mem0, end := k.mem, 0;
    ok, sp, argc, argvOut, mapped := false, KERNBASE, 0, 0, false;
    var got;
    got, tables', end := MapStack(k, root, tables);
    if !got {
      return;
    }
    mapped := true;
    ghost var mem1 := k.mem;
    StackPerm();
    if argv != [] {
      BlockFits(mem0, mem1, root, argv);
    }
    ok, sp, argc, argvOut := Setup(k, root, KERNBASE, argv, memory, tables');
    StillZero(mem0, mem1, k.mem, root, if argv == [] then KERNBASE else ArgvBase(argv, KERNBASE));
  }

  lemma BlockFits(mem0: Mem, mem: Mem, root: nat, argv: seq<seq<u8>>)
    requires Opened(mem0, mem, root, KERNBASE - STACK_SIZE, KERNBASE, true) && argv != []
    ensures KERNBASE - STACK_SIZE <= ArgvBase(argv, KERNBASE) ==> Writable(mem, root, argv, KERNBASE)
  {
    hide Accessible; hide UserByte; hide ArgvBase;
    BaseFacts(argv, KERNBASE);
    StackPerm();
  }

  lemma StillZero(mem0: Mem, mem1: Mem, mem: Mem, root: nat, lo: int)
    requires Opened(mem0, mem1, root, KERNBASE - STACK_SIZE, KERNBASE, true)
    requires mem == mem1 || Outside(mem1, mem, root, lo, KERNBASE)
    ensures forall a: nat :: KERNBASE - STACK_SIZE <= a < KERNBASE && a < lo ==> UserByte(mem, root, a) == 0
  {
    hide Accessible; hide UserByte;
  }
}
