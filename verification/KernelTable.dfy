/**
 The kernel page table: its static pages (pset3/k-hardware.cc) and the loops of
 `init_kernel_memory` and `kernel_start` that map physical memory, the callers of
 `vmiter::map` and `vmiter::try_map`.
 */
module KernelTable {
  import opened Wrappers
  import opened Paging
  import opened Phys
  import opened PageWrites
  import opened Vmiter

  const LARGE_FLAGS := Flags(true, true, false, true, 0)   // PTE_P | PTE_W | PTE_PS

  // ------------------------------------------------------------------
  // The static pages, in the frames from `base` to `base + 4`

  function TopTable(base: nat): Table {
    Filled(ZERO_ENTRY)[0 := Entry(base + 1, PWU_FLAGS)]
  }

  /** The first gigabyte through tables, the next three as large pages. */
  function GigaTable(base: nat): Table {
    Filled(ZERO_ENTRY)[0 := Entry(base + 2, PWU_FLAGS)][1 := Entry(0x4_0000, LARGE_FLAGS)]
    [2 := Entry(0x8_0000, LARGE_FLAGS)][3 := Entry(0xC_0000, LARGE_FLAGS)]
  }

  function MegaTable(base: nat): Table {
    Filled(ZERO_ENTRY)[0 := Entry(base + 3, PWU_FLAGS)][1 := Entry(base + 4, PWU_FLAGS)]
  }

  function StaticTables(m: Memory, base: nat): Memory {
    m[base := TopTable(base)][base + 1 := GigaTable(base)][base + 2 := MegaTable(base)]
    [base + 3 := Filled(ZERO_ENTRY)][base + 4 := Filled(ZERO_ENTRY)]
  }

  function StaticOwn(base: nat): map<nat, Spot> {
    map[base := Spot(3, 0), base + 1 := Spot(2, 0), base + 2 := Spot(1, 0),
        base + 3 := Spot(0, 0), base + 4 := Spot(0, 1)]
  }

  /** The pages are kernel data. */
  predicate InKernel(base: nat, kernelEnd: nat) {
    KERNEL_START_ADDR <= base * PAGESIZE && (base + 5) * PAGESIZE <= kernelEnd
  }

  lemma {:induction false} StaticSmall(m: Memory, base: nat)
    ensures Small(StaticTables(m, base), StaticOwn(base))
  {
    var s := StaticTables(m, base);
    assert s[base + 2] == MegaTable(base) && s[base + 3] == s[base + 4] == Filled(ZERO_ENTRY);
  }

  lemma {:induction false} StaticShaped(m: Memory, base: nat)
    ensures Shaped(StaticTables(m, base), base, StaticOwn(base))
  {
    var s, own := StaticTables(m, base), StaticOwn(base);
    assert s[base] == TopTable(base) && s[base + 1] == GigaTable(base) && s[base + 2] == MegaTable(base);
    forall f, i | f in own && own[f].level > 0 && 0 <= i < 512 && PointsToTable(s[f][i])
      ensures s[f][i].frame in own && own[s[f][i].frame] == Spot(own[f].level - 1, own[f].prefix * 512 + i)
    {
    }
  }

  /** `kalloc` hands out none of the static pages, whatever their counts. */
  lemma {:induction false} StaticApart(m: Memory, base: nat, kernelEnd: nat, rc: seq<nat>)
    requires InKernel(base, kernelEnd)
    ensures Apart(StaticTables(m, base), base, StaticOwn(base), kernelEnd, rc)
  {
    hide Paging.Shaped, StaticTables;
    StaticShaped(m, base);
  }

  // ------------------------------------------------------------------
  // What the table means

  const GIB := 0x4000_0000

  function StaticMeaning(x: Address): Option<Mapping> {
    if GIB <= x < 4 * GIB then Some(Mapping(x, LARGE_FLAGS)) else None
  }

  /** Physical memory except page 0, for everyone. */
  function Identity(x: Address): Option<Mapping> {
    if PAGESIZE <= x < MEMSIZE_PHYSICAL then Some(Mapping(x, PWU_FLAGS)) else None
  }

  function KernelMeaning(x: Address): Option<Mapping> {
    if x < MEMSIZE_PHYSICAL then Identity(x) else StaticMeaning(x)
  }

  /** The parts of a low address. */
  lemma {:induction false} LowParts(x: Address)
    requires Canonical(x)
    ensures Idx(x, 3) == 0 <==> x < 512 * GIB
    ensures x < 512 * GIB ==> Idx(x, 2) == x / GIB && Offset(x, 2) == x - x / GIB * GIB
  {
  }

  /** Large page `k` of the static table maps its gigabyte to itself. */
  lemma {:induction false} LargePage(x: Address, k: nat)
    requires 1 <= k <= 3 && x / GIB == k
    ensures LeafBase(Entry(0x4_0000 * k, LARGE_FLAGS), 2) + (x - x / GIB * GIB) == x
  {
  }

  lemma {:induction false} GigaMeans(m: Memory, base: nat, x: Address)
    requires x < 512 * GIB
    ensures Access(StaticTables(m, base), base + 1, 2, x) == StaticMeaning(x)
  {
    hide Paging.Idx, Paging.Offset, LeafBase;
    LowParts(x);
    var s := StaticTables(m, base);
    var k := x / GIB;
    assert s[base + 1] == GigaTable(base);
    if k == 0 {
      EmptyBelow(m, base, x);
    } else if k <= 3 {
      LargePage(x, k);
    }
  }

  lemma {:induction false} EmptyBelow(m: Memory, base: nat, x: Address)
    ensures Access(StaticTables(m, base), base + 2, 1, x) == None
  {
    hide Paging.Idx;
    var s := StaticTables(m, base);
    assert s[base + 2] == MegaTable(base) && s[base + 3] == s[base + 4] == Filled(ZERO_ENTRY);
    assert Access(s, base + 3, 0, x) == Access(s, base + 4, 0, x) == None;
  }

  lemma {:induction false} StaticMeans(m: Memory, base: nat, x: Address)
    ensures Translate(StaticTables(m, base), base, x) == StaticMeaning(x)
  {
    hide Paging.Idx, Paging.Offset;
    if Canonical(x) {
      LowParts(x);
      var s := StaticTables(m, base);
      assert s[base] == TopTable(base);
      if x < 512 * GIB {
        GigaMeans(m, base, x);
      }
    }
  }

  /** The low two megabytes have a page table, and the way to it grants P, W and U. */
  predicate Served(m: Memory, root: nat) {
    var c := Fresh(m, root, 0);
    c.lbits == PAGEOFFBITS && c.perm.p && c.perm.w && c.perm.u
  }

  lemma {:induction false} StaticServed(m: Memory, base: nat)
    ensures Served(StaticTables(m, base), base)
  {
    var s := StaticTables(m, base);
    assert Idx(0, 3) == Idx(0, 2) == Idx(0, 1) == Idx(0, 0) == 0;
    assert s[base] == TopTable(base) && s[base + 1] == GigaTable(base) && s[base + 2] == MegaTable(base);
    var perm := Restrict(Entry(base + 1, PWU_FLAGS), ALL_FLAGS);
    assert Walk(s, base + 3, 0, 0, perm).lbits == 12;
    assert Walk(s, base + 2, 1, 0, perm) == Walk(s, base + 3, 0, 0, perm);
    assert Walk(s, base + 1, 2, 0, perm) == Walk(s, base + 2, 1, 0, perm);
  }

  // ------------------------------------------------------------------
  // Mapping page after page

  /** Pages under one page table have cursors that differ in the index only. */
  lemma {:induction false} SameTable(m: Memory, root: nat, x: Address, y: Address)
    requires Fresh(m, root, x).lbits == PAGEOFFBITS && x < MEMSIZE_PHYSICAL && y < MEMSIZE_PHYSICAL
    ensures Fresh(m, root, y).lbits == PAGEOFFBITS && Fresh(m, root, y).perm == Fresh(m, root, x).perm
  {
    hide Paging.Fresh, Paging.Idx;
    assert Prefix(x, 1) == Prefix(y, 1) == 0;
    Shortcut(m, root, x, y);
  }

  /** Below `a` the identity, elsewhere as before. */
  ghost predicate MappedBelow(m0: Memory, m: Memory, root: nat, a: nat) {
    forall x: Address :: Translate(m, root, x) == if x < a then Identity(x) else Translate(m0, root, x)
  }

  lemma {:induction false} PagePart(x: nat, a: nat)
    requires a % PAGESIZE == 0
    ensures x / PAGESIZE == a / PAGESIZE <==> a <= x < a + PAGESIZE
    ensures x / PAGESIZE == a / PAGESIZE ==> x % PAGESIZE == x - a
  {
  }

  lemma {:induction false} MapNext(m0: Memory, m1: Memory, m2: Memory, root: nat, a: Address)
    requires MappedBelow(m0, m1, root, a) && a % PAGESIZE == 0 && a < MEMSIZE_PHYSICAL
    requires Remapped(m1, m2, root, a, if a == 0 then None else Some(Mapping(a, PWU_FLAGS)))
    ensures MappedBelow(m0, m2, root, a + PAGESIZE)
  {
    hide Paging.Translate;
    forall x: Address
      ensures Translate(m2, root, x) == if x < a + PAGESIZE then Identity(x) else Translate(m0, root, x)
    {
      PagePart(x, a);
    }
  }

  /** `try_map` of one page to itself. */
  method MapPage(it: Vmiter, ghost m0: Memory, ghost own: map<nat, Spot>) returns (ghost own': map<nat, Spot>)
    requires it.mach.Valid() && Apart(it.mach.pages, it.pt, own, it.mach.kernelEnd, it.mach.refcount)
    requires Small(it.mach.pages, own) && it.Synced() && !it.Done()
    requires Served(it.mach.pages, it.pt) && it.va % PAGESIZE == 0 && it.va < MEMSIZE_PHYSICAL
    requires MappedBelow(m0, it.mach.pages, it.pt, it.va)
    modifies it, it.mach
    ensures it.mach.Valid() && Apart(it.mach.pages, it.pt, own', it.mach.kernelEnd, it.mach.refcount)
    ensures Small(it.mach.pages, own') && it.Synced() && !it.Done() && it.va == old(it.va)
    ensures Served(it.mach.pages, it.pt)
    ensures MappedBelow(m0, it.mach.pages, it.pt, it.va + PAGESIZE)
  {
    hide Apart, Paging.Small, Paging.Fresh, Paging.Shaped, MappedBelow, PageWrites.Remapped, Phys.Available,
         PageWrites.SameMeaning, Paging.Offset, Paging.Translate, Paging.Canonical;
    ghost var m1, a := it.mach.pages, it.va;
    SameTable(m1, it.pt, 0, a);
    AtPage(a);
    var perm := if it.va == 0 then NO_FLAGS else PWU_FLAGS;
    var r;
    r, own' := it.TryMap(Entry(it.va / PAGESIZE, NO_FLAGS), perm, own);
    assert r == Mapped;
    SameTable(it.mach.pages, it.pt, a, 0);
    MapNext(m0, m1, it.mach.pages, it.pt, a);
  }

  lemma {:induction false} AtPage(a: nat)
    requires a % PAGESIZE == 0 && a < MEMSIZE_PHYSICAL
    ensures Offset(a, 0) == 0 && Canonical(a) && PAGESIZE * (a / PAGESIZE) == a && a / PAGESIZE < FRAME_4GIB
    ensures a + PAGESIZE <= MEMSIZE_PHYSICAL && (a + PAGESIZE) % PAGESIZE == 0
  {
  }

  lemma {:induction false} ApartIsTree(m: Memory, root: nat, own: map<nat, Spot>, kernelEnd: nat, rc: seq<nat>)
    requires Apart(m, root, own, kernelEnd, rc) && Small(m, own)
    ensures Tree(m, root)
  {
    hide Paging.Shaped, Paging.Small;
  }

  /** The loop of `kernel_start`, on any table that serves the low two megabytes. */
  method MapPhysical(mach: Machine, pt: nat, ghost own: map<nat, Spot>) returns (ghost own': map<nat, Spot>)
    requires mach.Valid() && Apart(mach.pages, pt, own, mach.kernelEnd, mach.refcount) && Small(mach.pages, own)
    requires Served(mach.pages, pt)
    modifies mach
    ensures mach.Valid() && Apart(mach.pages, pt, own', mach.kernelEnd, mach.refcount) && Small(mach.pages, own')
    ensures Served(mach.pages, pt)
    ensures forall x: Address ::
              Translate(mach.pages, pt, x) ==
              if x < MEMSIZE_PHYSICAL then Identity(x) else Translate(old(mach.pages), pt, x)
  {
    hide Apart, Paging.Small, Paging.Fresh, Served, Paging.Translate;
    own' := own;
    var addr: nat := 0;
    while addr < MEMSIZE_PHYSICAL
      invariant addr <= MEMSIZE_PHYSICAL && addr % PAGESIZE == 0
      invariant mach.Valid() && Apart(mach.pages, pt, own', mach.kernelEnd, mach.refcount)
      invariant Small(mach.pages, own') && Served(mach.pages, pt)
      invariant MappedBelow(old(mach.pages), mach.pages, pt, addr)
    {
      ApartIsTree(mach.pages, pt, own', mach.kernelEnd, mach.refcount);
      AtPage(addr);
      var it := new Vmiter(mach, pt, addr);
      own' := MapPage(it, old(mach.pages), own');
      addr := addr + PAGESIZE;
    }
  }

  /** `init_kernel_memory`: the static pages, then every page of physical memory
      but the first, with one iterator. */
  method InitKernelMemory(mach: Machine, base: nat) returns (ghost own: map<nat, Spot>)
    requires mach.Valid() && InKernel(base, mach.kernelEnd)
    modifies mach
    ensures mach.Valid() && Apart(mach.pages, base, own, mach.kernelEnd, mach.refcount) && Small(mach.pages, own)
    ensures Served(mach.pages, base)
    ensures forall x: Address :: Translate(mach.pages, base, x) == KernelMeaning(x)
  {
    hide Apart, Paging.Small, Paging.Fresh, Served, Paging.Translate, StaticTables, InKernel;
    mach.pages := StaticTables(mach.pages, base);
    ghost var m0 := mach.pages;
    own := StaticOwn(base);
    StaticKeeps(old(mach.pages), base);
    StaticSmall(old(mach.pages), base);
    StaticApart(old(mach.pages), base, mach.kernelEnd, mach.refcount);
    StaticServed(old(mach.pages), base);
    ApartIsTree(m0, base, own, mach.kernelEnd, mach.refcount);
    forall x: Address
      ensures Translate(m0, base, x) == StaticMeaning(x)
    {
      StaticMeans(old(mach.pages), base, x);
    }
    var it := new Vmiter(mach, base, 0);
    while it.va < MEMSIZE_PHYSICAL
      invariant it.mach == mach && it.pt == base && fresh(it) && it.Synced() && !it.Done()
      invariant it.va <= MEMSIZE_PHYSICAL && it.va % PAGESIZE == 0
      invariant mach.Valid() && Apart(mach.pages, base, own, mach.kernelEnd, mach.refcount)
      invariant Small(mach.pages, own) && Served(mach.pages, base)
      invariant MappedBelow(m0, mach.pages, base, it.va)
      decreases MEMSIZE_PHYSICAL - it.va
    {
      AtPage(it.va);
      if it.va != 0 {
        own := MapPage(it, m0, own);
      }
      ApartIsTree(mach.pages, base, own, mach.kernelEnd, mach.refcount);
      it.Advance(PAGESIZE);
    }
  }

  lemma {:induction false} StaticKeeps(m: Memory, base: nat)
    ensures m.Keys <= StaticTables(m, base).Keys
  {
  }

  /** The kernel's start: afterwards physical memory except page 0 maps to itself
      for everyone, three gigabytes of devices for the kernel, and nothing else. */
  method KernelStart(mach: Machine, base: nat) returns (ghost own: map<nat, Spot>)
    requires mach.Valid() && InKernel(base, mach.kernelEnd)
    modifies mach
    ensures mach.Valid() && Apart(mach.pages, base, own, mach.kernelEnd, mach.refcount) && Small(mach.pages, own)
    ensures forall x: Address :: Translate(mach.pages, base, x) == KernelMeaning(x)
  {
    hide Apart, Paging.Small, Paging.Fresh, Served, Paging.Translate, InKernel;
    own := InitKernelMemory(mach, base);
    own := MapPhysical(mach, base, own);
  }

  const OS1_FLAGS := Flags(false, false, false, false, 0x20)   // PTE_OS1, bit 9

  /** On the static pages, with page 1 free: a permission that is only an
      operating-system bit, at the first non-canonical address. */
  method StrayStoreHappens(mach: Machine, base: nat) returns (r: Outcome)
    requires mach.Valid() && InKernel(base, mach.kernelEnd) && mach.refcount[1] == 0
    modifies mach
    ensures r == StrayStore
  {
    hide Apart, Paging.Small, Paging.Fresh, Paging.Translate, StaticTables, PageWrites.Remapped, PageWrites.SameMeaning;
    mach.pages := StaticTables(mach.pages, base);
    ghost var own := StaticOwn(base);
    StaticKeeps(old(mach.pages), base);
    StaticSmall(old(mach.pages), base);
    StaticApart(old(mach.pages), base, mach.kernelEnd, mach.refcount);
    ApartIsTree(mach.pages, base, own, mach.kernelEnd, mach.refcount);
    NoRights(mach.pages, base, VA_LOWEND);
    assert Available(mach.kernelEnd, mach.refcount, 1);
    var it := new Vmiter(mach, base, VA_LOWEND);
    r, own := it.TryMap(ZERO_ENTRY, OS1_FLAGS, own);
  }
}
