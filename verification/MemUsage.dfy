/**
 The per-process loop of `memusage::refresh` (pset3/k-memviewer.cc), a client of
 `vmiter` that mixes `next` with `next_range`.
 */
module MemUsage {
  import opened Wrappers
  import opened Paging
  import opened Phys
  import opened Vmiter

  const MAXPAGES := 1024   // maxpa / PAGESIZE

  function PageOf(pa: nat): nat {
    pa / PAGESIZE
  }

  predicate Aligned(va: nat) {
    va % PAGESIZE == 0
  }

  /** A word of flags, as the set of its bit numbers. */
  type Marks = set<nat>

  const F_KERNEL: Marks := {0}
  const F_USER: Marks := {1}
  const F_NONIDENTITY: Marks := {2}

  /** `f_process(pid)`: there is no bit for pid 0, nor from pid 29 on, where the
      shift leaves the 32-bit word. */
  function FProcess(pid: nat): Marks {
    if 1 <= pid < 29 then {pid + 2} else {}
  }

  /** Each pid of the process table has a flag of its own, apart from the others,
      from which `marked_pid` finds it. */
  lemma {:induction false} FlagsApart(pid: nat, other: nat)
    requires 1 <= pid < 29
    ensures FProcess(pid) == {2 + pid} && FProcess(pid) !! (F_KERNEL + F_USER + F_NONIDENTITY)
    ensures F_KERNEL !! F_USER && F_KERNEL !! F_NONIDENTITY && F_USER !! F_NONIDENTITY
    ensures other != pid ==> FProcess(pid) !! FProcess(other)
  {
  }

  /** The low address `va` lets user code reach physical page `page`. */
  ghost predicate Hits(m: Memory, root: nat, va: Address, page: nat) {
    && va < VA_LOWEND
    && Translate(m, root, va).Some?
    && Translate(m, root, va).value.flags.u
    && PageOf(Translate(m, root, va).value.pa) == page
  }

  ghost predicate Moved(m: Memory, root: nat, va: Address) {
    Translate(m, root, va).Some? && Translate(m, root, va).value.pa != va
  }

  ghost predicate HitBelow(m: Memory, root: nat, page: nat, end: nat) {
    exists va: Address :: va < end && Hits(m, root, va, page)
  }

  ghost predicate MovedBelow(m: Memory, root: nat, page: nat, end: nat) {
    exists va: Address :: va < end && Hits(m, root, va, page) && Moved(m, root, va)
  }

  /** The marks a process adds to a page, counting addresses below `end`. */
  ghost function Added(m: Memory, root: nat, pid: nat, page: nat, end: nat): Marks {
    (if HitBelow(m, root, page, end) then F_USER + FProcess(pid) else {})
    + (if MovedBelow(m, root, page, end) then F_NONIDENTITY else {})
  }

  method Mark(v: array<Marks>, pa: nat, flags: Marks)
    requires v.Length == MAXPAGES
    modifies v
    ensures forall k :: 0 <= k < MAXPAGES ==>
              v[k] == if k == PageOf(pa) then old(v[k]) + flags else old(v[k])
  {
    if pa < MAXPAGES * PAGESIZE {
      v[PageOf(pa)] := v[PageOf(pa)] + flags;
    }
  }

  /** A mapped page holds one physical page, moved as a whole or not at all. */
  lemma {:induction false} PageHits(m: Memory, root: nat, va: Address, x: Address)
    requires Aligned(va) && va <= x < va + PAGESIZE && Translate(m, root, va).Some?
    ensures Translate(m, root, x).Some?
    ensures var y, z := Translate(m, root, va).value, Translate(m, root, x).value;
            && z.flags == y.flags && z.pa == y.pa + (x - va) && PageOf(z.pa) == PageOf(y.pa)
  {
    hide Paging.Translate;
    FreshShape(m, root, va);
    PageInRange(Fresh(m, root, va).lbits, va);
    CanonicalIfMapped(m, root, va);
    RangeMeaning(m, root, va, x);
    PageAligned(m, root, va);
  }

  lemma {:induction false} CanonicalIfMapped(m: Memory, root: nat, va: Address)
    ensures Translate(m, root, va).Some? ==> Canonical(va)
  {
  }

  lemma {:induction false} WholePages(x: nat, k: nat)
    ensures x == PAGESIZE * k ==> Aligned(x)
  {
    Multiple(k, 1);
  }

  /** Two page-aligned addresses in order are a page apart. */
  lemma {:induction false} PageApart(x: nat, y: nat)
    requires Aligned(x) && Aligned(y) && x < y
    ensures x + PAGESIZE <= y
  {
  }

  lemma {:induction false} PageInRange(lbits: nat, va: Address)
    requires Aligned(va)
    ensures lbits in {12, 21, 30, 39} ==> va + PAGESIZE <= RangeEnd(lbits, va)
  {
    hide Paging.RangeEnd;
    if lbits in {12, 21, 30, 39} {
      RangeEndBounds(lbits, va);
      PageApart(va, RangeEnd(lbits, va));
    }
  }

  /** Page-aligned addresses translate to page-aligned addresses. */
  lemma {:induction false} PageAligned(m: Memory, root: nat, va: Address)
    requires Aligned(va) && Translate(m, root, va).Some?
    ensures Aligned(Translate(m, root, va).value.pa)
  {
    hide Paging.Offset, Paging.Translate, Paging.Fresh;
    FreshMeaning(m, root, va);
    FreshShape(m, root, va);
    var c := Fresh(m, root, va);
    OffsetAligned(va, LevelOf(c.lbits));
  }

  lemma {:induction false} OffsetAligned(va: Address, level: nat)
    requires level <= 3 && Aligned(va)
    ensures Aligned(Offset(va, level))
  {
    var page := va / PAGESIZE;
    assert va == PAGESIZE * page;
    if level == 1 {
      WholePages(Offset(va, 1), page - 0x200 * (va / 0x20_0000));
    } else if level == 2 {
      WholePages(Offset(va, 2), page - 0x4_0000 * (va / 0x4000_0000));
    } else if level == 3 {
      WholePages(Offset(va, 3), page - 0x800_0000 * (va / 0x80_0000_0000));
    }
  }

  /** `user()` */
  predicate IsUser(flags: Flags) {
    flags.p && flags.u
  }

  lemma {:induction false} UserMeans(m: Memory, root: nat, va: Address)
    ensures IsUser(PermAt(m, root, va)) <==>
              Translate(m, root, va).Some? && Translate(m, root, va).value.flags.u
  {
    AccessPresent(m, root, 3, va);
  }

  /** A page that user code can reach adds its marks to one physical page. */
  lemma {:induction false} AddedPage(m: Memory, root: nat, pid: nat, page: nat, va: Address)
    requires Aligned(va) && va < VA_LOWEND && IsUser(PermAt(m, root, va))
    ensures Translate(m, root, va).Some?
    ensures var pa := Translate(m, root, va).value.pa;
            Added(m, root, pid, page, va + PAGESIZE) ==
            Added(m, root, pid, page, va)
            + (if page == PageOf(pa)
               then F_USER + FProcess(pid) + (if pa != va then F_NONIDENTITY else {}) else {})
  {
    hide Paging.Translate, Paging.PermAt, Hits, Moved;
    UserMeans(m, root, va);
    var pa := Translate(m, root, va).value.pa;
    forall x: Address | va <= x < va + PAGESIZE
      ensures Hits(m, root, x, page) <==> page == PageOf(pa)
      ensures Moved(m, root, x) <==> pa != va
    {
      PageMeans(m, root, va, x, page);
    }
    assert HitBelow(m, root, page, va + PAGESIZE) <==> HitBelow(m, root, page, va) || page == PageOf(pa) by {
      if page == PageOf(pa) {
        assert Hits(m, root, va, page);
      }
    }
    assert MovedBelow(m, root, page, va + PAGESIZE) <==>
           MovedBelow(m, root, page, va) || (page == PageOf(pa) && pa != va) by {
      if page == PageOf(pa) && pa != va {
        assert Hits(m, root, va, page) && Moved(m, root, va);
      }
    }
  }

  lemma {:induction false} PageMeans(m: Memory, root: nat, va: Address, x: Address, page: nat)
    requires Aligned(va) && va < VA_LOWEND && IsUser(PermAt(m, root, va)) && va <= x < va + PAGESIZE
    ensures Translate(m, root, va).Some?
    ensures var pa := Translate(m, root, va).value.pa;
            && (Hits(m, root, x, page) <==> page == PageOf(pa))
            && (Moved(m, root, x) <==> pa != va)
  {
    hide Paging.Translate, Paging.PermAt;
    UserMeans(m, root, va);
    PageHits(m, root, va, x);
  }

  /** A range that user code cannot reach adds nothing. */
  lemma {:induction false} AddedRange(m: Memory, root: nat, pid: nat, page: nat, va: Address)
    requires va < VA_LOWEND && !IsUser(PermAt(m, root, va))
    ensures var end := RangeEnd(Fresh(m, root, va).lbits, va);
            va < end <= VA_LOWEND && Added(m, root, pid, page, end) == Added(m, root, pid, page, va)
  {
    hide Paging.Translate, Paging.PermAt, Paging.Fresh, Hits;
    FreshShape(m, root, va);
    var end := RangeEnd(Fresh(m, root, va).lbits, va);
    forall x: Address | va <= x < end
      ensures !Hits(m, root, x, page)
    {
      RangeMisses(m, root, va, x, page);
    }
  }

  lemma {:induction false} RangeMisses(m: Memory, root: nat, va: Address, x: Address, page: nat)
    requires !IsUser(PermAt(m, root, va)) && va <= x < RangeEnd(Fresh(m, root, va).lbits, va)
    ensures !Hits(m, root, x, page)
  {
    hide Paging.Translate, Paging.PermAt, Paging.Fresh, Paging.RangeEnd;
    UserMeans(m, root, va);
    RangeMeaning(m, root, va, x);
  }

  /** The loop over a process's low addresses. */
  method MarkProcess(v: array<Marks>, mach: Machine, pt: nat, pid: nat)
    requires v.Length == MAXPAGES && Tree(mach.pages, pt)
    modifies v
    ensures forall k :: 0 <= k < MAXPAGES ==> v[k] == old(v[k]) + Added(mach.pages, pt, pid, k, VA_LOWEND)
  {
    hide Paging.Translate, Paging.PermAt, Paging.Fresh, Paging.RangeEnd, Added, Tree, NextTarget, Aligned, PageOf;
    ghost var m := mach.pages;
    var it := new Vmiter(mach, pt, 0);
    NothingBelowZero(m, pt, pid);
    WholePages(0, 0);
    while it.va < VA_LOWEND
      invariant it.mach == mach && it.pt == pt && fresh(it) && mach.pages == m
      invariant it.Synced() && !it.Done() && Aligned(it.va) && it.va <= VA_LOWEND
      invariant forall k :: 0 <= k < MAXPAGES ==> v[k] == old(v[k]) + Added(m, pt, pid, k, it.va)
      decreases VA_LOWEND - it.va
    {
      ghost var va := it.va;
      it.Reports();
      if IsUser(it.Perm()) {
        forall k | 0 <= k < MAXPAGES
          ensures Translate(m, pt, va).Some?
          ensures var pa := Translate(m, pt, va).value.pa;
                  Added(m, pt, pid, k, va + PAGESIZE) ==
                  Added(m, pt, pid, k, va)
                  + (if k == PageOf(pa)
                     then F_USER + FProcess(pid) + (if pa != va then F_NONIDENTITY else {}) else {})
        {
          AddedPage(m, pt, pid, k, va);
        }
        UserMeans(m, pt, va);
        var pa := it.Pa().value;
        if it.va == pa {
          Mark(v, pa, F_USER + FProcess(pid));
        } else {
          Mark(v, pa, F_USER + F_NONIDENTITY + FProcess(pid));
        }
        NextPage(m, pt, va);
        it.Next();
      } else {
        forall k | 0 <= k < MAXPAGES
          ensures var end := RangeEnd(Fresh(m, pt, va).lbits, va);
                  va < end <= VA_LOWEND && Added(m, pt, pid, k, end) == Added(m, pt, pid, k, va)
        {
          AddedRange(m, pt, pid, k, va);
        }
        AddedRange(m, pt, pid, 0, va);
        RangeAligned(m, pt, va);
        it.NextRange();
      }
    }
  }

  lemma {:induction false} NothingBelowZero(m: Memory, root: nat, pid: nat)
    ensures forall k :: Added(m, root, pid, k, 0) == {}
  {
  }

  lemma {:induction false} PageEnd(va: Address)
    requires Aligned(va)
    ensures RangeEnd(PAGEOFFBITS, va) == va + PAGESIZE && Aligned(va + PAGESIZE)
  {
    var page := va / PAGESIZE;
    assert va == PAGESIZE * page;
    WholePages(va + PAGESIZE, page + 1);
  }

  lemma {:induction false} NextPage(m: Memory, root: nat, va: Address)
    requires Aligned(va) && va < VA_LOWEND && Translate(m, root, va).Some?
    ensures NextTarget(m, root, va) == va + PAGESIZE <= VA_LOWEND && Aligned(va + PAGESIZE)
  {
    hide Paging.Translate, Paging.Fresh, BlockEnd, Aligned;
    WholePages(VA_LOWEND, 0x8_0000_0000);
    PageApart(va, VA_LOWEND);
    PageEnd(va);
  }

  lemma {:induction false} RangeAligned(m: Memory, root: nat, va: Address)
    ensures Aligned(RangeEnd(Fresh(m, root, va).lbits, va))
  {
    hide Paging.RangeEnd, Paging.Fresh;
    FreshShape(m, root, va);
    RangeEndBounds(Fresh(m, root, va).lbits, va);
  }
}
