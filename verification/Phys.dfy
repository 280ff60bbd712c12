/**
 Physical memory, the `physpages` reference counts and the page allocator
 `kalloc` (pset3/kernel.cc, pset3/k-hardware.cc).
 */
module Phys {
  import opened Wrappers
  import opened Paging

  const MEMSIZE_PHYSICAL := 0x20_0000
  const NPAGES := 512
  const IOPHYSMEM := 0xA_0000
  const EXTPHYSMEM := 0x10_0000
  const KERNEL_START_ADDR := 0x4_0000
  const KERNEL_STACK_TOP := 0x8_0000

  predicate Reserved(pa: nat) {
    pa < PAGESIZE || IOPHYSMEM <= pa < EXTPHYSMEM
  }

  function RoundUpPage(a: nat): nat {
    (a + PAGESIZE - 1) / PAGESIZE * PAGESIZE
  }

  /** `kernelEnd` is the linker symbol `_kernel_end`. */
  predicate Allocatable(kernelEnd: nat, pa: nat) {
    && !Reserved(pa)
    && (pa < KERNEL_START_ADDR || RoundUpPage(kernelEnd) <= pa)
    && (pa < KERNEL_STACK_TOP - PAGESIZE || KERNEL_STACK_TOP <= pa)
    && pa < MEMSIZE_PHYSICAL
  }

  /** A page that `kalloc` may hand out. */
  predicate Available(kernelEnd: nat, refcount: seq<nat>, page: nat) {
    page < |refcount| && Allocatable(kernelEnd, page * PAGESIZE) && refcount[page] == 0
  }

  function Filled(e: Entry): (t: Table)
    ensures forall i :: 0 <= i < 512 ==> t[i] == e
  {
    seq(512, _ => e)
  }

  /** Every byte of the page is 0xCC. */
  const POISON_ENTRY := Entry(0xCC_CCCC_CCCC, Flags(false, false, true, true, 0xC9))

  class Machine {
    const kernelEnd: nat
    var pages: Memory
    var refcount: seq<nat>

    ghost predicate Valid()
      reads this
    {
      && |refcount| == NPAGES
      && (forall p :: 0 <= p < NPAGES ==> p in pages)
    }

    /** `kalloc`, with the search start and increment as parameters: the code
        uses 0 and 1, its comments propose other starts and the increment 3. */
    method KallocFrom(sz: nat, start: nat, increment: nat) returns (r: Option<nat>)
      requires Valid()
      requires start < NPAGES && increment % 2 == 1
      modifies this
      ensures Valid()
      ensures r.None? <==> sz > PAGESIZE || forall p :: 0 <= p < NPAGES ==> !Available(kernelEnd, old(refcount), p)
      ensures r.None? ==> pages == old(pages) && refcount == old(refcount)
      ensures r.Some? ==>
                && r.value < NPAGES
                && Available(kernelEnd, old(refcount), r.value)
                && refcount == old(refcount)[r.value := 1]
                && pages == old(pages)[r.value := Filled(POISON_ENTRY)]
      // the first available page in the order of the search
      ensures r.Some? ==>
                exists t :: 0 <= t < NPAGES && IsFirst(kernelEnd, old(refcount), start, increment, t, r.value)
    {
      if sz > PAGESIZE {
        return None;
      }
      var pageno := start;
      var tries := 0;
      while tries != NPAGES
        invariant 0 <= tries <= NPAGES
        invariant pageno == (start + tries * increment) % NPAGES
        invariant forall t :: 0 <= t < tries ==> !Available(kernelEnd, refcount, Probe(start, increment, t))
        invariant pages == old(pages) && refcount == old(refcount)
      {
        var pa := pageno * PAGESIZE;
        if Allocatable(kernelEnd, pa) && refcount[pageno] == 0 {
          refcount := refcount[pageno := refcount[pageno] + 1];
          pages := pages[pageno := Filled(POISON_ENTRY)];
          assert Available(kernelEnd, old(refcount), pageno);
          assert IsFirst(kernelEnd, old(refcount), start, increment, tries, pageno);
          return Some(pageno);
        }
        assert pageno == Probe(start, increment, tries);
        ProbeStep(start, increment, tries);
        pageno := (pageno + increment) % NPAGES;
        tries := tries + 1;
      }
      forall p | 0 <= p < NPAGES
        ensures !Available(kernelEnd, refcount, p)
      {
        var t := ProbeHits(start, increment, p);
      }
      return None;
    }

    /** `kalloc` as written: search upward from page 0. */
    method Kalloc(sz: nat) returns (r: Option<nat>)
      requires Valid()
      modifies this
      ensures Valid()
      ensures r.None? <==> sz > PAGESIZE || forall p :: 0 <= p < NPAGES ==> !Available(kernelEnd, old(refcount), p)
      ensures r.None? ==> pages == old(pages) && refcount == old(refcount)
      ensures r.Some? ==>
                && r.value < NPAGES
                && Available(kernelEnd, old(refcount), r.value)
                && refcount == old(refcount)[r.value := 1]
                && pages == old(pages)[r.value := Filled(POISON_ENTRY)]
      // the lowest available page
      ensures r.Some? ==> forall p :: 0 <= p < r.value ==> !Available(kernelEnd, old(refcount), p)
    {
      r := KallocFrom(sz, 0, 1);
      if r.Some? {
        ghost var t :| 0 <= t < NPAGES && IsFirst(kernelEnd, old(refcount), 0, 1, t, r.value);
        FirstIsLowest(kernelEnd, old(refcount), t, r.value);
      }
    }
  }

  /** Try `t` examines `page`, and no earlier try examines an available page. */
  predicate IsFirst(kernelEnd: nat, rc: seq<nat>, start: nat, increment: nat, t: nat, page: nat) {
    && page == Probe(start, increment, t)
    && forall u :: 0 <= u < t ==> !Available(kernelEnd, rc, Probe(start, increment, u))
  }

  lemma {:induction false} FirstIsLowest(kernelEnd: nat, rc: seq<nat>, t: nat, page: nat)
    requires t < NPAGES && IsFirst(kernelEnd, rc, 0, 1, t, page)
    ensures forall p :: 0 <= p < page ==> !Available(kernelEnd, rc, p)
  {
    hide Available;
    forall p | 0 <= p < page
      ensures !Available(kernelEnd, rc, p)
    {
      assert Probe(0, 1, p) == p;
    }
  }

  /** What is never handed out: page 0, the kernel's image, its stack page, and the
      memory from IOPHYSMEM to EXTPHYSMEM, which holds the console at 0xB8000. */
  lemma {:induction false} NeverHandedOut(kernelEnd: nat, rc: seq<nat>, page: nat)
    requires Available(kernelEnd, rc, page)
    ensures page != 0 && page < NPAGES && rc[page] == 0
    ensures !(0xA0 <= page < 0x100) && page != 0xB8
    ensures page != KERNEL_STACK_TOP / PAGESIZE - 1
    ensures page * PAGESIZE < kernelEnd ==> (page + 1) * PAGESIZE <= KERNEL_START_ADDR
  {
  }

  /** Everything else below MEMSIZE_PHYSICAL is, once it is free. */
  lemma {:induction false} HandedOutOtherwise(kernelEnd: nat, rc: seq<nat>, page: nat)
    requires 0 < page < NPAGES && page < |rc| && rc[page] == 0 && !(0xA0 <= page < 0x100)
    requires page != KERNEL_STACK_TOP / PAGESIZE - 1
    requires page * PAGESIZE < KERNEL_START_ADDR || kernelEnd <= page * PAGESIZE
    ensures Available(kernelEnd, rc, page)
  {
  }

  /** The low 52 bits of a word whose bytes are all 0xCC. */
  lemma {:induction false} PoisonBytes()
    ensures POISON_ENTRY.frame == 0xCCCC_CCCC_CCCC_CCCC / PAGESIZE % FRAME_LIMIT
    ensures var f := POISON_ENTRY.flags;
            && (f.p <==> 0xCC / 1 % 2 == 1) && (f.w <==> 0xCC / 2 % 2 == 1) && (f.u <==> 0xCC / 4 % 2 == 1)
            && (f.ps <==> 0xCC / 0x80 % 2 == 1)
            && f.rest & 0x0F == ((0xCC as bv8) >> 3) & 0x0F && f.rest >> 4 == 0xC
  {
  }

  /** Page examined on try `t`. */
  function Probe(start: nat, increment: nat, t: nat): nat {
    (start + t * increment) % NPAGES
  }

  lemma {:induction false} ProbeStep(start: nat, increment: nat, t: nat)
    ensures (Probe(start, increment, t) + increment) % NPAGES == Probe(start, increment, t + 1)
  {
    var a := start + t * increment;
    assert start + (t + 1) * increment == a + increment;
    assert (a % NPAGES + increment) % NPAGES == (a + increment) % NPAGES;
  }

  function Pow2(k: nat): nat {
    if k == 0 then 1 else 2 * Pow2(k - 1)
  }

  /** A solution modulo `half` is one modulo twice `half`, or becomes one by
      adding `half` to the multiplier. */
  lemma {:induction false} Double(a: nat, p: int, half: nat, t: nat, q: int) returns (t': nat, q': int)
    requires a % 2 == 1 && t < half && a * t == p + q * half
    ensures t' < 2 * half && a * t' == p + q' * (2 * half)
  {
    if q % 2 == 0 {
      t', q' := t, q / 2;
      assert q == 2 * q';
      assert q' * (2 * half) == (2 * q') * half;
    } else {
      t', q' := t + half, (q + a) / 2;
      assert q + a == 2 * q';
      assert q' * (2 * half) == (2 * q') * half == q * half + a * half;
      assert a * t' == a * t + a * half;
    }
  }

  /** An odd increment reaches every residue modulo 2^k within 2^k steps. */
  lemma {:induction false} OddReaches(a: nat, p: int, k: nat) returns (t: nat, q: int)
    requires a % 2 == 1
    ensures t < Pow2(k) && a * t == p + q * Pow2(k)
  {
    if k == 0 {
      t, q := 0, -p;
    } else {
      t, q := OddReaches(a, p, k - 1);
      t, q := Double(a, p, Pow2(k - 1), t, q);
    }
  }

  lemma {:induction false} PageCount()
    ensures Pow2(9) == NPAGES
  {
    assert Pow2(3) == 8;
    assert Pow2(6) == 64;
  }

  lemma {:induction false} ModPages(x: nat, page: nat, q: int)
    requires x == page + q * NPAGES && page < NPAGES
    ensures x % NPAGES == page
  {
  }

  /** The search of `kalloc` examines every page. */
  lemma {:induction false} ProbeHits(start: nat, increment: nat, page: nat) returns (t: nat)
    requires increment % 2 == 1 && start < NPAGES && page < NPAGES
    ensures t < NPAGES && Probe(start, increment, t) == page
  {
    hide Pow2;
    PageCount();
    var q: int;
    t, q := OddReaches(increment, page - start, 9);
    ModPages(start + t * increment, page, q);
  }

  /** An even increment never examines a page of the other parity, so oddness
      is needed. */
  lemma {:induction false} EvenMisses(start: nat, increment: nat, page: nat, t: nat)
    requires increment % 2 == 0 && start % 2 != page % 2
    ensures Probe(start, increment, t) != page
  {
    var h := t * (increment / 2);
    assert t * increment == 2 * h;
    assert (start + 2 * h) % NPAGES % 2 == start % 2;
  }

  // ------------------------------------------------------------------
  // Runs: allocations, the other places that add a reference, and releases

  /** `kalloc` hands out a page; process set-up and `syscall_page_alloc` add a
      reference to a page they name; a release drops one. */
  datatype Event = Alloc(page: nat) | Claim(page: nat) | Release(page: nat)

  /** Claims are made of free pages in the code as it is; here also of pages in
      use, as long as the count fits its byte. */
  predicate CanStep(kernelEnd: nat, rc: seq<nat>, e: Event) {
    match e
    case Alloc(p) => Available(kernelEnd, rc, p)
    case Claim(p) => p < |rc| && rc[p] < 255
    case Release(p) => p < |rc| && rc[p] > 0
  }

  function Step(kernelEnd: nat, rc: seq<nat>, e: Event): seq<nat>
    requires CanStep(kernelEnd, rc, e)
  {
    match e
    case Alloc(p) => rc[p := 1]
    case Claim(p) => rc[p := rc[p] + 1]
    case Release(p) => rc[p := rc[p] - 1]
  }

  predicate IsRun(kernelEnd: nat, rc: seq<nat>, es: seq<Event>)
    decreases |es|
  {
    es == [] || (CanStep(kernelEnd, rc, es[0]) && IsRun(kernelEnd, Step(kernelEnd, rc, es[0]), es[1..]))
  }

  function RunOf(kernelEnd: nat, rc: seq<nat>, es: seq<Event>): seq<nat>
    requires IsRun(kernelEnd, rc, es)
    decreases |es|
  {
    if es == [] then rc else RunOf(kernelEnd, Step(kernelEnd, rc, es[0]), es[1..])
  }

  /** References to `page` that the events take. */
  function Takes(es: seq<Event>, page: nat): nat {
    if es == [] then 0
    else (if es[0] == Alloc(page) || es[0] == Claim(page) then 1 else 0) + Takes(es[1..], page)
  }

  function Drops(es: seq<Event>, page: nat): nat {
    if es == [] then 0 else (if es[0] == Release(page) then 1 else 0) + Drops(es[1..], page)
  }

  /** In every run, the count of a page is the references taken less those dropped. */
  lemma {:induction false} RefcountBalance(kernelEnd: nat, rc: seq<nat>, es: seq<Event>, page: nat)
    requires IsRun(kernelEnd, rc, es) && page < |rc|
    ensures |RunOf(kernelEnd, rc, es)| == |rc|
    ensures RunOf(kernelEnd, rc, es)[page] == rc[page] + Takes(es, page) - Drops(es, page)
    decreases |es|
  {
    if es != [] {
      RefcountBalance(kernelEnd, Step(kernelEnd, rc, es[0]), es[1..], page);
    }
  }

  /** A run cut before event `j` is a run, and event `j` is possible after it. */
  lemma {:induction false} RunPrefix(kernelEnd: nat, rc: seq<nat>, es: seq<Event>, j: nat)
    requires IsRun(kernelEnd, rc, es) && j < |es|
    ensures IsRun(kernelEnd, rc, es[..j]) && CanStep(kernelEnd, RunOf(kernelEnd, rc, es[..j]), es[j])
    decreases |es|
  {
    hide CanStep, Step;
    if j > 0 {
      RunPrefix(kernelEnd, Step(kernelEnd, rc, es[0]), es[1..], j - 1);
      assert es[..j][1..] == es[1..][..j - 1];
    }
  }

  /** No page still in use is handed out: when `kalloc` hands out a page, every
      reference to it has been dropped. */
  lemma {:induction false} NoPageHandedOutTwice(kernelEnd: nat, rc: seq<nat>, es: seq<Event>, page: nat, j: nat)
    requires IsRun(kernelEnd, rc, es) && page < |rc|
    requires j < |es| && es[j] == Alloc(page)
    ensures Drops(es[..j], page) == rc[page] + Takes(es[..j], page)
  {
    RunPrefix(kernelEnd, rc, es, j);
    RefcountBalance(kernelEnd, rc, es[..j], page);
  }
}
