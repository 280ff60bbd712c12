/**
 `vmiter`, the cached cursor over a page table (pset3/k-vmiter.cc,
 pset3/k-vmiter.hh).  Every method is proved against `Fresh`, the cursor a full
 walk from the root would give.
 */
module Vmiter {
  import opened Wrappers
  import opened Paging
  import opened Phys
  import opened PageWrites

  /** The table under `root` is a tree with no leaf that makes `down` panic. */
  ghost predicate Tree(m: Memory, root: nat) {
    exists own :: Shaped(m, root, own) && Small(m, own)
  }

  /** `own` witnesses the tree, and `kalloc` hands out none of its pages: they are
      in use, or kernel data. */
  ghost predicate Apart(m: Memory, root: nat, own: map<nat, Spot>, kernelEnd: nat, refcount: seq<nat>) {
    && Shaped(m, root, own)
    && forall f :: f in own ==> !Available(kernelEnd, refcount, f)
  }

  /** Reference counts: 1 for the pages that are new in the tree, as before for all
      others. */
  ghost predicate Counts(rc0: seq<nat>, rc: seq<nat>, own: map<nat, Spot>, own': map<nat, Spot>) {
    && |rc| == |rc0|
    && forall f :: 0 <= f < |rc| ==> rc[f] == if f in own' && f !in own then 1 else rc0[f]
  }

  /** Some free page has been taken. */
  ghost predicate OneTaken(kernelEnd: nat, rc0: seq<nat>, rc: seq<nat>) {
    exists n: nat :: Available(kernelEnd, rc0, n) && n < |rc0| && rc == rc0[n := 1]
  }

  /** What `try_map` comes to: 0, -1, or a store through `&zero_pe`, which is
      constant, so that what follows is undefined. */
  datatype Outcome = Mapped | NoPage | StrayStore

  /** `uintptr_t(-1)` */
  const MINUS_ONE := Entry(FRAME_LIMIT - 1, ALL_FLAGS)

  /** A walk stays inside the tree, at the level of the page it reads. */
  lemma {:induction false} WalkInTree(m: Memory, root: nat, own: map<nat, Spot>, f: nat, level: nat, va: Address,
                                      perm: Flags)
    requires Shaped(m, root, own) && f in own && level <= 3 && own[f].level == level
    ensures var c := Walk(m, f, level, va, perm);
            c.pep.At? && c.pep.frame in own && own[c.pep.frame].level == LevelOf(c.lbits)
    decreases level
  {
    var e := Lookup(m, f, Idx(va, level));
    if level > 0 && PointsToTable(e) {
      WalkInTree(m, root, own, e.frame, level - 1, va, Restrict(e, perm));
    }
  }

  class Vmiter {
    const mach: Machine
    const pt: nat
    var pep: Slot
    var lbits: nat
    var perm: Flags
    var va: Address

    ghost function Cur(): Cursor
      reads this
    {
      Cursor(pep, lbits, perm)
    }

    predicate Done()
      reads this
    {
      lbits == DONE_LBITS
    }

    /** The cached state is that of a new iterator at the same address. */
    ghost predicate Synced()
      reads this, mach
    {
      if lbits == DONE_LBITS then va == 0 && Cur() == Cursor(ZeroPe, DONE_LBITS, NO_FLAGS)
      else Cur() == Fresh(mach.pages, pt, va)
    }

    constructor (mach: Machine, pt: nat, va: Address)
      requires Tree(mach.pages, pt)
      ensures this.mach == mach && this.pt == pt && this.va == va
      ensures !Done() && Synced()
    {
      this.mach, this.pt := mach, pt;
      pep, lbits, perm, this.va := At(pt, 0), INITIAL_LBITS, ALL_FLAGS, 0;
      new;
      FreshShape(mach.pages, pt, va);
      FindImpl(va, false);
    }

    /** `*pep_`: a read of memory, so the page must be there. */
    function ReadEntry(): (e: Entry)
      requires pep.At? ==> pep.frame in mach.pages && pep.idx < 512
      reads this, mach
      ensures e == EntryAt(mach.pages, pep)
    {
      match pep
      case ZeroPe => ZERO_ENTRY
      case At(f, i) => mach.pages[f][i]
    }

    ghost predicate OnTable(own: map<nat, Spot>)
      reads this
    {
      pep.At? ==>
        && pep.frame in own
        && lbits in {12, 21, 30, 39}
        && own[pep.frame].level == LevelOf(lbits)
        && pep.idx == Idx(va, LevelOf(lbits))
    }

    method Down(ghost own: map<nat, Spot>)
      requires Shaped(mach.pages, pt, own) && Small(mach.pages, own)
      requires OnTable(own)
      modifies this`pep, this`lbits, this`perm
      ensures old(pep) == ZeroPe ==> Cur() == old(Cur())
      ensures old(pep).At? ==>
                Cur() == Walk(mach.pages, old(pep.frame), LevelOf(old(lbits)), va, old(perm))
      ensures OnTable(own)
    {
      while lbits > PAGEOFFBITS && PointsToTable(ReadEntry())
        invariant OnTable(own)
        invariant old(pep) == ZeroPe ==> Cur() == old(Cur())
        invariant old(pep).At? ==>
                    && pep.At?
                    && Walk(mach.pages, pep.frame, LevelOf(lbits), va, perm)
                       == Walk(mach.pages, old(pep.frame), LevelOf(old(lbits)), va, old(perm))
        decreases lbits
      {
        var e := ReadEntry();
        perm := Restrict(e, perm);
        lbits := lbits - 9;
        pep := At(e.frame, Idx(va, LevelOf(lbits)));
      }
      // the panic of `down` is not reached
      assert !(ReadEntry().frame >= FRAME_4GIB && lbits < PAGEOFFBITS + 2 * 9);
    }

    method FindImpl(va': Address, stepping: bool)
      requires Tree(mach.pages, pt)
      requires lbits == INITIAL_LBITS || Synced()
      modifies this
      ensures va == va'
      ensures if stepping && va' == 0 then Done() else !Done()
      ensures Synced()
    {
      hide Paging.Prefix, Paging.Canonical, Paging.Walk, Paging.Small;
      ghost var own :| Shaped(mach.pages, pt, own) && Small(mach.pages, own);
      ghost var m := mach.pages;
      if stepping && va' == 0 {
        lbits, perm, pep := DONE_LBITS, NO_FLAGS, ZeroPe;
      } else if lbits < INITIAL_LBITS && Prefix(va, LevelOf(lbits) + 1) == Prefix(va', LevelOf(lbits) + 1) {
        FreshShape(m, pt, va);
        Shortcut(m, pt, va, va');
        WalkInTree(m, pt, own, pt, 3, va, ALL_FLAGS);
        var curidx := pep.idx;
        pep := At(pep.frame, curidx + (Idx(va', LevelOf(lbits)) - curidx));
      } else if !Canonical(va') {
        lbits, perm, pep := NONCANONICAL_LBITS, NO_FLAGS, ZeroPe;
      } else {
        lbits, perm := INITIAL_LBITS, ALL_FLAGS;
        pep := At(pt, Idx(va', 3));
      }
      va := va';
      FreshShape(m, pt, va');
      Down(own);
    }

    /** `find` */
    method Find(va': Address)
      requires Tree(mach.pages, pt) && Synced()
      modifies this
      ensures va == va' && Synced()
      ensures Done() <==> old(Done()) && va' == 0
    {
      if va' != va {
        FindImpl(va', false);
      }
    }

    /** `operator+=`; a negative `delta` is `operator-=`.  Addresses wrap. */
    method Advance(delta: int)
      requires Tree(mach.pages, pt) && Synced()
      modifies this
      ensures va == (old(va) + delta) % VA_END && Synced()
      ensures Done() <==> old(Done()) && va == 0
    {
      Find((va + delta) % VA_END);
    }

    function LastVa(): Address
      requires !Done()
      reads this
    {
      RangeEnd(lbits, va) % VA_END
    }

    function RangeSize(): nat
      requires !Done()
      reads this
    {
      (LastVa() - va) % VA_END
    }

    function Perm(): Flags
      requires pep.At? ==> pep.frame in mach.pages && pep.idx < 512
      reads this, mach
    {
      var ph := ReadEntry().flags.And(perm);
      if ph.p then ph else NO_FLAGS
    }

    function Pa(): Option<nat>
      requires !Done() && (pep.At? ==> pep.frame in mach.pages && pep.idx < 512)
      reads this, mach
    {
      var e := ReadEntry();
      if Present(e) then Some(LeafBase(e, LevelOf(lbits)) + Offset(va, LevelOf(lbits))) else None
    }

    /** What a synced cursor reports is the reference translation of its address. */
    lemma {:induction false} Reports()
      requires Tree(mach.pages, pt) && Synced() && !Done()
      ensures pep.At? ==> pep.frame in mach.pages && pep.idx < 512
      ensures Perm() == PermAt(mach.pages, pt, va)
      ensures Pa() == match Translate(mach.pages, pt, va)
                      case None => None
                      case Some(x) => Some(x.pa)
    {
      Readable();
      FreshMeaning(mach.pages, pt, va);
      FreshShape(mach.pages, pt, va);
    }

    lemma {:induction false} Readable()
      requires Tree(mach.pages, pt) && Synced()
      ensures pep.At? ==> pep.frame in mach.pages && pep.idx < 512
    {
      if pep.At? {
        var own :| Shaped(mach.pages, pt, own) && Small(mach.pages, own);
        FreshShape(mach.pages, pt, va);
        WalkInTree(mach.pages, pt, own, pt, 3, va, ALL_FLAGS);
      }
    }

    constructor Copy(that: Vmiter)
      ensures mach == that.mach && pt == that.pt && va == that.va && Cur() == that.Cur()
    {
      mach, pt, va := that.mach, that.pt, that.va;
      pep, lbits, perm := that.pep, that.lbits, that.perm;
    }

    /** `next_range` */
    method NextRange()
      requires Tree(mach.pages, pt) && Synced() && !Done()
      modifies this
      ensures Synced()
      ensures var end := RangeEnd(old(lbits), old(va));
              if end == VA_END then Done() else !Done() && va == end
      // the cursor moves to another entry
      ensures Done() || pep != old(pep)
    {
      hide Paging.Fresh, Paging.RangeEnd, Tree;
      NextIsNew(mach.pages, pt, va);
      FreshShape(mach.pages, pt, va);
      RangeEndBounds(lbits, va);
      FindImpl(LastVa(), true);
    }

    /** `next`: the next page, or past the absent span the cursor is in. */
    method Next()
      requires Tree(mach.pages, pt) && Synced() && !Done()
      modifies this
      ensures Synced()
      ensures var t := NextTarget(mach.pages, pt, old(va));
              if t == VA_END then Done() else !Done() && va == t
      // from an absent range, the cursor moves to another entry
      ensures Canonical(old(va)) && Translate(mach.pages, pt, old(va)).None? ==> Done() || pep != old(pep)
    {
      hide Paging.Fresh, Paging.RangeEnd, Tree, Paging.Translate, Paging.PermAt, NextTarget, BlockEnd, Paging.Canonical;
      NextIsNew(mach.pages, pt, va);
      AbsentTarget(mach.pages, pt, va);
      Reports();
      NextBounds(mach.pages, pt, va);
      var bits := PAGEOFFBITS;
      if lbits > PAGEOFFBITS && Perm().Zero() {
        bits := lbits;
      }
      FindImpl(BlockEnd(bits, va) % VA_END, true);
    }

    /** One turn of the loop of `try_map`: allocate a page, clear it, link it
        below the absent entry of the cursor, and step down. */
    method LinkTable(ghost own: map<nat, Spot>) returns (ok: bool, ghost own': map<nat, Spot>)
      requires mach.Valid() && Apart(mach.pages, pt, own, mach.kernelEnd, mach.refcount) && Small(mach.pages, own)
      requires Synced() && Canonical(va) && lbits in {21, 30, 39} && !Present(EntryAt(mach.pages, pep))
      modifies this, mach
      ensures mach.Valid() && va == old(va) && perm == old(perm)
      ensures Counts(old(mach.refcount), mach.refcount, own, own')
      ensures !ok ==>
                && mach.pages == old(mach.pages) && mach.refcount == old(mach.refcount)
                && Cur() == old(Cur()) && own' == own
                && forall p :: 0 <= p < NPAGES ==> !Available(mach.kernelEnd, mach.refcount, p)
      ensures ok ==>
                && Apart(mach.pages, pt, own', mach.kernelEnd, mach.refcount) && Small(mach.pages, own')
                && lbits == old(lbits) - 9 && Synced() && !Present(EntryAt(mach.pages, pep))
                && SameMeaning(old(mach.pages), mach.pages, pt)
      ensures forall f :: f in own ==> f in own' && own'[f] == own[f]
      ensures forall f :: f in own' && f !in own ==> Available(mach.kernelEnd, old(mach.refcount), f)
      ensures forall f :: f in old(mach.pages) && f !in own' ==> f in mach.pages && mach.pages[f] == old(mach.pages)[f]
      ensures forall f :: Available(mach.kernelEnd, mach.refcount, f) ==>
                            Available(mach.kernelEnd, old(mach.refcount), f)
    {
      hide Paging.Walk, Paging.Idx, Paging.Prefix, Paging.Offset, Paging.Shaped, Paging.Small,
           Paging.Translate, Phys.Available, Paging.Canonical, Paging.Fresh, PageWrites.SameMeaning, Apart, Filled,
           Counts;
      own' := own;
      CountsSame(mach.refcount, own);
      ghost var m0 := mach.pages;
      var n := mach.Kalloc(PAGESIZE);
      if n.None? {
        ok := false;
        return;
      }
      ok := true;
      ghost var m1 := mach.pages;
      Taken(m0, pt, own, mach.kernelEnd, old(mach.refcount), n.value);
      LinkStore(m0, m1, pt, own, va, n.value);
      own' := LinkOwn(own, pep.frame, pep.idx, n.value);
      CountsTaken(old(mach.refcount), own, n.value, own'[n.value]);
      ghost var m2 := Link(m1, pep.frame, pep.idx, n.value);
      TakenApart(m0, m2, pt, own, mach.kernelEnd, old(mach.refcount), n.value, own'[n.value]);
      mach.pages := mach.pages[n.value := Filled(ZERO_ENTRY)];
      mach.pages := mach.pages[pep.frame := mach.pages[pep.frame][pep.idx := Entry(n.value, PWU_FLAGS)]];
      assert mach.pages == Link(m1, pep.frame, pep.idx, n.value);
      Down(own');
    }

    /** A turn of the loop of `try_map` at an address that no table serves: a page
        is allocated and cleared before the stray store. */
    method StrayTable(ghost own: map<nat, Spot>) returns (ok: bool)
      requires mach.Valid() && Apart(mach.pages, pt, own, mach.kernelEnd, mach.refcount) && Small(mach.pages, own)
      requires Synced() && pep == ZeroPe
      modifies mach
      ensures mach.Valid() && Apart(mach.pages, pt, own, mach.kernelEnd, mach.refcount) && Small(mach.pages, own)
      ensures Synced() && SameMeaning(old(mach.pages), mach.pages, pt)
      ensures ok <==> exists p :: 0 <= p < NPAGES && Available(mach.kernelEnd, old(mach.refcount), p)
      ensures !ok ==> mach.pages == old(mach.pages) && mach.refcount == old(mach.refcount)
      ensures ok ==> OneTaken(mach.kernelEnd, old(mach.refcount), mach.refcount)
      ensures forall f :: f in old(mach.pages) && !Available(mach.kernelEnd, old(mach.refcount), f) ==>
                f in mach.pages && mach.pages[f] == old(mach.pages)[f]
    {
      hide Paging.Shaped, Paging.Small, Phys.Available, PageWrites.SameMeaning, Apart, Filled, Paging.Fresh;
      ghost var m0 := mach.pages;
      SameMeaningTrans(m0, m0, m0, pt);
      var n := mach.Kalloc(PAGESIZE);
      if n.None? {
        return false;
      }
      Taken(m0, pt, own, mach.kernelEnd, old(mach.refcount), n.value);
      mach.pages := mach.pages[n.value := Filled(ZERO_ENTRY)];
      TakenOutside(m0, mach.pages, pt, own, mach.kernelEnd, old(mach.refcount), n.value);
      return true;
    }

    /** The loop of `try_map` at a canonical address: link tables down to the level
        of pages. */
    method LinkTables(ghost own: map<nat, Spot>) returns (ok: bool, ghost own': map<nat, Spot>)
      requires mach.Valid() && Apart(mach.pages, pt, own, mach.kernelEnd, mach.refcount) && Small(mach.pages, own)
      requires Synced() && !Done() && Canonical(va)
      requires lbits > PAGEOFFBITS ==> !Present(EntryAt(mach.pages, pep))
      modifies this, mach
      ensures mach.Valid() && Apart(mach.pages, pt, own', mach.kernelEnd, mach.refcount) && Small(mach.pages, own')
      ensures va == old(va) && perm == old(perm) && Synced() && !Done()
      ensures SameMeaning(old(mach.pages), mach.pages, pt)
      ensures Counts(old(mach.refcount), mach.refcount, own, own')
      ensures ok ==> lbits == PAGEOFFBITS
      ensures old(lbits) == PAGEOFFBITS ==> ok && Cur() == old(Cur())
      ensures !ok ==> forall p :: 0 <= p < NPAGES ==> !Available(mach.kernelEnd, mach.refcount, p)
      ensures forall f :: f in own ==> f in own' && own'[f] == own[f]
      ensures forall f :: f in own' && f !in own ==> Available(mach.kernelEnd, old(mach.refcount), f)
      ensures forall f :: f in old(mach.pages) && f !in own' ==> f in mach.pages && mach.pages[f] == old(mach.pages)[f]
    {
      hide Paging.Fresh, Paging.Walk, Paging.Idx, Paging.Prefix, Paging.Offset, Paging.Shaped, Paging.Small,
           Paging.Translate, Phys.Available, Paging.Canonical, PageWrites.SameMeaning, Apart, Counts;
      own' := own;
      ghost var m0 := mach.pages;
      CountsSame(mach.refcount, own);
      FreshShape(m0, pt, va);
      SameMeaningTrans(m0, m0, m0, pt);
      while lbits > PAGEOFFBITS
        invariant mach.Valid() && Apart(mach.pages, pt, own', mach.kernelEnd, mach.refcount) && Small(mach.pages, own')
        invariant va == old(va) && perm == old(perm) && Synced() && lbits in {12, 21, 30, 39}
        invariant lbits > PAGEOFFBITS ==> !Present(EntryAt(mach.pages, pep))
        invariant old(lbits) == PAGEOFFBITS ==> Cur() == old(Cur())
        invariant forall f :: f in own ==> f in own' && own'[f] == own[f]
        invariant forall f :: f in own' && f !in own ==> Available(mach.kernelEnd, old(mach.refcount), f)
        invariant forall f :: f in m0 && f !in own' ==> f in mach.pages && mach.pages[f] == m0[f]
        invariant forall f :: Available(mach.kernelEnd, mach.refcount, f) ==>
                                Available(mach.kernelEnd, old(mach.refcount), f)
        invariant SameMeaning(m0, mach.pages, pt)
        invariant Counts(old(mach.refcount), mach.refcount, own, own')
        decreases lbits
      {
        ghost var m1, rc1, own1 := mach.pages, mach.refcount, own';
        ok, own' := LinkTable(own');
        CountsTrans(old(mach.refcount), rc1, mach.refcount, own, own1, own');
        if !ok {
          return;
        }
        SameMeaningTrans(m0, m1, mach.pages, pt);
      }
      ok := true;
    }

    /** `try_map(pa, perm)`.  `pa` is a 64-bit word split like an entry; the
        first `requires` are the function's assertions, the last one those of its
        loop.  `own` witnesses the tree and `own'` is the witness afterwards. */
    method TryMap(pa0: Entry, want: Flags, ghost own: map<nat, Spot>) returns (r: Outcome, ghost own': map<nat, Spot>)
      requires mach.Valid() && Apart(mach.pages, pt, own, mach.kernelEnd, mach.refcount) && Small(mach.pages, own)
      requires Synced()
      requires Offset(va, 0) == 0
      requires if want.p then pa0.flags == NO_FLAGS else !pa0.flags.p || (pa0 == MINUS_ONE && want.Zero())
      requires (want.p ==> perm.p) && (want.w ==> perm.w) && (want.u ==> perm.u)
      requires !want.Zero() && lbits > PAGEOFFBITS ==> !Present(EntryAt(mach.pages, pep))
      modifies this, mach
      // without P, W and U the assertions let an address pass that no table
      // serves; if a page is left, the code then stores into a constant
      ensures r == StrayStore <==>
                && !want.Zero() && (old(Done()) || !Canonical(va))
                && exists p :: 0 <= p < NPAGES && Available(mach.kernelEnd, old(mach.refcount), p)
      ensures r == StrayStore ==> !want.p && !want.w && !want.u && SameMeaning(old(mach.pages), mach.pages, pt)
      // the cursor stays where it was and agrees with a fresh walk
      ensures va == old(va) && Synced() && Done() == old(Done())
      ensures old(lbits) == PAGEOFFBITS ==> Cur() == old(Cur())
      // the tree keeps its shape, its pages stay in use, other pages in use keep their contents
      ensures mach.Valid() && Apart(mach.pages, pt, own', mach.kernelEnd, mach.refcount)
      ensures || r != Mapped || pa0.frame < FRAME_4GIB
              || (want.Zero() && (pa0 == MINUS_ONE || old(lbits) > PAGEOFFBITS)) ==>
                Small(mach.pages, own')
      ensures forall f :: f in own ==> f in own' && own'[f] == own[f]
      ensures forall f :: f in own' && f !in own ==> Available(mach.kernelEnd, old(mach.refcount), f)
      ensures forall f :: f in old(mach.pages) && f !in own'
                          && (r == StrayStore ==> !Available(mach.kernelEnd, old(mach.refcount), f)) ==>
                f in mach.pages && mach.pages[f] == old(mach.pages)[f]
      ensures r != StrayStore ==> Counts(old(mach.refcount), mach.refcount, own, own')
      ensures r == StrayStore ==> OneTaken(mach.kernelEnd, old(mach.refcount), mach.refcount)
      // failure: a table was needed, no page is left, and no mapping has changed
      ensures r == NoPage ==> !want.Zero() && old(lbits) > PAGEOFFBITS
      ensures r == NoPage ==> SameMeaning(old(mach.pages), mach.pages, pt)
      ensures r == NoPage ==> forall p :: 0 <= p < NPAGES ==> !Available(mach.kernelEnd, mach.refcount, p)
      // success: exactly this page is remapped, except that nothing happens when
      // part of a large page is to be unmapped
      ensures r == Mapped && want.Zero() && old(lbits) > PAGEOFFBITS ==> mach.pages == old(mach.pages)
      ensures r == Mapped ==>
                (Remapped(old(mach.pages), mach.pages, pt, va,
                          if want.p then Some(Mapping(PAGESIZE * pa0.frame, want)) else None)
                 <==> !(want.Zero() && old(lbits) > PAGEOFFBITS && Translate(old(mach.pages), pt, va).Some?))
    {
      hide Paging.Fresh, Paging.Walk, Paging.Idx, Paging.Prefix, Paging.Offset, Paging.Shaped, Paging.Small,
           Paging.Translate, Phys.Available, Paging.Canonical, Written, PageWrites.Remapped, PageWrites.SameMeaning;
      var pa := if pa0 == MINUS_ONE && want.Zero() then ZERO_ENTRY else pa0;
      own' := own;
      ghost var m0 := mach.pages;
      FreshShape(m0, pt, va);
      SameMeaningTrans(m0, m0, m0, pt);
      NoRights(m0, pt, va);
      if pep == ZeroPe && !want.Zero() {
        var ok := StrayTable(own);
        r := if ok then StrayStore else NoPage;
        return;
      }
      if want.Zero() {
        UnmapWorks(m0, pt, va);
      }
      if !want.Zero() {
        var ok;
        ok, own' := LinkTables(own);
        if !ok {
          r := NoPage;
          return;
        }
      }
      if lbits == PAGEOFFBITS {
        FreshShape(mach.pages, pt, va);
        var e := Written(pa, want);
        FinalStore(m0, mach.pages, pt, own', va, pa, want);
        mach.pages := mach.pages[pep.frame := mach.pages[pep.frame][pep.idx := e]];
      }
      r := Mapped;
    }

    /** The address of the cursor, with 2^64 for a cursor that is done. */
    ghost function Pos(): nat
      reads this
    {
      if Done() then VA_END else va
    }

    /** What is left of the range, and what it contributes to `sz` bytes. */
    lemma {:induction false} RangeFacts(sz: nat)
      requires Tree(mach.pages, pt) && Synced() && !Done() && sz > 0
      ensures pep.At? ==> pep.frame in mach.pages && pep.idx < 512
      ensures 0 < RangeSize() && va + RangeSize() == RangeEnd(lbits, va) <= VA_END
      ensures var p := Perm64(false, Perm());
              && ByteAnd(mach.pages, pt, va, sz) ==
                 (if sz <= RangeSize() then p
                  else p.And(ByteAnd(mach.pages, pt, va + RangeSize(), sz - RangeSize())))
              && (p == ZERO64 ==> ByteAnd(mach.pages, pt, va, sz) == ZERO64)
    {
      hide Paging.Fresh, Paging.RangeEnd, Tree, ByteAnd, Perm64.And, Paging.PermAt;
      Reports();
      FreshShape(mach.pages, pt, va);
      RangeEndBounds(lbits, va);
      WrapSize(va, RangeEnd(lbits, va));
      ByteAndRange(mach.pages, pt, va, sz);
    }

    /** `range_perm(sz)` */
    method RangePerm(sz: nat) returns (p: Perm64)
      requires Tree(mach.pages, pt) && Synced()
      ensures p == ByteAnd(mach.pages, pt, Pos(), sz)
    {
      hide Paging.Fresh, Paging.RangeEnd, Tree, ByteAnd;
      ByteAndPastEnd(mach.pages, pt, sz);
      Readable();
      p := if sz > 0 then Perm64(false, Perm()) else ONES64;
      if sz == 0 || p == ZERO64 {
        // the test of `range_size()` that follows makes no difference
        if sz > 0 && !Done() {
          RangeFacts(sz);
        }
        return;
      }
      RangeFacts(sz);
      if sz <= RangeSize() {
        return;
      }
      var copy := new Vmiter.Copy(this);
      copy.NextRange();
      p := copy.RangePermImpl(p, sz - RangeSize());
    }

    method RangePermImpl(p0: Perm64, sz0: nat) returns (p: Perm64)
      requires Tree(mach.pages, pt) && Synced() && (va == 0 ==> Done())
      modifies this
      ensures p == p0.And(ByteAnd(mach.pages, pt, old(Pos()), sz0))
    {
      hide Paging.Fresh, Paging.RangeEnd, Tree, ByteAnd, Perm64.And;
      ByteAndPastEnd(mach.pages, pt, sz0);
      p := p0;
      var sz: nat := sz0;
      ghost var want := p0.And(ByteAnd(mach.pages, pt, Pos(), sz));
      while p != ZERO64 && sz > 0
        invariant Synced() && (va == 0 ==> Done())
        invariant p.And(ByteAnd(mach.pages, pt, Pos(), sz)) == want
        decreases sz
      {
        if va == 0 {
          // `p &= 0`; the loop's other statements then only move this copy
          AndFacts(p);
          p := ZERO64;
          break;
        }
        RangeFacts(sz);
        ghost var q := p;
        p := p.And(Perm64(false, Perm()));
        var step := if sz <= RangeSize() then sz else RangeSize();
        AndAssoc(q, Perm64(false, Perm()), ByteAnd(mach.pages, pt, va + step, sz - step));
        AndFacts(p);
        sz := sz - step;
        NextRange();
      }
      AndFacts(p);
      AndFacts(ByteAnd(mach.pages, pt, Pos(), sz));
    }
  }

  // ------------------------------------------------------------------
  // `try_map`

  /** The assertions of `try_map` make the granted rights those asked for. */
  lemma {:induction false} FlagsWritten(low: Flags, want: Flags, perm: Flags)
    requires if want.p then low == NO_FLAGS else !low.p
    ensures low.Or(want).p == want.p
    ensures want.p && Accumulated(perm) && (want.w ==> perm.w) && (want.u ==> perm.u) ==>
              low.Or(want).And(perm) == want
  {
  }

  /** `pa | perm` */
  function Written(pa: Entry, want: Flags): Entry {
    Entry(pa.frame, pa.flags.Or(want))
  }

  lemma {:induction false} SameMeaningTrans(m0: Memory, m1: Memory, m2: Memory, root: nat)
    ensures SameMeaning(m0, m0, root)
    ensures SameMeaning(m0, m1, root) && SameMeaning(m1, m2, root) ==> SameMeaning(m0, m2, root)
  {
    hide Paging.Translate;
  }

  /** The stores of one turn of its loop, with `m1` the memory after `kalloc`. */
  lemma {:induction false} LinkStore(m0: Memory, m1: Memory, root: nat, own: map<nat, Spot>, va: Address, n: nat)
    requires Shaped(m0, root, own) && Small(m0, own) && Canonical(va) && n !in own
    requires AgreeOn(m0, m1, own)
    requires var c := Fresh(m0, root, va); c.lbits > PAGEOFFBITS && !Present(EntryAt(m0, c.pep))
    ensures var c := Fresh(m0, root, va);
            var level := LevelOf(c.lbits);
            && c.pep.At? && c.pep.idx < 512 && c.pep.frame in own && c.pep.frame in m1 && c.pep.frame != n
            && own[c.pep.frame].level == level > 0 && c.pep.idx == Idx(va, level)
            && var m2 := Link(m1, c.pep.frame, c.pep.idx, n);
               var own' := LinkOwn(own, c.pep.frame, c.pep.idx, n);
               && Shaped(m2, root, own') && Small(m2, own')
               && SameMeaning(m0, m2, root)
               && Fresh(m2, root, va) == Walk(m2, c.pep.frame, level, va, c.perm)
               && Fresh(m2, root, va) == Cursor(At(n, Idx(va, level - 1)), c.lbits - 9, c.perm)
               && EntryAt(m2, At(n, Idx(va, level - 1))) == ZERO_ENTRY
  {
    hide Paging.Fresh, Paging.Walk, Paging.Idx, Paging.Prefix, Paging.Shaped, Paging.Small, Paging.Translate,
         Paging.Canonical, PageWrites.SameMeaning, PageWrites.Prefix48;
    var c := Fresh(m0, root, va);
    FreshSpot(m0, root, own, va);
    ShapedAgree(m0, m1, root, own);
    OutsideStep(m0, m1, root, own);
    InTree(m0, root, own, c.pep.frame);
    assert EntryAt(m1, c.pep) == EntryAt(m0, c.pep);
    LinkStep(m1, root, own, va, n);
    LinkShaped(m1, root, own, c.pep.frame, c.pep.idx, n);
    LinkedCursor(m1, root, own, c.pep.frame, c.pep.idx, n, va, c.perm);
    SameMeaningTrans(m0, m1, Link(m1, c.pep.frame, c.pep.idx, n), root);
  }

  /** A page just allocated was not in the tree, and there is one fewer left. */
  lemma {:induction false} Taken(m: Memory, root: nat, own: map<nat, Spot>, kernelEnd: nat, rc: seq<nat>, n: nat)
    requires Available(kernelEnd, rc, n) && Apart(m, root, own, kernelEnd, rc)
    ensures n < |rc| && n !in own && Shaped(m, root, own)
    ensures forall f :: Available(kernelEnd, rc[n := 1], f) ==> Available(kernelEnd, rc, f)
  {
    hide Paging.Shaped, Phys.Allocatable;
  }

  /** Clearing the page just allocated changes nothing in the tree. */
  lemma {:induction false} TakenOutside(m: Memory, m': Memory, root: nat, own: map<nat, Spot>, kernelEnd: nat,
                                        rc: seq<nat>, n: nat)
    requires Apart(m, root, own, kernelEnd, rc) && Small(m, own) && n !in own && n < |rc|
    requires forall f :: f in own && f in m ==> f in m' && m'[f] == m[f]
    ensures Apart(m', root, own, kernelEnd, rc[n := 1]) && Small(m', own) && SameMeaning(m, m', root)
    ensures forall x: Address :: Fresh(m', root, x) == Fresh(m, root, x)
  {
    hide Paging.Shaped, PageWrites.SameMeaning, Paging.Fresh, Phys.Allocatable;
    ShapedAgree(m, m', root, own);
    OutsideStep(m, m', root, own);
    assert Apart(m', root, own, kernelEnd, rc[n := 1]);
  }

  /** A cursor at `zero_pe` has no rights and stands at no table. */
  lemma {:induction false} NoRights(m: Memory, root: nat, va: Address)
    ensures Fresh(m, root, va).pep == ZeroPe <==> !Canonical(va)
    ensures Fresh(m, root, va).pep == ZeroPe ==> Fresh(m, root, va).perm == NO_FLAGS
  {
    FreshShape(m, root, va);
  }

  lemma {:induction false} CountsSame(rc: seq<nat>, own: map<nat, Spot>)
    ensures Counts(rc, rc, own, own)
  {
  }

  lemma {:induction false} CountsTaken(rc: seq<nat>, own: map<nat, Spot>, n: nat, s: Spot)
    requires n < |rc| && n !in own
    ensures Counts(rc, rc[n := 1], own, own[n := s])
  {
  }

  lemma {:induction false} CountsTrans(rc0: seq<nat>, rc1: seq<nat>, rc2: seq<nat>, own: map<nat, Spot>,
                                       own1: map<nat, Spot>, own2: map<nat, Spot>)
    requires Counts(rc0, rc1, own, own1) && Counts(rc1, rc2, own1, own2)
    requires (forall f :: f in own ==> f in own1) && (forall f :: f in own1 ==> f in own2)
    ensures Counts(rc0, rc2, own, own2)
  {
  }

  lemma {:induction false} TakenApart(m: Memory, m': Memory, root: nat, own: map<nat, Spot>, kernelEnd: nat,
                                      rc: seq<nat>, n: nat, s: Spot)
    requires Apart(m, root, own, kernelEnd, rc) && n < |rc| && Shaped(m', root, own[n := s])
    ensures Apart(m', root, own[n := s], kernelEnd, rc[n := 1])
  {
    hide Paging.Shaped, Phys.Allocatable;
  }

  lemma {:induction false} InTree(m: Memory, root: nat, own: map<nat, Spot>, f: nat)
    requires Shaped(m, root, own) && f in own
    ensures f in m && own[f].level <= 3
  {
  }

  /** The last store of `try_map`, after tables have been linked in. */
  lemma {:induction false} FinalStore(m0: Memory, m1: Memory, root: nat, own: map<nat, Spot>, va: Address, pa: Entry,
                                      want: Flags)
    requires Shaped(m1, root, own) && Canonical(va) && SameMeaning(m0, m1, root)
    requires var c := Fresh(m1, root, va);
             && c.lbits == PAGEOFFBITS
             && (want.w ==> c.perm.w) && (want.u ==> c.perm.u)
    requires if want.p then pa.flags == NO_FLAGS else !pa.flags.p
    ensures var c := Fresh(m1, root, va);
            && c.pep.At? && c.pep.idx < 512 && c.pep.frame in own && c.pep.frame in m1
            && var m2 := SetLeaf(m1, c.pep.frame, c.pep.idx, Written(pa, want));
               && Fresh(m2, root, va) == c
               && Shaped(m2, root, own)
               && (Small(m1, own) && pa.frame < FRAME_4GIB ==> Small(m2, own))
               && Remapped(m0, m2, root, va, if want.p then Some(Mapping(PAGESIZE * pa.frame, want)) else None)
  {
    hide Paging.Fresh, Paging.Shaped, Paging.Small, Paging.Translate, Paging.Prefix, Paging.Offset, Paging.Canonical;
    var c := Fresh(m1, root, va);
    var e := Written(pa, want);
    SetStep(m1, root, own, va, e);
    LeafShaped(m1, root, own, c.pep.frame, c.pep.idx, e);
    FreshKeeps(m1, root, va);
    FlagsWritten(pa.flags, want, c.perm);
  }

  /** Where `try_map` leaves the memory alone, it unmaps the page exactly when
      nothing was mapped at the address. */
  lemma {:induction false} UnmapWorks(m: Memory, root: nat, va: Address)
    requires Offset(va, 0) == 0
    ensures Remapped(m, m, root, va, None) <==> Translate(m, root, va) == None
  {
    hide Paging.Translate, Paging.Fresh, Paging.RangeEnd;
    FreshShape(m, root, va);
    var end := RangeEnd(Fresh(m, root, va).lbits, va);
    RangeEndBounds(Fresh(m, root, va).lbits, va);
    forall x: Address | Prefix(x, 0) == Prefix(va, 0) && Translate(m, root, va) == None
      ensures Translate(m, root, x) == None
    {
      PageBefore(va, x, end);
      RangeMeaning(m, root, va, x);
    }
  }

  lemma {:induction false} PageBefore(va: nat, x: nat, end: nat)
    requires va % PAGESIZE == 0 && end % PAGESIZE == 0 && va < end && x / PAGESIZE == va / PAGESIZE
    ensures va <= x < end
  {
  }

  /** A table that maps the first gigabyte by one large page. */
  lemma {:induction false} LargePageStays() returns (m: Memory, root: nat, own: map<nat, Spot>)
    ensures Shaped(m, root, own) && Small(m, own)
    ensures Fresh(m, root, 0).lbits > PAGEOFFBITS && !Remapped(m, m, root, 0, None)
  {
    var leaf := Entry(0, Flags(true, true, true, true, 0));
    var top, low: Table := Filled(ZERO_ENTRY)[0 := Entry(2, PWU_FLAGS)], Filled(ZERO_ENTRY)[0 := leaf];
    m, root, own := map[1 := top, 2 := low], 1, map[1 := Spot(3, 0), 2 := Spot(2, 0)];
    assert Idx(0, 3) == 0 && Idx(0, 2) == 0;
    assert Access(m, 2, 2, 0) == Some(Mapping(0, leaf.flags));
    assert Walk(m, 2, 2, 0, PWU_FLAGS).lbits == 30;
    UnmapWorks(m, root, 0);
  }

  // ------------------------------------------------------------------
  // `next`

  /** `(va | lbits_mask(bits)) + 1` before it wraps at 2^64. */
  function BlockEnd(bits: nat, va: Address): nat {
    if bits == NONCANONICAL_LBITS then (va / VA_LOWEND + 1) * VA_LOWEND else RangeEnd(bits, va)
  }

  /** Where `next` goes from `va`. */
  function NextTarget(m: Memory, root: nat, va: Address): nat {
    if Translate(m, root, va).None? then BlockEnd(Fresh(m, root, va).lbits, va)
    else RangeEnd(PAGEOFFBITS, va)
  }

  /** The end of a range is a multiple of its span, at most a span away. */
  lemma {:induction false} BlockEndIsNext(va: Address, bits: nat)
    requires bits in {12, 21, 30, 39, 47}
    ensures var span := if bits == NONCANONICAL_LBITS then VA_LOWEND else Span(LevelOf(bits));
            && BlockEnd(bits, va) == (va / span + 1) * span
            && va < BlockEnd(bits, va) <= va + span
  {
    if bits != NONCANONICAL_LBITS {
      RangeEndIsNext(va, LevelOf(bits));
    }
  }

  lemma {:induction false} AbsentTarget(m: Memory, root: nat, va: Address)
    ensures Canonical(va) && Translate(m, root, va).None? ==>
              NextTarget(m, root, va) == RangeEnd(Fresh(m, root, va).lbits, va)
  {
    hide Paging.Fresh, Paging.RangeEnd, Paging.Translate;
    FreshShape(m, root, va);
  }

  /** In a tree, the address after a range has another entry. */
  lemma {:induction false} NextIsNew(m: Memory, root: nat, va: Address)
    requires Tree(m, root)
    ensures var r := RangeEnd(Fresh(m, root, va).lbits, va);
            r < VA_END ==> Fresh(m, root, r).pep != Fresh(m, root, va).pep
  {
    hide Paging.RangeEnd, Paging.Shaped, Paging.Small, Paging.Walk;
    var own :| Shaped(m, root, own) && Small(m, own);
    var r := RangeEnd(Fresh(m, root, va).lbits, va);
    if r < VA_END {
      RangeMaximal(m, root, va);
      FreshShape(m, root, va);
      FreshShape(m, root, r);
      RootSpot(m, root, own);
      if Canonical(va) && Canonical(r) {
        WalkInTree(m, root, own, root, 3, va, ALL_FLAGS);
        WalkInTree(m, root, own, root, 3, r, ALL_FLAGS);
      }
    }
  }

  lemma {:induction false} RootSpot(m: Memory, root: nat, own: map<nat, Spot>)
    requires Shaped(m, root, own)
    ensures root in own && own[root].level == 3
  {
  }

  lemma {:induction false} NextBounds(m: Memory, root: nat, va: Address)
    ensures va < NextTarget(m, root, va) <= VA_END
    ensures NextTarget(m, root, va) % PAGESIZE == 0
    ensures var lbits := Fresh(m, root, va).lbits;
            var bits := if lbits > PAGEOFFBITS && PermAt(m, root, va).Zero() then lbits else PAGEOFFBITS;
            NextTarget(m, root, va) == BlockEnd(bits, va)
  {
    hide Paging.Fresh, Paging.Translate, Paging.PermAt;
    PermZero(m, root, va);
    FreshShape(m, root, va);
    if Canonical(va) {
      RangeEndBounds(Fresh(m, root, va).lbits, va);
    } else {
      Multiple(va / VA_LOWEND + 1, VA_LOWEND / PAGESIZE);
    }
    RangeEndBounds(PAGEOFFBITS, va);
  }

  /** `next` passes over no mapped page. */
  lemma {:induction false} NextSkipsOnlyAbsent(m: Memory, root: nat, va: Address, x: Address)
    requires RangeEnd(PAGEOFFBITS, va) <= x < NextTarget(m, root, va)
    ensures Translate(m, root, x) == None
  {
    FreshShape(m, root, va);
    if Canonical(va) {
      RangeMeaning(m, root, va, x);
    }
  }

  // ------------------------------------------------------------------
  // `range_perm`

  lemma {:induction false} WrapSize(va: Address, end: nat)
    requires va < end <= VA_END && end - va < VA_END
    ensures (end % VA_END - va) % VA_END == end - va
  {
  }

  /** A 64-bit permission word whose bits 12 to 63 are all equal to `high`. */
  datatype Perm64 = Perm64(high: bool, flags: Flags) {
    function And(that: Perm64): Perm64 {
      Perm64(high && that.high, flags.And(that.flags))
    }
  }

  const ONES64 := Perm64(true, ALL_FLAGS)
  const ZERO64 := Perm64(false, NO_FLAGS)

  /** Permission of one byte; there is none past the wrap. */
  function BytePerm(m: Memory, root: nat, a: nat): Perm64 {
    if a < VA_END then Perm64(false, PermAt(m, root, a)) else ZERO64
  }

  /** The bitwise AND of the permissions of the bytes [a, a + n). */
  function ByteAnd(m: Memory, root: nat, a: nat, n: nat): Perm64
    decreases n
  {
    if n == 0 then ONES64 else BytePerm(m, root, a).And(ByteAnd(m, root, a + 1, n - 1))
  }

  lemma {:induction false} AndAssoc(p: Perm64, q: Perm64, r: Perm64)
    ensures p.And(q).And(r) == p.And(q.And(r))
  {
    assert (p.flags.rest & q.flags.rest) & r.flags.rest == p.flags.rest & (q.flags.rest & r.flags.rest);
  }

  lemma {:induction false} AndFacts(p: Perm64)
    ensures p.And(p) == p && p.And(ONES64) == p && ZERO64.And(p) == ZERO64 && p.And(ZERO64) == ZERO64
  {
  }

  /** A stretch of `k` bytes of equal permission counts once. */
  lemma {:induction false} ByteAndStretch(m: Memory, root: nat, a: nat, k: nat, n: nat, p: Perm64)
    requires 1 <= k <= n
    requires forall x :: a <= x < a + k ==> BytePerm(m, root, x) == p
    ensures ByteAnd(m, root, a, n) == p.And(ByteAnd(m, root, a + k, n - k))
    decreases k
  {
    hide BytePerm, Perm64.And;
    assert BytePerm(m, root, a) == p;
    if k > 1 {
      ByteAndStretch(m, root, a + 1, k - 1, n - 1, p);
      var rest := ByteAnd(m, root, a + k, n - k);
      assert a + 1 + (k - 1) == a + k && n - 1 - (k - 1) == n - k;
      AndAssoc(p, p, rest);
      AndFacts(p);
    }
  }

  /** Nothing is accessible past the wrap, and no bytes restrict nothing. */
  lemma {:induction false} ByteAndPastEnd(m: Memory, root: nat, n: nat)
    ensures forall k: nat :: 0 < k <= n ==> ByteAnd(m, root, VA_END, k) == ZERO64
    ensures forall a: nat :: ByteAnd(m, root, a, 0) == ONES64
  {
    forall k: nat | 0 < k <= n
      ensures ByteAnd(m, root, VA_END, k) == ZERO64
    {
      AndFacts(ByteAnd(m, root, VA_END + 1, k - 1));
    }
  }

  /** One range of the cursor at `va` counts once. */
  lemma {:induction false} ByteAndRange(m: Memory, root: nat, va: Address, n: nat)
    requires n > 0
    ensures var size := RangeEnd(Fresh(m, root, va).lbits, va) - va;
            var p := Perm64(false, PermAt(m, root, va));
            && size > 0
            && ByteAnd(m, root, va, n) == (if n <= size then p else p.And(ByteAnd(m, root, va + size, n - size)))
            && (p == ZERO64 ==> ByteAnd(m, root, va, n) == ZERO64)
  {
    hide Paging.Fresh, Paging.RangeEnd, Perm64.And, ByteAnd, Paging.Translate;
    FreshShape(m, root, va);
    var lbits := Fresh(m, root, va).lbits;
    RangeEndBounds(lbits, va);
    var size := RangeEnd(lbits, va) - va;
    var p := Perm64(false, PermAt(m, root, va));
    var k := if n <= size then n else size;
    forall x | va <= x < va + k
      ensures BytePerm(m, root, x) == p
    {
      RangeMeaning(m, root, va, x);
    }
    ByteAndStretch(m, root, va, k, n, p);
    ByteAndPastEnd(m, root, 0);
    AndFacts(p);
    AndFacts(ByteAnd(m, root, va + k, n - k));
  }

  /** The same-table test implies agreement with a full walk; the canonical test
      that the shortcut skips would have passed. */
  lemma {:induction false} Shortcut(m: Memory, root: nat, x: Address, y: Address)
    requires var c := Fresh(m, root, x);
             c.lbits < INITIAL_LBITS && Prefix(x, LevelOf(c.lbits) + 1) == Prefix(y, LevelOf(c.lbits) + 1)
    ensures Canonical(y)
    ensures var c := Fresh(m, root, x);
            c.pep.At? && Fresh(m, root, y) == Walk(m, c.pep.frame, LevelOf(c.lbits), y, c.perm)
  {
    FreshShape(m, root, x);
    WalkVia(m, root, 3, x, y, ALL_FLAGS);
    PrefixMono(x, y, LevelOf(Fresh(m, root, x).lbits) + 1, 3);
  }

  // ------------------------------------------------------------------
  // Runs

  /** `find`, `+=` or `-=`, `next`, `next_range` */
  datatype Op = OpFind(va: Address) | OpMove(delta: int) | OpNext | OpNextRange

  /** Where an operation takes an iterator that is at `pos`, with 2^64 for one
      that is done; only `next` and `next_range` make an iterator done. */
  function Target(m: Memory, root: nat, pos: nat, op: Op): (t: nat)
    requires pos <= VA_END
    ensures t <= VA_END
  {
    var done := pos == VA_END;
    match op
    case OpFind(va) => if done && va == 0 then VA_END else va
    case OpMove(delta) =>
      var va := (pos + delta) % VA_END;
      if done && va == 0 then VA_END else va
    case OpNext => if done then VA_END else NextBounds(m, root, pos); NextTarget(m, root, pos)
    case OpNextRange =>
      if done then VA_END
      else
        FreshShape(m, root, pos);
        RangeEndBounds(Fresh(m, root, pos).lbits, pos);
        RangeEnd(Fresh(m, root, pos).lbits, pos)
  }

  function Positions(m: Memory, root: nat, pos: nat, ops: seq<Op>): (t: nat)
    requires pos <= VA_END
    ensures t <= VA_END
    decreases |ops|
  {
    if ops == [] then pos else Positions(m, root, Target(m, root, pos, ops[0]), ops[1..])
  }

  /** `next` and `next_range` are called only on iterators that are not done. */
  predicate Legal(m: Memory, root: nat, pos: nat, ops: seq<Op>)
    requires pos <= VA_END
    decreases |ops|
  {
    ops != [] ==>
      && (ops[0].OpNext? || ops[0].OpNextRange? ==> pos < VA_END)
      && Legal(m, root, Target(m, root, pos, ops[0]), ops[1..])
  }

  /** After any run the iterator is at the address the run leads to, with the
      entry, level and rights of an iterator built there. */
  method Replay(mach: Machine, pt: nat, va: Address, ops: seq<Op>) returns (it: Vmiter)
    requires Tree(mach.pages, pt) && Legal(mach.pages, pt, va, ops)
    ensures it.mach == mach && it.pt == pt && it.Pos() == Positions(mach.pages, pt, va, ops)
    ensures !it.Done() ==> it.Cur() == Fresh(mach.pages, pt, it.va)
    ensures !it.Done() && it.pep.At? ==> it.pep.frame in mach.pages && it.pep.idx < 512
    ensures !it.Done() ==>
              && it.Perm() == PermAt(mach.pages, pt, it.va)
              && it.Pa() == match Translate(mach.pages, pt, it.va) case None => None case Some(x) => Some(x.pa)
  {
    hide Paging.Fresh, Paging.RangeEnd, Tree, Paging.Translate, Paging.PermAt, NextTarget, Target;
    ghost var m := mach.pages;
    it := new Vmiter(mach, pt, va);
    var i := 0;
    assert ops[0..] == ops;
    while i < |ops|
      invariant i <= |ops| && it.mach == mach && it.pt == pt && fresh(it) && mach.pages == m
      invariant it.Synced() && Legal(m, pt, it.Pos(), ops[i..])
      invariant Positions(m, pt, it.Pos(), ops[i..]) == Positions(m, pt, va, ops)
    {
      assert ops[i..][1..] == ops[i + 1..];
      Perform(it, ops[i]);
      i := i + 1;
    }
    if !it.Done() {
      it.Reports();
    }
  }

  method Perform(it: Vmiter, op: Op)
    requires Tree(it.mach.pages, it.pt) && it.Synced() && (op.OpNext? || op.OpNextRange? ==> !it.Done())
    modifies it
    ensures it.Synced() && it.Pos() == Target(it.mach.pages, it.pt, old(it.Pos()), op)
  {
    hide Paging.Fresh, Paging.RangeEnd, Tree, NextTarget;
    match op {
      case OpFind(va) => it.Find(va);
      case OpMove(delta) =>
        WrapMove(delta);
        it.Advance(delta);
      case OpNext => it.Next();
      case OpNextRange => it.NextRange();
    }
  }

  lemma {:induction false} WrapMove(delta: int)
    ensures (VA_END + delta) % VA_END == delta % VA_END
  {
  }

  // ------------------------------------------------------------------
  // Repeated `next_range` tiles the address space

  /** A stretch of addresses and the mapping of its first byte. */
  datatype Range = Range(start: nat, end: nat, perm: Flags, pa: Option<nat>)

  /** Every byte of the stretch has its rights, at the matching offset. */
  ghost predicate Uniform(m: Memory, root: nat, r: Range) {
    && r.start < r.end <= VA_END
    && forall x: Address :: r.start <= x < r.end ==>
         Translate(m, root, x) ==
         match r.pa case None => None case Some(pa) => Some(Mapping(pa + (x - r.start), r.perm))
  }

  ghost predicate Chained(rs: seq<Range>, end: nat) {
    && (rs == [] ==> end == 0)
    && (rs != [] ==> rs[0].start == 0 && rs[|rs| - 1].end == end)
    && forall i :: 0 < i < |rs| ==> rs[i - 1].end == rs[i].start
  }

  /** From address 0, `next_range` until `done()`. */
  method AllRanges(mach: Machine, pt: nat) returns (rs: seq<Range>)
    requires Tree(mach.pages, pt)
    ensures Chained(rs, VA_END)
    ensures forall r :: r in rs ==> Uniform(mach.pages, pt, r)
  {
    hide Paging.Fresh, Paging.RangeEnd, Tree, Uniform, Paging.Translate, Paging.PermAt;
    ghost var m := mach.pages;
    rs := [];
    var it := new Vmiter(mach, pt, 0);
    while !it.Done()
      invariant it.mach == mach && it.pt == pt && fresh(it) && mach.pages == m
      invariant it.Synced()
      invariant Chained(rs, it.Pos())
      invariant forall r :: r in rs ==> Uniform(m, pt, r)
      decreases VA_END - it.Pos()
    {
      it.Reports();
      it.RangeFacts(1);
      var r := Range(it.va, it.va + it.RangeSize(), it.Perm(), it.Pa());
      RangeUniform(m, pt, it.va);
      rs := rs + [r];
      it.NextRange();
    }
  }

  lemma {:induction false} RangeUniform(m: Memory, root: nat, va: Address)
    ensures var pa := match Translate(m, root, va) case None => None case Some(x) => Some(x.pa);
            Uniform(m, root, Range(va, RangeEnd(Fresh(m, root, va).lbits, va), PermAt(m, root, va), pa))
  {
    hide Paging.Fresh, Paging.RangeEnd, Paging.Translate;
    FreshShape(m, root, va);
    RangeEndBounds(Fresh(m, root, va).lbits, va);
    forall x: Address | va <= x < RangeEnd(Fresh(m, root, va).lbits, va)
      ensures match Translate(m, root, va)
              case None => Translate(m, root, x) == None
              case Some(y) => Translate(m, root, x) == Some(Mapping(y.pa + (x - va), y.flags))
    {
      RangeMeaning(m, root, va, x);
    }
  }
}
