/**
 `ptiter`, the stackless traversal of the pages of a page table
 (pset3/k-vmiter.cc, pset3/k-vmiter.hh).  It keeps one address and a level, and
 climbs by walking down again from the root.  The specification is recursive
 post-order; the iterator is proved to visit exactly that sequence, and to read
 no page it has already visited, so that pages can be freed as it goes.
 */
module Ptiter {
  import opened Wrappers
  import opened Paging
  import opened Phys
  import opened PageWrites

  // ------------------------------------------------------------------
  // Post-order

  /** Pages visited for entry `e` of a level-`level` table: below it, then itself. */
  function EntryOrder(m: Memory, e: Entry, level: nat): seq<nat>
    requires 1 <= level <= 3
    decreases level, 0, 0
  {
    if !PointsToTable(e) then []
    else if level == 1 then [e.frame]
    else PostOrder(m, e.frame, level - 1, 0, 512) + [e.frame]
  }

  /** Pages visited for entries `i` to `j` of the level-`level` table in `f`. */
  function PostOrder(m: Memory, f: nat, level: nat, i: nat, j: nat): seq<nat>
    requires 1 <= level <= 3 && i <= j <= 512
    decreases level, 1, j - i
  {
    if i == j then []
    else EntryOrder(m, Lookup(m, f, i), level) + PostOrder(m, f, level, i + 1, j)
  }

  // ------------------------------------------------------------------
  // Positions: an address and a level

  /** The level-`level` table that serves `va`. */
  function TableOn(m: Memory, root: nat, va: Address, level: nat): nat
    requires level <= 3
    decreases 3 - level
  {
    if level == 3 then root
    else Lookup(m, TableOn(m, root, va, level + 1), Idx(va, level + 1)).frame
  }

  function EntryOn(m: Memory, root: nat, va: Address, level: nat): Entry
    requires level <= 3
  {
    Lookup(m, TableOn(m, root, va, level), Idx(va, level))
  }

  /** Tables lead from the root down to the level-`level` table of `va`. */
  predicate OnPath(m: Memory, root: nat, va: Address, level: nat)
    requires level <= 3
    decreases 3 - level
  {
    level == 3 || (OnPath(m, root, va, level + 1) && PointsToTable(EntryOn(m, root, va, level + 1)))
  }

  /** Visits left once the level-`level` entry of `va` is finished with. */
  function After(m: Memory, root: nat, va: Address, level: nat): seq<nat>
    requires 1 <= level <= 3
    decreases 3 - level
  {
    var t := TableOn(m, root, va, level);
    PostOrder(m, t, level, Idx(va, level) + 1, 512)
    + (if level == 3 then [] else [t] + After(m, root, va, level + 1))
  }

  /** Visits left when the level-`level` entry of `va` has not been started. */
  function From(m: Memory, root: nat, va: Address, level: nat): seq<nat>
    requires 1 <= level <= 3
  {
    EntryOrder(m, EntryOn(m, root, va, level), level) + After(m, root, va, level)
  }

  // ------------------------------------------------------------------
  // Moving on by one entry

  /** `(va | lbits_mask) + 1`, wrapping. */
  function Bump(va: Address, level: nat): Address
    requires 1 <= level <= 3
  {
    (Prefix(va, level) + 1) * Span(level) % VA_END
  }

  function Canonicalize(va: Address): Address {
    if Canonical(va) then va else VA_HIGHMIN
  }

  /** Number of level-`level` spans in the whole address space. */
  function Count(level: nat): nat
    requires 1 <= level <= 3
  {
    if level == 1 then 0x800_0000_0000 else if level == 2 then 0x4_0000_0000 else 0x200_0000
  }

  lemma {:induction false} BumpPrefix(va: Address, level: nat)
    requires 1 <= level <= 3
    ensures var q := Prefix(va, level) + 1;
            && q <= Count(level)
            && Bump(va, level) == (if q == Count(level) then 0 else q * Span(level))
            && Prefix(Bump(va, level), level) == (if q == Count(level) then 0 else q)
            && Offset(Bump(va, level), level) == 0
  {
    var q := Prefix(va, level) + 1;
    if level == 1 {
      Times(q, 0x20_0000);
    } else if level == 2 {
      Times(q, 0x4000_0000);
    } else {
      Times(q, 0x80_0000_0000);
    }
  }

  lemma {:induction false} Times(q: nat, s: nat)
    requires s == 0x20_0000 || s == 0x4000_0000 || s == 0x80_0000_0000
    ensures q * s / s == q && q * s % s == 0
  {
    if s == 0x20_0000 {
      assert q * 0x20_0000 / 0x20_0000 == q;
    } else if s == 0x4000_0000 {
      assert q * 0x4000_0000 / 0x4000_0000 == q;
    } else {
      assert q * 0x80_0000_0000 / 0x80_0000_0000 == q;
    }
  }

  lemma {:induction false} BumpCrosses(va: Address, level: nat)
    requires 1 <= level <= 3
    ensures Prefix(Bump(va, level), level + 1) != Prefix(va, level + 1) <==> Idx(va, level) == 511
    ensures level == 3 && Canonical(va) && Idx(va, 3) == 511 ==> Bump(va, level) == 0
  {
    BumpPrefix(va, level);
    PrefixUp(va, level);
    PrefixUp(Bump(va, level), level);
  }

  lemma {:induction false} HighHalf(va: Address)
    requires Canonical(va)
    ensures Idx(va, 3) >= 256 <==> va >= VA_HIGHMIN
    ensures Idx(va, 3) < 256 <==> va < VA_LOWEND
  {
  }

  /** The 48-bit address of the next entry of the same table. */
  lemma {:induction false} BumpLow(va: Address, level: nat)
    requires 1 <= level <= 3 && Idx(va, level) != 511
    ensures Bump(va, level) % LOW48 == (Prefix48(va, level) + 1) * Span(level) < LOW48
    ensures Bump(va, level) / LOW48 == va / LOW48
  {
    hide Bump, Paging.Prefix, Paging.Idx;
    IdxLow(va, level);
    BumpPrefix(va, level);
    var h, a := va / LOW48, va % LOW48;
    var p := Prefix(a, level);
    PrefixOfSum(h, a, level);
    RoomLeft(a, level);
    assert Bump(va, level) == (p + 1) * Span(level) + h * LOW48;
    SplitLow((p + 1) * Span(level), h);
  }

  lemma {:induction false} RoomLeft(a: Address, level: nat)
    requires 1 <= level <= 3 && a < LOW48 && Idx(a, level) != 511
    ensures (Prefix(a, level) + 1) * Span(level) < LOW48
  {
  }

  lemma {:induction false} SplitLow(x: nat, h: nat)
    requires x < LOW48
    ensures (x + h * LOW48) % LOW48 == x && (x + h * LOW48) / LOW48 == h
  {
  }

  lemma {:induction false} BumpStays(va: Address, level: nat)
    requires 1 <= level <= 3 && Canonical(va) && Idx(va, level) != 511
    ensures var v := Canonicalize(Bump(va, level));
            && Canonical(v)
            && v % LOW48 == (Prefix48(va, level) + 1) * Span(level)
  {
    BumpLow(va, level);
    var t := Bump(va, level);
    assert t == t / LOW48 * LOW48 + t % LOW48;
  }

  lemma {:induction false} NextEntry(va: Address, level: nat)
    requires 1 <= level <= 3 && Canonical(va) && Idx(va, level) != 511
    ensures var v := Canonicalize(Bump(va, level));
            && Canonical(v)
            && Prefix48(v, level) == Prefix48(va, level) + 1
            && Offset(v, level) == 0
            && v % LOW48 > va % LOW48
  {
    BumpStays(va, level);
    PrefixOffset(va % LOW48, level);
    var v := Canonicalize(Bump(va, level));
    Times(Prefix48(va, level) + 1, Span(level));
    OffsetLow(v, level);
  }

  lemma {:induction false} OffsetLow(va: Address, level: nat)
    requires 1 <= level <= 3
    ensures Offset(va, level) == Offset(va % LOW48, level)
  {
    var h, a := va / LOW48, va % LOW48;
    PrefixOfSum(h, a, level);
  }

  // ------------------------------------------------------------------
  // How the remaining visits change

  /** Addresses that agree above `level` share the tables from `level` up. */
  lemma {:induction false} SameAbove(m: Memory, root: nat, x: Address, y: Address, level: nat)
    requires 1 <= level <= 3 && Prefix48(x, level + 1) == Prefix48(y, level + 1)
    ensures TableOn(m, root, x, level) == TableOn(m, root, y, level)
    ensures OnPath(m, root, x, level) == OnPath(m, root, y, level)
    ensures level < 3 ==> After(m, root, x, level + 1) == After(m, root, y, level + 1)
    decreases 3 - level
  {
    hide Paging.Prefix, Paging.Idx, Prefix48, PostOrder, EntryOrder;
    if level < 3 {
      Prefix48Up(x, y, level + 1);
      PrefixSplit(x, level + 1);
      PrefixSplit(y, level + 1);
      SameAbove(m, root, x, y, level + 1);
    }
  }

  lemma {:induction false} Prefix48Up(x: Address, y: Address, level: nat)
    requires level <= 3 && Prefix48(x, level) == Prefix48(y, level)
    ensures Prefix48(x, level + 1) == Prefix48(y, level + 1)
  {
    PrefixUp(x % LOW48, level);
    PrefixUp(y % LOW48, level);
  }

  /** Stepping to the next entry of the same table finishes the current one. */
  lemma {:induction false} SamePrefixAbove(va: Address, v: Address, level: nat)
    requires 1 <= level <= 3 && Idx(va, level) != 511
    requires Prefix48(v, level) == Prefix48(va, level) + 1
    ensures Idx(v, level) == Idx(va, level) + 1
    ensures Prefix48(v, level + 1) == Prefix48(va, level + 1)
  {
    hide Paging.Prefix, Paging.Idx, Prefix48;
    PrefixSplit(va, level);
    PrefixSplit(v, level);
  }

  lemma {:induction false} StepAfter(m: Memory, root: nat, va: Address, v: Address, level: nat)
    requires 1 <= level <= 3 && Idx(va, level) != 511
    requires Prefix48(v, level) == Prefix48(va, level) + 1
    ensures Idx(v, level) == Idx(va, level) + 1
    ensures TableOn(m, root, v, level) == TableOn(m, root, va, level)
    ensures OnPath(m, root, v, level) == OnPath(m, root, va, level)
    ensures From(m, root, v, level) == After(m, root, va, level)
  {
    hide Paging.Prefix, Paging.Idx, Prefix48, EntryOrder;
    SamePrefixAbove(va, v, level);
    SameAbove(m, root, v, va, level);
    var t := TableOn(m, root, va, level);
    var i := Idx(va, level) + 1;
    assert PostOrder(m, t, level, i, 512)
        == EntryOrder(m, Lookup(m, t, i), level) + PostOrder(m, t, level, i + 1, 512);
  }

  /** Going down to the first entry of a child table loses and gains nothing. */
  lemma {:induction false} DescendFrom(m: Memory, root: nat, va: Address, level: nat)
    requires 2 <= level <= 3 && Offset(va, level) == 0
    requires PointsToTable(EntryOn(m, root, va, level))
    ensures Idx(va, level - 1) == 0 && Offset(va, level - 1) == 0
    ensures From(m, root, va, level - 1) == From(m, root, va, level)
  {
    hide Paging.Prefix, Paging.Idx, Paging.Offset, PostOrder, EntryOrder, After, Paging.Lookup;
    AlignedBelow(va, level);
    var child := EntryOn(m, root, va, level).frame;
    Unfold(m, root, va, level);
    var first, others := EntryOrder(m, Lookup(m, child, 0), level - 1), PostOrder(m, child, level - 1, 1, 512);
    Regroup(first, others, [child], After(m, root, va, level));
  }

  lemma {:induction false} Unfold(m: Memory, root: nat, va: Address, level: nat)
    requires 2 <= level <= 3
    ensures var e := EntryOn(m, root, va, level);
            && TableOn(m, root, va, level - 1) == e.frame
            && PostOrder(m, e.frame, level - 1, 0, 512)
               == EntryOrder(m, Lookup(m, e.frame, 0), level - 1) + PostOrder(m, e.frame, level - 1, 1, 512)
            && (PointsToTable(e) ==> EntryOrder(m, e, level) == PostOrder(m, e.frame, level - 1, 0, 512) + [e.frame])
            && After(m, root, va, level - 1)
               == PostOrder(m, e.frame, level - 1, Idx(va, level - 1) + 1, 512)
                  + ([e.frame] + After(m, root, va, level))
  {
    hide Paging.Prefix, Paging.Idx;
  }

  lemma {:induction false} Regroup<T>(a: seq<T>, b: seq<T>, c: seq<T>, d: seq<T>)
    ensures (a + b + c) + d == a + (b + (c + d))
  {
  }

  lemma {:induction false} AlignedBelow(va: Address, level: nat)
    requires 2 <= level <= 3 && Offset(va, level) == 0
    ensures Idx(va, level - 1) == 0 && Offset(va, level - 1) == 0
  {
    var k := Prefix(va, level);
    var s := if level == 2 then 0x20_0000 else 0x4000_0000;
    assert va == 512 * k * s;
    Times(512 * k, s);
    DropMultiple(0, k);
  }

  /** The tables above an entry are among the visits left, and so is what is
      left above them. */
  lemma {:induction false} AboveIsLeft(m: Memory, root: nat, va: Address, level: nat, k: nat)
    requires 1 <= level <= k <= 3
    ensures k < 3 ==> TableOn(m, root, va, k) in After(m, root, va, level)
    ensures forall f :: f in After(m, root, va, k) ==> f in After(m, root, va, level)
    decreases k - level
  {
    hide PostOrder, TableOn, Paging.Idx;
    if level < k {
      AboveIsLeft(m, root, va, level + 1, k);
    }
  }

  // ------------------------------------------------------------------
  // The iterator

  /** The current memory still holds the root and the pages left to visit. */
  ghost predicate Intact(m: Memory, m0: Memory, root: nat, left: seq<nat>) {
    && root in m && root in m0 && m[root] == m0[root]
    && forall f :: f in left ==> f in m && f in m0 && m[f] == m0[f]
  }

  class Ptiter {
    const mach: Machine
    const pt: nat
    var pep: Slot
    var lbits: nat
    var va: Address

    predicate Done()
      reads this
    {
      lbits == DONE_LBITS
    }

    /** `low()` */
    predicate Low()
      reads this
    {
      va < VA_LOWEND
    }

    ghost predicate Positioned(m0: Memory)
      reads this
    {
      && lbits in {21, 30, 39} && Canonical(va)
      && OnPath(m0, pt, va, LevelOf(lbits))
      && pep == At(TableOn(m0, pt, va, LevelOf(lbits)), Idx(va, LevelOf(lbits)))
    }

    /** The visits left, without the current one. */
    ghost function Left(m0: Memory): seq<nat>
      reads this
    {
      if lbits in {21, 30, 39} then After(m0, pt, va, LevelOf(lbits)) else []
    }

    /** `*pep_`: a read of memory, so the page must still be there. */
    function ReadEntry(): (e: Entry)
      requires pep.At? && pep.frame in mach.pages && pep.idx < 512
      reads this, mach
    {
      mach.pages[pep.frame][pep.idx]
    }

    /** At the visit `left[0]`, with the rest of `left` to come; or done. */
    ghost predicate Visiting(m0: Memory, left: seq<nat>)
      reads this
    {
      if left == [] then Done() && va >= VA_HIGHMIN
      else
        && Positioned(m0)
        && EntryOn(m0, pt, va, LevelOf(lbits)).frame == left[0]
        && PointsToTable(EntryOn(m0, pt, va, LevelOf(lbits)))
        && Left(m0) == left[1..]
    }

    constructor (mach: Machine, pt: nat)
      requires Intact(mach.pages, mach.pages, pt, PostOrder(mach.pages, pt, 3, 0, 512))
      ensures this.mach == mach && this.pt == pt
      ensures Visiting(mach.pages, PostOrder(mach.pages, pt, 3, 0, 512))
    {
      hide From, After, PostOrder, Paging.Idx, Paging.Offset, Paging.Canonical;
      this.mach, this.pt := mach, pt;
      pep, lbits, va := At(pt, 0), INITIAL_LBITS, 0;
      new;
      FromStart(mach.pages, pt);
      Down(false, mach.pages, PostOrder(mach.pages, pt, 3, 0, 512));
    }

    /** `next()` */
    method Next(ghost m0: Memory, ghost left: seq<nat>)
      requires Visiting(m0, left) && left != []
      requires Intact(mach.pages, m0, pt, left[1..])
      modifies this
      ensures Visiting(m0, left[1..])
    {
      Down(true, m0, left[1..]);
    }

    /** The current entry can be read while the other pages left are intact. */
    lemma {:induction false} Readable(m0: Memory, left: seq<nat>)
      requires Visiting(m0, left) && left != []
      requires Intact(mach.pages, m0, pt, left[1..])
      ensures pep.frame in mach.pages && Pa() == left[0]
    {
      hide After, TableOn, OnPath, Paging.Idx, Paging.Canonical;
      AboveIsLeft(m0, pt, va, LevelOf(lbits), LevelOf(lbits));
      RootTable(m0, pt, va);
    }

    /** Whether the iterator is low tells how many visits are left. */
    lemma {:induction false} HalfOf(m0: Memory, left: seq<nat>)
      requires Visiting(m0, left)
      ensures Low() ==> |left| > |PostOrder(m0, pt, 3, 256, 512)|
      ensures !Low() ==> |left| <= |PostOrder(m0, pt, 3, 256, 512)|
    {
      hide PostOrder, After, TableOn, OnPath, Paging.Idx, Paging.Canonical;
      if left != [] {
        HighHalf(va);
        LowLeft(m0, pt, va, LevelOf(lbits));
        HighLeft(m0, pt, va, LevelOf(lbits));
        LastOfEntry(m0, pt, va, LevelOf(lbits));
      }
    }

    /** `pa()`, as a frame number */
    function Pa(): nat
      requires pep.At? && pep.frame in mach.pages && pep.idx < 512
      reads this, mach
    {
      ReadEntry().frame
    }

    /** `down(skip)` */
    method Down(skip0: bool, ghost m0: Memory, ghost left: seq<nat>)
      requires Positioned(m0)
      requires skip0 ==> left == After(m0, pt, va, LevelOf(lbits))
      requires !skip0 ==> left == From(m0, pt, va, LevelOf(lbits)) && Offset(va, LevelOf(lbits)) == 0
      requires Intact(mach.pages, m0, pt, left)
      modifies this
      ensures Visiting(m0, left)
    {
      hide Paging.Prefix, Paging.Idx, Paging.Offset, Paging.Canonical, Bump, Canonicalize, After, From, TableOn,
           OnPath, EntryOn, PageWrites.Prefix48, Midway;
      var skip := skip0;
      var stop := 21;
      MidStart(m0, pt, va, LevelOf(lbits), skip, left);
      while lbits < DONE_LBITS
        invariant lbits in {21, 30, 39} && stop in {21, 30, 39}
        invariant Midway(m0, pt, va, LevelOf(lbits), skip, LevelOf(stop), left)
        invariant pep == At(TableOn(m0, pt, va, LevelOf(lbits)), Idx(va, LevelOf(lbits)))
        decreases LOW48 - va % LOW48, if stop == 21 then 1 else 0, lbits
      {
        var level := LevelOf(lbits);
        MidReads(m0, mach.pages, pt, va, level, skip, LevelOf(stop), left);
        if !skip && PointsToTable(ReadEntry()) {
          MidDescend(m0, pt, va, level, LevelOf(stop), left);
          if lbits == stop {
            return;
          }
          lbits := lbits - 9;
          pep := At(ReadEntry().frame, Idx(va, LevelOf(lbits)));
          continue;
        }
        MidAdvance(m0, pt, va, level, skip, LevelOf(stop), left);
        if Prefix(Bump(va, level), level + 1) != Prefix(va, level + 1) {
          if Bump(va, level) == 0 && lbits == INITIAL_LBITS {
            lbits := DONE_LBITS;
            return;
          }
          stop := lbits + 9;
          lbits := INITIAL_LBITS;
          pep := At(pt, Idx(va, 3));
        } else {
          pep := At(pep.frame, pep.idx + 1);
          va := Canonicalize(Bump(va, level));
        }
        skip := false;
      }
    }
  }

  // ------------------------------------------------------------------
  // The turns of the loop of `down`

  /** Between two turns: exploring (`stop == 1`), or climbing along the path of
      `va` to the level-`stop` entry whose table has just been finished. */
  ghost predicate Midway(m: Memory, root: nat, va: Address, level: nat, skip: bool, stop: nat, left: seq<nat>) {
    && 1 <= stop <= level <= 3 && Canonical(va) && OnPath(m, root, va, level)
    && if stop > 1 then
         !skip && OnPath(m, root, va, stop - 1)
         && left == [EntryOn(m, root, va, stop).frame] + After(m, root, va, stop)
       else if skip then left == After(m, root, va, level)
       else left == From(m, root, va, level) && Offset(va, level) == 0
  }

  lemma {:induction false} MidStart(m: Memory, root: nat, va: Address, level: nat, skip: bool, left: seq<nat>)
    requires 1 <= level <= 3 && Canonical(va) && OnPath(m, root, va, level)
    requires if skip then left == After(m, root, va, level)
             else left == From(m, root, va, level) && Offset(va, level) == 0
    ensures Midway(m, root, va, level, skip, 1, left)
  {
  }

  /** The page about to be read is the root or one of the visits left. */
  lemma {:induction false} MidReads(m0: Memory, m: Memory, root: nat, va: Address, level: nat, skip: bool, stop: nat,
                                    left: seq<nat>)
    requires Midway(m0, root, va, level, skip, stop, left) && Intact(m, m0, root, left)
    ensures 1 <= stop <= level <= 3 && Canonical(va)
    ensures TableOn(m0, root, va, level) in m
    ensures m[TableOn(m0, root, va, level)][Idx(va, level)] == EntryOn(m0, root, va, level)
  {
    hide Paging.Prefix, Paging.Idx, Paging.Offset, Paging.Canonical, After, OnPath, EntryOrder;
    AboveIsLeft(m0, root, va, if stop == 1 then level else stop, level);
  }

  lemma {:induction false} MidDescend(m: Memory, root: nat, va: Address, level: nat, stop: nat, left: seq<nat>)
    requires Midway(m, root, va, level, false, stop, left)
    requires PointsToTable(EntryOn(m, root, va, level))
    ensures level == stop ==>
              && OnPath(m, root, va, level)
              && left == [EntryOn(m, root, va, level).frame] + After(m, root, va, level)
    ensures level > stop ==>
              && TableOn(m, root, va, level - 1) == EntryOn(m, root, va, level).frame
              && Midway(m, root, va, level - 1, false, stop, left)
  {
    hide Paging.Prefix, Paging.Idx, Paging.Offset, Paging.Canonical, After, PostOrder;
    if level > stop == 1 {
      DescendFrom(m, root, va, level);
    }
  }

  /** The path down to a finished table consists of tables. */
  lemma {:induction false} PathTables(m: Memory, root: nat, va: Address, stop: nat, level: nat)
    requires 1 <= stop <= level <= 3 && OnPath(m, root, va, stop - 1)
    ensures OnPath(m, root, va, level) && PointsToTable(EntryOn(m, root, va, level))
    decreases level - stop
  {
    hide Paging.Idx, EntryOn;
    if stop < level {
      PathTables(m, root, va, stop + 1, level);
    }
  }

  lemma {:induction false} MidAdvance(m: Memory, root: nat, va: Address, level: nat, skip: bool, stop: nat,
                                      left: seq<nat>)
    requires Midway(m, root, va, level, skip, stop, left)
    requires skip || !PointsToTable(EntryOn(m, root, va, level))
    ensures stop == 1
    ensures var v := Bump(va, level);
            if Prefix(v, level + 1) != Prefix(va, level + 1) then
              if level == 3 then v == 0 && left == [] && va >= VA_HIGHMIN
              else Midway(m, root, va, 3, false, level + 1, left) && TableOn(m, root, va, 3) == root
            else
              && Midway(m, root, Canonicalize(v), level, false, 1, left)
              && TableOn(m, root, Canonicalize(v), level) == TableOn(m, root, va, level)
              && Idx(Canonicalize(v), level) == Idx(va, level) + 1
              && Canonicalize(v) % LOW48 > va % LOW48
  {
    hide Paging.Prefix, Paging.Idx, Paging.Offset, Paging.Canonical, PostOrder, PageWrites.Prefix48, Bump,
         Canonicalize, After;
    if stop > 1 {
      PathTables(m, root, va, stop, level);
    }
    BumpCrosses(va, level);
    if Idx(va, level) == 511 {
      LastEntry(m, root, va, level);
      HighHalf(va);
    } else {
      NextEntry(va, level);
      StepAfter(m, root, va, Canonicalize(Bump(va, level)), level);
    }
    assert From(m, root, va, level) == EntryOrder(m, EntryOn(m, root, va, level), level) + After(m, root, va, level);
  }

  /** An entry that leads to a table contributes at least that table. */
  lemma {:induction false} LastOfEntry(m: Memory, root: nat, va: Address, level: nat)
    requires 1 <= level <= 3 && PointsToTable(EntryOn(m, root, va, level))
    ensures |From(m, root, va, level)| >= 1 + |After(m, root, va, level)|
  {
    hide PostOrder, After;
  }

  lemma {:induction false} RootTable(m: Memory, root: nat, va: Address)
    ensures TableOn(m, root, va, 3) == root
  {
  }

  /** Everything is left at address 0 of the root. */
  lemma {:induction false} FromStart(m: Memory, root: nat)
    ensures Idx(0, 3) == 0 && Offset(0, 3) == 0 && Canonical(0)
    ensures From(m, root, 0, 3) == PostOrder(m, root, 3, 0, 512)
  {
    hide EntryOrder, PostOrder;
    OrderHead(m, root, 3, 0);
  }

  /** After the last entry of a table comes the table itself, then its parent. */
  lemma {:induction false} LastEntry(m: Memory, root: nat, va: Address, level: nat)
    requires 1 <= level <= 3 && Idx(va, level) == 511
    ensures level == 3 ==> After(m, root, va, level) == []
    ensures level < 3 ==>
              After(m, root, va, level)
              == [EntryOn(m, root, va, level + 1).frame] + After(m, root, va, level + 1)
  {
    hide Paging.Idx;
  }

  // ------------------------------------------------------------------
  // In a tree, post-order visits every page once, children before parents

  /** The position `n` levels above position `prefix`. */
  function Above(prefix: nat, n: nat): nat {
    if n == 0 then prefix else Above(prefix, n - 1) / 512
  }

  ghost predicate Under(own: map<nat, Spot>, g: nat, level: nat, at: nat) {
    && g in own && own[g].level < level
    && Above(own[g].prefix, level - 1 - own[g].level) == at
  }

  lemma {:induction false} EntryUnder(m: Memory, root: nat, own: map<nat, Spot>, f: nat, level: nat, i: nat, g: nat)
    requires Shaped(m, root, own) && f in own && 1 <= level <= 3 && own[f].level == level && i < 512
    requires g in EntryOrder(m, m[f][i], level)
    ensures Under(own, g, level, own[f].prefix * 512 + i)
    decreases level, 0, 0
  {
    hide PostOrder;
    var e := m[f][i];
    if level > 1 && g in PostOrder(m, e.frame, level - 1, 0, 512) {
      var i2 := OrderUnder(m, root, own, e.frame, level - 1, 0, 512, g);
    }
  }

  lemma {:induction false} OrderUnder(m: Memory, root: nat, own: map<nat, Spot>, f: nat, level: nat, i: nat, j: nat,
                                      g: nat) returns (k: nat)
    requires Shaped(m, root, own) && f in own && 1 <= level <= 3 && own[f].level == level && i <= j <= 512
    requires g in PostOrder(m, f, level, i, j)
    ensures i <= k < j && Under(own, g, level, own[f].prefix * 512 + k)
    decreases level, 1, j - i
  {
    hide Under, EntryOrder;
    if g in EntryOrder(m, m[f][i], level) {
      EntryUnder(m, root, own, f, level, i, g);
      k := i;
    } else {
      k := OrderUnder(m, root, own, f, level, i + 1, j, g);
    }
  }

  lemma {:induction false} NoDupConcat(a: seq<nat>, b: seq<nat>)
    requires NoDup(a) && NoDup(b) && forall x :: x in a ==> x !in b
    ensures NoDup(a + b)
  {
    forall i, j | 0 <= i < j < |a + b|
      ensures (a + b)[i] != (a + b)[j]
    {
      if i < |a| <= j {
        assert a[i] in a && b[j - |a|] in b;
      }
    }
  }

  lemma {:induction false} EntryNoDup(m: Memory, root: nat, own: map<nat, Spot>, f: nat, level: nat, i: nat)
    requires Shaped(m, root, own) && f in own && 1 <= level <= 3 && own[f].level == level && i < 512
    ensures NoDup(EntryOrder(m, m[f][i], level))
    decreases level, 0, 0
  {
    hide PostOrder, NoDup;
    var e := m[f][i];
    Singletons(e.frame);
    if level > 1 && PointsToTable(e) {
      OrderNoDup(m, root, own, e.frame, level - 1, 0, 512);
      forall x | x in PostOrder(m, e.frame, level - 1, 0, 512)
        ensures x !in [e.frame]
      {
        var k := OrderUnder(m, root, own, e.frame, level - 1, 0, 512, x);
      }
      NoDupConcat(PostOrder(m, e.frame, level - 1, 0, 512), [e.frame]);
    }
  }

  lemma {:induction false} Singletons(x: nat)
    ensures NoDup([]) && NoDup([x])
  {
  }

  lemma {:induction false} OrderNoDup(m: Memory, root: nat, own: map<nat, Spot>, f: nat, level: nat, i: nat, j: nat)
    requires Shaped(m, root, own) && f in own && 1 <= level <= 3 && own[f].level == level && i <= j <= 512
    ensures NoDup(PostOrder(m, f, level, i, j))
    decreases level, 1, j - i
  {
    hide EntryOrder, NoDup, Above;
    Singletons(0);
    if i < j {
      EntryNoDup(m, root, own, f, level, i);
      OrderNoDup(m, root, own, f, level, i + 1, j);
      var a, b := EntryOrder(m, m[f][i], level), PostOrder(m, f, level, i + 1, j);
      forall x | x in a
        ensures x !in b
      {
        EntryUnder(m, root, own, f, level, i, x);
        if x in b {
          var k := OrderUnder(m, root, own, f, level, i + 1, j, x);
        }
      }
      NoDupConcat(a, b);
    }
  }

  /** No page is visited twice, and the root not at all. */
  lemma {:induction false} VisitedOnce(m: Memory, root: nat, own: map<nat, Spot>)
    requires Shaped(m, root, own)
    ensures var all := PostOrder(m, root, 3, 0, 512);
            NoDup(all) && root !in all && forall f :: f in all ==> f in own && f in m
  {
    hide PostOrder, NoDup;
    OrderNoDup(m, root, own, root, 3, 0, 512);
    forall f | f in PostOrder(m, root, 3, 0, 512)
      ensures f in own && f in m && f != root
    {
      var k := OrderUnder(m, root, own, root, 3, 0, 512, f);
    }
  }

  /** `a` appears in `s` at a smaller index than `b`. */
  ghost predicate Precedes(s: seq<nat>, a: nat, b: nat) {
    exists i, j :: 0 <= i < j < |s| && s[i] == a && s[j] == b
  }

  lemma {:induction false} PrecedesWithin(pre: seq<nat>, s: seq<nat>, post: seq<nat>, a: nat, b: nat)
    requires Precedes(s, a, b)
    ensures Precedes(pre + s + post, a, b)
  {
    var i, j :| 0 <= i < j < |s| && s[i] == a && s[j] == b;
    var t := pre + s + post;
    assert t[|pre| + i] == a && t[|pre| + j] == b;
  }

  /** The visits for one entry are a contiguous part of the visits for its table. */
  lemma {:induction false} EntryWithin(m: Memory, f: nat, level: nat, lo: nat, i: nat)
      returns (pre: seq<nat>, post: seq<nat>)
    requires 1 <= level <= 3 && lo <= i < 512
    ensures PostOrder(m, f, level, lo, 512) == pre + EntryOrder(m, Lookup(m, f, i), level) + post
    decreases i - lo
  {
    hide EntryOrder;
    if lo == i {
      pre, post := [], PostOrder(m, f, level, i + 1, 512);
    } else {
      var pre';
      pre', post := EntryWithin(m, f, level, lo + 1, i);
      pre := EntryOrder(m, Lookup(m, f, lo), level) + pre';
    }
  }

  /** What is visited for a table on the path of `va` is visited for every table
      above it, in the same order. */
  lemma {:induction false} VisitedAbove(m: Memory, root: nat, va: Address, level: nat, a: nat, b: nat)
    requires 1 <= level <= 3 && OnPath(m, root, va, level)
    ensures var here := PostOrder(m, TableOn(m, root, va, level), level, 0, 512);
            var all := PostOrder(m, root, 3, 0, 512);
            && (a in here ==> a in all)
            && (Precedes(here, a, b) ==> Precedes(all, a, b))
    decreases 3 - level
  {
    hide PostOrder, Precedes, Paging.Idx;
    if level < 3 {
      var f := TableOn(m, root, va, level);
      var up := TableOn(m, root, va, level + 1);
      var pre, post := EntryWithin(m, up, level + 1, 0, Idx(va, level + 1));
      var here := PostOrder(m, f, level, 0, 512);
      assert PostOrder(m, up, level + 1, 0, 512) == pre + (here + [f]) + post;
      assert pre + (here + [f]) + post == pre + here + ([f] + post);
      if Precedes(here, a, b) {
        PrecedesWithin(pre, here, [f] + post, a, b);
      }
      VisitedAbove(m, root, va, level + 1, a, b);
    }
  }

  /** Every page on the path of an address is visited ... */
  lemma {:induction false} PathVisited(m: Memory, root: nat, va: Address, level: nat)
    requires level < 3 && OnPath(m, root, va, level)
    ensures TableOn(m, root, va, level) in PostOrder(m, root, 3, 0, 512)
  {
    hide PostOrder, Paging.Idx;
    var f, up := TableOn(m, root, va, level), TableOn(m, root, va, level + 1);
    var pre, post := EntryWithin(m, up, level + 1, 0, Idx(va, level + 1));
    var e := Lookup(m, up, Idx(va, level + 1));
    assert f in EntryOrder(m, e, level + 1);
    assert f in PostOrder(m, up, level + 1, 0, 512);
    VisitedAbove(m, root, va, level + 1, f, f);
  }

  /** ... after the pages below it. */
  lemma {:induction false} ChildrenFirst(m: Memory, root: nat, va: Address, level: nat)
    requires 1 <= level < 3 && OnPath(m, root, va, level - 1)
    ensures Precedes(PostOrder(m, root, 3, 0, 512), TableOn(m, root, va, level - 1), TableOn(m, root, va, level))
  {
    hide PostOrder, Paging.Idx;
    var g, f, up := TableOn(m, root, va, level - 1), TableOn(m, root, va, level), TableOn(m, root, va, level + 1);
    var pre1, post1 := EntryWithin(m, f, level, 0, Idx(va, level));
    var here := PostOrder(m, f, level, 0, 512);
    assert g in EntryOrder(m, Lookup(m, f, Idx(va, level)), level);
    assert g in here;
    var i :| 0 <= i < |here| && here[i] == g;
    assert (here + [f])[i] == g && (here + [f])[|here|] == f;
    assert Precedes(here + [f], g, f);
    var pre, post := EntryWithin(m, up, level + 1, 0, Idx(va, level + 1));
    PrecedesWithin(pre, here + [f], post, g, f);
    VisitedAbove(m, root, va, level + 1, g, f);
  }

  /** An address that follows `va` above `level` and takes entry `i` there. */
  lemma {:induction false} Redirect(va: Address, level: nat, i: nat) returns (v: Address)
    requires 1 <= level <= 3 && i < 512
    ensures Prefix48(v, level + 1) == Prefix48(va, level + 1) && Idx(v, level) == i
  {
    hide Paging.Prefix;
    var p := Prefix48(va, level + 1);
    SpanRoom(va % LOW48, level, i);
    v := (512 * p + i) * Span(level);
    PrefixOfProduct(512 * p + i, level);
    PrefixUp(v, level);
  }

  lemma {:induction false} SpanRoom(a: Address, level: nat, i: nat)
    requires 1 <= level <= 3 && a < LOW48 && i < 512
    ensures (512 * Prefix(a, level + 1) + i) * Span(level) < LOW48
  {
  }

  /** Only pages on the path of some address are visited. */
  lemma {:induction false} VisitedOnPath(m: Memory, root: nat, va: Address, level: nat, i: nat, j: nat, g: nat)
      returns (v: Address, k: nat)
    requires 1 <= level <= 3 && i <= j <= 512 && OnPath(m, root, va, level)
    requires g in PostOrder(m, TableOn(m, root, va, level), level, i, j)
    ensures k < level && OnPath(m, root, v, k) && TableOn(m, root, v, k) == g
    decreases level, j - i
  {
    hide Paging.Idx, Prefix48, EntryOrder, PostOrder, OnPath, TableOn;
    var f := TableOn(m, root, va, level);
    OrderCases(m, f, level, i, j, g);
    var e := Lookup(m, f, i);
    if g in PostOrder(m, f, level, i + 1, j) {
      v, k := VisitedOnPath(m, root, va, level, i + 1, j, g);
    } else {
      v := Redirect(va, level, i);
      SameAbove(m, root, v, va, level);
      assert EntryOn(m, root, v, level) == e;
      PathInto(m, root, v, level);
      k := level - 1;
      if g != e.frame {
        v, k := VisitedOnPath(m, root, v, level - 1, 0, 512, g);
      }
    }
  }

  lemma {:induction false} OrderCases(m: Memory, f: nat, level: nat, i: nat, j: nat, g: nat)
    requires 1 <= level <= 3 && i <= j <= 512 && g in PostOrder(m, f, level, i, j)
    ensures i < j
    ensures g in PostOrder(m, f, level, i + 1, j)
            || var e := Lookup(m, f, i);
               PointsToTable(e) && (g == e.frame || (level > 1 && g in PostOrder(m, e.frame, level - 1, 0, 512)))
  {
  }

  lemma {:induction false} PathInto(m: Memory, root: nat, va: Address, level: nat)
    requires 1 <= level <= 3 && OnPath(m, root, va, level) && PointsToTable(EntryOn(m, root, va, level))
    ensures OnPath(m, root, va, level - 1)
    ensures TableOn(m, root, va, level - 1) == EntryOn(m, root, va, level).frame
  {
  }

  ghost predicate TablePage(m: Memory, root: nat, f: nat) {
    exists va: Address, level: nat :: level < 3 && OnPath(m, root, va, level) && TableOn(m, root, va, level) == f
  }

  /** The pages visited are exactly the table pages below the root. */
  lemma {:induction false} VisitsExactly(m: Memory, root: nat, f: nat)
    ensures f in PostOrder(m, root, 3, 0, 512) <==> TablePage(m, root, f)
  {
    hide PostOrder, Paging.Idx;
    if f in PostOrder(m, root, 3, 0, 512) {
      var va, level := VisitedOnPath(m, root, 0, 3, 0, 512, f);
    }
    if TablePage(m, root, f) {
      var va: Address, level: nat :| level < 3 && OnPath(m, root, va, level) && TableOn(m, root, va, level) == f;
      PathVisited(m, root, va, level);
    }
  }

  // ------------------------------------------------------------------
  // Freeing while iterating

  /** The visits for entries `i` to `k` are those for `i` to `j`, then `j` to `k`. */
  lemma {:induction false} OrderSplit(m: Memory, f: nat, level: nat, i: nat, j: nat, k: nat)
    requires 1 <= level <= 3 && i <= j <= k <= 512
    ensures PostOrder(m, f, level, i, k) == PostOrder(m, f, level, i, j) + PostOrder(m, f, level, j, k)
    decreases j - i
  {
    hide EntryOrder;
    if i < j {
      OrderSplit(m, f, level, i + 1, j, k);
    }
  }

  /** A visit in the low half leaves all the visits of the high half. */
  lemma {:induction false} LowLeft(m: Memory, root: nat, va: Address, level: nat)
    requires 1 <= level <= 3
    ensures Idx(va, 3) < 256 ==> |After(m, root, va, level)| >= |PostOrder(m, root, 3, 256, 512)|
    ensures |After(m, root, va, level)| >= |After(m, root, va, 3)|
    decreases 3 - level
  {
    hide EntryOrder, PostOrder, Paging.Idx;
    if level < 3 {
      LowLeft(m, root, va, level + 1);
    } else if Idx(va, 3) < 256 {
      OrderSplit(m, root, 3, Idx(va, 3) + 1, 256, 512);
    }
  }

  /** A visit in the high half leaves fewer visits than the high half has. */
  lemma {:induction false} HighLeft(m: Memory, root: nat, va: Address, level: nat)
    requires 1 <= level <= 3 && OnPath(m, root, va, level)
    ensures |From(m, root, va, level)| <= |From(m, root, va, 3)|
    ensures Idx(va, 3) >= 256 ==> |From(m, root, va, 3)| <= |PostOrder(m, root, 3, 256, 512)|
    decreases 3 - level
  {
    hide PostOrder, Paging.Idx, OnPath, TableOn, Paging.Lookup;
    if level < 3 {
      PathOut(m, root, va, level);
      HighLeft(m, root, va, level + 1);
      var f := TableOn(m, root, va, level);
      var i := Idx(va, level);
      OrderSplit(m, f, level, 0, i, 512);
      OrderHead(m, f, level, i);
    } else {
      var i := Idx(va, 3);
      OrderHead(m, root, 3, i);
      RootTable(m, root, va);
      if i >= 256 {
        OrderSplit(m, root, 3, 256, i, 512);
      }
    }
  }

  lemma {:induction false} PathOut(m: Memory, root: nat, va: Address, level: nat)
    requires 1 <= level < 3 && OnPath(m, root, va, level)
    ensures OnPath(m, root, va, level + 1) && PointsToTable(EntryOn(m, root, va, level + 1))
    ensures TableOn(m, root, va, level) == EntryOn(m, root, va, level + 1).frame
  {
  }

  lemma {:induction false} OrderHead(m: Memory, f: nat, level: nat, i: nat)
    requires 1 <= level <= 3 && i < 512
    ensures PostOrder(m, f, level, i, 512)
         == EntryOrder(m, Lookup(m, f, i), level) + PostOrder(m, f, level, i + 1, 512)
  {
  }

  /** The documented loop: visit while `low()`, freeing each page visited, and
      then free the root.  Freed pages are taken out of memory, so a read of one
      would not verify. */
  method FreeLowTables(mach: Machine, pt: nat, ghost own: map<nat, Spot>)
    requires Shaped(mach.pages, pt, own)
    modifies mach
    ensures mach.pages == old(mach.pages) - Elems(PostOrder(old(mach.pages), pt, 3, 0, 256)) - {pt}
  {
    hide PostOrder, From, After, TableOn, OnPath, Paging.Idx, NoDup, Paging.Canonical;
    ghost var m0 := mach.pages;
    ghost var all := PostOrder(m0, pt, 3, 0, 512);
    ghost var low, high := PostOrder(m0, pt, 3, 0, 256), PostOrder(m0, pt, 3, 256, 512);
    OrderSplit(m0, pt, 3, 0, 256, 512);
    VisitedOnce(m0, pt, own);
    var it := new Ptiter(mach, pt);
    ghost var n := 0;
    it.HalfOf(m0, all);
    while it.Low()
      invariant it.mach == mach && it.pt == pt && fresh(it)
      invariant 0 <= n <= |low|
      invariant it.Visiting(m0, all[n..])
      invariant it.Low() ==> n < |low|
      invariant !it.Low() ==> n >= |low|
      invariant mach.pages == m0 - Elems(all[..n])
      decreases |low| - n
    {
      FreeStep(m0, mach.pages, pt, all, n);
      it.Readable(m0, all[n..]);
      mach.pages := mach.pages - {it.Pa()};
      assert all[n..][1..] == all[n + 1..];
      it.Next(m0, all[n..]);
      n := n + 1;
      it.HalfOf(m0, all[n..]);
    }
    mach.pages := mach.pages - {pt};
  }

  lemma {:induction false} FreeStep(m0: Memory, m: Memory, root: nat, all: seq<nat>, n: nat)
    requires NoDup(all) && n < |all| && root in m0 && root !in all
    requires forall f :: f in all ==> f in m0
    requires m == m0 - Elems(all[..n])
    ensures Intact(m, m0, root, all[n..][1..])
    ensures Intact(m - {all[n]}, m0, root, all[n..][1..])
    ensures m - {all[n]} == m0 - Elems(all[..n + 1])
  {
  }

  /** The loop that marks kernel page tables in `memusage::refresh`: run to
      `done()`, the iterator visits exactly the pages of the post-order. */
  method AllTables(mach: Machine, pt: nat, ghost own: map<nat, Spot>) returns (visited: seq<nat>)
    requires Shaped(mach.pages, pt, own)
    ensures visited == PostOrder(mach.pages, pt, 3, 0, 512)
  {
    hide PostOrder, From, After, TableOn, OnPath, Paging.Idx, NoDup, Paging.Canonical;
    ghost var m := mach.pages;
    ghost var all := PostOrder(m, pt, 3, 0, 512);
    VisitedOnce(m, pt, own);
    visited := [];
    var it := new Ptiter(mach, pt);
    while !it.Done()
      invariant it.mach == mach && it.pt == pt && fresh(it) && mach.pages == m
      invariant |visited| <= |all| && visited == all[..|visited|]
      invariant it.Visiting(m, all[|visited|..])
      decreases |all| - |visited|
    {
      ghost var left := all[|visited|..];
      it.Readable(m, left);
      visited := visited + [it.Pa()];
      assert left[1..] == all[|visited|..];
      it.Next(m, left);
    }
  }

  // ------------------------------------------------------------------
  // Tree shape without a witness

  /** No table page serves two positions, and all of them are in memory. */
  ghost predicate NoSharing(m: Memory, root: nat) {
    && (forall va: Address, level: nat :: level <= 3 && OnPath(m, root, va, level) ==> TableOn(m, root, va, level) in m)
    && (forall x: Address, y: Address, k: nat, l: nat ::
          k <= 3 && l <= 3 && OnPath(m, root, x, k) && OnPath(m, root, y, l)
          && TableOn(m, root, x, k) == TableOn(m, root, y, l) ==>
            k == l && Prefix48(x, k + 1) == Prefix48(y, l + 1))
  }

  /** In a tree, a page on the path of `va` has the position of `va`. */
  lemma {:induction false} PathSpot(m: Memory, root: nat, own: map<nat, Spot>, va: Address, level: nat)
    requires Shaped(m, root, own) && level <= 3 && OnPath(m, root, va, level)
    ensures TableOn(m, root, va, level) in own
    ensures own[TableOn(m, root, va, level)] == Spot(level, Prefix48(va, level + 1))
    decreases 3 - level
  {
    hide Paging.Idx, Prefix48;
    if level == 3 {
      Prefix4(va);
    } else {
      PathSpot(m, root, own, va, level + 1);
      PrefixSplit(va, level + 1);
    }
  }

  lemma {:induction false} ShapedHasNoSharing(m: Memory, root: nat, own: map<nat, Spot>)
    requires Shaped(m, root, own)
    ensures NoSharing(m, root)
  {
    hide TableOn, OnPath, Prefix48;
    forall va: Address, level: nat | level <= 3 && OnPath(m, root, va, level)
      ensures TableOn(m, root, va, level) in own
      ensures own[TableOn(m, root, va, level)] == Spot(level, Prefix48(va, level + 1))
    {
      PathSpot(m, root, own, va, level);
    }
  }

  ghost predicate Reaches(m: Memory, root: nat, f: nat, va: Address, level: nat) {
    level <= 3 && OnPath(m, root, va, level) && TableOn(m, root, va, level) == f
  }

  /** The position of a page that some path reaches. */
  ghost function SpotOf(m: Memory, root: nat, f: nat): Spot
    requires exists va: Address, level: nat :: Reaches(m, root, f, va, level)
  {
    var va: Address, level: nat :| Reaches(m, root, f, va, level);
    Spot(level, Prefix48(va, level + 1))
  }

  lemma {:induction false} SpotIs(m: Memory, root: nat, f: nat, va: Address, level: nat)
    requires NoSharing(m, root) && Reaches(m, root, f, va, level)
    ensures SpotOf(m, root, f) == Spot(level, Prefix48(va, level + 1))
  {
    hide TableOn, OnPath, Prefix48;
  }

  /** A path to a table extends to each of its child tables. */
  lemma {:induction false} ChildReached(m: Memory, root: nat, f: nat, i: nat) returns (v: Address)
    requires NoSharing(m, root) && f in m && i < 512 && PointsToTable(m[f][i])
    requires exists va: Address, level: nat :: Reaches(m, root, f, va, level)
    requires SpotOf(m, root, f).level > 0
    ensures var spot := SpotOf(m, root, f);
            && Reaches(m, root, m[f][i].frame, v, spot.level - 1)
            && m[f][i].frame in m
            && SpotOf(m, root, m[f][i].frame) == Spot(spot.level - 1, spot.prefix * 512 + i)
  {
    hide TableOn, OnPath, Prefix48, Paging.Idx, SpotOf;
    var va: Address, level: nat :| Reaches(m, root, f, va, level);
    SpotIs(m, root, f, va, level);
    v := Redirect(va, level, i);
    SameAbove(m, root, v, va, level);
    PathInto(m, root, v, level);
    PrefixSplit(v, level);
    assert Reaches(m, root, m[f][i].frame, v, level - 1);
    SpotIs(m, root, m[f][i].frame, v, level - 1);
  }

  lemma {:induction false} NoSharingIsShaped(m: Memory, root: nat) returns (own: map<nat, Spot>)
    requires NoSharing(m, root)
    ensures Shaped(m, root, own)
  {
    hide TableOn, OnPath, Prefix48, Paging.Idx, SpotOf;
    own := map f | f in m && exists va: Address, level: nat :: Reaches(m, root, f, va, level) :: SpotOf(m, root, f);
    RootReached(m, root);
    SpotIs(m, root, root, 0, 3);
    Prefix4(0);
    forall f, i | f in own && own[f].level > 0 && 0 <= i < 512 && PointsToTable(m[f][i])
      ensures m[f][i].frame in own
      ensures own[m[f][i].frame] == Spot(own[f].level - 1, own[f].prefix * 512 + i)
    {
      var v := ChildReached(m, root, f, i);
    }
    forall f | f in own
      ensures own[f].level <= 3
    {
      var va: Address, level: nat :| Reaches(m, root, f, va, level);
      SpotIs(m, root, f, va, level);
    }
  }

  lemma {:induction false} RootReached(m: Memory, root: nat)
    ensures Reaches(m, root, root, 0, 3)
  {
  }
}
