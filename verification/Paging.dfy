/**
 Four-level x86-64 page tables held in physical memory, as a hardware walk sees
 them (Intel SDM Vol. 3A, sections 4.5 and 4.6).

 A virtual address is a natural number below 2^64.  The mask and shift tests of
 the C++ code are divisions: `va >> lbits` is `va / Span(level)`, and
 `(va | lbits_mask(lbits)) + 1` is the next multiple of the span.
 */
module Paging {
  import opened Wrappers

  const VA_END := 0x1_0000_0000_0000_0000      // 2^64
  const VA_LOWEND := 0x8000_0000_0000          // one past the low canonical half
  const VA_HIGHMIN := 0xFFFF_8000_0000_0000    // start of the high canonical half
  const PAGESIZE := 0x1000
  const FRAME_LIMIT := 0x100_0000_0000         // 40 frame bits in PTE_PAMASK
  const FRAME_4GIB := 0x10_0000                // frames at or above this panic

  /** The low twelve bits of a word, bit by bit where the code looks at single
      bits: PTE_P (bit 0), PTE_W (1), PTE_U (2), PTE_PS (7); `rest` is the other
      eight, bits 3 to 6 and 8 to 11. */
  datatype Flags = Flags(p: bool, w: bool, u: bool, ps: bool, rest: bv8) {
    /** `this & that` */
    function And(that: Flags): Flags {
      Flags(p && that.p, w && that.w, u && that.u, ps && that.ps, rest & that.rest)
    }

    /** `this | that` */
    function Or(that: Flags): Flags {
      Flags(p || that.p, w || that.w, u || that.u, ps || that.ps, rest | that.rest)
    }

    predicate Zero() {
      !p && !w && !u && !ps && rest == 0
    }
  }

  const NO_FLAGS := Flags(false, false, false, false, 0)
  const ALL_FLAGS := Flags(true, true, true, true, 0xFF)       // 0xFFF
  const PWU_FLAGS := Flags(true, true, true, false, 0)         // PTE_P | PTE_W | PTE_U
  const NOT_PWU_FLAGS := Flags(false, false, false, true, 0xFF)  // its complement

  type Address = a: nat | a < VA_END

  /** One 64-bit word of a page: the frame number (bits 12 to 51) and the low
      twelve flag bits.  Bits 52 to 63 are read by no operation modelled here. */
  datatype Entry = Entry(frame: nat, flags: Flags)

  const ZERO_ENTRY := Entry(0, NO_FLAGS)

  type Table = t: seq<Entry> | |t| == 512 witness seq(512, _ => ZERO_ENTRY)
  type Memory = map<nat, Table>

  predicate Present(e: Entry) {
    e.flags.p
  }

  /** `(e & (PTE_P | PTE_PS)) == PTE_P` */
  predicate PointsToTable(e: Entry) {
    e.flags.p && !e.flags.ps
  }

  predicate Canonical(va: Address) {
    va < VA_LOWEND || VA_HIGHMIN <= va
  }

  /** Bytes covered by one entry of a level-`level` table. */
  function Span(level: nat): (s: nat)
    requires level <= 4
    ensures 0 < s
  {
    if level == 0 then 0x1000
    else if level == 1 then 0x20_0000
    else if level == 2 then 0x4000_0000
    else if level == 3 then 0x80_0000_0000
    else 0x1_0000_0000_0000
  }

  /** `va / Span(level)`, written with constant divisors. */
  function Prefix(va: Address, level: nat): (p: nat)
    requires level <= 4
  {
    if level == 0 then va / 0x1000
    else if level == 1 then va / 0x20_0000
    else if level == 2 then va / 0x4000_0000
    else if level == 3 then va / 0x80_0000_0000
    else va / 0x1_0000_0000_0000
  }

  /** `va % Span(level)` */
  function Offset(va: Address, level: nat): (p: nat)
    requires level <= 3
  {
    if level == 0 then va % 0x1000
    else if level == 1 then va % 0x20_0000
    else if level == 2 then va % 0x4000_0000
    else va % 0x80_0000_0000
  }

  lemma {:induction false} PrefixOffset(va: Address, level: nat)
    requires level <= 3
    ensures va == Prefix(va, level) * Span(level) + Offset(va, level)
    ensures Offset(va, level) < Span(level)
  {
  }

  function Idx(va: Address, level: nat): (i: nat)
    requires level <= 3
    ensures i < 512
  {
    Prefix(va, level) % 512
  }

  /** A word of memory; pages that are not there read as zero. */
  function Lookup(m: Memory, f: nat, i: nat): Entry
    requires i < 512
  {
    if f in m then m[f][i] else ZERO_ENTRY
  }

  // ------------------------------------------------------------------
  // What an address means: the reference definition.

  /** Physical address and access rights of a mapped byte. */
  datatype Mapping = Mapping(pa: nat, flags: Flags)

  /** Page address of a leaf: a large page has its PAT bit (bit 12) cleared. */
  function LeafBase(e: Entry, level: nat): nat {
    PAGESIZE * (if level > 0 then e.frame - e.frame % 2 else e.frame)
  }

  /** Rights of the parent restrict P, W and U of everything below it. */
  function Restrict(e: Entry, flags: Flags): Flags {
    Flags(flags.p && e.flags.p, flags.w && e.flags.w, flags.u && e.flags.u, flags.ps, flags.rest)
  }

  /** `flags & (e | ~(PTE_P | PTE_W | PTE_U))` clears only those three bits. */
  lemma {:induction false} RestrictIsMask(e: Entry, flags: Flags)
    ensures Restrict(e, flags) == flags.And(e.flags.Or(NOT_PWU_FLAGS))
  {
  }

  /** What the level-`level` table in frame `f` maps `va` to. */
  function Access(m: Memory, f: nat, level: nat, va: Address): Option<Mapping>
    requires level <= 3
    decreases level
  {
    var e := Lookup(m, f, Idx(va, level));
    if !Present(e) then None
    else if level == 0 || !PointsToTable(e) then
      Some(Mapping(LeafBase(e, level) + Offset(va, level), e.flags))
    else match Access(m, e.frame, level - 1, va)
         case None => None
         case Some(x) => Some(Mapping(x.pa, Restrict(e, x.flags)))
  }

  /** The specification of address translation, for all 64-bit addresses. */
  function Translate(m: Memory, root: nat, va: Address): Option<Mapping> {
    if Canonical(va) then Access(m, root, 3, va) else None
  }

  function PermAt(m: Memory, root: nat, va: Address): Flags {
    match Translate(m, root, va)
    case None => NO_FLAGS
    case Some(x) => x.flags
  }

  // ------------------------------------------------------------------
  // Tree shape

  /** A position in the tree: the table of this level that serves the 48-bit
      addresses `a` with `a / Span(level + 1) == prefix`. */
  datatype Spot = Spot(level: nat, prefix: nat)

  /** `own` gives every table page one position, so no page is used twice. */
  ghost predicate Shaped(m: Memory, root: nat, own: map<nat, Spot>) {
    && root in own && own[root] == Spot(3, 0)
    && (forall f :: f in own ==> f in m && own[f].level <= 3)
    && (forall f, i :: f in own && own[f].level > 0 && 0 <= i < 512 && PointsToTable(m[f][i]) ==>
          && m[f][i].frame in own
          && own[m[f][i].frame] == Spot(own[f].level - 1, own[f].prefix * 512 + i))
  }

  /** No leaf reached below level 2 lies at or above 4 GiB. */
  ghost predicate Small(m: Memory, own: map<nat, Spot>) {
    forall f, i :: f in own && f in m && 0 <= i < 512 && own[f].level <= 1
                   && (own[f].level == 0 || !PointsToTable(m[f][i])) ==>
      m[f][i].frame < FRAME_4GIB
  }

  // ------------------------------------------------------------------
  // The cursor reached by a walk

  const PAGEOFFBITS := 12
  const INITIAL_LBITS := 39
  const NONCANONICAL_LBITS := 47
  const DONE_LBITS := 64

  /** The entry a cursor points at: `vmiter::zero_pe`, or a word in memory. */
  datatype Slot = ZeroPe | At(frame: nat, idx: nat)
  datatype Cursor = Cursor(pep: Slot, lbits: nat, perm: Flags)

  function Walk(m: Memory, f: nat, level: nat, va: Address, perm: Flags): Cursor
    requires level <= 3
    decreases level
  {
    var e := Lookup(m, f, Idx(va, level));
    if level > 0 && PointsToTable(e) then
      Walk(m, e.frame, level - 1, va, Restrict(e, perm))
    else
      Cursor(At(f, Idx(va, level)), PAGEOFFBITS + 9 * level, perm)
  }

  /** The cursor of a newly built iterator at `va`. */
  function Fresh(m: Memory, root: nat, va: Address): Cursor {
    if Canonical(va) then Walk(m, root, 3, va, ALL_FLAGS)
    else Cursor(ZeroPe, NONCANONICAL_LBITS, NO_FLAGS)
  }

  function EntryAt(m: Memory, pep: Slot): Entry {
    match pep
    case ZeroPe => ZERO_ENTRY
    case At(f, i) => if i < 512 then Lookup(m, f, i) else ZERO_ENTRY
  }

  /** `vmiter::perm()` */
  function PermOf(m: Memory, c: Cursor): Flags {
    var ph := EntryAt(m, c.pep).flags.And(c.perm);
    if ph.p then ph else NO_FLAGS
  }

  /** End of the range of equal mapping that starts at `va`; 2^64 at the top. */
  function RangeEnd(lbits: nat, va: Address): (r: nat)
  {
    if lbits == NONCANONICAL_LBITS then VA_HIGHMIN
    else if lbits == 12 then (va / 0x1000 + 1) * 0x1000
    else if lbits == 21 then (va / 0x20_0000 + 1) * 0x20_0000
    else if lbits == 30 then (va / 0x4000_0000 + 1) * 0x4000_0000
    else (va / 0x80_0000_0000 + 1) * 0x80_0000_0000
  }

  // ------------------------------------------------------------------
  // Lemmas

  lemma {:induction false} PrefixUp(va: Address, level: nat)
    requires level <= 3
    ensures Prefix(va, level + 1) == Prefix(va, level) / 512
  {
  }

  /** Agreement above some level carries to every higher level. */
  lemma {:induction false} PrefixMono(x: Address, y: Address, k: nat, level: nat)
    requires k <= level <= 4
    requires Prefix(x, k) == Prefix(y, k)
    ensures Prefix(x, level) == Prefix(y, level)
    decreases level - k
  {
    if k < level {
      PrefixUp(x, k);
      PrefixUp(y, k);
      PrefixMono(x, y, k + 1, level);
    }
  }

  lemma {:induction false} WalkShape(m: Memory, f: nat, level: nat, va: Address, perm: Flags)
    requires level <= 3
    ensures var c := Walk(m, f, level, va, perm);
            exists k: nat :: k <= level && c.lbits == PAGEOFFBITS + 9 * k && c.pep.At? && c.pep.idx == Idx(va, k)
    decreases level
  {
    var e := Lookup(m, f, Idx(va, level));
    if level > 0 && PointsToTable(e) {
      WalkShape(m, e.frame, level - 1, va, Restrict(e, perm));
    }
  }

  function LevelOf(lbits: nat): nat {
    if lbits == 12 then 0 else if lbits == 21 then 1 else if lbits == 30 then 2 else 3
  }

  /** Addresses in the span of the stopping entry reach the same cursor. */
  lemma {:induction false} WalkSame(m: Memory, f: nat, level: nat, x: Address, y: Address, perm: Flags)
    requires level <= 3
    requires var k := LevelOf(Walk(m, f, level, x, perm).lbits); Prefix(x, k) == Prefix(y, k)
    ensures Walk(m, f, level, y, perm) == Walk(m, f, level, x, perm)
    decreases level
  {
    WalkShape(m, f, level, x, perm);
    var k := LevelOf(Walk(m, f, level, x, perm).lbits);
    PrefixMono(x, y, k, level);
    var e := Lookup(m, f, Idx(x, level));
    if level > 0 && PointsToTable(e) {
      WalkSame(m, e.frame, level - 1, x, y, Restrict(e, perm));
    }
  }

  /** The same-table shortcut: a walk for any address that agrees with `x` above
      the table where `x` stopped passes through that table with the same rights. */
  lemma {:induction false} WalkVia(m: Memory, f: nat, level: nat, x: Address, y: Address, perm: Flags)
    requires level <= 3
    requires var k := LevelOf(Walk(m, f, level, x, perm).lbits); Prefix(x, k + 1) == Prefix(y, k + 1)
    ensures var c := Walk(m, f, level, x, perm);
            var k := LevelOf(c.lbits);
            c.pep.At? && Walk(m, f, level, y, perm) == Walk(m, c.pep.frame, k, y, c.perm)
    decreases level
  {
    WalkShape(m, f, level, x, perm);
    var k := LevelOf(Walk(m, f, level, x, perm).lbits);
    var e := Lookup(m, f, Idx(x, level));
    if level > 0 && PointsToTable(e) {
      WalkShape(m, e.frame, level - 1, x, Restrict(e, perm));
      PrefixMono(x, y, k + 1, level);
      WalkVia(m, e.frame, level - 1, x, y, Restrict(e, perm));
    }
  }

  /** The cursor's entry gives the reference physical address ... */
  lemma {:induction false} WalkPa(m: Memory, f: nat, level: nat, va: Address, perm: Flags)
    requires level <= 3
    ensures var c := Walk(m, f, level, va, perm);
            var e := EntryAt(m, c.pep);
            match Access(m, f, level, va)
            case None => !Present(e)
            case Some(x) => Present(e) && x.pa == LeafBase(e, LevelOf(c.lbits)) + Offset(va, LevelOf(c.lbits))
    decreases level
  {
    var e := Lookup(m, f, Idx(va, level));
    if level > 0 && PointsToTable(e) {
      WalkPa(m, e.frame, level - 1, va, Restrict(e, perm));
    }
  }

  /** ... and its accumulated rights the reference permissions. */
  lemma {:induction false} WalkPerm(m: Memory, f: nat, level: nat, va: Address, perm: Flags)
    requires level <= 3
    requires perm.p
    ensures PermOf(m, Walk(m, f, level, va, perm)) == Granted(Access(m, f, level, va), perm)
    decreases level
  {
    var e := Lookup(m, f, Idx(va, level));
    if level > 0 && PointsToTable(e) {
      WalkPerm(m, e.frame, level - 1, va, Restrict(e, perm));
      match Access(m, e.frame, level - 1, va) {
        case None =>
        case Some(x) => RestrictMoves(e, x.flags, perm);
      }
    }
  }

  function Granted(a: Option<Mapping>, perm: Flags): Flags {
    match a
    case None => NO_FLAGS
    case Some(x) => x.flags.And(perm)
  }

  lemma {:induction false} RestrictMoves(e: Entry, flags: Flags, perm: Flags)
    ensures flags.And(Restrict(e, perm)) == Restrict(e, flags).And(perm)
  {
  }

  /** What a fresh cursor says about its address is what the address means. */
  lemma {:induction false} FreshMeaning(m: Memory, root: nat, va: Address)
    ensures var c := Fresh(m, root, va);
            && PermOf(m, c) == PermAt(m, root, va)
            && match Translate(m, root, va)
               case None => !Present(EntryAt(m, c.pep))
               case Some(x) =>
                 && Present(EntryAt(m, c.pep))
                 && x.pa == LeafBase(EntryAt(m, c.pep), LevelOf(c.lbits)) + Offset(va, LevelOf(c.lbits))
  {
    if Canonical(va) {
      WalkPa(m, root, 3, va, ALL_FLAGS);
      WalkPerm(m, root, 3, va, ALL_FLAGS);
      match Access(m, root, 3, va) {
        case None =>
        case Some(x) => AndAll(x.flags);
      }
    }
  }

  /** A mapped byte has PTE_P in its permissions, so they are not zero. */
  lemma {:induction false} AccessPresent(m: Memory, f: nat, level: nat, va: Address)
    requires level <= 3
    ensures Access(m, f, level, va).Some? ==> Access(m, f, level, va).value.flags.p
    decreases level
  {
    var e := Lookup(m, f, Idx(va, level));
    if level > 0 && PointsToTable(e) {
      AccessPresent(m, e.frame, level - 1, va);
    }
  }

  lemma {:induction false} PermZero(m: Memory, root: nat, va: Address)
    ensures PermAt(m, root, va).Zero() <==> Translate(m, root, va) == None
  {
    AccessPresent(m, root, 3, va);
  }

  lemma {:induction false} AndAll(flags: Flags)
    ensures flags.And(ALL_FLAGS) == flags
  {
  }

  /** The stopping level of a fresh cursor. */
  lemma {:induction false} FreshShape(m: Memory, root: nat, va: Address)
    ensures var c := Fresh(m, root, va);
            if Canonical(va)
            then c.lbits in {12, 21, 30, 39} && c.pep.At? && c.pep.idx == Idx(va, LevelOf(c.lbits))
            else c.lbits == NONCANONICAL_LBITS
  {
    if Canonical(va) {
      WalkShape(m, root, 3, va, ALL_FLAGS);
    }
  }

  /** Every address of the range that starts at `va` has the same cursor. */
  lemma {:induction false} RangeSameCursor(m: Memory, root: nat, va: Address, x: Address)
    requires va <= x < RangeEnd(Fresh(m, root, va).lbits, va)
    ensures Fresh(m, root, x) == Fresh(m, root, va)
  {
    FreshShape(m, root, va);
    if Canonical(va) {
      var k := LevelOf(Fresh(m, root, va).lbits);
      SameRange(va, x, k);
      WalkSame(m, root, 3, va, x, ALL_FLAGS);
    }
  }

  lemma {:induction false} SameRange(va: Address, x: Address, k: nat)
    requires k <= 3 && va <= x < RangeEnd(PAGEOFFBITS + 9 * k, va)
    requires Canonical(va)
    ensures Prefix(va, k) == Prefix(x, k) && Canonical(x)
    ensures Offset(x, k) == Offset(va, k) + (x - va)
  {
  }

  /** Within a range the mapping moves with the address and the rights stay. */
  lemma {:induction false} RangeMeaning(m: Memory, root: nat, va: Address, x: Address)
    requires va <= x < RangeEnd(Fresh(m, root, va).lbits, va)
    ensures match Translate(m, root, va)
            case None => Translate(m, root, x) == None
            case Some(y) => Translate(m, root, x) == Some(Mapping(y.pa + (x - va), y.flags))
  {
    RangeSameCursor(m, root, va, x);
    FreshMeaning(m, root, va);
    FreshMeaning(m, root, x);
    FreshShape(m, root, va);
    if Canonical(va) {
      SameRange(va, x, LevelOf(Fresh(m, root, va).lbits));
    }
  }

  lemma {:induction false} RangeEndBounds(lbits: nat, va: Address)
    requires lbits in {12, 21, 30, 39} || (lbits == NONCANONICAL_LBITS && !Canonical(va))
    ensures va < RangeEnd(lbits, va) <= VA_END && RangeEnd(lbits, va) - va < VA_END
    ensures RangeEnd(lbits, va) % PAGESIZE == 0
  {
    if lbits == 12 {
      Multiple(va / 0x1000 + 1, 1);
    } else if lbits == 21 {
      Multiple(va / 0x20_0000 + 1, 0x200);
    } else if lbits == 30 {
      Multiple(va / 0x4000_0000 + 1, 0x4_0000);
    } else if lbits == 39 {
      Multiple(va / 0x80_0000_0000 + 1, 0x800_0000);
    }
  }

  /** `(va | lbits_mask(lbits)) + 1` is the next multiple of the span. */
  lemma {:induction false} RangeEndIsNext(va: Address, level: nat)
    requires level <= 3
    ensures var r := RangeEnd(PAGEOFFBITS + 9 * level, va);
            && r == (Prefix(va, level) + 1) * Span(level)
            && va < r <= va + Span(level)
  {
    PrefixOffset(va, level);
  }

  /** The entry at a range's end is the next one at its level. */
  lemma {:induction false} PrefixAtEnd(va: Address, level: nat)
    requires level <= 3
    ensures var r := RangeEnd(PAGEOFFBITS + 9 * level, va);
            r < VA_END ==> Prefix(r, level) == Prefix(va, level) + 1 && Idx(r, level) != Idx(va, level)
  {
    hide RangeEnd;
    RangeEndIsNext(va, level);
    var p := Prefix(va, level);
    if RangeEnd(PAGEOFFBITS + 9 * level, va) < VA_END {
      PrefixOfProduct(p + 1, level);
      NotNext(p);
    }
  }

  lemma {:induction false} NotNext(p: nat)
    ensures (p + 1) % 512 != p % 512
  {
  }

  lemma {:induction false} PrefixOfProduct(q: nat, level: nat)
    requires level <= 3 && q * Span(level) < VA_END
    ensures Prefix(q * Span(level), level) == q
  {
    if level == 0 {
      assert q * 0x1000 / 0x1000 == q;
    } else if level == 1 {
      assert q * 0x20_0000 / 0x20_0000 == q;
    } else if level == 2 {
      assert q * 0x4000_0000 / 0x4000_0000 == q;
    } else {
      assert q * 0x80_0000_0000 / 0x80_0000_0000 == q;
    }
  }

  /** Ranges are maximal: the address after one has another cursor.  The level or
      the index differs, whatever the tables hold. */
  lemma {:induction false} RangeMaximal(m: Memory, root: nat, va: Address)
    ensures var c := Fresh(m, root, va);
            var r := RangeEnd(c.lbits, va);
            r < VA_END ==>
              var d := Fresh(m, root, r);
              d.lbits != c.lbits || (d.pep.At? && c.pep.At? && d.pep.idx != c.pep.idx)
  {
    hide Fresh, RangeEnd, Prefix, Idx;
    var c := Fresh(m, root, va);
    var r := RangeEnd(c.lbits, va);
    FreshShape(m, root, va);
    if r < VA_END {
      FreshShape(m, root, r);
      if Canonical(va) {
        PrefixAtEnd(va, LevelOf(c.lbits));
      } else {
        HighIsCanonical(va);
      }
    }
  }

  lemma {:induction false} HighIsCanonical(va: Address)
    ensures RangeEnd(NONCANONICAL_LBITS, va) == VA_HIGHMIN && Canonical(VA_HIGHMIN)
  {
  }

  /** Canonical addresses are those whose top 17 bits are equal. */
  lemma {:induction false} CanonicalBits(va: Address)
    ensures Canonical(va) <==> va / VA_LOWEND == 0 || va / VA_LOWEND == 0x1_FFFF
  {
  }

  /** A large page's base does not depend on bit 12 of its entry, the PAT bit. */
  lemma {:induction false} LeafBaseIs(f: nat, flags: Flags, level: nat)
    ensures level == 0 ==> LeafBase(Entry(f, flags), level) == PAGESIZE * f
    ensures level > 0 && f % 2 == 0 ==>
              LeafBase(Entry(f, flags), level) == LeafBase(Entry(f + 1, flags), level) == PAGESIZE * f
  {
  }

  lemma {:induction false} Multiple(q: nat, n: nat)
    ensures q * (PAGESIZE * n) % PAGESIZE == 0
  {
    assert q * (PAGESIZE * n) == PAGESIZE * (q * n);
  }
}
