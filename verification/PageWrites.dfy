/**
 What the two kinds of store made by `vmiter::try_map` do to a page-table tree:
 linking an empty table below an absent entry, and writing a level-0 entry.
 */
module PageWrites {
  import opened Wrappers
  import opened Paging
  import opened Phys

  const LOW48 := 0x1_0000_0000_0000

  /** Position of an address among the 48-bit addresses a walk tells apart. */
  function Prefix48(va: Address, level: nat): nat
    requires level <= 4
  {
    Prefix(va % LOW48, level)
  }

  lemma {:induction false} PrefixSplit(va: Address, level: nat)
    requires level <= 3
    ensures Prefix48(va, level) == Prefix48(va, level + 1) * 512 + Idx(va, level)
    ensures Prefix48(va, 4) == 0
  {
    hide Paging.Prefix;
    IdxLow(va, level);
    Prefix4(va);
    DigitOfPrefix(va % LOW48, level);
  }

  lemma {:induction false} Prefix4(va: Address)
    ensures Prefix48(va, 4) == 0
  {
  }

  lemma {:induction false} DigitOfPrefix(a: Address, level: nat)
    requires level <= 3
    ensures Prefix(a, level) == Prefix(a, level + 1) * 512 + Prefix(a, level) % 512
  {
    PrefixUp(a, level);
  }

  lemma {:induction false} IdxLow(va: Address, level: nat)
    requires level <= 3
    ensures Idx(va, level) == Idx(va % LOW48, level)
  {
    var h := va / LOW48;
    var a := va % LOW48;
    PrefixOfSum(h, a, level);
    var n := if level == 0 then 0x800_0000 else if level == 1 then 0x4_0000 else if level == 2 then 0x200 else 1;
    DropMultiple(Prefix(a, level), h * n);
  }

  lemma {:induction false} PrefixOfSum(h: nat, a: nat, level: nat)
    requires level <= 3 && a < LOW48 && h * LOW48 + a < VA_END
    ensures var n :=
              if level == 0 then 0x800_0000 else if level == 1 then 0x4_0000 else if level == 2 then 0x200 else 1;
            Prefix(h * LOW48 + a, level) == Prefix(a, level) + 512 * (h * n)
  {
  }

  lemma {:induction false} DropMultiple(x: nat, y: nat)
    ensures (x + 512 * y) % 512 == x % 512
  {
  }

  /** Canonical addresses are told apart by their 48 low bits. */
  lemma {:induction false} CanonicalPage(x: Address, y: Address)
    requires Canonical(x) && Canonical(y)
    ensures Prefix48(x, 0) == Prefix48(y, 0) <==> Prefix(x, 0) == Prefix(y, 0)
  {
    var hx := if x < VA_LOWEND then 0 else 0xFFFF;
    var hy := if y < VA_LOWEND then 0 else 0xFFFF;
    assert x / LOW48 == hx && y / LOW48 == hy;
  }

  // ------------------------------------------------------------------
  // Stores outside the tree

  ghost predicate AgreeOn(m: Memory, m': Memory, own: map<nat, Spot>) {
    forall f :: f in own && f in m ==> f in m' && m'[f] == m[f]
  }

  /** A walk reads only pages of the tree. */
  lemma {:induction false} WalkAgree(m: Memory, m': Memory, root: nat, own: map<nat, Spot>, f: nat, level: nat,
                                     va: Address, perm: Flags)
    requires Shaped(m, root, own) && AgreeOn(m, m', own)
    requires f in own && level <= 3 && own[f].level == level
    ensures Walk(m', f, level, va, perm) == Walk(m, f, level, va, perm)
    ensures Access(m', f, level, va) == Access(m, f, level, va)
    decreases level
  {
    hide Paging.Prefix, Paging.Offset, Paging.LeafBase, Paging.Idx;
    var e := Lookup(m, f, Idx(va, level));
    assert Lookup(m', f, Idx(va, level)) == e;
    if level > 0 && PointsToTable(e) {
      WalkAgree(m, m', root, own, e.frame, level - 1, va, Restrict(e, perm));
    }
  }

  lemma {:induction false} ShapedAgree(m: Memory, m': Memory, root: nat, own: map<nat, Spot>)
    requires Shaped(m, root, own) && AgreeOn(m, m', own)
    ensures Shaped(m', root, own)
    ensures Small(m, own) ==> Small(m', own)
  {
  }

  // ------------------------------------------------------------------
  // Linking an empty table

  /** Clear page `n` and store its address, with P, W and U, in entry `i` of `g`. */
  function Link(m: Memory, g: nat, i: nat, n: nat): Memory
    requires g in m && i < 512
  {
    m[n := Filled(ZERO_ENTRY)][g := m[g][i := Entry(n, PWU_FLAGS)]]
  }

  function LinkOwn(own: map<nat, Spot>, g: nat, i: nat, n: nat): map<nat, Spot>
    requires g in own && own[g].level > 0
  {
    own[n := Spot(own[g].level - 1, own[g].prefix * 512 + i)]
  }

  ghost predicate CanLink(m: Memory, root: nat, own: map<nat, Spot>, g: nat, i: nat, n: nat) {
    && Shaped(m, root, own)
    && g in own && own[g].level > 0 && i < 512 && !Present(m[g][i])
    && n !in own
  }

  lemma {:induction false} LinkShaped(m: Memory, root: nat, own: map<nat, Spot>, g: nat, i: nat, n: nat)
    requires CanLink(m, root, own, g, i, n)
    ensures Shaped(Link(m, g, i, n), root, LinkOwn(own, g, i, n))
    ensures Small(m, own) ==> Small(Link(m, g, i, n), LinkOwn(own, g, i, n))
  {
    var m', own' := Link(m, g, i, n), LinkOwn(own, g, i, n);
    forall f, j | f in own' && own'[f].level > 0 && 0 <= j < 512 && PointsToTable(m'[f][j])
      ensures m'[f][j].frame in own'
      ensures own'[m'[f][j].frame] == Spot(own'[f].level - 1, own'[f].prefix * 512 + j)
    {
      if f != n && !(f == g && j == i) {
        assert m'[f][j] == m[f][j];
        assert m[f][j].frame in own;
      }
    }
  }

  /** An empty table changes the meaning of no address. */
  lemma {:induction false} LinkAccess(m: Memory, root: nat, own: map<nat, Spot>, g: nat, i: nat, n: nat, f: nat,
                                      level: nat, x: Address)
    requires CanLink(m, root, own, g, i, n)
    requires f in own && level <= 3 && own[f].level == level
    ensures Access(Link(m, g, i, n), f, level, x) == Access(m, f, level, x)
    decreases level
  {
    hide Paging.Prefix, Paging.Offset, Paging.LeafBase, Paging.Idx;
    var e := Lookup(m, f, Idx(x, level));
    if f == g && i == Idx(x, level) {
      assert Access(Link(m, g, i, n), n, level - 1, x) == None;
    } else {
      assert Lookup(Link(m, g, i, n), f, Idx(x, level)) == e;
      if level > 0 && PointsToTable(e) {
        LinkAccess(m, root, own, g, i, n, e.frame, level - 1, x);
      }
    }
  }

  /** The walk that stopped at the absent entry now goes one level further. */
  lemma {:induction false} LinkWalk(m: Memory, root: nat, own: map<nat, Spot>, g: nat, i: nat, n: nat, f: nat,
                                    level: nat, va: Address, perm: Flags)
    requires CanLink(m, root, own, g, i, n)
    requires f in own && level <= 3 && own[f].level == level
    requires Walk(m, f, level, va, perm).pep == At(g, i)
    ensures var c := Walk(m, f, level, va, perm);
            Walk(Link(m, g, i, n), f, level, va, perm) == Walk(Link(m, g, i, n), g, own[g].level, va, c.perm)
    decreases level
  {
    hide Paging.Prefix, Paging.Idx;
    var e := Lookup(m, f, Idx(va, level));
    if level > 0 && PointsToTable(e) {
      WalkDescends(m, root, own, e.frame, level - 1, va, Restrict(e, perm));
      assert Lookup(Link(m, g, i, n), f, Idx(va, level)) == e;
      LinkWalk(m, root, own, g, i, n, e.frame, level - 1, va, Restrict(e, perm));
    }
  }

  /** A walk never climbs, and it stays in the tree. */
  lemma {:induction false} WalkDescends(m: Memory, root: nat, own: map<nat, Spot>, f: nat, level: nat, va: Address,
                                        perm: Flags)
    requires Shaped(m, root, own) && f in own && level <= 3 && own[f].level == level
    ensures var c := Walk(m, f, level, va, perm);
            && c.pep.At? && c.pep.frame in own
            && own[c.pep.frame].level <= level
            && c.lbits == PAGEOFFBITS + 9 * own[c.pep.frame].level
            && c.pep.idx == Idx(va, own[c.pep.frame].level)
    ensures var c := Walk(m, f, level, va, perm);
            own[f].prefix == Prefix48(va, level + 1) ==>
              own[c.pep.frame].prefix == Prefix48(va, own[c.pep.frame].level + 1)
    decreases level
  {
    hide Paging.Prefix, Paging.Idx, Prefix48;
    PrefixSplit(va, level);
    var e := Lookup(m, f, Idx(va, level));
    if level > 0 && PointsToTable(e) {
      WalkDescends(m, root, own, e.frame, level - 1, va, Restrict(e, perm));
    }
  }

  // ------------------------------------------------------------------
  // Writing a level-0 entry

  function SetLeaf(m: Memory, g: nat, i: nat, e: Entry): Memory
    requires g in m && i < 512
  {
    m[g := m[g][i := e]]
  }

  ghost predicate CanSet(m: Memory, root: nat, own: map<nat, Spot>, g: nat, i: nat) {
    Shaped(m, root, own) && g in own && g in m && own[g].level == 0 && i < 512
  }

  lemma {:induction false} LeafShaped(m: Memory, root: nat, own: map<nat, Spot>, g: nat, i: nat, e: Entry)
    requires CanSet(m, root, own, g, i)
    ensures Shaped(SetLeaf(m, g, i, e), root, own)
    ensures Small(m, own) && e.frame < FRAME_4GIB ==> Small(SetLeaf(m, g, i, e), own)
  {
    var m' := SetLeaf(m, g, i, e);
    assert forall f :: f in own && f != g ==> m'[f] == m[f];
  }

  /** A level-0 entry is where walks end, so no walk changes. */
  lemma {:induction false} LeafWalk(m: Memory, root: nat, own: map<nat, Spot>, g: nat, i: nat, e: Entry, f: nat,
                                    level: nat, va: Address, perm: Flags)
    requires CanSet(m, root, own, g, i)
    requires f in own && level <= 3 && own[f].level == level
    ensures Walk(SetLeaf(m, g, i, e), f, level, va, perm) == Walk(m, f, level, va, perm)
    decreases level
  {
    hide Paging.Prefix, Paging.Idx;
    if level > 0 {
      var d := Lookup(m, f, Idx(va, level));
      assert Lookup(SetLeaf(m, g, i, e), f, Idx(va, level)) == d;
      if PointsToTable(d) {
        LeafWalk(m, root, own, g, i, e, d.frame, level - 1, va, Restrict(d, perm));
      }
    }
  }

  /** In a tree the store is seen by the addresses of one page only. */
  lemma {:induction false} LeafElsewhere(m: Memory, root: nat, own: map<nat, Spot>, g: nat, i: nat, e: Entry, f: nat,
                                         level: nat, x: Address)
    requires CanSet(m, root, own, g, i)
    requires f in own && level <= 3 && own[f] == Spot(level, Prefix48(x, level + 1))
    requires Prefix48(x, 0) != own[g].prefix * 512 + i
    ensures Access(SetLeaf(m, g, i, e), f, level, x) == Access(m, f, level, x)
    decreases level
  {
    hide Paging.Prefix, Paging.Idx, Prefix48, Paging.Offset, Paging.LeafBase;
    PrefixSplit(x, level);
    var d := Lookup(m, f, Idx(x, level));
    assert Lookup(SetLeaf(m, g, i, e), f, Idx(x, level)) == d;
    if level > 0 && PointsToTable(d) {
      LeafElsewhere(m, root, own, g, i, e, d.frame, level - 1, x);
    }
  }

  // ------------------------------------------------------------------
  // The two stores as `try_map` makes them, at the cursor of `va`

  ghost predicate SameMeaning(m: Memory, m': Memory, root: nat) {
    forall x: Address :: Translate(m', root, x) == Translate(m, root, x)
  }

  /** `m'` maps the page of `va` to `to` and agrees with `m` on every other page. */
  ghost predicate Remapped(m: Memory, m': Memory, root: nat, va: Address, to: Option<Mapping>) {
    forall x: Address ::
      Translate(m', root, x) ==
      if Prefix(x, 0) != Prefix(va, 0) then Translate(m, root, x)
      else match to
           case None => None
           case Some(y) => Some(Mapping(y.pa + Offset(x, 0), y.flags))
  }

  lemma {:induction false} OutsideStep(m: Memory, m': Memory, root: nat, own: map<nat, Spot>)
    requires Shaped(m, root, own) && AgreeOn(m, m', own)
    ensures SameMeaning(m, m', root)
    ensures forall x: Address :: Fresh(m', root, x) == Fresh(m, root, x)
  {
    forall x: Address
      ensures Translate(m', root, x) == Translate(m, root, x) && Fresh(m', root, x) == Fresh(m, root, x)
    {
      WalkAgree(m, m', root, own, root, 3, x, ALL_FLAGS);
    }
  }

  /** Where a fresh cursor stands in the tree. */
  lemma {:induction false} FreshSpot(m: Memory, root: nat, own: map<nat, Spot>, va: Address)
    requires Shaped(m, root, own) && Canonical(va)
    ensures var c := Fresh(m, root, va);
            && c.pep.At? && c.pep.frame in own
            && own[c.pep.frame].level <= 3
            && c.lbits == PAGEOFFBITS + 9 * own[c.pep.frame].level
            && LevelOf(c.lbits) == own[c.pep.frame].level
            && c.pep.idx == Idx(va, own[c.pep.frame].level)
            && own[c.pep.frame].prefix * 512 + c.pep.idx == Prefix48(va, own[c.pep.frame].level)
  {
    hide Paging.Prefix, Paging.Idx, Prefix48, Paging.Walk;
    Prefix4(va);
    WalkDescends(m, root, own, root, 3, va, ALL_FLAGS);
    PrefixSplit(va, own[Fresh(m, root, va).pep.frame].level);
  }

  lemma {:induction false} LinkStep(m: Memory, root: nat, own: map<nat, Spot>, va: Address, n: nat)
    requires Shaped(m, root, own) && Canonical(va) && n !in own
    requires var c := Fresh(m, root, va); c.lbits > PAGEOFFBITS && !Present(EntryAt(m, c.pep))
    ensures var c := Fresh(m, root, va);
            && c.pep.At? && c.pep.idx < 512 && CanLink(m, root, own, c.pep.frame, c.pep.idx, n)
            && SameMeaning(m, Link(m, c.pep.frame, c.pep.idx, n), root)
            && var m' := Link(m, c.pep.frame, c.pep.idx, n);
               Fresh(m', root, va) == Walk(m', c.pep.frame, LevelOf(c.lbits), va, c.perm)
  {
    hide Paging.Prefix, Paging.Idx, Prefix48, Paging.Walk, Paging.Access;
    FreshSpot(m, root, own, va);
    var c := Fresh(m, root, va);
    var g, i := c.pep.frame, c.pep.idx;
    LinkWalk(m, root, own, g, i, n, root, 3, va, ALL_FLAGS);
    forall x: Address
      ensures Translate(Link(m, g, i, n), root, x) == Translate(m, root, x)
    {
      LinkAccess(m, root, own, g, i, n, root, 3, x);
    }
  }

  /** After the link the cursor stands one level lower, at an empty entry. */
  lemma {:induction false} LinkedCursor(m: Memory, root: nat, own: map<nat, Spot>, g: nat, i: nat, n: nat, va: Address,
                                        perm: Flags)
    requires CanLink(m, root, own, g, i, n) && own[g].level <= 3 && i == Idx(va, own[g].level)
    ensures var m' := Link(m, g, i, n);
            var c := Walk(m', g, own[g].level, va, perm);
            && c == Cursor(At(n, Idx(va, own[g].level - 1)), PAGEOFFBITS + 9 * (own[g].level - 1), perm)
            && EntryAt(m', c.pep) == ZERO_ENTRY
  {
    hide Paging.Prefix, Paging.Idx;
    var m' := Link(m, g, i, n);
    assert Lookup(m', g, i) == Entry(n, PWU_FLAGS);
    assert Restrict(Entry(n, PWU_FLAGS), perm) == perm;
    assert Lookup(m', n, Idx(va, own[g].level - 1)) == ZERO_ENTRY;
  }

  lemma {:induction false} SetStep(m: Memory, root: nat, own: map<nat, Spot>, va: Address, e: Entry)
    requires Shaped(m, root, own) && Canonical(va)
    requires Fresh(m, root, va).lbits == PAGEOFFBITS
    ensures var c := Fresh(m, root, va);
            && c.pep.At? && c.pep.idx < 512 && CanSet(m, root, own, c.pep.frame, c.pep.idx)
            && var m' := SetLeaf(m, c.pep.frame, c.pep.idx, e);
               && Fresh(m', root, va) == c
               && Remapped(m, m', root, va,
                           if e.flags.p then Some(Mapping(PAGESIZE * e.frame, e.flags.And(c.perm))) else None)
  {
    hide Paging.Prefix, Paging.Idx, Prefix48, Paging.Walk, Paging.Access, Paging.Offset;
    FreshSpot(m, root, own, va);
    var c := Fresh(m, root, va);
    var g, i := c.pep.frame, c.pep.idx;
    var m' := SetLeaf(m, g, i, e);
    LeafWalk(m, root, own, g, i, e, root, 3, va, ALL_FLAGS);
    var to := if e.flags.p then Some(Mapping(PAGESIZE * e.frame, e.flags.And(c.perm))) else None;
    forall x: Address
      ensures Translate(m', root, x) ==
              if Prefix(x, 0) != Prefix(va, 0) then Translate(m, root, x)
              else match to
                   case None => None
                   case Some(y) => Some(Mapping(y.pa + Offset(x, 0), y.flags))
    {
      if Prefix(x, 0) == Prefix(va, 0) {
        SetHere(m, root, own, va, e, x);
      } else if Canonical(x) {
        CanonicalPage(x, va);
        Prefix4(x);
        LeafElsewhere(m, root, own, g, i, e, root, 3, x);
      }
    }
  }

  /** Every address of the page sees the new entry. */
  lemma {:induction false} SetHere(m: Memory, root: nat, own: map<nat, Spot>, va: Address, e: Entry, x: Address)
    requires Shaped(m, root, own) && Canonical(va) && Fresh(m, root, va).lbits == PAGEOFFBITS
    requires Prefix(x, 0) == Prefix(va, 0)
    requires var c := Fresh(m, root, va);
             && c.pep.At? && CanSet(m, root, own, c.pep.frame, c.pep.idx)
             && Fresh(SetLeaf(m, c.pep.frame, c.pep.idx, e), root, va) == c
    ensures var c := Fresh(m, root, va);
            Translate(SetLeaf(m, c.pep.frame, c.pep.idx, e), root, x) ==
            if e.flags.p then Some(Mapping(PAGESIZE * e.frame + Offset(x, 0), e.flags.And(c.perm))) else None
  {
    hide Paging.Prefix, Paging.Idx, Paging.Walk, Paging.Access, Paging.Offset, Paging.Canonical;
    var c := Fresh(m, root, va);
    var m' := SetLeaf(m, c.pep.frame, c.pep.idx, e);
    SamePageCanonical(va, x);
    WalkSame(m', root, 3, va, x, ALL_FLAGS);
    FreshMeaning(m', root, x);
    AccessPresent(m', root, 3, x);
    assert EntryAt(m', c.pep) == e;
    FreshKeeps(m, root, va);
  }

  lemma {:induction false} SamePageCanonical(x: Address, y: Address)
    requires Prefix(x, 0) == Prefix(y, 0)
    ensures Canonical(x) <==> Canonical(y)
  {
  }

  /** The rights a walk accumulates. */
  predicate Accumulated(perm: Flags) {
    perm.p && perm.ps && perm.rest == 0xFF
  }

  /** On the way down only W and U can be lost. */
  lemma {:induction false} WalkKeeps(m: Memory, f: nat, level: nat, va: Address, perm: Flags)
    requires level <= 3 && Accumulated(perm)
    ensures Accumulated(Walk(m, f, level, va, perm).perm)
    decreases level
  {
    hide Paging.Prefix, Paging.Idx;
    var e := Lookup(m, f, Idx(va, level));
    if level > 0 && PointsToTable(e) {
      WalkKeeps(m, e.frame, level - 1, va, Restrict(e, perm));
    }
  }

  lemma {:induction false} FreshKeeps(m: Memory, root: nat, va: Address)
    requires Canonical(va)
    ensures Accumulated(Fresh(m, root, va).perm)
  {
    WalkKeeps(m, root, 3, va, ALL_FLAGS);
  }
}
