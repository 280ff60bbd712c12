/**
 The first-fit allocator of pset1b/m61-derp.cc, which keeps all blocks of its
 8 MiB buffer, free or not, in one ordered map and never merges them.
 */
module Derp {
  import opened Wrappers

  const BUFFER_SIZE := 0x80_0000
  const SIZE_END := 0x1_0000_0000_0000_0000    // `size_t` arithmetic is modulo 2^64

  datatype Block = Block(ptr: nat, bsz: nat, usz: nat, free: bool)

  /** The allocator's state; `blocks` is the map in key order. */
  datatype Heap = Heap(blocks: seq<Block>, activeCount: int, activeBytes: int, totalCount: nat, totalBytes: nat)

  const EMPTY := Heap([], 0, 0, 0, 0)

  /** `blocks[b.ptr] = b`: overwrite the entry with that key, or add one in order. */
  function Assign(bs: seq<Block>, b: Block): seq<Block> {
    if bs == [] || b.ptr < bs[0].ptr then [b] + bs
    else if b.ptr == bs[0].ptr then [b] + bs[1..]
    else [bs[0]] + Assign(bs[1..], b)
  }

  predicate Fits(b: Block, sz: nat) {
    b.free && b.bsz >= sz
  }

  /** Index of the first free block that is large enough. */
  function FindFit(bs: seq<Block>, sz: nat): (k: nat)
    ensures k <= |bs| && (k < |bs| ==> Fits(bs[k], sz))
    ensures forall i :: 0 <= i < k ==> !Fits(bs[i], sz)
  {
    if bs == [] || Fits(bs[0], sz) then 0 else 1 + FindFit(bs[1..], sz)
  }

  /** Alignment: `sz && sz % 16 == 0 ? sz : (sz | 15) + 1` */
  function Rounded(sz: nat): nat {
    if sz != 0 && sz % 16 == 0 then sz else (sz / 16 + 1) * 16
  }

  /** The map once the buffer has been obtained. */
  function Started(bs: seq<Block>, buffer: nat): seq<Block> {
    if bs == [] then [Block(buffer, BUFFER_SIZE, 0, true)] else bs
  }

  /** The split of block `k`: the new entry is stored first, then the old one shrinks. */
  function Split(bs: seq<Block>, k: nat, sz: nat): seq<Block>
    requires k < |bs|
  {
    var b := bs[k];
    var asz := Rounded(sz);
    var rest := Assign(bs[k + 1..], Block(b.ptr + asz, (b.bsz - asz) % SIZE_END, 0, true));
    bs[..k] + [Block(b.ptr, asz, sz, false)] + rest
  }

  function AfterMalloc(h: Heap, buffer: nat, sz: nat): Heap {
    var bs := Started(h.blocks, buffer);
    var k := FindFit(bs, sz);
    if k == |bs| then h.(blocks := bs)
    else Heap(Split(bs, k, sz), h.activeCount + 1, h.activeBytes + sz, h.totalCount + 1, h.totalBytes + sz)
  }

  function MallocResult(h: Heap, buffer: nat, sz: nat): Option<nat> {
    var bs := Started(h.blocks, buffer);
    var k := FindFit(bs, sz);
    if k == |bs| then None else Some(bs[k].ptr)
  }

  /** Index of the block that starts at `ptr`. */
  function FindPtr(bs: seq<Block>, ptr: nat): (k: nat)
    ensures k <= |bs| && (k < |bs| ==> bs[k].ptr == ptr)
    ensures forall i :: 0 <= i < k ==> bs[i].ptr != ptr
  {
    if bs == [] || bs[0].ptr == ptr then 0 else 1 + FindPtr(bs[1..], ptr)
  }

  /** The two assertions of `m61_free`. */
  predicate CanFree(h: Heap, ptr: nat) {
    var k := FindPtr(h.blocks, ptr);
    ptr != 0 ==> k < |h.blocks| && !h.blocks[k].free
  }

  function AfterFree(h: Heap, ptr: nat): Heap
    requires CanFree(h, ptr)
  {
    if ptr == 0 then h
    else
      var k := FindPtr(h.blocks, ptr);
      h.(blocks := h.blocks[k := h.blocks[k].(free := true)],
         activeCount := h.activeCount - 1, activeBytes := h.activeBytes - h.blocks[k].usz)
  }

  // ------------------------------------------------------------------
  // The allocator

  class Allocator {
    const buffer: nat    // what the system allocator returns for the buffer
    var heap: Heap

    constructor (buffer: nat)
      ensures this.buffer == buffer && heap == EMPTY
    {
      this.buffer := buffer;
      heap := EMPTY;
    }

    method Malloc(sz: nat) returns (r: Option<nat>)
      modifies this
      ensures heap == AfterMalloc(old(heap), buffer, sz)
      ensures r == MallocResult(old(heap), buffer, sz)
      // a tiling survives exactly when the chosen block was not an exact fit
      ensures Tiled(old(heap.blocks), buffer) ==>
                (Tiled(heap.blocks, buffer) <==> !ExactFit(old(heap.blocks), buffer, sz))
    {
      hide Tiled, ExactFit, Assign;
      if Tiled(heap.blocks, buffer) {
        MallocTiles(heap, buffer, sz);
      }
      if heap.blocks == [] {
        heap := heap.(blocks := [Block(buffer, BUFFER_SIZE, 0, true)]);
      }
      var k := Search(sz);
      if k == |heap.blocks| {
        return None;
      }
      var b := heap.blocks[k];
      var asz := Rounded(sz);
      var rest := Assign(heap.blocks[k + 1..], Block(b.ptr + asz, (b.bsz - asz) % SIZE_END, 0, true));
      heap := heap.(blocks := heap.blocks[..k] + [Block(b.ptr, asz, sz, false)] + rest);
      heap := heap.(totalCount := heap.totalCount + 1, totalBytes := heap.totalBytes + sz);
      heap := heap.(activeCount := heap.activeCount + 1, activeBytes := heap.activeBytes + sz);
      r := Some(b.ptr);
    }

    /** The search loop of `m61_malloc` */
    method Search(sz: nat) returns (k: nat)
      ensures k == FindFit(heap.blocks, sz)
    {
      k := 0;
      while k != |heap.blocks| && (!heap.blocks[k].free || heap.blocks[k].bsz < sz)
        invariant k <= |heap.blocks|
        invariant FindFit(heap.blocks, sz) == k + FindFit(heap.blocks[k..], sz)
        decreases |heap.blocks| - k
      {
        assert heap.blocks[k..][1..] == heap.blocks[k + 1..];
        k := k + 1;
      }
    }

    method Free(ptr: nat)
      requires CanFree(heap, ptr)
      modifies this
      ensures heap == AfterFree(old(heap), ptr)
      ensures Tiled(old(heap.blocks), buffer) ==> Tiled(heap.blocks, buffer)
    {
      if Tiled(heap.blocks, buffer) {
        FreeTiles(heap, buffer, ptr);
      }
      if ptr == 0 {
        return;
      }
      var k := FindPtr(heap.blocks, ptr);
      heap := heap.(blocks := heap.blocks[k := heap.blocks[k].(free := true)]);
      heap := heap.(activeCount := heap.activeCount - 1, activeBytes := heap.activeBytes - heap.blocks[k].usz);
    }
  }

  // ------------------------------------------------------------------
  // Tiling

  /** Consecutive blocks from `from` to `to`, in positive multiples of 16, each
      allocated one large enough for its user. */
  predicate Tiles(bs: seq<Block>, from: nat, to: nat) {
    if bs == [] then from == to
    else
      && bs[0].ptr == from && bs[0].bsz > 0 && bs[0].bsz % 16 == 0
      && (!bs[0].free ==> bs[0].usz <= bs[0].bsz)
      && Tiles(bs[1..], from + bs[0].bsz, to)
  }

  /** The buffer has not been obtained yet, or its blocks tile it. */
  predicate Tiled(bs: seq<Block>, buffer: nat) {
    bs == [] || Tiles(bs, buffer, buffer + BUFFER_SIZE)
  }

  /** The request takes the whole of the block that is chosen. */
  predicate ExactFit(bs: seq<Block>, buffer: nat, sz: nat) {
    var cs := Started(bs, buffer);
    var k := FindFit(cs, sz);
    k < |cs| && cs[k].bsz == Rounded(sz)
  }

  lemma {:induction false} TilesJoin(a: seq<Block>, b: seq<Block>, from: nat, mid: nat, to: nat)
    requires Tiles(a, from, mid) && Tiles(b, mid, to)
    ensures Tiles(a + b, from, to)
    decreases |a|
  {
    if a == [] {
      assert a + b == b;
    } else {
      assert (a + b)[1..] == a[1..] + b;
      TilesJoin(a[1..], b, from + a[0].bsz, mid, to);
    }
  }

  /** What a tiling says about one block. */
  lemma {:induction false} TilesAt(bs: seq<Block>, from: nat, to: nat, k: nat)
    requires Tiles(bs, from, to) && k < |bs|
    ensures from <= bs[k].ptr && bs[k].ptr + bs[k].bsz <= to
    ensures bs[k].bsz > 0 && bs[k].bsz % 16 == 0 && (!bs[k].free ==> bs[k].usz <= bs[k].bsz)
    ensures Tiles(bs[..k], from, bs[k].ptr) && Tiles(bs[k + 1..], bs[k].ptr + bs[k].bsz, to)
    decreases k
  {
    if k == 0 {
      TilesForward(bs[1..], from + bs[0].bsz, to);
    } else {
      TilesAt(bs[1..], from + bs[0].bsz, to, k - 1);
      assert bs[..k][1..] == bs[1..][..k - 1];
      assert bs[1..][k..] == bs[k + 1..];
    }
  }

  lemma {:induction false} NextTile(bs: seq<Block>, from: nat, to: nat, k: nat)
    requires Tiles(bs, from, to) && k + 1 < |bs|
    ensures bs[k + 1].ptr == bs[k].ptr + bs[k].bsz
  {
    TilesAt(bs, from, to, k);
    assert bs[k + 1..][0] == bs[k + 1];
  }

  lemma {:induction false} TilesForward(bs: seq<Block>, from: nat, to: nat)
    requires Tiles(bs, from, to)
    ensures from <= to && (bs != [] ==> from < to)
    decreases |bs|
  {
    if bs != [] {
      TilesForward(bs[1..], from + bs[0].bsz, to);
    }
  }

  /** Blocks of a tiling do not overlap. */
  lemma {:induction false} TilesDisjoint(bs: seq<Block>, from: nat, to: nat, i: nat, j: nat)
    requires Tiles(bs, from, to) && i < j < |bs|
    ensures bs[i].ptr + bs[i].bsz <= bs[j].ptr
  {
    TilesAt(bs, from, to, i);
    assert bs[j] == bs[i + 1..][j - i - 1];
    TilesAt(bs[i + 1..], bs[i].ptr + bs[i].bsz, to, j - i - 1);
  }

  /** Rounding up never exceeds a block of the tiling that fits. */
  lemma {:induction false} RoundedFits(bs: seq<Block>, buffer: nat, k: nat, sz: nat)
    requires Tiles(bs, buffer, buffer + BUFFER_SIZE) && k < |bs| && Fits(bs[k], sz)
    ensures sz <= Rounded(sz) <= bs[k].bsz && Rounded(sz) % 16 == 0 && Rounded(sz) > 0
  {
    hide Tiles, Rounded;
    TilesAt(bs, buffer, buffer + BUFFER_SIZE, k);
    RoundedWithin(sz, bs[k].bsz / 16);
  }

  lemma {:induction false} RoundedWithin(sz: nat, n: nat)
    requires sz <= 16 * n && n > 0
    ensures sz <= Rounded(sz) <= 16 * n && Rounded(sz) % 16 == 0 && Rounded(sz) > 0
  {
    var q := sz / 16;
    assert sz == 16 * q + sz % 16;
    assert q <= n;
  }

  lemma {:induction false} StartedTiles(bs: seq<Block>, buffer: nat)
    requires Tiled(bs, buffer)
    ensures Tiles(Started(bs, buffer), buffer, buffer + BUFFER_SIZE)
  {
    assert [Block(buffer, BUFFER_SIZE, 0, true)][1..] == [];
  }

  /** The parts of a split of block `k` that is not an exact fit. */
  lemma {:induction false} SplitParts(bs: seq<Block>, buffer: nat, k: nat, sz: nat)
    requires Tiles(bs, buffer, buffer + BUFFER_SIZE) && k < |bs| && Fits(bs[k], sz) && bs[k].bsz != Rounded(sz)
    ensures var asz := Rounded(sz);
            && asz < bs[k].bsz
            && Split(bs, k, sz) == bs[..k] + [Block(bs[k].ptr, asz, sz, false)]
                                   + ([Block(bs[k].ptr + asz, bs[k].bsz - asz, 0, true)] + bs[k + 1..])
  {
    RoundedFits(bs, buffer, k, sz);
    TilesAt(bs, buffer, buffer + BUFFER_SIZE, k);
    var suffix := bs[k + 1..];
    assert suffix != [] ==> suffix[0].ptr == bs[k].ptr + bs[k].bsz;
    assert bs[k].bsz <= BUFFER_SIZE;
  }

  lemma {:induction false} SplitTiles(bs: seq<Block>, buffer: nat, k: nat, sz: nat)
    requires Tiles(bs, buffer, buffer + BUFFER_SIZE) && k < |bs| && Fits(bs[k], sz)
    ensures Tiles(Split(bs, k, sz), buffer, buffer + BUFFER_SIZE) <==> bs[k].bsz != Rounded(sz)
    ensures Split(bs, k, sz) != []
  {
    hide Assign, Tiles, Rounded;
    var end := buffer + BUFFER_SIZE;
    var asz := Rounded(sz);
    RoundedFits(bs, buffer, k, sz);
    TilesAt(bs, buffer, end, k);
    if bs[k].bsz == asz {
      if k + 1 < |bs| {
        NextTile(bs, buffer, end, k);
      }
      ExactLeavesEmpty(bs, k, sz);
      if Tiles(Split(bs, k, sz), buffer, end) {
        TilesAt(Split(bs, k, sz), buffer, end, k + 1);
      }
    } else {
      SplitParts(bs, buffer, k, sz);
      TwoTiles(bs[k + 1..], bs[k], asz, sz, end);
      var a, r := Block(bs[k].ptr, asz, sz, false), Block(bs[k].ptr + asz, bs[k].bsz - asz, 0, true);
      var tail := [r] + bs[k + 1..];
      TilesJoin(bs[..k], [a] + tail, buffer, bs[k].ptr, end);
      assert bs[..k] + [a] + tail == bs[..k] + ([a] + tail);
    }
  }

  /** The two halves of block `b` tile what `b` did. */
  lemma {:induction false} TwoTiles(after: seq<Block>, b: Block, asz: nat, sz: nat, end: nat)
    requires Tiles(after, b.ptr + b.bsz, end) && b.bsz % 16 == 0 && asz % 16 == 0 && sz <= asz && 0 < asz < b.bsz
    ensures Tiles([Block(b.ptr, asz, sz, false)] + ([Block(b.ptr + asz, b.bsz - asz, 0, true)] + after), b.ptr, end)
  {
    var tail := [Block(b.ptr + asz, b.bsz - asz, 0, true)] + after;
    assert tail[1..] == after;
    assert Tiles(tail, b.ptr + asz, end);
    assert ([Block(b.ptr, asz, sz, false)] + tail)[1..] == tail;
  }

  /** Splitting an exact fit leaves an entry of size 0 behind the block. */
  lemma {:induction false} ExactLeavesEmpty(bs: seq<Block>, k: nat, sz: nat)
    requires k < |bs| && bs[k].bsz == Rounded(sz)
    requires k + 1 < |bs| ==> bs[k + 1].ptr == bs[k].ptr + bs[k].bsz
    ensures |Split(bs, k, sz)| > k + 1 && Split(bs, k, sz)[k + 1].bsz == 0
  {
    var suffix := bs[k + 1..];
    assert suffix != [] ==> suffix[0] == bs[k + 1];
  }

  lemma {:induction false} MallocTiles(h: Heap, buffer: nat, sz: nat)
    requires Tiled(h.blocks, buffer)
    ensures Tiled(AfterMalloc(h, buffer, sz).blocks, buffer) <==> !ExactFit(h.blocks, buffer, sz)
  {
    hide Tiles, Split;
    StartedTiles(h.blocks, buffer);
    var bs := Started(h.blocks, buffer);
    var k := FindFit(bs, sz);
    if k < |bs| {
      SplitTiles(bs, buffer, k, sz);
    }
  }

  lemma {:induction false} FreeTiles(h: Heap, buffer: nat, ptr: nat)
    requires Tiled(h.blocks, buffer) && CanFree(h, ptr)
    ensures Tiled(AfterFree(h, ptr).blocks, buffer)
  {
    if ptr != 0 {
      var bs := h.blocks;
      var k := FindPtr(bs, ptr);
      var end := buffer + BUFFER_SIZE;
      TilesAt(bs, buffer, end, k);
      var b := bs[k].(free := true);
      assert ([b] + bs[k + 1..])[1..] == bs[k + 1..];
      TilesJoin(bs[..k], [b] + bs[k + 1..], buffer, bs[k].ptr, end);
      assert bs[k := b] == bs[..k] + ([b] + bs[k + 1..]);
    }
  }

  // ------------------------------------------------------------------
  // Statistics

  function Count(bs: seq<Block>): int {
    if bs == [] then 0 else (if bs[0].free then 0 else 1) + Count(bs[1..])
  }

  function Bytes(bs: seq<Block>): int {
    if bs == [] then 0 else (if bs[0].free then 0 else bs[0].usz) + Bytes(bs[1..])
  }

  /** The active statistics are the sums over allocated blocks. */
  predicate Counted(h: Heap) {
    h.activeCount == Count(h.blocks) && h.activeBytes == Bytes(h.blocks)
  }

  lemma {:induction false} SumsConcat(a: seq<Block>, b: seq<Block>)
    ensures Count(a + b) == Count(a) + Count(b) && Bytes(a + b) == Bytes(a) + Bytes(b)
    decreases |a|
  {
    if a == [] {
      assert a + b == b;
    } else {
      assert (a + b)[1..] == a[1..] + b;
      SumsConcat(a[1..], b);
    }
  }

  /** One block in the middle contributes its own size. */
  lemma {:induction false} SumsAt(a: seq<Block>, b: Block, c: seq<Block>)
    ensures Count(a + [b] + c) == Count(a) + (if b.free then 0 else 1) + Count(c)
    ensures Bytes(a + [b] + c) == Bytes(a) + (if b.free then 0 else b.usz) + Bytes(c)
  {
    SumsConcat(a + [b], c);
    SumsConcat(a, [b]);
    assert [b][1..] == [];
  }

  /** The allocated block that splitting block `k` overwrites, if any. */
  predicate LosesNext(bs: seq<Block>, k: nat, sz: nat)
    requires k < |bs|
  {
    bs[k].bsz == Rounded(sz) && k + 1 < |bs| && !bs[k + 1].free
  }

  /** The parts of a split of an exact fit: the following entry, if any, is
      overwritten by an entry of size 0. */
  lemma {:induction false} ExactParts(bs: seq<Block>, k: nat, sz: nat)
    requires k < |bs| && bs[k].bsz == Rounded(sz)
    requires k + 1 < |bs| ==> bs[k + 1].ptr == bs[k].ptr + bs[k].bsz
    ensures var rest := if k + 1 < |bs| then bs[k + 2..] else [];
            Split(bs, k, sz) == bs[..k] + [Block(bs[k].ptr, Rounded(sz), sz, false)]
                                + ([Block(bs[k].ptr + Rounded(sz), 0, 0, true)] + rest)
  {
    hide Rounded;
    var suffix := bs[k + 1..];
    if k + 1 < |bs| {
      assert suffix[0] == bs[k + 1] && suffix[1..] == bs[k + 2..];
    } else {
      assert suffix == [];
    }
  }

  /** The sums over the parts of a split. */
  lemma {:induction false} PartsSums(pre: seq<Block>, a: Block, r: Block, rest: seq<Block>)
    requires !a.free && r.free
    ensures Count(pre + [a] + ([r] + rest)) == Count(pre) + 1 + Count(rest)
    ensures Bytes(pre + [a] + ([r] + rest)) == Bytes(pre) + a.usz + Bytes(rest)
  {
    SumsAt(pre, a, [r] + rest);
    SumsConcat([r], rest);
    assert [r][1..] == [];
  }

  lemma {:induction false} SplitSums(bs: seq<Block>, buffer: nat, k: nat, sz: nat)
    requires Tiles(bs, buffer, buffer + BUFFER_SIZE) && k < |bs| && Fits(bs[k], sz)
    ensures var lost := LosesNext(bs, k, sz);
            && Count(Split(bs, k, sz)) == Count(bs) + 1 - (if lost then 1 else 0)
            && Bytes(Split(bs, k, sz)) == Bytes(bs) + sz - (if lost then bs[k + 1].usz else 0)
  {
    hide Tiles, Split, Count, Bytes, Rounded;
    var asz := Rounded(sz);
    var a := Block(bs[k].ptr, asz, sz, false);
    SumsAt(bs[..k], bs[k], bs[k + 1..]);
    assert bs[..k] + [bs[k]] + bs[k + 1..] == bs;
    if bs[k].bsz == asz {
      if k + 1 < |bs| {
        NextTile(bs, buffer, buffer + BUFFER_SIZE, k);
        SumsAt([], bs[k + 1], bs[k + 2..]);
        assert [] + [bs[k + 1]] + bs[k + 2..] == bs[k + 1..];
      }
      NoSums();
      ExactParts(bs, k, sz);
      PartsSums(bs[..k], a, Block(bs[k].ptr + asz, 0, 0, true), if k + 1 < |bs| then bs[k + 2..] else []);
    } else {
      SplitParts(bs, buffer, k, sz);
      PartsSums(bs[..k], a, Block(bs[k].ptr + asz, bs[k].bsz - asz, 0, true), bs[k + 1..]);
    }
  }

  lemma {:induction false} NoSums()
    ensures Count([]) == 0 && Bytes([]) == 0
  {
  }

  lemma {:induction false} StartedSums(bs: seq<Block>, buffer: nat)
    ensures Count(Started(bs, buffer)) == Count(bs) && Bytes(Started(bs, buffer)) == Bytes(bs)
  {
    assert [Block(buffer, BUFFER_SIZE, 0, true)][1..] == [];
  }

  /** The request overwrites the entry of an allocated block. */
  predicate Overwrites(bs: seq<Block>, buffer: nat, sz: nat) {
    var cs := Started(bs, buffer);
    var k := FindFit(cs, sz);
    k < |cs| && LosesNext(cs, k, sz)
  }

  lemma {:induction false} MallocCounts(h: Heap, buffer: nat, sz: nat)
    requires Tiled(h.blocks, buffer) && Counted(h)
    ensures Counted(AfterMalloc(h, buffer, sz)) <==> !Overwrites(h.blocks, buffer, sz)
  {
    hide Tiles, Split, Count, Bytes, Started, LosesNext;
    StartedTiles(h.blocks, buffer);
    StartedSums(h.blocks, buffer);
    var bs := Started(h.blocks, buffer);
    var k := FindFit(bs, sz);
    if k < |bs| {
      SplitSums(bs, buffer, k, sz);
    }
  }

  lemma {:induction false} FreeCounts(h: Heap, ptr: nat)
    requires Counted(h) && CanFree(h, ptr)
    ensures Counted(AfterFree(h, ptr))
  {
    if ptr != 0 {
      var bs := h.blocks;
      var k := FindPtr(bs, ptr);
      var b := bs[k].(free := true);
      SumsAt(bs[..k], bs[k], bs[k + 1..]);
      SumsAt(bs[..k], b, bs[k + 1..]);
      assert bs[..k] + [bs[k]] + bs[k + 1..] == bs;
      assert bs[..k] + [b] + bs[k + 1..] == bs[k := b];
    }
  }

  // ------------------------------------------------------------------
  // Which blocks are allocated

  /** The allocated blocks, in order. */
  function Live(bs: seq<Block>): seq<Block> {
    if bs == [] then [] else (if bs[0].free then [] else [bs[0]]) + Live(bs[1..])
  }

  lemma {:induction false} LiveConcat(a: seq<Block>, b: seq<Block>)
    ensures Live(a + b) == Live(a) + Live(b)
    decreases |a|
  {
    if a == [] {
      assert a + b == b;
    } else {
      assert (a + b)[1..] == a[1..] + b;
      LiveConcat(a[1..], b);
    }
  }

  lemma {:induction false} LiveAt(a: seq<Block>, b: Block, c: seq<Block>)
    ensures Live(a + [b] + c) == Live(a) + (if b.free then [] else [b]) + Live(c)
  {
    LiveConcat(a + [b], c);
    LiveConcat(a, [b]);
    assert [b][1..] == [] && Live([]) == [];
  }

  lemma {:induction false} LiveHead(b: Block, c: seq<Block>)
    ensures Live([b] + c) == (if b.free then [] else [b]) + Live(c)
  {
    assert ([b] + c)[1..] == c;
  }

  /** The split of block `k` replaces a free block by an allocated one, and drops the
      allocated block that it overwrites, if any. */
  lemma {:induction false} SplitLive(bs: seq<Block>, buffer: nat, k: nat, sz: nat)
    requires Tiles(bs, buffer, buffer + BUFFER_SIZE) && k < |bs| && Fits(bs[k], sz)
    ensures var given := Block(bs[k].ptr, Rounded(sz), sz, false);
            var rest := if LosesNext(bs, k, sz) then bs[k + 2..] else bs[k + 1..];
            && Live(Split(bs, k, sz)) == Live(bs[..k]) + [given] + Live(rest)
            && Live(bs) == Live(bs[..k]) + (if LosesNext(bs, k, sz) then [bs[k + 1]] else []) + Live(rest)
  {
    hide Tiles, Split, Live, Rounded;
    var asz := Rounded(sz);
    var given := Block(bs[k].ptr, asz, sz, false);
    LiveAt(bs[..k], bs[k], bs[k + 1..]);
    assert bs[..k] + [bs[k]] + bs[k + 1..] == bs;
    assert Live(bs[..k]) + [] + Live(bs[k + 1..]) == Live(bs[..k]) + Live(bs[k + 1..]);
    if bs[k].bsz == asz {
      var none := Block(bs[k].ptr + asz, 0, 0, true);
      var after := if k + 1 < |bs| then bs[k + 2..] else [];
      if k + 1 < |bs| {
        NextTile(bs, buffer, buffer + BUFFER_SIZE, k);
        LiveHead(bs[k + 1], bs[k + 2..]);
        assert [bs[k + 1]] + bs[k + 2..] == bs[k + 1..];
      } else {
        assert bs[k + 1..] == [];
      }
      ExactParts(bs, k, sz);
      LiveAt(bs[..k], given, [none] + after);
      LiveHead(none, after);
    } else {
      SplitParts(bs, buffer, k, sz);
      var rest := Block(bs[k].ptr + asz, bs[k].bsz - asz, 0, true);
      LiveAt(bs[..k], given, [rest] + bs[k + 1..]);
      LiveHead(rest, bs[k + 1..]);
    }
  }

  /** A request that succeeds adds exactly the block it returns, with the size asked
      for, to the allocated ones, unless it overwrites one; one that fails changes
      nothing. */
  lemma {:induction false} MallocGives(h: Heap, buffer: nat, sz: nat)
    requires Tiled(h.blocks, buffer)
    ensures var r := MallocResult(h, buffer, sz);
            var live := multiset(Live(AfterMalloc(h, buffer, sz).blocks));
            && (r.None? ==> live == multiset(Live(h.blocks)))
            && (r.Some? && !Overwrites(h.blocks, buffer, sz) ==>
                  live == multiset(Live(h.blocks)) + multiset{Block(r.value, Rounded(sz), sz, false)})
  {
    hide Tiles, Split, Live, Rounded, LosesNext;
    StartedTiles(h.blocks, buffer);
    StartedLive(h.blocks, buffer);
    var bs := Started(h.blocks, buffer);
    var k := FindFit(bs, sz);
    if k < |bs| {
      SplitLive(bs, buffer, k, sz);
    }
  }

  lemma {:induction false} StartedLive(bs: seq<Block>, buffer: nat)
    ensures Live(Started(bs, buffer)) == Live(bs)
  {
    assert [Block(buffer, BUFFER_SIZE, 0, true)][1..] == [];
  }

  /** Freeing takes exactly the block at that address out of the allocated ones. */
  lemma {:induction false} FreeGives(h: Heap, ptr: nat)
    requires CanFree(h, ptr)
    ensures ptr == 0 ==> AfterFree(h, ptr) == h
    ensures ptr != 0 ==>
              exists b: Block :: b.ptr == ptr && b in h.blocks && !b.free
                          && multiset(Live(h.blocks)) == multiset(Live(AfterFree(h, ptr).blocks)) + multiset{b}
  {
    hide Live;
    if ptr != 0 {
      var bs := h.blocks;
      var k := FindPtr(bs, ptr);
      var b := bs[k].(free := true);
      LiveAt(bs[..k], bs[k], bs[k + 1..]);
      LiveAt(bs[..k], b, bs[k + 1..]);
      assert bs[..k] + [bs[k]] + bs[k + 1..] == bs;
      assert bs[..k] + [b] + bs[k + 1..] == bs[k := b];
      assert bs[k].ptr == ptr && bs[k] in h.blocks;
    }
  }

  // ------------------------------------------------------------------
  // Runs

  datatype Op = Malloc(sz: nat) | Free(ptr: nat)

  /** An operation that neither splits an exact fit nor fails an assertion. */
  predicate Proper(h: Heap, buffer: nat, op: Op) {
    match op
    case Malloc(sz) => !ExactFit(h.blocks, buffer, sz)
    case Free(ptr) => CanFree(h, ptr)
  }

  function Do(h: Heap, buffer: nat, op: Op): Heap
    requires Proper(h, buffer, op)
  {
    match op
    case Malloc(sz) => AfterMalloc(h, buffer, sz)
    case Free(ptr) => AfterFree(h, ptr)
  }

  predicate ProperRun(h: Heap, buffer: nat, ops: seq<Op>)
    decreases |ops|
  {
    ops == [] || (Proper(h, buffer, ops[0]) && ProperRun(Do(h, buffer, ops[0]), buffer, ops[1..]))
  }

  function DoAll(h: Heap, buffer: nat, ops: seq<Op>): Heap
    requires ProperRun(h, buffer, ops)
    decreases |ops|
  {
    if ops == [] then h else DoAll(Do(h, buffer, ops[0]), buffer, ops[1..])
  }

  lemma {:induction false} RunKeeps(h: Heap, buffer: nat, ops: seq<Op>)
    requires ProperRun(h, buffer, ops) && Tiled(h.blocks, buffer) && Counted(h)
    ensures var h' := DoAll(h, buffer, ops); Tiled(h'.blocks, buffer) && Counted(h')
    decreases |ops|
  {
    hide Tiled, Counted, AfterMalloc, AfterFree;
    if ops != [] {
      match ops[0] {
        case Malloc(sz) =>
          MallocTiles(h, buffer, sz);
          MallocCounts(h, buffer, sz);
        case Free(ptr) =>
          FreeTiles(h, buffer, ptr);
          FreeCounts(h, ptr);
      }
      RunKeeps(Do(h, buffer, ops[0]), buffer, ops[1..]);
    }
  }

  /** After every run without a split of an exact fit, blocks tile the buffer,
      blocks do not overlap, each user fits in its block, and the active
      statistics are the sums over allocated blocks. */
  lemma {:induction false} RunSafe(buffer: nat, ops: seq<Op>)
    requires ProperRun(EMPTY, buffer, ops)
    ensures var h := DoAll(EMPTY, buffer, ops);
            var bs := h.blocks;
            && Tiled(bs, buffer) && Counted(h)
            && (forall i, j :: 0 <= i < j < |bs| ==> bs[i].ptr + bs[i].bsz <= bs[j].ptr)
            && (forall i :: 0 <= i < |bs| && !bs[i].free ==>
                  buffer <= bs[i].ptr && bs[i].usz <= bs[i].bsz && bs[i].ptr + bs[i].bsz <= buffer + BUFFER_SIZE)
  {
    hide Tiles, Count, Bytes, DoAll;
    RunKeeps(EMPTY, buffer, ops) by {
      NothingCounted();
    }
    var bs := DoAll(EMPTY, buffer, ops).blocks;
    forall i, j | 0 <= i < j < |bs|
      ensures bs[i].ptr + bs[i].bsz <= bs[j].ptr
    {
      TilesDisjoint(bs, buffer, buffer + BUFFER_SIZE, i, j);
    }
    forall i | 0 <= i < |bs| && !bs[i].free
      ensures buffer <= bs[i].ptr && bs[i].usz <= bs[i].bsz && bs[i].ptr + bs[i].bsz <= buffer + BUFFER_SIZE
    {
      TilesAt(bs, buffer, buffer + BUFFER_SIZE, i);
    }
  }

  /** Such a split can be the very first request. */
  lemma {:induction false} ExactFitHappens(buffer: nat)
    ensures ExactFit(EMPTY.blocks, buffer, BUFFER_SIZE)
    ensures !Tiled(AfterMalloc(EMPTY, buffer, BUFFER_SIZE).blocks, buffer)
  {
    hide AfterMalloc, Tiles;
    MallocTiles(EMPTY, buffer, BUFFER_SIZE);
  }

  /** The sizes of the requests of a run that succeed. */
  function Granted(h: Heap, buffer: nat, ops: seq<Op>): seq<nat>
    requires ProperRun(h, buffer, ops)
    decreases |ops|
  {
    if ops == [] then []
    else
      (if ops[0].Malloc? && MallocResult(h, buffer, ops[0].sz).Some? then [ops[0].sz] else [])
      + Granted(Do(h, buffer, ops[0]), buffer, ops[1..])
  }

  function Sum(s: seq<nat>): nat {
    if s == [] then 0 else s[0] + Sum(s[1..])
  }

  lemma {:induction false} SumHead(x: nat, s: seq<nat>)
    ensures Sum([x] + s) == x + Sum(s) && [] + s == s
  {
    assert ([x] + s)[1..] == s;
  }

  /** The total statistics count every request that succeeded, and its size. */
  lemma {:induction false} RunTotals(h: Heap, buffer: nat, ops: seq<Op>)
    requires ProperRun(h, buffer, ops)
    ensures var h' := DoAll(h, buffer, ops);
            && h'.totalCount == h.totalCount + |Granted(h, buffer, ops)|
            && h'.totalBytes == h.totalBytes + Sum(Granted(h, buffer, ops))
    decreases |ops|
  {
    hide Split, FindFit, Started, ExactFit, CanFree, Sum;
    if ops == [] {
      assert Sum([]) == 0 by {
        SumNone();
      }
    } else {
      var h1 := Do(h, buffer, ops[0]);
      RunTotals(h1, buffer, ops[1..]);
      SumHead(if ops[0].Malloc? then ops[0].sz else 0, Granted(h1, buffer, ops[1..]));
    }
  }

  lemma {:induction false} SumNone()
    ensures Sum([]) == 0
  {
  }

  /** Two requests for 16 bytes, the first one freed, and a third: the third
      overwrites the entry of the second, which is still counted. */
  lemma {:induction false} CountersLost(buffer: nat)
    requires buffer > 0
    ensures var ops := [Malloc(16), Malloc(16), Free(buffer)];
            && ProperRun(EMPTY, buffer, ops)
            && var h := DoAll(EMPTY, buffer, ops);
               Tiled(h.blocks, buffer) && Counted(h) && Overwrites(h.blocks, buffer, 16)
               && !Counted(AfterMalloc(h, buffer, 16))
  {
    hide Tiles, Counted, Overwrites, Proper, Do;
    var h1, h2, h3 := Small1(buffer), Small2(buffer), Small3(buffer);
    SmallRun(buffer);
    var ops := [Malloc(16), Malloc(16), Free(buffer)];
    assert ops[1..] == [Malloc(16), Free(buffer)] && ops[1..][1..] == [Free(buffer)] && ops[1..][1..][1..] == [];
    assert DoAll(h3, buffer, []) == h3;
    assert DoAll(h2, buffer, [Free(buffer)]) == h3;
    assert DoAll(h1, buffer, ops[1..]) == h3;
    NothingCounted();
    RunKeeps(EMPTY, buffer, ops);
    MallocCounts(h3, buffer, 16);
  }

  function Small1(buffer: nat): Heap {
    Heap([Block(buffer, 16, 16, false), Block(buffer + 16, BUFFER_SIZE - 16, 0, true)], 1, 16, 1, 16)
  }

  function Small2(buffer: nat): Heap {
    Heap([Block(buffer, 16, 16, false), Block(buffer + 16, 16, 16, false),
          Block(buffer + 32, BUFFER_SIZE - 32, 0, true)], 2, 32, 2, 32)
  }

  function Small3(buffer: nat): Heap {
    Heap([Block(buffer, 16, 16, true), Block(buffer + 16, 16, 16, false),
          Block(buffer + 32, BUFFER_SIZE - 32, 0, true)], 1, 16, 2, 32)
  }

  /** The states of that run. */
  lemma {:induction false} SmallRun(buffer: nat)
    requires buffer > 0
    ensures Proper(EMPTY, buffer, Malloc(16)) && Do(EMPTY, buffer, Malloc(16)) == Small1(buffer)
    ensures Proper(Small1(buffer), buffer, Malloc(16)) && Do(Small1(buffer), buffer, Malloc(16)) == Small2(buffer)
    ensures Proper(Small2(buffer), buffer, Free(buffer)) && Do(Small2(buffer), buffer, Free(buffer)) == Small3(buffer)
    ensures Overwrites(Small3(buffer).blocks, buffer, 16)
  {
    assert Rounded(16) == 16;
    var whole := Started([], buffer);
    assert FindFit(whole, 16) == 0 && whole[1..] == [];
    var b1 := Small1(buffer).blocks;
    assert b1[1..] == [b1[1]] && b1[2..] == [];
    assert FindFit([b1[1]], 16) == 0;
    assert FindFit(b1, 16) == 1;
    assert Assign([], Block(buffer + 32, BUFFER_SIZE - 32, 0, true)) == [Block(buffer + 32, BUFFER_SIZE - 32, 0, true)];
  }

  lemma {:induction false} AssignHas(bs: seq<Block>, b: Block)
    ensures b in Assign(bs, b)
  {
    if bs != [] && b.ptr > bs[0].ptr {
      AssignHas(bs[1..], b);
    }
  }

  /** What an exact fit leads to: a request that is given an entry of size 0
      leaves a free block of 2^64 - 16 bytes. */
  lemma {:induction false} EmptyBlockGrows(h: Heap, buffer: nat, sz: nat)
    requires var bs := Started(h.blocks, buffer);
             FindFit(bs, sz) < |bs| && bs[FindFit(bs, sz)].bsz == 0
    ensures sz == 0 && MallocResult(h, buffer, sz).Some?
    ensures Block(MallocResult(h, buffer, sz).value + 16, SIZE_END - 16, 0, true) in AfterMalloc(h, buffer, sz).blocks
  {
    hide Assign, Started;
    var bs := Started(h.blocks, buffer);
    var k := FindFit(bs, sz);
    assert Rounded(0) == 16;
    AssignHas(bs[k + 1..], Block(bs[k].ptr + 16, SIZE_END - 16, 0, true));
  }

  /** From the start: the whole buffer, then 0 bytes, then any size in range, and
      the second and third request get addresses past the buffer. */
  lemma {:induction false} PastTheBuffer(buffer: nat, sz: nat)
    requires sz <= SIZE_END - 16
    ensures var h1 := AfterMalloc(EMPTY, buffer, BUFFER_SIZE);
            var h2 := AfterMalloc(h1, buffer, 0);
            && MallocResult(h1, buffer, 0) == Some(buffer + BUFFER_SIZE)
            && MallocResult(h2, buffer, sz) == Some(buffer + BUFFER_SIZE + 16)
  {
    var whole := Block(buffer, BUFFER_SIZE, BUFFER_SIZE, false);
    var none := Block(buffer + BUFFER_SIZE, 0, 0, true);
    var h1 := AfterMalloc(EMPTY, buffer, BUFFER_SIZE);
    assert FindFit(Started([], buffer), BUFFER_SIZE) == 0;
    ExactParts(Started([], buffer), 0, BUFFER_SIZE);
    assert h1.blocks == [whole, none];
    assert h1.blocks[1..] == [none];
    assert FindFit([none], 0) == 0;
    assert FindFit(h1.blocks, 0) == 1;
    var h2 := AfterMalloc(h1, buffer, 0);
    var small, huge := Block(none.ptr, 16, 0, false), Block(none.ptr + 16, SIZE_END - 16, 0, true);
    assert Rounded(0) == 16;
    assert h1.blocks[2..] == [] && Assign([], huge) == [huge];
    assert h2.blocks == [whole, small, huge];
    assert h2.blocks[1..] == [small, huge] && h2.blocks[1..][1..] == [huge];
    assert FindFit([huge], sz) == 0;
    assert FindFit(h2.blocks[1..], sz) == 1;
    assert FindFit(h2.blocks, sz) == 2;
  }

  lemma {:induction false} NothingCounted()
    ensures Counted(EMPTY)
  {
  }

  /** First fit by address: every suitable block lies at or after the one chosen. */
  lemma {:induction false} FirstFit(h: Heap, buffer: nat, sz: nat, b: Block)
    requires Tiled(h.blocks, buffer) && b in Started(h.blocks, buffer) && Fits(b, sz)
    ensures MallocResult(h, buffer, sz).Some? && MallocResult(h, buffer, sz).value <= b.ptr
  {
    hide Tiles;
    var bs := Started(h.blocks, buffer);
    StartedTiles(h.blocks, buffer);
    var i :| 0 <= i < |bs| && bs[i] == b;
    var k := FindFit(bs, sz);
    assert k <= i;
    if k < i {
      TilesDisjoint(bs, buffer, buffer + BUFFER_SIZE, k, i);
    }
  }
}
