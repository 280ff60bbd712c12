/**
 When the strided copy is a permutation, and when two copies cancel out.
 */
module StrideTheorems {
  import opened Wrappers
  import opened Arith
  import opened Stride

  // ------------------------------------------------------------------
  // Listings

  predicate Within(lo: nat, i: nat, hi: nat) {
    lo <= i < hi
  }

  /** The positions from `lo` up to `hi`. */
  function Range(lo: nat, hi: nat): set<nat> {
    set i: nat | i < hi && Within(lo, i, hi)
  }

  function Below(n: nat): set<nat> {
    Range(0, n)
  }

  /** `s` lists every position below `n` exactly once. */
  ghost predicate IsPermutation(s: seq<nat>, n: nat) {
    NoDup(s) && Elems(s) == Below(n)
  }

  lemma {:induction false} Join(a: seq<nat>, b: seq<nat>)
    ensures Elems(a + b) == Elems(a) + Elems(b)
    ensures NoDup(a) && NoDup(b) && Elems(a) !! Elems(b) ==> NoDup(a + b)
  {
    var s := a + b;
    assert forall i :: 0 <= i < |a| ==> s[i] == a[i];
    assert forall i :: 0 <= i < |b| ==> s[|a| + i] == b[i];
    forall x | x in Elems(a) + Elems(b)
      ensures x in Elems(s)
    {
    }
    if NoDup(a) && NoDup(b) && Elems(a) !! Elems(b) {
      forall i, j | 0 <= i < j < |s|
        ensures s[i] != s[j]
      {
        if i < |a| <= j {
          assert a[i] in Elems(a) && b[j - |a|] in Elems(b);
        }
      }
    }
  }

  /** An element on both sides is listed twice. */
  lemma {:induction false} Repeats(a: seq<nat>, b: seq<nat>, x: nat)
    requires x in a && x in b
    ensures !NoDup(a + b)
  {
    var i :| 0 <= i < |a| && a[i] == x;
    var j :| 0 <= j < |b| && b[j] == x;
    var s := a + b;
    assert s[i] == x && s[|a| + j] == x;
  }

  lemma {:induction false} IntervalLists(lo: nat, hi: nat)
    requires lo <= hi
    ensures NoDup(Interval(lo, hi)) && Elems(Interval(lo, hi)) == Range(lo, hi)
    ensures |Range(lo, hi)| == hi - lo
  {
    var s := Interval(lo, hi);
    forall x | x in Range(lo, hi)
      ensures x in Elems(s)
    {
      assert s[x - lo] == x;
    }
    assert Elems(s) == Range(lo, hi);
    RangeCard(lo, hi);
  }

  lemma {:induction false} RangeCard(lo: nat, hi: nat)
    requires lo <= hi
    ensures |Range(lo, hi)| == hi - lo
    decreases hi - lo
  {
    if lo < hi {
      RangeCard(lo, hi - 1);
      assert Range(lo, hi) == Range(lo, hi - 1) + {hi - 1};
    } else {
      assert Range(lo, hi) == {};
    }
  }

  lemma {:induction false} BelowCard(n: nat, s: set<nat>)
    requires s <= Below(n)
    ensures |Below(n)| == n && |s| <= n && (|s| == n ==> s == Below(n))
  {
    RangeCard(0, n);
    SubsetCard(s, Below(n));
  }

  lemma {:induction false} SubsetCard(a: set<nat>, b: set<nat>)
    requires a <= b
    ensures |a| <= |b| && (|a| == |b| ==> a == b)
  {
    assert |b - a| == |b| - |a|;
    if |a| == |b| {
      assert b - a == {};
    }
  }

  // ------------------------------------------------------------------
  // What has been copied before position `pos`

  predicate Copied(block: nat, stride: nat, pos: nat, i: nat)
    requires stride > 0
  {
    i % stride < pos % stride || (i % stride < pos % stride + block && i < pos)
  }

  function Seen(size: nat, block: nat, stride: nat, pos: nat): (r: set<nat>)
    requires stride > 0
    ensures r <= Below(size)
  {
    set i: nat | i < size && Copied(block, stride, pos, i)
  }

  /** The block at `pos` does not reach past the end of its row. */
  predicate InRow(size: nat, block: nat, stride: nat, pos: nat)
    requires stride > 0
  {
    size <= stride || pos % stride + block <= stride
  }

  /** In the row of `pos`, columns and positions move together. */
  lemma {:induction false} SameRow(stride: nat, pos: nat, i: nat)
    requires stride > 0 && pos <= i < pos + stride
    ensures i % stride >= pos % stride <==> i / stride == pos / stride
    ensures i % stride >= pos % stride ==> i - pos == i % stride - pos % stride
    ensures i % stride < pos % stride ==> i - pos == i % stride - pos % stride + stride
  {
    var q, c := pos / stride, pos % stride;
    var r, m := i / stride, i % stride;
    assert pos == q * stride + c && i == r * stride + m;
    assert (r - q) * stride == i - pos - (m - c);
    assert (r - q - 1) * stride == (r - q) * stride - stride;
    if m >= c {
      SmallMultiple(r - q, stride, i - pos - (m - c));
    } else {
      SmallMultiple(r - q - 1, stride, i - pos - (m - c) - stride);
    }
  }

  /** What one block adds to the positions copied. */
  lemma {:induction false} BlockAdds(size: nat, block: nat, stride: nat, pos: nat, i: nat)
    requires block > 0 && stride > 0 && pos < size && i < size && InRow(size, block, stride, pos)
    ensures pos <= i < pos + block ==> !Copied(block, stride, pos, i)
    ensures pos + stride < size ==>
              (Copied(block, stride, pos + stride, i) <==> Copied(block, stride, pos, i) || pos <= i < pos + block)
    ensures pos + stride >= size ==>
              (i % stride < pos % stride + block <==> Copied(block, stride, pos, i) || pos <= i < pos + block)
  {
    AddModulus(pos, stride);
    if size <= stride {
      SmallMod(pos, stride);
      SmallMod(i, stride);
    }
    if pos <= i < pos + stride {
      SameRow(stride, pos, i);
    }
  }

  /** A block is new ... */
  lemma {:induction false} SeenNew(size: nat, block: nat, stride: nat, pos: nat)
    requires block > 0 && stride > 0 && pos < size && InRow(size, block, stride, pos)
    ensures var n := Min(block, size - pos);
            && Seen(size, block, stride, pos) !! Range(pos, pos + n)
            && |Seen(size, block, stride, pos) + Range(pos, pos + n)| == |Seen(size, block, stride, pos)| + n
  {
    hide Copied, InRow;
    var n := Min(block, size - pos);
    RangeCard(pos, pos + n);
    forall i | i in Range(pos, pos + n)
      ensures !Copied(block, stride, pos, i)
    {
      BlockAdds(size, block, stride, pos, i);
    }
  }

  /** ... and with it, what has been copied is what has been copied before the
      next position: further down the column, */
  lemma {:induction false} SeenDown(size: nat, block: nat, stride: nat, pos: nat)
    requires block > 0 && stride > 0 && pos + stride < size && InRow(size, block, stride, pos)
    ensures Seen(size, block, stride, pos + stride)
         == Seen(size, block, stride, pos) + Range(pos, pos + Min(block, size - pos))
  {
    hide Copied, InRow;
    var n := Min(block, size - pos);
    var after, now := Seen(size, block, stride, pos + stride), Seen(size, block, stride, pos) + Range(pos, pos + n);
    forall i: nat
      ensures i in after <==> i in now
    {
      if i < size {
        BlockAdds(size, block, stride, pos, i);
      }
    }
  }

  /** at the top of the next column, */
  lemma {:induction false} SeenAcross(size: nat, block: nat, stride: nat, pos: nat)
    requires block > 0 && stride > 0 && pos < size <= pos + stride && InRow(size, block, stride, pos)
    requires pos % stride + block < stride
    ensures Seen(size, block, stride, pos % stride + block)
         == Seen(size, block, stride, pos) + Range(pos, pos + Min(block, size - pos))
  {
    hide Copied, InRow;
    var n := Min(block, size - pos);
    var after := Seen(size, block, stride, pos % stride + block);
    var now := Seen(size, block, stride, pos) + Range(pos, pos + n);
    forall i: nat
      ensures i in after <==> i in now
    {
      if i < size {
        BlockAdds(size, block, stride, pos, i);
        FirstRow(block, stride, pos % stride + block, i);
      }
    }
  }

  /** or everything, after the last column. */
  lemma {:induction false} SeenAll(size: nat, block: nat, stride: nat, pos: nat)
    requires block > 0 && stride > 0 && pos < size <= pos + stride && InRow(size, block, stride, pos)
    requires pos % stride + block >= stride || pos % stride + block >= size
    ensures Seen(size, block, stride, pos) + Range(pos, pos + Min(block, size - pos)) == Below(size)
  {
    hide Copied, InRow;
    var n := Min(block, size - pos);
    var now := Seen(size, block, stride, pos) + Range(pos, pos + n);
    forall i: nat
      ensures i in now <==> i in Below(size)
    {
      if i < size {
        BlockAdds(size, block, stride, pos, i);
        ModBelow(i, size, stride);
      }
    }
  }

  /** At the top of a column, just the columns before it have been copied. */
  lemma {:induction false} FirstRow(block: nat, stride: nat, c: nat, i: nat)
    requires stride > 0
    ensures c < stride ==> (Copied(block, stride, c, i) <==> i % stride < c)
    ensures i < stride ==> i % stride == i
    ensures i % stride < stride
  {
    if c < stride {
      SmallMod(c, stride);
    }
    if i < stride {
      SmallMod(i, stride);
    }
  }

  lemma {:induction false} ModBelow(i: nat, size: nat, stride: nat)
    requires stride > 0 && i < size
    ensures i % stride < size && i % stride < stride
  {
    if i < stride {
      SmallMod(i, stride);
    }
  }

  // ------------------------------------------------------------------
  // Permutation

  /** `s` lists the positions below `n` that are not in `seen`, once each. */
  ghost predicate ListsRest(s: seq<nat>, n: nat, seen: set<nat>) {
    NoDup(s) && Elems(s) == Below(n) - seen
  }

  predicate Aligned(size: nat, block: nat, stride: nat, pos: nat)
    requires block > 0 && stride > 0
  {
    size <= stride || (stride % block == 0 && pos % stride % block == 0)
  }

  lemma {:induction false} AlignedInRow(size: nat, block: nat, stride: nat, pos: nat)
    requires block > 0 && stride > 0 && Aligned(size, block, stride, pos)
    ensures InRow(size, block, stride, pos)
  {
    if size > stride {
      Fits(pos % stride, block, stride);
    }
  }

  /** Multiples of `block` below a multiple of `block` leave room for a block. */
  lemma {:induction false} Fits(c: nat, block: nat, stride: nat)
    requires block > 0 && c < stride && c % block == 0 && stride % block == 0
    ensures c + block <= stride
  {
    var j, k := c / block, stride / block;
    assert c == j * block && stride == k * block;
    assert (k - j) * block == stride - c;
    if k - j >= 1 {
      AtLeastOne(k - j, block);
    } else {
      assert (j - k) * block == c - stride;
      NotNegative(j - k, block);
    }
  }

  lemma {:induction false} AlignedNext(size: nat, block: nat, stride: nat, pos: nat)
    requires block > 0 && stride > 0 && Aligned(size, block, stride, pos)
    ensures Aligned(size, block, stride, pos + stride)
    ensures pos % stride + block < stride ==> Aligned(size, block, stride, pos % stride + block)
    ensures NextPos(size, block, stride, pos) == if pos + stride < size then pos + stride else pos % stride + block
  {
    AddModulus(pos, stride);
    AddModulus(pos % stride, block);
    if pos % stride + block < stride {
      SmallMod(pos % stride + block, stride);
    }
  }

  lemma {:induction false} Complete(size: nat, block: nat, stride: nat, pos: nat, written: nat)
    requires block > 0 && stride > 0 && pos < size && Aligned(size, block, stride, pos)
    requires written == |Seen(size, block, stride, pos)| < size
    ensures ListsRest(Trace(size, block, stride, pos, written), size, Seen(size, block, stride, pos))
    decreases size - written
  {
    hide Seen, NextPos, Aligned, NoDup, Elems, Trace, Range, Interval;
    AlignedInRow(size, block, stride, pos);
    SeenNew(size, block, stride, pos);
    NextSeen(size, block, stride, pos);
    TraceStep(size, block, stride, pos, written);
    var n := Min(block, size - pos);
    var now := Seen(size, block, stride, pos) + Range(pos, pos + n);
    var next := NextPos(size, block, stride, pos);
    var rest := Trace(size, block, stride, next, written + n);
    BlockInside(size, pos, n);
    BelowCard(size, now);
    if |now| == size {
      TraceEnds(size, block, stride, next, written + n);
      Nothing();
    } else {
      Complete(size, block, stride, next, written + n);
    }
    IntervalLists(pos, pos + n);
    Join(Interval(pos, pos + n), rest);
  }

  lemma {:induction false} BlockInside(size: nat, pos: nat, n: nat)
    requires pos + n <= size
    ensures Range(pos, pos + n) <= Below(size)
  {
  }

  /** Unless everything has been copied, the loop goes on at an aligned position
      before which exactly the positions copied so far lie. */
  lemma {:induction false} NextSeen(size: nat, block: nat, stride: nat, pos: nat)
    requires block > 0 && stride > 0 && pos < size && Aligned(size, block, stride, pos)
    ensures var now := Seen(size, block, stride, pos) + Range(pos, pos + Min(block, size - pos));
            var next := NextPos(size, block, stride, pos);
            now != Below(size) ==>
              next < size && Aligned(size, block, stride, next) && Seen(size, block, stride, next) == now
  {
    hide Seen, NextPos, Aligned, InRow, Range;
    AlignedInRow(size, block, stride, pos);
    AlignedNext(size, block, stride, pos);
    if pos + stride < size {
      SeenDown(size, block, stride, pos);
    } else if pos % stride + block >= stride || pos % stride + block >= size {
      SeenAll(size, block, stride, pos);
    } else {
      SeenAcross(size, block, stride, pos);
    }
  }

  lemma {:induction false} Nothing()
    ensures NoDup([]) && Elems([]) == {}
  {
  }

  /** The exact condition, on the options and the size of the file. */
  predicate Permutes(size: nat, block: nat, stride: nat)
    requires block > 0
  {
    size <= stride || size <= block || stride % block == 0
  }

  lemma {:induction false} GoodStride(size: nat, block: nat, stride: nat)
    requires block > 0 && stride > 0 && Permutes(size, block, stride)
    ensures IsPermutation(Trace(size, block, stride, 0, 0), size)
  {
    hide NextPos, NoDup;
    var all := Trace(size, block, stride, 0, 0);
    if size == 0 {
      Nothing();
    } else if size <= block {
      IntervalLists(0, size);
      assert Trace(size, block, stride, NextPos(size, block, stride, 0), size) == [];
      assert all == Interval(0, size);
    } else {
      NothingSeen(size, block, stride);
      Complete(size, block, stride, 0, 0);
    }
  }

  lemma {:induction false} NothingSeen(size: nat, block: nat, stride: nat)
    requires block > 0 && stride > 0
    ensures Seen(size, block, stride, 0) == {}
    ensures 0 % stride == 0
    ensures 0 % block == 0
  {
    SmallMod(0, stride);
    SmallMod(0, block);
  }

  // ------------------------------------------------------------------
  // No permutation otherwise

  /** A later column has not been copied yet. */
  lemma {:induction false} NotYet(size: nat, block: nat, stride: nat, pos: nat, target: nat)
    requires stride > 0 && target < stride && target < size
    requires pos % stride + block <= target || pos == target
    ensures target !in Seen(size, block, stride, pos)
    ensures |Seen(size, block, stride, pos)| < size
  {
    SmallMod(target, stride);
    BelowCard(size, Seen(size, block, stride, pos));
  }

  /** As long as blocks stay in their rows, the loop gets to the top of column
      `target` having copied the columns before it. */
  lemma {:induction false} Reach(size: nat, block: nat, stride: nat, pos: nat, written: nat, target: nat)
      returns (pre: seq<nat>)
    requires block > 0 && 0 < stride < size && pos < size && target < stride && target % block == 0
    requires pos % stride % block == 0 && pos % stride < target
    requires written == |Seen(size, block, stride, pos)| < size
    ensures Trace(size, block, stride, pos, written)
         == pre + Trace(size, block, stride, target, |Seen(size, block, stride, target)|)
    ensures Elems(pre) + Seen(size, block, stride, pos) == Seen(size, block, stride, target)
    decreases size - written
  {
    hide Seen, NextPos, NoDup, Elems, Trace, Range, Interval;
    var c := pos % stride;
    var n := Min(block, size - pos);
    Fits(c, block, target);
    SeenNew(size, block, stride, pos);
    TraceStep(size, block, stride, pos, written);
    AddModulus(pos, stride);
    AddModulus(c, block);
    IntervalLists(pos, pos + n);
    if pos + stride < size {
      SeenDown(size, block, stride, pos);
      NextIs(size, block, stride, pos);
      NotYet(size, block, stride, pos + stride, target);
      var more := Reach(size, block, stride, pos + stride, written + n, target);
      pre := Interval(pos, pos + n) + more;
      Join(Interval(pos, pos + n), more);
    } else {
      SeenAcross(size, block, stride, pos);
      NextIs(size, block, stride, pos);
      SmallMod(c + block, stride);
      if c + block == target {
        pre := Interval(pos, pos + n);
      } else {
        Fits(c + block, block, target);
        NotYet(size, block, stride, c + block, target);
        var more := Reach(size, block, stride, c + block, written + n, target);
        pre := Interval(pos, pos + n) + more;
        Join(Interval(pos, pos + n), more);
      }
    }
  }

  lemma {:induction false} NextIs(size: nat, block: nat, stride: nat, pos: nat)
    requires stride > 0
    ensures NextPos(size, block, stride, pos) == if pos + stride < size then pos + stride else pos % stride + block
  {
    AddModulus(pos, stride);
  }

  lemma {:induction false} InInterval(lo: nat, hi: nat, x: nat)
    requires lo <= x < hi
    ensures x in Interval(lo, hi)
  {
    assert Interval(lo, hi)[x - lo] == x;
  }

  /** The last column of blocks runs into the next row. */
  lemma {:induction false} BadStride(size: nat, block: nat, stride: nat)
    requires block > 0 && stride > 0 && !Permutes(size, block, stride)
    ensures !NoDup(Trace(size, block, stride, 0, 0))
  {
    hide Seen, NextPos, NoDup, Trace, Interval;
    NothingSeen(size, block, stride);
    NextIs(size, block, stride, 0);
    TraceStep(size, block, stride, 0, 0);
    if block > stride {
      TraceStep(size, block, stride, stride, block);
      InInterval(0, block, stride);
      InInterval(stride, stride + Min(block, size - stride), stride);
      Repeats(Interval(0, block), Trace(size, block, stride, stride, block), stride);
    } else {
      var target := LastColumn(block, stride);
      NothingCard(size, block, stride);
      var pre := Reach(size, block, stride, 0, 0, target);
      NotYet(size, block, stride, target, target);
      var w := |Seen(size, block, stride, target)|;
      TraceStep(size, block, stride, target, w);
      InInterval(target, target + Min(block, size - target), stride);
      FirstOfRow(size, block, stride, target);
      assert stride in Elems(pre);
      Repeats(pre, Trace(size, block, stride, target, w), stride);
    }
  }

  lemma {:induction false} NothingCard(size: nat, block: nat, stride: nat)
    requires block > 0 && stride > 0
    ensures |Seen(size, block, stride, 0)| == 0
  {
    NothingSeen(size, block, stride);
  }

  lemma {:induction false} LastColumn(block: nat, stride: nat) returns (target: nat)
    requires 0 < block <= stride && stride % block != 0
    ensures 0 < target < stride < target + block && target % block == 0
  {
    var k := stride / block;
    assert stride == k * block + stride % block;
    target := k * block;
    RowColumn(k, 0, block);
    if k > 0 {
      AtLeastOne(k, block);
    }
  }

  lemma {:induction false} FirstOfRow(size: nat, block: nat, stride: nat, target: nat)
    requires 0 < target < stride < size
    ensures stride in Seen(size, block, stride, target)
  {
    AddModulus(0, stride);
    SmallMod(0, stride);
    SmallMod(target, stride);
  }

  /** From any other position the loop never comes back to position 0. */
  lemma {:induction false} NeverZero(size: nat, block: nat, stride: nat, pos: nat, written: nat)
    requires block > 0 && stride > 0 && pos > 0
    ensures 0 !in Trace(size, block, stride, pos, written)
    decreases size - written
  {
    hide NextPos, Trace, Interval;
    if written < size && pos < size {
      var n := Min(block, size - pos);
      var next := NextPos(size, block, stride, pos);
      TraceStep(size, block, stride, pos, written);
      NextIs(size, block, stride, pos);
      NeverZero(size, block, stride, next, written + n);
    } else {
      TraceEnds(size, block, stride, pos, written);
    }
  }

  /** The strided copy is a permutation of the file exactly when the file is empty,
      or the offset is 0 and the file is no longer than a row or a block, or blocks
      divide the row. */
  lemma {:induction false} StrideIsPermutation(size: nat, block: nat, stride: nat, offset: nat)
    requires block > 0 && stride > 0
    ensures IsPermutation(Trace(size, block, stride, offset, 0), size) <==>
              size == 0 || (offset == 0 && Permutes(size, block, stride))
  {
    hide Trace, NoDup;
    if size == 0 {
      TraceEnds(size, block, stride, offset, 0);
      Nothing();
      assert Below(0) == {};
    } else if offset > 0 {
      NeverZero(size, block, stride, offset, 0);
      assert 0 in Below(size);
    } else if Permutes(size, block, stride) {
      GoodStride(size, block, stride);
    } else {
      BadStride(size, block, stride);
    }
  }

  // ------------------------------------------------------------------
  // What the copy holds

  /** A sequence without its `k`-th element */
  function Without(s: seq<nat>, k: nat): seq<nat>
    requires k < |s|
  {
    s[..k] + s[k + 1..]
  }

  /** A permutation of n without its largest number is one of n - 1. */
  lemma {:induction false} DropLargest(s: seq<nat>, n: nat, k: nat)
    requires IsPermutation(s, n) && k < |s| && s[k] == n - 1
    ensures IsPermutation(Without(s, k), n - 1) && Inside(Without(s, k), n - 1)
  {
    var r := Without(s, k);
    assert forall i :: 0 <= i < |s| ==> s[i] in Elems(s);
    forall x | x in Below(n - 1)
      ensures x in Elems(r)
    {
      assert x in Elems(s);
      var i :| 0 <= i < |s| && s[i] == x;
      assert r[if i < k then i else i - 1] == x;
    }
  }

  lemma {:induction false} Members(s: seq<nat>, n: nat)
    requires IsPermutation(s, n)
    ensures Inside(s, n)
    ensures n == 0 ==> s == []
    ensures n > 0 ==> n - 1 in s
  {
    assert forall i :: 0 <= i < |s| ==> s[i] in Elems(s);
    if s != [] {
      assert s[0] in Elems(s);
    }
    if n > 0 {
      assert n - 1 in Below(n);
    }
  }

  /** The last byte apart, gathering reads only the bytes before it. */
  lemma {:induction false} GatherParts(data: seq<bv8>, order: seq<nat>, k: nat)
    requires data != [] && Inside(order, |data|) && k < |order| && order[k] == |data| - 1
    requires Inside(Without(order, k), |data| - 1)
    ensures var d, x := data[..|data| - 1], data[|data| - 1];
            var g := Gather(d, Without(order, k));
            k <= |g| && Gather(data, order) == g[..k] + [x] + g[k..]
  {
    hide Gather;
    var d, x := data[..|data| - 1], data[|data| - 1];
    var r := Without(order, k);
    var g := Gather(d, r);
    forall i | 0 <= i < |g|
      ensures g[i] == Gather(data, order)[if i < k then i else i + 1]
    {
      assert r[i] == order[if i < k then i else i + 1];
    }
  }

  /** Bytes gathered in the order of a permutation are the same bytes, as often. */
  lemma {:induction false} GatherPermutes(data: seq<bv8>, order: seq<nat>)
    requires IsPermutation(order, |data|)
    ensures Inside(order, |data|)
    ensures multiset(Gather(data, order)) == multiset(data)
    decreases |data|
  {
    hide IsPermutation, Gather, Without, Inside;
    var n := |data|;
    Members(order, n);
    if n > 0 {
      var k :| 0 <= k < |order| && order[k] == n - 1;
      DropLargest(order, n, k);
      GatherPermutes(data[..n - 1], Without(order, k));
      GatherParts(data, order, k);
      var g := Gather(data[..n - 1], Without(order, k));
      assert g == g[..k] + g[k..];
      assert data == data[..n - 1] + [data[n - 1]];
    }
  }

  /** The copy, when the parameters are good: every byte of the input, once. */
  method CopyKeepsBytes(data: seq<bv8>, block: nat, stride: nat) returns (copy: seq<bv8>)
    requires block > 0 && stride > 0 && |data| < SIZE_END && Permutes(|data|, block, stride)
    ensures multiset(copy) == multiset(data)
  {
    hide Trace, Gather, IsPermutation;
    copy := StrideCopy(data, block, stride, 0);
    GoodStride(|data|, block, stride);
    GatherPermutes(data, Trace(|data|, block, stride, 0, 0));
  }

  // ------------------------------------------------------------------
  // With blocks of one byte the copy transposes a matrix

  /** The position copied at step `k` of a copy with stride `width`, of a file of
      `height` rows: column by column. */
  function Transposed(width: nat, height: nat, k: nat): nat
    requires height > 0
  {
    k % height * width + k / height
  }

  /** Row `r` of column `c` is copied at step `c * height + r`. */
  lemma {:induction false} CellAt(width: nat, height: nat, c: nat, r: nat)
    requires r < height
    ensures Transposed(width, height, c * height + r) == r * width + c
  {
    RowColumn(c, r, height);
  }

  lemma {:induction false} CellInside(width: nat, height: nat, c: nat, r: nat)
    requires c < width && r < height
    ensures r * width + c < width * height
    ensures r * width + c + width < width * height <==> r + 1 < height
  {
    assert (height - r) * width == width * height - r * width;
    AtLeastOne(height - r, width);
    if r + 1 < height {
      assert (height - r - 1) * width == (height - r) * width - width;
      AtLeastOne(height - r - 1, width);
    } else {
      assert (height - r) * width == width;
    }
  }

  /** The step after row `r` of column `c`. */
  lemma {:induction false} CellNext(width: nat, height: nat, c: nat, r: nat)
    requires c < width && r < height
    ensures NextPos(width * height, 1, width, r * width + c) ==
            if r + 1 < height then (r + 1) * width + c else c + 1
  {
    hide NextPos;
    NextIs(width * height, 1, width, r * width + c);
    RowColumn(r, c, width);
    CellInside(width, height, c, r);
    assert (r + 1) * width == r * width + width;
  }

  /** A step, as a column and a row. */
  lemma {:induction false} CellOf(width: nat, height: nat, k: nat) returns (c: nat, r: nat)
    requires height > 0 && k < width * height
    ensures c < width && r < height && k == c * height + r
  {
    c, r := k / height, k % height;
    assert height * width == width * height;
    Arith.Below(k, height, width);
  }

  lemma {:induction false} TransposedStep(width: nat, height: nat, k: nat)
    requires width > 0 && height > 0 && k < width * height
    ensures Transposed(width, height, k) < width * height
    ensures NextPos(width * height, 1, width, Transposed(width, height, k)) == Transposed(width, height, k + 1)
  {
    hide Transposed, NextPos;
    var c, r := CellOf(width, height, k);
    CellAt(width, height, c, r);
    CellInside(width, height, c, r);
    CellNext(width, height, c, r);
    if r + 1 < height {
      CellAt(width, height, c, r + 1);
    } else {
      assert (c + 1) * height == c * height + height;
      CellAt(width, height, c + 1, 0);
    }
  }

  lemma {:induction false} TraceIsTransposed(width: nat, height: nat, k: nat)
    requires width > 0 && height > 0 && k <= width * height
    ensures var trace := Trace(width * height, 1, width, Transposed(width, height, k), k);
            && |trace| == width * height - k
            && forall i :: 0 <= i < |trace| ==> trace[i] == Transposed(width, height, k + i)
    decreases width * height - k
  {
    hide Transposed, NextPos, Trace;
    var size := width * height;
    var pos := Transposed(width, height, k);
    if k == size {
      TraceEnds(size, 1, width, pos, k);
    } else {
      TransposedStep(width, height, k);
      TraceStep(size, 1, width, pos, k);
      TraceIsTransposed(width, height, k + 1);
      var trace := Trace(size, 1, width, pos, k);
      var rest := Trace(size, 1, width, Transposed(width, height, k + 1), k + 1);
      assert trace == [pos] + rest;
      forall i | 0 <= i < |trace|
        ensures trace[i] == Transposed(width, height, k + i)
      {
        if i > 0 {
          assert trace[i] == rest[i - 1] == Transposed(width, height, k + 1 + (i - 1));
        }
      }
    }
  }

  /** Transposing twice is the identity on positions. */
  lemma {:induction false} TransposeBack(width: nat, height: nat, j: nat)
    requires width > 0 && height > 0 && j < width * height
    ensures Transposed(height, width, j) < width * height
    ensures Transposed(width, height, Transposed(height, width, j)) == j
  {
    hide Transposed;
    assert height * width == width * height;
    var r, c := CellOf(height, width, j);
    CellAt(height, width, r, c);
    CellInside(height, width, r, c);
    CellAt(width, height, c, r);
  }

  lemma {:induction false} TraceFromStart(width: nat, height: nat)
    requires width > 0 && height > 0
    ensures var trace := Trace(width * height, 1, width, 0, 0);
            && |trace| == width * height
            && forall i :: 0 <= i < |trace| ==> trace[i] == Transposed(width, height, i)
  {
    hide Trace;
    SmallMod(0, height);
    assert Transposed(width, height, 0) == 0;
    TraceIsTransposed(width, height, 0);
  }

  /** A copy with stride `width` followed by one with stride `height` restores a
      file of `width * height` bytes. */
  method CopyTwice(data: seq<bv8>, width: nat, height: nat) returns (copy: seq<bv8>)
    requires width > 0 && height > 0 && |data| == width * height < SIZE_END
    ensures copy == data
  {
    hide Trace, Transposed;
    var once := StrideCopy(data, 1, width, 0);
    TraceFromStart(width, height);
    var twice := StrideCopy(once, 1, height, 0);
    assert height * width == width * height;
    TraceFromStart(height, width);
    forall j | 0 <= j < |data|
      ensures twice[j] == data[j]
    {
      TransposeBack(width, height, j);
    }
    copy := twice;
  }
}
