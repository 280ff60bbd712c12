/**
 The strided copy of pset5/stridecat61.cc over the unbuffered file functions of
 pset5/io61.cc.
 */
module Stride {
  const SIZE_END := 0x1_0000_0000_0000_0000

  // ------------------------------------------------------------------
  // Files

  class InFile {
    const data: seq<bv8>
    var pos: nat

    constructor (data: seq<bv8>)
      ensures this.data == data && pos == 0
    {
      this.data, pos := data, 0;
    }

    /** `io61_seek` on a regular file */
    method Seek(off: nat)
      modifies this
      ensures pos == off
    {
      pos := off;
    }

    /** `io61_readc`: the next byte, or -1 at end of file */
    method Readc() returns (c: int)
      modifies this
      ensures old(pos) < |data| ==> c == data[old(pos)] as int && pos == old(pos) + 1
      ensures old(pos) >= |data| ==> c == -1 && pos == old(pos)
    {
      if pos < |data| {
        c := data[pos] as int;
        pos := pos + 1;
      } else {
        c := -1;
      }
    }

    /** `io61_read`: up to `sz` bytes, fewer only at end of file */
    method Read(sz: nat) returns (buf: seq<bv8>)
      modifies this
      ensures buf == Piece(data, old(pos), sz)
    {
      var nread := 0;
      buf := [];
      while nread != sz
        invariant nread <= sz && |buf| == nread
        invariant old(pos) <= |data| ==> pos == old(pos) + nread <= |data| && buf == data[old(pos)..pos]
        invariant old(pos) > |data| ==> pos == old(pos) && buf == []
        decreases sz - nread
      {
        var ch := Readc();
        if ch == -1 {
          break;
        }
        buf := buf + [ch as bv8];
        nread := nread + 1;
      }
    }
  }

  /** The bytes of `data` in [pos, pos + sz). */
  function Piece(data: seq<bv8>, pos: nat, sz: nat): seq<bv8> {
    if pos >= |data| then []
    else if pos + sz <= |data| then data[pos..pos + sz]
    else data[pos..]
  }

  class OutFile {
    var data: seq<bv8>

    constructor ()
      ensures data == []
    {
      data := [];
    }

    /** `io61_writec` */
    method Writec(c: bv8)
      modifies this
      ensures data == old(data) + [c]
    {
      data := data + [c];
    }

    /** `io61_write`, to a file that does not fill up */
    method Write(buf: seq<bv8>)
      modifies this
      ensures data == old(data) + buf
    {
      var nwritten := 0;
      while nwritten != |buf|
        invariant nwritten <= |buf| && data == old(data) + buf[..nwritten]
        decreases |buf| - nwritten
      {
        Writec(buf[nwritten]);
        nwritten := nwritten + 1;
      }
      assert buf[..nwritten] == buf;
    }
  }

  // ------------------------------------------------------------------
  // The copy loop

  function Min(a: nat, b: nat): nat {
    if a <= b then a else b
  }

  function Interval(lo: nat, hi: nat): (s: seq<nat>)
    requires lo <= hi
    ensures |s| == hi - lo && forall i :: 0 <= i < |s| ==> s[i] == lo + i
  {
    seq(hi - lo, i => lo + i)
  }

  function NextPos(size: nat, block: nat, stride: nat, pos: nat): nat
    requires stride > 0
  {
    var p := pos + stride;
    if p >= size then p % stride + block else p
  }

  /** The input positions that the loop copies, in order, from `pos` when
      `written` bytes have been written. */
  function Trace(size: nat, block: nat, stride: nat, pos: nat, written: nat): seq<nat>
    requires block > 0 && stride > 0
    decreases size - written
  {
    if written >= size || pos >= size then []
    else
      var n := Min(block, size - pos);
      Interval(pos, pos + n) + Trace(size, block, stride, NextPos(size, block, stride, pos), written + n)
  }

  predicate Inside(order: seq<nat>, size: nat) {
    forall i :: 0 <= i < |order| ==> order[i] < size
  }

  /** The bytes of `data` at the given positions. */
  function Gather(data: seq<bv8>, order: seq<nat>): (r: seq<bv8>)
    requires Inside(order, |data|)
    ensures |r| == |order| && forall i :: 0 <= i < |r| ==> r[i] == data[order[i]]
  {
    seq(|order|, i requires 0 <= i < |order| => data[order[i]])
  }

  lemma {:induction false} TraceInside(size: nat, block: nat, stride: nat, pos: nat, written: nat)
    requires block > 0 && stride > 0
    ensures Inside(Trace(size, block, stride, pos, written), size)
    decreases size - written
  {
    hide NextPos;
    if written < size && pos < size {
      var n := Min(block, size - pos);
      TraceInside(size, block, stride, NextPos(size, block, stride, pos), written + n);
    }
  }

  /** The main loop, with any initial offset and the size of the input file. */
  method StrideCopy(data: seq<bv8>, block: nat, stride: nat, offset: nat) returns (copy: seq<bv8>)
    requires block > 0 && stride > 0 && |data| < SIZE_END
    ensures Inside(Trace(|data|, block, stride, offset, 0), |data|)
    ensures copy == Gather(data, Trace(|data|, block, stride, offset, 0))
  {
    hide NextPos, Trace, Gather, Interval, Piece, Min;
    var inf := new InFile(data);
    var outf := new OutFile();
    var size := |data|;
    var pos: nat := offset;
    var written: nat := 0;
    ghost var all := Trace(size, block, stride, offset, 0);
    ghost var done: seq<nat> := [];
    TraceInside(size, block, stride, offset, 0);
    assert all == done + all;
    assert Gather(data, done) == [];
    while written < size
      invariant fresh(inf) && fresh(outf) && inf.data == data
      invariant all == done + Trace(size, block, stride, pos, written)
      invariant Inside(done, size)
      invariant outf.data == Gather(data, done)
      decreases size - written
    {
      inf.Seek(pos);
      var n := block;
      if pos + n > size {
        n := (size - pos) % SIZE_END;
      }
      ReadsBlock(data, block, pos);
      var buf := inf.Read(n);
      if |buf| == 0 {
        break;
      }
      outf.Write(buf);
      CopyStep(data, block, stride, pos, written, done);
      done := done + Interval(pos, pos + |buf|);
      written := written + |buf|;
      pos := AdvancePos(size, block, stride, pos);
    }
    TraceEnds(size, block, stride, pos, written);
    assert all == done;
    copy := outf.data;
  }

  /** What one turn of the loop reads: a block, cut off at the end of the file. */
  lemma {:induction false} ReadsBlock(data: seq<bv8>, block: nat, pos: nat)
    requires block > 0 && |data| < SIZE_END
    ensures var n := if pos + block > |data| then (|data| - pos) % SIZE_END else block;
            if pos >= |data| then Piece(data, pos, n) == []
            else
              var k := Min(block, |data| - pos);
              0 < k && pos + k <= |data| && Piece(data, pos, n) == data[pos..pos + k]
  {
  }

  lemma {:induction false} TraceEnds(size: nat, block: nat, stride: nat, pos: nat, written: nat)
    requires block > 0 && stride > 0 && (written >= size || pos >= size)
    ensures Trace(size, block, stride, pos, written) == []
  {
  }

  lemma {:induction false} CopyStep(data: seq<bv8>, block: nat, stride: nat, pos: nat, written: nat, done: seq<nat>)
    requires block > 0 && stride > 0 && written < |data| && pos < |data|
    requires Inside(done, |data|)
    ensures var n := Min(block, |data| - pos);
            var step := Interval(pos, pos + n);
            && Inside(done + step, |data|)
            && Gather(data, done + step) == Gather(data, done) + data[pos..pos + n]
            && done + Trace(|data|, block, stride, pos, written)
               == (done + step) + Trace(|data|, block, stride, NextPos(|data|, block, stride, pos), written + n)
  {
    hide NextPos, Trace, Interval, Gather;
    var n := Min(block, |data| - pos);
    var step := Interval(pos, pos + n);
    TraceStep(|data|, block, stride, pos, written);
    assert Gather(data, done + step) == Gather(data, done) + data[pos..pos + n];
  }

  lemma {:induction false} TraceStep(size: nat, block: nat, stride: nat, pos: nat, written: nat)
    requires block > 0 && stride > 0 && written < size && pos < size
    ensures var n := Min(block, size - pos);
            Trace(size, block, stride, pos, written)
            == Interval(pos, pos + n) + Trace(size, block, stride, NextPos(size, block, stride, pos), written + n)
  {
    hide NextPos, Interval;
  }

  method AdvancePos(size: nat, block: nat, stride: nat, pos: nat) returns (next: nat)
    requires stride > 0
    ensures next == NextPos(size, block, stride, pos)
  {
    next := pos + stride;
    if next >= size {
      next := next % stride + block;
    }
  }
}
