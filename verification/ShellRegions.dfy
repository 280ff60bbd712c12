/**
 The region parsers of the shell (pset4/helpers.cc, pset4/sh61.hh).  A parser
 delimits a region of the line by tokenizing the enclosing region, and its
 sub-parsers tokenize that region again.  The theorems relate all of this to one
 tokenization of the whole line.
 */
module ShellRegions {
  import opened ShellTokens

  type Mask = set<Kind>

  const CONDITIONAL: Mask := {Sequence, Eol, Background}
  const PIPELINE: Mask := {Sequence, Eol, Background, And, Or}
  const COMMAND: Mask := {Sequence, Eol, Background, And, Or, Pipe}

  /** Drop the blanks at the end of [s, d). */
  function TrimBack(line: string, s: nat, d: nat): (e: nat)
    requires s <= d <= |line|
    ensures s <= e <= d
    ensures forall i :: e <= i < d ==> IsSpace(line[i])
    ensures e > s ==> !IsSpace(line[e - 1])
    decreases d
  {
    if d > s && IsSpace(line[d - 1]) then TrimBack(line, s, d - 1) else d
  }

  /** Where the first token of a kind in `mask` starts, or the end of the region. */
  function ScanTo(line: string, s: nat, end: nat, mask: Mask): (d: nat)
    requires s <= end <= |line| && Eol in mask
    ensures s <= d <= end
    decreases end - s
  {
    var t := NextToken(line, s, end);
    if t.kind in mask then t.s else ScanTo(line, TokEnd(t), end, mask)
  }

  /** A parser: the region [s, stop) of a line, inside one that ends at `end`. */
  datatype Region = Region(s: nat, stop: nat, end: nat)

  predicate Fits(line: string, r: Region) {
    r.s <= r.stop <= r.end <= |line|
  }

  /** `end()` of the enclosing parser has been reached. */
  predicate AtEnd(r: Region) {
    r.s == r.end && r.stop == r.end
  }

  function FirstRegion(line: string, s: nat, stop: nat, mask: Mask): Region
    requires s <= stop <= |line| && Eol in mask
  {
    var e := TrimBack(line, s, ScanTo(line, s, stop, mask));
    Region(SkipSpace(line, s, e), e, stop)
  }

  function NextRegion(line: string, r: Region, mask: Mask): Region
    requires Fits(line, r) && Eol in mask
  {
    var t := NextToken(line, r.stop, r.end);
    var s := if t.kind in mask then NextToken(line, TokEnd(t), r.end).s else t.s;
    Region(s, TrimBack(line, s, ScanTo(line, s, r.end, mask)), r.end)
  }

  function NextOp(line: string, r: Region): Kind
    requires Fits(line, r)
  {
    NextToken(line, r.stop, r.end).kind
  }

  // ------------------------------------------------------------------
  // The parser

  class Parser {
    const line: string
    var s: nat
    var stop: nat
    const end: nat

    predicate Valid()
      reads this
    {
      Fits(line, Here())
    }

    function Here(): Region
      reads this
    {
      Region(s, stop, end)
    }

    constructor (line: string, first: nat, stop: nat, last: nat)
      requires first <= stop <= last <= |line|
      ensures this.line == line && Valid() && Here() == Region(SkipSpace(line, first, stop), stop, last)
    {
      this.line, this.stop, this.end := line, stop, last;
      s := first;
      new;
      s := SkipShellSpace(line, first, stop);
    }

    /** `next_op` */
    method NextOperator() returns (k: Kind)
      requires Valid()
      ensures k == NextOp(line, Here())
    {
      var it := new Tokenizer(line, stop, end);
      k := it.kind;
    }

    /** `first_delimited` */
    method FirstDelimited(mask: Mask) returns (p: Parser)
      requires Valid() && Eol in mask
      ensures fresh(p) && p.line == line && p.Valid() && p.Here() == FirstRegion(line, s, stop, mask)
    {
      var it := new Tokenizer(line, s, stop);
      var e := ScanAndTrim(it, mask, s, s);
      p := new Parser(line, s, e, stop);
    }

    /** `next_delimited` */
    method NextDelimited(mask: Mask)
      requires Valid() && Eol in mask
      modifies this
      ensures Valid() && Here() == NextRegion(line, old(Here()), mask)
    {
      hide NextToken, ScanTo, TrimBack, KindOfText, EndsWell;
      var it := new Tokenizer(line, stop, end);
      StartAgain(line, stop, end);
      if it.kind != Other && it.kind in mask {
        StartAgain(line, it.s + it.len, end);
        it.Advance();
      }
      s := it.s;
      stop := ScanAndTrim(it, mask, s, s);
    }
  }

  /** The two loops shared by `first_delimited` and `next_delimited`: advance to a
      delimiter, then step back over blanks. */
  method ScanAndTrim(it: Tokenizer, mask: Mask, s: nat, ghost from0: nat) returns (e: nat)
    requires it.Valid() && s <= it.s && from0 <= it.end && Eol in mask
    requires it.Cur() == NextToken(it.line, from0, it.end)
    requires ScanTo(it.line, from0, it.end, mask) == ScanTo(it.line, s, it.end, mask)
    modifies it
    ensures e == TrimBack(it.line, s, ScanTo(it.line, s, it.end, mask))
  {
    hide NextToken, KindOfText, EndsWell;
    ghost var from := from0;
    while it.kind != Other && it.kind !in mask
      invariant it.Valid() && s <= it.s && from <= it.end
      invariant it.Cur() == NextToken(it.line, from, it.end)
      invariant ScanTo(it.line, from, it.end, mask) == ScanTo(it.line, s, it.end, mask)
      decreases it.end - from
    {
      from := it.s + it.len;
      it.Advance();
    }
    e := it.s;
    while e > s && IsSpace(it.line[e - 1])
      invariant s <= e <= it.s
      invariant TrimBack(it.line, s, e) == TrimBack(it.line, s, it.s)
    {
      e := e - 1;
    }
  }

  /** A token is found again from its own start. */
  lemma {:induction false} StartAgain(line: string, s: nat, end: nat)
    requires s <= end <= |line|
    ensures var t := NextToken(line, s, end); NextToken(line, t.s, end) == t
  {
  }
}
