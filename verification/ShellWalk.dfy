/**
 The nested loops that a shell writes over the parsers of pset4/sh61.hh, from
 `begin` to `end()` at each level.
 */
module ShellWalk {
  import opened ShellTokens
  import opened ShellRegions
  import opened ShellTheorems
  import opened ShellNesting
  import opened ShellText

  lemma {:induction false} TokensUnfold(line: string, p: nat, end: nat)
    requires p <= end <= |line|
    ensures var t := NextToken(line, p, end);
            Tokens(line, p, end) == if t.s == end then [] else [t] + Tokens(line, TokEnd(t), end)
  {
    hide NextToken;
  }

  /** From `token_begin()` to `token_end()`. */
  method VisitTokens(line: string, s: nat, stop: nat) returns (ts: seq<Token>)
    requires s <= stop <= |line|
    ensures ts == Tokens(line, s, stop)
  {
    hide NextToken, Tokens, KindOfText, EndsWell;
    var it := new Tokenizer(line, s, stop);
    ghost var from := s;
    ts := [];
    TokensUnfold(line, s, stop);
    while it.s != stop
      invariant it.line == line && it.end == stop && it.Valid() && from <= stop
      invariant it.Cur() == NextToken(line, from, stop)
      invariant Tokens(line, s, stop) == ts + Tokens(line, from, stop)
      invariant it.s == stop ==> Tokens(line, from, stop) == []
      decreases stop - from
    {
      TokensUnfold(line, from, stop);
      from := it.s + it.len;
      TokensUnfold(line, from, stop);
      ts := ts + [it.Cur()];
      it.Advance();
    }
  }

  /** The texts of the tokens of a region, as `str()` gives them: in a line without
      NUL characters, a token is overrun exactly when the region splits an escape
      at its end. */
  method VisitWords(line: string, s: nat, stop: nat) returns (ws: seq<Text>)
    requires s <= stop <= |line|
    ensures var ts := Tokens(line, s, stop);
            && |ws| == |ts|
            && forall i :: 0 <= i < |ts| ==>
                 && TokEnd(ts[i]) <= stop && ws[i] == TextOf(line, ts[i])
                 && (NulFree(line) ==> (ws[i].Overrun? <==> SplitsEscape(line, ts[i], stop)))
  {
    hide NextToken, TextOf, SplitsEscape, Tokens, KindOfText, EndsWell;
    ghost var ts := Tokens(line, s, stop);
    var it := new Tokenizer(line, s, stop);
    ghost var from := s;
    ws := [];
    assert ts[0..] == ts;
    TokensUnfold(line, s, stop);
    while it.s != stop
      invariant it.line == line && it.end == stop && it.Valid() && from <= stop
      invariant it.Cur() == NextToken(line, from, stop)
      invariant |ws| <= |ts| && ts[|ws|..] == Tokens(line, from, stop)
      invariant it.s == stop ==> |ws| == |ts|
      invariant forall i :: 0 <= i < |ws| ==>
                  && TokEnd(ts[i]) <= stop && ws[i] == TextOf(line, ts[i])
                  && (NulFree(line) ==> (ws[i].Overrun? <==> SplitsEscape(line, ts[i], stop)))
      decreases stop - from
    {
      StartAgain(line, from, stop);
      TokensUnfold(line, from, stop);
      assert ts[|ws|] == it.Cur();
      assert ts[|ws|..][1..] == ts[|ws| + 1..];
      from := it.s + it.len;
      TokensUnfold(line, from, stop);
      var w := it.Str();
      ws := ws + [w];
      it.Advance();
    }
  }

  /** What is left at the start of a level is all of it. */
  lemma {:induction false} Enter(line: string, s: nat, stop: nat, mask: Mask)
    requires Inner(line, s, stop) && Eol in mask
    ensures var r := FirstRegion(line, s, stop, mask);
            && Placed(line, r, mask) && r.end == stop && Delimited(line, r, mask)
            && RegionsIn(line, s, stop, mask) == Walk(line, r, mask)
  {
    hide Placed, Delimited, Walk, FirstRegion, SkipSpace;
    FirstPlaced(line, s, stop, mask);
    PlacedDelimited(line, FirstRegion(line, s, stop, mask), mask);
  }

  /** One turn of the loop of a level. */
  lemma {:induction false} Turn(line: string, r: Region, mask: Mask)
    requires Eol in mask && Placed(line, r, mask)
    ensures Delimited(line, r, mask) && AllInner(line, Walk(line, r, mask))
    ensures AtEnd(r) ==> Walk(line, r, mask) == []
    ensures !AtEnd(r) ==>
              var r' := NextRegion(line, r, mask);
              && Inner(line, r.s, r.stop)
              && Placed(line, r', mask) && Delimited(line, r', mask) && r'.end == r.end && r.s < r'.s <= r.end
              && AllInner(line, Walk(line, r', mask))
              && Walk(line, r, mask)[1..] == Walk(line, r', mask)
              && Walk(line, r, mask) != [] && Walk(line, r, mask)[0] == r
  {
    hide Inner, TrimBack, ScanTo, NextToken, NextRegion;
    PlacedDelimited(line, r, mask);
    WalkIsGroups(line, r, mask);
    if !AtEnd(r) {
      RegionShows(line, r, mask);
      NextPlaced(line, r, mask);
      Progress(line, r, mask);
      WalkIsGroups(line, NextRegion(line, r, mask), mask);
    }
  }

  /** The commands of a pipeline, with the tokens of each and the operator after it. */
  method VisitCommands(p: Parser) returns (gs: seq<Group>)
    requires p.Valid() && Inner(p.line, p.s, p.stop)
    ensures gs == Seen(p.line, RegionsIn(p.line, p.s, p.stop, COMMAND))
  {
    hide Inner, Placed, Delimited, Walk, RegionsIn, FirstRegion, NextRegion, NextOp, Tokens, Seen;
    var line := p.line;
    var it := p.FirstDelimited(COMMAND);
    Enter(line, p.s, p.stop, COMMAND);
    Turn(line, it.Here(), COMMAND);
    gs := [];
    while !AtEnd(it.Here())
      invariant fresh(it) && it.line == line && it.end == p.stop && it.Valid() && Placed(line, it.Here(), COMMAND)
      invariant Delimited(line, it.Here(), COMMAND) && AllInner(line, Walk(line, it.Here(), COMMAND))
      invariant Seen(line, RegionsIn(line, p.s, p.stop, COMMAND)) == gs + Seen(line, Walk(line, it.Here(), COMMAND))
      decreases it.end - it.s
    {
      Turn(line, it.Here(), COMMAND);
      SeenHead(line, Walk(line, it.Here(), COMMAND));
      var ts := VisitTokens(line, it.s, it.stop);
      var op := it.NextOperator();
      gs := gs + [Group(ts, op)];
      it.NextDelimited(COMMAND);
    }
    Turn(line, it.Here(), COMMAND);
    NothingLeft(line, COMMAND);
  }

  lemma {:induction false} SeenHead(line: string, rs: seq<Region>)
    requires AllInner(line, rs) && rs != []
    ensures Seen(line, rs) == [Group(Tokens(line, rs[0].s, rs[0].stop), NextOp(line, rs[0]))] + Seen(line, rs[1..])
  {
    hide Inner, Tokens, NextOp;
  }

  /** The pipelines of a conditional. */
  method VisitPipelines(p: Parser) returns (ps: seq<Pipeline>)
    requires p.Valid() && Inner(p.line, p.s, p.stop)
    ensures ps == PipelinesOf(p.line, RegionsIn(p.line, p.s, p.stop, PIPELINE))
  {
    hide Inner, Placed, Delimited, Walk, RegionsIn, FirstRegion, NextRegion, NextOp, Seen, PipelinesOf;
    var line := p.line;
    var it := p.FirstDelimited(PIPELINE);
    Enter(line, p.s, p.stop, PIPELINE);
    Turn(line, it.Here(), PIPELINE);
    ps := [];
    while !AtEnd(it.Here())
      invariant fresh(it) && it.line == line && it.end == p.stop && it.Valid() && Placed(line, it.Here(), PIPELINE)
      invariant Delimited(line, it.Here(), PIPELINE) && AllInner(line, Walk(line, it.Here(), PIPELINE))
      invariant PipelinesOf(line, RegionsIn(line, p.s, p.stop, PIPELINE))
             == ps + PipelinesOf(line, Walk(line, it.Here(), PIPELINE))
      decreases it.end - it.s
    {
      Turn(line, it.Here(), PIPELINE);
      PipelinesHead(line, Walk(line, it.Here(), PIPELINE));
      var gs := VisitCommands(it);
      var op := it.NextOperator();
      ps := ps + [Pipeline(gs, op)];
      it.NextDelimited(PIPELINE);
    }
    Turn(line, it.Here(), PIPELINE);
    NoPipelines(line);
  }

  lemma {:induction false} PipelinesHead(line: string, rs: seq<Region>)
    requires AllInner(line, rs) && rs != []
    ensures PipelinesOf(line, rs)
         == [Pipeline(Seen(line, RegionsIn(line, rs[0].s, rs[0].stop, COMMAND)), NextOp(line, rs[0]))]
            + PipelinesOf(line, rs[1..])
  {
    hide Inner, RegionsIn, Seen, NextOp;
  }

  lemma {:induction false} NoPipelines(line: string)
    ensures PipelinesOf(line, []) == [] && ConditionalsOf(line, []) == []
  {
  }

  lemma {:induction false} ConditionalsHead(line: string, rs: seq<Region>)
    requires AllInner(line, rs) && rs != []
    ensures ConditionalsOf(line, rs)
         == [Conditional(PipelinesOf(line, RegionsIn(line, rs[0].s, rs[0].stop, PIPELINE)), NextOp(line, rs[0]))]
            + ConditionalsOf(line, rs[1..])
  {
    hide Inner, RegionsIn, PipelinesOf, NextOp;
  }

  /** The conditionals of a command line.  The walk ends, and yields the flat token
      stream of the line, split three times, with the last token of each command
      trimmed; trimming matters exactly when the line is not clean. */
  method VisitLine(line: string) returns (cs: seq<Conditional>)
    ensures ConditionalsOk(line, FlatLine(line))
    ensures cs == CutConditionals(line, FlatLine(line))
    ensures cs == FlatLine(line) <==> Clean(line, FlatLine(line))
    // `str()` is defined on all the tokens exactly when no trimming cuts an escape
    ensures NulFree(line) ==> (LineText(line, cs) <==> LineUncut(line, FlatLine(line)))
  {
    hide Inner, Placed, Delimited, Walk, RegionsIn, FirstRegion, NextRegion, NextOp, PipelinesOf,
         ConditionalsOf, FlatLine, CutConditionals, Clean, ConditionalsOk, LineText, LineUncut;
    var p := new Parser(line, 0, |line|, |line|);
    LineInner(line);
    var it := p.FirstDelimited(CONDITIONAL);
    Enter(line, p.s, p.stop, CONDITIONAL);
    Turn(line, it.Here(), CONDITIONAL);
    cs := [];
    while !AtEnd(it.Here())
      invariant fresh(it) && it.line == line && it.end == |line| && it.Valid() && Placed(line, it.Here(), CONDITIONAL)
      invariant Delimited(line, it.Here(), CONDITIONAL) && AllInner(line, Walk(line, it.Here(), CONDITIONAL))
      invariant WalkedLine(line) == cs + ConditionalsOf(line, Walk(line, it.Here(), CONDITIONAL))
      decreases it.end - it.s
    {
      Turn(line, it.Here(), CONDITIONAL);
      ConditionalsHead(line, Walk(line, it.Here(), CONDITIONAL));
      var ps := VisitPipelines(it);
      var op := it.NextOperator();
      cs := cs + [Conditional(ps, op)];
      it.NextDelimited(CONDITIONAL);
    }
    Turn(line, it.Here(), CONDITIONAL);
    NoPipelines(line);
    NestedIsFlatTrimmed(line);
    NestedIsFlat(line);
    if NulFree(line) {
      WalkedText(line);
    }
  }
}
