/**
 The nested walk over conditionals, pipelines, commands and tokens, against the
 flat token stream of the line.
 */
module ShellNesting {
  import opened ShellTokens
  import opened ShellRegions
  import opened ShellTheorems

  datatype Pipeline = Pipeline(commands: seq<Group>, op: Kind)
  datatype Conditional = Conditional(pipelines: seq<Pipeline>, op: Kind)

  // ------------------------------------------------------------------
  // What the parsers yield

  /** The regions that `first_delimited` and `next_delimited` visit inside a region. */
  function RegionsIn(line: string, s: nat, stop: nat, mask: Mask): (rs: seq<Region>)
    requires Inner(line, s, stop) && Eol in mask
    ensures AllInner(line, rs)
  {
    FirstPlaced(line, s, stop, mask);
    WalkIsGroups(line, FirstRegion(line, s, stop, mask), mask);
    Walk(line, FirstRegion(line, s, stop, mask), mask)
  }

  function PipelinesOf(line: string, rs: seq<Region>): seq<Pipeline>
    requires AllInner(line, rs)
  {
    if rs == [] then []
    else
      var commands := Seen(line, RegionsIn(line, rs[0].s, rs[0].stop, COMMAND));
      [Pipeline(commands, NextOp(line, rs[0]))] + PipelinesOf(line, rs[1..])
  }

  function ConditionalsOf(line: string, rs: seq<Region>): seq<Conditional>
    requires AllInner(line, rs)
  {
    if rs == [] then []
    else
      var pipelines := PipelinesOf(line, RegionsIn(line, rs[0].s, rs[0].stop, PIPELINE));
      [Conditional(pipelines, NextOp(line, rs[0]))] + ConditionalsOf(line, rs[1..])
  }

  function WalkedLine(line: string): seq<Conditional> {
    LineInner(line);
    ConditionalsOf(line, RegionsIn(line, SkipSpace(line, 0, |line|), |line|, CONDITIONAL))
  }

  lemma {:induction false} LineInner(line: string)
    ensures var s := SkipSpace(line, 0, |line|);
            Inner(line, s, |line|) && Tokens(line, s, |line|) == Tokens(line, 0, |line|)
  {
    hide TokenAt;
    var s := SkipSpace(line, 0, |line|);
    assert NextToken(line, 0, |line|).s == s;
    StartAgain(line, 0, |line|);
    SkipStart(line, s, |line|);
    TokensSkip(line, 0, |line|);
  }

  // ------------------------------------------------------------------
  // The flat token stream, split three times

  function FlatPipelines(gs: seq<Group>): seq<Pipeline> {
    if gs == [] then []
    else [Pipeline(Groups(gs[0].tokens, COMMAND), gs[0].op)] + FlatPipelines(gs[1..])
  }

  function FlatConditionals(gs: seq<Group>): seq<Conditional> {
    if gs == [] then []
    else [Conditional(FlatPipelines(Groups(gs[0].tokens, PIPELINE)), gs[0].op)] + FlatConditionals(gs[1..])
  }

  function FlatLine(line: string): seq<Conditional> {
    FlatConditionals(Groups(Tokens(line, 0, |line|), CONDITIONAL))
  }

  // ------------------------------------------------------------------
  // What the flat split is, without naming the masks

  /** Every part but the last is followed by one of `ops`; the last by one of them or
      by the end. */
  predicate OpsOk(gs: seq<Group>, ops: set<Kind>) {
    forall i :: 0 <= i < |gs| ==> gs[i].op in ops || (gs[i].op == Eol && i == |gs| - 1)
  }

  predicate NoneIn(ts: seq<Token>, kinds: set<Kind>) {
    forall t :: t in ts ==> t.kind !in kinds
  }

  function KindsOf(ts: seq<Token>): seq<Kind> {
    if ts == [] then [] else [ts[0].kind] + KindsOf(ts[1..])
  }

  function OpKinds(op: Kind): seq<Kind> {
    if op == Eol then [] else [op]
  }

  function GroupKinds(gs: seq<Group>): seq<Kind> {
    if gs == [] then [] else KindsOf(gs[0].tokens) + OpKinds(gs[0].op) + GroupKinds(gs[1..])
  }

  function GroupTokens(gs: seq<Group>): seq<Token> {
    if gs == [] then [] else gs[0].tokens + GroupTokens(gs[1..])
  }

  /** The tokens that are no delimiters. */
  function Others(ts: seq<Token>, mask: Mask): seq<Token> {
    if ts == [] then [] else (if ts[0].kind in mask then [] else [ts[0]]) + Others(ts[1..], mask)
  }

  lemma {:induction false} KindsConcat(a: seq<Token>, b: seq<Token>)
    ensures KindsOf(a + b) == KindsOf(a) + KindsOf(b)
    decreases |a|
  {
    if a == [] {
      assert a + b == b;
    } else {
      assert (a + b)[1..] == a[1..] + b;
      KindsConcat(a[1..], b);
    }
  }

  lemma {:induction false} OthersAll(ts: seq<Token>, mask: Mask)
    requires NoneIn(ts, mask)
    ensures Others(ts, mask) == ts
  {
    if ts != [] {
      assert ts[0] in ts;
      OthersAll(ts[1..], mask);
      assert ts == [ts[0]] + ts[1..];
    }
  }

  lemma {:induction false} OthersSplit(ts: seq<Token>, mask: Mask)
    ensures var k := FirstIn(ts, mask);
            Others(ts, mask) == ts[..k] + if k < |ts| then Others(ts[k + 1..], mask) else []
  {
    hide Others, FirstIn;
    var k := FirstIn(ts, mask);
    HeadNone(ts, mask, {});
    assert mask + {} == mask;
    OthersAll(ts[..k], mask);
    OthersConcat(ts[..k], ts[k..], mask);
    assert ts == ts[..k] + ts[k..];
    OthersStep(ts[k..], mask);
    assert k < |ts| ==> ts[k..][0] == ts[k] && ts[k..][1..] == ts[k + 1..];
  }

  lemma {:induction false} OthersStep(ts: seq<Token>, mask: Mask)
    ensures Others(ts, mask)
         == if ts == [] then [] else if ts[0].kind in mask then Others(ts[1..], mask)
            else [ts[0]] + Others(ts[1..], mask)
  {
  }

  lemma {:induction false} KindsAt(ts: seq<Token>, k: nat)
    requires k < |ts|
    ensures KindsOf(ts) == KindsOf(ts[..k]) + ([ts[k].kind] + KindsOf(ts[k + 1..]))
  {
    var tail := [ts[k]] + ts[k + 1..];
    assert ts == ts[..k] + tail;
    KindsConcat(ts[..k], tail);
    assert tail[1..] == ts[k + 1..];
  }

  lemma {:induction false} NoGroups(mask: Mask)
    ensures Groups([], mask) == [] && GroupKinds([]) == [] && GroupTokens([]) == [] && KindsOf([]) == []
    ensures Others([], mask) == []
  {
  }

  lemma {:induction false} GroupHead(gs: seq<Group>)
    requires gs != []
    ensures GroupKinds(gs) == KindsOf(gs[0].tokens) + OpKinds(gs[0].op) + GroupKinds(gs[1..])
    ensures GroupTokens(gs) == gs[0].tokens + GroupTokens(gs[1..])
  {
    hide KindsOf, OpKinds;
  }

  /** A split loses nothing but the delimiters, which its operators name. */
  lemma {:induction false} GroupsRejoin(ts: seq<Token>, mask: Mask)
    requires NoneIn(ts, {Eol})
    ensures GroupKinds(Groups(ts, mask)) == KindsOf(ts)
    ensures GroupTokens(Groups(ts, mask)) == Others(ts, mask)
    decreases |ts|
  {
    hide Groups, FirstIn, KindsOf, GroupKinds, GroupTokens, Others;
    NoGroups(mask);
    if ts != [] {
      var k := FirstIn(ts, mask);
      var gs := Groups(ts, mask);
      GroupsStep(ts, mask);
      GroupHead(gs);
      OthersSplit(ts, mask);
      if k < |ts| {
        assert ts[k] in ts;
        GroupsRejoin(ts[k + 1..], mask);
        KindsAt(ts, k);
        var a, b, c := KindsOf(ts[..k]), [ts[k].kind], KindsOf(ts[k + 1..]);
        assert a + b + c == a + (b + c);
      } else {
        assert ts[..k] == ts;
        assert KindsOf(ts) + [] + [] == KindsOf(ts);
      }
    }
  }

  /** No delimiter is left inside a part, and the operators are delimiters that the
      tokens contain. */
  lemma {:induction false} GroupsShape(ts: seq<Token>, mask: Mask, absent: set<Kind>)
    requires NoneIn(ts, absent) && Eol in absent
    ensures OpsOk(Groups(ts, mask), mask - absent)
    ensures forall i :: 0 <= i < |Groups(ts, mask)| ==> NoneIn(Groups(ts, mask)[i].tokens, mask + absent)
    decreases |ts|
  {
    hide Groups, FirstIn;
    NoGroups(mask);
    if ts != [] {
      var k := FirstIn(ts, mask);
      var gs := Groups(ts, mask);
      GroupsStep(ts, mask);
      HeadNone(ts, mask, absent);
      if k < |ts| {
        assert ts[k] in ts;
        GroupsShape(ts[k + 1..], mask, absent);
      }
      assert gs == [gs[0]] + gs[1..];
    }
  }

  lemma {:induction false} HeadNone(ts: seq<Token>, mask: Mask, absent: set<Kind>)
    requires NoneIn(ts, absent)
    ensures NoneIn(ts[..FirstIn(ts, mask)], mask + absent)
  {
    var k := FirstIn(ts, mask);
    forall t | t in ts[..k]
      ensures t.kind !in mask + absent
    {
      var i :| 0 <= i < k && ts[i] == t;
    }
  }

  function PipelineKinds(ps: seq<Pipeline>): seq<Kind> {
    if ps == [] then [] else GroupKinds(ps[0].commands) + OpKinds(ps[0].op) + PipelineKinds(ps[1..])
  }

  function LineKinds(cs: seq<Conditional>): seq<Kind> {
    if cs == [] then [] else PipelineKinds(cs[0].pipelines) + OpKinds(cs[0].op) + LineKinds(cs[1..])
  }

  /** The operators of each level, and that none of them is left in a command. */
  predicate PipelinesShape(ps: seq<Pipeline>) {
    forall i :: 0 <= i < |ps| ==>
      && (ps[i].op in {And, Or} || (ps[i].op == Eol && i == |ps| - 1))
      && OpsOk(ps[i].commands, {Pipe})
      && forall j :: 0 <= j < |ps[i].commands| ==>
           NoneIn(ps[i].commands[j].tokens, {Sequence, Background, And, Or, Pipe, Eol})
  }

  predicate LineShape(cs: seq<Conditional>) {
    forall i :: 0 <= i < |cs| ==>
      && (cs[i].op in {Sequence, Background} || (cs[i].op == Eol && i == |cs| - 1))
      && PipelinesShape(cs[i].pipelines)
  }

  predicate PartsFree(gs: seq<Group>, kinds: set<Kind>) {
    forall i :: 0 <= i < |gs| ==> NoneIn(gs[i].tokens, kinds)
  }

  lemma {:induction false} PipelinesAre(gs: seq<Group>)
    requires OpsOk(gs, {And, Or}) && PartsFree(gs, {Sequence, Background, And, Or, Eol})
    ensures PipelineKinds(FlatPipelines(gs)) == GroupKinds(gs)
    ensures PipelinesShape(FlatPipelines(gs)) && |FlatPipelines(gs)| == |gs|
  {
    hide Groups, KindsOf, NoneIn, OpKinds;
    if gs != [] {
      var ts := gs[0].tokens;
      FewerKinds(ts, {Sequence, Background, And, Or, Eol}, {Eol});
      GroupsRejoin(ts, COMMAND);
      GroupsShape(ts, COMMAND, {Sequence, Background, And, Or, Eol});
      assert COMMAND - {Sequence, Background, And, Or, Eol} == {Pipe};
      assert COMMAND + {Sequence, Background, And, Or, Eol} == {Sequence, Background, And, Or, Pipe, Eol};
      TailOk(gs, {And, Or}, {Sequence, Background, And, Or, Eol});
      PipelinesAre(gs[1..]);
      var ps := FlatPipelines(gs);
      assert ps[1..] == FlatPipelines(gs[1..]);
      assert ps == [ps[0]] + ps[1..];
    }
  }

  lemma {:induction false} FewerKinds(ts: seq<Token>, more: set<Kind>, fewer: set<Kind>)
    requires NoneIn(ts, more) && fewer <= more
    ensures NoneIn(ts, fewer)
  {
  }

  lemma {:induction false} TailOk(gs: seq<Group>, ops: set<Kind>, kinds: set<Kind>)
    requires OpsOk(gs, ops) && PartsFree(gs, kinds) && gs != []
    ensures OpsOk(gs[1..], ops) && PartsFree(gs[1..], kinds) && NoneIn(gs[0].tokens, kinds)
    ensures gs[0].op in ops || (gs[0].op == Eol && gs[1..] == [])
  {
    hide NoneIn;
  }

  lemma {:induction false} ConditionalsAre(gs: seq<Group>)
    requires OpsOk(gs, {Sequence, Background}) && PartsFree(gs, {Sequence, Background, Eol})
    ensures LineKinds(FlatConditionals(gs)) == GroupKinds(gs)
    ensures LineShape(FlatConditionals(gs)) && |FlatConditionals(gs)| == |gs|
  {
    hide Groups, KindsOf, NoneIn, OpKinds, PipelinesShape, FlatPipelines, PipelineKinds;
    if gs != [] {
      var ts := gs[0].tokens;
      FewerKinds(ts, {Sequence, Background, Eol}, {Eol});
      GroupsRejoin(ts, PIPELINE);
      GroupsShape(ts, PIPELINE, {Sequence, Background, Eol});
      assert PIPELINE - {Sequence, Background, Eol} == {And, Or};
      assert PIPELINE + {Sequence, Background, Eol} == {Sequence, Background, And, Or, Eol};
      PipelinesAre(Groups(ts, PIPELINE));
      TailOk(gs, {Sequence, Background}, {Sequence, Background, Eol});
      ConditionalsAre(gs[1..]);
      var cs := FlatConditionals(gs);
      assert cs[1..] == FlatConditionals(gs[1..]);
      assert cs == [cs[0]] + cs[1..];
    }
  }

  lemma {:induction false} TokensNoEol(line: string, s: nat, end: nat)
    requires s <= end <= |line|
    ensures NoneIn(Tokens(line, s, end), {Eol})
    decreases end - s
  {
    hide NextToken;
    var t := NextToken(line, s, end);
    if t.kind != Eol {
      TokensNoEol(line, TokEnd(t), end);
    }
  }

  function PipelineTokens(ps: seq<Pipeline>): seq<Token> {
    if ps == [] then [] else GroupTokens(ps[0].commands) + PipelineTokens(ps[1..])
  }

  function LineTokens(cs: seq<Conditional>): seq<Token> {
    if cs == [] then [] else PipelineTokens(cs[0].pipelines) + LineTokens(cs[1..])
  }

  lemma {:induction false} OthersConcat(a: seq<Token>, b: seq<Token>, mask: Mask)
    ensures Others(a + b, mask) == Others(a, mask) + Others(b, mask)
    decreases |a|
  {
    if a == [] {
      assert a + b == b;
    } else {
      assert (a + b)[1..] == a[1..] + b;
      OthersConcat(a[1..], b, mask);
    }
  }

  lemma {:induction false} OthersTwice(ts: seq<Token>, few: Mask, many: Mask)
    requires few <= many
    ensures Others(Others(ts, few), many) == Others(ts, many)
  {
    if ts != [] {
      OthersTwice(ts[1..], few, many);
      var head := if ts[0].kind in few then [] else [ts[0]];
      OthersConcat(head, Others(ts[1..], few), many);
      assert head != [] ==> head[1..] == [];
    }
  }

  lemma {:induction false} PipelineTokensAre(gs: seq<Group>)
    requires PartsFree(gs, {Eol})
    ensures PipelineTokens(FlatPipelines(gs)) == Others(GroupTokens(gs), COMMAND)
  {
    hide Groups, NoneIn, Others;
    if gs == [] {
      NoGroups(COMMAND);
    } else {
      GroupsRejoin(gs[0].tokens, COMMAND);
      OthersConcat(gs[0].tokens, GroupTokens(gs[1..]), COMMAND);
      PipelineTokensAre(gs[1..]);
      assert FlatPipelines(gs)[1..] == FlatPipelines(gs[1..]);
    }
  }

  lemma {:induction false} LineTokensAre(gs: seq<Group>)
    requires PartsFree(gs, {Eol})
    ensures LineTokens(FlatConditionals(gs)) == Others(GroupTokens(gs), COMMAND)
  {
    hide Groups, NoneIn, Others, FlatPipelines, PipelineTokens;
    if gs == [] {
      NoGroups(COMMAND);
    } else {
      var ts := gs[0].tokens;
      GroupsRejoin(ts, PIPELINE);
      GroupsShape(ts, PIPELINE, {Eol});
      AllFree(Groups(ts, PIPELINE));
      PipelineTokensAre(Groups(ts, PIPELINE));
      OthersTwice(ts, PIPELINE, COMMAND);
      OthersConcat(ts, GroupTokens(gs[1..]), COMMAND);
      LineTokensAre(gs[1..]);
      assert FlatConditionals(gs)[1..] == FlatConditionals(gs[1..]);
    }
  }

  lemma {:induction false} AllFree(gs: seq<Group>)
    requires forall i :: 0 <= i < |gs| ==> NoneIn(gs[i].tokens, PIPELINE + {Eol})
    ensures PartsFree(gs, {Eol})
  {
  }

  /** All other tokens are in the commands, in order. */
  lemma {:induction false} FlatLineKeeps(line: string)
    ensures LineTokens(FlatLine(line)) == Others(Tokens(line, 0, |line|), {Sequence, Background, And, Or, Pipe, Eol})
  {
    hide Groups, NoneIn, Others, LineTokens, FlatConditionals, Tokens, GroupTokens;
    var ts := Tokens(line, 0, |line|);
    TokensNoEol(line, 0, |line|);
    GroupsRejoin(ts, CONDITIONAL);
    GroupsShape(ts, CONDITIONAL, {Eol});
    assert CONDITIONAL + {Eol} == CONDITIONAL;
    FreeOfEol(Groups(ts, CONDITIONAL));
    LineTokensAre(Groups(ts, CONDITIONAL));
    OthersTwice(ts, CONDITIONAL, COMMAND);
    assert COMMAND == {Sequence, Background, And, Or, Pipe, Eol};
  }

  lemma {:induction false} FreeOfEol(gs: seq<Group>)
    requires forall i :: 0 <= i < |gs| ==> NoneIn(gs[i].tokens, CONDITIONAL)
    ensures PartsFree(gs, {Eol})
  {
  }

  /** The flat split of a line: conditionals end in `;` or `&`, pipelines in `&&` or
      `||`, commands in `|`, the last of each possibly in nothing; no such token is
      left in a command; and the kinds of all tokens, in order, can be read off. */
  lemma {:induction false} FlatLineIs(line: string)
    ensures LineShape(FlatLine(line))
    ensures LineKinds(FlatLine(line)) == KindsOf(Tokens(line, 0, |line|))
  {
    hide Groups, KindsOf, NoneIn, OpKinds, LineShape, LineKinds, FlatConditionals, Tokens;
    var ts := Tokens(line, 0, |line|);
    TokensNoEol(line, 0, |line|);
    GroupsRejoin(ts, CONDITIONAL);
    GroupsShape(ts, CONDITIONAL, {Eol});
    assert CONDITIONAL - {Eol} == {Sequence, Background};
    assert CONDITIONAL + {Eol} == {Sequence, Background, Eol};
    ConditionalsAre(Groups(ts, CONDITIONAL));
  }

  // ------------------------------------------------------------------
  // Trimming the last token of every command

  predicate PipelinesOk(line: string, ps: seq<Pipeline>) {
    forall i :: 0 <= i < |ps| ==> GroupsOk(line, ps[i].commands)
  }

  predicate ConditionalsOk(line: string, cs: seq<Conditional>) {
    forall i :: 0 <= i < |cs| ==> PipelinesOk(line, cs[i].pipelines)
  }

  function CutPipelines(line: string, ps: seq<Pipeline>): seq<Pipeline>
    requires PipelinesOk(line, ps)
  {
    if ps == [] then [] else [Pipeline(CutGroups(line, ps[0].commands), ps[0].op)] + CutPipelines(line, ps[1..])
  }

  function CutConditionals(line: string, cs: seq<Conditional>): seq<Conditional>
    requires ConditionalsOk(line, cs)
  {
    if cs == [] then []
    else [Conditional(CutPipelines(line, cs[0].pipelines), cs[0].op)] + CutConditionals(line, cs[1..])
  }

  // ------------------------------------------------------------------
  // Splitting a trimmed stream

  lemma {:induction false} CutKinds(line: string, ts: seq<Token>, mask: Mask)
    requires AllOk(line, ts)
    ensures AllOk(line, Cut(line, ts)) && |Cut(line, ts)| == |ts|
    ensures FirstIn(Cut(line, ts), mask) == FirstIn(ts, mask)
    ensures Cut(line, Cut(line, ts)) == Cut(line, ts)
  {
    hide TokenOk, Trim;
    if ts != [] {
      var n := |ts| - 1;
      TrimChanges(line, ts[n]);
      var cs := Cut(line, ts);
      assert cs[..n] == ts[..n];
      forall i | 0 <= i < |ts|
        ensures cs[i].kind == ts[i].kind
      {
      }
      SameFirst(cs, ts, mask);
    }
  }

  lemma {:induction false} SameFirst(a: seq<Token>, b: seq<Token>, mask: Mask)
    requires |a| == |b| && forall i :: 0 <= i < |a| ==> a[i].kind == b[i].kind
    ensures FirstIn(a, mask) == FirstIn(b, mask)
  {
  }

  /** Trimming before a split makes no difference to trimming after it. */
  lemma {:induction false} GroupsOfCut(line: string, ts: seq<Token>, mask: Mask)
    requires AllOk(line, ts)
    ensures AllOk(line, Cut(line, ts))
    ensures GroupsOk(line, Groups(ts, mask)) && GroupsOk(line, Groups(Cut(line, ts), mask))
    ensures CutGroups(line, Groups(Cut(line, ts), mask)) == CutGroups(line, Groups(ts, mask))
    decreases |ts|
  {
    hide TokenOk, Groups, CutGroups, FirstIn, Cut;
    var cs := Cut(line, ts);
    CutKinds(line, ts, mask);
    GroupsAllOk(line, ts, mask);
    GroupsAllOk(line, cs, mask);
    if ts != [] {
      var k := FirstIn(ts, mask);
      GroupsStep(ts, mask);
      GroupsStep(cs, mask);
      CutGroupsCons(line, Groups(ts, mask));
      CutGroupsCons(line, Groups(cs, mask));
      CutSplit(line, ts, k);
      if k < |ts| {
        GroupsOfCut(line, ts[k + 1..], mask);
      }
    }
  }

  /** The trimmed token is the last one, on whichever side of a split it falls. */
  lemma {:induction false} CutSplit(line: string, ts: seq<Token>, k: nat)
    requires AllOk(line, ts) && k <= |ts|
    ensures var cs := Cut(line, ts);
            && |cs| == |ts|
            && AllOk(line, cs) && AllOk(line, cs[..k]) && AllOk(line, ts[..k])
            && Cut(line, cs[..k]) == Cut(line, ts[..k])
            && (k < |ts| ==> cs[k].kind == ts[k].kind && cs[k + 1..] == Cut(line, ts[k + 1..]))
  {
    hide TokenOk, Trim;
    CutKinds(line, ts, {});
    var cs := Cut(line, ts);
    if k < |ts| {
      TrimChanges(line, ts[|ts| - 1]);
      assert cs[..k] == ts[..k];
      if k + 1 < |ts| {
        assert ts[k + 1..][|ts| - k - 2] == ts[|ts| - 1];
        assert cs[k + 1..] == ts[k + 1..|ts| - 1] + [Trim(line, ts[|ts| - 1])];
        assert ts[k + 1..][..|ts| - k - 2] == ts[k + 1..|ts| - 1];
      }
    } else {
      assert cs[..k] == cs && ts[..k] == ts;
    }
  }

  // ------------------------------------------------------------------
  // Theorems

  lemma {:induction false} RegionsShow(line: string, s: nat, stop: nat, mask: Mask)
    requires Inner(line, s, stop) && Eol in mask
    ensures var gs := Groups(Tokens(line, s, stop), mask);
            GroupsOk(line, gs) && Seen(line, RegionsIn(line, s, stop, mask)) == CutGroups(line, gs)
  {
    hide Inner, Groups, CutGroups, Seen, Walk, Tokens;
    FirstPlaced(line, s, stop, mask);
    WalkIsGroups(line, FirstRegion(line, s, stop, mask), mask);
  }

  lemma {:induction false} Lengths(line: string, rs: seq<Region>, gs: seq<Group>)
    requires AllInner(line, rs) && GroupsOk(line, gs)
    ensures Seen(line, rs) == CutGroups(line, gs) ==> (rs == [] <==> gs == [])
  {
    hide Tokens, Cut, NextOp;
  }

  lemma {:induction false} Heads(a: Group, s: seq<Group>, b: Group, t: seq<Group>)
    requires [a] + s == [b] + t
    ensures a == b && s == t
  {
    assert ([a] + s)[0] == a && ([b] + t)[0] == b;
    assert ([a] + s)[1..] == s && ([b] + t)[1..] == t;
  }

  /** Regions that show the groups `gs`, trimmed, contain the sub-groups of `gs`, trimmed. */
  lemma {:induction false} SubRegionsShow(line: string, rs: seq<Region>, gs: seq<Group>, mask: Mask)
    requires Eol in mask && AllInner(line, rs) && GroupsOk(line, gs) && gs != [] && rs != []
    requires Seen(line, rs) == CutGroups(line, gs)
    ensures GroupsOk(line, Groups(gs[0].tokens, mask))
    ensures Seen(line, RegionsIn(line, rs[0].s, rs[0].stop, mask)) == CutGroups(line, Groups(gs[0].tokens, mask))
    ensures NextOp(line, rs[0]) == gs[0].op
    ensures Seen(line, rs[1..]) == CutGroups(line, gs[1..])
  {
    hide Inner, Groups, RegionsIn, Tokens, Cut, TokenOk, Seen, CutGroups, NextOp;
    SeenCons(line, rs[0], rs[1..]);
    assert [rs[0]] + rs[1..] == rs;
    CutGroupsCons(line, gs);
    Heads(Group(Tokens(line, rs[0].s, rs[0].stop), NextOp(line, rs[0])), Seen(line, rs[1..]),
          Group(Cut(line, gs[0].tokens), gs[0].op), CutGroups(line, gs[1..]));
    RegionsShow(line, rs[0].s, rs[0].stop, mask);
    GroupsOfCut(line, gs[0].tokens, mask);
  }

  lemma {:induction false} PipelinesMatch(line: string, rs: seq<Region>, gs: seq<Group>)
    requires AllInner(line, rs) && GroupsOk(line, gs) && Seen(line, rs) == CutGroups(line, gs)
    ensures PipelinesOk(line, FlatPipelines(gs))
    ensures PipelinesOf(line, rs) == CutPipelines(line, FlatPipelines(gs))
    decreases |gs|
  {
    hide Inner, Groups, RegionsIn, Tokens, Cut, TokenOk, Seen, CutGroups, NextOp;
    Lengths(line, rs, gs);
    if gs == [] {
    } else {
      SubRegionsShow(line, rs, gs, COMMAND);
      PipelinesMatch(line, rs[1..], gs[1..]);
      var fs := FlatPipelines(gs);
      assert fs[1..] == FlatPipelines(gs[1..]);
    }
  }

  lemma {:induction false} ConditionalsMatch(line: string, rs: seq<Region>, gs: seq<Group>)
    requires AllInner(line, rs) && GroupsOk(line, gs) && Seen(line, rs) == CutGroups(line, gs)
    ensures ConditionalsOk(line, FlatConditionals(gs))
    ensures ConditionalsOf(line, rs) == CutConditionals(line, FlatConditionals(gs))
    decreases |gs|
  {
    hide Inner, Groups, RegionsIn, Tokens, Cut, TokenOk, Seen, CutGroups, NextOp;
    Lengths(line, rs, gs);
    if gs == [] {
    } else {
      SubRegionsShow(line, rs, gs, PIPELINE);
      PipelinesMatch(line, RegionsIn(line, rs[0].s, rs[0].stop, PIPELINE), Groups(gs[0].tokens, PIPELINE));
      ConditionalsMatch(line, rs[1..], gs[1..]);
      var fs := FlatConditionals(gs);
      assert fs[1..] == FlatConditionals(gs[1..]);
    }
  }

  /** For every line, the nested walk yields the flat token stream split three
      times, except that the last token of each command is trimmed. */
  lemma {:induction false} NestedIsFlatTrimmed(line: string)
    ensures ConditionalsOk(line, FlatLine(line))
    ensures WalkedLine(line) == CutConditionals(line, FlatLine(line))
  {
    hide Inner, Groups, Tokens, Cut, TokenOk, ConditionalsOf, FlatConditionals;
    LineInner(line);
    var s := SkipSpace(line, 0, |line|);
    RegionsShow(line, s, |line|, CONDITIONAL);
    ConditionalsMatch(line, RegionsIn(line, s, |line|, CONDITIONAL), Groups(Tokens(line, 0, |line|), CONDITIONAL));
  }

  // ------------------------------------------------------------------
  // When trimming does nothing

  predicate CleanGroups(line: string, gs: seq<Group>)
    requires GroupsOk(line, gs)
  {
    forall i :: 0 <= i < |gs| ==> gs[i].tokens != [] ==> !Exposed(line, gs[i].tokens[|gs[i].tokens| - 1])
  }

  predicate CleanPipelines(line: string, ps: seq<Pipeline>)
    requires PipelinesOk(line, ps)
  {
    forall i :: 0 <= i < |ps| ==> CleanGroups(line, ps[i].commands)
  }

  /** No command of the flat stream ends in an exposed token. */
  predicate Clean(line: string, cs: seq<Conditional>)
    requires ConditionalsOk(line, cs)
  {
    forall i :: 0 <= i < |cs| ==> CleanPipelines(line, cs[i].pipelines)
  }

  lemma {:induction false} CutGroupsSame(line: string, gs: seq<Group>)
    requires GroupsOk(line, gs)
    ensures CutGroups(line, gs) == gs <==> CleanGroups(line, gs)
  {
    hide TokenOk, Exposed, Trim, CutGroups;
    if gs == [] {
      NothingLeft(line, {});
    } else {
      var ts := gs[0].tokens;
      if ts != [] {
        TrimChanges(line, ts[|ts| - 1]);
        assert Cut(line, ts)[|ts| - 1] == Trim(line, ts[|ts| - 1]);
        assert ts == ts[..|ts| - 1] + [ts[|ts| - 1]];
      }
      CutGroupsSame(line, gs[1..]);
      CutGroupsCons(line, gs);
      assert gs == [gs[0]] + gs[1..];
      assert CleanGroups(line, gs) <==>
             (ts != [] ==> !Exposed(line, ts[|ts| - 1])) && CleanGroups(line, gs[1..]);
    }
  }

  lemma {:induction false} CutPipelinesSame(line: string, ps: seq<Pipeline>)
    requires PipelinesOk(line, ps)
    ensures CutPipelines(line, ps) == ps <==> CleanPipelines(line, ps)
  {
    hide CutGroups, CleanGroups, GroupsOk;
    if ps != [] {
      CutGroupsSame(line, ps[0].commands);
      CutPipelinesSame(line, ps[1..]);
      assert ps == [ps[0]] + ps[1..];
      assert CleanPipelines(line, ps) <==> CleanGroups(line, ps[0].commands) && CleanPipelines(line, ps[1..]);
    }
  }

  lemma {:induction false} CutConditionalsSame(line: string, cs: seq<Conditional>)
    requires ConditionalsOk(line, cs)
    ensures CutConditionals(line, cs) == cs <==> Clean(line, cs)
  {
    hide CutPipelines, CleanPipelines, PipelinesOk;
    if cs != [] {
      CutPipelinesSame(line, cs[0].pipelines);
      CutConditionalsSame(line, cs[1..]);
      assert cs == [cs[0]] + cs[1..];
      assert Clean(line, cs) <==> CleanPipelines(line, cs[0].pipelines) && Clean(line, cs[1..]);
    }
  }

  /** The nested walk agrees with the flat stream exactly when no command ends in
      a token whose final blank is quoted or escaped, a following comment aside. */
  lemma {:induction false} NestedIsFlat(line: string)
    ensures ConditionalsOk(line, FlatLine(line))
    ensures WalkedLine(line) == FlatLine(line) <==> Clean(line, FlatLine(line))
  {
    hide WalkedLine, FlatLine, CutConditionals, Clean, ConditionalsOk;
    NestedIsFlatTrimmed(line);
    CutConditionalsSame(line, FlatLine(line));
  }

  lemma {:induction false} OneWordLine(line: string, t: Token)
    requires Tokens(line, 0, |line|) == [t] && t.kind == Normal
    ensures FlatLine(line) == [Conditional([Pipeline([Group([t], Eol)], Eol)], Eol)]
  {
    hide Tokens;
    var ts := [t];
    assert FirstIn(ts[1..], CONDITIONAL) == FirstIn(ts[1..], PIPELINE) == FirstIn(ts[1..], COMMAND) == 0;
    assert Groups(ts, CONDITIONAL) == [Group(ts, Eol)];
    assert Groups(ts, PIPELINE) == [Group(ts, Eol)];
    assert Groups(ts, COMMAND) == [Group(ts, Eol)];
    var g := [Group(ts, Eol)];
    assert g[1..] == [];
    assert FlatPipelines(g) == [Pipeline(g, Eol)] + FlatPipelines(g[1..]) == [Pipeline(g, Eol)];
    assert FlatConditionals(g) == [Conditional(FlatPipelines(g), Eol)] + FlatConditionals(g[1..]);
    assert FlatConditionals(g) == [Conditional([Pipeline(g, Eol)], Eol)];
  }

  lemma {:induction false} EscapedBlankWord(line: string)
    requires line == ['a', '\\', ' ']
    ensures NextToken(line, 0, |line|) == Token(0, 3, Normal, true)
  {
    assert line[0] == 'a' && line[1] == '\\' && |line| == 3;
    assert Word(line, 3, 3, '\0') == (3, false);
    assert Word(line, 1, 3, '\0') == (3, true);
    assert Word(line, 0, 3, '\0') == (3, true);
    assert SkipBlank(line, 0, 3) == 0 && Digits(line, 0, 3) == 0;
  }

  lemma {:induction false} EscapedBlankToken(line: string)
    requires line == ['a', '\\', ' ']
    ensures Tokens(line, 0, |line|) == [Token(0, 3, Normal, true)]
    ensures TokenOk(line, Token(0, 3, Normal, true)) && Exposed(line, Token(0, 3, Normal, true))
  {
    hide Word, TokenAt, SkipBlank, Digits;
    EscapedBlankWord(line);
    EndOfTokens(line, 3);
    assert Tokens(line, 3, 3) == [];
  }

  /** A line on which they differ: a word that ends in an escaped blank. */
  lemma {:induction false} EscapedBlankIsLost(line: string)
    requires line == ['a', '\\', ' ']
    ensures WalkedLine(line) != FlatLine(line)
  {
    hide WalkedLine, FlatLine, Exposed, TokenOk;
    var t := Token(0, 3, Normal, true);
    EscapedBlankToken(line);
    OneWordLine(line, t);
    NestedIsFlat(line);
    var cs := FlatLine(line);
    assert cs[0].pipelines[0].commands[0].tokens == [t];
    assert CleanPipelines(line, cs[0].pipelines) ==> CleanGroups(line, cs[0].pipelines[0].commands);
  }
}
