/**
 The text of tokens: `str()` stays inside every token of a whole line, and a
 line built by escaping every character of some words reads back as those words.
 */
module ShellText {
  import opened ShellTokens
  import opened ShellRegions
  import opened ShellTheorems
  import opened ShellNesting

  /** In a region of a line without NUL characters, `str()` of a token is its
      text exactly when the region does not split an escape at its end. */
  lemma {:induction false} TextDefined(line: string, s: nat, end: nat)
    requires s <= end <= |line| && NulFree(line)
    ensures var t := NextToken(line, s, end);
            TextOf(line, t).Text? <==> !SplitsEscape(line, t, end)
    // only the last token of a region, at a backslash
    ensures var t := NextToken(line, s, end);
            SplitsEscape(line, t, end) ==> TokEnd(t) == end && line[end - 1] == '\\'
  {
    hide NextToken, TextOf, SplitsEscape;
    var t := NextToken(line, s, end);
    StartAgain(line, s, end);
    OverrunIff(line, t, end);
    if SplitsEscape(line, t, end) {
      SplitIsLast(line, t, end);
    }
  }

  lemma {:induction false} DigitsInWord(line: string, s: nat, end: nat)
    requires s <= end <= |line|
    ensures Word(line, s, end, '\0') == Word(line, Digits(line, s, end), end, '\0')
    decreases end - s
  {
    if s < end && IsDigit(line[s]) {
      DigitsInWord(line, s + 1, end);
    }
  }

  lemma {:induction false} SplitIsLast(line: string, t: Token, end: nat)
    requires t.s <= end <= |line| && NextToken(line, t.s, end) == t && SplitsEscape(line, t, end)
    ensures TokEnd(t) == end && t.s < end && line[end - 1] == '\\'
  {
    hide Word, Digits, OpenBackslash;
    OpenEnds(line, t.s, end, '\0');
    DigitsInWord(line, t.s, end);
  }

  // ------------------------------------------------------------------
  // The words of a walked command line

  /** `t` is a token of the flat stream of the line. */
  predicate IsFlat(line: string, t: Token) {
    StartsToken(line, t.s) && TokenAt(line, t.s, |line|) == t
  }

  predicate AllFlat(line: string, ts: seq<Token>) {
    forall t :: t in ts ==> IsFlat(line, t)
  }

  predicate HasText(line: string, t: Token) {
    TokEnd(t) <= |line| && TextOf(line, t).Text?
  }

  predicate AllText(line: string, ts: seq<Token>) {
    forall t :: t in ts ==> HasText(line, t)
  }

  /** Trimming the flat token `t` cuts an escaped blank off a quoted word. */
  predicate CutsEscape(line: string, t: Token)
    requires TokenOk(line, t)
  {
    Exposed(line, t) && SplitsEscape(line, Trim(line, t), TrimBack(line, t.s, TokEnd(t)))
  }

  lemma {:induction false} TokensFlat(line: string, s: nat)
    requires s <= |line|
    ensures AllFlat(line, Tokens(line, s, |line|))
    decreases |line| - s
  {
    hide TokenAt, NextToken;
    var t := NextToken(line, s, |line|);
    BlanksBefore(line, s, |line|);
    if t.kind != Eol {
      TokensFlat(line, TokEnd(t));
    }
  }

  lemma {:induction false} FlatIsNext(line: string, t: Token)
    requires IsFlat(line, t)
    ensures NextToken(line, t.s, |line|) == t
  {
    hide TokenAt;
  }

  lemma {:induction false} TrimIsNext(line: string, t: Token)
    requires TokenOk(line, t) && Exposed(line, t)
    ensures var e := TrimBack(line, t.s, TokEnd(t));
            t.s < e && NextToken(line, t.s, e) == Trim(line, t) && Trim(line, t).s == t.s
  {
    hide TokenAt, CommentAfter;
    TrimInside(line, t);
  }

  /** A walked token has a text exactly when trimming did not cut an escape. */
  lemma {:induction false} TrimmedText(line: string, t: Token)
    requires NulFree(line) && TokenOk(line, t) && IsFlat(line, t)
    ensures HasText(line, t)
    ensures HasText(line, Trim(line, t)) <==> !CutsEscape(line, t)
  {
    hide TokenAt, NextToken, TextOf, TrimBack, Exposed, OpenBackslash;
    FlatIsNext(line, t);
    OverrunIff(line, t, |line|);
    if Exposed(line, t) {
      TrimIsNext(line, t);
      OverrunIff(line, Trim(line, t), TrimBack(line, t.s, TokEnd(t)));
    }
  }

  predicate LastCut(line: string, ts: seq<Token>)
    requires AllOk(line, ts)
  {
    ts != [] && CutsEscape(line, ts[|ts| - 1])
  }

  /** Of a walked command, only the last word can be without a text. */
  lemma {:induction false} CommandText(line: string, ts: seq<Token>)
    requires NulFree(line) && AllOk(line, ts) && AllFlat(line, ts)
    ensures AllText(line, Cut(line, ts)) <==> !LastCut(line, ts)
  {
    hide TokenOk, IsFlat, HasText, CutsEscape, Trim;
    if ts != [] {
      var n := |ts| - 1;
      forall t | t in ts
        ensures HasText(line, t)
      {
        TrimmedText(line, t);
      }
      TrimmedText(line, ts[n]);
      assert Cut(line, ts)[n] == Trim(line, ts[n]);
      forall t | t in Cut(line, ts)
        ensures t == Trim(line, ts[n]) || t in ts
      {
      }
    }
  }

  predicate GroupsText(line: string, gs: seq<Group>) {
    forall i :: 0 <= i < |gs| ==> AllText(line, gs[i].tokens)
  }

  predicate PipelinesText(line: string, ps: seq<Pipeline>) {
    forall i :: 0 <= i < |ps| ==> GroupsText(line, ps[i].commands)
  }

  /** `str()` is defined on every token of every command. */
  predicate LineText(line: string, cs: seq<Conditional>) {
    forall i :: 0 <= i < |cs| ==> PipelinesText(line, cs[i].pipelines)
  }

  predicate GroupsUncut(line: string, gs: seq<Group>)
    requires GroupsOk(line, gs)
  {
    forall i :: 0 <= i < |gs| ==> !LastCut(line, gs[i].tokens)
  }

  predicate PipelinesUncut(line: string, ps: seq<Pipeline>)
    requires PipelinesOk(line, ps)
  {
    forall i :: 0 <= i < |ps| ==> GroupsUncut(line, ps[i].commands)
  }

  /** No command of the flat stream ends in a quoted word whose last character is
      an escaped blank, a following comment aside. */
  predicate LineUncut(line: string, cs: seq<Conditional>)
    requires ConditionalsOk(line, cs)
  {
    forall i :: 0 <= i < |cs| ==> PipelinesUncut(line, cs[i].pipelines)
  }

  predicate GroupsFlat(line: string, gs: seq<Group>) {
    forall i :: 0 <= i < |gs| ==> AllFlat(line, gs[i].tokens)
  }

  predicate PipelinesFlat(line: string, ps: seq<Pipeline>) {
    forall i :: 0 <= i < |ps| ==> GroupsFlat(line, ps[i].commands)
  }

  predicate ConditionalsFlat(line: string, cs: seq<Conditional>) {
    forall i :: 0 <= i < |cs| ==> PipelinesFlat(line, cs[i].pipelines)
  }

  lemma {:induction false} SplitFlat(line: string, ts: seq<Token>, mask: Mask)
    requires AllFlat(line, ts)
    ensures GroupsFlat(line, Groups(ts, mask))
    decreases |ts|
  {
    hide IsFlat, FirstIn, Groups;
    if ts == [] {
      NothingLeft(line, mask);
    } else {
      var k := FirstIn(ts, mask);
      GroupsStep(ts, mask);
      if k < |ts| {
        SplitFlat(line, ts[k + 1..], mask);
      } else {
        NothingLeft(line, mask);
      }
      var gs := Groups(ts, mask);
      assert gs == [gs[0]] + gs[1..];
    }
  }

  lemma {:induction false} PipelinesAreFlat(line: string, gs: seq<Group>)
    requires GroupsFlat(line, gs)
    ensures PipelinesFlat(line, FlatPipelines(gs))
  {
    hide AllFlat, Groups, GroupsFlat;
    if gs != [] {
      HeadFlat(line, gs);
      SplitFlat(line, gs[0].tokens, COMMAND);
      PipelinesAreFlat(line, gs[1..]);
    }
  }

  lemma {:induction false} HeadFlat(line: string, gs: seq<Group>)
    requires GroupsFlat(line, gs) && gs != []
    ensures AllFlat(line, gs[0].tokens) && GroupsFlat(line, gs[1..])
  {
    hide AllFlat;
  }

  lemma {:induction false} ConditionalsAreFlat(line: string, gs: seq<Group>)
    requires GroupsFlat(line, gs)
    ensures ConditionalsFlat(line, FlatConditionals(gs))
  {
    hide AllFlat, Groups, GroupsFlat, FlatPipelines, PipelinesFlat;
    if gs != [] {
      HeadFlat(line, gs);
      SplitFlat(line, gs[0].tokens, PIPELINE);
      PipelinesAreFlat(line, Groups(gs[0].tokens, PIPELINE));
      ConditionalsAreFlat(line, gs[1..]);
    }
  }

  lemma {:induction false} GroupsHaveText(line: string, gs: seq<Group>)
    requires NulFree(line) && GroupsOk(line, gs) && GroupsFlat(line, gs)
    ensures GroupsText(line, CutGroups(line, gs)) <==> GroupsUncut(line, gs)
  {
    hide TokenOk, IsFlat, HasText, CutsEscape, Cut, AllText, LastCut;
    if gs != [] {
      CommandText(line, gs[0].tokens);
      GroupsHaveText(line, gs[1..]);
      var cs := CutGroups(line, gs);
      assert cs[1..] == CutGroups(line, gs[1..]);
      assert GroupsText(line, cs) <==> AllText(line, cs[0].tokens) && GroupsText(line, cs[1..]);
      assert GroupsUncut(line, gs) <==> !LastCut(line, gs[0].tokens) && GroupsUncut(line, gs[1..]);
    }
  }

  lemma {:induction false} PipelinesHaveText(line: string, ps: seq<Pipeline>)
    requires NulFree(line) && PipelinesOk(line, ps) && PipelinesFlat(line, ps)
    ensures PipelinesText(line, CutPipelines(line, ps)) <==> PipelinesUncut(line, ps)
  {
    hide GroupsOk, GroupsFlat, GroupsText, GroupsUncut, CutGroups;
    if ps != [] {
      GroupsHaveText(line, ps[0].commands);
      PipelinesHaveText(line, ps[1..]);
      var cs := CutPipelines(line, ps);
      assert cs[1..] == CutPipelines(line, ps[1..]);
      assert PipelinesText(line, cs) <==> GroupsText(line, cs[0].commands) && PipelinesText(line, cs[1..]);
      assert PipelinesUncut(line, ps) <==> GroupsUncut(line, ps[0].commands) && PipelinesUncut(line, ps[1..]);
    }
  }

  lemma {:induction false} ConditionalsHaveText(line: string, ps: seq<Conditional>)
    requires NulFree(line) && ConditionalsOk(line, ps) && ConditionalsFlat(line, ps)
    ensures LineText(line, CutConditionals(line, ps)) <==> LineUncut(line, ps)
  {
    hide PipelinesOk, PipelinesFlat, PipelinesText, PipelinesUncut, CutPipelines;
    if ps != [] {
      PipelinesHaveText(line, ps[0].pipelines);
      ConditionalsHaveText(line, ps[1..]);
      var cs := CutConditionals(line, ps);
      assert cs[1..] == CutConditionals(line, ps[1..]);
      assert LineText(line, cs) <==> PipelinesText(line, cs[0].pipelines) && LineText(line, cs[1..]);
      assert LineUncut(line, ps) <==> PipelinesUncut(line, ps[0].pipelines) && LineUncut(line, ps[1..]);
    }
  }

  /** `str()` is defined on every token that the nested walk of a NUL-free line
      yields exactly when no trimming cuts an escape. */
  lemma {:induction false} WalkedText(line: string)
    requires NulFree(line)
    ensures ConditionalsOk(line, FlatLine(line))
    ensures LineText(line, WalkedLine(line)) <==> LineUncut(line, FlatLine(line))
  {
    hide NulFree, ConditionalsOk, ConditionalsFlat, LineText, LineUncut, WalkedLine, CutConditionals, FlatConditionals,
         Groups, Tokens, GroupsFlat, AllFlat;
    NestedIsFlatTrimmed(line);
    TokensFlat(line, 0);
    SplitFlat(line, Tokens(line, 0, |line|), CONDITIONAL);
    ConditionalsAreFlat(line, Groups(Tokens(line, 0, |line|), CONDITIONAL));
    ConditionalsHaveText(line, FlatLine(line));
  }

  /** A clean line has no such command. */
  lemma {:induction false} CleanIsUncut(line: string)
    ensures ConditionalsOk(line, FlatLine(line))
    ensures Clean(line, FlatLine(line)) ==> LineUncut(line, FlatLine(line))
  {
    hide WalkedLine, FlatLine, TokenOk, Exposed;
    NestedIsFlatTrimmed(line);
  }

  /** The line `"a"\` and a blank. */
  predicate IsWitness(line: string) {
    |line| == 5 && line[0] == '\"' && line[1] == 'a' && line[2] == '\"' && line[3] == '\\' && line[4] == ' '
  }

  lemma {:induction false} WitnessCut(line: string)
    requires IsWitness(line)
    ensures NulFree(line) && StartsToken(line, 0) && TokenAt(line, 0, 4) == Token(0, 4, Normal, true)
    ensures NextToken(line, 0, 4) == Token(0, 4, Normal, true)
  {
    assert Word(line, 4, 4, '\0') == (4, false);
    assert Word(line, 3, 4, '\0') == (4, false);
    assert Word(line, 2, 4, '\"') == (4, false);
    assert Word(line, 1, 4, '\"') == (4, false);
    assert Word(line, 0, 4, '\0') == (4, true);
    assert Digits(line, 0, 4) == 0 && SkipBlank(line, 0, 4) == 0;
  }

  lemma {:induction false} WitnessOpen(line: string)
    requires IsWitness(line)
    ensures OpenBackslash(line, 0, 4, '\0')
  {
    assert OpenBackslash(line, 3, 4, '\0');
    assert OpenBackslash(line, 2, 4, '\"');
    assert OpenBackslash(line, 1, 4, '\"');
  }

  lemma {:induction false} WitnessWhole(line: string)
    requires IsWitness(line)
    ensures StartsToken(line, 0) && TokenAt(line, 0, 5) == Token(0, 5, Normal, true)
    ensures NextToken(line, 0, 5) == Token(0, 5, Normal, true)
    ensures Tokens(line, 0, 5) == [Token(0, 5, Normal, true)]
  {
    assert Word(line, 5, 5, '\0') == (5, false);
    assert Word(line, 3, 5, '\0') == (5, true);
    assert Word(line, 2, 5, '\"') == (5, true);
    assert Word(line, 1, 5, '\"').0 == 5;
    assert Word(line, 0, 5, '\0') == (5, true);
    assert Digits(line, 0, 5) == 0 && SkipBlank(line, 0, 5) == 0;
    EndOfTokens(line, 5);
    assert Tokens(line, 5, 5) == [];
  }

  lemma {:induction false} WitnessRegion(line: string)
    requires IsWitness(line)
    ensures FirstRegion(line, 0, 5, COMMAND) == Region(0, 4, 5)
    ensures TokenOk(line, Token(0, 5, Normal, true)) && CutsEscape(line, Token(0, 5, Normal, true))
  {
    hide Word, TokenAt, NextToken, OpenBackslash, Digits;
    WitnessCut(line);
    WitnessOpen(line);
    WitnessWhole(line);
    EndOfTokens(line, 5);
    assert ScanTo(line, 5, 5, COMMAND) == 5;
    assert ScanTo(line, 0, 5, COMMAND) == 5;
    assert TrimBack(line, 0, 4) == 4;
    assert TrimBack(line, 0, 5) == 4;
  }

  /** There, the only word is cut after the backslash, and `str()` overruns it. */
  lemma {:induction false} EscapedBlankOverruns(line: string)
    requires line == ['\"', 'a', '\"', '\\', ' ']
    ensures FirstRegion(line, 0, 5, COMMAND) == Region(0, 4, 5)
    ensures NextToken(line, 0, 4) == Token(0, 4, Normal, true) && TextOf(line, NextToken(line, 0, 4)) == Overrun
    ensures !LineText(line, WalkedLine(line))
  {
    hide WalkedLine, FlatLine, Exposed, TokenOk, LineText, Trim, TextOf, ScanTo, OpenBackslash, TokenAt, Word,
         NextToken, FirstRegion, CutsEscape, Tokens;
    var t := Token(0, 5, Normal, true);
    WitnessCut(line);
    WitnessOpen(line);
    WitnessWhole(line);
    WitnessRegion(line);
    OneWordLine(line, t);
    WalkedText(line);
    TextDefined(line, 0, 4);
    var cs := FlatLine(line);
    assert cs[0].pipelines[0].commands[0].tokens == [t];
    assert PipelinesUncut(line, cs[0].pipelines) ==> GroupsUncut(line, cs[0].pipelines[0].commands);
  }

  // ------------------------------------------------------------------
  // Escaping and reading back

  function Escape(w: string): (r: string)
    ensures |r| == 2 * |w|
  {
    if w == "" then "" else ['\\', w[0]] + Escape(w[1..])
  }

  function Join(ws: seq<string>): string {
    if ws == [] then ""
    else if |ws| == 1 then Escape(ws[0])
    else Escape(ws[0]) + " " + Join(ws[1..])
  }

  predicate Words(ws: seq<string>) {
    forall i :: 0 <= i < |ws| ==> ws[i] != "" && NulFree(ws[i])
  }

  lemma {:induction false} EscapeAt(w: string, i: nat)
    requires i < |w|
    ensures Escape(w)[2 * i] == '\\' && Escape(w)[2 * i + 1] == w[i]
  {
    if i > 0 {
      EscapeAt(w[1..], i - 1);
    }
  }

  /** `Escape(w)` stands at `p`, followed by a blank or the end of the line. */
  ghost predicate Stands(line: string, p: nat, w: string) {
    && p + 2 * |w| <= |line|
    && (forall i :: 0 <= i < |w| ==> line[p + 2 * i] == '\\' && line[p + 2 * i + 1] == w[i])
    && (p + 2 * |w| == |line| || IsSpace(line[p + 2 * |w|]))
  }

  lemma {:induction false} StandsTail(line: string, p: nat, w: string)
    requires Stands(line, p, w) && w != ""
    ensures Stands(line, p + 2, w[1..])
  {
    forall i | 0 <= i < |w| - 1
      ensures line[p + 2 + 2 * i] == '\\' && line[p + 2 + 2 * i + 1] == w[1..][i]
    {
      var j := i + 1;
      assert line[p + 2 * j] == '\\' && line[p + 2 * j + 1] == w[j];
    }
  }

  lemma {:induction false} EscapedWord(line: string, p: nat, w: string)
    requires Stands(line, p, w)
    ensures Word(line, p, |line|, '\0') == (p + 2 * |w|, w != "")
    decreases |w|
  {
    hide Stands, IsSpace, IsSpecial;
    StandsHead(line, p, w);
    if w != "" {
      StandsTail(line, p, w);
      EscapedWord(line, p + 2, w[1..]);
    }
  }

  lemma {:induction false} StandsHead(line: string, p: nat, w: string)
    requires Stands(line, p, w)
    ensures p + 2 * |w| <= |line|
    ensures w != "" ==> line[p] == '\\' && line[p + 1] == w[0]
    ensures w == "" ==> p == |line| || IsSpace(line[p])
    ensures !IsSpace('\\') && !IsSpecial('\\') && !IsDigit('\\')
  {
    if w != "" {
      assert line[p + 2 * 0] == '\\' && line[p + 2 * 0 + 1] == w[0];
    }
  }

  lemma {:induction false} EscapedText(line: string, s: nat, p: nat, w: string, r: string)
    requires Stands(line, p, w) && NulFree(w) && s <= p
    ensures TextFrom(line, s, p + 2 * |w| - s, p - s, '\0', r) == Text(r + w)
    decreases |w|
  {
    hide Stands, IsSpace, IsSpecial;
    StandsHead(line, p, w);
    if w == "" {
      assert r + w == r;
    } else {
      StandsTail(line, p, w);
      EscapedText(line, s, p + 2, w[1..], r + [w[0]]);
      assert r + [w[0]] + w[1..] == r + w;
    }
  }

  /** The token of one escaped word. */
  lemma {:induction false} EscapedToken(line: string, p: nat, w: string)
    requires Stands(line, p, w) && w != "" && NulFree(w)
    ensures var t := NextToken(line, p, |line|);
            t == Token(p, 2 * |w|, Normal, true) && TextOf(line, t) == Text(w)
  {
    hide Stands, Word, TextFrom, IsSpace, IsSpecial, IsDigit;
    StandsHead(line, p, w);
    EscapedWord(line, p, w);
    EscapedText(line, p, p, w, "");
    assert "" + w == w;
    assert SkipBlank(line, p, |line|) == p;
    assert Digits(line, p, |line|) == p;
  }

  lemma {:induction false} JoinStands(pre: string, ws: seq<string>)
    requires ws != []
    ensures Stands(pre + Join(ws), |pre|, ws[0])
    ensures |ws| > 1 ==>
              pre + Join(ws) == (pre + Escape(ws[0]) + " ") + Join(ws[1..])
  {
    hide Escape, Stands;
    if |ws| == 1 {
      StandsBetween(pre, ws[0], "");
      assert Escape(ws[0]) + "" == Join(ws);
    } else {
      var tail := " " + Join(ws[1..]);
      StandsBetween(pre, ws[0], tail);
      assert Escape(ws[0]) + tail == Join(ws);
    }
  }

  lemma {:induction false} StandsBetween(pre: string, w: string, tail: string)
    requires tail == "" || IsSpace(tail[0])
    ensures Stands(pre + (Escape(w) + tail), |pre|, w)
  {
    hide Escape;
    var line := pre + (Escape(w) + tail);
    forall i | 0 <= i < |w|
      ensures line[|pre| + 2 * i] == '\\' && line[|pre| + 2 * i + 1] == w[i]
    {
      EscapeAt(w, i);
    }
  }

  lemma {:induction false} RoundTripFrom(pre: string, ws: seq<string>)
    requires Words(ws)
    ensures var line := pre + Join(ws);
            var ts := Tokens(line, |pre|, |line|);
            && |ts| == |ws|
            && forall i :: 0 <= i < |ws| ==>
                 ts[i].kind == Normal && TokEnd(ts[i]) <= |line| && TextOf(line, ts[i]) == Text(ws[i])
    decreases |ws|
  {
    hide Stands, NextToken, TextOf, NulFree, Tokens, Join, Escape;
    var line := pre + Join(ws);
    if ws == [] {
      JoinNone();
      EndOfTokens(line, |line|);
    } else {
      var w := ws[0];
      JoinStands(pre, ws);
      EscapedToken(line, |pre|, w);
      var e := |pre| + 2 * |w|;
      TokensCons(line, |pre|);
      if |ws| == 1 {
        JoinOne(ws);
        EndOfTokens(line, |line|);
      } else {
        var pre' := pre + Escape(w) + " ";
        RoundTripFrom(pre', ws[1..]);
        SkipBlanks(line, e, e + 1, |line|);
        TokensSame(line, e, e + 1);
      }
    }
  }

  lemma {:induction false} JoinNone()
    ensures Join([]) == ""
  {
  }

  lemma {:induction false} JoinOne(ws: seq<string>)
    requires |ws| == 1
    ensures |Join(ws)| == 2 * |ws[0]|
  {
  }

  lemma {:induction false} TokensCons(line: string, p: nat)
    requires p <= |line| && NextToken(line, p, |line|).kind != Eol
    ensures var t := NextToken(line, p, |line|);
            Tokens(line, p, |line|) == [t] + Tokens(line, TokEnd(t), |line|)
  {
    hide NextToken;
  }

  lemma {:induction false} TokensSame(line: string, p: nat, p': nat)
    requires p <= |line| && p' <= |line| && NextToken(line, p, |line|) == NextToken(line, p', |line|)
    ensures Tokens(line, p, |line|) == Tokens(line, p', |line|)
  {
    hide NextToken;
  }

  /** Escaping every character of each word and joining the words with blanks
      gives a line whose tokens are exactly those words. */
  lemma {:induction false} EscapeRoundTrip(ws: seq<string>)
    requires Words(ws)
    ensures var line := Join(ws);
            var ts := Tokens(line, 0, |line|);
            && |ts| == |ws|
            && forall i :: 0 <= i < |ws| ==>
                 ts[i].kind == Normal && TokEnd(ts[i]) <= |line| && TextOf(line, ts[i]) == Text(ws[i])
  {
    RoundTripFrom("", ws);
    assert "" + Join(ws) == Join(ws);
  }
}
