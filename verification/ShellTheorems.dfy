/**
 Re-tokenizing the regions of a line agrees with one tokenization of the line.
 */
module ShellTheorems {
  import opened ShellTokens
  import opened ShellRegions

  // ------------------------------------------------------------------
  // A token depends only on the text up to its own end

  lemma {:induction false} DigitsCut(line: string, s: nat, end: nat, e: nat)
    requires s <= e <= end <= |line|
    ensures Digits(line, s, e) == if Digits(line, s, end) <= e then Digits(line, s, end) else e
    decreases end - s
  {
    if s < e && IsDigit(line[s]) {
      DigitsCut(line, s + 1, end, e);
    }
  }

  lemma {:induction false} WordKeep(line: string, p: nat, end: nat, q: char, e: nat)
    requires p <= end <= |line| && Word(line, p, end, q).0 <= e <= end
    ensures Word(line, p, e, q) == Word(line, p, end, q)
    decreases end - p
  {
    hide IsSpace, IsSpecial;
    if p == e || (q == '\0' && (IsSpace(line[p]) || IsSpecial(line[p]))) {
      WordProgress(line, p, end, q);
    } else if IsQuote(line[p]) && q == '\0' {
      WordKeep(line, p + 1, end, line[p], e);
    } else if line[p] == q {
      WordKeep(line, p + 1, end, '\0', e);
    } else if line[p] == '\\' && p + 1 != end && q != '\'' {
      WordKeep(line, p + 2, end, q, e);
    } else {
      WordKeep(line, p + 1, end, q, e);
    }
  }

  lemma {:induction false} WordCut(line: string, p: nat, end: nat, q: char, e: nat)
    requires p <= e <= end <= |line| && e <= Word(line, p, end, q).0
    ensures Word(line, p, e, q).0 == e
    decreases end - p
  {
    hide IsSpace, IsSpecial;
    if p == e {
    } else if IsQuote(line[p]) && q == '\0' {
      WordCut(line, p + 1, end, line[p], e);
    } else if line[p] == q {
      WordCut(line, p + 1, end, '\0', e);
    } else if line[p] == '\\' && p + 1 != end && q != '\'' {
      if p + 1 != e {
        WordCut(line, p + 2, end, q, e);
      }
    } else {
      WordCut(line, p + 1, end, q, e);
    }
  }

  /** A position where a token starts. */
  predicate StartsToken(line: string, s: nat) {
    s < |line| && !IsSpace(line[s]) && line[s] != '#'
  }

  lemma {:induction false} TokenKeep(line: string, s: nat, end: nat, e: nat)
    requires s < end <= |line| && StartsToken(line, s) && TokEnd(TokenAt(line, s, end)) <= e <= end
    ensures TokenAt(line, s, e) == TokenAt(line, s, end)
  {
    hide Word, Digits, IsSpace, IsDigit;
    var p := Digits(line, s, end);
    DigitsCut(line, s, end, e);
    if p < end && (line[p] == '<' || line[p] == '>') {
      if p + 1 <= e {
        DigitsCut(line, p + 1, end, e);
      }
    } else if p == s && IsSpecial(line[p]) {
    } else {
      WordKeep(line, p, end, '\0', e);
    }
  }

  /** A word cut short is still one word. */
  lemma {:induction false} TokenCut(line: string, s: nat, end: nat, e: nat)
    requires s < e <= end <= |line| && StartsToken(line, s)
    requires TokenAt(line, s, end).kind == Normal && e <= TokEnd(TokenAt(line, s, end))
    ensures TokenAt(line, s, e).kind == Normal && TokEnd(TokenAt(line, s, e)) == e
  {
    hide Word, Digits, IsSpace, IsDigit;
    var p := Digits(line, s, end);
    DigitsCut(line, s, end, e);
    if p <= e {
      WordCut(line, p, end, '\0', e);
    } else {
      WordCut(line, e, e, '\0', e);
    }
  }

  /** Only words can end in a blank. */
  lemma {:induction false} BlankEndsWord(line: string, s: nat, end: nat)
    requires s < end <= |line| && StartsToken(line, s)
    requires var t := TokenAt(line, s, end); IsSpace(line[TokEnd(t) - 1])
    ensures TokenAt(line, s, end).kind == Normal
  {
    hide Word, Digits;
  }

  // ------------------------------------------------------------------
  // Trimming

  /** The next thing after the blanks at `p` is a comment. */
  predicate CommentAfter(line: string, p: nat)
    requires p <= |line|
  {
    var b := SkipBlank(line, p, |line|);
    b < |line| && line[b] == '#'
  }

  predicate TokenOk(line: string, t: Token) {
    && StartsToken(line, t.s) && t.len > 0 && TokEnd(t) <= |line|
    && TokenAt(line, t.s, TokEnd(t)) == t
  }

  /** The token ends in a blank that the trim loops cut off when it comes last in
      a region. */
  predicate Exposed(line: string, t: Token)
    requires TokenOk(line, t)
  {
    IsSpace(line[TokEnd(t) - 1]) && !CommentAfter(line, TokEnd(t))
  }

  /** What is left of a token that comes last in a region. */
  function Trim(line: string, t: Token): Token
    requires TokenOk(line, t)
  {
    if Exposed(line, t) then
      TrimInside(line, t);
      TokenAt(line, t.s, TrimBack(line, t.s, TokEnd(t)))
    else t
  }

  lemma {:induction false} TrimInside(line: string, t: Token)
    requires TokenOk(line, t)
    ensures t.s < TrimBack(line, t.s, TokEnd(t))
  {
  }

  predicate AllOk(line: string, ts: seq<Token>) {
    forall t :: t in ts ==> TokenOk(line, t)
  }

  /** The last token of a region is trimmed. */
  function Cut(line: string, ts: seq<Token>): seq<Token>
    requires AllOk(line, ts)
  {
    if ts == [] then [] else ts[..|ts| - 1] + [Trim(line, ts[|ts| - 1])]
  }

  lemma {:induction false} TokensOk(line: string, s: nat, end: nat)
    requires s <= end <= |line|
    ensures AllOk(line, Tokens(line, s, end))
    decreases end - s
  {
    hide TokenAt, SkipSpace;
    var t := NextToken(line, s, end);
    if t.kind != Eol {
      BlanksBefore(line, s, end);
      TokenKeep(line, t.s, end, TokEnd(t));
      TokensOk(line, TokEnd(t), end);
    }
  }

  /** A token that is trimmed changes; trimming again does nothing. */
  lemma {:induction false} TrimChanges(line: string, t: Token)
    requires TokenOk(line, t)
    ensures Trim(line, t) == t <==> !Exposed(line, t)
    ensures Trim(line, t).kind == t.kind && TokenOk(line, Trim(line, t))
    ensures Trim(line, Trim(line, t)) == Trim(line, t)
  {
    hide TokenAt, CommentAfter;
    if Exposed(line, t) {
      var e := TrimBack(line, t.s, TokEnd(t));
      TrimInside(line, t);
      BlankEndsWord(line, t.s, TokEnd(t));
      TokenCut(line, t.s, TokEnd(t), e);
    }
  }

  // ------------------------------------------------------------------
  // One region

  /** Index of the first token of a kind in `mask`. */
  function FirstIn(ts: seq<Token>, mask: Mask): (k: nat)
    ensures k <= |ts|
    ensures k < |ts| ==> ts[k].kind in mask
    ensures forall i :: 0 <= i < k ==> ts[i].kind !in mask
  {
    if ts == [] || ts[0].kind in mask then 0 else 1 + FirstIn(ts[1..], mask)
  }

  function EolAt(end: nat): Token {
    Token(end, 0, Eol, false)
  }

  function At(ts: seq<Token>, k: nat, end: nat): Token {
    if k < |ts| then ts[k] else EolAt(end)
  }

  /** The delimiter scan stops at the first delimiter of the token stream. */
  lemma {:induction false} ScanFinds(line: string, s: nat, end: nat, mask: Mask)
    requires s <= end <= |line| && Eol in mask
    ensures var ts := Tokens(line, s, end);
            ScanTo(line, s, end, mask) == At(ts, FirstIn(ts, mask), end).s
    decreases end - s
  {
    hide NextToken, FirstIn;
    var t := NextToken(line, s, end);
    var ts := Tokens(line, s, end);
    FirstInStep(ts, mask);
    if t.kind !in mask {
      ScanFinds(line, TokEnd(t), end, mask);
      assert ts[1..] == Tokens(line, TokEnd(t), end);
    }
  }

  lemma {:induction false} FirstInStep(ts: seq<Token>, mask: Mask)
    ensures FirstIn(ts, mask) == if ts == [] || ts[0].kind in mask then 0 else 1 + FirstIn(ts[1..], mask)
  {
  }

  lemma {:induction false} SkipBlanks(line: string, p: nat, d: nat, end: nat)
    requires p <= d <= end <= |line| && forall i :: p <= i < d ==> IsSpace(line[i])
    ensures SkipBlank(line, p, end) == SkipBlank(line, d, end)
    ensures SkipSpace(line, p, end) == SkipSpace(line, d, end)
    ensures NextToken(line, p, end) == NextToken(line, d, end)
    decreases d - p
  {
    if p < d {
      SkipBlanks(line, p + 1, d, end);
    }
  }

  /** Between a position and the next token there are only blanks. */
  lemma {:induction false} BlanksBefore(line: string, s: nat, end: nat)
    requires s <= end <= |line|
    ensures var t := NextToken(line, s, end);
            t.kind != Eol ==>
              && StartsToken(line, t.s) && t == TokenAt(line, t.s, end)
              && forall i :: s <= i < t.s ==> IsSpace(line[i])
  {
    hide TokenAt;
  }

  /** The end of a line, or of a region that has been trimmed. */
  predicate EndOk(line: string, end: nat) {
    end <= |line| && (end == |line| || end == 0 || !IsSpace(line[end - 1]))
  }

  /** `e` is where trimming back from the delimiter of [p, end) stops. */
  ghost predicate StopsAt(line: string, p: nat, end: nat, mask: Mask, e: nat)
    requires p <= end <= |line| && Eol in mask
  {
    var d := ScanTo(line, p, end, mask);
    && e <= d
    && (forall i :: e <= i < d ==> IsSpace(line[i]))
    && NextToken(line, p, end).s < e && !IsSpace(line[e - 1])
  }

  /** Tokenizing up to the trimmed delimiter gives the tokens before the
      delimiter, the last one trimmed. */
  lemma {:induction false} CutStream(line: string, p: nat, end: nat, mask: Mask, e: nat)
    requires p <= end && EndOk(line, end) && Eol in mask
    requires NextToken(line, p, end).kind !in mask
    requires StopsAt(line, p, end, mask, e)
    ensures p <= e <= end
    ensures var ts := Tokens(line, p, end);
            AllOk(line, ts) && Tokens(line, p, e) == Cut(line, ts[..FirstIn(ts, mask)])
    decreases end - p
  {
    hide NextToken, Cut, StopsAt, ScanTo, TokenOk;
    TokensOk(line, p, end);
    StopBounds(line, p, end, mask, e);
    var t := NextToken(line, p, end);
    var u := NextToken(line, TokEnd(t), end);
    var ts := Tokens(line, p, end);
    var rest := Tokens(line, TokEnd(t), end);
    assert ts[1..] == rest && FirstIn(ts, mask) == 1 + FirstIn(rest, mask);
    if u.kind in mask {
      assert FirstIn(rest, mask) == 0;
      assert ts[..1] == [t];
      LastToken(line, p, end, mask, e);
      CutOne(line, t);
    } else {
      StopsLater(line, p, end, mask, e);
      CutStream(line, TokEnd(t), end, mask, e);
      KeepFirst(line, p, end, e);
      CutCons(line, t, rest[..FirstIn(rest, mask)]);
      assert ts[..FirstIn(ts, mask)] == [t] + rest[..FirstIn(rest, mask)];
    }
  }

  /** If a second token precedes the delimiter, the region reaches into it. */
  lemma {:induction false} StopsLater(line: string, p: nat, end: nat, mask: Mask, e: nat)
    requires p <= end <= |line| && Eol in mask && StopsAt(line, p, end, mask, e)
    requires var t := NextToken(line, p, end); t.kind !in mask && NextToken(line, TokEnd(t), end).kind !in mask
    ensures var t := NextToken(line, p, end); StopsAt(line, TokEnd(t), end, mask, e) && TokEnd(t) <= e
  {
    hide NextToken;
    var t := NextToken(line, p, end);
    var u := NextToken(line, TokEnd(t), end);
    BlanksBefore(line, TokEnd(t), end);
    assert ScanTo(line, p, end, mask) == ScanTo(line, TokEnd(t), end, mask) == ScanTo(line, TokEnd(u), end, mask);
    assert u.s < e;
  }

  lemma {:induction false} StopBounds(line: string, p: nat, end: nat, mask: Mask, e: nat)
    requires p <= end <= |line| && Eol in mask && StopsAt(line, p, end, mask, e)
    ensures p <= e <= end
  {
    hide NextToken;
  }

  lemma {:induction false} CutOne(line: string, t: Token)
    requires TokenOk(line, t)
    ensures AllOk(line, [t]) && Cut(line, [t]) == [Trim(line, t)]
  {
    hide Trim;
  }

  lemma {:induction false} CutCons(line: string, t: Token, ts: seq<Token>)
    requires TokenOk(line, t) && AllOk(line, ts) && ts != []
    ensures AllOk(line, [t] + ts) && Cut(line, [t] + ts) == [t] + Cut(line, ts)
  {
    hide Trim;
    assert ([t] + ts)[..|ts|] == [t] + ts[..|ts| - 1];
  }

  /** A token that ends within the region is unchanged by the cut. */
  lemma {:induction false} KeepFirst(line: string, p: nat, end: nat, e: nat)
    requires p <= end <= |line|
    requires var t := NextToken(line, p, end); t.kind != Eol && TokEnd(t) <= e <= end
    ensures NextToken(line, p, e) == NextToken(line, p, end)
    ensures Tokens(line, p, e) == [NextToken(line, p, end)] + Tokens(line, TokEnd(NextToken(line, p, end)), e)
  {
    hide TokenAt;
    var t := NextToken(line, p, end);
    BlanksBefore(line, p, end);
    TokenKeep(line, t.s, end, e);
    SkipBlanks(line, p, t.s, e);
  }

  /** The case of a region's last token. */
  lemma {:induction false} LastToken(line: string, p: nat, end: nat, mask: Mask, e: nat)
    requires p <= end && EndOk(line, end) && Eol in mask
    requires StopsAt(line, p, end, mask, e)
    requires var t := NextToken(line, p, end); t.kind !in mask && NextToken(line, TokEnd(t), end).kind in mask
    ensures p <= e <= end
    ensures var t := NextToken(line, p, end); TokenOk(line, t) && Tokens(line, p, e) == [Trim(line, t)]
  {
    hide TokenAt, CommentAfter;
    var t := NextToken(line, p, end);
    BlanksBefore(line, p, end);
    TokenKeep(line, t.s, end, TokEnd(t));
    SkipBlanks(line, p, t.s, e);
    var te := TokEnd(t);
    var u := NextToken(line, te, end);
    assert ScanTo(line, p, end, mask) == u.s;
    if te < e {
      CommentFollows(line, te, end, e);
      KeepFirst(line, p, end, e);
    } else if te == e {
      KeepFirst(line, p, end, e);
    } else {
      NoComment(line, te, end, e);
      assert TrimBack(line, t.s, te) == e by {
        TrimUnique(line, t.s, te, e);
      }
      BlankEndsWord(line, t.s, end);
      TokenCut(line, t.s, end, e);
      OneToken(line, p, t.s, e);
    }
  }

  lemma {:induction false} OneToken(line: string, p: nat, s: nat, e: nat)
    requires p <= s < e <= |line| && StartsToken(line, s)
    requires forall i :: p <= i < s ==> IsSpace(line[i])
    requires TokEnd(TokenAt(line, s, e)) == e
    ensures Tokens(line, p, e) == [TokenAt(line, s, e)]
  {
    hide TokenAt;
    SkipBlanks(line, p, s, e);
    assert Tokens(line, e, e) == [];
  }

  lemma {:induction false} TrimUnique(line: string, s: nat, d: nat, e: nat)
    requires s < e <= d <= |line|
    requires forall i :: e <= i < d ==> IsSpace(line[i])
    requires !IsSpace(line[e - 1])
    ensures TrimBack(line, s, d) == e
  {
  }

  /** Text that is neither blank nor a token is a comment. */
  lemma {:induction false} CommentFollows(line: string, te: nat, end: nat, e: nat)
    requires te < e <= end <= |line| && !IsSpace(line[e - 1])
    requires e <= NextToken(line, te, end).s
    ensures CommentAfter(line, te)
    ensures Tokens(line, te, e) == []
  {
    hide TokenAt;
    var b := SkipBlank(line, te, end);
    assert b < e;
    assert line[b] == '#';
    SkipBlanks(line, te, b, e);
    SkipBlanks(line, te, b, |line|);
  }

  lemma {:induction false} NoComment(line: string, te: nat, end: nat, e: nat)
    requires e < te <= end && EndOk(line, end)
    requires forall i :: e <= i < NextToken(line, te, end).s ==> IsSpace(line[i])
    ensures !CommentAfter(line, te)
  {
    hide TokenAt;
    var u := NextToken(line, te, end);
    SkipBlanks(line, te, u.s, |line|);
  }

  // ------------------------------------------------------------------
  // Walking the regions of one level

  /** The region is followed by a delimiter. */
  predicate Delimited(line: string, r: Region, mask: Mask) {
    Fits(line, r) && NextOp(line, r) in mask
  }

  lemma {:induction false} ScanStops(line: string, s: nat, end: nat, mask: Mask)
    requires s <= end <= |line| && Eol in mask
    ensures var d := ScanTo(line, s, end, mask);
            NextToken(line, d, end).kind in mask && NextToken(line, d, end).s == d
    decreases end - s
  {
    hide NextToken;
    var t := NextToken(line, s, end);
    if t.kind in mask {
      StartAgain(line, s, end);
    } else {
      ScanStops(line, TokEnd(t), end, mask);
    }
  }

  /** From the trimmed stop, the tokenizer comes back to the delimiter. */
  lemma {:induction false} Resume(line: string, s: nat, end: nat, mask: Mask)
    requires s <= end <= |line| && Eol in mask
    ensures var d := ScanTo(line, s, end, mask);
            var e := TrimBack(line, s, d);
            && NextToken(line, e, end) == NextToken(line, d, end)
            && NextToken(line, e, end).kind in mask && NextToken(line, e, end).s == d
  {
    hide NextToken, ScanTo;
    ScanStops(line, s, end, mask);
    var d := ScanTo(line, s, end, mask);
    SkipBlanks(line, TrimBack(line, s, d), d, end);
  }

  /** Every `++` makes progress until the end of the enclosing region. */
  lemma {:induction false} Progress(line: string, r: Region, mask: Mask)
    requires Delimited(line, r, mask) && Eol in mask
    ensures Delimited(line, NextRegion(line, r, mask), mask)
    ensures !AtEnd(r) ==> r.s < NextRegion(line, r, mask).s
  {
    hide NextToken, ScanTo, TrimBack;
    Resume(line, NextRegion(line, r, mask).s, r.end, mask);
  }

  /** The regions visited from `r` until `end()`. */
  function Walk(line: string, r: Region, mask: Mask): seq<Region>
    requires Delimited(line, r, mask) && Eol in mask
    decreases r.end - r.s
  {
    if AtEnd(r) then []
    else
      Progress(line, r, mask);
      [r] + Walk(line, NextRegion(line, r, mask), mask)
  }

  /** Tokens up to a delimiter, and the delimiter. */
  datatype Group = Group(tokens: seq<Token>, op: Kind)

  /** A token stream split at delimiters; nothing follows a final delimiter. */
  function Groups(ts: seq<Token>, mask: Mask): seq<Group>
    decreases |ts|
  {
    if ts == [] then []
    else
      var k := FirstIn(ts, mask);
      if k == |ts| then [Group(ts, Eol)] else [Group(ts[..k], ts[k].kind)] + Groups(ts[k + 1..], mask)
  }

  /** What a user of the parser sees of each region. */
  function Seen(line: string, rs: seq<Region>): seq<Group>
    requires forall i :: 0 <= i < |rs| ==> Fits(line, rs[i])
  {
    if rs == [] then []
    else
      assert Fits(line, rs[0]);
      [Group(Tokens(line, rs[0].s, rs[0].stop), NextOp(line, rs[0]))] + Seen(line, rs[1..])
  }

  predicate GroupsOk(line: string, gs: seq<Group>) {
    forall i :: 0 <= i < |gs| ==> AllOk(line, gs[i].tokens)
  }

  function CutGroups(line: string, gs: seq<Group>): seq<Group>
    requires GroupsOk(line, gs)
  {
    if gs == [] then [] else [Group(Cut(line, gs[0].tokens), gs[0].op)] + CutGroups(line, gs[1..])
  }

  /** A region that sub-parsers can work on: it starts at a token, and its end is
      trimmed. */
  predicate Inner(line: string, s: nat, stop: nat) {
    && s <= stop <= |line|
    && SkipSpace(line, s, stop) == s
    && (s == stop || EndOk(line, stop))
  }

  /** Where the parsers of one level stand. */
  predicate Placed(line: string, r: Region, mask: Mask)
    requires Eol in mask
  {
    && Fits(line, r) && Inner(line, r.s, r.end)
    && r.stop == TrimBack(line, r.s, ScanTo(line, r.s, r.end, mask))
  }

  lemma {:induction false} TokensFrom(line: string, s: nat, end: nat, k: nat)
    requires s <= end <= |line| && k < |Tokens(line, s, end)|
    ensures var t := Tokens(line, s, end)[k];
            && TokEnd(t) <= end
            && Tokens(line, TokEnd(t), end) == Tokens(line, s, end)[k + 1..]
            && NextToken(line, t.s, end) == t
    decreases k
  {
    hide NextToken;
    StartAgain(line, s, end);
    if k > 0 {
      TokensFrom(line, TokEnd(NextToken(line, s, end)), end, k - 1);
    }
  }

  lemma {:induction false} TokensSkip(line: string, s: nat, end: nat)
    requires s <= end <= |line|
    ensures Tokens(line, NextToken(line, s, end).s, end) == Tokens(line, s, end)
  {
    hide NextToken;
    StartAgain(line, s, end);
  }

  lemma {:induction false} SkipStart(line: string, s: nat, end: nat)
    requires s <= end <= |line|
    ensures SkipSpace(line, s, end) == s <==> NextToken(line, s, end).s == s
  {
    hide TokenAt;
  }

  /** A placed parser shows the tokens before its delimiter, the last one trimmed,
      and the delimiter. */
  lemma {:induction false} RegionShows(line: string, r: Region, mask: Mask)
    requires Eol in mask && Placed(line, r, mask)
    ensures var ts := Tokens(line, r.s, r.end);
            var k := FirstIn(ts, mask);
            && AllOk(line, ts[..k])
            && Tokens(line, r.s, r.stop) == Cut(line, ts[..k])
            && NextToken(line, r.stop, r.end).kind == At(ts, k, r.end).kind
            && NextToken(line, r.stop, r.end).s == At(ts, k, r.end).s
            && Inner(line, r.s, r.stop)
  {
    hide NextToken, Cut, StopsAt;
    var ts := Tokens(line, r.s, r.end);
    var k := FirstIn(ts, mask);
    TokensOk(line, r.s, r.end);
    ScanFinds(line, r.s, r.end, mask);
    Resume(line, r.s, r.end, mask);
    SkipStart(line, r.s, r.end);
    if k < |ts| {
      TokensFrom(line, r.s, r.end, k);
    }
    if NextToken(line, r.s, r.end).kind in mask {
      EmptyRegion(line, r.s, r.end, mask);
    } else {
      StopsInside(line, r, mask);
      CutStream(line, r.s, r.end, mask, r.stop);
    }
  }

  lemma {:induction false} EmptyRegion(line: string, s: nat, end: nat, mask: Mask)
    requires s <= end <= |line| && Eol in mask
    requires NextToken(line, s, end).kind in mask && NextToken(line, s, end).s == s
    ensures ScanTo(line, s, end, mask) == s && FirstIn(Tokens(line, s, end), mask) == 0
    ensures Tokens(line, s, s) == [] && Cut(line, []) == [] && Inner(line, s, s)
  {
    hide TokenAt;
  }

  lemma {:induction false} StopsInside(line: string, r: Region, mask: Mask)
    requires Eol in mask && Placed(line, r, mask)
    requires NextToken(line, r.s, r.end).kind !in mask
    ensures EndOk(line, r.end) && StopsAt(line, r.s, r.end, mask, r.stop)
    ensures Inner(line, r.s, r.stop)
  {
    hide TokenAt;
    BlanksBefore(line, r.s, r.end);
    SkipStart(line, r.s, r.end);
    var t := NextToken(line, r.s, r.end);
    assert TokEnd(t) <= ScanTo(line, r.s, r.end, mask);
    assert r.s < r.stop;
    assert SkipSpace(line, r.s, r.stop) == r.s;
  }

  lemma {:induction false} GroupsAllOk(line: string, ts: seq<Token>, mask: Mask)
    requires AllOk(line, ts)
    ensures GroupsOk(line, Groups(ts, mask))
    decreases |ts|
  {
    hide TokenOk, FirstIn, Groups;
    if ts == [] {
      NothingLeft(line, mask);
    } else {
      var k := FirstIn(ts, mask);
      GroupsStep(ts, mask);
      if k < |ts| {
        GroupsAllOk(line, ts[k + 1..], mask);
      } else {
        NothingLeft(line, mask);
      }
      var gs := Groups(ts, mask);
      assert gs == [gs[0]] + gs[1..];
    }
  }

  ghost predicate AllInner(line: string, rs: seq<Region>) {
    forall i :: 0 <= i < |rs| ==> Fits(line, rs[i]) && Inner(line, rs[i].s, rs[i].stop)
  }

  lemma {:induction false} PlacedDelimited(line: string, r: Region, mask: Mask)
    requires Eol in mask && Placed(line, r, mask)
    ensures Delimited(line, r, mask)
  {
    hide NextToken, ScanTo, TrimBack;
    Resume(line, r.s, r.end, mask);
  }

  lemma {:induction false} NextPlaced(line: string, r: Region, mask: Mask)
    requires Eol in mask && Placed(line, r, mask) && !AtEnd(r)
    ensures var r' := NextRegion(line, r, mask);
            var ts := Tokens(line, r.s, r.end);
            var k := FirstIn(ts, mask);
            && Placed(line, r', mask) && r'.end == r.end
            && Tokens(line, r'.s, r'.end) == if k < |ts| then ts[k + 1..] else []
  {
    hide NextToken, ScanTo, TrimBack;
    var ts := Tokens(line, r.s, r.end);
    var k := FirstIn(ts, mask);
    RegionShows(line, r, mask);
    PlacedDelimited(line, r, mask);
    Progress(line, r, mask);
    var t := NextToken(line, r.stop, r.end);
    StartAgain(line, r.stop, r.end);
    StartAgain(line, TokEnd(t), r.end);
    SkipStart(line, NextRegion(line, r, mask).s, r.end);
    TokensSkip(line, TokEnd(t), r.end);
    EndOfTokens(line, r.end);
    if k < |ts| {
      TokensFrom(line, r.s, r.end, k);
    }
  }

  lemma {:induction false} EndOfTokens(line: string, end: nat)
    requires end <= |line|
    ensures Tokens(line, end, end) == [] && NextToken(line, end, end) == EolAt(end)
  {
  }

  /** One level of parsing is the split of the token stream at that level's
      delimiters, with the last token of each part trimmed. */
  lemma {:induction false} WalkIsGroups(line: string, r: Region, mask: Mask)
    requires Eol in mask && Placed(line, r, mask)
    ensures Delimited(line, r, mask)
    ensures var rs := Walk(line, r, mask);
            var gs := Groups(Tokens(line, r.s, r.end), mask);
            AllInner(line, rs) && GroupsOk(line, gs) && Seen(line, rs) == CutGroups(line, gs)
    decreases r.end - r.s
  {
    hide NextToken, ScanTo, TrimBack, Cut, TokenOk, Inner, SkipSpace, Seen, CutGroups, Groups, Tokens, FirstIn;
    PlacedDelimited(line, r, mask);
    var ts := Tokens(line, r.s, r.end);
    TokensOk(line, r.s, r.end);
    GroupsAllOk(line, ts, mask);
    if AtEnd(r) {
      EndOfTokens(line, r.end);
      NothingLeft(line, mask);
    } else {
      var r' := NextRegion(line, r, mask);
      RegionShows(line, r, mask);
      NextPlaced(line, r, mask);
      Progress(line, r, mask);
      NonEmpty(line, r, mask);
      WalkIsGroups(line, r', mask);
      GroupsStep(ts, mask);
      CutGroupsCons(line, Groups(ts, mask));
      SeenCons(line, r, Walk(line, r', mask));
    }
  }

  lemma {:induction false} NothingLeft(line: string, mask: Mask)
    ensures Groups([], mask) == [] && CutGroups(line, []) == [] && Seen(line, []) == []
  {
  }

  lemma {:induction false} GroupsStep(ts: seq<Token>, mask: Mask)
    requires ts != []
    ensures var k := FirstIn(ts, mask);
            var gs := Groups(ts, mask);
            && gs != []
            && gs[0] == Group(ts[..k], if k < |ts| then ts[k].kind else Eol)
            && gs[1..] == Groups(if k < |ts| then ts[k + 1..] else [], mask)
  {
    hide FirstIn;
    var k := FirstIn(ts, mask);
    if k == |ts| {
      assert ts[..k] == ts;
      assert Groups(ts, mask) == [Group(ts, Eol)];
    } else {
      assert Groups(ts, mask) == [Group(ts[..k], ts[k].kind)] + Groups(ts[k + 1..], mask);
    }
  }

  lemma {:induction false} CutGroupsCons(line: string, gs: seq<Group>)
    requires gs != [] && GroupsOk(line, gs)
    ensures CutGroups(line, gs) == [Group(Cut(line, gs[0].tokens), gs[0].op)] + CutGroups(line, gs[1..])
  {
  }

  lemma {:induction false} SeenCons(line: string, r: Region, rs: seq<Region>)
    requires Fits(line, r) && forall i :: 0 <= i < |rs| ==> Fits(line, rs[i])
    ensures Seen(line, [r] + rs) == [Group(Tokens(line, r.s, r.stop), NextOp(line, r))] + Seen(line, rs)
  {
    assert ([r] + rs)[1..] == rs;
  }

  lemma {:induction false} NonEmpty(line: string, r: Region, mask: Mask)
    requires Eol in mask && Placed(line, r, mask) && !AtEnd(r)
    ensures Tokens(line, r.s, r.end) != []
  {
    hide TokenAt;
  }

  /** Entering a region at the next level. */
  lemma {:induction false} FirstPlaced(line: string, s: nat, stop: nat, mask: Mask)
    requires Eol in mask && Inner(line, s, stop)
    ensures Placed(line, FirstRegion(line, s, stop, mask), mask)
    ensures FirstRegion(line, s, stop, mask).s == s && FirstRegion(line, s, stop, mask).end == stop
  {
    var e := TrimBack(line, s, ScanTo(line, s, stop, mask));
    assert SkipSpace(line, s, e) == s;
  }
}
