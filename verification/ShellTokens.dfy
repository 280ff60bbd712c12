/**
 The shell tokenizer (pset4/helpers.cc, pset4/sh61.hh).  A command line is a
 string; the tokenizer's pointers are indices into it, and `end` may lie before
 the end of the string when a region of the line is tokenized.
 */
module ShellTokens {
  datatype Kind = Normal | Redirect | Sequence | Eol | Background | Pipe | And | Or | LParen | RParen | Other

  datatype Token = Token(s: nat, len: nat, kind: Kind, quoted: bool)

  function TokEnd(t: Token): nat {
    t.s + t.len
  }

  /** `isspace` in the C locale */
  predicate IsSpace(c: char) {
    c == ' ' || '\t' <= c <= '\r'
  }

  predicate IsDigit(c: char) {
    '0' <= c <= '9'
  }

  predicate IsSpecial(c: char) {
    c in {'<', '>', '&', '|', ';', '(', ')', '#'}
  }

  predicate IsQuote(c: char) {
    c == '\"' || c == '\''
  }

  // ------------------------------------------------------------------
  // Specification

  /** Where the blanks that start at `s` end. */
  function SkipBlank(line: string, s: nat, end: nat): (r: nat)
    requires s <= end <= |line|
    ensures s <= r <= end
    ensures forall i :: s <= i < r ==> IsSpace(line[i])
    ensures r < end ==> !IsSpace(line[r])
    decreases end - s
  {
    if s < end && IsSpace(line[s]) then SkipBlank(line, s + 1, end) else s
  }

  /** `skip_shell_space` */
  function SkipSpace(line: string, s: nat, end: nat): (r: nat)
    requires s <= end <= |line|
    ensures s <= r <= end
    ensures r < end ==> !IsSpace(line[r]) && line[r] != '#'
  {
    var p := SkipBlank(line, s, end);
    if p < end && line[p] == '#' then end else p
  }

  function Digits(line: string, s: nat, end: nat): (r: nat)
    requires s <= end <= |line|
    ensures s <= r <= end
    ensures forall i :: s <= i < r ==> IsDigit(line[i])
    ensures r < end ==> !IsDigit(line[r])
    decreases end - s
  {
    if s < end && IsDigit(line[s]) then Digits(line, s + 1, end) else s
  }

  /** The end of a word and whether it holds a quote or an escape; `q` is the
      open quotation mark, or the NUL character outside quotes. */
  function Word(line: string, p: nat, end: nat, q: char): (r: (nat, bool))
    requires p <= end <= |line|
    ensures p <= r.0 <= end
    decreases end - p
  {
    if p == end || (q == '\0' && (IsSpace(line[p]) || IsSpecial(line[p]))) then (p, false)
    else if IsQuote(line[p]) && q == '\0' then (Word(line, p + 1, end, line[p]).0, true)
    else if line[p] == q then Word(line, p + 1, end, '\0')
    else if line[p] == '\\' && p + 1 != end && q != '\'' then (Word(line, p + 2, end, q).0, true)
    else Word(line, p + 1, end, q)
  }

  function OneCharKind(c: char): Kind {
    if c == ';' then Sequence
    else if c == '&' then Background
    else if c == '|' then Pipe
    else if c == '(' then LParen
    else if c == ')' then RParen
    else Other
  }

  /** The token that starts at `s`. */
  function TokenAt(line: string, s: nat, end: nat): (t: Token)
    requires s < end <= |line|
    requires !IsSpace(line[s]) && line[s] != '#'
    ensures t.s == s && t.len > 0 && TokEnd(t) <= end
    ensures t.kind != Other && t.kind != Eol
  {
    var p := Digits(line, s, end);
    if p < end && (line[p] == '<' || line[p] == '>') then
      var p1 := if p + 1 < end && line[p + 1] == '>' then p + 2 else Digits(line, p + 1, end);
      Token(s, p1 - s, Redirect, false)
    else if p == s && (line[p] == '&' || line[p] == '|') && p + 1 != end && line[p + 1] == line[p] then
      Token(s, 2, if line[p] == '&' then And else Or, false)
    else if p == s && IsSpecial(line[p]) then
      Token(s, 1, OneCharKind(line[p]), false)
    else
      var w := Word(line, p, end, '\0');
      WordProgress(line, p, end, '\0');
      Token(s, w.0 - s, Normal, w.1)
  }

  lemma {:induction false} WordProgress(line: string, p: nat, end: nat, q: char)
    requires p <= end <= |line|
    ensures p < end && (q != '\0' || !(IsSpace(line[p]) || IsSpecial(line[p]))) ==> Word(line, p, end, q).0 > p
  {
  }

  /** The first token at or after `s`; at the end of the line, the EOL token. */
  function NextToken(line: string, s: nat, end: nat): (t: Token)
    requires s <= end <= |line|
    ensures s <= t.s && TokEnd(t) <= end
    ensures t.kind == Eol <==> t.s == end
    ensures t.kind == Eol <==> t.len == 0
    ensures t.kind != Other
  {
    var p := SkipSpace(line, s, end);
    if p == end then Token(end, 0, Eol, false) else TokenAt(line, p, end)
  }

  /** The token stream, without the final EOL. */
  function Tokens(line: string, s: nat, end: nat): (ts: seq<Token>)
    requires s <= end <= |line|
    decreases end - s
  {
    var t := NextToken(line, s, end);
    if t.kind == Eol then [] else [t] + Tokens(line, TokEnd(t), end)
  }

  // ------------------------------------------------------------------
  // What a token's characters say about its kind

  /** The blanks are space, tab, newline, vertical tab, form feed and carriage return. */
  lemma {:induction false} BlankCharacters(c: char)
    ensures IsSpace(c) <==> c in {' ', '\t', '\n', 11 as char, 12 as char, '\r'}
  {
  }

  /** Digits, `<` or `>`, and then `>` or digits. */
  predicate IsRedirection(w: string) {
    exists k :: 0 <= k < |w| && RedirectsAt(w, k)
  }

  predicate RedirectsAt(w: string, k: nat)
    requires k < |w|
  {
    && (forall i :: 0 <= i < k ==> IsDigit(w[i]))
    && (w[k] == '<' || w[k] == '>')
    && (w[k + 1..] == ">" || forall i :: k < i < |w| ==> IsDigit(w[i]))
  }

  function KindOfText(w: string): Kind {
    if w == ";" then Sequence
    else if w == "&" then Background
    else if w == "|" then Pipe
    else if w == "&&" then And
    else if w == "||" then Or
    else if w == "(" then LParen
    else if w == ")" then RParen
    else if IsRedirection(w) then Redirect
    else Normal
  }

  /** A word stops only at the end, or at a blank or a special character. */
  lemma {:induction false} WordStops(line: string, p: nat, end: nat, q: char)
    requires p <= end <= |line|
    ensures var r := Word(line, p, end, q).0; r < end ==> IsSpace(line[r]) || IsSpecial(line[r])
    decreases end - p
  {
    hide IsSpace, IsSpecial;
    if p == end || (q == '\0' && (IsSpace(line[p]) || IsSpecial(line[p]))) {
    } else if IsQuote(line[p]) && q == '\0' {
      WordStops(line, p + 1, end, line[p]);
    } else if line[p] == q {
      WordStops(line, p + 1, end, '\0');
    } else if line[p] == '\\' && p + 1 != end && q != '\'' {
      WordStops(line, p + 2, end, q);
    } else {
      WordStops(line, p + 1, end, q);
    }
  }

  predicate IsArrow(c: char) {
    c == '<' || c == '>'
  }

  /** Where a token ends: an operator or redirection is as long as it can be, and a
      word goes on to a blank or a special character. */
  predicate EndsWell(line: string, t: Token, end: nat)
    requires TokEnd(t) <= end <= |line|
  {
    var e := TokEnd(t);
    e < end ==>
      match t.kind
      case Normal => IsSpace(line[e]) || IsSpecial(line[e])
      case Redirect =>
        || (t.len >= 2 && IsArrow(line[e - 1]) && IsArrow(line[e - 2]))
        || (!IsDigit(line[e]) && (t.len >= 1 && IsArrow(line[e - 1]) ==> line[e] != '>'))
      case Background => line[e] != '&'
      case Pipe => line[e] != '|'
      case _ => true
  }

  lemma {:induction false} RedirectKind(line: string, s: nat, end: nat, p: nat)
    requires s <= p < end <= |line| && p == Digits(line, s, end) && (line[p] == '<' || line[p] == '>')
    ensures var e := if p + 1 < end && line[p + 1] == '>' then p + 2 else Digits(line, p + 1, end);
            KindOfText(line[s..e]) == Redirect
  {
    hide KindOfText, Digits, RedirectsAt;
    var arrows := p + 1 < end && line[p + 1] == '>';
    var e := if arrows then p + 2 else Digits(line, p + 1, end);
    var w := line[s..e];
    RedirectText(line, s, p, e);
    assert w[0] == line[s];
    NotOperator(w);
  }

  lemma {:induction false} RedirectText(line: string, s: nat, p: nat, e: nat)
    requires s <= p < e <= |line| && IsArrow(line[p]) && forall i :: s <= i < p ==> IsDigit(line[i])
    requires (e == p + 2 && line[p + 1] == '>') || forall i :: p < i < e ==> IsDigit(line[i])
    ensures RedirectsAt(line[s..e], p - s)
  {
    var w := line[s..e];
    assert forall i :: 0 <= i < |w| ==> w[i] == line[s + i];
    if e == p + 2 && line[p + 1] == '>' {
      assert w[p - s + 1..] == [line[p + 1]];
    }
  }

  /** Text that does not start like an operator. */
  lemma {:induction false} NotOperator(w: string)
    requires w != "" && w[0] !in {';', '&', '|', '(', ')'}
    ensures KindOfText(w) == if IsRedirection(w) then Redirect else Normal
  {
    hide IsRedirection;
  }

  lemma {:induction false} WordKind(line: string, s: nat, end: nat, p: nat, e: nat)
    requires s <= p <= e <= end <= |line| && s < e && p == Digits(line, s, end)
    requires p < end ==> line[p] != '<' && line[p] != '>'
    requires p == s ==> !IsSpecial(line[s])
    ensures KindOfText(line[s..e]) == Normal
  {
    hide KindOfText, Digits;
    var w := line[s..e];
    assert forall i :: 0 <= i < |w| ==> w[i] == line[s + i];
    assert w[0] == line[s];
    assert IsDigit(w[0]) || !IsSpecial(w[0]);
    NotOperator(w);
    forall k | 0 <= k < |w|
      ensures !RedirectsAt(w, k)
    {
      assert w[k] == line[s + k];
      if s + k > p {
        assert !IsDigit(w[p - s]);
      }
    }
  }

  /** The kind of a token is determined by its characters. */
  lemma {:induction false} KindIsText(line: string, s: nat, end: nat)
    requires s <= end <= |line|
    ensures var t := NextToken(line, s, end);
            t.kind != Eol ==> t.kind == KindOfText(line[t.s..TokEnd(t)])
  {
    hide Word, Digits, KindOfText, IsSpace;
    var t := NextToken(line, s, end);
    if t.kind != Eol {
      var p := Digits(line, t.s, end);
      if p < end && (line[p] == '<' || line[p] == '>') {
        RedirectKind(line, t.s, end, p);
      } else if p == t.s && (line[p] == '&' || line[p] == '|') && p + 1 != end && line[p + 1] == line[p] {
        OperatorKinds();
        assert line[t.s..t.s + 2] == [line[p], line[p]];
      } else if p == t.s && IsSpecial(line[p]) {
        OperatorKinds();
        assert line[t.s..t.s + 1] == [line[p]];
      } else {
        WordKind(line, t.s, end, p, TokEnd(t));
      }
    }
  }

  lemma {:induction false} OperatorKinds()
    ensures KindOfText([';']) == Sequence && KindOfText(['&']) == Background && KindOfText(['|']) == Pipe
    ensures KindOfText(['&', '&']) == And && KindOfText(['|', '|']) == Or
    ensures KindOfText(['(']) == LParen && KindOfText([')']) == RParen
  {
  }

  /** What is skipped before a token is blank; before the end it may be a comment. */
  lemma {:induction false} SkipMeans(line: string, s: nat, end: nat)
    requires s <= end <= |line|
    ensures var t := NextToken(line, s, end);
            var b := SkipBlank(line, s, end);
            && (t.kind == Eol <==> b == end || line[b] == '#')
            && (t.kind != Eol ==> t.s == b && forall i :: s <= i < b ==> IsSpace(line[i]))
  {
    hide TokenAt;
  }

  lemma {:induction false} TokenEndsWell(line: string, s: nat, end: nat)
    requires s <= end <= |line|
    ensures EndsWell(line, NextToken(line, s, end), end)
  {
    hide Word, Digits, IsSpace;
    var t := NextToken(line, s, end);
    if t.kind == Normal {
      WordStops(line, Digits(line, t.s, end), end, '\0');
    }
  }

  // ------------------------------------------------------------------
  // The text of a token

  /** A character of the line, which ends in a NUL character. */
  function CharAt(line: string, i: nat): char {
    if i < |line| then line[i] else '\0'
  }

  datatype Text = Overrun | Text(value: string)

  /** The loop of `str()` from `pos`, with `r` built so far; it ends only when
      `pos` is exactly the length of the token.  Past that length it reads beyond
      the token and the line, which is undefined: `Overrun`. */
  function TextFrom(line: string, s: nat, len: nat, pos: nat, q: char, r: string): Text
    requires s + len <= |line|
    decreases len + 1 - pos
  {
    if pos == len then Text(r)
    else if pos > len then Overrun
    else
      var c := line[s + pos];
      if IsQuote(c) && q == '\0' then TextFrom(line, s, len, pos + 1, c, r)
      else if c == q then TextFrom(line, s, len, pos + 1, '\0', r)
      else if c == '\\' && CharAt(line, s + pos + 1) != '\0' && q != '\'' then
        TextFrom(line, s, len, pos + 2, q, r + [CharAt(line, s + pos + 1)])
      else TextFrom(line, s, len, pos + 1, q, r + [c])
  }

  /** `str()` */
  function TextOf(line: string, t: Token): Text
    requires TokEnd(t) <= |line|
  {
    if t.quoted then TextFrom(line, t.s, t.len, 0, '\0', "") else Text(line[t.s..TokEnd(t)])
  }

  predicate NulFree(s: string) {
    forall i :: 0 <= i < |s| ==> s[i] != '\0'
  }

  /** The word that starts at `p` runs up to `end`, and the last character before
      `end` is a backslash that nothing escapes, outside single quotes. */
  predicate OpenBackslash(line: string, p: nat, end: nat, q: char)
    requires p <= end <= |line|
    decreases end - p
  {
    && p < end
    && !(q == '\0' && (IsSpace(line[p]) || IsSpecial(line[p])))
    && if IsQuote(line[p]) && q == '\0' then OpenBackslash(line, p + 1, end, line[p])
       else if line[p] == q then OpenBackslash(line, p + 1, end, '\0')
       else if line[p] == '\\' && q != '\'' then p + 1 == end || OpenBackslash(line, p + 2, end, q)
       else OpenBackslash(line, p + 1, end, q)
  }

  lemma {:induction false} OpenEnds(line: string, p: nat, end: nat, q: char)
    requires p <= end <= |line| && OpenBackslash(line, p, end, q)
    ensures p < end && line[end - 1] == '\\' && Word(line, p, end, q).0 == end
    decreases end - p
  {
    hide IsSpace, IsSpecial;
    if IsQuote(line[p]) && q == '\0' {
      OpenEnds(line, p + 1, end, line[p]);
    } else if line[p] == q {
      OpenEnds(line, p + 1, end, '\0');
    } else if line[p] == '\\' && q != '\'' {
      if p + 1 != end {
        OpenEnds(line, p + 2, end, q);
      }
    } else {
      OpenEnds(line, p + 1, end, q);
    }
  }

  /** The region that ends at `end` splits an escape of the line. */
  predicate SplitsEscape(line: string, t: Token, end: nat)
    requires t.s <= end <= |line|
  {
    t.quoted && end < |line| && OpenBackslash(line, t.s, end, '\0')
  }

  /** `str()` takes the steps over a word that the tokenizer takes, except at a
      backslash that ends the region but not the line. */
  lemma {:induction false} TextAlongWord(line: string, s: nat, len: nat, pos: nat, q: char, r: string, end: nat)
    requires NulFree(line) && pos <= len && s + len <= end <= |line|
    requires Word(line, s + pos, end, q).0 == s + len
    ensures TextFrom(line, s, len, pos, q, r).Overrun? <==> end < |line| && OpenBackslash(line, s + pos, end, q)
    decreases len - pos
  {
    hide IsSpace, IsSpecial;
    var p := s + pos;
    if pos == len {
      WordProgress(line, p, end, q);
    } else {
      var c := line[p];
      if IsQuote(c) && q == '\0' {
        TextAlongWord(line, s, len, pos + 1, c, r, end);
      } else if c == q {
        TextAlongWord(line, s, len, pos + 1, '\0', r, end);
      } else if c == '\\' && q != '\'' {
        if p + 1 != end {
          TextAlongWord(line, s, len, pos + 2, q, r + [line[p + 1]], end);
        }
      } else {
        TextAlongWord(line, s, len, pos + 1, q, r + [c], end);
      }
    }
  }

  /** The digits a word may start with are ordinary characters. */
  lemma {:induction false} TextAlongDigits(line: string, s: nat, len: nat, pos: nat, n: nat, r: string, end: nat)
    requires NulFree(line) && pos <= n <= len && s + len <= end <= |line|
    requires forall j :: s + pos <= j < s + n ==> IsDigit(line[j])
    requires Word(line, s + n, end, '\0').0 == s + len
    ensures TextFrom(line, s, len, pos, '\0', r).Overrun?
       <==> end < |line| && OpenBackslash(line, s + pos, end, '\0')
    decreases n - pos
  {
    hide Word;
    if pos < n {
      assert IsDigit(line[s + pos]);
      TextAlongDigits(line, s, len, pos + 1, n, r + [line[s + pos]], end);
    } else {
      TextAlongWord(line, s, len, pos, '\0', r, end);
    }
  }

  /** A token of the region that ends at `end` is overrun exactly when the region
      splits an escape there. */
  lemma {:induction false} OverrunIff(line: string, t: Token, end: nat)
    requires NulFree(line) && t.s <= end <= |line| && NextToken(line, t.s, end) == t
    ensures TokEnd(t) <= |line|
    ensures TextOf(line, t).Overrun? <==> SplitsEscape(line, t, end)
  {
    hide Word, Digits, TextFrom, OpenBackslash;
    if t.quoted {
      var p := Digits(line, t.s, end);
      TextAlongDigits(line, t.s, t.len, 0, p - t.s, "", end);
    }
  }

  // ------------------------------------------------------------------
  // The tokenizer

  class Tokenizer {
    const line: string
    const end: nat
    var s: nat
    var len: nat
    var kind: Kind
    var quoted: bool

    ghost predicate Valid()
      reads this
    {
      s + len <= end <= |line|
    }

    function Cur(): Token
      reads this
    {
      Token(s, len, kind, quoted)
    }

    constructor (line: string, first: nat, last: nat)
      requires first <= last <= |line|
      ensures this.line == line && this.end == last && Valid()
      ensures Cur() == NextToken(line, first, last)
    {
      hide NextToken, KindOfText, EndsWell;
      this.line, this.end := line, last;
      s, len, kind, quoted := first, 0, Eol, false;
      new;
      Advance();
    }

    /** `str()` */
    method Str() returns (r: Text)
      requires Valid()
      ensures r == TextOf(line, Cur())
      // on a token of a line without NUL characters
      ensures NulFree(line) && Cur() == NextToken(line, s, end) ==>
                (r.Overrun? <==> SplitsEscape(line, Cur(), end))
    {
      hide TextFrom, NextToken, OpenBackslash;
      if NulFree(line) && Cur() == NextToken(line, s, end) {
        OverrunIff(line, Cur(), end);
      }
      if !quoted {
        return Text(line[s..s + len]);
      }
      r := Unquote(line, s, len);
    }

    /** `operator++` */
    method Advance()
      requires Valid()
      modifies this
      ensures Valid()
      ensures Cur() == NextToken(line, old(s + len), end)
      // the kind is that of the characters, and the token ends where it should
      ensures kind != Eol ==> kind == KindOfText(line[s..s + len])
      ensures EndsWell(line, Cur(), end)
    {
      hide TokenAt, SkipSpace, KindOfText, EndsWell;
      KindIsText(line, s + len, end);
      TokenEndsWell(line, s + len, end);
      s := SkipShellSpace(line, s + len, end);
      len := 0;
      quoted := false;
      if s == end {
        kind := Eol;
        return;
      }
      var p;
      p, kind, quoted := ReadToken(line, s, end);
      len := p - s;
    }
  }

  /** The part of `operator++` that reads the token starting at `s`. */
  method ReadToken(line: string, s: nat, end: nat) returns (p: nat, kind: Kind, quoted: bool)
    requires s < end <= |line| && !IsSpace(line[s]) && line[s] != '#'
    ensures s <= p && Token(s, p - s, kind, quoted) == TokenAt(line, s, end)
  {
    hide Word, Digits, IsSpace, IsDigit;
    quoted := false;
    p := ReadDigits(line, s, end);
    if p != end && (line[p] == '<' || line[p] == '>') {
      p := p + 1;
      if p != end && line[p] == '>' {
        p := p + 1;
      } else {
        p := ReadDigits(line, p, end);
      }
      kind := Redirect;
    } else if p == s && (line[p] == '&' || line[p] == '|') && p + 1 != end && line[p + 1] == line[p] {
      kind := if line[p] == '&' then And else Or;
      p := p + 2;
    } else if p == s && IsSpecial(line[p]) {
      kind := OneCharKind(line[p]);
      p := p + 1;
    } else {
      kind := Normal;
      p, quoted := ReadWord(line, p, end);
    }
  }

  /** The part of `str()` that removes quotes and escapes. */
  method Unquote(line: string, s: nat, len: nat) returns (text: Text)
    requires s + len <= |line|
    ensures text == TextFrom(line, s, len, 0, '\0', "")
  {
    var r := "";
    var q := '\0';
    var pos := 0;
    while pos != len
      invariant 0 <= pos <= len
      invariant TextFrom(line, s, len, 0, '\0', "") == TextFrom(line, s, len, pos, q, r)
      decreases len - pos
    {
      var c := line[s + pos];
      if IsQuote(c) && q == '\0' {
        q := c;
      } else if c == q {
        q := '\0';
      } else if c == '\\' && CharAt(line, s + pos + 1) != '\0' && q != '\'' {
        r := r + [CharAt(line, s + pos + 1)];
        pos := pos + 1;
        if pos == len {
          // `pos` will be len + 1, and differ from len from then on
          return Overrun;
        }
      } else {
        r := r + [c];
      }
      pos := pos + 1;
    }
    text := Text(r);
  }

  method SkipShellSpace(line: string, s: nat, end: nat) returns (r: nat)
    requires s <= end <= |line|
    ensures r == SkipSpace(line, s, end)
  {
    r := s;
    while r != end && IsSpace(line[r])
      invariant s <= r <= end
      invariant SkipBlank(line, r, end) == SkipBlank(line, s, end)
      decreases end - r
    {
      r := r + 1;
    }
    if r != end && line[r] == '#' {
      r := end;
    }
  }

  method ReadDigits(line: string, s: nat, end: nat) returns (p: nat)
    requires s <= end <= |line|
    ensures p == Digits(line, s, end)
  {
    p := s;
    while p != end && IsDigit(line[p])
      invariant s <= p <= end
      invariant Digits(line, p, end) == Digits(line, s, end)
      decreases end - p
    {
      p := p + 1;
    }
  }

  method ReadWord(line: string, s: nat, end: nat) returns (p: nat, quoted: bool)
    requires s <= end <= |line|
    ensures (p, quoted) == Word(line, s, end, '\0')
  {
    p, quoted := s, false;
    var q := '\0';
    while p != end && (q != '\0' || (!IsSpace(line[p]) && !IsSpecial(line[p])))
      invariant s <= p <= end
      invariant Word(line, s, end, '\0') == (Word(line, p, end, q).0, quoted || Word(line, p, end, q).1)
      decreases end - p
    {
      if IsQuote(line[p]) && q == '\0' {
        q := line[p];
        quoted := true;
      } else if line[p] == q {
        q := '\0';
      } else if line[p] == '\\' && p + 1 != end && q != '\'' {
        quoted := true;
        p := p + 1;
      }
      p := p + 1;
    }
  }
}
