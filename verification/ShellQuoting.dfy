/**
 Quoting: a word put together from bare, single-quoted and double-quoted parts is
 one token, and `str()` gives back what the parts hold.
 */
module ShellQuoting {
  import opened ShellTokens
  import opened ShellText

  /** A character, or a backslash and a character. */
  datatype Item = Lit(c: char) | Esc(c: char)

  datatype Part = Bare(items: seq<Item>) | Single(chars: string) | Double(items: seq<Item>)

  /** What may stand unescaped outside quotes, or with `q` open. */
  predicate Plain(c: char, q: char) {
    if q == '\0' then !IsSpace(c) && !IsSpecial(c) && !IsQuote(c) && c != '\\' else c != q && c != '\\'
  }

  predicate ItemsOk(items: seq<Item>, q: char) {
    forall i :: 0 <= i < |items| ==> items[i].c != '\0' && (items[i].Lit? ==> Plain(items[i].c, q))
  }

  predicate PartOk(p: Part) {
    match p
    case Bare(items) => ItemsOk(items, '\0')
    case Single(chars) => forall i :: 0 <= i < |chars| ==> chars[i] != '\'' && chars[i] != '\0'
    case Double(items) => ItemsOk(items, '\"')
  }

  // ------------------------------------------------------------------
  // What is written, and what it stands for

  function RawItem(x: Item): (w: string)
    ensures |w| > 0
  {
    if x.Lit? then [x.c] else ['\\', x.c]
  }

  function RawItems(items: seq<Item>): string {
    if items == [] then "" else RawItem(items[0]) + RawItems(items[1..])
  }

  function Held(items: seq<Item>): string {
    if items == [] then "" else [items[0].c] + Held(items[1..])
  }

  function Raw(p: Part): string {
    match p
    case Bare(items) => RawItems(items)
    case Single(chars) => ['\''] + chars + ['\'']
    case Double(items) => ['\"'] + RawItems(items) + ['\"']
  }

  function Content(p: Part): string {
    if p.Single? then p.chars else Held(p.items)
  }

  function RawAll(ps: seq<Part>): string {
    if ps == [] then "" else Raw(ps[0]) + RawAll(ps[1..])
  }

  function ContentAll(ps: seq<Part>): string {
    if ps == [] then "" else Content(ps[0]) + ContentAll(ps[1..])
  }

  predicate HasEscape(items: seq<Item>) {
    exists i :: 0 <= i < |items| && items[i].Esc?
  }

  predicate IsQuoted(p: Part) {
    p.Bare? ==> HasEscape(p.items)
  }

  predicate AnyQuoted(ps: seq<Part>) {
    exists i :: 0 <= i < |ps| && IsQuoted(ps[i])
  }

  predicate PartsOk(ps: seq<Part>) {
    forall i :: 0 <= i < |ps| ==> PartOk(ps[i])
  }

  /** The string `w` stands in the line at `p`, before `end`. */
  predicate Stands(line: string, p: nat, end: nat, w: string) {
    p + |w| <= end <= |line| && line[p..p + |w|] == w
  }

  lemma {:induction false} StandsParts(line: string, p: nat, end: nat, a: string, b: string)
    requires Stands(line, p, end, a + b)
    ensures Stands(line, p, end, a) && Stands(line, p + |a|, end, b)
    ensures a != "" ==> line[p] == a[0]
  {
    var w := line[p..p + |a| + |b|];
    assert w == a + b;
    assert w[..|a|] == a && w[|a|..] == b;
    assert line[p..p + |a|] == w[..|a|];
    assert line[p + |a|..p + |a| + |b|] == w[|a|..];
    if a != "" {
      assert line[p] == w[0];
    }
  }

  // ------------------------------------------------------------------
  // The tokenizer's steps

  lemma {:induction false} WordLit(line: string, p: nat, end: nat, q: char)
    requires p < end <= |line| && (q == '\0' || q == '\"') && Plain(line[p], q)
    ensures Word(line, p, end, q) == Word(line, p + 1, end, q)
  {
    hide IsSpace, IsSpecial;
  }

  lemma {:induction false} WordEsc(line: string, p: nat, end: nat, q: char)
    requires p + 1 < end <= |line| && (q == '\0' || q == '\"') && line[p] == '\\'
    ensures Word(line, p, end, q) == (Word(line, p + 2, end, q).0, true)
  {
  }

  lemma {:induction false} WordOpen(line: string, p: nat, end: nat)
    requires p < end <= |line| && IsQuote(line[p])
    ensures Word(line, p, end, '\0') == (Word(line, p + 1, end, line[p]).0, true)
  {
  }

  lemma {:induction false} WordClose(line: string, p: nat, end: nat, q: char)
    requires p < end <= |line| && IsQuote(q) && line[p] == q
    ensures Word(line, p, end, q) == Word(line, p + 1, end, '\0')
  {
    hide IsSpace, IsSpecial;
  }

  lemma {:induction false} EscapeHead(items: seq<Item>)
    requires items != []
    ensures HasEscape(items) <==> items[0].Esc? || HasEscape(items[1..])
  {
    assert items == [items[0]] + items[1..];
    if HasEscape(items[1..]) {
      var i :| 0 <= i < |items[1..]| && items[1..][i].Esc?;
      assert items[i + 1].Esc?;
    }
  }

  lemma {:induction false} ItemsTail(items: seq<Item>, q: char)
    requires ItemsOk(items, q) && items != []
    ensures ItemsOk(items[1..], q) && items[0].c != '\0' && (items[0].Lit? ==> Plain(items[0].c, q))
  {
    hide Plain;
  }

  /** An item stands: its characters. */
  lemma {:induction false} ItemStands(line: string, p: nat, end: nat, x: Item)
    requires Stands(line, p, end, RawItem(x))
    ensures x.Lit? ==> p < end && line[p] == x.c
    ensures x.Esc? ==> p + 1 < end && line[p] == '\\' && line[p + 1] == x.c
  {
    var w := line[p..p + |RawItem(x)|];
    assert w[0] == line[p];
    if x.Esc? {
      assert w[1] == line[p + 1];
    }
  }

  lemma {:induction false} ItemsWord(line: string, p: nat, end: nat, q: char, items: seq<Item>)
    requires Stands(line, p, end, RawItems(items)) && ItemsOk(items, q) && (q == '\0' || q == '\"')
    ensures var (e, quoted) := Word(line, p + |RawItems(items)|, end, q);
            Word(line, p, end, q) == (e, quoted || HasEscape(items))
    decreases |items|
  {
    hide Word, Plain, Stands, HasEscape, ItemsOk;
    if items == [] {
      NoEscape();
    } else {
      var x, rest := items[0], items[1..];
      StandsParts(line, p, end, RawItem(x), RawItems(rest));
      ItemStands(line, p, end, x);
      ItemsTail(items, q);
      EscapeHead(items);
      if x.Lit? {
        WordLit(line, p, end, q);
      } else {
        WordEsc(line, p, end, q);
      }
      StandsInside(line, p + |RawItem(x)|, end, RawItems(rest));
      ItemsWord(line, p + |RawItem(x)|, end, q, rest);
    }
  }

  lemma {:induction false} NoEscape()
    ensures !HasEscape([])
  {
  }

  lemma {:induction false} StandsInside(line: string, p: nat, end: nat, w: string)
    requires Stands(line, p, end, w)
    ensures p + |w| <= end <= |line|
  {
  }

  lemma {:induction false} SingleWord(line: string, p: nat, end: nat, chars: string)
    requires Stands(line, p, end, chars) && p + |chars| < end && line[p + |chars|] == '\''
    requires forall i :: 0 <= i < |chars| ==> chars[i] != '\''
    ensures Word(line, p, end, '\'') == Word(line, p + |chars| + 1, end, '\0')
    decreases |chars|
  {
    hide IsSpace, IsSpecial;
    if chars != "" {
      assert chars == [chars[0]] + chars[1..];
      StandsParts(line, p, end, [chars[0]], chars[1..]);
      SingleWord(line, p + 1, end, chars[1..]);
    }
  }

  /** A quoted part stands: its marks and what is between them. */
  lemma {:induction false} MarksStand(line: string, p: nat, end: nat, mark: char, w: string)
    requires Stands(line, p, end, [mark] + w + [mark])
    ensures p + |w| + 1 < end <= |line| && line[p] == mark && line[p + 1 + |w|] == mark
    ensures Stands(line, p + 1, end, w)
  {
    StandsParts(line, p, end, [mark] + w, [mark]);
    StandsParts(line, p, end, [mark], w);
    StandsParts(line, p + 1 + |w|, end, [mark], "");
  }

  lemma {:induction false} PartWord(line: string, p: nat, end: nat, part: Part)
    requires Stands(line, p, end, Raw(part)) && PartOk(part)
    ensures p + |Raw(part)| <= end <= |line|
    ensures var (e, quoted) := Word(line, p + |Raw(part)|, end, '\0');
            Word(line, p, end, '\0') == (e, quoted || IsQuoted(part))
  {
    hide Word, RawItems, ItemsOk, Stands;
    StandsInside(line, p, end, Raw(part));
    match part {
      case Bare(items) => ItemsWord(line, p, end, '\0', items);
      case Single(chars) =>
        MarksStand(line, p, end, '\'', chars);
        WordOpen(line, p, end);
        SingleWord(line, p + 1, end, chars);
      case Double(items) =>
        var w := RawItems(items);
        MarksStand(line, p, end, '\"', w);
        WordOpen(line, p, end);
        ItemsWord(line, p + 1, end, '\"', items);
        WordClose(line, p + 1 + |w|, end, '\"');
    }
  }

  lemma {:induction false} PartsWord(line: string, p: nat, end: nat, ps: seq<Part>)
    requires Stands(line, p, end, RawAll(ps)) && PartsOk(ps)
    ensures var (e, quoted) := Word(line, p + |RawAll(ps)|, end, '\0');
            Word(line, p, end, '\0') == (e, quoted || AnyQuoted(ps))
    decreases |ps|
  {
    hide Word, PartOk, Raw, IsQuoted;
    if ps != [] {
      var part, rest := ps[0], ps[1..];
      StandsParts(line, p, end, Raw(part), RawAll(rest));
      PartWord(line, p, end, part);
      assert AnyQuoted(ps) <==> IsQuoted(part) || AnyQuoted(rest) by {
        assert ps == [part] + rest;
        if AnyQuoted(rest) {
          var i :| 0 <= i < |rest| && IsQuoted(rest[i]);
          assert IsQuoted(ps[i + 1]);
        }
      }
      PartsWord(line, p + |Raw(part)|, end, rest);
    }
  }

  // ------------------------------------------------------------------
  // The steps of `str()`

  lemma {:induction false} TextLit(line: string, s: nat, len: nat, pos: nat, q: char, r: string)
    requires s + len <= |line| && pos < len && (q == '\0' || q == '\"')
    requires line[s + pos] != '\0' && Plain(line[s + pos], q)
    ensures TextFrom(line, s, len, pos, q, r) == TextFrom(line, s, len, pos + 1, q, r + [line[s + pos]])
  {
    hide IsSpace, IsSpecial;
  }

  lemma {:induction false} TextEsc(line: string, s: nat, len: nat, pos: nat, q: char, r: string)
    requires s + len <= |line| && pos + 1 < len && (q == '\0' || q == '\"')
    requires line[s + pos] == '\\' && line[s + pos + 1] != '\0'
    ensures TextFrom(line, s, len, pos, q, r) == TextFrom(line, s, len, pos + 2, q, r + [line[s + pos + 1]])
  {
  }

  lemma {:induction false} TextOpen(line: string, s: nat, len: nat, pos: nat, r: string)
    requires s + len <= |line| && pos < len && IsQuote(line[s + pos])
    ensures TextFrom(line, s, len, pos, '\0', r) == TextFrom(line, s, len, pos + 1, line[s + pos], r)
  {
  }

  lemma {:induction false} TextClose(line: string, s: nat, len: nat, pos: nat, q: char, r: string)
    requires s + len <= |line| && pos < len && IsQuote(q) && line[s + pos] == q
    ensures TextFrom(line, s, len, pos, q, r) == TextFrom(line, s, len, pos + 1, '\0', r)
  {
  }

  lemma {:induction false} ItemsText(line: string, s: nat, len: nat, pos: nat, q: char, r: string, items: seq<Item>)
    requires s + len <= |line| && pos <= len && Stands(line, s + pos, s + len, RawItems(items))
    requires ItemsOk(items, q) && (q == '\0' || q == '\"')
    ensures TextFrom(line, s, len, pos, q, r)
         == TextFrom(line, s, len, pos + |RawItems(items)|, q, r + Held(items))
    decreases |items|
  {
    hide TextFrom, Plain, Stands, ItemsOk, RawItems, Held, RawItem;
    if items == [] {
      NoItems();
      assert r + "" == r;
    } else {
      var x, rest := items[0], items[1..];
      ItemsCons(items);
      StandsParts(line, s + pos, s + len, RawItem(x), RawItems(rest));
      ItemStands(line, s + pos, s + len, x);
      ItemsTail(items, q);
      if x.Lit? {
        TextLit(line, s, len, pos, q, r);
      } else {
        TextEsc(line, s, len, pos, q, r);
      }
      StandsInside(line, s + pos + |RawItem(x)|, s + len, RawItems(rest));
      ItemsText(line, s, len, pos + |RawItem(x)|, q, r + [x.c], rest);
      assert r + [x.c] + Held(rest) == r + ([x.c] + Held(rest));
    }
  }

  lemma {:induction false} NoItems()
    ensures RawItems([]) == "" && Held([]) == ""
  {
  }

  lemma {:induction false} ItemsCons(items: seq<Item>)
    requires items != []
    ensures RawItems(items) == RawItem(items[0]) + RawItems(items[1..])
    ensures Held(items) == [items[0].c] + Held(items[1..])
    ensures |RawItem(items[0])| == if items[0].Lit? then 1 else 2
  {
  }

  lemma {:induction false} SingleText(line: string, s: nat, len: nat, pos: nat, r: string, chars: string)
    requires s + len <= |line| && pos + |chars| < len && Stands(line, s + pos, s + len, chars)
    requires line[s + pos + |chars|] == '\'' && forall i :: 0 <= i < |chars| ==> chars[i] != '\''
    ensures TextFrom(line, s, len, pos, '\'', r) == TextFrom(line, s, len, pos + |chars| + 1, '\0', r + chars)
    decreases |chars|
  {
    if chars == "" {
      assert r + "" == r;
    } else {
      assert chars == [chars[0]] + chars[1..];
      StandsParts(line, s + pos, s + len, [chars[0]], chars[1..]);
      SingleText(line, s, len, pos + 1, r + [chars[0]], chars[1..]);
      assert r + [chars[0]] + chars[1..] == r + chars;
    }
  }

  lemma {:induction false} ApostropheText(line: string, s: nat, len: nat, pos: nat, r: string, chars: string)
    requires s + len <= |line| && pos <= len && forall i :: 0 <= i < |chars| ==> chars[i] != '\''
    requires Stands(line, s + pos, s + len, ['\''] + chars + ['\''])
    ensures TextFrom(line, s, len, pos, '\0', r) == TextFrom(line, s, len, pos + |chars| + 2, '\0', r + chars)
  {
    hide TextFrom, Stands;
    MarksStand(line, s + pos, s + len, '\'', chars);
    TextOpen(line, s, len, pos, r);
    SingleText(line, s, len, pos + 1, r, chars);
  }

  lemma {:induction false} QuotedText(line: string, s: nat, len: nat, pos: nat, r: string, items: seq<Item>)
    requires s + len <= |line| && pos <= len && ItemsOk(items, '\"')
    requires Stands(line, s + pos, s + len, ['\"'] + RawItems(items) + ['\"'])
    ensures TextFrom(line, s, len, pos, '\0', r)
         == TextFrom(line, s, len, pos + |RawItems(items)| + 2, '\0', r + Held(items))
  {
    hide TextFrom, RawItems, ItemsOk, Held, Stands;
    var w := RawItems(items);
    MarksStand(line, s + pos, s + len, '\"', w);
    TextOpen(line, s, len, pos, r);
    ItemsText(line, s, len, pos + 1, '\"', r, items);
    TextClose(line, s, len, pos + 1 + |w|, '\"', r + Held(items));
  }

  lemma {:induction false} PartText(line: string, s: nat, len: nat, pos: nat, r: string, part: Part)
    requires s + len <= |line| && pos <= len && Stands(line, s + pos, s + len, Raw(part)) && PartOk(part)
    ensures TextFrom(line, s, len, pos, '\0', r)
         == TextFrom(line, s, len, pos + |Raw(part)|, '\0', r + Content(part))
  {
    hide TextFrom, RawItems, ItemsOk, Held, Stands;
    match part {
      case Bare(items) => ItemsText(line, s, len, pos, '\0', r, items);
      case Single(chars) => ApostropheText(line, s, len, pos, r, chars);
      case Double(items) => QuotedText(line, s, len, pos, r, items);
    }
  }

  lemma {:induction false} TextDone(line: string, s: nat, len: nat, r: string)
    requires s + len <= |line|
    ensures TextFrom(line, s, len, len, '\0', r) == Text(r)
  {
  }

  lemma {:induction false} PartsText(line: string, s: nat, len: nat, pos: nat, r: string, ps: seq<Part>)
    requires s + len <= |line| && pos <= len && Stands(line, s + pos, s + len, RawAll(ps)) && PartsOk(ps)
    ensures TextFrom(line, s, len, pos, '\0', r)
         == TextFrom(line, s, len, pos + |RawAll(ps)|, '\0', r + ContentAll(ps))
    decreases |ps|
  {
    hide TextFrom, PartOk, Raw, Content, Stands;
    if ps == [] {
      assert r + "" == r;
    } else {
      var part, rest := ps[0], ps[1..];
      StandsParts(line, s + pos, s + len, Raw(part), RawAll(rest));
      StandsInside(line, s + pos + |Raw(part)|, s + len, RawAll(rest));
      PartText(line, s, len, pos, r, part);
      PartsText(line, s, len, pos + |Raw(part)|, r + Content(part), rest);
      assert r + Content(part) + ContentAll(rest) == r + ContentAll(ps);
    }
  }

  // ------------------------------------------------------------------
  // The round trip

  lemma {:induction false} BareItems(items: seq<Item>)
    requires !HasEscape(items)
    ensures RawItems(items) == Held(items)
  {
    if items != [] {
      assert items[0].Lit?;
      assert forall i :: 0 <= i < |items[1..]| ==> items[1..][i] == items[i + 1];
      BareItems(items[1..]);
    }
  }

  /** Without quotes and escapes, what is written is what it stands for. */
  lemma {:induction false} BareParts(ps: seq<Part>)
    requires !AnyQuoted(ps)
    ensures RawAll(ps) == ContentAll(ps)
  {
    hide RawItems, Held, HasEscape;
    if ps != [] {
      assert !IsQuoted(ps[0]);
      assert forall i :: 0 <= i < |ps[1..]| ==> ps[1..][i] == ps[i + 1];
      BareItems(ps[0].items);
      BareParts(ps[1..]);
    }
  }

  /** The first character of a word after its leading digits is none of the special
      ones. */
  lemma {:induction false} ItemsHead(items: seq<Item>, k: nat)
    requires ItemsOk(items, '\0') && k < |RawItems(items)| && forall i :: 0 <= i < k ==> IsDigit(RawItems(items)[i])
    ensures var c := RawItems(items)[k]; !IsSpace(c) && !IsSpecial(c)
    decreases |items|
  {
    var x, rest := items[0], items[1..];
    var w := RawItems(items);
    if k == 0 {
      assert w[0] == RawItem(x)[0];
    } else {
      assert IsDigit(w[0]) && w[0] == RawItem(x)[0];
      assert w == [x.c] + RawItems(rest);
      forall i | 0 <= i < k - 1
        ensures IsDigit(RawItems(rest)[i])
      {
        assert w[i + 1] == RawItems(rest)[i];
      }
      ItemsHead(rest, k - 1);
    }
  }

  lemma {:induction false} PartHead(part: Part, k: nat)
    requires PartOk(part) && k < |Raw(part)| && forall i :: 0 <= i < k ==> IsDigit(Raw(part)[i])
    ensures var c := Raw(part)[k]; !IsSpace(c) && !IsSpecial(c)
  {
    hide RawItems, ItemsOk;
    if part.Bare? {
      ItemsHead(part.items, k);
    } else {
      assert k > 0 ==> IsDigit(Raw(part)[0]);
    }
  }

  lemma {:induction false} WordHead(ps: seq<Part>, k: nat)
    requires PartsOk(ps) && k < |RawAll(ps)| && forall i :: 0 <= i < k ==> IsDigit(RawAll(ps)[i])
    ensures var c := RawAll(ps)[k]; !IsSpace(c) && !IsSpecial(c)
    decreases |ps|
  {
    hide PartOk, Raw, IsSpace, IsSpecial;
    var w, a, b := RawAll(ps), Raw(ps[0]), RawAll(ps[1..]);
    assert w == a + b;
    if k < |a| {
      assert forall i :: 0 <= i < k ==> w[i] == a[i];
      PartHead(ps[0], k);
    } else {
      assert forall i :: 0 <= i < k - |a| ==> b[i] == w[i + |a|];
      WordHead(ps[1..], k - |a|);
    }
  }

  /** What follows the word ends it, and does not make its digits a redirection. */
  predicate Follows(line: string, s: nat, e: nat, end: nat)
    requires s <= e <= end <= |line|
  {
    e < end ==>
      && (IsSpace(line[e]) || IsSpecial(line[e]))
      && (IsArrow(line[e]) ==> exists i :: s <= i < e && !IsDigit(line[i]))
  }

  /** A word put together from parts, standing in any region of a line, is one
      token, and its text is what the parts hold. */
  lemma {:induction false} QuotingRoundTrip(line: string, s: nat, end: nat, ps: seq<Part>)
    requires PartsOk(ps) && RawAll(ps) != "" && Stands(line, s, end, RawAll(ps))
    requires Follows(line, s, s + |RawAll(ps)|, end)
    ensures var t := NextToken(line, s, end);
            t == Token(s, |RawAll(ps)|, Normal, AnyQuoted(ps)) && TextOf(line, t) == Text(ContentAll(ps))
  {
    hide Word, Digits, TextFrom, PartsOk, RawAll, ContentAll, AnyQuoted, Follows, TokenAt;
    var n := |RawAll(ps)|;
    WordIsToken(line, s, end, ps);
    if AnyQuoted(ps) {
      PartsText(line, s, n, 0, "", ps);
      TextDone(line, s, n, "" + ContentAll(ps));
      assert "" + ContentAll(ps) == ContentAll(ps);
    } else {
      BareParts(ps);
    }
  }

  lemma {:induction false} WordIsToken(line: string, s: nat, end: nat, ps: seq<Part>)
    requires PartsOk(ps) && RawAll(ps) != "" && Stands(line, s, end, RawAll(ps))
    requires Follows(line, s, s + |RawAll(ps)|, end)
    ensures NextToken(line, s, end) == Token(s, |RawAll(ps)|, Normal, AnyQuoted(ps))
  {
    hide Word, Digits, PartsOk, RawAll, AnyQuoted, Follows, IsSpace;
    var n := |RawAll(ps)|;
    WordHead(ps, 0);
    assert line[s..s + n][0] == line[s];
    var p := Digits(line, s, end);
    AfterDigits(line, s, end, ps, p);
    PartsWord(line, s, end, ps);
    FollowsEnds(line, s, s + n, end);
    DigitsInWord(line, s, end);
    assert SkipBlank(line, s, end) == s;
    assert p == s ==> !IsSpecial(line[p]);
  }

  /** The leading digits of the word are not followed by an arrow. */
  lemma {:induction false} AfterDigits(line: string, s: nat, end: nat, ps: seq<Part>, p: nat)
    requires PartsOk(ps) && RawAll(ps) != "" && Stands(line, s, end, RawAll(ps))
    requires Follows(line, s, s + |RawAll(ps)|, end) && p == Digits(line, s, end)
    ensures p <= s + |RawAll(ps)| && (p < end ==> !IsArrow(line[p]))
  {
    hide PartsOk, RawAll, Digits;
    var w := RawAll(ps);
    var e := s + |w|;
    assert forall i :: 0 <= i < |w| ==> line[s..e][i] == line[s + i];
    if p < e {
      assert forall i :: 0 <= i < p - s ==> w[i] == line[s + i];
      WordHead(ps, p - s);
      assert w[p - s] == line[p];
    }
  }

  lemma {:induction false} FollowsEnds(line: string, s: nat, e: nat, end: nat)
    requires s <= e <= end <= |line| && Follows(line, s, e, end)
    ensures Word(line, e, end, '\0') == (e, false)
  {
  }

  // ------------------------------------------------------------------
  // A quotation that is not closed

  /** What is written of a quoted part that the region cuts off. */
  function RawOpen(p: Part): string
    requires !p.Bare?
  {
    match p
    case Single(chars) => ['\''] + chars
    case Double(items) => ['\"'] + RawItems(items)
  }

  lemma {:induction false} SingleOpenWord(line: string, p: nat, end: nat, chars: string)
    requires Stands(line, p, end, chars) && p + |chars| == end
    requires forall i :: 0 <= i < |chars| ==> chars[i] != '\''
    ensures Word(line, p, end, '\'').0 == end
    decreases |chars|
  {
    hide IsSpace, IsSpecial;
    if chars != "" {
      assert chars == [chars[0]] + chars[1..];
      StandsParts(line, p, end, [chars[0]], chars[1..]);
      SingleOpenWord(line, p + 1, end, chars[1..]);
    }
  }

  lemma {:induction false} SingleOpenText(line: string, s: nat, len: nat, pos: nat, r: string, chars: string)
    requires s + len <= |line| && pos + |chars| == len && Stands(line, s + pos, s + len, chars)
    requires forall i :: 0 <= i < |chars| ==> chars[i] != '\''
    ensures TextFrom(line, s, len, pos, '\'', r) == Text(r + chars)
    decreases |chars|
  {
    if chars == "" {
      assert r + "" == r;
    } else {
      assert chars == [chars[0]] + chars[1..];
      StandsParts(line, s + pos, s + len, [chars[0]], chars[1..]);
      SingleOpenText(line, s, len, pos + 1, r + [chars[0]], chars[1..]);
      assert r + [chars[0]] + chars[1..] == r + chars;
    }
  }

  lemma {:induction false} OpenWord(line: string, p: nat, end: nat, last: Part)
    requires !last.Bare? && PartOk(last) && Stands(line, p, end, RawOpen(last)) && p + |RawOpen(last)| == end
    ensures Word(line, p, end, '\0') == (end, true)
  {
    hide Word, RawItems, ItemsOk, Stands;
    var w := if last.Single? then last.chars else RawItems(last.items);
    var mark := if last.Single? then '\'' else '\"';
    StandsParts(line, p, end, [mark], w);
    StandsInside(line, p + 1, end, w);
    WordOpen(line, p, end);
    if last.Single? {
      SingleOpenWord(line, p + 1, end, w);
    } else {
      ItemsWord(line, p + 1, end, '\"', last.items);
      WordAtEnd(line, end, '\"');
    }
  }

  lemma {:induction false} WordAtEnd(line: string, end: nat, q: char)
    requires end <= |line|
    ensures Word(line, end, end, q) == (end, false)
  {
  }

  lemma {:induction false} OpenDoubleText(line: string, s: nat, len: nat, pos: nat, r: string, items: seq<Item>)
    requires s + len <= |line| && pos + 1 + |RawItems(items)| == len && ItemsOk(items, '\"')
    requires Stands(line, s + pos, s + len, ['\"'] + RawItems(items))
    ensures TextFrom(line, s, len, pos, '\0', r) == Text(r + Held(items))
  {
    hide TextFrom, RawItems, ItemsOk, Stands, Held;
    StandsParts(line, s + pos, s + len, ['\"'], RawItems(items));
    TextOpen(line, s, len, pos, r);
    ItemsText(line, s, len, pos + 1, '\"', r, items);
    TextStops(line, s, len, '\"', r + Held(items));
  }

  lemma {:induction false} OpenSingleText(line: string, s: nat, len: nat, pos: nat, r: string, chars: string)
    requires s + len <= |line| && pos + 1 + |chars| == len && forall i :: 0 <= i < |chars| ==> chars[i] != '\''
    requires Stands(line, s + pos, s + len, ['\''] + chars)
    ensures TextFrom(line, s, len, pos, '\0', r) == Text(r + chars)
  {
    hide TextFrom, Stands;
    StandsParts(line, s + pos, s + len, ['\''], chars);
    TextOpen(line, s, len, pos, r);
    SingleOpenText(line, s, len, pos + 1, r, chars);
  }

  lemma {:induction false} OpenText(line: string, s: nat, len: nat, pos: nat, r: string, last: Part)
    requires !last.Bare? && PartOk(last) && s + len <= |line| && pos + |RawOpen(last)| == len
    requires Stands(line, s + pos, s + len, RawOpen(last))
    ensures TextFrom(line, s, len, pos, '\0', r) == Text(r + Content(last))
  {
    hide TextFrom, RawItems, ItemsOk, Stands, Held;
    match last {
      case Single(chars) => OpenSingleText(line, s, len, pos, r, chars);
      case Double(items) => OpenDoubleText(line, s, len, pos, r, items);
    }
  }

  lemma {:induction false} TextStops(line: string, s: nat, len: nat, q: char, r: string)
    requires s + len <= |line|
    ensures TextFrom(line, s, len, len, q, r) == Text(r)
  {
  }

  /** A word whose last quotation is not closed goes on to the end of the region. */
  lemma {:induction false} OpenQuoteRoundTrip(line: string, s: nat, end: nat, ps: seq<Part>, last: Part)
    requires PartsOk(ps) && !last.Bare? && PartOk(last)
    requires Stands(line, s, end, RawAll(ps) + RawOpen(last)) && s + |RawAll(ps) + RawOpen(last)| == end
    ensures var t := NextToken(line, s, end);
            t == Token(s, end - s, Normal, true) && TextOf(line, t) == Text(ContentAll(ps) + Content(last))
  {
    hide Word, Digits, TextFrom, PartsOk, PartOk, RawAll, RawOpen, Content, ContentAll, AnyQuoted, TokenAt, IsSpace;
    var n := |RawAll(ps)|;
    OpenIsToken(line, s, end, ps, last);
    StandsParts(line, s, end, RawAll(ps), RawOpen(last));
    PartsText(line, s, end - s, 0, "", ps);
    assert "" + ContentAll(ps) == ContentAll(ps);
    OpenText(line, s, end - s, n, ContentAll(ps), last);
  }

  lemma {:induction false} OpenIsToken(line: string, s: nat, end: nat, ps: seq<Part>, last: Part)
    requires PartsOk(ps) && !last.Bare? && PartOk(last)
    requires Stands(line, s, end, RawAll(ps) + RawOpen(last)) && s + |RawAll(ps) + RawOpen(last)| == end
    ensures NextToken(line, s, end) == Token(s, end - s, Normal, true)
  {
    hide Word, Digits, PartsOk, PartOk, RawAll, RawItems, AnyQuoted, IsSpace;
    StandsParts(line, s, end, RawAll(ps), RawOpen(last));
    PartsWord(line, s, end, ps);
    OpenWord(line, s + |RawAll(ps)|, end, last);
    DigitsInWord(line, s, end);
    var p := Digits(line, s, end);
    OpenHead(line, s, end, ps, last, p);
    OpenHead(line, s, end, ps, last, s);
    assert SkipBlank(line, s, end) == s;
  }

  /** As with a closed word, what follows the leading digits is not special. */
  lemma {:induction false} OpenHead(line: string, s: nat, end: nat, ps: seq<Part>, last: Part, p: nat)
    requires PartsOk(ps) && !last.Bare? && PartOk(last)
    requires Stands(line, s, end, RawAll(ps) + RawOpen(last)) && s + |RawAll(ps) + RawOpen(last)| == end
    requires s <= p <= end && forall i :: s <= i < p ==> IsDigit(line[i])
    ensures p < end && !IsSpace(line[p]) && !IsSpecial(line[p])
  {
    hide PartsOk, PartOk, RawAll, RawItems;
    var a, b := RawAll(ps), RawOpen(last);
    StandsParts(line, s, end, a, b);
    var e := s + |a|;
    assert line[e] == b[0] && IsQuote(line[e]) && !IsDigit(line[e]);
    if p < e {
      assert forall i :: 0 <= i < |a| ==> line[s..e][i] == line[s + i];
      assert forall i :: 0 <= i < p - s ==> a[i] == line[s + i];
      WordHead(ps, p - s);
      assert a[p - s] == line[p];
    }
  }
}
