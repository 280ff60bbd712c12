/**
 The escape-sequence buffer of the console printer (pset3/lib.cc, pset3/lib.hh):
 a byte-at-a-time filter that collects the prefix of a colour sequence
 (Select Graphic Rendition, section 8.3.117 of ECMA-48).  It is compared with a
 parser that looks ahead, and with plain removal of complete sequences.
 */
module Escape {
  const ESC: bv8 := 0x1B
  const BRACKET: bv8 := 0x5B    // '['
  const LETTER_M: bv8 := 0x6D   // 'm'
  const SEMICOLON: bv8 := 0x3B
  const BUFSIZE := 12
  const COLOR_GRAY: bv16 := 0x0700

  predicate IsDigit(c: bv8) {
    0x30 <= c <= 0x39
  }

  /** A byte that extends a collected prefix of length `k`. */
  predicate Continues(k: nat, c: bv8) {
    (k == 1 && c == BRACKET) || (2 <= k && k + 1 < BUFSIZE && (IsDigit(c) || c == SEMICOLON))
  }

  // ------------------------------------------------------------------
  // Colours

  /** `colormap`, shifted into the foreground position */
  function Map(x: nat): bv16 {
    if x == 1 then 0x0400 else if x == 2 then 0x0200 else if x == 3 then 0x0600 else if x == 4 then 0x0100
    else if x == 5 then 0x0500 else if x == 6 then 0x0300 else if x == 7 then 0x0700 else 0
  }

  /** One parameter of the sequence. */
  function Apply(x: nat, color: bv16): bv16 {
    if x == 0 then COLOR_GRAY
    else if x == 1 then color | 0x0800
    else if x == 2 then color & 0xF7FF
    else if x == 7 then ((color >> 4) | (color << 4)) & 0xFF00
    else if 30 <= x <= 37 then (color & 0xF000) | Map(x - 30)
    else if 40 <= x <= 47 then (color & 0x0F00) | (Map(x - 40) << 4)
    else if 90 <= x <= 97 then (color & 0xF000) | Map(x - 90) | 0x0800
    else if 100 <= x <= 107 then (color & 0x0F00) | (Map(x - 100) << 4) | 0x8000
    else color
  }

  // The colour word: background in bits 12 to 15, foreground in bits 8 to 11, each
  // bright, red, green, blue from the highest bit down.

  const BRIGHT: bv16 := 0x0800
  const RED: bv16 := 0x0400
  const GREEN: bv16 := 0x0200
  const BLUE: bv16 := 0x0100
  const FOREGROUND: bv16 := 0x0F00
  const BACKGROUND: bv16 := 0xF000

  /** The foreground bits of `c` are those of colour `k` of ECMA-48: 1 for red, 2
      for green, 4 for blue. */
  predicate IsHue(c: bv16, k: nat) {
    && (c & RED != 0 <==> k % 2 == 1)
    && (c & GREEN != 0 <==> k / 2 % 2 == 1)
    && (c & BLUE != 0 <==> k / 4 % 2 == 1)
  }

  lemma {:induction false} MapIsHue(k: nat)
    requires k < 8
    ensures IsHue(Map(k), k) && Map(k) & 0xF8FF == 0
  {
    if k == 0 {
    } else if k == 1 {
    } else if k == 2 {
    } else if k == 3 {
    } else if k == 4 {
    } else if k == 5 {
    } else if k == 6 {
    } else {
    }
  }

  lemma {:induction false} Combine(c: bv16, hue: bv16, k: nat)
    requires hue & 0xF8FF == 0 && IsHue(hue, k)
    ensures var a := (c & BACKGROUND) | hue; IsHue(a, k) && a & BRIGHT == 0 && a & BACKGROUND == c & BACKGROUND
    ensures var a := (c & BACKGROUND) | hue | BRIGHT;
            IsHue(a, k) && a & BRIGHT != 0 && a & BACKGROUND == c & BACKGROUND
    ensures var a := (c & FOREGROUND) | (hue << 4);
            IsHue(a >> 4, k) && (a >> 4) & BRIGHT == 0 && a & FOREGROUND == c & FOREGROUND
    ensures var a := (c & FOREGROUND) | (hue << 4) | 0x8000;
            IsHue(a >> 4, k) && (a >> 4) & BRIGHT != 0 && a & FOREGROUND == c & FOREGROUND
  {
  }

  /** Parameters 30 to 37 and 90 to 97 set the foreground, dim and bright, and leave
      the background; 40 to 47 and 100 to 107 the other way round. */
  lemma {:induction false} HueParameters(k: nat, c: bv16)
    requires k < 8
    ensures var a := Apply(30 + k, c); IsHue(a, k) && a & BRIGHT == 0 && a & BACKGROUND == c & BACKGROUND
    ensures var a := Apply(90 + k, c); IsHue(a, k) && a & BRIGHT != 0 && a & BACKGROUND == c & BACKGROUND
    ensures var a := Apply(40 + k, c);
            IsHue(a >> 4, k) && (a >> 4) & BRIGHT == 0 && a & FOREGROUND == c & FOREGROUND
    ensures var a := Apply(100 + k, c);
            IsHue(a >> 4, k) && (a >> 4) & BRIGHT != 0 && a & FOREGROUND == c & FOREGROUND
  {
    hide Map, IsHue, Apply;
    MapIsHue(k);
    HueParameter(k, c);
    BackgroundParameter(k, c);
    Combine(c, Map(k), k);
  }

  lemma {:induction false} Reversed(c: bv16)
    requires c & 0xFF == 0
    ensures var a := ((c >> 4) | (c << 4)) & 0xFF00;
            && a & BACKGROUND == (c & FOREGROUND) << 4 && a & FOREGROUND == (c & BACKGROUND) >> 4
            && a & 0xFF == 0 && ((a >> 4) | (a << 4)) & 0xFF00 == c
  {
  }

  lemma {:induction false} Brightness(c: bv16)
    ensures (c | BRIGHT) & BRIGHT != 0 && (c | BRIGHT) & 0xF7FF == c & 0xF7FF
    ensures (c & 0xF7FF) & BRIGHT == 0
    ensures c & 0xFF == 0 ==> (c | BRIGHT) & 0xFF == 0 && (c & 0xF7FF) & 0xFF == 0
  {
  }

  /** Parameter 0 gives gray on black; 1 and 2 switch brightness alone; 7 swaps the
      halves, so that twice it does nothing; a parameter without meaning does
      nothing. */
  lemma {:induction false} OtherParameters(x: nat, c: bv16)
    ensures IsHue(Apply(0, c), 7) && Apply(0, c) & (BRIGHT | BACKGROUND) == 0
    ensures Apply(1, c) & BRIGHT != 0 && Apply(1, c) & 0xF7FF == c & 0xF7FF
    ensures Apply(2, c) & BRIGHT == 0 && Apply(2, c) & 0xF7FF == c & 0xF7FF
    ensures c & 0xFF == 0 ==>
              && Apply(7, c) & BACKGROUND == (c & FOREGROUND) << 4
              && Apply(7, c) & FOREGROUND == (c & BACKGROUND) >> 4
              && Apply(7, Apply(7, c)) == c
    ensures (2 < x < 30 && x != 7) || 37 < x < 40 || 47 < x < 90 || 97 < x < 100 || 107 < x ==> Apply(x, c) == c
  {
    hide Apply;
    GrayParameter(c);
    BrightParameter(c);
    DimParameter(c);
    Brightness(c);
    if c & 0xFF == 0 {
      Reversed(c);
      ReverseParameter(c);
      ReverseParameter(Apply(7, c));
    }
    UnknownParameter(x, c);
  }

  lemma {:induction false} GrayParameter(c: bv16)
    ensures Apply(0, c) == COLOR_GRAY && IsHue(COLOR_GRAY, 7)
  {
    hide Map;
  }

  lemma {:induction false} BrightParameter(c: bv16)
    ensures Apply(1, c) == c | BRIGHT
  {
    hide Map;
  }

  lemma {:induction false} DimParameter(c: bv16)
    ensures Apply(2, c) == c & 0xF7FF
  {
    hide Map;
  }

  lemma {:induction false} ReverseParameter(c: bv16)
    ensures Apply(7, c) == ((c >> 4) | (c << 4)) & 0xFF00
  {
    hide Map;
  }

  lemma {:induction false} UnknownParameter(x: nat, c: bv16)
    ensures (2 < x < 30 && x != 7) || 37 < x < 40 || 47 < x < 90 || 97 < x < 100 || 107 < x ==> Apply(x, c) == c
  {
    hide Map;
  }

  lemma {:induction false} HueParameter(k: nat, c: bv16)
    requires k < 8
    ensures Apply(30 + k, c) == (c & BACKGROUND) | Map(k)
    ensures Apply(90 + k, c) == (c & BACKGROUND) | Map(k) | BRIGHT
  {
    hide Map;
  }

  lemma {:induction false} BackgroundParameter(k: nat, c: bv16)
    requires k < 8
    ensures Apply(40 + k, c) == (c & FOREGROUND) | (Map(k) << 4)
    ensures Apply(100 + k, c) == (c & FOREGROUND) | (Map(k) << 4) | 0x8000
  {
    hide Map;
  }

  lemma {:induction false} HueByte(c: bv16, hue: bv16)
    requires hue & 0xF8FF == 0
    ensures ((c & BACKGROUND) | hue) & 0xFF == 0 && ((c & BACKGROUND) | hue | BRIGHT) & 0xFF == 0
    ensures ((c & FOREGROUND) | (hue << 4)) & 0xFF == 0 && ((c & FOREGROUND) | (hue << 4) | 0x8000) & 0xFF == 0
  {
  }

  lemma {:induction false} HueBytes(k: nat, c: bv16)
    requires k < 8
    ensures Apply(30 + k, c) & 0xFF == 0 && Apply(40 + k, c) & 0xFF == 0
    ensures Apply(90 + k, c) & 0xFF == 0 && Apply(100 + k, c) & 0xFF == 0
  {
    hide Map, IsHue, Apply;
    MapIsHue(k);
    HueParameter(k, c);
    BackgroundParameter(k, c);
    HueByte(c, Map(k));
  }

  /** Colours leave the byte of the character alone. */
  lemma {:induction false} ColorByte(x: nat, c: bv16)
    requires c & 0xFF == 0
    ensures Apply(x, c) & 0xFF == 0
  {
    hide Map, IsHue, Apply;
    if 30 <= x <= 37 {
      HueBytes(x - 30, c);
    } else if 40 <= x <= 47 {
      HueBytes(x - 40, c);
    } else if 90 <= x <= 97 {
      HueBytes(x - 90, c);
    } else if 100 <= x <= 107 {
      HueBytes(x - 100, c);
    } else {
      GrayParameter(c);
      BrightParameter(c);
      DimParameter(c);
      Brightness(c);
      ReverseParameter(c);
      Reversed(c);
      UnknownParameter(x, c);
    }
  }

  lemma {:induction false} ApplyAllByte(ps: seq<nat>, c: bv16)
    requires c & 0xFF == 0
    ensures ApplyAll(ps, c) & 0xFF == 0
    decreases |ps|
  {
    hide Apply;
    if ps != [] {
      ColorByte(ps[0], c);
      ApplyAllByte(ps[1..], Apply(ps[0], c));
    }
  }

  lemma {:induction false} SelectedByte(s: seq<bv8>)
    ensures Selected(s) & 0xFF == 0
  {
    hide ApplyAll, Parameters;
    if |s| > 2 {
      ApplyAllByte(Parameters(s[2..|s| - 1]), COLOR_GRAY);
    }
  }

  /** Index of the first semicolon, or the length. */
  function FirstSemicolon(s: seq<bv8>): (k: nat)
    ensures k <= |s| && (k < |s| ==> s[k] == SEMICOLON)
    ensures forall i :: 0 <= i < k ==> s[i] != SEMICOLON
  {
    if s == [] || s[0] == SEMICOLON then 0 else 1 + FirstSemicolon(s[1..])
  }

  /** The number that decimal digits denote; none denote 0. */
  function Decimal(s: seq<bv8>): nat {
    if s == [] then 0 else Decimal(s[..|s| - 1]) * 10 + (s[|s| - 1] - 0x30) as nat
  }

  /** The numbers between semicolons; at least one. */
  function Parameters(s: seq<bv8>): (ps: seq<nat>)
    ensures ps != []
    decreases |s|
  {
    var k := FirstSemicolon(s);
    [Decimal(s[..k])] + if k == |s| then [] else Parameters(s[k + 1..])
  }

  function ApplyAll(ps: seq<nat>, color: bv16): bv16 {
    if ps == [] then color else ApplyAll(ps[1..], Apply(ps[0], color))
  }

  /** The colour that a complete sequence selects: its parameters, applied to gray
      in order; `ESC m` has none. */
  function Selected(s: seq<bv8>): bv16 {
    if |s| <= 2 then COLOR_GRAY else ApplyAll(Parameters(s[2..|s| - 1]), COLOR_GRAY)
  }

  /** The colour loop from index `i`, with the parameter read so far in `x`. */
  function ColorFrom(s: seq<bv8>, i: nat, x: nat, color: bv16): bv16
    requires i <= |s|
    decreases |s| - i
  {
    if i == |s| then color
    else if IsDigit(s[i]) then ColorFrom(s, i + 1, x * 10 + (s[i] - 0x30) as nat, color)
    else ColorFrom(s, i + 1, 0, Apply(x, color))
  }

  /** The colour loop over a sequence. */
  function ColorOf(s: seq<bv8>): bv16
    requires |s| >= 2
  {
    ColorFrom(s, 2, 0, COLOR_GRAY)
  }

  predicate IsDigits(s: seq<bv8>) {
    forall i :: 0 <= i < |s| ==> IsDigit(s[i])
  }

  lemma {:induction false} DecimalSnoc(d: seq<bv8>, c: bv8)
    ensures Decimal(d + [c]) == Decimal(d) * 10 + (c - 0x30) as nat
  {
    assert (d + [c])[..|d|] == d;
  }

  /** Digits up to the end or to a semicolon are one parameter. */
  lemma {:induction false} ParametersSplit(d: seq<bv8>, rest: seq<bv8>)
    requires IsDigits(d)
    ensures Parameters(d) == [Decimal(d)]
    ensures Parameters(d + [SEMICOLON] + rest) == [Decimal(d)] + Parameters(rest)
  {
    hide Decimal;
    assert forall i :: 0 <= i < |d| ==> IsDigit(d[i]) && d[i] != SEMICOLON;
    assert FirstSemicolon(d) == |d|;
    assert d[..|d|] == d;
    var s := d + [SEMICOLON] + rest;
    assert s[|d|] == SEMICOLON;
    assert forall i :: 0 <= i < |d| ==> s[i] == d[i];
    assert FirstSemicolon(s) == |d|;
    assert s[..|d|] == d && s[|d| + 1..] == rest;
  }

  lemma {:induction false} ApplyCons(x: nat, ps: seq<nat>, color: bv16)
    ensures ApplyAll([x], color) == Apply(x, color)
    ensures ApplyAll([x] + ps, color) == ApplyAll(ps, Apply(x, color))
  {
    hide Apply;
    assert ([x] + ps)[1..] == ps && [x][1..] == [];
    assert ApplyAll([], Apply(x, color)) == Apply(x, color);
  }

  /** The loop, with the digits of the current parameter in `d`, applies the
      parameters that are left. */
  lemma {:induction false} LoopApplies(s: seq<bv8>, i: nat, d: seq<bv8>, color: bv16)
    requires 0 < |s| && i < |s| && s[|s| - 1] == LETTER_M && IsDigits(d)
    requires forall j :: i <= j < |s| - 1 ==> IsDigit(s[j]) || s[j] == SEMICOLON
    ensures ColorFrom(s, i, Decimal(d), color) == ApplyAll(Parameters(d + s[i..|s| - 1]), color)
    decreases |s| - i
  {
    hide Apply, Decimal, Parameters, ApplyAll;
    var n := |s| - 1;
    if i == n {
      ParametersSplit(d, []);
      ApplyCons(Decimal(d), [], color);
      assert d + s[i..n] == d;
      assert ColorFrom(s, |s|, 0, Apply(Decimal(d), color)) == Apply(Decimal(d), color);
    } else if IsDigit(s[i]) {
      DecimalSnoc(d, s[i]);
      LoopApplies(s, i + 1, d + [s[i]], color);
      assert d + [s[i]] + s[i + 1..n] == d + s[i..n];
    } else {
      var rest := s[i + 1..n];
      ParametersSplit(d, rest);
      ApplyCons(Decimal(d), Parameters(rest), color);
      NoDigits();
      LoopApplies(s, i + 1, [], Apply(Decimal(d), color));
      assert [] + rest == rest;
      assert d + [SEMICOLON] + rest == d + s[i..n];
    }
  }

  lemma {:induction false} NoDigits()
    ensures Decimal([]) == 0 && IsDigits([])
  {
  }

  /** The loop of `putc_impl` selects the colour of the parameter list. */
  lemma {:induction false} ColorIsSelected(s: seq<bv8>)
    requires IsSequence(s)
    ensures ColorOf(s) == Selected(s)
  {
    hide Apply, Decimal, Parameters, ApplyAll;
    if |s| > 2 {
      NoDigits();
      LoopApplies(s, 2, [], COLOR_GRAY);
      assert [] + s[2..|s| - 1] == s[2..|s| - 1];
    }
  }

  // ------------------------------------------------------------------
  // The filter, one byte at a time

  /** A character on its way to the screen, in the colour of that moment. */
  datatype Glyph = Glyph(c: bv8, color: bv16)

  datatype Filter = Filter(pending: seq<bv8>, color: bv16)

  function Paint(s: seq<bv8>, color: bv16): (r: seq<Glyph>)
    ensures |r| == |s| && forall i :: 0 <= i < |s| ==> r[i] == Glyph(s[i], color)
  {
    seq(|s|, i requires 0 <= i < |s| => Glyph(s[i], color))
  }

  function Step(f: Filter, c: bv8): (Filter, seq<Glyph>) {
    if f.pending == [] && c != ESC then (f, [Glyph(c, f.color)])
    else
      var p := f.pending + [c];
      if |p| == 1 || Continues(|f.pending|, c) then (f.(pending := p), [])
      else if c != LETTER_M then (Filter([], f.color), Paint(p, f.color))
      else (Filter([], ColorOf(p)), [])
  }

  /** The filter and the characters it has let through after the bytes `bs`. */
  function Feed(f: Filter, bs: seq<bv8>): (Filter, seq<Glyph>)
    decreases |bs|
  {
    if bs == [] then (f, [])
    else
      var (f1, out1) := Step(f, bs[0]);
      var (f2, out2) := Feed(f1, bs[1..]);
      (f2, out1 + out2)
  }

  // ------------------------------------------------------------------
  // A parser with lookahead

  /** How far a prefix of a sequence extends, given that it has length `k`. */
  function PrefixLen(bs: seq<bv8>, k: nat): (n: nat)
    requires 1 <= k <= |bs|
    ensures k <= n <= |bs|
    ensures n < |bs| ==> !Continues(n, bs[n])
    ensures forall i :: k <= i < n ==> Continues(i, bs[i])
    decreases |bs| - k
  {
    if k < |bs| && Continues(k, bs[k]) then PrefixLen(bs, k + 1) else k
  }

  /** Length of the complete sequence that `bs` starts with, or 0. */
  function SequenceLen(bs: seq<bv8>): nat {
    if bs == [] || bs[0] != ESC then 0
    else
      var n := PrefixLen(bs, 1);
      if n < |bs| && bs[n] == LETTER_M then n + 1 else 0
  }

  /** A piece of the input: one byte outside any sequence, a complete sequence, or
      the prefix of one together with the byte that broke it. */
  datatype Piece = Plain(bytes: seq<bv8>) | Sequence(bytes: seq<bv8>) | Broken(bytes: seq<bv8>)

  /** The first piece of `bs`, or none if `bs` is all an unfinished prefix. */
  function FirstPiece(bs: seq<bv8>): (p: seq<Piece>)
    requires bs != []
    ensures |p| <= 1 && (p != [] ==> 0 < |p[0].bytes| <= |bs| && p[0].bytes == bs[..|p[0].bytes|])
  {
    if bs[0] != ESC then [Plain(bs[..1])]
    else
      var n := PrefixLen(bs, 1);
      if n == |bs| then []
      else if bs[n] == LETTER_M then [Sequence(bs[..n + 1])]
      else [Broken(bs[..n + 1])]
  }

  function Pieces(bs: seq<bv8>): seq<Piece>
    decreases |bs|
  {
    if bs == [] then []
    else
      var p := FirstPiece(bs);
      if p == [] then [] else p + Pieces(bs[|p[0].bytes|..])
  }

  /** All bytes of the pieces. */
  function AllBytes(ps: seq<Piece>): seq<bv8> {
    if ps == [] then [] else ps[0].bytes + AllBytes(ps[1..])
  }

  /** The bytes of the pieces that are not complete sequences. */
  function Shown(ps: seq<Piece>): seq<bv8> {
    if ps == [] then [] else (if ps[0].Sequence? then [] else ps[0].bytes) + Shown(ps[1..])
  }

  /** The unfinished prefix that the pieces leave over. */
  function Rest(bs: seq<bv8>): seq<bv8>
    decreases |bs|
  {
    if bs == [] then []
    else
      var p := FirstPiece(bs);
      if p == [] then bs else Rest(bs[|p[0].bytes|..])
  }

  function Chars(gs: seq<Glyph>): (r: seq<bv8>)
    ensures |r| == |gs| && forall i :: 0 <= i < |r| ==> r[i] == gs[i].c
  {
    seq(|gs|, i requires 0 <= i < |gs| => gs[i].c)
  }

  // ------------------------------------------------------------------
  // The filter refines the parser

  /** A collected prefix: ESC, or ESC [ and up to nine digits and semicolons. */
  predicate IsPrefix(s: seq<bv8>) {
    && |s| < BUFSIZE
    && (s != [] ==> s[0] == ESC)
    && forall i :: 1 <= i < |s| ==> Continues(i, s[i])
  }

  lemma {:induction false} StepKeepsPrefix(f: Filter, c: bv8)
    requires IsPrefix(f.pending)
    ensures IsPrefix(Step(f, c).0.pending)
  {
  }

  lemma {:induction false} FeedConcat(f: Filter, a: seq<bv8>, b: seq<bv8>)
    ensures var (f1, out1) := Feed(f, a);
            var (f2, out2) := Feed(f1, b);
            Feed(f, a + b) == (f2, out1 + out2)
    decreases |a|
  {
    hide Step;
    if a == [] {
      assert a + b == b;
      assert [] + Feed(f, b).1 == Feed(f, b).1;
    } else {
      assert (a + b)[1..] == a[1..] + b;
      FeedConcat(Step(f, a[0]).0, a[1..], b);
      var (f1, out1) := Feed(Step(f, a[0]).0, a[1..]);
      var (f2, out2) := Feed(f1, b);
      assert Step(f, a[0]).1 + (out1 + out2) == (Step(f, a[0]).1 + out1) + out2;
    }
  }

  /** While the prefix extends, nothing comes out. */
  lemma {:induction false} FeedPrefix(bs: seq<bv8>, k: nat, color: bv16)
    requires bs != [] && bs[0] == ESC && 1 <= k <= PrefixLen(bs, 1)
    ensures Feed(Filter([], color), bs[..k]) == (Filter(bs[..k], color), [])
    decreases k
  {
    var f := Filter([], color);
    if k == 1 {
      FeedOne(f, bs[0]);
      assert bs[..1] == [bs[0]];
      assert f.pending + [bs[0]] == bs[..1];
    } else {
      FeedPrefix(bs, k - 1, color);
      FeedOne(Filter(bs[..k - 1], color), bs[k - 1]);
      FeedConcat(f, bs[..k - 1], [bs[k - 1]]);
      assert bs[..k] == bs[..k - 1] + [bs[k - 1]];
      assert Continues(k - 1, bs[k - 1]);
    }
  }

  lemma {:induction false} FeedOne(f: Filter, c: bv8)
    ensures Feed(f, [c]) == Step(f, c)
  {
    hide Step;
    var (f1, out1) := Step(f, c);
    assert [c][1..] == [];
    assert Feed(f1, []) == (f1, []);
    assert out1 + [] == out1;
  }

  /** One piece, from an empty buffer. */
  lemma {:induction false} FeedPiece(bs: seq<bv8>, color: bv16)
    requires bs != [] && FirstPiece(bs) != []
    ensures var p := FirstPiece(bs)[0];
            var (f, out) := Feed(Filter([], color), p.bytes);
            && f.pending == []
            && Chars(out) == (if p.Sequence? then [] else p.bytes)
            && (if p.Sequence? then |p.bytes| >= 2 && f.color == ColorOf(p.bytes) else f.color == color)
            && forall i :: 0 <= i < |out| ==> out[i].color == color
  {
    hide ColorOf, Step, Feed, PrefixLen, Continues;
    var f := Filter([], color);
    if bs[0] != ESC {
      FeedOne(f, bs[0]);
      StepPlain(f, bs[0]);
      assert bs[..1] == [bs[0]];
    } else {
      var n := PrefixLen(bs, 1);
      FeedPrefix(bs, n, color);
      FeedOne(Filter(bs[..n], color), bs[n]);
      StepEnds(bs[..n], bs[n], color);
      FeedConcat(f, bs[..n], [bs[n]]);
      assert bs[..n + 1] == bs[..n] + [bs[n]];
      var out := Step(Filter(bs[..n], color), bs[n]).1;
      assert [] + out == out;
    }
  }

  lemma {:induction false} StepPlain(f: Filter, c: bv8)
    requires f.pending == [] && c != ESC
    ensures Step(f, c) == (f, [Glyph(c, f.color)])
  {
  }

  /** The byte that ends a collected prefix completes it or shows it. */
  lemma {:induction false} StepEnds(prefix: seq<bv8>, c: bv8, color: bv16)
    requires prefix != [] && !Continues(|prefix|, c)
    ensures Step(Filter(prefix, color), c)
         == if c == LETTER_M then (Filter([], ColorOf(prefix + [c])), [])
            else (Filter([], color), Paint(prefix + [c], color))
  {
    hide ColorOf, Continues;
  }

  /** The colour after a piece. */
  function ColorAfter(p: Piece, color: bv16): bv16 {
    if p.Sequence? then Selected(p.bytes) else color
  }

  /** The colour of the last complete sequence among the first `k` pieces, or the
      initial colour. */
  function ColorBefore(ps: seq<Piece>, k: nat, color: bv16): bv16
    requires k <= |ps|
  {
    if k == 0 then color else ColorAfter(ps[k - 1], ColorBefore(ps, k - 1, color))
  }

  /** The first `k` pieces as characters, each in the colour in force before it. */
  function Painted(ps: seq<Piece>, k: nat, color: bv16): seq<Glyph>
    requires k <= |ps|
  {
    if k == 0 then []
    else
      Painted(ps, k - 1, color)
      + if ps[k - 1].Sequence? then [] else Paint(ps[k - 1].bytes, ColorBefore(ps, k - 1, color))
  }

  /** Painting from the front. */
  lemma {:induction false} PaintedCons(p: Piece, ps: seq<Piece>, k: nat, color: bv16)
    requires k <= |ps|
    ensures var c := ColorAfter(p, color);
            && ColorBefore([p] + ps, k + 1, color) == ColorBefore(ps, k, c)
            && Painted([p] + ps, k + 1, color)
               == (if p.Sequence? then [] else Paint(p.bytes, color)) + Painted(ps, k, c)
    decreases k
  {
    hide ColorAfter, Paint, Painted, ColorBefore;
    var qs := [p] + ps;
    var c := ColorAfter(p, color);
    PaintedStep(qs, k, color);
    var first := if p.Sequence? then [] else Paint(p.bytes, color);
    if k == 0 {
      PaintedNone(qs, color);
      PaintedNone(ps, c);
      assert [] + first == first + [];
    } else {
      PaintedCons(p, ps, k - 1, color);
      PaintedStep(ps, k - 1, c);
      var last := if ps[k - 1].Sequence? then [] else Paint(ps[k - 1].bytes, ColorBefore(ps, k - 1, c));
      assert first + Painted(ps, k - 1, c) + last == first + (Painted(ps, k - 1, c) + last);
    }
  }

  lemma {:induction false} PaintedNone(ps: seq<Piece>, color: bv16)
    ensures Painted(ps, 0, color) == [] && ColorBefore(ps, 0, color) == color
  {
  }

  lemma {:induction false} PaintedStep(ps: seq<Piece>, k: nat, color: bv16)
    requires k < |ps|
    ensures ColorBefore(ps, k + 1, color) == ColorAfter(ps[k], ColorBefore(ps, k, color))
    ensures Painted(ps, k + 1, color)
         == Painted(ps, k, color) + if ps[k].Sequence? then [] else Paint(ps[k].bytes, ColorBefore(ps, k, color))
  {
    hide ColorAfter, Paint;
  }

  /** One piece: its characters in the current colour, and the colour after it. */
  lemma {:induction false} FeedFirst(bs: seq<bv8>, color: bv16)
    requires bs != [] && FirstPiece(bs) != []
    ensures var p := FirstPiece(bs)[0];
            Feed(Filter([], color), p.bytes)
            == (Filter([], ColorAfter(p, color)), if p.Sequence? then [] else Paint(p.bytes, color))
  {
    hide Step, Feed, ColorOf, Selected, FirstPiece;
    var p := FirstPiece(bs)[0];
    FeedPiece(bs, color);
    var (f, out) := Feed(Filter([], color), p.bytes);
    if p.Sequence? {
      PieceIsSequence(bs);
      ColorIsSelected(p.bytes);
    } else {
      assert forall i :: 0 <= i < |out| ==> out[i] == Glyph(p.bytes[i], color);
      assert out == Paint(p.bytes, color);
    }
  }

  lemma {:induction false} PieceIsSequence(bs: seq<bv8>)
    requires bs != [] && FirstPiece(bs) != [] && FirstPiece(bs)[0].Sequence?
    ensures IsSequence(FirstPiece(bs)[0].bytes)
  {
    hide PrefixLen, Continues;
    SequenceLenIs(bs, |FirstPiece(bs)[0].bytes|);
  }

  /** Fed any bytes, the filter lets through exactly the pieces that are not
      complete sequences, each in the colour of the last complete sequence before
      it, and keeps exactly the unfinished prefix. */
  lemma {:induction false} FilterIsParser(bs: seq<bv8>, color: bv16)
    ensures var (f, out) := Feed(Filter([], color), bs);
            var ps := Pieces(bs);
            && Chars(out) == Shown(ps)
            && out == Painted(ps, |ps|, color)
            && f == Filter(Rest(bs), ColorBefore(ps, |ps|, color))
    decreases |bs|
  {
    hide Step, FirstPiece, Feed, Shown, Pieces, Rest, Chars, Painted, ColorBefore, ColorAfter, Paint;
    var f := Filter([], color);
    if bs == [] {
      FeedNothing(f);
    } else {
      var p := FirstPiece(bs);
      if p == [] {
        Unfinished(bs, color);
        FeedNothing(f);
      } else {
        var n := |p[0].bytes|;
        FeedPiece(bs, color);
        FeedFirst(bs, color);
        FeedConcat(f, bs[..n], bs[n..]);
        assert bs == bs[..n] + bs[n..];
        var (f1, out1) := Feed(f, bs[..n]);
        FilterIsParser(bs[n..], f1.color);
        assert f1 == Filter([], f1.color);
        var (f2, out2) := Feed(f1, bs[n..]);
        CharsConcat(out1, out2);
        ShownStep(bs);
        var ps := Pieces(bs[n..]);
        PaintedCons(p[0], ps, |ps|, color);
      }
    }
  }

  lemma {:induction false} FeedNothing(f: Filter)
    ensures Feed(f, []) == (f, []) && Chars([]) == [] && Pieces([]) == [] && Shown([]) == [] && Rest([]) == []
    ensures Painted([], 0, f.color) == [] && ColorBefore([], 0, f.color) == f.color
  {
  }

  lemma {:induction false} CharsConcat(a: seq<Glyph>, b: seq<Glyph>)
    ensures Chars(a + b) == Chars(a) + Chars(b)
  {
  }

  lemma {:induction false} ShownStep(bs: seq<bv8>)
    requires bs != [] && FirstPiece(bs) != []
    ensures var p := FirstPiece(bs)[0];
            && Pieces(bs) == [p] + Pieces(bs[|p.bytes|..])
            && Shown(Pieces(bs)) == (if p.Sequence? then [] else p.bytes) + Shown(Pieces(bs[|p.bytes|..]))
            && Rest(bs) == Rest(bs[|p.bytes|..])
  {
    hide FirstPiece;
    var p := FirstPiece(bs);
    var n := |p[0].bytes|;
    assert Pieces(bs) == p + Pieces(bs[n..]);
    assert (p + Pieces(bs[n..]))[1..] == Pieces(bs[n..]);
  }

  lemma {:induction false} Unfinished(bs: seq<bv8>, color: bv16)
    requires bs != [] && FirstPiece(bs) == []
    ensures Feed(Filter([], color), bs) == (Filter(bs, color), [])
    ensures Pieces(bs) == [] && Rest(bs) == bs
  {
    FeedPrefix(bs, |bs|, color);
    assert bs[..|bs|] == bs;
  }

  /** No byte is lost, repeated or moved: the pieces and the rest are the input. */
  lemma {:induction false} PiecesAreInput(bs: seq<bv8>)
    ensures AllBytes(Pieces(bs)) + Rest(bs) == bs
    decreases |bs|
  {
    hide FirstPiece;
    if bs != [] {
      var p := FirstPiece(bs);
      if p != [] {
        var n := |p[0].bytes|;
        PiecesAreInput(bs[n..]);
        assert (p + Pieces(bs[n..]))[1..] == Pieces(bs[n..]);
        assert bs == bs[..n] + bs[n..];
      }
    }
  }

  // ------------------------------------------------------------------
  // Against plain removal of complete sequences

  /** `ESC m`, or `ESC [` then digits and semicolons then `m`, in 12 bytes at most. */
  predicate IsSequence(s: seq<bv8>) {
    && 2 <= |s| <= BUFSIZE && s[0] == ESC && s[|s| - 1] == LETTER_M
    && (|s| > 2 ==> s[1] == BRACKET)
    && forall i :: 2 <= i < |s| - 1 ==> IsDigit(s[i]) || s[i] == SEMICOLON
  }

  /** `SequenceLen` finds exactly those. */
  lemma {:induction false} SequenceLenIs(bs: seq<bv8>, n: nat)
    requires n <= |bs|
    ensures n > 0 && SequenceLen(bs) == n <==> IsSequence(bs[..n])
  {
    if bs != [] && bs[0] == ESC {
      var k := PrefixLen(bs, 1);
      if IsSequence(bs[..n]) {
        forall i | 1 <= i < n - 1
          ensures Continues(i, bs[i])
        {
          assert bs[i] == bs[..n][i];
        }
        assert bs[n - 1] == bs[..n][n - 1];
        assert k == n - 1;
      }
      if n > 0 && SequenceLen(bs) == n {
        forall i | 2 <= i < n - 1
          ensures IsDigit(bs[..n][i]) || bs[..n][i] == SEMICOLON
        {
          assert Continues(i, bs[i]);
        }
        if n > 2 {
          assert Continues(1, bs[1]);
          assert Continues(n - 2, bs[n - 2]);
        }
      }
    } else if n > 0 {
      assert bs[..n][0] == bs[0];
    }
  }

  /** The input without its complete sequences. */
  function Strip(bs: seq<bv8>): seq<bv8>
    decreases |bs|
  {
    if bs == [] then []
    else if SequenceLen(bs) > 0 then Strip(bs[SequenceLen(bs)..])
    else [bs[0]] + Strip(bs[1..])
  }

  /** Some prefix is broken by an ESC that itself starts a complete sequence. */
  predicate Clash(bs: seq<bv8>)
    decreases |bs|
  {
    bs != [] && FirstPiece(bs) != []
    && var p := FirstPiece(bs)[0];
       var n := |p.bytes|;
       || (p.Broken? && bs[n - 1] == ESC && SequenceLen(bs[n - 1..]) > 0)
       || Clash(bs[n..])
  }

  predicate NoEsc(s: seq<bv8>) {
    forall i :: 0 <= i < |s| ==> s[i] != ESC
  }

  lemma {:induction false} StripPlain(a: seq<bv8>, b: seq<bv8>)
    requires NoEsc(a)
    ensures Strip(a + b) == a + Strip(b)
    decreases |a|
  {
    if a == [] {
      assert a + b == b;
    } else {
      assert (a + b)[1..] == a[1..] + b;
      StripPlain(a[1..], b);
    }
  }

  /** Bytes outside sequences are shown one by one. */
  lemma {:induction false} ShowPlain(a: seq<bv8>, b: seq<bv8>)
    requires NoEsc(a)
    ensures Shown(Pieces(a + b)) == a + Shown(Pieces(b)) && Rest(a + b) == Rest(b)
    decreases |a|
  {
    hide Shown, Pieces, Rest, FirstPiece;
    if a == [] {
      assert a + b == b;
    } else {
      var s := a + b;
      assert s[1..] == a[1..] + b;
      ShowPlain(a[1..], b);
      PlainFirst(s);
      ShownStep(s);
      assert s[..1] + a[1..] == a;
    }
  }

  lemma {:induction false} PlainFirst(bs: seq<bv8>)
    requires bs != [] && bs[0] != ESC
    ensures FirstPiece(bs) == [Plain(bs[..1])]
  {
  }

  function Output(bs: seq<bv8>): seq<bv8> {
    Shown(Pieces(bs)) + Rest(bs)
  }

  lemma {:induction false} ContinuesNotEsc(k: nat, c: bv8)
    requires Continues(k, c)
    ensures c != ESC
  {
  }

  lemma {:induction false} StripStep(bs: seq<bv8>)
    requires bs != []
    ensures SequenceLen(bs) <= |bs|
    ensures Strip(bs) == if SequenceLen(bs) > 0 then Strip(bs[SequenceLen(bs)..]) else [bs[0]] + Strip(bs[1..])
  {
    hide Continues;
  }

  /** What the first piece says about the head of the input. */
  lemma {:induction false} PieceFacts(bs: seq<bv8>)
    requires bs != [] && FirstPiece(bs) != []
    ensures var p := FirstPiece(bs)[0];
            var n := |p.bytes|;
            && (p.Plain? ==> n == 1 && SequenceLen(bs) == 0)
            && (p.Sequence? ==> SequenceLen(bs) == n)
            && (p.Broken? ==> n > 1 && bs[0] == ESC && SequenceLen(bs) == 0 && n - 1 == PrefixLen(bs, 1))
            && (Clash(bs) <==>
                  (p.Broken? && bs[n - 1] == ESC && SequenceLen(bs[n - 1..]) > 0) || Clash(bs[n..]))
  {
    hide Continues;
  }

  lemma {:induction false} SequenceStartsEsc(bs: seq<bv8>)
    requires SequenceLen(bs) > 0
    ensures bs != [] && bs[0] == ESC
  {
  }

  /** A prefix that is not completed is neither removed nor changed, up to the
      byte that breaks it. */
  lemma {:induction false} StripPrefix(bs: seq<bv8>, n: nat)
    requires bs != [] && bs[0] == ESC && SequenceLen(bs) == 0 && n == PrefixLen(bs, 1)
    ensures Strip(bs) == bs[..n] + Strip(bs[n..])
  {
    hide SequenceLen, Strip, Continues;
    var a := bs[1..n];
    forall i | 0 <= i < |a|
      ensures a[i] != ESC
    {
      assert Continues(i + 1, bs[i + 1]);
      ContinuesNotEsc(i + 1, bs[i + 1]);
    }
    StripStep(bs);
    StripPlain(a, bs[n..]);
    assert bs[1..] == a + bs[n..];
    assert bs[..n] == [bs[0]] + a;
  }

  /** The bytes of a sequence after its ESC are no ESC. */
  lemma {:induction false} SequenceTail(bs: seq<bv8>)
    requires SequenceLen(bs) > 0
    ensures 2 <= SequenceLen(bs) <= |bs| && NoEsc(bs[1..SequenceLen(bs)])
  {
    var n := SequenceLen(bs);
    var a := bs[1..n];
    forall i | 0 <= i < |a|
      ensures a[i] != ESC
    {
      if i + 1 < n - 1 {
        assert Continues(i + 1, bs[i + 1]);
      }
    }
  }

  lemma {:induction false} OutputStep(bs: seq<bv8>)
    requires bs != [] && FirstPiece(bs) != []
    ensures var p := FirstPiece(bs)[0];
            Output(bs) == (if p.Sequence? then [] else p.bytes) + Output(bs[|p.bytes|..])
  {
    hide FirstPiece, Shown, Pieces, Rest;
    ShownStep(bs);
  }

  lemma {:induction false} OutputUnfinished(bs: seq<bv8>)
    requires bs != [] && FirstPiece(bs) == []
    ensures Output(bs) == bs && Strip(bs) == bs && !Clash(bs)
  {
    StripPrefix(bs, |bs|);
    assert Strip(bs[|bs|..]) == [];
    assert bs[..|bs|] + [] == bs;
    assert Pieces(bs) == [] && Rest(bs) == bs;
  }

  lemma {:induction false} StripVersusOutput(bs: seq<bv8>)
    ensures |Strip(bs)| <= |Output(bs)|
    ensures Strip(bs) == Output(bs) <==> !Clash(bs)
    ensures Clash(bs) ==> |Strip(bs)| < |Output(bs)|
    decreases |bs|, 1
  {
    hide Output, Shown, Pieces, Rest, Strip, FirstPiece, PrefixLen, SequenceLen, Clash;
    if bs == [] {
      OutputEmpty();
    } else if FirstPiece(bs) == [] {
      OutputUnfinished(bs);
    } else {
      var p := FirstPiece(bs)[0];
      var n := |p.bytes|;
      OutputStep(bs);
      PieceFacts(bs);
      StripStep(bs);
      StripVersusOutput(bs[n..]);
      if p.Plain? {
        assert p.bytes == [bs[0]];
        Cancel(p.bytes, Strip(bs[n..]), Output(bs[n..]));
      } else if p.Broken? {
        BrokenCase(bs, n);
      }
    }
  }

  lemma {:induction false} BrokenCase(bs: seq<bv8>, n: nat)
    requires 1 < n <= |bs| && bs[0] == ESC && SequenceLen(bs) == 0 && n - 1 == PrefixLen(bs, 1)
    requires Output(bs) == bs[..n] + Output(bs[n..])
    requires |Strip(bs[n..])| <= |Output(bs[n..])|
    ensures var clash := bs[n - 1] == ESC && SequenceLen(bs[n - 1..]) > 0;
            && |Strip(bs)| <= |Output(bs)|
            && (clash ==> |Strip(bs)| < |Output(bs)|)
            && (!clash ==> (Strip(bs) == Output(bs) <==> Strip(bs[n..]) == Output(bs[n..])))
            && (!clash ==> |Output(bs)| - |Strip(bs)| == |Output(bs[n..])| - |Strip(bs[n..])|)
    decreases |bs|, 0
  {
    hide Output, Strip, PrefixLen, SequenceLen;
    StripPrefix(bs, n - 1);
    var t := bs[n - 1..];
    StripStep(t);
    assert t[1..] == bs[n..];
    assert bs[..n] == bs[..n - 1] + [t[0]];
    if SequenceLen(t) > 0 {
      SequenceStartsEsc(t);
      ClashShrinks(bs, n);
    } else {
      assert Strip(bs) == bs[..n] + Strip(bs[n..]);
      Cancel(bs[..n], Strip(bs[n..]), Output(bs[n..]));
    }
  }

  lemma {:induction false} Cancel(a: seq<bv8>, b: seq<bv8>, c: seq<bv8>)
    ensures a + b == a + c <==> b == c
  {
    assert (a + b)[|a|..] == b && (a + c)[|a|..] == c;
  }

  lemma {:induction false} OutputEmpty()
    ensures Output([]) == [] && Strip([]) == [] && !Clash([])
  {
  }

  /** What plain removal takes out after a clash, the filter shows. */
  lemma {:induction false} ClashShrinks(bs: seq<bv8>, n: nat)
    requires 1 < n <= |bs| && SequenceLen(bs[n - 1..]) > 0
    ensures |Strip(bs[n - 1..])| < 1 + |Output(bs[n..])|
    decreases |bs| - 1, 2
  {
    hide Shown, Pieces, Rest, SequenceLen;
    var t := bs[n - 1..];
    var m := SequenceLen(t);
    SequenceTail(t);
    var a, r := t[1..m], t[m..];
    assert bs[n..] == a + r;
    ShowPlain(a, r);
    StripVersusOutput(r);
  }

  /** A stream on which they differ: ESC ESC m. */
  lemma {:induction false} ClashHappens(bs: seq<bv8>)
    requires bs == [ESC, ESC, LETTER_M]
    ensures Clash(bs) && Strip(bs) != Output(bs)
  {
    assert PrefixLen(bs, 1) == 1;
    assert FirstPiece(bs) == [Broken(bs[..2])];
    var t := bs[1..];
    assert t == [ESC, LETTER_M];
    assert PrefixLen(t, 1) == 1;
    assert SequenceLen(t) == 2;
    assert Clash(bs);
    StripVersusOutput(bs);
  }
}
