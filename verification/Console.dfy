/**
 `console_printer` (pset3/lib.cc, pset3/lib.hh): the 25 by 80 CGA console.
 With scrolling on, the screen is a window onto an unbounded tape.
 */
module Console {
  import opened Escape

  const COLUMNS := 80
  const ROWS := 25
  const END_CPOS := 2000

  const SCROLL_OFF := 0
  const SCROLL_ON := 1
  const SCROLL_BLANK := 2

  const NEWLINE: bv8 := 0x0A
  const SPACE: bv8 := 0x20

  // ------------------------------------------------------------------
  // The tape

  /** Cells written in order, without end; cells past `cells` are zero. */
  datatype Tape = Tape(cells: seq<bv16>, pos: nat)

  predicate TapeOk(t: Tape) {
    t.pos <= |t.cells|
  }

  function CellAt(t: Tape, i: nat): bv16 {
    if i < |t.cells| then t.cells[i] else 0
  }

  function Write(t: Tape, v: bv16): (r: Tape)
    requires TapeOk(t)
    ensures TapeOk(r) && r.pos == t.pos + 1
    ensures |r.cells| == if t.pos < |t.cells| then |t.cells| else |t.cells| + 1
    ensures forall i: nat :: CellAt(r, i) == if i == t.pos then v else CellAt(t, i)
  {
    if t.pos < |t.cells| then Tape(t.cells[t.pos := v], t.pos + 1) else Tape(t.cells + [v], t.pos + 1)
  }

  function WriteMany(t: Tape, v: bv16, n: nat): (r: Tape)
    requires TapeOk(t)
    ensures TapeOk(r)
    decreases n
  {
    if n == 0 then t else WriteMany(Write(t, v), v, n - 1)
  }

  /** The contents of a cell: character and colour */
  function Colored(c: bv8, color: bv16): bv16 {
    c as bv16 | color
  }

  /** A cell holds its character in the low byte and its colour in the high byte. */
  lemma {:induction false} CellHolds(c: bv8, color: bv16)
    requires color & 0xFF == 0
    ensures Colored(c, color) & 0xFF == c as bv16 && Colored(c, color) & 0xFF00 == color
  {
  }

  /** One character: a newline blanks the rest of its row. */
  function Emit(t: Tape, g: Glyph): (r: Tape)
    requires TapeOk(t)
    ensures TapeOk(r)
  {
    if g.c == NEWLINE then WriteMany(t, Colored(SPACE, g.color), COLUMNS - t.pos % COLUMNS)
    else Write(t, Colored(g.c, g.color))
  }

  function EmitAll(t: Tape, gs: seq<Glyph>): (r: Tape)
    requires TapeOk(t)
    ensures TapeOk(r)
    decreases |gs|
  {
    if gs == [] then t else Emit(EmitAll(t, gs[..|gs| - 1]), gs[|gs| - 1])
  }

  lemma {:induction false} EmitOneMore(t: Tape, gs: seq<Glyph>, g: Glyph)
    requires TapeOk(t)
    ensures EmitAll(t, gs + [g]) == Emit(EmitAll(t, gs), g)
  {
    assert (gs + [g])[..|gs|] == gs;
  }

  /** The screen shows the tape from row `base` on, and the cursor is on it. */
  ghost predicate Shows(screen: seq<bv16>, cell: nat, t: Tape, base: nat) {
    && TapeOk(t) && |screen| == END_CPOS && cell <= END_CPOS
    && t.pos == COLUMNS * base + cell
    && |t.cells| <= COLUMNS * base + END_CPOS
    && forall i :: 0 <= i < END_CPOS ==> screen[i] == CellAt(t, COLUMNS * base + i)
  }

  lemma {:induction false} ShowsWrite(screen: seq<bv16>, cell: nat, t: Tape, base: nat, v: bv16)
    requires Shows(screen, cell, t, base) && cell < END_CPOS
    ensures Shows(screen[cell := v], cell + 1, Write(t, v), base)
  {
    hide Write;
  }

  /** Moving every row up one shows the tape one row further down. */
  lemma {:induction false} ShowsScroll(screen: seq<bv16>, t: Tape, base: nat)
    requires Shows(screen, END_CPOS, t, base)
    ensures Shows(Rolled(screen, 0), END_CPOS - COLUMNS, t, base + 1)
  {
    var next := Rolled(screen, 0);
    forall i | 0 <= i < END_CPOS
      ensures next[i] == CellAt(t, COLUMNS * (base + 1) + i)
    {
      if i < END_CPOS - COLUMNS {
        assert screen[i + COLUMNS] == CellAt(t, COLUMNS * base + (i + COLUMNS));
      }
    }
  }

  /** Every cell of the row is a space or zero on a black background. */
  predicate BlankLine(screen: seq<bv16>, row: nat)
    requires |screen| == END_CPOS && row < ROWS
  {
    forall i :: row * COLUMNS <= i < (row + 1) * COLUMNS ==> screen[i] & 0xF0DF == 0
  }

  /** That is what the mask tests. */
  lemma {:induction false} BlankCell(cell: bv16)
    ensures cell & 0xF0DF == 0 <==> cell & BACKGROUND == 0 && (cell & 0xFF == 0 || cell & 0xFF == SPACE as bv16)
  {
  }

  /** `row` starts the lowest run of blank lines above the last line, or is 0. */
  ghost predicate LowestRun(screen: seq<bv16>, row: nat)
    requires |screen| == END_CPOS
  {
    exists bottom :: row <= bottom < ROWS && RunOfBlank(screen, row, bottom)
  }

  /** Blank lines from `row` to `bottom`, none below, and none just above. */
  predicate RunOfBlank(screen: seq<bv16>, row: nat, bottom: nat)
    requires |screen| == END_CPOS && row <= bottom < ROWS
  {
    && (forall r :: bottom <= r < ROWS - 1 ==> !BlankLine(screen, r))
    && (forall r :: row <= r < bottom ==> BlankLine(screen, r))
    && (row > 0 ==> row < bottom && !BlankLine(screen, row - 1))
  }

  /** The screen with the rows from cell `sp` on moved up by one. */
  function Rolled(screen: seq<bv16>, sp: nat): (r: seq<bv16>)
    requires |screen| == END_CPOS && sp <= END_CPOS - COLUMNS
    ensures |r| == END_CPOS && r[..sp] == screen[..sp]
    ensures forall i :: sp <= i < END_CPOS - COLUMNS ==> r[i] == screen[i + COLUMNS]
    ensures forall i :: END_CPOS - COLUMNS <= i < END_CPOS ==> r[i] == 0
  {
    seq(END_CPOS, i requires 0 <= i < END_CPOS =>
      if i < sp then screen[i] else if i < END_CPOS - COLUMNS then screen[i + COLUMNS] else 0)
  }

  /** First cell of the rows that move when the blank line is `blank`. */
  function ScrollStart(blank: int): (sp: nat)
    requires blank < ROWS
    ensures sp <= END_CPOS - COLUMNS
  {
    if blank > 0 then blank * COLUMNS else 0
  }

  function RowOf(screen: seq<bv16>, row: nat): seq<bv16>
    requires |screen| == END_CPOS && row < ROWS
  {
    screen[row * COLUMNS..(row + 1) * COLUMNS]
  }

  /** Scrolling row by row: those above the blank line stay, the others make room for
      a cleared last one. */
  lemma {:induction false} ScrolledRow(screen: seq<bv16>, blank: int, row: nat)
    requires |screen| == END_CPOS && blank < ROWS && row < ROWS
    ensures var r := RowOf(Rolled(screen, ScrollStart(blank)), row);
            && (row < blank && row < ROWS - 1 ==> r == RowOf(screen, row))
            && (blank <= row < ROWS - 1 ==> r == RowOf(screen, row + 1))
            && (row == ROWS - 1 ==> forall i :: 0 <= i < COLUMNS ==> r[i] == 0)
  {
    hide Rolled;
    var sp := ScrollStart(blank);
    var next := Rolled(screen, sp);
    var r := RowOf(next, row);
    assert forall i :: 0 <= i < COLUMNS ==> r[i] == next[row * COLUMNS + i];
    if row < blank && row < ROWS - 1 {
      assert (row + 1) * COLUMNS <= sp;
      assert forall j :: 0 <= j < sp ==> next[j] == next[..sp][j];
    }
  }

  /** The screen scrolled once if `cell` is past its end. */
  function RoomScreen(mode: nat, blank: int, screen: seq<bv16>, cell: nat): (r: seq<bv16>)
    requires |screen| == END_CPOS && blank < ROWS
    ensures |r| == END_CPOS
  {
    if cell < END_CPOS || mode == SCROLL_OFF then screen else Rolled(screen, ScrollStart(blank))
  }

  function RoomCell(mode: nat, cell: nat): (r: nat)
    ensures r < END_CPOS
  {
    if cell < END_CPOS then cell else if mode == SCROLL_OFF then 0 else END_CPOS - COLUMNS
  }

  /** The cell after a character written at `cell`. */
  function CellAfter(cell: nat, c: bv8): nat {
    if c == NEWLINE then cell + (COLUMNS - cell % COLUMNS) else cell + 1
  }

  /** The screen after a character written at `cell`. */
  function Written(screen: seq<bv16>, cell: nat, c: bv8, color: bv16): (r: seq<bv16>)
    requires |screen| == END_CPOS && cell < END_CPOS
    ensures |r| == END_CPOS
    ensures c != NEWLINE ==> r == screen[cell := Colored(c, color)]
    ensures c == NEWLINE ==>
              forall i :: 0 <= i < END_CPOS ==>
                r[i] == if cell <= i < CellAfter(cell, c) then Colored(SPACE, color) else screen[i]
  {
    if c == NEWLINE then
      seq(END_CPOS, i requires 0 <= i < END_CPOS =>
        if cell <= i < CellAfter(cell, c) then Colored(SPACE, color) else screen[i])
    else screen[cell := Colored(c, color)]
  }

  // ------------------------------------------------------------------
  // The printer

  class Printer {
    const console: array<bv16>
    const mode: nat
    var cell: nat
    var blank: int          // scroll_blank_
    var color: bv16
    const buf: array<bv8>   // ebuf_.buf_
    var len: int            // ebuf_.len_

    // the characters let through so far, and where they started
    ghost const start: Tape
    ghost var shown: seq<Glyph>
    ghost var base: nat

    ghost predicate Core()
      reads this, console, buf
    {
      && console.Length == END_CPOS && buf.Length == BUFSIZE && mode <= SCROLL_BLANK
      && cell <= END_CPOS
      && -1 <= blank < ROWS && (mode != SCROLL_BLANK ==> blank == -1)
      && TapeOk(start)
      && (mode == SCROLL_ON ==> Shows(console[..], cell, EmitAll(start, shown), base))
    }

    /** Also, the screen has scrolled no further than the text requires. */
    ghost predicate Shape()
      reads this, console, buf
    {
      Core() && (mode == SCROLL_ON && base > 0 ==> cell > END_CPOS - COLUMNS)
    }

    /** Between calls; `len` is -1 only while the buffer is being flushed. */
    ghost predicate Valid()
      reads this, console, buf
    {
      Shape() && 0 <= len < BUFSIZE && IsPrefix(buf[..len])
    }

    ghost function State(): Filter
      requires buf.Length == BUFSIZE && 0 <= len <= BUFSIZE
      reads this, buf
    {
      Filter(buf[..len], color)
    }

    /** `cursorpos` is the global cursor; a `cpos` past the screen means its start. */
    constructor (console: array<bv16>, buf: array<bv8>, cpos: int, cursorpos: nat, mode: nat, color: bv16)
      requires console.Length == END_CPOS && buf.Length == BUFSIZE && cursorpos <= END_CPOS && mode <= SCROLL_BLANK
      ensures this.console == console && this.buf == buf && this.mode == mode
      ensures Valid() && State() == Filter([], color) && shown == []
      ensures start == Tape(console[..], if cpos < 0 then cursorpos else if cpos <= END_CPOS then cpos else 0)
    {
      this.console, this.buf, this.mode, this.color := console, buf, mode, color;
      var at: nat := 0;
      if cpos < 0 {
        at := cursorpos;
      } else if cpos <= END_CPOS {
        at := cpos;
      }
      cell, blank, len := at, -1, 0;
      start, shown, base := Tape(console[..], at), [], 0;
    }

    /** `console_line_is_blank` */
    method LineIsBlank(row: nat) returns (r: bool)
      requires console.Length == END_CPOS && row < ROWS
      ensures r <==> BlankLine(console[..], row)
    {
      var cpos, ecpos := row * COLUMNS, row * COLUMNS + COLUMNS;
      while cpos < ecpos && console[cpos] & 0xF0DF == 0
        invariant row * COLUMNS <= cpos <= ecpos
        invariant forall i :: row * COLUMNS <= i < cpos ==> console[i] & 0xF0DF == 0
      {
        cpos := cpos + 1;
      }
      r := cpos == ecpos;
    }

    /** The search of `scroll` for the lowest run of blank lines: `row` is its
        first line, or 0 if there is none. */
    method LowestBlank() returns (row: nat)
      requires console.Length == END_CPOS
      ensures row < ROWS && LowestRun(console[..], row)
    {
      row := ROWS - 1;
      var b := LineIsBlank(row - 1);
      while row > 0 && !b
        invariant 0 <= row < ROWS && (row > 0 ==> (b <==> BlankLine(console[..], row - 1)))
        invariant forall r :: row <= r < ROWS - 1 ==> !BlankLine(console[..], r)
      {
        row := row - 1;
        if row > 0 {
          b := LineIsBlank(row - 1);
        }
      }
      ghost var bottom := row;
      while row > 0 && b
        invariant 0 <= row <= bottom && (row > 0 ==> (b <==> BlankLine(console[..], row - 1)))
        invariant forall r :: row <= r < bottom ==> BlankLine(console[..], r)
        invariant row == bottom > 0 ==> b
      {
        row := row - 1;
        if row > 0 {
          b := LineIsBlank(row - 1);
        }
      }
      assert RunOfBlank(console[..], row, bottom);
    }

    /** The copying part of `scroll`: rows below `sp` move up, the last is cleared. */
    method MoveUp(sp: nat)
      requires console.Length == END_CPOS && sp <= END_CPOS - COLUMNS
      modifies console
      ensures console[..] == Rolled(old(console[..]), sp)
    {
      CopyRows(sp);
      ClearLast();
    }

    method CopyRows(sp: nat)
      requires console.Length == END_CPOS && sp <= END_CPOS - COLUMNS
      modifies console
      ensures forall i :: sp <= i < END_CPOS - COLUMNS ==> console[i] == old(console[i + COLUMNS])
      ensures forall i :: 0 <= i < sp || END_CPOS - COLUMNS <= i < END_CPOS ==> console[i] == old(console[i])
    {
      var i := sp;
      while i != END_CPOS - COLUMNS
        invariant sp <= i <= END_CPOS - COLUMNS
        invariant forall k :: 0 <= k < sp ==> console[k] == old(console[k])
        invariant forall k :: sp <= k < i ==> console[k] == old(console[k + COLUMNS])
        invariant forall k :: i <= k < END_CPOS ==> console[k] == old(console[k])
        decreases END_CPOS - i
      {
        console[i] := console[i + COLUMNS];
        i := i + 1;
      }
    }

    method ClearLast()
      requires console.Length == END_CPOS
      modifies console
      ensures forall i :: 0 <= i < END_CPOS - COLUMNS ==> console[i] == old(console[i])
      ensures forall i :: END_CPOS - COLUMNS <= i < END_CPOS ==> console[i] == 0
    {
      var i := END_CPOS - COLUMNS;
      while i != END_CPOS
        invariant END_CPOS - COLUMNS <= i <= END_CPOS
        invariant forall k :: 0 <= k < END_CPOS - COLUMNS ==> console[k] == old(console[k])
        invariant forall k :: END_CPOS - COLUMNS <= k < i ==> console[k] == 0
        decreases END_CPOS - i
      {
        console[i] := 0;
        i := i + 1;
      }
    }

    /** `scroll` */
    method Scroll()
      requires Core() && cell >= END_CPOS
      modifies this`cell, this`blank, this`base, console
      ensures Core()
      ensures cell == if mode == SCROLL_OFF then 0 else old(cell) - COLUMNS
      ensures mode == SCROLL_OFF ==> console[..] == old(console[..])
      ensures mode != SCROLL_OFF ==> console[..] == Rolled(old(console[..]), ScrollStart(blank))
      // which rows move: all of them, or those from the lowest run of blank
      // lines on, for as long as the line found stays blank
      ensures blank == old(blank) || mode == SCROLL_BLANK
      ensures mode == SCROLL_BLANK && old(blank) < 0 ==> blank >= 0 && LowestRun(old(console[..]), blank)
      ensures old(blank) > 0 && mode == SCROLL_BLANK ==>
                blank == if BlankLine(old(console[..]), old(blank)) then old(blank) else 0
      ensures old(blank) == 0 ==> blank == 0
    {
      hide EmitAll, Shows, RunOfBlank, BlankLine, Rolled;
      if mode == SCROLL_OFF {
        cell := 0;
        return;
      }
      if mode == SCROLL_BLANK && blank < 0 {
        blank := LowestBlank();
      } else if blank > 0 {
        var b := LineIsBlank(blank);
        if !b {
          blank := 0;
        }
      }
      var sp := ScrollStart(blank);
      assert console[..] == old(console[..]);
      ghost var before := console[..];
      MoveUp(sp);
      if mode == SCROLL_ON {
        ShowsScroll(before, EmitAll(start, shown), base);
      }
      cell := cell - COLUMNS;
      base := base + 1;
    }

    /** `*cell_++ = v` */
    method Store(v: bv16, ghost t: Tape)
      requires console.Length == END_CPOS && cell < END_CPOS && TapeOk(t)
      requires mode == SCROLL_ON ==> Shows(console[..], cell, t, base)
      modifies this`cell, console
      ensures cell == old(cell) + 1
      ensures console[..] == old(console[..])[old(cell) := v]
      ensures mode == SCROLL_ON ==> Shows(console[..], cell, Write(t, v), base)
    {
      if mode == SCROLL_ON {
        ShowsWrite(console[..], cell, t, base, v);
      }
      console[cell] := v;
      cell := cell + 1;
    }

    /** The scrolling loop of `putc` */
    method MakeRoom()
      requires Shape()
      modifies this`cell, this`blank, this`base, console
      ensures Core() && cell < END_CPOS
      ensures mode == SCROLL_ON && base > 0 ==> cell >= END_CPOS - COLUMNS
      ensures console[..] == RoomScreen(mode, blank, old(console[..]), old(cell)) && cell == RoomCell(mode, old(cell))
    {
      hide EmitAll, Shows;
      while cell >= END_CPOS
        invariant Core()
        invariant mode == SCROLL_ON && base > 0 ==> cell >= END_CPOS - COLUMNS
        invariant if cell >= END_CPOS then cell == old(cell) && console[..] == old(console[..])
                  else
                    && console[..] == RoomScreen(mode, blank, old(console[..]), old(cell))
                    && cell == RoomCell(mode, old(cell))
        decreases cell
      {
        Scroll();
      }
    }

    /** The part of `putc` after the escape buffer has passed the character on. */
    method Display(c: bv8)
      requires Shape()
      modifies this`cell, this`blank, this`base, this`shown, console
      ensures Shape()
      ensures shown == old(shown) + [Glyph(c, color)]
      // in every mode, the screen after at most one scroll, with the character on it
      ensures var at := RoomCell(mode, old(cell));
              && console[..] == Written(RoomScreen(mode, blank, old(console[..]), old(cell)), at, c, color)
              && cell == CellAfter(at, c)
    {
      hide Emit, EmitAll, Write, WriteMany, Shows, Colored, Written, RoomScreen, RoomCell;
      ghost var g := Glyph(c, color);
      MakeRoom();
      ghost var t := EmitAll(start, shown);
      EmitOneMore(start, shown, g);
      if c == NEWLINE {
        Newline(t);
      } else {
        EmitPlain(t, g);
        Store(Colored(c, color), t);
      }
      shown := shown + [g];
    }

    /** The newline loop of `putc` */
    method Newline(ghost t: Tape)
      requires console.Length == END_CPOS && cell < END_CPOS && TapeOk(t)
      requires mode == SCROLL_ON ==> Shows(console[..], cell, t, base)
      modifies this`cell, console
      ensures old(cell) < cell <= END_CPOS && cell == CellAfter(old(cell), NEWLINE)
      ensures console[..] == Written(old(console[..]), old(cell), NEWLINE, color)
      ensures mode == SCROLL_ON ==> Shows(console[..], cell, Emit(t, Glyph(NEWLINE, color)), base)
    {
      hide Emit, Write, WriteMany, Shows, TapeOk;
      var v := Colored(SPACE, color);
      var pos := cell % COLUMNS;
      RowEnd(cell);
      if mode == SCROLL_ON {
        EmitNewline(console[..], cell, t, base, color);
      }
      ghost var u := t;
      ghost var want := Emit(t, Glyph(NEWLINE, color));
      while pos != COLUMNS
        invariant 0 <= pos <= COLUMNS && cell + (COLUMNS - pos) <= END_CPOS && TapeOk(u)
        invariant color == old(color) && base == old(base)
        invariant cell == old(cell) + (pos - old(cell) % COLUMNS)
        invariant forall i :: 0 <= i < END_CPOS ==> console[i] == if old(cell) <= i < cell then v else old(console[i])
        invariant mode == SCROLL_ON ==> Shows(console[..], cell, u, base)
        invariant mode == SCROLL_ON ==> WriteMany(u, v, COLUMNS - pos) == want
        decreases COLUMNS - pos
      {
        WriteManyStep(u, v, COLUMNS - pos);
        Store(v, u);
        u := Write(u, v);
        pos := pos + 1;
      }
      WriteNone(u, v);
    }

    /** `console_printer::putc`: the escape buffer takes the byte, or it is
        displayed.  While the buffer is being flushed it takes nothing. */
    method Putc(c: bv8)
      requires len == -1 || Valid()
      requires Shape()
      modifies this, console, buf
      ensures old(len) == -1 ==>
                && Shape() && len == -1 && color == old(color) && buf[..] == old(buf[..])
                && shown == old(shown) + [Glyph(c, color)]
      ensures old(len) >= 0 ==>
                Valid() && State() == Step(old(State()), c).0 && shown == old(shown) + Step(old(State()), c).1
      decreases if len < 0 then 0 else 3
    {
      hide Emit, EmitAll, Shows;
      if len < 0 || (len == 0 && c != ESC) {
        Display(c);
      } else {
        PutcImpl(c);
      }
    }

    /** `ansi_escape_buffer::flush` */
    method Flush()
      requires Shape() && 0 <= len <= BUFSIZE
      modifies this, console, buf
      ensures Shape() && len == 0 && color == old(color)
      ensures shown == old(shown) + Paint(old(buf[..len]), color)
      decreases 1
    {
      hide Emit, EmitAll, Shows;
      var n := len;
      if n <= 0 {
        assert Paint(buf[..0], color) == [];
        return;
      }
      len := -1;
      var i := 0;
      assert Paint(buf[..0], color) == [];
      while i != n
        invariant 0 <= i <= n && Shape() && len == -1 && color == old(color) && buf[..] == old(buf[..])
        invariant shown == old(shown) + Paint(old(buf[..])[..i], color)
        decreases n - i
      {
        assert Paint(old(buf[..])[..i + 1], color) == Paint(old(buf[..])[..i], color) + [Glyph(buf[i], color)];
        Putc(buf[i]);
        i := i + 1;
      }
      assert old(buf[..])[..n] == old(buf[..len]);
      len := 0;
    }

    /** `ansi_escape_buffer::putc_impl` */
    method PutcImpl(c: bv8)
      requires Valid() && (len > 0 || c == ESC)
      modifies this, console, buf
      ensures Valid() && State() == Step(old(State()), c).0 && shown == old(shown) + Step(old(State()), c).1
      decreases 2
    {
      hide Emit, EmitAll, Shows, ColorFrom;
      ghost var f := State();
      StepKeepsPrefix(f, c);
      buf[len] := c;
      len := len + 1;
      assert buf[..len] == f.pending + [c];
      if len == 1 || (len == 2 && c == BRACKET)
         || (len > 2 && len < BUFSIZE && (IsDigit(c) || c == SEMICOLON)) {
        return;
      }
      if c != LETTER_M {
        Flush();
        assert buf[..0] == [];
        return;
      }
      color := ReadColor(buf[..len]);
      len := 0;
      assert buf[..0] == [];
    }
  }

  /** The colour loop of `putc_impl` */
  method ReadColor(s: seq<bv8>) returns (color: bv16)
    requires |s| >= 2
    ensures color == ColorOf(s)
    ensures IsSequence(s) ==> color == Selected(s)
  {
    hide Apply, Selected, IsSequence;
    if IsSequence(s) {
      ColorIsSelected(s);
    }
    var x: nat := 0;
    color := COLOR_GRAY;
    var i := 2;
    while i != |s|
      invariant 2 <= i <= |s|
      invariant ColorFrom(s, i, x, color) == ColorOf(s)
      decreases |s| - i
    {
      if IsDigit(s[i]) {
        x := x * 10 + (s[i] - 0x30) as nat;
      } else {
        color := Apply(x, color);
        x := 0;
      }
      i := i + 1;
    }
  }

  lemma {:induction false} RowEnd(cell: nat)
    requires cell < END_CPOS
    ensures cell + (COLUMNS - cell % COLUMNS) <= END_CPOS
  {
  }

  lemma {:induction false} EmitPlain(t: Tape, g: Glyph)
    requires TapeOk(t)
    ensures g.c != NEWLINE ==> Emit(t, g) == Write(t, Colored(g.c, g.color))
  {
    hide Write, WriteMany;
  }

  /** The cursor's column is the tape's column. */
  lemma {:induction false} EmitNewline(screen: seq<bv16>, cell: nat, t: Tape, base: nat, color: bv16)
    requires Shows(screen, cell, t, base)
    ensures Emit(t, Glyph(NEWLINE, color)) == WriteMany(t, Colored(SPACE, color), COLUMNS - cell % COLUMNS)
  {
    hide Write, WriteMany, CellAt;
    assert (COLUMNS * base + cell) % COLUMNS == cell % COLUMNS;
  }

  lemma {:induction false} WriteManyStep(t: Tape, v: bv16, n: nat)
    requires TapeOk(t) && n > 0
    ensures WriteMany(t, v, n) == WriteMany(Write(t, v), v, n - 1)
  {
    hide Write;
  }

  lemma {:induction false} WriteNone(t: Tape, v: bv16)
    requires TapeOk(t)
    ensures WriteMany(t, v, 0) == t
  {
  }

  /** The loop of `console_puts` over a string. */
  method Puts(p: Printer, bs: seq<bv8>)
    requires p.Valid()
    modifies p, p.console, p.buf
    ensures p.Valid()
    ensures p.State() == Feed(old(p.State()), bs).0
    ensures p.shown == old(p.shown) + Feed(old(p.State()), bs).1
    // nothing pending: the pieces of the string, each in its colour
    ensures old(p.State()).pending == [] ==>
              && p.shown == old(p.shown) + Painted(Pieces(bs), |Pieces(bs)|, old(p.color))
              && p.buf[..p.len] == Rest(bs) && p.color == ColorBefore(Pieces(bs), |Pieces(bs)|, old(p.color))
    // with scrolling on, the screen is a window onto the tape
    ensures p.mode == SCROLL_ON ==>
              Shows(p.console[..], p.cell, EmitAll(p.start, old(p.shown) + Feed(old(p.State()), bs).1), p.base)
  {
    hide Step, EmitAll, Shows, Feed, Painted, ColorBefore, Pieces, Rest, Shown, Chars;
    var i := 0;
    ghost var f0 := p.State();
    FilterIsParser(bs, f0.color);
    FeedNothing(f0);
    assert bs[..0] == [];
    while i != |bs|
      invariant 0 <= i <= |bs| && p.Valid()
      invariant p.State() == Feed(f0, bs[..i]).0
      invariant p.shown == old(p.shown) + Feed(f0, bs[..i]).1
      decreases |bs| - i
    {
      FeedConcat(f0, bs[..i], [bs[i]]);
      FeedOne(p.State(), bs[i]);
      assert bs[..i + 1] == bs[..i] + [bs[i]];
      p.Putc(bs[i]);
      i := i + 1;
    }
    assert bs[..i] == bs;
  }

  /** `console_puts`: at a given position without scrolling, or at the cursor with
      scrolling.  Only there is the unfinished rest of the string shown, by
      `move_cursor`, whose new cursor is the result. */
  method ConsolePuts(console: array<bv16>, cpos: int, cursorpos: nat, color: bv16, bs: seq<bv8>)
      returns (pos: nat, p: Printer)
    requires console.Length == END_CPOS && cursorpos <= END_CPOS
    modifies console
    ensures fresh(p) && p.console == console && p.Valid() && pos == p.cell && p.color == LastColor(bs, color)
    ensures p.start == Tape(old(console[..]), if cpos < 0 then cursorpos else if cpos <= END_CPOS then cpos else 0)
    ensures p.shown == Painted(Pieces(bs), |Pieces(bs)|, color)
                       + if cpos < 0 then Paint(Rest(bs), LastColor(bs, color)) else []
    // at the cursor, the screen is a window onto the tape
    ensures cpos < 0 ==> Shows(console[..], pos, EmitAll(p.start, p.shown), p.base)
  {
    hide EmitAll, Shows, Feed, Painted, ColorBefore, Pieces, Rest;
    var buf := new bv8[BUFSIZE];
    p := new Printer(console, buf, cpos, cursorpos, if cpos < 0 then SCROLL_ON else SCROLL_OFF, color);
    Puts(p, bs);
    ghost var before := p.shown;
    assert [] + before == before;
    if cpos < 0 {
      p.Flush();
      assert p.buf[..0] == [];
    } else {
      assert before + [] == before;
    }
    pos := p.cell;
  }

  /** The colour of the last complete sequence of the string, or the given one. */
  function LastColor(bs: seq<bv8>, color: bv16): bv16 {
    ColorBefore(Pieces(bs), |Pieces(bs)|, color)
  }
}
