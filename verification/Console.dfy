/** The text console (src/vga.c:6-70): a window of 25 x 80 cells that scrolls over an
    unbounded roll of paper. */
module Console {

  const WIDTH: nat := 80
  const HEIGHT: nat := 25
  const BACKSPACE: char := 8 as char

  type Byte = c: char | c as int < 256 witness 'a'

  /** A screen cell: the character below, its attribute above. */
  type Cell = nat

  function MakeCell(c: Byte, attr: nat): Cell {
    c as int + 256 * attr
  }

  // ----- the paper

  /** Everything printed so far: rows of 80 cells, the position of the next character
      and the current attribute. The last 25 rows are on the screen. */
  datatype Paper = Paper(rows: seq<seq<Cell>>, line: nat, col: nat, attr: nat)
  {
    ghost predicate Ok() {
      && |rows| >= 25
      && |rows| - 25 <= line < |rows|
      && col < 80
      && attr < 256
      && forall k :: 0 <= k < |rows| ==> |rows[k]| == 80
    }
  }

  function BlankRow(attr: nat): seq<Cell> {
    seq(80, _ => MakeCell(' ', attr))
  }

  function Write(p: Paper, cell: Cell): Paper
    requires p.line < |p.rows| && p.col < |p.rows[p.line]|
  {
    var row: seq<Cell> := p.rows[p.line][p.col := cell];
    p.(rows := p.rows[p.line := row])
  }

  /** The start of the next line, on a fresh row at the end of the paper. */
  function NewLine(p: Paper): Paper {
    if p.line + 1 < |p.rows| then p.(line := p.line + 1, col := 0)
    else p.(rows := p.rows + [BlankRow(p.attr)], line := p.line + 1, col := 0)
  }

  /** One cell written, and on to the next line after the last column. */
  function Type(p: Paper, cell: Cell): Paper
    requires p.Ok()
  {
    var q := Write(p, cell);
    if p.col + 1 < 80 then q.(col := p.col + 1) else NewLine(q)
  }

  function TabStop(col: nat): nat {
    col + 4 - col % 4
  }

  /** The cells up to the column `stop` blanked. */
  function BlankTo(p: Paper, stop: nat): Paper
    requires p.Ok() && p.col <= stop <= 80
  {
    var row := p.rows[p.line];
    p.(rows := p.rows[p.line := row[..p.col] + BlankRow(p.attr)[p.col..stop] + row[stop..]])
  }

  /** Blanks to the next multiple of four columns. */
  function Tab(p: Paper): Paper
    requires p.Ok()
  {
    var q := BlankTo(p, TabStop(p.col));
    if TabStop(p.col) < 80 then q.(col := TabStop(p.col)) else NewLine(q)
  }

  function Put(p: Paper, c: Byte): Paper
    requires p.Ok()
  {
    if c == '\n' then NewLine(p)
    else if c == '\t' then Tab(p)
    else if c == '\r' then p.(col := 0)
    else if c == BACKSPACE then
      if p.col > 0 then Write(p.(col := p.col - 1), MakeCell(' ', p.attr)) else p
    else Type(p, MakeCell(c, p.attr))
  }

  function Cleared(p: Paper): Paper {
    p.(rows := p.rows + seq(25, _ => BlankRow(p.attr)), line := |p.rows|, col := 0)
  }

  function Attribute(fg: nat, bg: nat): nat {
    bg * 16 % 256 + fg % 16
  }

  datatype Event = Char(c: Byte) | Color(fg: nat, bg: nat) | Clear

  function Step(p: Paper, e: Event): Paper
    requires p.Ok()
  {
    match e
    case Char(c) => Put(p, c)
    case Color(fg, bg) => p.(attr := Attribute(fg, bg))
    case Clear => Cleared(p)
  }

  lemma TypeKeepsOk(p: Paper, cell: Cell)
    requires p.Ok()
    ensures Type(p, cell).Ok() && Type(p, cell).attr == p.attr
    ensures p.col + 1 < 80 ==> Type(p, cell).col == p.col + 1
  {
  }

  lemma StepKeepsOk(p: Paper, e: Event)
    requires p.Ok()
    ensures Step(p, e).Ok()
  {
    match e {
      case Char(c) =>
        if c != '\t' && c != '\n' && c != '\r' && c != BACKSPACE {
          TypeKeepsOk(p, MakeCell(c, p.attr));
        }
      case Color(fg, bg) =>
      case Clear =>
    }
  }

  function Run(p: Paper, events: seq<Event>): (q: Paper)
    requires p.Ok()
    ensures q.Ok()
    decreases |events|
  {
    if events == [] then p
    else
      StepKeepsOk(p, events[0]);
      Run(Step(p, events[0]), events[1..])
  }

  // ----- properties of the paper

  /** What has left the window stays as it is. */
  ghost predicate Scrolled(before: Paper, after: Paper) {
    && |before.rows| <= |after.rows|
    && forall k :: 0 <= k < |before.rows| - 25 ==> after.rows[k] == before.rows[k]
  }

  lemma {:induction false} HistoryStays(p: Paper, events: seq<Event>)
    requires p.Ok()
    ensures Scrolled(p, Run(p, events))
    decreases |events|
  {
    if events != [] {
      var q := Step(p, events[0]);
      StepKeepsOk(p, events[0]);
      assert Scrolled(p, q);
      HistoryStays(q, events[1..]);
    }
  }

  predicate Plain(c: Byte) {
    c != '\n' && c != '\t' && c != '\r' && c != BACKSPACE
  }

  function Chars(text: seq<Byte>): seq<Event> {
    seq(|text|, k requires 0 <= k < |text| => Char(text[k]))
  }

  /** Text without control characters fills the paper row by row from the cursor on:
      character k of it lands k cells further. */
  lemma {:induction false} PlainTextFills(p: Paper, text: seq<Byte>, k: nat)
    requires p.Ok() && k < |text|
    requires forall i :: 0 <= i < |text| ==> Plain(text[i])
    ensures
      var q := Run(p, Chars(text));
      var at := p.line * 80 + p.col + k;
      at / 80 < |q.rows| && q.rows[at / 80][at % 80] == MakeCell(text[k], p.attr)
    decreases |text|
  {
    var q := Type(p, MakeCell(text[0], p.attr));
    TypeKeepsOk(p, MakeCell(text[0], p.attr));
    assert Chars(text)[0] == Char(text[0]) && Chars(text)[1..] == Chars(text[1..]);
    assert q.line * 80 + q.col == p.line * 80 + p.col + 1;
    if k > 0 {
      PlainTextFills(q, text[1..], k - 1);
    } else {
      assert q.rows[p.line][p.col] == MakeCell(text[0], p.attr);
      PlainTextKeeps(q, text[1..], p.line, p.col);
    }
  }

  /** Plain text only writes from the cursor on. */
  lemma {:induction false} PlainTextKeeps(p: Paper, text: seq<Byte>, row: nat, col: nat)
    requires p.Ok() && row < |p.rows| && col < 80 && row * 80 + col < p.line * 80 + p.col
    requires forall i :: 0 <= i < |text| ==> Plain(text[i])
    ensures var q := Run(p, Chars(text)); row < |q.rows| && q.rows[row][col] == p.rows[row][col]
    decreases |text|
  {
    if text != [] {
      var q := Type(p, MakeCell(text[0], p.attr));
      TypeKeepsOk(p, MakeCell(text[0], p.attr));
      assert Chars(text)[0] == Char(text[0]) && Chars(text)[1..] == Chars(text[1..]);
      PlainTextKeeps(q, text[1..], row, col);
    }
  }

  /** A cell in memory: the character is the low byte, the attribute the rest. */
  lemma CellParts(c: Byte, attr: nat)
    ensures MakeCell(c, attr) % 256 == c as int && MakeCell(c, attr) / 256 == attr
  {
  }

  /** The foreground is the low half of an attribute, the background the high one. */
  lemma AttributeParts(fg: nat, bg: nat)
    requires fg < 16 && bg < 16
    ensures Attribute(fg, bg) % 16 == fg && Attribute(fg, bg) / 16 == bg && Attribute(fg, bg) < 256
  {
    SmallStays(bg * 16, 256);
    SmallStays(fg, 16);
    Halves(16 * bg + fg, fg, bg);
  }

  lemma SmallStays(x: nat, m: nat)
    requires x < m
    ensures x % m == x
  {
  }

  lemma Halves(x: nat, low: nat, high: nat)
    requires low < 16 && x == 16 * high + low
    ensures x % 16 == low && x / 16 == high
  {
  }

  /** A row of blanks in this attribute. */
  predicate IsBlankRow(row: seq<Cell>, attr: nat) {
    |row| == 80 && forall k :: 0 <= k < 80 ==> row[k] == 32 + 256 * attr
  }

  /** A newline goes to the start of the next row, and only at the end of the paper adds a
      blank one. */
  lemma NewlineMeans(p: Paper)
    requires p.Ok()
    ensures var q := Put(p, 10 as char);
      && q.col == 0 && q.line == p.line + 1 && q.attr == p.attr
      && if p.line + 1 < |p.rows| then q.rows == p.rows
         else |q.rows| == |p.rows| + 1 && q.rows[..|p.rows|] == p.rows && IsBlankRow(q.rows[|p.rows|], p.attr)
  {
  }

  /** A carriage return goes to the start of the row and writes nothing. */
  lemma ReturnMeans(p: Paper)
    requires p.Ok()
    ensures Put(p, 13 as char) == p.(col := 0)
  {
  }

  /** A backspace goes back by one and blanks that cell; at the start of a row it does
      nothing. */
  lemma BackspaceMeans(p: Paper)
    requires p.Ok()
    ensures var q := Put(p, 8 as char);
      if p.col == 0 then q == p
      else
        && q.col == p.col - 1 && q.line == p.line && q.attr == p.attr && |q.rows| == |p.rows|
        && forall i, j {:trigger q.rows[i][j]} :: 0 <= i < |p.rows| && 0 <= j < 80 ==>
            q.rows[i][j] == if i == p.line && j == p.col - 1 then 32 + 256 * p.attr else p.rows[i][j]
  {
  }

  /** A tab blanks the cells up to the next column that is a multiple of four; behind the
      last one it ends the row. */
  lemma TabMeans(p: Paper, stop: nat)
    requires p.Ok() && p.col < stop <= p.col + 4 && stop % 4 == 0
    ensures var q := Put(p, 9 as char);
      && q.attr == p.attr && |q.rows| >= |p.rows|
      && (stop < 80 ==> q.line == p.line && q.col == stop && |q.rows| == |p.rows|)
      && (stop == 80 ==> q.line == p.line + 1 && q.col == 0)
      && forall i, j {:trigger q.rows[i][j]} :: 0 <= i < |p.rows| && 0 <= j < 80 ==>
          q.rows[i][j] == if i == p.line && p.col <= j < stop then 32 + 256 * p.attr else p.rows[i][j]
  {
    StopIsNext(p.col, stop);
    hide TabStop;
    var row := p.rows[p.line];
    var blanked := row[..p.col] + BlankRow(p.attr)[p.col..stop] + row[stop..];
    forall j | 0 <= j < 80
      ensures blanked[j] == if p.col <= j < stop then 32 + 256 * p.attr else row[j]
    {
      assert p.col <= j < stop ==> blanked[j] == BlankRow(p.attr)[j];
    }
  }

  lemma StopIsNext(col: nat, stop: nat)
    requires col < 80 && col < stop <= col + 4 && stop % 4 == 0
    ensures TabStop(col) == stop <= 80
  {
  }

  /** Clearing leaves 25 blank rows and the cursor at the top of them. */
  lemma ClearMeans(p: Paper)
    requires p.Ok()
    ensures var q := Step(p, Clear);
      && q.rows[..|p.rows|] == p.rows && |q.rows| == |p.rows| + 25 && q.line == |p.rows| && q.col == 0
      && forall i :: |p.rows| <= i < |q.rows| ==> IsBlankRow(q.rows[i], p.attr)
  {
  }

  // ----- the screen memory

  /** The memory holds the last 25 rows. */
  ghost predicate Shows(screen: seq<Cell>, p: Paper)
    requires p.Ok()
  {
    && |screen| == 2000
    && forall k :: 0 <= k < 2000 ==> screen[k] == p.rows[|p.rows| - 25 + k / 80][k % 80]
  }

  lemma WriteShows(screen: seq<Cell>, p: Paper, cell: Cell)
    requires p.Ok() && Shows(screen, p)
    ensures Write(p, cell).Ok()
    ensures Shows(screen[(p.line - (|p.rows| - 25)) * 80 + p.col := cell], Write(p, cell))
  {
  }

  lemma BlankToShows(screen: seq<Cell>, after: seq<Cell>, p: Paper, stop: nat)
    requires p.Ok() && Shows(screen, p) && p.col <= stop <= 80 && |after| == 2000
    requires var base := (p.line - (|p.rows| - 25)) * 80;
      forall k :: 0 <= k < 2000 ==>
        after[k] == if base + p.col <= k < base + stop then MakeCell(' ', p.attr) else screen[k]
    ensures BlankTo(p, stop).Ok() && Shows(after, BlankTo(p, stop))
  {
  }

  lemma ScrollShows(screen: seq<Cell>, after: seq<Cell>, p: Paper)
    requires p.Ok() && Shows(screen, p) && p.line + 1 == |p.rows| && |after| == 2000
    requires forall k :: 0 <= k < 1920 ==> after[k] == screen[k + 80]
    requires forall k :: 1920 <= k < 2000 ==> after[k] == MakeCell(' ', p.attr)
    ensures NewLine(p).Ok() && Shows(after, NewLine(p))
  {
    forall k | 0 <= k < 2000
      ensures after[k] == NewLine(p).rows[|p.rows| - 24 + k / 80][k % 80]
    {
      if k < 1920 {
        assert (k + 80) / 80 == k / 80 + 1 && (k + 80) % 80 == k % 80;
      }
    }
  }

  class Vga {
    var screen: array<Cell>
    var row: nat
    var col: nat
    var attr: nat
    var cursorHigh: nat  // CRT controller register 14
    var cursorLow: nat   // CRT controller register 15
    ghost var paper: Paper

    ghost predicate Valid()
      reads this, screen
    {
      && paper.Ok()
      && screen.Length == 2000
      && row < HEIGHT && col < WIDTH && attr < 256
      && paper.line == |paper.rows| - 25 + row
      && paper.col == col && paper.attr == attr
      && Shows(screen[..], paper)
    }

    ghost predicate CursorSet()
      reads this
    {
      && cursorHigh < 256 && cursorLow < 256
      && cursorHigh * 256 + cursorLow == row * WIDTH + col < 2000
    }

    method MoveCursor()
      requires row < HEIGHT && col < WIDTH
      modifies this`cursorHigh, this`cursorLow
      ensures CursorSet()
    {
      var pos := row * WIDTH + col;
      cursorHigh := pos / 256 % 256;
      cursorLow := pos % 256;
    }

    /** vga_init: green on black, all blank. */
    constructor ()
      ensures Valid() && CursorSet() && fresh(screen)
      ensures paper == Cleared(Paper([], 0, 0, Attribute(0x0A, 0x00)))
    {
      screen := new Cell[2000];
      row, col := 0, 0;
      attr := 0;
      cursorHigh, cursorLow := 0, 0;
      paper := Paper([], 0, 0, Attribute(0x0A, 0x00));
      new;
      SetAttribute(0x0A, 0x00);
      BlankScreen();
    }

    method SetAttribute(fg: nat, bg: nat)
      modifies this`attr
      ensures attr == Attribute(fg, bg) && attr < 256
    {
      attr := bg * 16 % 256 + fg % 16;
    }

    method SetColor(fg: nat, bg: nat)
      requires Valid()
      modifies this`attr, this`paper
      ensures Valid() && paper == Step(old(paper), Color(fg, bg))
    {
      SetAttribute(fg, bg);
      paper := paper.(attr := attr);
    }

    /** The loops and the cursor of vga_clear, on any paper with this attribute. */
    method BlankScreen()
      requires screen.Length == 2000 && attr < 256 && paper.attr == attr
      requires forall k :: 0 <= k < |paper.rows| ==> |paper.rows[k]| == 80
      modifies this`row, this`col, this`cursorHigh, this`cursorLow, this`paper, screen
      ensures Valid() && CursorSet() && paper == Cleared(old(paper))
    {
      for y := 0 to HEIGHT
        invariant forall k :: 0 <= k < y * WIDTH ==> screen[k] == MakeCell(' ', attr)
        modifies screen
      {
        for x := 0 to WIDTH
          invariant forall k :: 0 <= k < y * WIDTH + x ==> screen[k] == MakeCell(' ', attr)
        {
          screen[y * WIDTH + x] := MakeCell(' ', attr);
        }
      }
      row, col := 0, 0;
      MoveCursor();
      paper := Cleared(paper);
    }

    method Clear()
      requires Valid()
      modifies this`row, this`col, this`cursorHigh, this`cursorLow, this`paper, screen
      ensures Valid() && CursorSet() && paper == Step(old(paper), Event.Clear)
    {
      BlankScreen();
    }

    method Scroll()
      requires screen.Length == 2000 && attr < 256
      modifies this`row, screen
      ensures row == HEIGHT - 1
      ensures forall k :: 0 <= k < 1920 ==> screen[k] == old(screen[k + 80])
      ensures forall k :: 1920 <= k < 2000 ==> screen[k] == MakeCell(' ', attr)
    {
      for y := 1 to HEIGHT
        invariant forall k :: 0 <= k < (y - 1) * WIDTH ==> screen[k] == old(screen[k + 80])
        invariant forall k :: (y - 1) * WIDTH <= k < 2000 ==> screen[k] == old(screen[k])
      {
        for x := 0 to WIDTH
          invariant forall k :: 0 <= k < (y - 1) * WIDTH + x ==> screen[k] == old(screen[k + 80])
          invariant forall k :: (y - 1) * WIDTH + x <= k < 2000 ==> screen[k] == old(screen[k])
        {
          screen[(y - 1) * WIDTH + x] := screen[y * WIDTH + x];
        }
      }
      for x := 0 to WIDTH
        invariant forall k :: 0 <= k < 1920 ==> screen[k] == old(screen[k + 80])
        invariant forall k :: 1920 <= k < 1920 + x ==> screen[k] == MakeCell(' ', attr)
      {
        screen[(HEIGHT - 1) * WIDTH + x] := MakeCell(' ', attr);
      }
      row := HEIGHT - 1;
    }

    /** To the start of the next row; at the bottom the screen scrolls. */
    method NextLine()
      requires Valid()
      modifies this`row, this`col, this`paper, screen
      ensures Valid() && paper == NewLine(old(paper))
    {
      ghost var before := screen[..];
      col := 0;
      row := row + 1;
      if row >= HEIGHT {
        Scroll();
        ScrollShows(before, screen[..], paper);
      }
      paper := NewLine(paper);
    }

    method SetCell(cell: Cell)
      requires Valid()
      modifies this`paper, screen
      ensures Valid() && paper == Write(old(paper), cell)
    {
      WriteShows(screen[..], paper, cell);
      ghost var after := screen[..][row * WIDTH + col := cell];
      screen[row * WIDTH + col] := cell;
      assert screen[..] == after;
      paper := Write(paper, cell);
    }

    method PutChar(c: Byte)
      requires Valid()
      modifies this`row, this`col, this`cursorHigh, this`cursorLow, this`paper, screen
      ensures Valid() && CursorSet() && paper == Step(old(paper), Char(c))
    {
      if c == '\n' {
        NextLine();
      } else if c == '\t' {
        PutTab();
      } else if c == '\r' {
        col := 0;
        paper := paper.(col := 0);
      } else if c == BACKSPACE {
        if col > 0 {
          col := col - 1;
          paper := paper.(col := col);
          SetCell(MakeCell(' ', attr));
        }
      } else {
        SetCell(MakeCell(c, attr));
        Advance();
      }
      MoveCursor();
    }

    method Advance()
      requires Valid()
      modifies this`row, this`col, this`paper, screen
      ensures Valid()
      ensures paper == if old(paper).col + 1 < 80 then old(paper).(col := old(paper).col + 1) else NewLine(old(paper))
    {
      if col + 1 >= WIDTH {
        NextLine();
      } else {
        col := col + 1;
        paper := paper.(col := col);
      }
    }

    method BlankToStop()
      requires screen.Length == 2000 && row < HEIGHT && col < WIDTH
      modifies screen, this`col
      ensures col == TabStop(old(col)) <= 80
      ensures forall k :: 0 <= k < 2000 ==>
        screen[k] == if row * 80 + old(col) <= k < row * 80 + col then MakeCell(' ', attr) else old(screen[k])
    {
      var n := 4 - col % 4;
      while n > 0 && col < WIDTH
        invariant 0 <= n <= 4 && old(col) <= col && col + n == TabStop(old(col)) <= 80
        invariant forall k :: 0 <= k < 2000 ==>
          screen[k] == if row * 80 + old(col) <= k < row * 80 + col then MakeCell(' ', attr) else old(screen[k])
      {
        n := n - 1;
        screen[row * WIDTH + col] := MakeCell(' ', attr);
        col := col + 1;
      }
    }

    /** src/vga.c:49-54: the line is only left after the blanks. */
    method PutTab()
      requires Valid()
      modifies this`row, this`col, this`paper, screen
      ensures Valid() && paper == Tab(old(paper))
    {
      ghost var before := screen[..];
      BlankToStop();
      BlankToShows(before, screen[..], paper, col);
      paper := BlankTo(paper, col);
      if col >= WIDTH {
        col := 0;
        paper := paper.(col := 0);
        NextLine();
      } else {
        paper := paper.(col := col);
      }
    }

    /** A whole run of output. */
    method Play(events: seq<Event>)
      requires Valid()
      modifies this, screen
      ensures Valid() && screen == old(screen) && paper == Run(old(paper), events)
    {
      ghost var start := paper;
      for i := 0 to |events|
        invariant Valid() && screen == old(screen)
        invariant Run(paper, events[i..]) == Run(start, events)
      {
        assert events[i..][0] == events[i] && events[i..][1..] == events[i + 1..];
        match events[i] {
          case Char(c) => PutChar(c);
          case Color(fg, bg) => SetColor(fg, bg);
          case Clear => Clear();
        }
      }
    }
  }
}
