/** The text terminal: cursor, colour and the 80 by 25 screen buffer. */
module Terminal {
  import opened Bytes

  const WHITE_ON_BLACK: byte := 0x0F
  const BLACK_ON_GREY: byte := 0x70

  datatype Cell = Cell(ch: byte, color: byte)

  /** The terminal as a value. `seen` is havebeeninitbefore. */
  datatype Screen = Screen(row: nat, col: nat, color: byte, seen: bool, cells: seq<Cell>)

  function Cursor(s: Screen): nat {
    80 * s.row + s.col
  }

  /** Row and column are on the screen, and the last row is entered at its beginning only. */
  predicate Proper(s: Screen) {
    s.row < 25 && s.col < 80 && |s.cells| == 2000 && (s.row == 24 ==> s.col == 0)
  }

  function Blank(color: byte): (cells: seq<Cell>)
    ensures |cells| == 2000
  {
    seq(2000, _ => Cell(SPACE, color))
  }

  /** terminal_initialize: clears the screen and goes to row 1, but leaves the column. */
  function Initialized(s: Screen): Screen {
    Screen(1, s.col, WHITE_ON_BLACK, true, Blank(WHITE_ON_BLACK))
  }

  /** The cursor one cell on. */
  function Advanced(s: Screen): Screen {
    if s.col + 1 < 80 then s.(col := s.col + 1)
    else if s.row + 1 < 25 then s.(row := s.row + 1, col := 0)
    else s.(row := 0, col := 0)
  }

  function WithEntry(s: Screen, c: byte): Screen
    requires Cursor(s) < |s.cells|
  {
    s.(cells := s.cells[Cursor(s) := Cell(c, s.color)])
  }

  /** terminal_putchar. Writing on the last row scrolls first, which clears the screen. */
  function AfterPut(s: Screen, c: byte): (r: Screen)
    requires Proper(s)
    ensures Proper(r)
  {
    var t := if s.row == 24 then Initialized(s) else s;
    Advanced(WithEntry(t, c))
  }

  /** terminal_newline. Past the last row it clears the screen and starts at the top. */
  function AfterNewline(s: Screen): (r: Screen)
    requires Proper(s)
    ensures Proper(r)
  {
    if s.row + 1 < 25 then s.(row := s.row + 1, col := 0)
    else s.(row := 0, col := 0, cells := Blank(s.color))
  }

  function AfterPuts(s: Screen, data: seq<byte>): (r: Screen)
    requires Proper(s)
    ensures Proper(r)
    decreases |data|
  {
    if |data| == 0 then s else AfterPut(AfterPuts(s, data[..|data| - 1]), data[|data| - 1])
  }

  // ---------------------------------------------------------------------
  // The terminal in place
  // ---------------------------------------------------------------------

  class Console {
    var row: nat
    var column: nat
    var color: byte
    var seen: bool
    const buffer: array<Cell>

    ghost function Abs(): Screen
      reads this, buffer
    {
      Screen(row, column, color, seen, buffer[..])
    }

    constructor (buffer: array<Cell>)
      requires buffer.Length == 2000
      ensures this.buffer == buffer && Proper(Abs())
    {
      this.row, this.column, this.color, this.seen := 0, 0, 0, false;
      this.buffer := buffer;
    }

    /** The clearing loop: every row, every column. */
    method Clear()
      requires buffer.Length == 2000
      modifies buffer
      ensures buffer[..] == Blank(color)
    {
      for y := 0 to 25
        invariant forall i :: 0 <= i < 80 * y ==> buffer[i] == Cell(SPACE, color)
      {
        for x := 0 to 80
          invariant forall i :: 0 <= i < 80 * y + x ==> buffer[i] == Cell(SPACE, color)
        {
          buffer[80 * y + x] := Cell(SPACE, color);
        }
      }
    }

    method Initialize()
      requires buffer.Length == 2000
      modifies this, buffer
      ensures Abs() == Initialized(old(Abs()))
    {
      row := 1;
      if !seen { color := BLACK_ON_GREY; }
      Clear();
      color := WHITE_ON_BLACK;
      Clear();
      seen := true;
    }

    method PutEntryAt(c: byte, color: byte, x: nat, y: nat)
      requires buffer.Length == 2000 && x < 80 && y < 25
      modifies buffer
      ensures buffer[..] == old(buffer[..])[80 * y + x := Cell(c, color)]
    {
      buffer[80 * y + x] := Cell(c, color);
    }

    method PutChar(c: byte)
      requires Proper(Abs())
      modifies this, buffer
      ensures Abs() == AfterPut(old(Abs()), c)
    {
      if row == 24 { Initialize(); }
      PutEntryAt(c, color, column, row);
      column := column + 1;
      if column == 80 {
        column := 0;
        row := row + 1;
        // The last row is never filled, so the wrap to the top row does not happen here.
        if row == 25 { assert false; }
      }
    }

    method Write(data: seq<byte>)
      requires Proper(Abs())
      modifies this, buffer
      ensures Abs() == AfterPuts(old(Abs()), data)
    {
      for i := 0 to |data|
        invariant Proper(Abs())
        invariant Abs() == AfterPuts(old(Abs()), data[..i])
      {
        PutChar(data[i]);
        assert data[..i + 1][..i] == data[..i];
      }
      assert data[..|data|] == data;
    }

    method Newline()
      requires Proper(Abs())
      modifies this, buffer
      ensures Abs() == AfterNewline(old(Abs()))
    {
      row := row + 1;
      column := 0;
      if row == 25 {
        Clear();
        row := 0;
        column := 0;
      }
    }
  }

  // ---------------------------------------------------------------------
  // Runs
  // ---------------------------------------------------------------------

  datatype Op = Initialize | Put(c: byte) | Newline | SetColor(color: byte)

  function After(s: Screen, op: Op): (r: Screen)
    requires Proper(s)
    ensures Proper(r)
  {
    match op
    case Initialize => Initialized(s)
    case Put(c) => AfterPut(s, c)
    case Newline => AfterNewline(s)
    case SetColor(color) => s.(color := color)
  }

  function Run(s: Screen, ops: seq<Op>): (r: Screen)
    requires Proper(s)
    ensures Proper(r)
    decreases |ops|
  {
    if |ops| == 0 then s else After(Run(s, ops[..|ops| - 1]), ops[|ops| - 1])
  }

  /** The operation clears the screen. */
  predicate Clears(s: Screen, op: Op) {
    op.Initialize? || (op.Put? && s.row == 24) || (op.Newline? && s.row == 24)
  }

  /** The terminal as a strip of 1920 cells: the colour it was last cleared in, the colour in use, the
      position of the cursor, and the cells written since the last clear, in order. */
  datatype Page = Page(paper: byte, ink: byte, at: nat, log: seq<(nat, Cell)>)

  /** Where a line break from cursor position p leads: to the beginning of the next row, or to the top. */
  function NextLine(p: nat): nat {
    if p >= 1920 then 0 else (p / 80 + 1) * 80
  }

  /** The strip after one more operation. A character past its end clears it to black and is written in white
      at the beginning of the second row; a line break past its end clears it in the colour in use. */
  function Logged(op: Op, page: Page): Page {
    match op
    case Initialize => Page(0x0F, 0x0F, 80 + page.at % 80, [])
    case Put(c) =>
      if page.at >= 1920 then Page(0x0F, 0x0F, 81, [(80, Cell(c, 0x0F))])
      else page.(at := page.at + 1, log := page.log + [(page.at, Cell(c, page.ink))])
    case Newline =>
      if page.at >= 1920 then Page(page.ink, page.ink, 0, []) else page.(at := NextLine(page.at))
    case SetColor(color) => page.(ink := color)
  }

  /** The strip after a run that started with a given one. */
  function Written(ops: seq<Op>, page: Page): (r: Page)
    decreases |ops|
  {
    if |ops| == 0 then page else Logged(ops[|ops| - 1], Written(ops[..|ops| - 1], page))
  }

  /** What a page has in a cell: its last entry for that cell, or a space on its paper. */
  function Shown(paper: byte, log: seq<(nat, Cell)>, p: nat): Cell {
    if |log| == 0 then Cell(SPACE, paper)
    else if log[|log| - 1].0 == p then log[|log| - 1].1
    else Shown(paper, log[..|log| - 1], p)
  }

  /** The screen shows the strip and nothing else, and goes on where and in the colour the strip does. The
      cells of the log strictly increase, so none was written twice, and lie before the cursor. */
  ghost predicate Faithful(s: Screen, page: Page) {
    && Proper(s) && Cursor(s) == page.at <= 1920 && s.color == page.ink
    && (forall i :: 0 <= i < |page.log| ==> page.log[i].0 < page.at)
    && (forall i, j :: 0 <= i < j < |page.log| ==> page.log[i].0 < page.log[j].0)
    && (forall p :: 0 <= p < 2000 ==> s.cells[p] == Shown(page.paper, page.log, p))
  }

  lemma BlankIsFaithful(s: Screen, color: byte)
    requires Proper(s) && s.cells == Blank(color)
    ensures Faithful(s, Page(color, s.color, Cursor(s), []))
  {
  }

  /** Writing one more character at the cursor. */
  lemma PutIsFaithful(s: Screen, c: byte, page: Page)
    requires Faithful(s, page) && s.row < 24
    ensures Faithful(AfterPut(s, c), page.(at := page.at + 1, log := page.log + [(page.at, Cell(c, page.ink))]))
  {
    var log := page.log + [(page.at, Cell(c, page.ink))];
    assert log[..|log| - 1] == page.log;
  }

  lemma PutOnLastRow(s: Screen, c: byte)
    requires Proper(s) && s.row == 24
    ensures Faithful(AfterPut(s, c), Page(0x0F, 0x0F, 81, [(80, Cell(c, 0x0F))]))
  {
    hide Faithful, Blank;
    assert AfterPut(s, c) == AfterPut(Initialized(s), c);
    hide AfterPut;
    BlankIsFaithful(Initialized(s), 0x0F);
    PutIsFaithful(Initialized(s), c, Page(0x0F, 0x0F, 80, []));
    assert [] + [(80, Cell(c, 0x0F))] == [(80, Cell(c, 0x0F))];
  }

  lemma RowOf(s: Screen)
    requires Proper(s)
    ensures (s.row == 24 <==> Cursor(s) >= 1920) && Cursor(s) / 80 == s.row && Cursor(s) % 80 == s.col
  {
  }

  lemma NewlineIsFaithful(s: Screen, page: Page)
    requires Faithful(s, page)
    ensures Faithful(AfterNewline(s), Logged(Newline, page))
  {
    RowOf(s);
    if s.row == 24 { BlankIsFaithful(AfterNewline(s), s.color); }
  }

  lemma StepIsFaithful(s: Screen, op: Op, page: Page)
    requires Faithful(s, page)
    ensures Faithful(After(s, op), Logged(op, page))
  {
    RowOf(s);
    match op
    case Put(c) =>
      if s.row == 24 { PutOnLastRow(s, c); } else { PutIsFaithful(s, c, page); }
      hide AfterPut;
    case Initialize => BlankIsFaithful(After(s, op), 0x0F);
    case Newline => NewlineIsFaithful(s, page);
    case SetColor(_) =>
  }

  /** The terminal refines the strip: over every run the screen shows exactly the characters written since
      the last clear, each where and in the colour it was written, none of them overwritten, the cursor is
      where the strip says, and the last row stays blank. */
  lemma {:induction false} RunIsFaithful(s: Screen, ops: seq<Op>, page: Page)
    requires Proper(s) && Faithful(s, page)
    ensures Faithful(Run(s, ops), Written(ops, page))
    ensures forall p :: 1920 <= p < 2000 ==> Run(s, ops).cells[p] == Cell(SPACE, Written(ops, page).paper)
    decreases |ops|
  {
    if |ops| > 0 {
      var front := ops[..|ops| - 1];
      RunIsFaithful(s, front, page);
      StepIsFaithful(Run(s, front), ops[|ops| - 1], Written(front, page));
    }
    var r := Written(ops, page);
    forall p | 1920 <= p < 2000 ensures Shown(r.paper, r.log, p) == Cell(SPACE, r.paper) {
      ShownBelow(r.paper, r.log, p);
    }
  }

  lemma {:induction false} ShownBelow(paper: byte, log: seq<(nat, Cell)>, p: nat)
    requires forall i :: 0 <= i < |log| ==> log[i].0 != p
    ensures Shown(paper, log, p) == Cell(SPACE, paper)
    decreases |log|
  {
    if |log| > 0 { ShownBelow(paper, log[..|log| - 1], p); }
  }

  /** Every character since the last clear can still be read on the screen, in its colour. */
  lemma LogSurvives(s: Screen, page: Page, i: nat)
    requires Faithful(s, page) && i < |page.log|
    ensures s.cells[page.log[i].0] == page.log[i].1
  {
    ShownAt(page.paper, page.log, i);
  }

  lemma {:induction false} ShownAt(paper: byte, log: seq<(nat, Cell)>, i: nat)
    requires i < |log| && forall i, j :: 0 <= i < j < |log| ==> log[i].0 < log[j].0
    ensures Shown(paper, log, log[i].0) == log[i].1
    decreases |log|
  {
    if i < |log| - 1 { ShownAt(paper, log[..|log| - 1], i); }
  }

  /** Unless it clears, an operation that writes or breaks the line moves the cursor forward. */
  lemma CursorAdvances(s: Screen, op: Op)
    requires Proper(s) && !Clears(s, op) && !op.SetColor?
    ensures Cursor(After(s, op)) > Cursor(s)
  {
  }

  // ---------------------------------------------------------------------
  // A stream of characters
  // ---------------------------------------------------------------------

  /** Where n characters written from cursor position p end: the screen wraps after 1920 cells, and
      from then on every 1840 characters. */
  function StreamEnd(p: nat, n: nat): nat {
    if p + n <= 1920 then p + n else 81 + (p + n - 1921) % 1840
  }

  lemma PutCursor(s: Screen, c: byte)
    requires Proper(s)
    ensures Cursor(s) <= 1920
    ensures Cursor(AfterPut(s, c)) == if Cursor(s) == 1920 then 81 else Cursor(s) + 1
  {
  }

  lemma StreamStep(p: nat, n: nat)
    requires p <= 1920
    ensures StreamEnd(p, n + 1) == if StreamEnd(p, n) == 1920 then 81 else StreamEnd(p, n) + 1
  {
    if p + n > 1920 {
      var m := p + n - 1921;
      assert (m + 1) % 1840 == if m % 1840 == 1839 then 0 else m % 1840 + 1;
    }
  }

  lemma {:induction false} StreamCursor(s: Screen, data: seq<byte>)
    requires Proper(s)
    ensures Cursor(AfterPuts(s, data)) == StreamEnd(Cursor(s), |data|)
    decreases |data|
  {
    PutCursor(s, 0);
    if |data| > 0 {
      StreamCursor(s, data[..|data| - 1]);
      PutCursor(AfterPuts(s, data[..|data| - 1]), data[|data| - 1]);
      StreamStep(Cursor(s), |data| - 1);
      hide StreamEnd, AfterPut, Cursor, Proper;
    }
  }

  // ---------------------------------------------------------------------
  // Lines
  // ---------------------------------------------------------------------

  lemma NewlineCursor(s: Screen)
    requires Proper(s)
    ensures Cursor(AfterNewline(s)) == NextLine(Cursor(s))
  {
    RowOf(s);
  }

  function Puts(data: seq<byte>): (ops: seq<Op>)
    ensures |ops| == |data|
  {
    seq(|data|, i requires 0 <= i < |data| => Put(data[i]))
  }

  /** Lines of characters with line breaks between them. */
  function Lines(lines: seq<seq<byte>>): seq<Op>
    requires |lines| > 0
  {
    if |lines| == 1 then Puts(lines[0]) else Lines(lines[..|lines| - 1]) + [Newline] + Puts(lines[|lines| - 1])
  }

  /** Where they end. */
  function LinesEnd(p: nat, lines: seq<seq<byte>>): nat
    requires |lines| > 0
  {
    var last := |lines[|lines| - 1]|;
    if |lines| == 1 then StreamEnd(p, last) else StreamEnd(NextLine(LinesEnd(p, lines[..|lines| - 1])), last)
  }

  lemma {:induction false} RunAppend(s: Screen, a: seq<Op>, b: seq<Op>)
    requires Proper(s)
    ensures Run(s, a + b) == Run(Run(s, a), b)
    decreases |b|
  {
    if |b| == 0 {
      assert a + b == a;
    } else {
      RunAppend(s, a, b[..|b| - 1]);
      assert (a + b)[..|a + b| - 1] == a + b[..|b| - 1];
    }
  }

  lemma {:induction false} RunPuts(s: Screen, data: seq<byte>)
    requires Proper(s)
    ensures Run(s, Puts(data)) == AfterPuts(s, data)
    decreases |data|
  {
    hide AfterPut;
    if |data| > 0 {
      RunPuts(s, data[..|data| - 1]);
      assert Puts(data)[..|data| - 1] == Puts(data[..|data| - 1]);
    }
  }

  lemma RunOne(s: Screen, op: Op)
    requires Proper(s)
    ensures Run(s, [op]) == After(s, op)
  {
    assert [op][..0] == [] && Run(s, []) == s;
  }

  /** Closed form of the cursor after lines of any lengths. */
  lemma {:induction false} LinesCursor(s: Screen, lines: seq<seq<byte>>)
    requires Proper(s) && |lines| > 0
    ensures Cursor(Run(s, Lines(lines))) == LinesEnd(Cursor(s), lines)
    decreases |lines|
  {
    hide StreamEnd, NextLine, Cursor, Proper, AfterPuts, AfterNewline;
    var data := lines[|lines| - 1];
    if |lines| == 1 {
      RunPuts(s, data);
      StreamCursor(s, data);
    } else {
      var front := lines[..|lines| - 1];
      LinesCursor(s, front);
      var t := Run(s, Lines(front));
      RunAppend(s, Lines(front) + [Newline], Puts(data));
      RunAppend(s, Lines(front), [Newline]);
      RunOne(t, Newline);
      NewlineCursor(t);
      RunPuts(AfterNewline(t), data);
      StreamCursor(AfterNewline(t), data);
    }
  }

  /** Line breaks alone go round the 25 rows. */
  lemma {:induction false} BreaksCursor(s: Screen, k: nat)
    requires Proper(s) && k > 0
    ensures Cursor(Run(s, seq(k, _ => Newline))) == 80 * ((s.row + k) % 25)
    decreases k
  {
    var ops := seq(k, _ => Newline);
    var front := seq(k - 1, _ => Newline);
    assert ops[..k - 1] == front && ops[k - 1] == Newline;
    var t := Run(s, front);
    if k > 1 { BreaksCursor(s, k - 1); } else { assert front == [] && t == s; }
    BreakRow(s.row + k - 1);
    assert Run(s, ops) == AfterNewline(t);
    hide Run;
    assert t.row == (s.row + k - 1) % 25;
  }

  lemma BreakRow(r: nat)
    ensures (r + 1) % 25 == if r % 25 == 24 then 0 else r % 25 + 1
  {
  }
}
