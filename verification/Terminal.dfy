/** The VGA text terminal: an 80 by 25 buffer that scrolls in place, as a window on a screen that
    only ever grows. */
module Terminal {

  const WIDTH: nat := 80
  const HEIGHT: nat := 25
  const CELLS: nat := 2000
  const LIGHT_GREY_ON_BLACK: byte := 7

  type byte = x: int | 0 <= x < 256
  type u16 = x: int | 0 <= x < 0x1_0000

  const BACKSPACE: byte := 8
  const TAB: byte := 9
  const NEWLINE: byte := 10
  const SPACE: byte := 32

  /** vga_entry: the character in the low byte, the colour in the high one. */
  function Entry(c: byte, color: byte): u16 {
    c + 256 * color
  }

  // ---- the screen that never scrolls ----

  type Row = seq<u16>

  /** All rows ever shown, oldest first, with the cursor and the current colour. */
  datatype Screen = Screen(rows: seq<Row>, row: nat, col: nat, color: byte) {
    /** How many rows have left the window at the top. */
    function Top(): int { |rows| - HEIGHT }
  }

  ghost predicate RowsOk(s: Screen) {
    && |s.rows| >= HEIGHT
    && (forall y :: 0 <= y < |s.rows| ==> |s.rows[y]| == WIDTH)
    && s.Top() <= s.row < |s.rows|
  }

  /** The cursor is inside the window. */
  ghost predicate Ok(s: Screen) {
    RowsOk(s) && s.col < WIDTH
  }

  function Blank(color: byte): (r: Row)
    ensures |r| == WIDTH && forall x :: 0 <= x < WIDTH ==> r[x] == Entry(SPACE, color)
  {
    seq(WIDTH, _ => Entry(SPACE, color))
  }

  function Fresh(color: byte): (s: Screen)
    ensures Ok(s)
  {
    Screen(seq(HEIGHT, _ => Blank(color)), 0, 0, color)
  }

  function SetCell(s: Screen, x: nat, e: u16): Screen
    requires s.row < |s.rows| && x < |s.rows[s.row]|
  {
    var line: Row := s.rows[s.row][x := e];
    s.(rows := s.rows[s.row := line])
  }

  /** The cursor to the start of the next row, which is added when there is none. */
  function NextLine(s: Screen): Screen {
    var r := s.(row := s.row + 1, col := 0);
    if r.row < |s.rows| then r else r.(rows := s.rows + [Blank(s.color)])
  }

  /** n spaces written from the cursor on, within the row. */
  function Spaces(s: Screen, n: nat): (r: Screen)
    requires s.row < |s.rows| && |s.rows[s.row]| == WIDTH && s.col + n <= WIDTH
    ensures r.row == s.row && r.color == s.color && r.col == s.col + n && |r.rows| == |s.rows|
    ensures forall y :: 0 <= y < |s.rows| ==> |r.rows[y]| == |s.rows[y]| && (y != s.row ==> r.rows[y] == s.rows[y])
    decreases n
  {
    if n == 0 then s
    else Spaces(SetCell(s, s.col, Entry(SPACE, s.color)).(col := s.col + 1), n - 1)
  }

  function Wrapped(s: Screen): Screen {
    if s.col >= WIDTH then NextLine(s) else s
  }

  /** One character printed. */
  function Printed(s: Screen, c: byte): (r: Screen)
    requires Ok(s)
    ensures Ok(r) && r.color == s.color && |r.rows| >= |s.rows|
  {
    if c == NEWLINE then NextLine(s)
    else if c == BACKSPACE then
      if s.col > 0 then SetCell(s, s.col - 1, Entry(SPACE, s.color)).(col := s.col - 1) else s
    else if c == TAB then Wrapped(Spaces(s, 8 - s.col % 8))
    else Wrapped(SetCell(s, s.col, Entry(c, s.color)).(col := s.col + 1))
  }

  function PrintedAll(s: Screen, data: seq<byte>): (r: Screen)
    requires Ok(s)
    ensures Ok(r) && |r.rows| >= |s.rows|
    decreases data
  {
    if data == [] then s else PrintedAll(Printed(s, data[0]), data[1..])
  }

  // ---- what printing means ----

  /** Printing never takes a row away, adds at most one a character, and leaves the rows above the
      window as they were: what has scrolled off is final. */
  lemma ScrolledRowsAreFinal(s: Screen, c: byte)
    requires Ok(s)
    ensures var r := Printed(s, c);
      && |s.rows| <= |r.rows| <= |s.rows| + 1
      && r.rows[..s.Top()] == s.rows[..s.Top()]
      && (forall y :: 0 <= y < |s.rows| && y != s.row ==> r.rows[y] == s.rows[y])
  {}

  /** The same for a whole string. */
  lemma {:induction false} StringKeepsScrolledRows(s: Screen, data: seq<byte>)
    requires Ok(s)
    ensures var r := PrintedAll(s, data);
      && |s.rows| <= |r.rows| <= |s.rows| + |data|
      && r.rows[..s.Top()] == s.rows[..s.Top()]
    decreases data
  {
    if data != [] {
      ScrolledRowsAreFinal(s, data[0]);
      StringKeepsScrolledRows(Printed(s, data[0]), data[1..]);
    }
  }

  predicate Plain(c: byte) {
    c != NEWLINE && c != BACKSPACE && c != TAB
  }

  /** How many characters after the cursor cell x of row y comes, counting along the rows. */
  function Ahead(s: Screen, y: int, x: int): int {
    80 * (y - s.row) + x - s.col
  }

  /** What cell x of row y shows once plain text is printed: the character that is as far along in
      the text, or what it showed, or a blank in a row that is new. */
  function CellAfter(s: Screen, data: seq<byte>, y: nat, x: nat): u16
    requires RowsOk(s) && x < WIDTH
  {
    var p := Ahead(s, y, x);
    if 0 <= p < |data| then Entry(data[p], s.color)
    else if y < |s.rows| then s.rows[y][x]
    else Entry(SPACE, s.color)
  }

  lemma PlainStep(s: Screen, c: byte)
    requires Ok(s) && Plain(c)
    ensures var t := Printed(s, c);
      && t.color == s.color
      && (if s.col + 1 < WIDTH then t.row == s.row && t.col == s.col + 1 else t.row == s.row + 1 && t.col == 0)
      && |t.rows| == (if t.row < |s.rows| then |s.rows| else |s.rows| + 1)
      && forall y, x :: 0 <= y < |t.rows| && 0 <= x < WIDTH ==> t.rows[y][x] == CellAfter(s, [c], y, x)
  {}

  /** Plain text lands in consecutive cells from the cursor on, in the current colour, row after
      row; no other cell changes, rows it runs into are added blank, and the cursor ends up behind
      it. */
  lemma {:induction false} PlainText(s: Screen, data: seq<byte>)
    requires Ok(s) && forall i :: 0 <= i < |data| ==> Plain(data[i])
    ensures var r := PrintedAll(s, data);
      && r.row == s.row + (s.col + |data|) / 80 && r.col == (s.col + |data|) % 80
      && |r.rows| == (if r.row < |s.rows| then |s.rows| else r.row + 1)
      && forall y, x :: 0 <= y < |r.rows| && 0 <= x < WIDTH ==> r.rows[y][x] == CellAfter(s, data, y, x)
    decreases data
  {
    hide Printed, Ahead;
    if data != [] {
      var rest := data[1..];
      var t := Printed(s, data[0]);
      PlainStep(s, data[0]);
      PlainText(t, rest);
      CursorStep(s.col, |data|);
      forall y, x | 0 <= y < |PrintedAll(s, data).rows| && 0 <= x < WIDTH
        ensures CellAfter(t, rest, y, x) == CellAfter(s, data, y, x)
      {
        AheadStep(s, t, y, x);
        CursorCell(s, y, x);
        assert y < |t.rows| ==> t.rows[y][x] == CellAfter(s, data[..1], y, x);
        assert data[..1] == [data[0]];
      }
    }
  }

  lemma AheadStep(s: Screen, t: Screen, y: int, x: int)
    requires if s.col + 1 < 80 then t.row == s.row && t.col == s.col + 1 else t.row == s.row + 1 && t.col == 0 && s.col == 79
    ensures Ahead(t, y, x) == Ahead(s, y, x) - 1
  {}

  lemma CursorCell(s: Screen, y: int, x: int)
    requires s.col < 80 && 0 <= x < 80
    ensures Ahead(s, y, x) == 0 ==> y == s.row
  {}

  lemma CursorStep(col: nat, n: nat)
    requires col < 80 && n > 0
    ensures col < 79 ==> (col + 1 + (n - 1)) / 80 == (col + n) / 80
    ensures col == 79 ==> 1 + (n - 1) / 80 == (col + n) / 80 && (n - 1) % 80 == (col + n) % 80
  {}

  /** Character i of the text is in row (col + i) / 80 below the cursor's, at column (col + i) % 80. */
  lemma PlainTextAt(s: Screen, data: seq<byte>, i: nat)
    requires Ok(s) && i < |data| && forall i :: 0 <= i < |data| ==> Plain(data[i])
    ensures var r := PrintedAll(s, data); var y := s.row + (s.col + i) / 80;
      y < |r.rows| && |r.rows[y]| == WIDTH && r.rows[y][(s.col + i) % 80] == Entry(data[i], s.color)
  {
    hide PrintedAll;
    PlainText(s, data);
    var q, x := (s.col + i) / 80, (s.col + i) % 80;
    assert s.col + i == 80 * q + x && q <= (s.col + |data|) / 80;
    assert Ahead(s, s.row + q, x) == i;
  }

  /** A tab blanks the cells up to the next multiple of 8 and moves the cursor there. */
  lemma TabOutcome(s: Screen)
    requires Ok(s)
    ensures var r := Printed(s, TAB); var stop := s.col / 8 * 8 + 8;
      && (forall x :: 0 <= x < WIDTH ==>
            r.rows[s.row][x] == if s.col <= x < stop then Entry(SPACE, s.color) else s.rows[s.row][x])
      && (if stop < WIDTH then r.row == s.row && r.col == stop else r.row == s.row + 1 && r.col == 0)
  {
    SpacesCells(s, 8 - s.col % 8);
  }

  lemma {:induction false} SpacesCells(s: Screen, n: nat)
    requires s.row < |s.rows| && |s.rows[s.row]| == WIDTH && s.col + n <= WIDTH
    ensures forall x :: 0 <= x < WIDTH ==>
      Spaces(s, n).rows[s.row][x] == if s.col <= x < s.col + n then Entry(SPACE, s.color) else s.rows[s.row][x]
    decreases n
  {
    if n > 0 {
      SpacesCells(SetCell(s, s.col, Entry(SPACE, s.color)).(col := s.col + 1), n - 1);
    }
  }

  /** A backspace takes the cursor back over a plain character exactly when that did not end the
      row; the cell is then blank, not what it was. */
  lemma BackspaceUndoesIff(s: Screen, c: byte)
    requires Ok(s) && Plain(c)
    ensures var r := Printed(Printed(s, c), BACKSPACE);
      && (r.row == s.row && r.col == s.col <==> s.col < WIDTH - 1)
      && (s.col < WIDTH - 1 ==>
            && (forall y :: 0 <= y < |s.rows| && y != s.row ==> r.rows[y] == s.rows[y])
            && (forall x :: 0 <= x < WIDTH ==>
                  r.rows[s.row][x] == if x == s.col then Entry(SPACE, s.color) else s.rows[s.row][x]))
  {}

  // ---- the window ----

  /** The buffer shows the last 25 rows of the screen. */
  ghost predicate Shows(buf: seq<u16>, rows: seq<Row>)
    requires |rows| >= HEIGHT && forall y :: 0 <= y < |rows| ==> |rows[y]| == WIDTH
  {
    && |buf| == CELLS
    && forall i :: 0 <= i < CELLS ==> buf[i] == rows[|rows| - HEIGHT + i / WIDTH][i % WIDTH]
  }

  lemma SetCellShows(buf: seq<u16>, s: Screen, x: nat, e: u16)
    requires RowsOk(s) && Shows(buf, s.rows) && x < WIDTH
    ensures RowsOk(SetCell(s, x, e))
    ensures Shows(buf[(s.row - s.Top()) * WIDTH + x := e], SetCell(s, x, e).rows)
  {
    var k := (s.row - s.Top()) * WIDTH + x;
    assert k / WIDTH == s.row - s.Top() && k % WIDTH == x;
  }

  /** The buffer after terminal_scroll. */
  ghost predicate Scrolled(buf: seq<u16>, buf': seq<u16>, color: byte) {
    && |buf| == |buf'| == CELLS
    && (forall i :: 0 <= i < CELLS - WIDTH ==> buf'[i] == buf[i + WIDTH])
    && (forall i :: CELLS - WIDTH <= i < CELLS ==> buf'[i] == Entry(SPACE, color))
  }

  /** Scrolling the buffer is adding a row to the screen. */
  lemma ScrollShows(buf: seq<u16>, buf': seq<u16>, s: Screen)
    requires RowsOk(s) && Shows(buf, s.rows) && Scrolled(buf, buf', s.color) && s.row == |s.rows| - 1
    ensures RowsOk(NextLine(s)) && Shows(buf', NextLine(s).rows)
  {
    var n := NextLine(s);
    forall i | 0 <= i < CELLS
      ensures buf'[i] == n.rows[n.Top() + i / WIDTH][i % WIDTH]
    {
      if i < CELLS - WIDTH {
        assert buf'[i] == buf[i + WIDTH] && (i + WIDTH) / WIDTH == i / WIDTH + 1 && (i + WIDTH) % WIDTH == i % WIDTH;
      } else {
        assert i / WIDTH == HEIGHT - 1;
      }
    }
  }

  lemma SpacesStep(s: Screen, n: nat)
    requires RowsOk(s) && 0 < n && s.col + n <= WIDTH
    ensures Spaces(s, n) == Spaces(SetCell(s, s.col, Entry(SPACE, s.color)).(col := s.col + 1), n - 1)
  {}

  lemma SpacesNone(s: Screen)
    requires RowsOk(s) && s.col <= WIDTH
    ensures Spaces(s, 0) == s
  {}

  // ---- the code ----

  class Tty {
    const buffer: array<u16>
    var row: nat
    var column: nat
    var color: byte
    ghost var screen: Screen

    /** The buffer shows the screen, and row and colour are the screen's. */
    ghost predicate Displays()
      reads this, buffer
    {
      && buffer.Length == CELLS
      && RowsOk(screen) && Shows(buffer[..], screen.rows)
      && row == screen.row - screen.Top() && color == screen.color
    }

    ghost predicate Valid()
      reads this, buffer
    {
      Displays() && column == screen.col < WIDTH
    }

    constructor (memory: array<u16>)
      requires memory.Length == CELLS
      ensures buffer == memory
    {
      buffer := memory;
      row, column, color := 0, 0, 0;
      screen := Fresh(0);
    }

    /** Fills the buffer with blanks. */
    method Fill(c: byte)
      requires buffer.Length == CELLS
      modifies buffer
      ensures forall i :: 0 <= i < CELLS ==> buffer[i] == Entry(SPACE, c)
    {
      for y := 0 to HEIGHT
        invariant forall i :: 0 <= i < y * WIDTH ==> buffer[i] == Entry(SPACE, c)
      {
        for x := 0 to WIDTH
          invariant forall i :: 0 <= i < y * WIDTH + x ==> buffer[i] == Entry(SPACE, c)
        {
          buffer[y * WIDTH + x] := Entry(SPACE, c);
        }
      }
    }

    method Initialize()
      requires buffer.Length == CELLS
      modifies this, buffer
      ensures Valid() && screen == Fresh(LIGHT_GREY_ON_BLACK)
    {
      row := 0;
      column := 0;
      color := LIGHT_GREY_ON_BLACK;
      Fill(color);
      screen := Fresh(color);
    }

    /** terminal_clear blanks in the default colour but keeps the current one. */
    method Clear()
      requires buffer.Length == CELLS
      modifies this, buffer
      ensures Valid() && screen == Fresh(LIGHT_GREY_ON_BLACK).(color := old(color))
    {
      Fill(LIGHT_GREY_ON_BLACK);
      row := 0;
      column := 0;
      screen := Fresh(LIGHT_GREY_ON_BLACK).(color := color);
    }

    method SetColor(c: byte)
      requires Valid()
      modifies `color, `screen
      ensures Valid() && screen == old(screen).(color := c)
    {
      color := c;
      screen := screen.(color := c);
    }

    method PutEntryAt(c: byte, col: byte, x: nat, y: nat)
      requires Displays() && x < WIDTH && y == row
      modifies buffer, `screen
      ensures Displays() && screen == SetCell(old(screen), x, Entry(c, col))
    {
      hide Shows;
      SetCellShows(buffer[..], screen, x, Entry(c, col));
      ghost var b: seq<u16> := buffer[..];
      buffer[y * WIDTH + x] := Entry(c, col);
      assert buffer[..] == b[y * WIDTH + x := Entry(c, col)];
      screen := SetCell(screen, x, Entry(c, col));
    }

    /** The inner loop of terminal_scroll: row y becomes a copy of row y + 1. */
    method CopyRowUp(y: nat)
      requires buffer.Length == CELLS && y < HEIGHT - 1
      modifies buffer
      ensures forall i :: y * WIDTH <= i < (y + 1) * WIDTH ==> buffer[i] == old(buffer[i + WIDTH])
      ensures forall i :: 0 <= i < y * WIDTH || (y + 1) * WIDTH <= i < CELLS ==> buffer[i] == old(buffer[i])
    {
      for x := 0 to WIDTH
        invariant forall i :: y * WIDTH <= i < y * WIDTH + x ==> buffer[i] == old(buffer[i + WIDTH])
        invariant forall i :: 0 <= i < y * WIDTH || y * WIDTH + x <= i < CELLS ==> buffer[i] == old(buffer[i])
      {
        buffer[y * WIDTH + x] := buffer[(y + 1) * WIDTH + x];
      }
    }

    method Scroll()
      requires buffer.Length == CELLS
      modifies buffer
      ensures Scrolled(old(buffer[..]), buffer[..], color)
    {
      ghost var b := buffer[..];
      for y := 0 to HEIGHT - 1
        invariant forall i :: 0 <= i < y * WIDTH ==> buffer[i] == b[i + WIDTH]
        invariant forall i :: y * WIDTH <= i < CELLS ==> buffer[i] == b[i]
      {
        CopyRowUp(y);
      }
      for x := 0 to WIDTH
        invariant forall i :: 0 <= i < CELLS - WIDTH ==> buffer[i] == b[i + WIDTH]
        invariant forall i :: CELLS - WIDTH <= i < CELLS - WIDTH + x ==> buffer[i] == Entry(SPACE, color)
      {
        buffer[(HEIGHT - 1) * WIDTH + x] := Entry(SPACE, color);
      }
    }

    /** column = 0; if (++row >= HEIGHT) scroll, as it stands three times in terminal_putchar. */
    method LineFeed()
      requires Displays()
      modifies `row, `column, `screen, buffer
      ensures Valid() && screen == NextLine(old(screen))
    {
      hide Scrolled;
      column := 0;
      row := row + 1;
      if row >= HEIGHT {
        ghost var b: seq<u16> := buffer[..];
        Scroll();
        ScrollShows(b, buffer[..], screen);
        hide Shows;
        row := HEIGHT - 1;
      }
      screen := NextLine(screen);
    }

    method PutChar(c: byte)
      requires Valid()
      modifies `row, `column, `screen, buffer
      ensures Valid() && screen == Printed(old(screen), c)
    {
      hide Shows, NextLine;
      if c == NEWLINE {
        LineFeed();
        return;
      }
      if c == BACKSPACE {
        if column > 0 {
          column := column - 1;
          PutEntryAt(SPACE, color, column, row);
          screen := screen.(col := column);
        }
        return;
      }
      if c == TAB {
        HorizontalTab();
        return;
      }
      PutEntryAt(c, color, column, row);
      column := column + 1;
      screen := screen.(col := column);
      if column >= WIDTH { LineFeed(); }
    }

    /** The branch of terminal_putchar for a tab. */
    method HorizontalTab()
      requires Valid()
      modifies `row, `column, `screen, buffer
      ensures Valid() && screen == Printed(old(screen), TAB)
    {
      hide Shows, NextLine, Spaces;
      var spaces := 8 - column % 8;
      assert column + spaces <= WIDTH;
      ghost var s := screen;
      var i := 0;
      while i < spaces && column < WIDTH
        invariant i <= spaces && Displays() && column == screen.col == s.col + i
        invariant Spaces(screen, spaces - i) == Spaces(s, spaces)
      {
        SpacesStep(screen, spaces - i);
        PutEntryAt(SPACE, color, column, row);
        column := column + 1;
        screen := screen.(col := column);
        i := i + 1;
      }
      SpacesNone(screen);
      if column >= WIDTH { LineFeed(); }
    }

    /** terminal_writestring on the characters before the terminating NUL. */
    method WriteString(data: seq<byte>)
      requires Valid()
      modifies `row, `column, `screen, buffer
      ensures Valid() && screen == PrintedAll(old(screen), data)
    {
      hide Shows, Printed;
      ghost var s := screen;
      for i := 0 to |data|
        invariant Valid() && PrintedAll(screen, data[i..]) == PrintedAll(s, data)
      {
        assert data[i..][1..] == data[i + 1..];
        PutChar(data[i]);
      }
    }
  }
}
